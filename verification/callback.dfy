/** Inline-button callback data of the form `PREFIX_<id>` (`JOB_123`,
    `INT_7`, `APP_7`, `SKIP_7`) and the decoder `job_id` of helpers.py. */
module Callback {
  import opened Wrappers
  import opened Strings

  /** Why `job_id` raises. */
  datatype CallbackError =
    | NoSeparator   // `split("_", 1)` gave one piece: IndexError
    | NotAnInteger  // `int()` refused the text after the first `_`: ValueError

  /** The callback data a button carries: `f"{prefix}_{id}"`. */
  function CallbackData(prefix: string, id: int): (r: string)
    ensures |r| > |prefix| && r[..|prefix|] == prefix && r[|prefix|] == '_'
    ensures '_' !in prefix ==> AfterFirstUnderscore(r) == Show(id)
  {
    if '_' in prefix then prefix + "_" + Show(id)
    else
      IndexOfSplitPoint(prefix, '_', Show(id));
      prefix + "_" + Show(id)
  }

  /** `data.split("_", 1)[1]`: the text after the first `_`. */
  function AfterFirstUnderscore(data: string): (r: string)
    requires '_' in data
    ensures exists i :: 0 <= i < |data| && data[i] == '_' && '_' !in data[..i] && r == data[i + 1..]
  {
    var i := IndexOf(data, '_');
    data[i + 1..]
  }

  /** `job_id(data)`: the integer after the first `_`. */
  function JobId(data: string): (r: Result<int, CallbackError>)
    ensures r == Failure(NoSeparator) <==> '_' !in data
    ensures '_' in data ==> (r.Success? <==> ParseInt(AfterFirstUnderscore(data)).Some?)
    ensures r.Success? ==> ParseInt(AfterFirstUnderscore(data)) == Some(r.value)
  {
    if '_' !in data then Failure(NoSeparator)
    else
      var parsed := ParseInt(AfterFirstUnderscore(data));
      if parsed.None? then Failure(NotAnInteger) else Success(parsed.value)
  }

  /** Decoding the data of a button recovers the id it was built from,
      whatever prefix the button uses. */
  lemma JobIdRoundTrip(prefix: string, id: int)
    requires '_' !in prefix
    ensures JobId(CallbackData(prefix, id)) == Success(id)
  {
    IndexOfSplitPoint(prefix, '_', Show(id));
    var data := CallbackData(prefix, id);
    assert data[|prefix| + 1..] == Show(id);
    ParseShow(id);
  }

  /** Only the text after the first `_` matters: the prefix is ignored. */
  lemma JobIdIgnoresPrefix(p: string, q: string, suffix: string)
    requires '_' !in p && '_' !in q
    ensures JobId(p + "_" + suffix) == JobId(q + "_" + suffix)
  {
    IndexOfSplitPoint(p, '_', suffix);
    IndexOfSplitPoint(q, '_', suffix);
    assert (p + "_" + suffix)[|p| + 1..] == suffix;
    assert (q + "_" + suffix)[|q| + 1..] == suffix;
  }

  /** A suffix with a character `int()` can never accept is an error. */
  lemma JobIdRejectsNonNumeric(prefix: string, suffix: string, i: nat)
    requires '_' !in prefix
    requires i < |suffix|
    requires !IsDigit(suffix[i]) && suffix[i] != '_' && suffix[i] != '+' && suffix[i] != '-'
    requires !IntSpace(suffix[i])
    ensures JobId(prefix + "_" + suffix) == Failure(NotAnInteger)
  {
    IndexOfSplitPoint(prefix, '_', suffix);
    assert (prefix + "_" + suffix)[|prefix| + 1..] == suffix;
    ParseRejects(suffix, i);
  }

  /** The file separator U+001C counts as white space for `isspace` but
      not for `int()`, so data carrying it before the digits raises. */
  lemma JobIdRejectsSeparator()
    ensures JobId("JOB_" + ['\U{1C}', '5']) == Failure(NotAnInteger)
  {
    assert "JOB_" + ['\U{1C}', '5'] == "JOB" + "_" + ['\U{1C}', '5'];
    JobIdRejectsNonNumeric("JOB", ['\U{1C}', '5'], 0);
  }

  /** The example of helpers.py. */
  lemma JobIdExample()
    ensures JobId("JOB_123") == Success(123)
  {
    assert "JOB_123" == CallbackData("JOB", 123);
    JobIdRoundTrip("JOB", 123);
  }
}
