/** The handful of Python `str` operations the bot relies on, with their
    Python semantics: `isspace`, `strip`, `split` on a one-character
    separator, `join`, ASCII `lower`, `str(int)` and `int(str)`. */
module Strings {
  import opened Wrappers

  /** Python's `str.isspace` for one character: the Unicode White_Space
      characters together with the separators U+001C..U+001F. */
  predicate IsSpace(c: char) {
    var n := c as int;
    || n == 0x20
    || 0x09 <= n <= 0x0D
    || 0x1C <= n <= 0x1F
    || n == 0x85 || n == 0xA0 || n == 0x1680
    || 0x2000 <= n <= 0x200A
    || n == 0x2028 || n == 0x2029 || n == 0x202F || n == 0x205F || n == 0x3000
  }

  /** The information separators U+001C..U+001F: `isspace` accepts them,
      but `int()` does not ignore them. */
  predicate IsSeparator(c: char) {
    0x1C <= c as int <= 0x1F
  }

  /** The white space `int()` ignores around its digits. Python turns
      every non-ASCII white space character into a space and then strips
      only ASCII white space, so this is `isspace` without the
      separators. */
  predicate IntSpace(c: char) {
    IsSpace(c) && !IsSeparator(c)
  }

  /** `str.lstrip()`: drops the leading white space and nothing else. */
  function TrimStart(s: string): (r: string)
    ensures |r| <= |s| && r == s[|s| - |r|..]
    ensures forall i :: 0 <= i < |s| - |r| ==> IsSpace(s[i])
    ensures r == [] || !IsSpace(r[0])
  {
    if |s| > 0 && IsSpace(s[0]) then TrimStart(s[1..]) else s
  }

  /** `str.rstrip()`: drops the trailing white space and nothing else. */
  function TrimEnd(s: string): (r: string)
    ensures |r| <= |s| && r == s[..|r|]
    ensures forall i :: |r| <= i < |s| ==> IsSpace(s[i])
    ensures r == [] || !IsSpace(r[|r| - 1])
  {
    if |s| > 0 && IsSpace(s[|s| - 1]) then TrimEnd(s[..|s| - 1]) else s
  }

  /** A prefix of a suffix is a slice. */
  lemma PrefixOfSuffix(s: string, k: nat, ts: string, r: string)
    requires k <= |s| && ts == s[k..]
    requires |r| <= |ts| && r == ts[..|r|]
    ensures k + |r| <= |s| && r == s[k..k + |r|]
    ensures forall i :: k + |r| <= i < |s| ==> s[i] == ts[i - k]
  {
  }

  /** Dropping white space from the front and then from the back leaves
      a slice of the input with only white space around it and non-space
      ends; input that already has non-space ends loses nothing. */
  lemma SliceBetweenSpaces(s: string, ts: string, r: string)
    requires |ts| <= |s| && ts == s[|s| - |ts|..]
    requires forall i :: 0 <= i < |s| - |ts| ==> IsSpace(s[i])
    requires ts == [] || !IsSpace(ts[0])
    requires |r| <= |ts| && r == ts[..|r|]
    requires forall i :: |r| <= i < |ts| ==> IsSpace(ts[i])
    requires r == [] || !IsSpace(r[|r| - 1])
    ensures |s| - |ts| + |r| <= |s| && forall i :: 0 <= i < |r| ==> r[i] == s[|s| - |ts| + i]
    ensures forall i :: |s| - |ts| + |r| <= i < |s| ==> IsSpace(s[i])
    ensures r == [] || (!IsSpace(r[0]) && !IsSpace(r[|r| - 1]))
    ensures s == [] || (!IsSpace(s[0]) && !IsSpace(s[|s| - 1])) ==> |ts| == |s| && |r| == |s|
  {
    var k := |s| - |ts|;
    PrefixOfSuffix(s, k, ts, r);
    forall i | k + |r| <= i < |s|
      ensures IsSpace(s[i])
    {
      assert s[i] == ts[i - k];
      assert |r| <= i - k < |ts|;
    }
    if r != [] {
      assert r[0] == ts[0];
    }
    if s != [] && !IsSpace(s[0]) && !IsSpace(s[|s| - 1]) {
      assert k == 0;
      assert ts[|ts| - 1] == s[|s| - 1];
    }
  }

  /** `str.strip()`: the input with its leading white space (the first
      `|s| - |TrimStart(s)|` characters) and its trailing white space
      removed, and nothing else. */
  function Strip(s: string): (r: string)
    ensures |r| <= |s|
    ensures |s| - |TrimStart(s)| + |r| <= |s| && forall i :: 0 <= i < |r| ==> r[i] == s[|s| - |TrimStart(s)| + i]
    ensures forall i :: 0 <= i < |s| - |TrimStart(s)| ==> IsSpace(s[i])
    ensures forall i :: |s| - |TrimStart(s)| + |r| <= i < |s| ==> IsSpace(s[i])
    ensures r == [] || (!IsSpace(r[0]) && !IsSpace(r[|r| - 1]))
    ensures s == [] || (!IsSpace(s[0]) && !IsSpace(s[|s| - 1])) ==> r == s
  {
    var ts := TrimStart(s);
    var r := TrimEnd(ts);
    SliceBetweenSpaces(s, ts, r);
    r
  }

  /** Position of the first `c` in `s`. */
  function IndexOf(s: string, c: char): (i: nat)
    requires c in s
    ensures i < |s| && s[i] == c && c !in s[..i]
  {
    if s[0] == c then 0 else 1 + IndexOf(s[1..], c)
  }

  /** Position of the last `c` in `s`. */
  function LastIndexOf(s: string, c: char): (i: nat)
    requires c in s
    ensures i < |s| && s[i] == c && c !in s[i + 1..]
  {
    if s[|s| - 1] == c then |s| - 1 else LastIndexOf(s[..|s| - 1], c)
  }

  lemma IndexOfSplitPoint(a: string, c: char, b: string)
    requires c !in a
    ensures c in a + [c] + b && IndexOf(a + [c] + b, c) == |a|
  {
    var s := a + [c] + b;
    assert s[|a|] == c;
    assert s[..|a|] == a;
  }

  lemma LastIndexOfSplitPoint(a: string, c: char, b: string)
    requires c !in b
    ensures c in a + [c] + b && LastIndexOf(a + [c] + b, c) == |a|
  {
    var s := a + [c] + b;
    assert s[|a|] == c;
    assert s[|a| + 1..] == b;
  }

  /** Stripping only removes characters. */
  lemma StripKeeps(s: string, c: char)
    requires c !in s
    ensures c !in Strip(s)
  {
    var r := Strip(s);
    var k := |s| - |TrimStart(s)|;
    forall i | 0 <= i < |r|
      ensures r[i] != c
    {
      assert r[i] == s[k + i];
    }
  }

  /** `sep.join(parts)` */
  function Join(parts: seq<string>, sep: char): string
  {
    if |parts| == 0 then []
    else if |parts| == 1 then parts[0]
    else parts[0] + [sep] + Join(parts[1..], sep)
  }

  lemma JoinThree(a: string, b: string, c: string, sep: char)
    ensures Join([a, b, c], sep) == a + [sep] + b + [sep] + c
  {
    assert [a, b, c][1..] == [b, c] && [b, c][1..] == [c];
    assert Join([b, c], sep) == b + [sep] + c;
    assert a + [sep] + (b + [sep] + c) == a + [sep] + b + [sep] + c;
  }

  /** `s.split(sep)`: the pieces between consecutive separators, empty
      pieces included; there is always at least one piece. */
  function Split(s: string, sep: char): (r: seq<string>)
    ensures |r| >= 1
    ensures forall i :: 0 <= i < |r| ==> sep !in r[i]
    ensures Join(r, sep) == s
    decreases |s|
  {
    if sep !in s then [s]
    else
      var k := IndexOf(s, sep);
      var rest := Split(s[k + 1..], sep);
      assert ([s[..k]] + rest)[1..] == rest;
      assert s == s[..k] + [sep] + s[k + 1..];
      [s[..k]] + rest
  }

  /** Splitting at a first separator peels off the piece before it. */
  lemma SplitCons(a: string, sep: char, b: string)
    requires sep !in a
    ensures Split(a + [sep] + b, sep) == [a] + Split(b, sep)
  {
    var s := a + [sep] + b;
    IndexOfSplitPoint(a, sep, b);
    assert s[..|a|] == a;
    assert s[|a| + 1..] == b;
  }

  /** Splitting undoes joining pieces that do not contain the separator. */
  lemma {:induction false} SplitJoin(parts: seq<string>, sep: char)
    requires |parts| >= 1
    requires forall i :: 0 <= i < |parts| ==> sep !in parts[i]
    ensures Split(Join(parts, sep), sep) == parts
  {
    if |parts| > 1 {
      var rest := parts[1..];
      assert sep !in parts[0];
      assert forall i :: 0 <= i < |rest| ==> rest[i] == parts[i + 1];
      SplitJoin(rest, sep);
      SplitCons(parts[0], sep, Join(rest, sep));
      assert parts == [parts[0]] + rest;
    } else {
      assert sep !in parts[0];
    }
  }

  /** A character that is neither the separator nor in any piece is not
      in the joined string. */
  lemma {:induction false} JoinExcludes(parts: seq<string>, sep: char, c: char)
    requires c != sep
    requires forall i :: 0 <= i < |parts| ==> c !in parts[i]
    ensures c !in Join(parts, sep)
  {
    if |parts| > 1 {
      JoinExcludes(parts[1..], sep, c);
    }
  }

  /** Total number of characters in a list of strings. */
  function TotalLength(parts: seq<string>): nat
  {
    if parts == [] then 0 else |parts[0]| + TotalLength(parts[1..])
  }

  lemma {:induction false} TotalLengthAppend(a: seq<string>, b: seq<string>)
    ensures TotalLength(a + b) == TotalLength(a) + TotalLength(b)
  {
    if a == [] {
      assert a + b == b;
    } else {
      assert (a + b)[0] == a[0];
      assert (a + b)[1..] == a[1..] + b;
      TotalLengthAppend(a[1..], b);
    }
  }

  /** A join is as long as its pieces plus one separator between each two. */
  lemma {:induction false} JoinLength(parts: seq<string>, sep: char)
    requires |parts| >= 1
    ensures |Join(parts, sep)| == TotalLength(parts) + |parts| - 1
  {
    if |parts| > 1 {
      JoinLength(parts[1..], sep);
    }
  }

  /** `s[::-1]` */
  function Reverse<T>(s: seq<T>): (r: seq<T>)
    ensures |r| == |s|
    ensures forall i :: 0 <= i < |s| ==> r[i] == s[|s| - 1 - i]
  {
    if s == [] then [] else Reverse(s[1..]) + [s[0]]
  }

  lemma {:induction false} TotalLengthReverse(parts: seq<string>)
    ensures TotalLength(Reverse(parts)) == TotalLength(parts)
  {
    if parts != [] {
      TotalLengthReverse(parts[1..]);
      TotalLengthAppend(Reverse(parts[1..]), [parts[0]]);
    }
  }

  /** ASCII `str.lower()` of one character. */
  function LowerChar(c: char): char
  {
    if 'A' <= c <= 'Z' then (c as int - 'A' as int + 'a' as int) as char else c
  }

  /** `str.lower()`, restricted to the ASCII letters: each upper-case
      ASCII letter becomes its lower-case letter, so none is left, and
      every other character is kept. */
  function Lower(s: string): (r: string)
    ensures |r| == |s|
    ensures forall i :: 0 <= i < |r| ==> !('A' <= r[i] <= 'Z')
    ensures forall i :: 0 <= i < |s| && !('A' <= s[i] <= 'Z') ==> r[i] == s[i]
    ensures forall i :: 0 <= i < |s| && 'A' <= s[i] <= 'Z' ==> r[i] == (s[i] as int - 'A' as int + 'a' as int) as char
  {
    seq(|s|, i requires 0 <= i < |s| => LowerChar(s[i]))
  }

  predicate IsDigit(c: char) {
    '0' <= c <= '9'
  }

  function DigitChar(d: nat): (c: char)
    requires d < 10
    ensures IsDigit(c)
  {
    ('0' as int + d) as char
  }

  function DigitValue(c: char): (d: nat)
    requires IsDigit(c)
    ensures d < 10 && DigitChar(d) == c
  {
    c as int - '0' as int
  }

  predicate AllDigits(s: string) {
    forall i :: 0 <= i < |s| ==> IsDigit(s[i])
  }

  /** `str(n)` for a non-negative `n`: decimal digits, no leading zero. */
  function ShowNat(n: nat): (r: string)
    ensures |r| >= 1 && AllDigits(r)
    ensures r[0] == '0' ==> n == 0
  {
    if n < 10 then [DigitChar(n)] else ShowNat(n / 10) + [DigitChar(n % 10)]
  }

  /** `str(n)` */
  function Show(n: int): (r: string)
    ensures |r| >= 1
    ensures AllDigits(r) <==> n >= 0
    ensures n < 0 ==> r[0] == '-' && AllDigits(r[1..])
  {
    if n < 0 then
      var r := "-" + ShowNat(-n);
      assert !IsDigit(r[0]);
      assert r[1..] == ShowNat(-n);
      r
    else ShowNat(n)
  }

  /** The number a string of decimal digits denotes. */
  function DigitsValue(s: string): nat
    requires AllDigits(s)
  {
    if s == [] then 0 else DigitsValue(s[..|s| - 1]) * 10 + DigitValue(s[|s| - 1])
  }

  lemma {:induction false} ShowNatValue(n: nat)
    ensures DigitsValue(ShowNat(n)) == n
  {
    if n >= 10 {
      var r := ShowNat(n);
      assert r[..|r| - 1] == ShowNat(n / 10);
      ShowNatValue(n / 10);
    }
  }

  /** The digit group syntax of Python's `int()`: digits, with single
      underscores allowed between two digits. */
  predicate WellFormedDigits(s: string) {
    && |s| >= 1
    && IsDigit(s[0])
    && IsDigit(s[|s| - 1])
    && (forall i :: 0 <= i < |s| ==> IsDigit(s[i]) || s[i] == '_')
    && (forall i :: 0 <= i < |s| && s[i] == '_' ==> i + 1 < |s| && IsDigit(s[i + 1]))
  }

  /** The digits of `s` with the underscores removed. */
  function Digits(s: string): (r: string)
    requires forall i :: 0 <= i < |s| ==> IsDigit(s[i]) || s[i] == '_'
    ensures AllDigits(r)
    ensures AllDigits(s) ==> r == s
  {
    if s == [] then []
    else (if s[0] == '_' then [] else [s[0]]) + Digits(s[1..])
  }

  /** The unsigned part of Python's `int(text)`. */
  function ParseMagnitude(s: string): Option<nat>
  {
    if WellFormedDigits(s) then Some(DigitsValue(Digits(s))) else None
  }

  /** `int()` on text with no surrounding white space: one optional
      sign, then a digit group. */
  function ParseSigned(t: string): Option<int>
  {
    var signed := |t| > 0 && (t[0] == '+' || t[0] == '-');
    var m := ParseMagnitude(if signed then t[1..] else t);
    if m.None? then None
    else if signed && t[0] == '-' then Some(-(m.value as int))
    else Some(m.value as int)
  }

  /** Python's `int(text)` in base 10: surrounding `IntSpace` white space
      is ignored, then one optional sign, then a digit group; anything else
      is `None` (a `ValueError`). A separator is never stripped by `int()`
      and can never be part of a number, so text holding one anywhere is
      refused; on the remaining text `IntSpace` and `isspace` agree, and
      `int()`'s strip is `Strip`. */
  function ParseInt(s: string): Option<int>
  {
    if exists i :: 0 <= i < |s| && IsSeparator(s[i]) then None
    else ParseSigned(Strip(s))
  }

  lemma ParseMagnitudeShow(k: nat)
    ensures ParseMagnitude(ShowNat(k)) == Some(k)
  {
    ShowNatValue(k);
  }

  /** `str(n)` has no white space to strip. */
  lemma StripShow(n: int)
    ensures Strip(Show(n)) == Show(n)
    ensures forall i :: 0 <= i < |Show(n)| ==> !IsSeparator(Show(n)[i])
  {
    var s := Show(n);
    assert !IsSpace(s[0]) && !IsSpace(s[|s| - 1]);
    forall i | 0 <= i < |s|
      ensures !IsSeparator(s[i])
    {
      if n < 0 && i > 0 {
        assert s[i] == s[1..][i - 1];
      }
    }
  }

  lemma ParseSignedShowNat(k: nat)
    ensures ParseSigned(ShowNat(k)) == Some(k as int)
  {
    var s := ShowNat(k);
    assert IsDigit(s[0]);
    ParseMagnitudeShow(k);
  }

  lemma ParseSignedShowNeg(k: nat)
    ensures ParseSigned("-" + ShowNat(k)) == Some(-(k as int))
  {
    var s := "-" + ShowNat(k);
    assert s[0] == '-';
    assert s[1..] == ShowNat(k);
    ParseMagnitudeShow(k);
  }

  lemma ParseShowNegative(n: int)
    requires n < 0
    ensures ParseInt(Show(n)) == Some(n)
  {
    var k: nat := -n;
    var t := "-" + ShowNat(k);
    assert Show(n) == t;
    StripShow(n);
    ParseSignedShowNeg(k);
  }

  lemma ParseShowNonNegative(n: int)
    requires n >= 0
    ensures ParseInt(Show(n)) == Some(n)
  {
    assert Show(n) == ShowNat(n);
    StripShow(n);
    ParseSignedShowNat(n);
  }

  /** `int(str(n)) == n` */
  lemma ParseShow(n: int)
    ensures ParseInt(Show(n)) == Some(n)
  {
    if n < 0 {
      ParseShowNegative(n);
    } else {
      ParseShowNonNegative(n);
    }
  }

  /** A character outside digits, `_`, signs and `IntSpace` white space makes `int()` fail. */
  lemma MagnitudeRejects(u: string, k: nat)
    requires k < |u|
    requires !IsDigit(u[k]) && u[k] != '_'
    ensures ParseMagnitude(u) == None
  {
    assert !(IsDigit(u[k]) || u[k] == '_');
  }

  lemma ParseSignedRejects(t: string, j: nat)
    requires j < |t|
    requires !IsDigit(t[j]) && t[j] != '_' && t[j] != '+' && t[j] != '-'
    ensures ParseSigned(t) == None
  {
    if |t| > 0 && (t[0] == '+' || t[0] == '-') {
      assert t[1..][j - 1] == t[j];
      MagnitudeRejects(t[1..], j - 1);
    } else {
      MagnitudeRejects(t, j);
    }
  }

  lemma ParseRejects(s: string, i: nat)
    requires i < |s|
    requires !IsDigit(s[i]) && s[i] != '_' && s[i] != '+' && s[i] != '-' && !IntSpace(s[i])
    ensures ParseInt(s) == None
  {
    if !IsSeparator(s[i]) {
      var a := TrimStart(s);
      var t := Strip(s);
      var j := i - (|s| - |a|);
      assert 0 <= j < |t| by {
        assert a[j] == s[i];
      }
      assert t[j] == s[i];
      ParseSignedRejects(t, j);
    }
  }
}
