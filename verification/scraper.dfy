/** scraper.py: turning the rows of the `job-listings` table into
    postings (`extract_job_details`) and storing the postings not seen
    before (`get_and_save_new_jobs`). The HTML tree, the HTTP session and
    the clock are inputs. */
module Scraper {
  import opened Wrappers
  import opened Strings
  import opened Catalog

  /** One `<td>` of a listing row: its text, and the `href` of the first
      link inside it when there is one. */
  datatype Cell = Cell(text: string, link: Option<string>)

  /** One `<tr>` of the listing table. */
  datatype ListingRow = ListingRow(cells: seq<Cell>)

  /** The `Job` namedtuple: one posting as scraped, dates as ISO text. */
  datatype Posting = Posting(title: string, uid: string, endDate: string, postedDate: string)

  /** Why `extract_job_details` raises on a row. */
  datatype ExtractError =
    | WrongCellCount(count: nat)  // the four-name unpacking: ValueError
    | MissingLink                 // no `<a href>` in the action cell: AttributeError
    | NoSlashInLink               // `rsplit("/", 1)[1]` on a one-piece split: IndexError

  // ---------------------------------------------------------------------
  // Dates

  /** Reversing and rejoining the `/`-pieces with `-`: no `/` is left,
      the length is kept, and a single piece comes back as it was. */
  lemma SwappedPieces(s: string)
    ensures '/' !in Join(Reverse(Split(s, '/')), '-')
    ensures |Join(Reverse(Split(s, '/')), '-')| == |s|
    ensures '/' !in s ==> Join(Reverse(Split(s, '/')), '-') == s
  {
    var parts := Split(s, '/');
    var rev := Reverse(parts);
    forall i | 0 <= i < |rev|
      ensures '/' !in rev[i]
    {
      assert rev[i] == parts[|parts| - 1 - i];
    }
    JoinExcludes(rev, '-', '/');
    JoinLength(parts, '/');
    JoinLength(rev, '-');
    TotalLengthReverse(parts);
    if '/' !in s {
      assert parts == [s];
      assert rev == [s];
    }
  }

  /** `"-".join(text.split("/")[::-1])`: every `/` becomes one `-`, so
      no `/` is left and the length is kept; text without a `/` is a
      single piece and comes back unchanged. */
  function SwapDate(s: string): (r: string)
    ensures '/' !in r
    ensures |r| == |s|
    ensures '/' !in s ==> r == s
  {
    SwappedPieces(s);
    Join(Reverse(Split(s, '/')), '-')
  }

  /** The date rewrite of scraper.py: strip, then swap the pieces. The
      result has no `/` and is never longer than the cell text; a cell
      that is already trimmed and has no `/` is kept as it is. */
  function NormaliseDate(text: string): (r: string)
    ensures '/' !in r
    ensures |r| <= |text|
    ensures '/' !in text && (text == [] || (!IsSpace(text[0]) && !IsSpace(text[|text| - 1]))) ==> r == text
  {
    SwapDate(Strip(text))
  }

  /** Three pieces without a `/`, joined by `/`, split back into them. */
  lemma SplitThree(d: string, m: string, y: string)
    requires '/' !in d && '/' !in m && '/' !in y
    ensures Split(d + "/" + m + "/" + y, '/') == [d, m, y]
  {
    assert d + "/" + m + "/" + y == d + ['/'] + (m + ['/'] + y);
    SplitCons(d, '/', m + ['/'] + y);
    SplitCons(m, '/', y);
    assert Split(y, '/') == [y];
  }

  /** `DD/MM/YYYY` becomes `YYYY-MM-DD`, for any pieces without a `/`. */
  lemma SwapDateDayMonthYear(d: string, m: string, y: string)
    requires '/' !in d && '/' !in m && '/' !in y
    ensures SwapDate(d + "/" + m + "/" + y) == y + "-" + m + "-" + d
  {
    SplitThree(d, m, y);
    assert Reverse([d, m, y]) == [y, m, d];
    JoinThree(y, m, d, '-');
  }

  /** Applying the whole rewrite twice only strips the first result
      again: the swap contributes nothing the second time. */
  lemma NormaliseDateTwice(text: string)
    ensures NormaliseDate(NormaliseDate(text)) == Strip(NormaliseDate(text))
  {
    var once := NormaliseDate(text);
    StripKeeps(once, '/');
  }

  /** So the rewrite is not idempotent when the day piece ends in white
      space that the outer strip does not reach: the swap moves it to the
      end, where a second pass strips it. */
  lemma NormaliseDateMovesInnerSpace(d: string, m: string, y: string)
    requires '/' !in d && '/' !in m && '/' !in y
    requires |d| >= 2 && !IsSpace(d[0]) && IsSpace(d[|d| - 1])
    requires |y| >= 1 && !IsSpace(y[|y| - 1])
    ensures NormaliseDate(NormaliseDate(d + "/" + m + "/" + y)) != NormaliseDate(d + "/" + m + "/" + y)
  {
    var raw := d + "/" + m + "/" + y;
    assert raw[0] == d[0] && raw[|raw| - 1] == y[|y| - 1];
    assert Strip(raw) == raw;
    SwapDateDayMonthYear(d, m, y);
    var once := NormaliseDate(raw);
    assert once == y + "-" + m + "-" + d;
    assert IsSpace(once[|once| - 1]);
    NormaliseDateTwice(raw);
  }

  /** `01 /05/2024` becomes `2024-05-01 `, which a second pass strips. */
  lemma NormaliseDateNotIdempotent()
    ensures NormaliseDate(NormaliseDate("01 /05/2024")) != NormaliseDate("01 /05/2024")
  {
    assert "01 /05/2024" == "01 " + "/" + "05" + "/" + "2024";
    NormaliseDateMovesInnerSpace("01 ", "05", "2024");
  }

  // ---------------------------------------------------------------------
  // Rows

  /** `href` is some text, a `/`, then `uid`. */
  predicate LinkEndsWith(href: string, uid: string)
  {
    |uid| < |href| && href == href[..|href| - |uid| - 1] + "/" + uid
  }

  /** `href.rsplit("/", 1)[1]`: the text after the last `/`. */
  function LinkUid(href: string): (r: Result<string, ExtractError>)
    ensures r.Failure? <==> '/' !in href
    ensures r.Failure? ==> r.error == NoSlashInLink
    ensures r.Success? ==> '/' !in r.value && LinkEndsWith(href, r.value)
  {
    if '/' !in href then Failure(NoSlashInLink)
    else
      var i := LastIndexOf(href, '/');
      assert href == href[..i] + "/" + href[i + 1..];
      Success(href[i + 1..])
  }

  /** The uid is recovered from any link ending in `/<uid>`. */
  lemma LinkUidRoundTrip(prefix: string, uid: string)
    requires '/' !in uid
    ensures LinkUid(prefix + "/" + uid) == Success(uid)
  {
    LastIndexOfSplitPoint(prefix, '/', uid);
    assert (prefix + "/" + uid)[|prefix| + 1..] == uid;
  }

  /** One iteration of the row loop of `extract_job_details`: exactly four
      cells (title, end date, posted date, action), dates rewritten, uid
      taken from the action link, title stripped. */
  function ExtractRow(row: ListingRow): (r: Result<Posting, ExtractError>)
    ensures |row.cells| != 4 ==> r == Failure(WrongCellCount(|row.cells|))
    ensures |row.cells| == 4 && row.cells[3].link.None? ==> r == Failure(MissingLink)
    ensures |row.cells| == 4 && row.cells[3].link.Some? ==>
      (r == Failure(NoSlashInLink) <==> '/' !in row.cells[3].link.value)
    ensures |row.cells| == 4 && row.cells[3].link.Some? && '/' in row.cells[3].link.value ==> r.Success?
    ensures r.Success? ==>
      && |row.cells| == 4
      && r.value.title == Strip(row.cells[0].text)
      && r.value.endDate == NormaliseDate(row.cells[1].text)
      && r.value.postedDate == NormaliseDate(row.cells[2].text)
      && row.cells[3].link.Some?
      && '/' !in r.value.uid
      && LinkEndsWith(row.cells[3].link.value, r.value.uid)
  {
    if |row.cells| != 4 then Failure(WrongCellCount(|row.cells|))
    else
      var endDate := NormaliseDate(row.cells[1].text);
      var postedDate := NormaliseDate(row.cells[2].text);
      match row.cells[3].link
      case None => Failure(MissingLink)
      case Some(href) =>
        match LinkUid(href)
        case Failure(e) => Failure(e)
        case Success(uid) =>
          Success(Posting(Strip(row.cells[0].text), uid, endDate, postedDate))
  }

  /** What the `extract_job_details` generator produces: the postings it
      yields, and the error it raises after them, if any. */
  datatype Extraction = Extraction(postings: seq<Posting>, error: Option<ExtractError>)

  /** Consuming a generator whose steps may raise: the values up to the
      first failure, and that failure. */
  function UntilFailure(steps: seq<Result<Posting, ExtractError>>): (r: Extraction)
    ensures |r.postings| <= |steps|
    ensures forall i :: 0 <= i < |r.postings| ==> steps[i] == Success(r.postings[i])
    ensures r.error.None? ==> |r.postings| == |steps|
    ensures r.error.Some? ==> |r.postings| < |steps| && steps[|r.postings|] == Failure(r.error.value)
  {
    if steps == [] then Extraction([], None)
    else if steps[0].Failure? then Extraction([], Some(steps[0].error))
    else
      var rest := UntilFailure(steps[1..]);
      var r := Extraction([steps[0].value] + rest.postings, rest.error);
      assert forall i :: 1 <= i < |steps| ==> steps[i] == steps[1..][i - 1];
      assert forall i :: 1 <= i < |r.postings| ==> r.postings[i] == rest.postings[i - 1];
      r
  }

  /** The generator over all rows: it yields row by row and stops at the
      first row that raises; no row after it is looked at. */
  function ExtractRows(rows: seq<ListingRow>): (r: Extraction)
    ensures |r.postings| <= |rows|
    ensures forall i :: 0 <= i < |r.postings| ==> ExtractRow(rows[i]) == Success(r.postings[i])
    ensures r.error.None? ==> |r.postings| == |rows|
    ensures r.error.Some? ==>
      |r.postings| < |rows| && ExtractRow(rows[|r.postings|]) == Failure(r.error.value)
  {
    UntilFailure(seq(|rows|, i requires 0 <= i < |rows| => ExtractRow(rows[i])))
  }

  // ---------------------------------------------------------------------
  // Ingestion

  /** The catalog after a run, and the rows the run inserted. */
  datatype Ingested = Ingested(table: Table, added: seq<Job>)

  /** A stored row carries the scraped columns of a posting; the date
      text is turned into a day number by `toDay` (SQLite's `DATE()`). */
  predicate Describes(j: Job, p: Posting, toDay: string -> Option<int>)
  {
    && j.title == p.title
    && j.uid == p.uid
    && j.endDate == toDay(p.endDate)
    && j.postedDate == toDay(p.postedDate)
  }

  /** One iteration of `get_and_save_new_jobs`: insert the posting unless
      its uid is already stored. */
  function IngestOne(t: Table, p: Posting, toDay: string -> Option<int>, now: int): (r: Ingested)
    ensures p.uid in Uids(t) ==> r == Ingested(t, [])
    ensures p.uid !in Uids(t) ==>
      && |r.added| == 1
      && r.table == t + r.added
      && Describes(r.added[0], p, toDay)
  {
    if UidExists(t, p.uid) then Ingested(t, [])
    else
      var j := NewJob(t, p.title, p.uid, toDay(p.endDate), toDay(p.postedDate), now);
      Ingested(t + [j], [j])
  }

  /** The insert of a step is exactly the one `insert_job` performs, so it
      never trips the unique constraint and gives default flags. */
  lemma IngestOneInserts(t: Table, p: Posting, toDay: string -> Option<int>, now: int)
    requires p.uid !in Uids(t)
    ensures
      var r := IngestOne(t, p, toDay, now);
      InsertJob(t, p.title, p.uid, toDay(p.endDate), toDay(p.postedDate), now) == Success(Inserted(r.table, r.added[0]))
  {
  }

  /** `get_and_save_new_jobs` over the postings the generator yielded:
      the new rows are appended to the catalog and returned in order. */
  function Ingest(t: Table, ps: seq<Posting>, toDay: string -> Option<int>, now: int): (r: Ingested)
    ensures r.table == t + r.added
    ensures |r.added| <= |ps|
    decreases |ps|
  {
    if ps == [] then Ingested(t, [])
    else
      var one := IngestOne(t, ps[0], toDay, now);
      var rest := Ingest(one.table, ps[1..], toDay, now);
      Ingested(rest.table, one.added + rest.added)
  }

  /** Posting `i` is the first of its uid in the run and its uid is not
      stored yet: it is one the run must insert. */
  predicate FirstNewAt(seen: set<string>, ps: seq<Posting>, i: int)
  {
    && 0 <= i < |ps|
    && ps[i].uid !in seen
    && forall k :: 0 <= k < i ==> ps[k].uid != ps[i].uid
  }

  function Shift(s: seq<nat>): seq<nat>
  {
    seq(|s|, i requires 0 <= i < |s| => s[i] + 1)
  }

  /** The positions, in increasing order, of the postings the run must
      insert, given the uids `seen` before the first posting. */
  function NewPositions(seen: set<string>, ps: seq<Posting>): (r: seq<nat>)
    ensures |r| <= |ps|
    ensures forall a :: 0 <= a < |r| ==> r[a] < |ps|
    decreases |ps|
  {
    if ps == [] then []
    else
      var head: seq<nat> := if ps[0].uid in seen then [] else [0];
      head + Shift(NewPositions(seen + {ps[0].uid}, ps[1..]))
  }

  lemma FirstNewAtTail(seen: set<string>, ps: seq<Posting>, i: nat)
    requires 1 <= i < |ps|
    ensures FirstNewAt(seen, ps, i) <==> FirstNewAt(seen + {ps[0].uid}, ps[1..], i - 1)
  {
    var rest := ps[1..];
    assert rest[i - 1] == ps[i];
    if FirstNewAt(seen + {ps[0].uid}, rest, i - 1) {
      forall k | 0 <= k < i
        ensures ps[k].uid != ps[i].uid
      {
        if k > 0 {
          assert rest[k - 1] == ps[k];
        }
      }
    }
    if FirstNewAt(seen, ps, i) {
      forall k | 0 <= k < i - 1
        ensures rest[k].uid != rest[i - 1].uid
      {
        assert rest[k] == ps[k + 1];
      }
    }
  }

  /** Every listed position is one of a posting to insert. */
  lemma {:induction false} NewPositionsSound(seen: set<string>, ps: seq<Posting>)
    decreases |ps|
    ensures forall a :: 0 <= a < |NewPositions(seen, ps)| ==> FirstNewAt(seen, ps, NewPositions(seen, ps)[a])
  {
    if ps != [] {
      var seen' := seen + {ps[0].uid};
      var rest := ps[1..];
      NewPositionsSound(seen', rest);
      var tail := NewPositions(seen', rest);
      var head: seq<nat> := if ps[0].uid in seen then [] else [0];
      var r := head + Shift(tail);
      assert r == NewPositions(seen, ps);
      forall a | 0 <= a < |r|
        ensures FirstNewAt(seen, ps, r[a])
      {
        if a < |head| {
          assert r[a] == 0;
        } else {
          var b := a - |head|;
          assert r[a] == tail[b] + 1;
          assert FirstNewAt(seen', rest, tail[b]);
          FirstNewAtTail(seen, ps, tail[b] + 1);
        }
      }
    }
  }

  /** A position of the tail, moved one step right, is in the shifted list. */
  lemma ShiftMember(head: seq<nat>, tail: seq<nat>, x: nat)
    requires x in tail
    ensures x + 1 in head + Shift(tail)
  {
    var b :| 0 <= b < |tail| && tail[b] == x;
    assert (head + Shift(tail))[|head| + b] == x + 1;
  }

  /** Every posting to insert is listed. */
  lemma {:induction false} NewPositionsComplete(seen: set<string>, ps: seq<Posting>)
    decreases |ps|
    ensures forall i :: 0 <= i < |ps| && FirstNewAt(seen, ps, i) ==> i in NewPositions(seen, ps)
  {
    if ps != [] {
      var seen' := seen + {ps[0].uid};
      var rest := ps[1..];
      NewPositionsComplete(seen', rest);
      var tail := NewPositions(seen', rest);
      var head: seq<nat> := if ps[0].uid in seen then [] else [0];
      var r := head + Shift(tail);
      assert r == NewPositions(seen, ps);
      forall i | 0 <= i < |ps| && FirstNewAt(seen, ps, i)
        ensures i in r
      {
        if i == 0 {
          assert r[0] == 0;
        } else {
          FirstNewAtTail(seen, ps, i);
          ShiftMember(head, tail, i - 1);
        }
      }
    }
  }

  predicate Increasing(s: seq<nat>)
  {
    forall a, b :: 0 <= a < b < |s| ==> s[a] < s[b]
  }

  /** Moving increasing positions one step right, behind an optional
      position 0, keeps them increasing. */
  lemma ShiftIncreasing(head: seq<nat>, tail: seq<nat>)
    requires head == [] || head == [0]
    requires Increasing(tail)
    ensures Increasing(head + Shift(tail))
  {
    var r := head + Shift(tail);
    forall a, b | 0 <= a < b < |r|
      ensures r[a] < r[b]
    {
      assert r[b] == tail[b - |head|] + 1;
      if a >= |head| {
        assert r[a] == tail[a - |head|] + 1;
      }
    }
  }

  /** The positions are listed in increasing order, so each once. */
  lemma {:induction false} NewPositionsIncreasing(seen: set<string>, ps: seq<Posting>)
    decreases |ps|
    ensures Increasing(NewPositions(seen, ps))
  {
    if ps != [] {
      var seen' := seen + {ps[0].uid};
      NewPositionsIncreasing(seen', ps[1..]);
      var head: seq<nat> := if ps[0].uid in seen then [] else [0];
      ShiftIncreasing(head, NewPositions(seen', ps[1..]));
    }
  }

  /** A step leaves the stored uids as before plus the posting's uid. */
  lemma IngestOneUids(t: Table, p: Posting, toDay: string -> Option<int>, now: int)
    ensures Uids(IngestOne(t, p, toDay, now).table) == Uids(t) + {p.uid}
  {
    var one := IngestOne(t, p, toDay, now);
    if p.uid !in Uids(t) {
      IdsAppend(t, one.added[0]);
    }
  }

  /** Gluing the first step's row onto the rest of the run's rows matches
      gluing position 0 onto the shifted positions of the rest. */
  lemma DescribesGlue(ps: seq<Posting>, head: seq<nat>, tailPos: seq<nat>,
                      first: seq<Job>, later: seq<Job>, toDay: string -> Option<int>)
    requires |ps| >= 1
    requires head == [] || head == [0]
    requires |first| == |head|
    requires head == [0] ==> Describes(first[0], ps[0], toDay)
    requires |later| == |tailPos|
    requires forall b :: 0 <= b < |tailPos| ==> tailPos[b] < |ps| - 1
    requires forall b :: 0 <= b < |tailPos| ==> Describes(later[b], ps[1..][tailPos[b]], toDay)
    ensures |first + later| == |head + Shift(tailPos)|
    ensures forall a :: 0 <= a < |head + Shift(tailPos)| ==>
      (head + Shift(tailPos))[a] < |ps| && Describes((first + later)[a], ps[(head + Shift(tailPos))[a]], toDay)
  {
    var pos := head + Shift(tailPos);
    forall a | 0 <= a < |pos|
      ensures pos[a] < |ps| && Describes((first + later)[a], ps[pos[a]], toDay)
    {
      if a >= |head| {
        var b := a - |head|;
        assert (first + later)[a] == later[b];
        assert pos[a] == tailPos[b] + 1;
        assert ps[pos[a]] == ps[1..][tailPos[b]];
      }
    }
  }

  /** The heart of ingestion: the run returns, in input order, exactly the
      postings whose uid was neither stored nor seen earlier in the run. */
  lemma {:induction false} IngestReturnsFirstNew(t: Table, ps: seq<Posting>, toDay: string -> Option<int>, now: int)
    decreases |ps|
    ensures
      var r := Ingest(t, ps, toDay, now);
      var pos := NewPositions(Uids(t), ps);
      && |r.added| == |pos|
      && forall a :: 0 <= a < |pos| ==> Describes(r.added[a], ps[pos[a]], toDay)
  {
    if ps != [] {
      var one := IngestOne(t, ps[0], toDay, now);
      var rest := Ingest(one.table, ps[1..], toDay, now);
      var seen' := Uids(t) + {ps[0].uid};
      IngestOneUids(t, ps[0], toDay, now);
      IngestReturnsFirstNew(one.table, ps[1..], toDay, now);
      var tailPos := NewPositions(seen', ps[1..]);
      var head: seq<nat> := if ps[0].uid in Uids(t) then [] else [0];
      DescribesGlue(ps, head, tailPos, one.added, rest.added, toDay);
      assert Ingest(t, ps, toDay, now).added == one.added + rest.added;
      assert NewPositions(Uids(t), ps) == head + Shift(tailPos);
    }
  }

  /** Only the first posting of a uid repeated in the input is inserted,
      and never one whose uid is already stored. */
  lemma IngestFreshUidsDistinct(t: Table, ps: seq<Posting>, toDay: string -> Option<int>, now: int)
    ensures
      var r := Ingest(t, ps, toDay, now);
      && (forall a, b :: 0 <= a < b < |r.added| ==> r.added[a].uid != r.added[b].uid)
      && (forall a :: 0 <= a < |r.added| ==> r.added[a].uid !in Uids(t))
  {
    var r := Ingest(t, ps, toDay, now);
    var pos := NewPositions(Uids(t), ps);
    IngestReturnsFirstNew(t, ps, toDay, now);
    NewPositionsSound(Uids(t), ps);
    NewPositionsIncreasing(Uids(t), ps);
    forall a, b | 0 <= a < b < |r.added|
      ensures r.added[a].uid != r.added[b].uid
    {
      assert pos[a] < pos[b];
      assert FirstNewAt(Uids(t), ps, pos[b]);
    }
    forall a | 0 <= a < |r.added|
      ensures r.added[a].uid !in Uids(t)
    {
      assert FirstNewAt(Uids(t), ps, pos[a]);
    }
  }

  function PostingUids(ps: seq<Posting>): set<string>
  {
    set p | p in ps :: p.uid
  }

  lemma PostingUidsCons(ps: seq<Posting>)
    requires ps != []
    ensures PostingUids(ps) == {ps[0].uid} + PostingUids(ps[1..])
  {
    assert forall p :: p in ps <==> p == ps[0] || p in ps[1..];
  }

  /** After a run the stored uids are the old ones together with every
      scraped uid; the rows stored before are untouched. */
  lemma {:induction false} IngestUids(t: Table, ps: seq<Posting>, toDay: string -> Option<int>, now: int)
    decreases |ps|
    ensures
      var r := Ingest(t, ps, toDay, now);
      && Uids(r.table) == Uids(t) + PostingUids(ps)
      && r.table[..|t|] == t
  {
    var r := Ingest(t, ps, toDay, now);
    if ps != [] {
      var one := IngestOne(t, ps[0], toDay, now);
      assert r.table == Ingest(one.table, ps[1..], toDay, now).table;
      IngestOneUids(t, ps[0], toDay, now);
      IngestUids(one.table, ps[1..], toDay, now);
      PostingUidsCons(ps);
    }
    assert r.table[..|t|] == t;
  }

  /** A run over postings whose uids are all stored inserts nothing. */
  lemma {:induction false} IngestKnownIsNoop(t: Table, ps: seq<Posting>, toDay: string -> Option<int>, now: int)
    requires PostingUids(ps) <= Uids(t)
    ensures Ingest(t, ps, toDay, now) == Ingested(t, [])
  {
    if ps != [] {
      assert ps[0] in ps;
      assert PostingUids(ps[1..]) <= PostingUids(ps) by {
        assert forall p :: p in ps[1..] ==> p in ps;
      }
      IngestKnownIsNoop(t, ps[1..], toDay, now);
    }
  }

  /** Running ingestion a second time over the same postings returns
      nothing and leaves the catalog as the first run left it. */
  lemma IngestTwiceReturnsNothing(t: Table, ps: seq<Posting>, toDay: string -> Option<int>, now1: int, now2: int)
    ensures
      var first := Ingest(t, ps, toDay, now1);
      Ingest(first.table, ps, toDay, now2) == Ingested(first.table, [])
  {
    IngestUids(t, ps, toDay, now1);
    IngestKnownIsNoop(Ingest(t, ps, toDay, now1).table, ps, toDay, now2);
  }

  /** Ingestion keeps both ids and uids unique. */
  lemma {:induction false} IngestWellFormed(t: Table, ps: seq<Posting>, toDay: string -> Option<int>, now: int)
    requires WellFormed(t)
    ensures WellFormed(Ingest(t, ps, toDay, now).table)
    decreases |ps|
  {
    if ps != [] {
      var one := IngestOne(t, ps[0], toDay, now);
      IngestWellFormed(one.table, ps[1..], toDay, now);
    }
  }

  // ---------------------------------------------------------------------
  // One scrape session

  /** What the HTTP session delivered: a network failure during login or
      fetch, or the listing page, whose `job-listings` table may be
      missing, followed by a logout that may fail. */
  datatype Session =
    | NetworkFailure
    | Fetched(table: Option<seq<ListingRow>>, logoutFails: bool)

  /** Why `get_and_save_new_jobs` raises. */
  datatype ScrapeError =
    | SessionFailed
    | ListingTableMissing   // `find()` returned None: AttributeError on `findall`
    | RowFailed(e: ExtractError)
    | LogoutFailed

  /** The outcome of `get_and_save_new_jobs`: the list of new rows, or an
      exception; in both cases the catalog keeps every insert made before
      the end of the run. */
  datatype Run =
    | Completed(table: Table, added: seq<Job>)
    | Raised(table: Table, error: ScrapeError)

  /** `get_and_save_new_jobs()`: the generator's postings are ingested one
      by one as they are yielded, so an exception leaves the inserts of
      the rows before it in place. */
  function GetAndSaveNewJobs(t: Table, s: Session, toDay: string -> Option<int>, now: int): (r: Run)
    ensures r.Completed? ==>
      && s.Fetched? && s.table.Some? && !s.logoutFails
      && Ingested(r.table, r.added) == Ingest(t, ExtractRows(s.table.value).postings, toDay, now)
    ensures r.Raised? && r.error.RowFailed? ==>
      && s.Fetched? && s.table.Some?
      && ExtractRows(s.table.value).error == Some(r.error.e)
      && r.table == Ingest(t, ExtractRows(s.table.value).postings, toDay, now).table
    ensures (s.NetworkFailure? || (s.Fetched? && s.table.None?)) ==> r.Raised? && r.table == t
    ensures s.Fetched? && s.table.Some? && ExtractRows(s.table.value).error.Some? ==>
      r.Raised? && r.error == RowFailed(ExtractRows(s.table.value).error.value)
    ensures s.Fetched? && s.table.Some? && ExtractRows(s.table.value).error.None? ==>
      (r.Completed? <==> !s.logoutFails)
    ensures r.Raised? && r.error == LogoutFailed ==>
      && s.Fetched? && s.table.Some? && s.logoutFails
      && r.table == Ingest(t, ExtractRows(s.table.value).postings, toDay, now).table
    ensures s.Fetched? && s.table.Some? && ExtractRows(s.table.value).error.None? && s.logoutFails ==>
      r == Raised(Ingest(t, ExtractRows(s.table.value).postings, toDay, now).table, LogoutFailed)
    ensures |r.table| >= |t| && r.table[..|t|] == t
  {
    match s
    case NetworkFailure => Raised(t, SessionFailed)
    case Fetched(None, _) => Raised(t, ListingTableMissing)
    case Fetched(Some(rows), logoutFails) =>
      var ex := ExtractRows(rows);
      var run := Ingest(t, ex.postings, toDay, now);
      if ex.error.Some? then Raised(run.table, RowFailed(ex.error.value))
      else if logoutFails then Raised(run.table, LogoutFailed)
      else Completed(run.table, run.added)
  }

  /** A second complete scrape of an unchanged listing reports no new job. */
  lemma ScrapeIdempotent(t: Table, s: Session, toDay: string -> Option<int>, now1: int, now2: int)
    requires GetAndSaveNewJobs(t, s, toDay, now1).Completed?
    ensures
      var first := GetAndSaveNewJobs(t, s, toDay, now1);
      GetAndSaveNewJobs(first.table, s, toDay, now2) == Completed(first.table, [])
  {
    IngestTwiceReturnsNothing(t, ExtractRows(s.table.value).postings, toDay, now1, now2);
  }
}
