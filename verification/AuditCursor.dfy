/**
 When the audit export's cursor is right. The export of internal/api/audit.go starts the next query at
 the last row's time read by ParseTime and written again by FormatTime, and the store compares texts:
 a time stored in another spelling is not the time the cursor carries.
*/
module AuditCursor {
  import opened Optional
  import opened Text
  import opened AuditExport

  /** A page turn over a fixed table gives the page that is next exactly when no matching row is in the gap. */
  lemma {:induction false} TurnIsExactIff(f: Filter, rows: set<Row>, batch: nat, canon: string -> string, last: Row,
        next: seq<Row>)
    requires batch >= 1 && last in rows && Matches(f, last) && canon(last.created) != ""
    requires IsPage(Selected(rows, f, canon(last.created), last.id), batch, next)
    ensures IsPage(Remaining(rows, f, KeyOf(last)), batch, next) <==> Gap(rows, f, canon, last) == {}
  {
    hide Below, Matches;
    if Gap(rows, f, canon, last) == {} {
      NoGapTurns(f, rows, rows, canon, last);
    } else {
      var q :| q in Gap(rows, f, canon, last);
      if Below(KeyOf(q), KeyOf(last)) {
        SkippedIsMissed(f, rows, batch, canon, last, next, q);
      } else {
        CursorIsAbove(canon, last, q);
        RepeatedIsTaken(f, rows, batch, canon, last, next);
      }
    }
  }

  /** A row below the last one and not below its cursor is left out, although its turn has come. */
  lemma {:induction false} SkippedIsMissed(f: Filter, rows: set<Row>, batch: nat, canon: string -> string, last: Row,
        next: seq<Row>, q: Row)
    requires batch >= 1 && canon(last.created) != ""
    requires IsPage(Selected(rows, f, canon(last.created), last.id), batch, next)
    requires q in rows && Matches(f, q) && Below(KeyOf(q), KeyOf(last)) && !Below(KeyOf(q), Cursor(canon, last))
    ensures q !in next && !IsPage(Remaining(rows, f, KeyOf(last)), batch, next)
  {
    hide Below, Matches;
    if IsPage(Remaining(rows, f, KeyOf(last)), batch, next) {
      assert q in Remaining(rows, f, KeyOf(last));
      assert next[0] in next;
      BelowIsTransitive(KeyOf(q), KeyOf(next[0]), Cursor(canon, last));
    }
  }

  lemma {:induction false} CursorIsAbove(canon: string -> string, last: Row, q: Row)
    requires !Below(KeyOf(q), KeyOf(last)) && Below(KeyOf(q), Cursor(canon, last))
    ensures Below(KeyOf(last), Cursor(canon, last))
  {
    hide Below;
    BelowIsTotal(KeyOf(q), KeyOf(last));
    if Below(KeyOf(last), KeyOf(q)) { BelowIsTransitive(KeyOf(last), KeyOf(q), Cursor(canon, last)); }
  }

  /** A last row whose cursor sorts above it is selected again, or a row above it is. */
  lemma {:induction false} RepeatedIsTaken(f: Filter, rows: set<Row>, batch: nat, canon: string -> string, last: Row,
        next: seq<Row>)
    requires batch >= 1 && last in rows && Matches(f, last) && canon(last.created) != ""
    requires IsPage(Selected(rows, f, canon(last.created), last.id), batch, next)
    requires Below(KeyOf(last), Cursor(canon, last))
    ensures next != [] && (last in next || AllAbove(next, KeyOf(last)))
    ensures !IsPage(Remaining(rows, f, KeyOf(last)), batch, next)
  {
    hide Below, Matches;
    assert last in Selected(rows, f, canon(last.created), last.id);
    BelowIsStrict(KeyOf(last));
    if AllAbove(next, KeyOf(last)) && |next| == batch {
      assert next[0] in next;
      BelowIsTotal(KeyOf(next[0]), KeyOf(last));
    }
  }

  // ----- whole exports of a fixed table -----

  function Flat(pages: seq<seq<Row>>): seq<Row> {
    if pages == [] then [] else Flat(pages[..|pages| - 1]) + pages[|pages| - 1]
  }

  /** A full page, and what the query after it gives. */
  ghost predicate TurnAt(f: Filter, rows: set<Row>, batch: nat, canon: string -> string, pages: seq<seq<Row>>, i: nat)
    requires i + 1 < |pages|
  {
    |pages[i]| == batch > 0 &&
    var last := pages[i][batch - 1];
    IsPage(Selected(rows, f, canon(last.created), last.id), batch, pages[i + 1])
  }

  /** The pages the loop reads of a table nobody writes to, in whatever spellings. */
  ghost predicate IsPages(f: Filter, rows: set<Row>, batch: nat, canon: string -> string, pages: seq<seq<Row>>) {
    && batch >= 1 && |pages| > 0 && IsPage(Selected(rows, f, "", ""), batch, pages[0])
    && forall i :: 0 <= i < |pages| - 1 ==> TurnAt(f, rows, batch, canon, pages, i)
  }

  /** The loop stops at a page that is not full. */
  predicate Finished(pages: seq<seq<Row>>, batch: nat) {
    |pages| > 0 && |pages[|pages| - 1]| < batch
  }

  ghost predicate NoGapAt(f: Filter, rows: set<Row>, canon: string -> string, pages: seq<seq<Row>>, i: nat)
    requires i < |pages|
  {
    pages[i] != [] && Gap(rows, f, canon, pages[i][|pages[i]| - 1]) == {}
  }

  lemma {:induction false} FlatConcat(a: seq<seq<Row>>, b: seq<seq<Row>>)
    ensures Flat(a + b) == Flat(a) + Flat(b)
    decreases |b|
  {
    if b == [] {
      assert a + b == a;
    } else {
      var n := |b| - 1;
      assert (a + b)[..|a| + n] == a + b[..n];
      FlatConcat(a, b[..n]);
    }
  }

  lemma {:induction false} FlatAround(pages: seq<seq<Row>>, i: nat)
    requires i + 1 < |pages|
    ensures Flat(pages) == Flat(pages[..i]) + pages[i] + pages[i + 1] + Flat(pages[i + 2..])
  {
    assert pages == pages[..i + 2] + pages[i + 2..];
    FlatConcat(pages[..i + 2], pages[i + 2..]);
    assert pages[..i + 2][..i + 1] == pages[..i + 1] && pages[..i + 1][..i] == pages[..i];
  }

  lemma {:induction false} PageOf(f: Filter, rows: set<Row>, batch: nat, canon: string -> string, pages: seq<seq<Row>>,
        i: nat)
    requires IsPages(f, rows, batch, canon, pages) && i < |pages|
    ensures |pages[i]| <= batch && Descending(pages[i]) && forall r :: r in pages[i] ==> r in rows && Matches(f, r)
  {
    hide Below, Matches;
    if i > 0 { assert TurnAt(f, rows, batch, canon, pages, i - 1); }
  }

  /** In a right export the page after a full one is the page that is next. */
  lemma {:induction false} NextInExport(f: Filter, rows: set<Row>, batch: nat, pre: seq<Row>, page: seq<Row>,
        next: seq<Row>, post: seq<Row>)
    requires IsExport(f, rows, pre + page + next + post)
    requires page != [] && |next| <= batch && (post != [] ==> |next| == batch)
    ensures IsPage(Remaining(rows, f, KeyOf(page[|page| - 1])), batch, next)
  {
    hide Below, Matches;
    var all, last := pre + page + next + post, page[|page| - 1];
    var at := |pre| + |page|;
    assert all[at - 1] == last;
    forall i | 0 <= i < |next| ensures all[at + i] == next[i] && next[i] in all && Below(KeyOf(next[i]), KeyOf(last)) {
      assert all[at + i] == next[i];
    }
    forall r | r in Remaining(rows, f, KeyOf(last)) ensures r in next || (|next| == batch && AllAbove(next, KeyOf(r))) {
      var j :| 0 <= j < |all| && all[j] == r;
      if j < at {
        NotBelowLast(all, j, at - 1);
      } else if j < at + |next| {
        assert r == next[j - at];
      } else {
        forall i | 0 <= i < |next| ensures Below(KeyOf(r), KeyOf(next[i])) { assert all[at + i] == next[i]; }
      }
    }
  }

  lemma {:induction false} NotBelowLast(all: seq<Row>, j: nat, last: nat)
    requires Descending(all) && j <= last < |all|
    ensures !Below(KeyOf(all[j]), KeyOf(all[last]))
  {
    hide Below;
    BelowIsTotal(KeyOf(all[j]), KeyOf(all[last]));
    BelowIsStrict(KeyOf(all[j]));
  }

  lemma {:induction false} GapFreePagesExport(f: Filter, rows: set<Row>, batch: nat, canon: string -> string,
        pages: seq<seq<Row>>, i: nat)
    requires IsPages(f, rows, batch, canon, pages) && Formats(canon) && i < |pages|
    requires forall j :: 0 <= j < i ==> NoGapAt(f, rows, canon, pages, j)
    ensures Exported(f, rows, rows, batch, Flat(pages[..i]), pages[i])
  {
    hide Below, Matches, Exported, Gap, Remaining, Selected;
    if i == 0 {
      FirstPage(f, rows, batch, pages[0]);
    } else {
      GapFreePagesExport(f, rows, batch, canon, pages, i - 1);
      assert TurnAt(f, rows, batch, canon, pages, i - 1) && NoGapAt(f, rows, canon, pages, i - 1);
      NoGapTurns(f, rows, rows, canon, pages[i - 1][batch - 1]);
      NextPage(f, rows, rows, batch, Flat(pages[..i - 1]), pages[i - 1], pages[i]);
      assert pages[..i][..i - 1] == pages[..i - 1];
    }
  }

  /**
   A finished export of a table nobody writes to is right, every matching row once and in order, if and
   only if no row it ended a full page with has a matching row between itself and its cursor. A table
   that fits one page is exported rightly in any spelling.
  */
  lemma {:induction false} ExportIsExactIff(f: Filter, rows: set<Row>, batch: nat, canon: string -> string,
        pages: seq<seq<Row>>)
    requires IsPages(f, rows, batch, canon, pages) && Finished(pages, batch) && Formats(canon)
    ensures IsExport(f, rows, Flat(pages)) <==> forall i :: 0 <= i < |pages| - 1 ==> NoGapAt(f, rows, canon, pages, i)
  {
    hide Below, Matches, Gap, IsExport;
    if forall i :: 0 <= i < |pages| - 1 ==> NoGapAt(f, rows, canon, pages, i) {
      var n := |pages| - 1;
      GapFreePagesExport(f, rows, batch, canon, pages, n);
      LastPageExports(f, rows, batch, Flat(pages[..n]), pages[n]);
    }
    if IsExport(f, rows, Flat(pages)) {
      forall i | 0 <= i < |pages| - 1 ensures NoGapAt(f, rows, canon, pages, i) {
        ExactTurn(f, rows, batch, canon, pages, i);
      }
    }
  }

  lemma {:induction false} LastPageExports(f: Filter, rows: set<Row>, batch: nat, out: seq<Row>, page: seq<Row>)
    requires Exported(f, rows, rows, batch, out, page) && |page| < batch
    ensures IsExport(f, rows, out + page)
  {
    hide Below, Matches;
  }

  lemma {:induction false} ExactTurn(f: Filter, rows: set<Row>, batch: nat, canon: string -> string,
        pages: seq<seq<Row>>, i: nat)
    requires IsPages(f, rows, batch, canon, pages) && Formats(canon) && i + 1 < |pages|
    requires IsExport(f, rows, Flat(pages))
    ensures NoGapAt(f, rows, canon, pages, i)
  {
    hide Below, Matches, Gap, IsExport, Flat, Remaining, Selected;
    assert TurnAt(f, rows, batch, canon, pages, i);
    PageOf(f, rows, batch, canon, pages, i);
    PageOf(f, rows, batch, canon, pages, i + 1);
    FlatAround(pages, i);
    if i + 2 < |pages| { assert TurnAt(f, rows, batch, canon, pages, i + 1); }
    NothingFlat(pages[i + 2..]);
    NextInExport(f, rows, batch, Flat(pages[..i]), pages[i], pages[i + 1], Flat(pages[i + 2..]));
    var last := pages[i][batch - 1];
    assert last in pages[i];
    TurnIsExactIff(f, rows, batch, canon, last, pages[i + 1]);
  }

  lemma {:induction false} NothingFlat(pages: seq<seq<Row>>)
    ensures pages == [] ==> Flat(pages) == []
  {
  }

  // ----- which spellings do it -----

  function Fraction(digits: string): string { if digits == "" then "" else "." + digits }

  /** A UTC time: the date and time of day to the second, and a fraction of any digits. */
  function Spelled(seconds: string, digits: string): string { seconds + (Fraction(digits) + "Z") }

  function Zeros(n: nat): string { if n == 0 then "" else "0" + Zeros(n - 1) }

  /** FormatTime's layout: always nine digits. */
  function NineDigits(seconds: string, digits: string): string
    requires |digits| <= 9
  {
    seconds + (("." + digits) + (Zeros(9 - |digits|) + "Z"))
  }

  lemma {:induction false} FirstDecides(a: string, b: string)
    requires a != "" && b != "" && a[0] < b[0]
    ensures Less(a, b)
  {
  }

  /** Of UTC spellings only the nine-digit one is kept; every other sorts above its cursor, so a gap only ever skips. */
  lemma {:induction false} ShortFractionSortsAbove(seconds: string, digits: string)
    requires |digits| <= 9
    ensures if |digits| == 9 then NineDigits(seconds, digits) == Spelled(seconds, digits)
            else Less(NineDigits(seconds, digits), Spelled(seconds, digits))
  {
    var zeros := Zeros(9 - |digits|);
    assert if |digits| == 9 then zeros == "" else zeros != "" && zeros[0] == '0';
    hide Zeros, Less;
    var rest := zeros + "Z";
    if |digits| == 9 {
      assert rest == "Z";
    } else {
      LessAfterPrefix(seconds, ("." + digits) + rest, Fraction(digits) + "Z");
      if digits == "" {
        FirstDecides(("." + digits) + rest, "" + "Z");
      } else {
        FirstDecides(rest, "Z");
        LessAfterPrefix("." + digits, rest, "Z");
      }
    }
  }

  const EVERYTHING := Filter("", "", "", None, None)

  /**
   A run that skips: at batch size one, a row stored without a fraction ends the first page, and the row
   half a second after it by the clock, which sorts below it, is never written.
  */
  lemma {:induction false} RunThatSkips(seconds: string, canon: string -> string, r: Row, q: Row)
    requires r.created == Spelled(seconds, "") && q.created == NineDigits(seconds, "5")
    requires canon(r.created) == NineDigits(seconds, "") && Formats(canon)
    ensures IsPages(EVERYTHING, {r, q}, 1, canon, [[r], []]) && Finished([[r], []], 1)
    ensures Flat([[r], []]) == [r] && !IsExport(EVERYTHING, {r, q}, Flat([[r], []]))
  {
    HalfSecondIsBetween(seconds);
    LessTotal(q.created, r.created);
    LessTotal(canon(r.created), q.created);
    hide Less, Spelled, NineDigits;
    var pages := [[r], []];
    FlatOfTwo([r], []);
    assert [r] + [] == [r];
    assert Below(KeyOf(q), KeyOf(r)) && q !in Selected({r, q}, EVERYTHING, canon(r.created), r.id);
    NoRowIsBelow(r, q, canon);
    assert TurnAt(EVERYTHING, {r, q}, 1, canon, pages, 0);
    BelowIsStrict(KeyOf(r));
    assert q in {r, q} && q !in [r];
  }

  lemma {:induction false} FlatOfTwo(a: seq<Row>, b: seq<Row>)
    ensures Flat([a, b]) == a + b
  {
    var pages := [a, b];
    assert pages[..1] == [a];
    var first := [a];
    assert first[..0] == [];
    assert Flat(first) == [] + a;
  }

  lemma {:induction false} HalfSecondIsBetween(seconds: string)
    ensures Less(NineDigits(seconds, ""), NineDigits(seconds, "5"))
    ensures Less(NineDigits(seconds, "5"), Spelled(seconds, ""))
  {
    DigitBelowDigit(seconds);
    DotBelowZ(seconds);
  }

  lemma {:induction false} DigitBelowDigit(seconds: string)
    ensures Less(NineDigits(seconds, ""), NineDigits(seconds, "5"))
  {
    var zeros := Zeros(8);
    assert Zeros(9) == "0" + zeros;
    hide Zeros, Less;
    var a, b := ("0" + zeros) + "Z", "5" + (zeros + "Z");
    assert ("." + "") + a == "." + a && ("." + "5") + (zeros + "Z") == "." + b;
    LessAfterPrefix(seconds, "." + a, "." + b);
    LessAfterPrefix(".", a, b);
    FirstDecides(a, b);
  }

  lemma {:induction false} DotBelowZ(seconds: string)
    ensures Less(NineDigits(seconds, "5"), Spelled(seconds, ""))
  {
    hide Zeros, Less;
    var tail := ("." + "5") + (Zeros(8) + "Z");
    LessAfterPrefix(seconds, tail, "" + "Z");
    FirstDecides(tail, "" + "Z");
  }

  lemma {:induction false} NoRowIsBelow(r: Row, q: Row, canon: string -> string)
    requires Less(canon(r.created), q.created) && Less(q.created, r.created) && canon(r.created) != ""
    ensures Selected({r, q}, EVERYTHING, canon(r.created), r.id) == {}
  {
    LessTotal(canon(r.created), q.created);
    LessTransitive(canon(r.created), q.created, r.created);
    LessTotal(canon(r.created), r.created);
    hide Less;
  }

  /** A row stored west of UTC is selected again by its own cursor. */
  lemma {:induction false} WestSortsBelow(day: string)
    ensures Less(day + "T00:00:00-02:00", day + "T02:00:00.000000000Z")
  {
    LessAfterPrefix(day, "T00:00:00-02:00", "T02:00:00.000000000Z");
  }

  lemma {:induction false} OneRowPage(r: Row, canon: string -> string, page: seq<Row>)
    requires Less(r.created, canon(r.created)) && canon(r.created) != ""
    ensures IsPage(Selected({r}, EVERYTHING, canon(r.created), r.id), 1, page) <==> page == [r]
    ensures IsPage(Selected({r}, EVERYTHING, "", ""), 1, page) <==> page == [r]
  {
    assert Selected({r}, EVERYTHING, canon(r.created), r.id) == {r} && Selected({r}, EVERYTHING, "", "") == {r};
    hide Less, Below, Selected;
    if IsPage({r}, 1, page) {
      assert r in {r};
      assert r in page || |page| == 1;
      assert page[0] in page;
    }
  }

  /**
   A run that does not end: at batch size one, a row whose cursor sorts above it is every page there
   will ever be, so no export of it finishes.
  */
  lemma {:induction false} RunThatNeverEnds(r: Row, canon: string -> string, pages: seq<seq<Row>>)
    requires Less(r.created, canon(r.created)) && Formats(canon)
    requires IsPages(EVERYTHING, {r}, 1, canon, pages)
    ensures pages[|pages| - 1] == [r] && !Finished(pages, 1)
    ensures IsPages(EVERYTHING, {r}, 1, canon, pages + [[r]])
  {
    hide Less, Below, IsPage, Selected;
    var n := |pages| - 1;
    if n == 0 {
      OneRowPage(r, canon, pages[0]);
    } else {
      var before := pages[..n];
      forall i | 0 <= i < n - 1 ensures TurnAt(EVERYTHING, {r}, 1, canon, before, i) {
        assert TurnAt(EVERYTHING, {r}, 1, canon, pages, i);
      }
      RunThatNeverEnds(r, canon, before);
      assert TurnAt(EVERYTHING, {r}, 1, canon, pages, n - 1);
      OneRowPage(r, canon, pages[n]);
    }
    OneRowPage(r, canon, [r]);
    var longer := pages + [[r]];
    forall i | 0 <= i < |longer| - 1 ensures TurnAt(EVERYTHING, {r}, 1, canon, longer, i) {
      if i < n { assert TurnAt(EVERYTHING, {r}, 1, canon, pages, i); }
    }
  }
}
