/**
 The audit export of internal/api/audit.go over the keyset pages of internal/store/audit.go, while
 other writers go on inserting rows between the pages.
*/
module AuditExport {
  import opened Optional
  import opened Text

  /** A row of audit_log: created is the stored text of created_at. */
  datatype Row = Row(id: string, created: string, user: Option<string>, instance: Option<string>, action: string)

  /** AuditFilter: an empty string filters nothing; since and until are stored texts. */
  datatype Filter = Filter(instance: string, user: string, action: string, since: Option<string>, until: Option<string>)

  datatype Key = Key(at: string, id: string)

  function KeyOf(r: Row): Key { Key(r.created, r.id) }

  /** The keyset order: created_at, and the id where those are equal. */
  predicate Below(a: Key, b: Key) {
    Less(a.at, b.at) || (a.at == b.at && Less(a.id, b.id))
  }

  predicate Matches(f: Filter, r: Row) {
    && (f.instance == "" || r.instance == Some(f.instance))
    && (f.user == "" || r.user == Some(f.user))
    && (f.action == "" || r.action == f.action)
    && (f.since.None? || !Less(r.created, f.since.value))
    && (f.until.None? || Less(r.created, f.until.value))
  }

  /** The WHERE clause: the filter, and the cursor unless its time is empty. */
  function Selected(rows: set<Row>, f: Filter, beforeAt: string, beforeId: string): set<Row> {
    set r | r in rows && Matches(f, r) && (beforeAt == "" || Below(KeyOf(r), Key(beforeAt, beforeId)))
  }

  /**
   What each field of the filter asks for: an equal id or action, a time from since on and before until; an
   empty one asks nothing, and several ask for all of it.
  */
  lemma {:induction false} FilterSays(f: Filter, r: Row, t: string)
    ensures Matches(Filter("", "", "", None, None), r)
    ensures f.instance != "" ==>
              (Matches(Filter(f.instance, "", "", None, None), r) <==> r.instance == Some(f.instance))
    ensures f.user != "" ==> (Matches(Filter("", f.user, "", None, None), r) <==> r.user == Some(f.user))
    ensures f.action != "" ==> (Matches(Filter("", "", f.action, None, None), r) <==> r.action == f.action)
    ensures Matches(Filter("", "", "", Some(t), None), r) <==> r.created == t || Less(t, r.created)
    ensures Matches(Filter("", "", "", None, Some(t)), r) <==> Less(r.created, t)
    ensures Matches(f, r) <==>
              && Matches(Filter(f.instance, "", "", None, None), r) && Matches(Filter("", f.user, "", None, None), r)
              && Matches(Filter("", "", f.action, None, None), r)
              && Matches(Filter("", "", "", f.since, None), r) && Matches(Filter("", "", "", None, f.until), r)
  {
    LessTotal(r.created, t);
    hide Less;
  }

  /** A page in order is newest first, and by falling ids where times are equal. */
  lemma {:induction false} NewestFirst(page: seq<Row>, i: nat, j: nat)
    requires Descending(page) && i < j < |page|
    ensures Less(page[j].created, page[i].created) ||
            (page[j].created == page[i].created && Less(page[j].id, page[i].id))
  {
    assert Below(KeyOf(page[j]), KeyOf(page[i]));
  }

  lemma {:induction false} BelowIsStrict(a: Key)
    ensures !Below(a, a)
  {
    LessIrreflexive(a.at);
    LessIrreflexive(a.id);
  }

  lemma {:induction false} BelowIsTransitive(a: Key, b: Key, c: Key)
    requires Below(a, b) && Below(b, c)
    ensures Below(a, c)
  {
    if Less(a.at, b.at) && Less(b.at, c.at) { LessTransitive(a.at, b.at, c.at); }
    if Less(a.id, b.id) && Less(b.id, c.id) { LessTransitive(a.id, b.id, c.id); }
  }

  lemma {:induction false} BelowIsTotal(a: Key, b: Key)
    ensures Below(a, b) || a == b || Below(b, a)
    ensures !(Below(a, b) && Below(b, a))
  {
    LessTotal(a.at, b.at);
    LessTotal(a.id, b.id);
  }

  /** id is the primary key. */
  ghost predicate IdsAreUnique(rows: set<Row>) {
    forall r, q :: r in rows && q in rows && r.id == q.id ==> r == q
  }

  ghost predicate Descending(page: seq<Row>) {
    forall i, j :: 0 <= i < j < |page| ==> Below(KeyOf(page[j]), KeyOf(page[i]))
  }

  ghost predicate AllAbove(page: seq<Row>, k: Key) {
    forall p :: p in page ==> Below(k, KeyOf(p))
  }

  /** The first `limit` rows of a set in descending order. */
  ghost predicate IsPage(rows: set<Row>, limit: nat, page: seq<Row>) {
    && Descending(page) && |page| <= limit
    && (forall r :: r in page ==> r in rows)
    && forall r :: r in rows ==> r in page || (|page| == limit && AllAbove(page, KeyOf(r)))
  }

  ghost predicate IsNewest(rows: set<Row>, r: Row) {
    r in rows && forall q :: q in rows ==> q == r || Below(KeyOf(q), KeyOf(r))
  }

  /** FormatTime after ParseTime, and never the empty text that stands for no cursor. */
  ghost predicate Formats(canon: string -> string) {
    forall t :: canon(t) != ""
  }

  /** Where the query after r starts: the time read and written again, and the id. */
  function Cursor(canon: string -> string, r: Row): Key { Key(canon(r.created), r.id) }

  function Remaining(rows: set<Row>, f: Filter, k: Key): set<Row> {
    set r | r in rows && Matches(f, r) && Below(KeyOf(r), k)
  }

  /** The matching rows between a row and its cursor: skipped when the cursor sorts below, repeated when above. */
  function Gap(rows: set<Row>, f: Filter, canon: string -> string, r: Row): set<Row> {
    set q | q in rows && Matches(f, q) && Below(KeyOf(q), KeyOf(r)) != Below(KeyOf(q), Cursor(canon, r))
  }

  /** The matching rows down to r. */
  ghost function DownTo(rows: set<Row>, f: Filter, r: Row): set<Row> {
    set q | q in rows && Matches(f, q) && (q == r || Below(KeyOf(r), KeyOf(q)))
  }

  /** No row that could end a full page has a gap below or above it. */
  ghost predicate Smooth(rows: set<Row>, f: Filter, batch: nat, canon: string -> string) {
    forall r :: r in rows && Matches(f, r) && |DownTo(rows, f, r)| >= batch ==> Gap(rows, f, canon, r) == {}
  }

  class AuditLog {
    var rows: set<Row>
    /** Rows other writers insert while the export runs. */
    var arriving: set<Row>
    /** A query has failed. */
    var failed: bool

    ghost function Universe(): set<Row>
      reads this
    {
      rows + arriving
    }

    /** Between two queries any of the arriving rows may be inserted. */
    method Arrive()
      modifies this`rows, this`arriving
      ensures Universe() == old(Universe()) && old(rows) <= rows
    {
      var some: set<Row> := *;
      rows, arriving := rows + some * arriving, arriving - some;
    }

    method Newest(from: set<Row>) returns (r: Row)
      requires from != {} && IdsAreUnique(from)
      ensures IsNewest(from, r)
    {
      r :| r in from;
      var left := from - {r};
      while left != {}
        invariant r in from && left <= from
        invariant forall q :: q in from && q !in left ==> q == r || Below(KeyOf(q), KeyOf(r))
        decreases left
      {
        var q :| q in left;
        left := left - {q};
        NewestSoFar(from, left, r, q);
        if Below(KeyOf(r), KeyOf(q)) { r := q; }
      }
    }

    method ListAuditLog(f: Filter, beforeAt: string, beforeId: string, limit: nat) returns (page: seq<Row>)
      requires IdsAreUnique(rows)
      ensures IsPage(Selected(rows, f, beforeAt, beforeId), limit, page)
    {
      hide Below;
      var from := Selected(rows, f, beforeAt, beforeId);
      var left := from;
      page := [];
      while |page| < limit && left != {}
        invariant left <= from && Descending(page) && |page| <= limit
        invariant forall r :: r in page ==> r in from
        invariant forall r :: r in from ==> r in page || r in left
        invariant forall r :: r in left ==> AllAbove(page, KeyOf(r))
        decreases limit - |page|
      {
        var r := Newest(left);
        page := page + [r];
        left := left - {r};
      }
    }

    /**
     The page loop. Every matching row that existed at the start is written once, newest first,
     whatever is inserted meanwhile; a failing query leaves a prefix that does not look complete.
    */
    method Export(f: Filter, batch: nat, canon: string -> string) returns (out: seq<Row>, complete: bool)
      requires batch >= 1 && IdsAreUnique(Universe()) && Formats(canon) && Smooth(Universe(), f, batch, canon)
      requires !failed
      modifies this
      ensures complete <==> !failed
      ensures Descending(out) && Universe() == old(Universe()) && old(rows) <= rows
      ensures forall r :: r in out ==> r in rows && Matches(f, r)
      ensures forall r :: r in old(rows) && Matches(f, r) ==> r in out || (!complete && AllAbove(out, KeyOf(r)))
      ensures Later(old(rows), old(arriving)) ==> forall r :: r in out ==> r in old(rows)
      ensures Later(old(rows), old(arriving)) && complete ==> IsExport(f, old(rows), out)
    {
      hide Below, Matches, Smooth;
      out := [];
      var page := ListAuditLog(f, "", "", batch);
      FirstPage(f, rows, batch, page);
      while page != []
        invariant Universe() == old(Universe()) && old(rows) <= rows && !failed
        invariant Exported(f, old(rows), rows, batch, out, page)
        invariant Later(old(rows), old(arriving)) ==> forall r :: r in out + page ==> r in old(rows)
        decreases old(Universe()) - Written(out)
      {
        ghost var before := out;
        Progress(f, old(rows), rows, batch, out, page);
        out := out + page;
        assert page[0] in old(Universe()) - Written(before) && page[0] in Written(out);
        var last := page[|page| - 1];
        if |page| < batch { return out, true; }
        Arrive();
        var fails: bool := *;
        if fails {
          failed := true;
          CutShort(f, old(rows), rows, batch, before, page);
          return out, false;
        }
        FullPageHasNoGap(f, old(Universe()), batch, canon, before, page);
        var next := ListAuditLog(f, canon(last.created), last.id, batch);
        NoGapTurns(f, old(Universe()), rows, canon, last);
        NextPage(f, old(rows), rows, batch, before, page, next);
        StillFromTheStart(f, old(rows), old(arriving), rows, batch, before, page, next);
        page := next;
      }
      assert out + page == out;
      return out, true;
    }
  }

  lemma {:induction false} NewestSoFar(from: set<Row>, left: set<Row>, r: Row, q: Row)
    requires r in from && q in from && q !in left && IdsAreUnique(from)
    requires forall p :: p in from && p !in left && p != q ==> p == r || Below(KeyOf(p), KeyOf(r))
    ensures Below(KeyOf(r), KeyOf(q)) ==> forall p :: p in from && p !in left ==> p == q || Below(KeyOf(p), KeyOf(q))
    ensures !Below(KeyOf(r), KeyOf(q)) ==> q == r || Below(KeyOf(q), KeyOf(r))
  {
    BelowIsTotal(KeyOf(r), KeyOf(q));
    hide Below;
    if Below(KeyOf(r), KeyOf(q)) {
      forall p | p in from && p !in left && p != q && p != r ensures Below(KeyOf(p), KeyOf(q)) {
        BelowIsTransitive(KeyOf(p), KeyOf(r), KeyOf(q));
      }
    }
  }

  ghost function Written(out: seq<Row>): set<Row> {
    set r | r in out
  }

  // ----- what the loop keeps -----

  /** All that is written or about to be: in order, matching, and missing no row of the start above its end. */
  ghost predicate Exported(f: Filter, start: set<Row>, rows: set<Row>, batch: nat, out: seq<Row>, page: seq<Row>) {
    && Descending(out + page) && |page| <= batch
    && (forall r :: r in out + page ==> r in rows && Matches(f, r))
    && forall r :: r in start && Matches(f, r) ==>
         r in out + page || (|page| == batch && AllAbove(out + page, KeyOf(r)))
  }

  /** Every arriving row is newer than every row at the start. */
  ghost predicate Later(start: set<Row>, arriving: set<Row>) {
    forall r, a :: r in start && a in arriving ==> Below(KeyOf(r), KeyOf(a))
  }

  lemma {:induction false} FirstPage(f: Filter, rows: set<Row>, batch: nat, page: seq<Row>)
    requires IsPage(Selected(rows, f, "", ""), batch, page)
    ensures Exported(f, rows, rows, batch, [], page)
  {
    assert [] + page == page;
  }

  lemma {:induction false} Progress(f: Filter, start: set<Row>, rows: set<Row>, batch: nat, out: seq<Row>,
        page: seq<Row>)
    requires Exported(f, start, rows, batch, out, page) && page != []
    ensures page[0] !in out && page[0] in rows && page[|page| - 1] in rows
    ensures Descending(out + page) && forall r :: r in out + page ==> r in rows && Matches(f, r)
  {
    var all := out + page;
    assert all[|out|] == page[0] && all[|all| - 1] == page[|page| - 1];
    if page[0] in out {
      var i :| 0 <= i < |out| && out[i] == page[0];
      assert all[i] == all[|out|];
      BelowIsStrict(KeyOf(page[0]));
    }
  }

  lemma {:induction false} CutShort(f: Filter, start: set<Row>, rows: set<Row>, batch: nat, out: seq<Row>,
        page: seq<Row>)
    requires exists was :: was <= rows && Exported(f, start, was, batch, out, page)
    ensures forall r :: r in out + page ==> r in rows && Matches(f, r)
    ensures forall r :: r in start && Matches(f, r) ==> r in out + page || AllAbove(out + page, KeyOf(r))
  {
  }

  lemma {:induction false} NoGapTurns(f: Filter, universe: set<Row>, rows: set<Row>, canon: string -> string, last: Row)
    requires rows <= universe && Gap(universe, f, canon, last) == {} && canon(last.created) != ""
    ensures Selected(rows, f, canon(last.created), last.id) == Remaining(rows, f, KeyOf(last))
  {
    hide Below, Matches;
    forall q | q in rows && Matches(f, q) ensures Below(KeyOf(q), KeyOf(last)) == Below(KeyOf(q), Cursor(canon, last)) {
      assert q !in Gap(universe, f, canon, last);
    }
  }

  lemma {:induction false} FullPageHasNoGap(f: Filter, universe: set<Row>, batch: nat, canon: string -> string,
        out: seq<Row>, page: seq<Row>)
    requires Smooth(universe, f, batch, canon) && page != [] && |page| == batch && Descending(out + page)
    requires forall r :: r in out + page ==> r in universe && Matches(f, r)
    ensures Gap(universe, f, canon, page[|page| - 1]) == {}
  {
    hide Below, Matches, Gap;
    var all, last := out + page, page[|page| - 1];
    assert last in all;
    forall i | 0 <= i < |page| ensures page[i] in DownTo(universe, f, last) {
      assert all[|out| + i] == page[i] && all[|all| - 1] == last;
    }
    forall i, j | 0 <= i < j < |page| ensures Below(KeyOf(page[j]), KeyOf(page[i])) {
      assert all[|out| + i] == page[i] && all[|out| + j] == page[j];
    }
    DescendingCounts(page);
    assert Written(page) <= DownTo(universe, f, last);
    FewerInside(Written(page), DownTo(universe, f, last));
  }

  lemma {:induction false} FewerInside(part: set<Row>, whole: set<Row>)
    requires part <= whole
    ensures |part| <= |whole|
  {
    assert whole == part + (whole - part);
  }

  lemma {:induction false} DescendingCounts(page: seq<Row>)
    requires Descending(page)
    ensures |Written(page)| == |page|
  {
    hide Below;
    if page == [] {
      assert Written(page) == {};
    } else {
      var n := |page| - 1;
      DescendingCounts(page[..n]);
      if page[n] in page[..n] {
        var i :| 0 <= i < n && page[..n][i] == page[n];
        BelowIsStrict(KeyOf(page[n]));
      }
      assert Written(page) == Written(page[..n]) + {page[n]};
    }
  }

  lemma {:induction false} BelowTheLast(all: seq<Row>, k: Key)
    requires Descending(all) && all != [] && Below(k, KeyOf(all[|all| - 1]))
    ensures AllAbove(all, k)
  {
    hide Below;
    forall p | p in all ensures Below(k, KeyOf(p)) {
      var i :| 0 <= i < |all| && all[i] == p;
      if i < |all| - 1 { BelowIsTransitive(k, KeyOf(all[|all| - 1]), KeyOf(p)); }
    }
  }

  lemma {:induction false} NextPage(f: Filter, start: set<Row>, rows: set<Row>, batch: nat, out: seq<Row>,
        page: seq<Row>, next: seq<Row>)
    requires page != [] && exists was :: was <= rows && Exported(f, start, was, batch, out, page)
    requires start <= rows
    requires IsPage(Remaining(rows, f, KeyOf(page[|page| - 1])), batch, next)
    ensures Exported(f, start, rows, batch, out + page, next)
  {
    hide Below, Matches;
    var all := out + page;
    var last := page[|page| - 1];
    assert all[|all| - 1] == last;
    forall r | r in next ensures AllAbove(all, KeyOf(r)) { BelowTheLast(all, KeyOf(r)); }
    assert Descending(all + next);
    forall r | r in start && Matches(f, r) && r !in all + next
      ensures |next| == batch && AllAbove(all + next, KeyOf(r))
    {
      assert last in all && AllAbove(all, KeyOf(r));
      assert r in Remaining(rows, f, KeyOf(last));
    }
  }

  lemma {:induction false} StillFromTheStart(f: Filter, start: set<Row>, arriving: set<Row>, rows: set<Row>, batch: nat,
                          out: seq<Row>, page: seq<Row>, next: seq<Row>)
    requires page != [] && rows <= start + arriving
    requires IsPage(Remaining(rows, f, KeyOf(page[|page| - 1])), batch, next)
    ensures Later(start, arriving) && page[|page| - 1] in start ==> forall r :: r in next ==> r in start
  {
    hide Below;
    var last := page[|page| - 1];
    if Later(start, arriving) && last in start {
      forall r | r in next ensures r in start {
        assert Below(KeyOf(r), KeyOf(last));
        if r in arriving {
          BelowIsTransitive(KeyOf(last), KeyOf(r), KeyOf(last));
          BelowIsStrict(KeyOf(last));
        }
      }
    }
  }

  // ----- what the whole export is -----

  /** An export of the rows at the start: with only newer rows arriving, exactly the sorted selection. */
  ghost predicate IsExport(f: Filter, start: set<Row>, out: seq<Row>) {
    Descending(out) && forall r :: r in out <==> r in start && Matches(f, r)
  }

  /** So the batch size cannot be seen in the output. */
  lemma {:induction false} ExportIsUnique(f: Filter, start: set<Row>, a: seq<Row>, b: seq<Row>)
    requires IsExport(f, start, a) && IsExport(f, start, b)
    ensures a == b
    decreases |a|
  {
    hide Below, Matches;
    if a == [] {
      NothingElse(f, start, b);
    } else if b == [] {
      NothingElse(f, start, a);
    } else {
      HeadsAgree(a, b);
      TailExports(f, start, a);
      TailExports(f, start, b);
      ExportIsUnique(f, start - {a[0]}, a[1..], b[1..]);
      assert a == [a[0]] + a[1..] && b == [b[0]] + b[1..];
    }
  }

  lemma {:induction false} NothingElse(f: Filter, start: set<Row>, out: seq<Row>)
    requires IsExport(f, start, []) && IsExport(f, start, out)
    ensures out == []
  {
    hide Matches;
    var none: seq<Row> := [];
    assert forall r :: r in out <==> r in none;
    HasAnElement(out);
  }

  lemma {:induction false} HasAnElement(out: seq<Row>)
    ensures out == [] || exists r :: r in out
  {
    if out != [] { assert out[0] in out; }
  }

  lemma {:induction false} HeadsAgree(a: seq<Row>, b: seq<Row>)
    requires a != [] && b != [] && Descending(a) && Descending(b) && a[0] in b && b[0] in a
    ensures a[0] == b[0]
  {
    hide Below;
    BelowIsTotal(KeyOf(a[0]), KeyOf(b[0]));
  }

  lemma {:induction false} TailExports(f: Filter, start: set<Row>, out: seq<Row>)
    requires IsExport(f, start, out) && out != []
    ensures IsExport(f, start - {out[0]}, out[1..])
  {
    hide Below, Matches;
    var tail := out[1..];
    forall r | r in tail ensures r != out[0] {
      var i :| 0 <= i < |tail| && tail[i] == r;
      assert Below(KeyOf(out[i + 1]), KeyOf(out[0]));
      BelowIsStrict(KeyOf(r));
    }
    assert forall r :: r in out && r != out[0] ==> r in tail;
  }
}
