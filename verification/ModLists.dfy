/**
 expandMods and reduceMods as they run: a map of derived packages raised in place until a pass
 changes nothing, and a list that grows until its expansion gives every row back.
*/
module ModLists {
  import opened Optional
  import opened Text
  import opened ModExpansion

  class Expansion {
    var derived: Derived
    const listed: set<string>

    constructor (listed: set<string>)
      ensures derived == map[] && this.listed == listed
    {
      derived, this.listed := map[], listed;
    }

    /** deriveFrom: raise what m's pins reach, and report whether anything changed. */
    method DeriveFrom(m: Mod, pins: seq<Option<Pin>>, origin: string) returns (changed: bool)
      modifies this`derived
      ensures derived == Derive(old(derived), listed, m, pins, origin)
      ensures changed <==> derived != old(derived)
    {
      changed := false;
      for i := 0 to |pins|
        invariant Extends(old(derived), derived)
        invariant Derive(derived, listed, m, pins[i..], origin) == Derive(old(derived), listed, m, pins, origin)
        invariant changed <==> derived != old(derived)
      {
        ghost var before := derived;
        DeriveOneExtends(derived, listed, m, pins[i], origin);
        if pins[i].Some? && pins[i].value.name !in listed {
          var name, version := pins[i].value.name, pins[i].value.version;
          if name !in derived {
            derived, changed := derived[name := Mod(name, version, origin, m.side)], true;
          } else {
            var d := derived[name];
            if SemVer.Higher(version, d.version) {
              SemVer.HigherIsStrict(version, d.version, version);
              d, changed := d.(version := version), true;
            }
            if Weaker(d.side, m.side) {
              d, changed := d.(side := m.side), true;
            }
            derived := derived[name := d];
          }
        }
        assert derived == DeriveOne(before, listed, m, pins[i], origin);
        ExtendsTransitive(old(derived), before, derived);
        if derived == old(derived) { ExtendsAntisymmetric(before, derived); }
      }
    }
  }

  /** One pass over a snapshot of the listed and derived packages; ok is false for a failing lookup. */
  method PassOver(e: Expansion, snapshot: seq<Mod>, cat: Catalogue) returns (ok: bool, changed: bool)
    modifies e
    ensures ok ==> Pass(old(e.derived), e.listed, snapshot, cat) == Some(e.derived)
    ensures ok ==> (changed <==> e.derived != old(e.derived))
    ensures !ok ==> Pass(old(e.derived), e.listed, snapshot, cat) == None
  {
    ghost var before := e.derived;
    changed := false;
    for i := 0 to |snapshot|
      invariant Extends(before, e.derived)
      invariant Pass(e.derived, e.listed, snapshot[i..], cat) == Pass(before, e.listed, snapshot, cat)
      invariant changed <==> e.derived != before
    {
      var key := KeyOf(snapshot[i]);
      if key in cat.failing {
        return false, changed;
      }
      if key in cat.rows {
        ghost var mid := e.derived;
        DeriveExtends(mid, e.listed, snapshot[i], cat.rows[key].pins, cat.rows[key].origin);
        var raised := e.DeriveFrom(snapshot[i], cat.rows[key].pins, cat.rows[key].origin);
        changed := changed || raised;
        ExtendsTransitive(before, mid, e.derived);
        if e.derived == before { ExtendsAntisymmetric(mid, e.derived); }
      }
    }
    return true, changed;
  }

  method ExpandMods(mods: seq<Mod>, cat: Catalogue) returns (out: Option<seq<Mod>>)
    ensures out == Expand(mods, cat)
  {
    var e := new Expansion(Names(mods));
    var changed := true;
    while changed
      invariant Pinned(e.derived, cat)
      invariant Fixpoint(map[], mods, cat) == if changed then Fixpoint(e.derived, mods, cat) else Some(e.derived)
      decreases AllFacts(cat) - Facts(e.derived, cat), changed
    {
      ghost var before := e.derived;
      var snapshot := mods + SortedMods(e.derived);
      PassExtends(before, Names(mods), snapshot, cat);
      PassIsPinned(before, Names(mods), snapshot, cat);
      var ok;
      ok, changed := PassOver(e, snapshot, cat);
      if !ok {
        return None;
      }
      FactsGrow(before, e.derived, cat);
    }
    return Some(mods + SortedMods(e.derived));
  }

  // ----- reduceMods -----

  /** One installed row: a mod, and whether it came as another's dependency. */
  datatype Row = Row(mod: Mod, dependency: bool)

  ghost predicate UniqueNames(mods: seq<Mod>) {
    forall i, j :: 0 <= i < j < |mods| ==> mods[i].name != mods[j].name
  }

  ghost predicate UniqueRows(rows: seq<Row>) {
    forall i, j :: 0 <= i < j < |rows| ==> rows[i].mod.name != rows[j].mod.name
  }

  /** want is the rows' mods, row by row. */
  ghost predicate Wants(want: seq<Mod>, rows: seq<Row>) {
    |want| == |rows| && forall i :: 0 <= i < |rows| ==> want[i] == rows[i].mod
  }

  ghost predicate IsRow(rows: seq<Row>, m: Mod) {
    exists j :: 0 <= j < |rows| && rows[j].mod == m
  }

  /** A duplicate-free choice of the rows, with every row nobody's dependency among them. */
  ghost predicate Selection(listed: seq<Mod>, rows: seq<Row>) {
    && UniqueNames(listed)
    && (forall i :: 0 <= i < |listed| ==> IsRow(rows, listed[i]))
    && (forall i :: 0 <= i < |rows| && !rows[i].dependency ==> rows[i].mod in listed)
  }

  /** The rows that came as nobody's dependency. */
  function Chosen(rows: seq<Row>): seq<Mod> {
    if rows == [] then []
    else Chosen(rows[..|rows| - 1]) + if rows[|rows| - 1].dependency then [] else [rows[|rows| - 1].mod]
  }

  lemma {:induction false} ChosenStep(rows: seq<Row>)
    requires rows != []
    ensures
      var n := |rows| - 1;
      Chosen(rows) == Chosen(rows[..n]) + if rows[n].dependency then [] else [rows[n].mod]
  {
  }

  ghost predicate ChosenRow(rows: seq<Row>, i: nat, m: Mod) {
    i < |rows| && !rows[i].dependency && rows[i].mod == m
  }

  /** Just those; none is made up and none is left out. */
  lemma {:induction false} ChosenAre(rows: seq<Row>, m: Mod)
    ensures m in Chosen(rows) <==> exists i :: ChosenRow(rows, i, m)
    ensures |Chosen(rows)| <= |rows|
  {
    if rows != [] {
      var n := |rows| - 1;
      ChosenAre(rows[..n], m);
      ChosenStep(rows);
      hide Chosen;
      assert forall i: nat :: i < n ==> (ChosenRow(rows, i, m) <==> ChosenRow(rows[..n], i, m));
      assert ChosenRow(rows, n, m) <==> !rows[n].dependency && rows[n].mod == m;
    }
  }

  /** full has the row's package at its version, source and side. */
  ghost predicate GivesBack(full: seq<Mod>, m: Mod) {
    exists i :: 0 <= i < |full| && full[i].name == m.name && SameMod(full[i], m)
  }

  /** The last of each name, as filling a map in order leaves it. */
  method ByName(full: seq<Mod>) returns (got: map<string, Mod>)
    ensures got.Keys == Names(full)
    ensures forall n :: n in got ==> got[n] in full && got[n].name == n
  {
    got := map[];
    for i := 0 to |full|
      invariant got.Keys == Names(full[..i])
      invariant forall n :: n in got ==> got[n] in full && got[n].name == n
    {
      assert full[..i + 1] == full[..i] + [full[i]];
      assert Names(full[..i + 1]) == Names(full[..i]) + {full[i].name};
      got := got[full[i].name := full[i]];
    }
    assert full[..|full|] == full;
  }

  /** The wanted mods the expansion does not give back, in order. */
  method MissingFrom(want: seq<Mod>, full: seq<Mod>) returns (missing: seq<Mod>)
    requires UniqueNames(want) && UniqueNames(full)
    ensures UniqueNames(missing)
    ensures forall m :: m in missing <==> m in want && !GivesBack(full, m)
  {
    var got := ByName(full);
    missing := [];
    for i := 0 to |want|
      invariant UniqueNames(missing)
      invariant forall m :: m in missing <==> m in want[..i] && !GivesBack(full, m)
    {
      assert want[..i + 1] == want[..i] + [want[i]];
      var m := want[i];
      if m.name !in got || !SameMod(got[m.name], m) {
        assert !GivesBack(full, m);
        forall j | 0 <= j < |missing| ensures missing[j].name != m.name {
          assert missing[j] in missing;
        }
        missing := missing + [m];
      } else {
        assert got[m.name] in full;
        assert GivesBack(full, m);
      }
    }
    assert want[..|want|] == want;
  }

  lemma {:induction false} ListedIsGivenBack(listed: seq<Mod>, full: seq<Mod>, i: nat)
    requires listed <= full && i < |listed|
    ensures GivesBack(full, listed[i])
  {
    assert full[i] == listed[i];
  }

  lemma {:induction false} ExpansionHasUniqueNames(listed: seq<Mod>, cat: Catalogue)
    requires UniqueNames(listed) && Expand(listed, cat).Some?
    ensures listed <= Expand(listed, cat).value && UniqueNames(Expand(listed, cat).value)
  {
    ExpandIsClosed(listed, cat);
    var full := Expand(listed, cat).value;
    forall i, j | 0 <= i < j < |full| ensures full[i].name != full[j].name {
      if i < |listed| {
        assert full[i].name in Names(listed) <==> listed[i].name in Names(listed);
        if j < |listed| { assert full[j] == listed[j]; }
      } else {
        LessIrreflexive(full[i].name);
      }
    }
  }

  lemma {:induction false} Grown(listed: seq<Mod>, missing: seq<Mod>, rows: seq<Row>, want: seq<Mod>, full: seq<Mod>)
    requires UniqueRows(rows) && Wants(want, rows) && Selection(listed, rows) && listed <= full
    requires UniqueNames(missing) && |missing| > 0
    requires forall m :: m in missing ==> m in want && !GivesBack(full, m)
    ensures Selection(listed + missing, rows)
    ensures Names(listed) < Names(listed + missing) <= Names(want)
  {
    var grown := listed + missing;
    forall i, j | 0 <= i < |listed| && 0 <= j < |missing| ensures listed[i].name != missing[j].name {
      assert missing[j] in missing && IsRow(rows, listed[i]);
      ListedIsGivenBack(listed, full, i);
    }
    forall i | 0 <= i < |grown| ensures grown[i] in want && IsRow(rows, grown[i]) {
      if i >= |listed| { assert missing[i - |listed|] in missing; }
    }
    forall i | 0 <= i < |rows| && !rows[i].dependency ensures rows[i].mod in grown {
      assert rows[i].mod in listed;
    }
    forall n | n in Names(listed) ensures n in Names(grown) {
      var i :| 0 <= i < |listed| && listed[i].name == n;
      assert grown[i].name == n;
    }
    assert grown[|listed|].name in Names(grown);
    forall n | n in Names(grown) ensures n in Names(want) {
      var i :| 0 <= i < |grown| && grown[i].name == n;
      assert grown[i] in want;
    }
  }

  /** The loop over the rows: what every row wants, and the list it starts from. */
  method InitialLists(rows: seq<Row>) returns (want: seq<Mod>, listed: seq<Mod>)
    requires UniqueRows(rows)
    ensures Wants(want, rows) && Selection(listed, rows) && listed == Chosen(rows)
  {
    want, listed := [], [];
    for i := 0 to |rows|
      invariant Wants(want, rows[..i]) && UniqueNames(listed) && listed == Chosen(rows[..i])
      invariant forall j :: 0 <= j < |listed| ==> exists k :: 0 <= k < i && rows[k].mod == listed[j]
      invariant forall j :: 0 <= j < i && !rows[j].dependency ==> rows[j].mod in listed
    {
      assert rows[..i + 1][..i] == rows[..i];
      want := want + [rows[i].mod];
      if !rows[i].dependency {
        listed := listed + [rows[i].mod];
      }
    }
    assert rows[..|rows|] == rows;
  }

  lemma {:induction false} NamesAreFew(mods: seq<Mod>)
    ensures |Names(mods)| <= |mods|
  {
    if mods == [] {
      assert Names(mods) == {};
    } else {
      NamesAreFew(mods[1..]);
      assert forall i :: 0 < i < |mods| ==> mods[i] == mods[1..][i - 1];
      assert Names(mods) == {mods[0].name} + Names(mods[1..]);
    }
  }

  lemma {:induction false} SmallerSet(a: set<string>, b: set<string>)
    requires a < b
    ensures |a| < |b|
  {
    assert |b| == |a| + |b - a| by { assert b == a + (b - a); }
    assert b - a != {};
  }

  /** m is not what the first j listed mods expand to. */
  ghost predicate NotGiven(listed: seq<Mod>, j: nat, m: Mod, cat: Catalogue)
    requires j <= |listed|
  {
    Expand(listed[..j], cat).Some? && !GivesBack(Expand(listed[..j], cat).value, m)
  }

  /** What was listed at some point, no less than the first n, did not expand to the i-th mod. */
  ghost predicate Needed(listed: seq<Mod>, n: nat, i: nat, cat: Catalogue)
    requires i < |listed|
  {
    exists j :: n <= j <= i && NotGiven(listed, j, listed[i], cat)
  }

  ghost predicate EachNeeded(listed: seq<Mod>, n: nat, cat: Catalogue) {
    forall i :: n <= i < |listed| ==> Needed(listed, n, i, cat)
  }

  /** Every row the chosen rows do not expand to is listed. */
  ghost predicate RestListed(listed: seq<Mod>, rows: seq<Row>, cat: Catalogue) {
    Expand(Chosen(rows), cat).Some? &&
    forall i :: 0 <= i < |rows| && !GivesBack(Expand(Chosen(rows), cat).value, rows[i].mod) ==> rows[i].mod in listed
  }

  /** What reduceMods returns of these rows. */
  ghost predicate IsReduction(reduced: seq<Mod>, rows: seq<Row>, cat: Catalogue) {
    && Selection(reduced, rows) && Chosen(rows) <= reduced
    && Expand(reduced, cat).Some?
    && (forall i :: 0 <= i < |rows| ==> GivesBack(Expand(reduced, cat).value, rows[i].mod))
    && EachNeeded(reduced, |Chosen(rows)|, cat) && RestListed(reduced, rows, cat)
  }

  /** The expansion of some selection of the rows has no answer. */
  ghost predicate LookupFails(rows: seq<Row>, cat: Catalogue) {
    exists listed :: Selection(listed, rows) && Chosen(rows) <= listed && Expand(listed, cat).None?
  }

  lemma {:induction false} NeededGrows(listed: seq<Mod>, missing: seq<Mod>, n: nat, cat: Catalogue, full: seq<Mod>)
    requires n <= |listed| && EachNeeded(listed, n, cat) && Expand(listed, cat) == Some(full)
    requires forall m :: m in missing ==> !GivesBack(full, m)
    ensures EachNeeded(listed + missing, n, cat)
  {
    hide Expand, GivesBack;
    var grown := listed + missing;
    forall i | n <= i < |grown| ensures Needed(grown, n, i, cat) {
      if i < |listed| {
        assert Needed(listed, n, i, cat);
        var j :| n <= j <= i && NotGiven(listed, j, listed[i], cat);
        assert grown[..j] == listed[..j];
        assert NotGiven(grown, j, grown[i], cat);
      } else {
        assert grown[..|listed|] == listed && missing[i - |listed|] in missing;
        assert NotGiven(grown, |listed|, grown[i], cat);
      }
    }
  }

  lemma {:induction false} RestIsListed(listed: seq<Mod>, missing: seq<Mod>, rows: seq<Row>, want: seq<Mod>,
        cat: Catalogue, full: seq<Mod>)
    requires Wants(want, rows) && Expand(listed, cat) == Some(full)
    requires forall m :: m in missing <==> m in want && !GivesBack(full, m)
    requires listed == Chosen(rows) || RestListed(listed, rows, cat)
    ensures RestListed(listed + missing, rows, cat)
  {
    hide Expand, GivesBack, Chosen;
    if listed == Chosen(rows) {
      forall i | 0 <= i < |rows| && !GivesBack(full, rows[i].mod) ensures rows[i].mod in listed + missing {
        assert want[i] in want;
      }
    }
  }

  /**
   reduceMods over rows of one instance, whose names the table keeps unique: the chosen rows and, added
   only as they are missing, dependencies, until the expansion gives every row back; within one round
   per row.
   */
  method ReduceMods(rows: seq<Row>, cat: Catalogue) returns (reduced: Option<seq<Mod>>, rounds: nat)
    requires UniqueRows(rows)
    ensures reduced.Some? ==> IsReduction(reduced.value, rows, cat)
    ensures rounds <= |rows|
    ensures reduced.None? ==> LookupFails(rows, cat)
    ensures cat.failing == {} ==> reduced.Some?
  {
    hide Expand, GivesBack, Chosen, EachNeeded, RestListed;
    var want, listed := InitialLists(rows);
    rounds := 0;
    NamesAreFew(want);
    NamesAreWanted(listed, rows, want);
    SubsetLeaves(Names(want), Names(listed));
    assert EachNeeded(listed, |listed|, cat) by { NothingNeeded(listed, cat); }
    while true
      invariant Selection(listed, rows) && Chosen(rows) <= listed
      invariant EachNeeded(listed, |Chosen(rows)|, cat) && (listed == Chosen(rows) || RestListed(listed, rows, cat))
      invariant Names(listed) <= Names(want)
      invariant rounds + |Names(want) - Names(listed)| <= |rows|
      decreases |Names(want) - Names(listed)|
    {
      var full := ExpandMods(listed, cat);
      if full.None? {
        if cat.failing == {} { ExpandAnswers(listed, cat); }
        return None, rounds;
      }
      ExpansionHasUniqueNames(listed, cat);
      var missing := MissingFrom(want, full.value);
      RestIsListed(listed, missing, rows, want, cat, full.value);
      if |missing| == 0 {
        forall i | 0 <= i < |rows| ensures GivesBack(full.value, rows[i].mod) {
          assert want[i] in want && want[i] !in missing;
        }
        assert listed + missing == listed;
        return Some(listed), rounds;
      }
      Grown(listed, missing, rows, want, full.value);
      NeededGrows(listed, missing, |Chosen(rows)|, cat, full.value);
      SmallerSet(Names(want) - Names(listed + missing), Names(want) - Names(listed));
      listed, rounds := listed + missing, rounds + 1;
    }
  }

  lemma {:induction false} NothingNeeded(listed: seq<Mod>, cat: Catalogue)
    ensures EachNeeded(listed, |listed|, cat)
  {
  }

  lemma {:induction false} NamesAreWanted(listed: seq<Mod>, rows: seq<Row>, want: seq<Mod>)
    requires Selection(listed, rows) && Wants(want, rows)
    ensures Names(listed) <= Names(want)
  {
    forall n | n in Names(listed) ensures n in Names(want) {
      var i :| 0 <= i < |listed| && listed[i].name == n;
      var j :| 0 <= j < |rows| && rows[j].mod == listed[i];
      assert want[j].name == n;
    }
  }

  lemma {:induction false} ExpandAnswers(mods: seq<Mod>, cat: Catalogue)
    requires cat.failing == {}
    ensures Expand(mods, cat).Some?
  {
    FixpointAnswers(map[], mods, cat);
    hide Fixpoint;
  }

  lemma {:induction false} SubsetLeaves(whole: set<string>, part: set<string>)
    ensures |whole - part| <= |whole|
  {
    assert whole == (whole - part) + (whole * part);
    assert |whole| == |whole - part| + |whole * part|;
  }
}
