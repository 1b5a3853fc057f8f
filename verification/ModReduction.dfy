/**
 Which dependencies reduceMods of internal/api/manifest_code.go lists, and when it meets its promise to leave
 out each one that the rest of the list expands to.
*/
module ModReduction {
  import opened Optional
  import opened Text
  import opened SemVer
  import opened ModExpansion
  import opened StalePins
  import opened ModLists
  import opened ModRoutes

  function Without(reduced: seq<Mod>, i: nat): seq<Mod>
    requires i < |reduced|
  {
    reduced[..i] + reduced[i + 1..]
  }

  /** The rest of the list expands to its i-th entry. */
  ghost predicate Derivable(reduced: seq<Mod>, i: nat, cat: Catalogue)
    requires i < |reduced|
  {
    var rest := Expand(Without(reduced, i), cat);
    rest.Some? && GivesBack(rest.value, reduced[i])
  }

  // ----- on any list -----

  lemma {:induction false} WithoutHasNoName(reduced: seq<Mod>, i: nat)
    requires UniqueNames(reduced) && i < |reduced|
    ensures UniqueNames(Without(reduced, i)) && reduced[i].name !in Names(Without(reduced, i))
    ensures ModSet(Without(reduced, i)) == ModSet(reduced) - {reduced[i]}
  {
    var rest := Without(reduced, i);
    assert forall j :: 0 <= j < |rest| ==> rest[j] == reduced[if j < i then j else j + 1];
    forall m | m in ModSet(reduced) - {reduced[i]} ensures m in rest {
      var j :| 0 <= j < |reduced| && reduced[j] == m;
      assert rest[if j < i then j else j - 1] == m;
    }
  }

  lemma {:induction false} PrefixIsNamed(mods: seq<Mod>, out: seq<Mod>, j: nat)
    requires mods <= out && j < |out|
    ensures j < |mods| ==> out[j].name in Names(mods)
  {
    if j < |mods| { assert mods[j] == out[j]; }
  }

  /** An entry is derivable only if a chain of pins from the other entries ends at its own version. */
  lemma {:induction false} DerivableIsPinned(reduced: seq<Mod>, i: nat, cat: Catalogue) returns (chain: seq<Key>)
    requires UniqueNames(reduced) && i < |reduced| && Derivable(reduced, i, cat)
    ensures
      var rest := Without(reduced, i);
      && IsChain(cat, rest, HistoryOf(rest, cat), chain) && chain[|chain| - 1] == KeyOf(reduced[i]) && |chain| > 1
      && PinnedBySeen(cat, HistoryOf(rest, cat), Pin(reduced[i].name, reduced[i].version))
  {
    hide Expand, HistoryOf, IsChain, PinnedBySeen, SideListed;
    var rest := Without(reduced, i);
    var out := Expand(rest, cat).value;
    WithoutHasNoName(reduced, i);
    ExpansionHasUniqueNames(rest, cat);
    var j :| 0 <= j < |out| && out[j].name == reduced[i].name && SameMod(out[j], reduced[i]);
    PrefixIsNamed(rest, out, j);
    chain := AddedModsAreReached(rest, cat, j);
  }

  /** So one that no catalogue row pins at its own version, as one upgraded by hand, is listed by right. */
  lemma {:induction false} UnpinnedIsNotDerivable(reduced: seq<Mod>, i: nat, cat: Catalogue)
    requires UniqueNames(reduced) && i < |reduced|
    requires forall k :: !PinsExactly(cat, k, Pin(reduced[i].name, reduced[i].version))
    ensures !Derivable(reduced, i, cat)
  {
    hide Expand, HistoryOf, IsChain, PinsExactly, GivesBack;
    if Derivable(reduced, i, cat) { var _ := DerivableIsPinned(reduced, i, cat); }
  }

  /** The chosen rows give every row back. */
  ghost predicate ChosenSuffice(rows: seq<Row>, cat: Catalogue) {
    Expand(Chosen(rows), cat).Some? &&
    forall i :: 0 <= i < |rows| ==> GivesBack(Expand(Chosen(rows), cat).value, rows[i].mod)
  }

  /** The first dependency listed is a row the chosen ones do not expand to. */
  lemma {:induction false} FirstDependencyIsMissing(reduced: seq<Mod>, rows: seq<Row>, cat: Catalogue)
    requires IsReduction(reduced, rows, cat) && |reduced| > |Chosen(rows)|
    ensures !ChosenSuffice(rows, cat)
  {
    hide Expand, Chosen, GivesBack;
    var n := |Chosen(rows)|;
    assert Needed(reduced, n, n, cat) && reduced[..n] == Chosen(rows);
    assert IsRow(rows, reduced[n]);
  }

  /** Of any rows, no dependency at all is listed exactly when the chosen rows expand to every row. */
  lemma {:induction false} ListsNoDependencyIff(reduced: seq<Mod>, rows: seq<Row>, cat: Catalogue)
    requires IsReduction(reduced, rows, cat)
    ensures reduced == Chosen(rows) <==> ChosenSuffice(rows, cat)
  {
    hide Expand, Chosen, GivesBack;
    if |reduced| > |Chosen(rows)| { FirstDependencyIsMissing(reduced, rows, cat); }
  }

  // ----- on settled rows -----

  ghost function RowMods(rows: seq<Row>): set<Mod> {
    set i | 0 <= i < |rows| :: rows[i].mod
  }

  /** The rows that the chosen ones do not lead to at their own version and side. */
  ghost function Missing(rows: seq<Row>, cat: Catalogue): set<Mod> {
    set y | y in RowMods(rows) && !Reached(cat, ModSet(Chosen(rows)), y)
  }

  ghost function Kept(rows: seq<Row>, cat: Catalogue): set<Mod> {
    ModSet(Chosen(rows)) + Missing(rows, cat)
  }

  /** A list without duplicates, of rows. */
  ghost predicate OfRows(mods: seq<Mod>, rows: seq<Row>) {
    UniqueNames(mods) && ModSet(mods) <= RowMods(rows)
  }

  lemma {:induction false} PrefixOfRows(reduced: seq<Mod>, rows: seq<Row>, j: nat)
    requires Selection(reduced, rows) && j <= |reduced|
    ensures OfRows(reduced[..j], rows)
  {
    forall m | m in reduced[..j] ensures m in RowMods(rows) {
      var i :| 0 <= i < j && reduced[i] == m;
      assert IsRow(rows, reduced[i]);
    }
  }

  lemma {:induction false} ChosenFirst(chosen: seq<Mod>, reduced: seq<Mod>, j: nat)
    requires chosen <= reduced && |chosen| <= j <= |reduced|
    ensures ModSet(chosen) <= ModSet(reduced[..j]) && reduced[..|chosen|] == chosen
  {
    assert chosen == reduced[..j][..|chosen|];
  }

  lemma {:induction false} ListedIsMissing(reduced: seq<Mod>, rows: seq<Row>, cat: Catalogue, i: nat)
    requires IsReduction(reduced, rows, cat) && Settled(RowMods(rows), cat) && |Chosen(rows)| <= i < |reduced|
    ensures reduced[i] in Missing(rows, cat)
  {
    hide Expand, Chosen, GivesBack, Settled, Reached, ModSet, Selection;
    var n := |Chosen(rows)|;
    assert Needed(reduced, n, i, cat);
    var j :| n <= j <= i && NotGiven(reduced, j, reduced[i], cat);
    PrefixOfRows(reduced, rows, j);
    RowIsThere(reduced, rows, i);
    GivesBackIff(reduced[..j], RowMods(rows), cat, reduced[i]);
    ChosenFirst(Chosen(rows), reduced, j);
    if Reached(cat, ModSet(Chosen(rows)), reduced[i]) {
      ReachedWidens(cat, ModSet(Chosen(rows)), ModSet(reduced[..j]), reduced[i]);
    }
  }

  lemma {:induction false} RowIsThere(reduced: seq<Mod>, rows: seq<Row>, i: nat)
    requires Selection(reduced, rows) && i < |reduced|
    ensures reduced[i] in RowMods(rows)
  {
    assert IsRow(rows, reduced[i]);
  }

  lemma {:induction false} MissingIsListed(reduced: seq<Mod>, rows: seq<Row>, cat: Catalogue, y: Mod)
    requires IsReduction(reduced, rows, cat) && Settled(RowMods(rows), cat) && y in Missing(rows, cat)
    ensures y in reduced
  {
    hide Expand, Chosen, GivesBack, Settled, Reached, ModSet, Selection;
    PrefixOfRows(reduced, rows, |Chosen(rows)|);
    ChosenFirst(Chosen(rows), reduced, |Chosen(rows)|);
    GivesBackIff(Chosen(rows), RowMods(rows), cat, y);
    var i :| 0 <= i < |rows| && rows[i].mod == y;
  }

  /** The list is the chosen rows and the missing ones, and no others. */
  lemma {:induction false} ListsExactlyKept(reduced: seq<Mod>, rows: seq<Row>, cat: Catalogue)
    requires IsReduction(reduced, rows, cat) && Settled(RowMods(rows), cat)
    ensures ModSet(reduced) == Kept(rows, cat)
  {
    hide Expand, Chosen, GivesBack, Settled, Reached, RowMods, Missing;
    forall m | m in ModSet(reduced) ensures m in Kept(rows, cat) {
      var i :| 0 <= i < |reduced| && reduced[i] == m;
      if i >= |Chosen(rows)| {
        ListedIsMissing(reduced, rows, cat, i);
      } else {
        assert Chosen(rows)[i] == m;
      }
    }
    forall m | m in Kept(rows, cat) ensures m in reduced {
      if m in Missing(rows, cat) { MissingIsListed(reduced, rows, cat, m); }
    }
  }

  /** An entry is derivable exactly when the other rows kept lead to its version and reach its side. */
  lemma {:induction false} DerivableIff(reduced: seq<Mod>, rows: seq<Row>, cat: Catalogue, i: nat)
    requires IsReduction(reduced, rows, cat) && Settled(RowMods(rows), cat) && i < |reduced|
    ensures Derivable(reduced, i, cat) <==> Reached(cat, Kept(rows, cat) - {reduced[i]}, reduced[i])
  {
    ListsExactlyKept(reduced, rows, cat);
    hide Expand, Chosen, GivesBack, Settled, Reached, Kept, RowMods;
    PrefixOfRows(reduced, rows, |reduced|);
    assert reduced[..|reduced|] == reduced;
    WithoutHasNoName(reduced, i);
    RowIsThere(reduced, rows, i);
    GivesBackIff(Without(reduced, i), RowMods(rows), cat, reduced[i]);
  }

  /** A missing row that the chosen and the other missing ones together reach. */
  ghost predicate Superfluous(rows: seq<Row>, cat: Catalogue, y: Mod) {
    y in Missing(rows, cat) && Reached(cat, Kept(rows, cat) - {y}, y)
  }

  /** No dependency on the list is one the rest expands to. */
  ghost predicate PromiseKept(reduced: seq<Mod>, rows: seq<Row>, cat: Catalogue) {
    forall i :: |Chosen(rows)| <= i < |reduced| ==> !Derivable(reduced, i, cat)
  }

  /**
   reduceMods leaves out each dependency the rest expands to exactly when no missing row is reached from
   the chosen and the other missing ones.
  */
  lemma {:induction false} PromiseKeptIff(reduced: seq<Mod>, rows: seq<Row>, cat: Catalogue)
    requires IsReduction(reduced, rows, cat) && Settled(RowMods(rows), cat)
    ensures PromiseKept(reduced, rows, cat) <==> forall y :: !Superfluous(rows, cat, y)
  {
    hide Expand, Chosen, GivesBack, Settled, Reached, Kept, Missing, Derivable, RowMods;
    forall i | |Chosen(rows)| <= i < |reduced|
      ensures Derivable(reduced, i, cat) <==> Superfluous(rows, cat, reduced[i])
    {
      ListedIsMissing(reduced, rows, cat, i);
      DerivableIff(reduced, rows, cat, i);
    }
    forall y | Superfluous(rows, cat, y)
      ensures exists i :: |Chosen(rows)| <= i < |reduced| && reduced[i] == y
    {
      MissingIsListed(reduced, rows, cat, y);
      var i :| 0 <= i < |reduced| && reduced[i] == y;
      if i < |Chosen(rows)| { ChosenIsNotMissing(rows, cat, i); }
    }
  }

  lemma {:induction false} ChosenIsNotMissing(rows: seq<Row>, cat: Catalogue, i: nat)
    requires i < |Chosen(rows)|
    ensures Chosen(rows)[i] !in Missing(rows, cat)
  {
    hide Chosen, Led, Touches;
    StartIsLed(cat, ModSet(Chosen(rows)), Chosen(rows)[i]);
  }

  // ----- rows for which it does not -----

  /** Two installed dependencies, the first of which pins the second. */
  function Orphans(p: Mod, q: Mod): seq<Row> { [Row(p, true), Row(q, true)] }

  function OrphanCat(p: Mod, q: Mod): Catalogue {
    Catalogue(map[KeyOf(p) := Package([Some(Pin(q.name, q.version))], q.source), KeyOf(q) := Package([], q.source)], {})
  }

  /** Rows of one registry and side tag, each pinned at its own version only: settled. */
  lemma {:induction false} OrphansAreSettled(p: Mod, q: Mod)
    requires p.name != q.name && q.side == p.side && KnownSide(p.side) && q.source == p.source
    ensures Settled(RowMods(Orphans(p, q)), OrphanCat(p, q))
  {
    var rows := RowMods(Orphans(p, q));
    forall m | m in rows ensures m == p || m == q {
      var i :| 0 <= i < 2 && Orphans(p, q)[i].mod == m;
    }
    hide KnownSide, SideRank;
    OnePinEachIsSettled(rows, OrphanCat(p, q), p.source);
  }

  lemma {:induction false} NothingExpands(cat: Catalogue)
    requires cat.failing == {}
    ensures Expand([], cat) == Some([])
  {
    var none: Derived := map[];
    assert Sorted(none.Keys) == [];
    assert SortedMods(none) == [];
    assert Pass(none, Names([]), [], cat) == Some(none);
    assert [] + SortedMods(none) == [];
  }

  /** The first alone expands to both. */
  lemma {:induction false} FirstOrphanBringsBoth(p: Mod, q: Mod)
    requires p.name != q.name && q.side == p.side
    ensures
      var cat := OrphanCat(p, q);
      Expand([p], cat).Some? && GivesBack(Expand([p], cat).value, p) && GivesBack(Expand([p], cat).value, q)
  {
    var cat := OrphanCat(p, q);
    ExpandAnswers([p], cat);
    var d := Behind([p], cat);
    NameOfOne(p);
    hide Expand, Higher, SortedMods, History, Pass, Fixpoint, Chained;
    var out := [p] + SortedMods(d);
    assert out[0] == p;
    PinIsMet([p], cat, d, 0, Pin(q.name, q.version));
    SecondOrphan(p, q, d);
    var i := DerivedIsReturned([p], d, q.name);
    assert out[i].name == q.name && SameMod(out[i], q);
  }

  lemma {:induction false} SecondOrphan(p: Mod, q: Mod, d: Derived)
    requires p.name != q.name && q.name in d && Traced(d, OrphanCat(p, q), [p], HistoryOf([p], OrphanCat(p, q)))
    ensures d[q.name] == Mod(q.name, q.version, q.source, p.side)
  {
    var cat := OrphanCat(p, q);
    hide HistoryOf;
    assert TracedMod(q.name, d[q.name], cat, [p], HistoryOf([p], cat));
    var k :| k in HistoryOf([p], cat) && PinsExactly(cat, k, Pin(q.name, d[q.name].version));
    var s :| s in HistoryOf([p], cat) && PinsName(cat, s, q.name) && cat.rows[s].origin == d[q.name].source;
  }

  lemma {:induction false} OrphansAreListed(p: Mod, q: Mod, reduced: seq<Mod>)
    requires p.name != q.name && IsReduction(reduced, Orphans(p, q), OrphanCat(p, q))
    ensures p in reduced && q in reduced
  {
    var rows := Orphans(p, q);
    NothingExpands(OrphanCat(p, q));
    NothingChosen(p, q);
    hide Expand, OrphanCat, Chosen;
    assert !GivesBack([], p) && !GivesBack([], q);
    assert rows[0].mod == p && rows[1].mod == q;
  }

  lemma {:induction false} TwoListed(p: Mod, q: Mod, reduced: seq<Mod>) returns (i: nat)
    requires p.name != q.name && Selection(reduced, Orphans(p, q)) && p in reduced && q in reduced
    ensures i < |reduced| && reduced[i] == q && Without(reduced, i) == [p]
  {
    i :| 0 <= i < |reduced| && reduced[i] == q;
    WithoutHasNoName(reduced, i);
    forall m | m in Without(reduced, i) ensures m == p {
      assert m in ModSet(reduced) - {q};
      var k :| 0 <= k < |reduced| && reduced[k] == m;
      assert IsRow(Orphans(p, q), reduced[k]);
    }
    assert p in ModSet(Without(reduced, i));
    OnlyOne(Without(reduced, i), p);
  }

  lemma {:induction false} OnlyOne(mods: seq<Mod>, p: Mod)
    requires UniqueNames(mods) && p in mods && forall m :: m in mods ==> m == p
    ensures mods == [p]
  {
    assert |mods| > 1 ==> mods[0].name != mods[1].name;
    assert forall i :: 0 <= i < |mods| ==> mods[i] in mods;
  }

  /**
   Of two dependencies nobody chosen brings, the first pinning the second, both are listed in one round,
   and the second is derivable from the first.
  */
  lemma {:induction false} OrphansAreBothListed(p: Mod, q: Mod, reduced: seq<Mod>)
    requires p.name != q.name && q.side == p.side && IsReduction(reduced, Orphans(p, q), OrphanCat(p, q))
    ensures p in reduced && q in reduced && !PromiseKept(reduced, Orphans(p, q), OrphanCat(p, q))
    ensures exists i :: 0 <= i < |reduced| && reduced[i] == q && Derivable(reduced, i, OrphanCat(p, q))
    ensures
      var cat := OrphanCat(p, q);
      Expand([p], cat).Some? && forall i :: 0 <= i < 2 ==> GivesBack(Expand([p], cat).value, Orphans(p, q)[i].mod)
  {
    hide Expand, OrphanCat, Chosen, GivesBack, Orphans, IsReduction;
    OrphansAreListed(p, q, reduced);
    BothAreGivenBack(p, q);
    OfReduction(reduced, Orphans(p, q), OrphanCat(p, q));
    var i := TwoListed(p, q, reduced);
    assert Derivable(reduced, i, OrphanCat(p, q));
    hide Derivable;
    NothingChosen(p, q);
  }

  lemma {:induction false} BothAreGivenBack(p: Mod, q: Mod)
    requires p.name != q.name && q.side == p.side
    ensures
      var cat := OrphanCat(p, q);
      Expand([p], cat).Some? && GivesBack(Expand([p], cat).value, q) &&
      forall i :: 0 <= i < 2 ==> GivesBack(Expand([p], cat).value, Orphans(p, q)[i].mod)
  {
    FirstOrphanBringsBoth(p, q);
    hide Expand, OrphanCat, GivesBack;
  }

  lemma {:induction false} OfReduction(reduced: seq<Mod>, rows: seq<Row>, cat: Catalogue)
    requires IsReduction(reduced, rows, cat)
    ensures Selection(reduced, rows)
  {
  }

  lemma {:induction false} NothingChosen(p: Mod, q: Mod)
    ensures Chosen(Orphans(p, q)) == []
  {
    var rows := Orphans(p, q);
    assert rows[..1] == [rows[0]];
    assert Chosen(rows[..1]) == [] by { assert rows[..1][..0] == []; }
  }
}
