/**
 What the expansion of internal/api/manifest_code.go takes of two pins of one package, by the numbers and
 the side tags as they are spelled.
*/
module ModVersions {
  import opened Optional
  import opened Text
  import opened SemVer
  import opened VersionOrder
  import opened ModExpansion
  import opened StalePins
  import opened ModLists

  /** The four tags from the weakest to the strongest; one that is none of them is as weak as no tag. */
  lemma {:induction false} SidesInOrder(side: string)
    ensures Weaker("unknown", "server_only") && Weaker("server_only", "client_optional")
    ensures Weaker("client_optional", "client_required")
    ensures side !in {"client_required", "client_optional", "server_only"} ==>
              !Weaker("unknown", side) && !Weaker(side, "unknown")
    ensures SideOrUnknown("") == "unknown" && (side != "" ==> SideOrUnknown(side) == side)
  {
  }

  /** a and b, listed, each pin d. */
  function TwoPins(a: Mod, b: Mod, d: string, v: Core, w: Core, src: string): Catalogue {
    Catalogue(
      map[KeyOf(a) := Package([Some(Pin(d, Release(v)))], src), KeyOf(b) := Package([Some(Pin(d, Release(w)))], src)],
      {})
  }

  ghost predicate Apart(a: Mod, b: Mod, d: string) { a.name != b.name && a.name != d && b.name != d }

  lemma {:induction false} NamesOfTwo(a: Mod, b: Mod)
    ensures forall x :: x in Names([a, b]) <==> x == a.name || x == b.name
  {
    assert [a, b][0].name in Names([a, b]) && [a, b][1].name in Names([a, b]);
  }

  lemma {:induction false} PinsOfTwo(a: Mod, b: Mod, d: string, v: Core, w: Core, src: string, k: Key, p: Pin)
    requires Apart(a, b, d) && PinsExactly(TwoPins(a, b, d, v, w, src), k, p)
    ensures p.name == d && (p.version == Release(v) || p.version == Release(w))
    ensures TwoPins(a, b, d, v, w, src).rows[k].origin == src
  {
    hide Release;
  }

  lemma {:induction false} DerivedOfTwo(a: Mod, b: Mod, d: string, v: Core, w: Core, src: string, derived: Derived,
        x: string)
    requires Apart(a, b, d) && x in derived
    requires
      var cat := TwoPins(a, b, d, v, w, src);
      Traced(derived, cat, [a, b], HistoryOf([a, b], cat))
    ensures x == d && derived[x].name == d && derived[x].source == src
    ensures derived[x].version == Release(v) || derived[x].version == Release(w)
    ensures derived[x].side == a.side || derived[x].side == b.side
  {
    var cat := TwoPins(a, b, d, v, w, src);
    var seen := HistoryOf([a, b], cat);
    hide HistoryOf, TwoPins;
    assert TracedMod(x, derived[x], cat, [a, b], seen);
    var k :| k in seen && PinsExactly(cat, k, Pin(x, derived[x].version));
    PinsOfTwo(a, b, d, v, w, src, k, Pin(x, derived[x].version));
    var s :| s in seen && PinsName(cat, s, x) && cat.rows[s].origin == derived[x].source;
    var u :| Some(Pin(x, u)) in cat.rows[s].pins;
    assert PinsExactly(cat, s, Pin(x, u));
    PinsOfTwo(a, b, d, v, w, src, s, Pin(x, u));
    var i :| 0 <= i < 2 && [a, b][i].side == derived[x].side;
  }

  lemma {:induction false} OnlyOne(derived: Derived, d: string)
    requires derived.Keys == {d}
    ensures SortedMods(derived) == [derived[d]]
  {
    assert Least(derived.Keys) == d && derived.Keys - {d} == {};
    assert Sorted(derived.Keys) == [d] + Sorted({});
  }

  /** A pin of a listed mod is met by the derived package it names, in version and in side. */
  lemma {:induction false} ListedPinIsMet(mods: seq<Mod>, cat: Catalogue, derived: Derived, i: nat, p: Pin)
    requires Expand(mods, cat) == Some(mods + SortedMods(derived))
    requires Traced(derived, cat, mods, HistoryOf(mods, cat))
    requires i < |mods| && PinsExactly(cat, KeyOf(mods[i]), p) && p.name !in Names(mods)
    ensures p.name in derived
    ensures !Higher(p.version, derived[p.name].version) && !Weaker(derived[p.name].side, mods[i].side)
  {
    ExpandIsClosed(mods, cat);
    hide Expand, Traced, HistoryOf, Higher, SortedMods, Weaker, Names;
    var out := mods + SortedMods(derived);
    assert out[i] == mods[i] && PinsMet(mods, out, out[i], cat);
    var j :| |mods| <= j < |out| && out[j].name == p.name && !Higher(p.version, out[j].version)
             && !Weaker(out[j].side, mods[i].side);
    AddedIsDerived(mods, cat, derived, j);
  }

  lemma {:induction false} PinsAreThere(a: Mod, b: Mod, d: string, v: Core, w: Core, src: string)
    requires Apart(a, b, d)
    ensures PinsExactly(TwoPins(a, b, d, v, w, src), KeyOf(a), Pin(d, Release(v)))
    ensures PinsExactly(TwoPins(a, b, d, v, w, src), KeyOf(b), Pin(d, Release(w)))
  {
    hide Release;
  }

  lemma {:induction false} MetByTwo(a: Mod, b: Mod, d: string, v: Core, w: Core, src: string, derived: Derived)
    requires Apart(a, b, d)
    requires
      var cat := TwoPins(a, b, d, v, w, src);
      && Expand([a, b], cat) == Some([a, b] + SortedMods(derived))
      && Traced(derived, cat, [a, b], HistoryOf([a, b], cat))
    ensures d in derived
    ensures !Higher(Release(v), derived[d].version) && !Higher(Release(w), derived[d].version)
    ensures !Weaker(derived[d].side, a.side) && !Weaker(derived[d].side, b.side)
  {
    hide Expand, Traced, HistoryOf, Higher, SortedMods, Release, Weaker, TwoPins, PinsExactly;
    var cat := TwoPins(a, b, d, v, w, src);
    NamesOfTwo(a, b);
    PinsAreThere(a, b, d, v, w, src);
    ListedPinIsMet([a, b], cat, derived, 0, Pin(d, Release(v)));
    ListedPinIsMet([a, b], cat, derived, 1, Pin(d, Release(w)));
  }

  lemma {:induction false} LargerIsTaken(v: Core, w: Core, version: string)
    requires Fits(v) && Fits(w) && (version == Release(v) || version == Release(w))
    requires !Higher(Release(v), version) && !Higher(Release(w), version)
    ensures version == Release(if Above(v, w) then v else w)
  {
    ReleasesCompareByNumber(v, w);
    ReleasesCompareByNumber(w, v);
    hide Higher, Release;
  }

  /** Of two pins of a package expandMods takes the larger version and the stronger side. */
  lemma {:induction false} TheLargerPinIsTaken(a: Mod, b: Mod, d: string, v: Core, w: Core, src: string)
    returns (m: Mod)
    requires Apart(a, b, d) && Fits(v) && Fits(w)
    ensures Expand([a, b], TwoPins(a, b, d, v, w, src)) == Some([a, b, m])
    ensures m.name == d && m.source == src && m.version == Release(if Above(v, w) then v else w)
    ensures m.side == a.side || m.side == b.side
    ensures !Weaker(m.side, a.side) && !Weaker(m.side, b.side)
  {
    hide Expand, Fixpoint, Traced, HistoryOf, History, Higher, SortedMods, Release, Weaker, TwoPins, Pass;
    hide Chained, Above, Keys, Names;
    var cat := TwoPins(a, b, d, v, w, src);
    assert cat.failing == {} by { NothingFails(a, b, d, v, w, src); }
    ExpandAnswers([a, b], cat);
    var derived := Behind([a, b], cat);
    MetByTwo(a, b, d, v, w, src, derived);
    forall x | x in derived ensures x == d { DerivedOfTwo(a, b, d, v, w, src, derived, x); }
    DerivedOfTwo(a, b, d, v, w, src, derived, d);
    OnlyOne(derived, d);
    m := derived[d];
    LargerIsTaken(v, w, m.version);
    assert [a, b] + [m] == [a, b, m];
  }

  lemma {:induction false} NothingFails(a: Mod, b: Mod, d: string, v: Core, w: Core, src: string)
    ensures TwoPins(a, b, d, v, w, src).failing == {}
  {
  }

  // ----- when a lookup fails -----

  lemma {:induction false} PassFailsIff(derived: Derived, listed: set<string>, todo: seq<Mod>, cat: Catalogue)
    ensures Pass(derived, listed, todo, cat).None? <==> exists i :: 0 <= i < |todo| && KeyOf(todo[i]) in cat.failing
    decreases |todo|
  {
    if todo != [] && KeyOf(todo[0]) !in cat.failing {
      PassFailsIff(Visit(derived, listed, todo[0], cat).value, listed, todo[1..], cat);
      if i :| 0 <= i < |todo| && KeyOf(todo[i]) in cat.failing { assert todo[1..][i - 1] == todo[i]; }
      if i :| 0 <= i < |todo[1..]| && KeyOf(todo[1..][i]) in cat.failing { assert todo[i + 1] == todo[1..][i]; }
    }
  }

  ghost predicate AnyFails(keys: set<Key>, cat: Catalogue) { exists k :: k in keys && k in cat.failing }

  lemma {:induction false} FixpointFailsIff(derived: Derived, mods: seq<Mod>, cat: Catalogue)
    requires Pinned(derived, cat)
    ensures Fixpoint(derived, mods, cat).None? <==> AnyFails(History(derived, mods, cat), cat)
    decreases AllFacts(cat) - Facts(derived, cat)
  {
    var snapshot := mods + SortedMods(derived);
    PassFailsIff(derived, Names(mods), snapshot, cat);
    PassExtends(derived, Names(mods), snapshot, cat);
    PassIsPinned(derived, Names(mods), snapshot, cat);
    KeysFail(snapshot, cat);
    if Pass(derived, Names(mods), snapshot, cat).Some? {
      var d := Pass(derived, Names(mods), snapshot, cat).value;
      hide Pass, SortedMods, Extends, Pinned, AllFacts, Facts, Fixpoint, History, Keys;
      OnePass(derived, mods, cat, d);
      if d != derived { FixpointFailsIff(d, mods, cat); }
    }
  }

  lemma {:induction false} KeysFail(mods: seq<Mod>, cat: Catalogue)
    ensures AnyFails(Keys(mods), cat) <==> exists i :: 0 <= i < |mods| && KeyOf(mods[i]) in cat.failing
  {
    if i :| 0 <= i < |mods| && KeyOf(mods[i]) in cat.failing { assert KeyOf(mods[i]) in Keys(mods); }
  }

  /** expandMods gives no answer exactly when a version it looks up is one whose lookup fails. */
  lemma {:induction false} ExpandFailsIff(mods: seq<Mod>, cat: Catalogue)
    ensures Expand(mods, cat).None? <==> AnyFails(HistoryOf(mods, cat), cat)
  {
    FixpointFailsIff(map[], mods, cat);
    hide Fixpoint, History;
  }
}
