/**
 Who pins the mods that expandMods of internal/api/manifest_code.go adds. A pin can come from a version
 that a later pin has since replaced, and what only such a version asked for stays.
*/
module StalePins {
  import opened Optional
  import opened Text
  import opened SemVer
  import opened ModExpansion

  /** A version that was looked up is still what is derived, or was raised since. */
  ghost predicate KeptOrRaised(d: Derived, mods: seq<Mod>, k: Key) {
    k in Keys(mods) ||
    (k.name in d && k.source == d[k.name].source &&
          (k.version == d[k.name].version || Higher(d[k.name].version, k.version)))
  }

  lemma {:induction false} SnapshotIsKept(derived: Derived, mods: seq<Mod>, cat: Catalogue, d: Derived, k: Key)
    requires Extends(derived, d) && k in Keys(mods + SortedMods(derived)) && Pinned(derived, cat)
    ensures KeptOrRaised(d, mods, k)
  {
    hide Higher;
    var i :| 0 <= i < |mods + SortedMods(derived)| && KeyOf((mods + SortedMods(derived))[i]) == k;
    SnapshotMods(derived, mods, i);
    if i >= |mods| {
      var x :| x in derived && (mods + SortedMods(derived))[i] == derived[x];
      assert AtLeast(derived[x], d[x]);
    }
  }

  lemma {:induction false} HistoryIsKept(derived: Derived, mods: seq<Mod>, cat: Catalogue, seen: set<Key>, k: Key)
    requires Pinned(derived, cat) && Traced(derived, cat, mods, seen) && Chained(cat, mods, seen)
    requires Fixpoint(derived, mods, cat).Some? && k in History(derived, mods, cat)
    ensures KeptOrRaised(Fixpoint(derived, mods, cat).value, mods, k)
    decreases AllFacts(cat) - Facts(derived, cat)
  {
    hide Traced, Chained, Keys, Pass, SortedMods, Extends, Pinned, AllFacts, Facts, Fixpoint, History, Stable;
    hide KeptOrRaised;
    PassAnswered(derived, mods, cat);
    var d := Pass(derived, Names(mods), mods + SortedMods(derived), cat).value;
    PassKeeps(derived, mods, cat, seen, d);
    OnePass(derived, mods, cat, d);
    var keys := Keys(mods + SortedMods(derived));
    if k in keys {
      FixpointIsStable(derived, mods, cat, seen);
      SnapshotIsKept(derived, mods, cat, Fixpoint(derived, mods, cat).value, k);
    } else {
      HistoryIsKept(d, mods, cat, seen + keys, k);
    }
  }

  /** A version looked up on the way, of a mod since returned at a higher one. */
  ghost predicate RaisedSince(mods: seq<Mod>, out: seq<Mod>, k: Key) {
    && k.name !in Names(mods)
    && exists i :: |mods| <= i < |out| && out[i].name == k.name && Higher(out[i].version, k.version)
  }

  lemma {:induction false} DerivedIsReturned(mods: seq<Mod>, d: Derived, x: string) returns (i: nat)
    requires x in d
    ensures |mods| <= i < |mods + SortedMods(d)| && (mods + SortedMods(d))[i] == d[x]
  {
    hide Sorted, SortedMods;
    var names, added := Sorted(d.Keys), SortedMods(d);
    assert x in names;
    var j :| 0 <= j < |names| && names[j] == x;
    assert added[j] == d[x];
    i := |mods| + j;
  }

  /** A mod after the listed ones is the derived one of its name. */
  lemma {:induction false} AddedIsDerived(mods: seq<Mod>, cat: Catalogue, d: Derived, j: nat)
    requires Traced(d, cat, mods, HistoryOf(mods, cat)) && |mods| <= j < |mods + SortedMods(d)|
    ensures var m := (mods + SortedMods(d))[j]; m.name in d && d[m.name] == m && m.name !in Names(mods)
  {
    hide HistoryOf, SortedMods;
    SnapshotMods(d, mods, j);
    var y :| y in d && (mods + SortedMods(d))[j] == d[y];
    assert TracedMod(y, d[y], cat, mods, HistoryOf(mods, cat));
  }

  lemma {:induction false} ListedIsReturned(mods: seq<Mod>, more: seq<Mod>, k: Key)
    ensures k in Keys(mods) ==> k in Keys(mods + more)
  {
    if i :| 0 <= i < |mods| && KeyOf(mods[i]) == k { assert (mods + more)[i] == mods[i]; }
  }

  lemma {:induction false} ReturnedIsNotRaised(mods: seq<Mod>, cat: Catalogue, d: Derived, k: Key)
    requires Traced(d, cat, mods, HistoryOf(mods, cat)) && k in Keys(mods + SortedMods(d))
    ensures !RaisedSince(mods, mods + SortedMods(d), k)
  {
    var out := mods + SortedMods(d);
    var i :| 0 <= i < |out| && KeyOf(out[i]) == k;
    HigherIsStrict(k.version, k.version, k.version);
    hide Higher, HistoryOf, Traced;
    if i < |mods| {
      assert mods[i] == out[i] && mods[i].name in Names(mods);
    } else {
      AddedIsDerived(mods, cat, d, i);
      forall j | |mods| <= j < |out| && out[j].name == k.name ensures out[j].version == k.version {
        AddedIsDerived(mods, cat, d, j);
      }
    }
  }

  /** What was looked up is returned, or was raised since; never both. */
  lemma {:induction false} LookedUpIsReturnedOrRaised(mods: seq<Mod>, cat: Catalogue, k: Key)
    requires Expand(mods, cat).Some? && k in HistoryOf(mods, cat)
    ensures var out := Expand(mods, cat).value; k in Keys(out) <==> !RaisedSince(mods, out, k)
  {
    var d := Behind(mods, cat);
    var out := mods + SortedMods(d);
    hide Fixpoint, Expand, Pass, Chained, Higher, History, Keys;
    NothingChained(cat, mods);
    HistoryIsKept(map[], mods, cat, {}, k);
    ListedIsReturned(mods, SortedMods(d), k);
    if k in Keys(out) {
      ReturnedIsNotRaised(mods, cat, d, k);
    } else {
      assert TracedMod(k.name, d[k.name], cat, mods, HistoryOf(mods, cat));
      var i := DerivedIsReturned(mods, d, k.name);
      ReturnedKey(out, i);
    }
  }

  lemma {:induction false} ReturnedKey(out: seq<Mod>, i: nat)
    requires i < |out|
    ensures KeyOf(out[i]) in Keys(out)
  {
  }

  /** No returned mod's row has a readable pin of the name. */
  ghost predicate PinnedByNone(cat: Catalogue, out: seq<Mod>, name: string) {
    forall k :: k in Keys(out) ==> !PinsName(cat, k, name)
  }

  /**
   Over every expansion: no returned mod pins a name exactly when every version that was looked up and
   pins it was raised since.
  */
  lemma {:induction false} PinnedByNoneIff(mods: seq<Mod>, cat: Catalogue, name: string)
    requires Expand(mods, cat).Some?
    ensures
      var out := Expand(mods, cat).value;
      PinnedByNone(cat, out, name)
      <==> forall k :: k in HistoryOf(mods, cat) && PinsName(cat, k, name) ==> RaisedSince(mods, out, k)
  {
    var d := Behind(mods, cat);
    var out := mods + SortedMods(d);
    hide Fixpoint, Expand, Pass, Chained, History, Traced, RaisedSince, PinsName, Keys, SortedMods;
    forall k | k in HistoryOf(mods, cat) ensures k in Keys(out) <==> !RaisedSince(mods, out, k) {
      LookedUpIsReturnedOrRaised(mods, cat, k);
    }
  }

  // ----- a catalogue in which every chain is among the returned mods -----

  /** A chain of pins from a listed mod ends there. */
  ghost predicate Reachable(cat: Catalogue, mods: seq<Mod>, k: Key) {
    exists through: set<Key> :: HasChain(cat, mods, through, k)
  }

  /** No unlisted name is pinned at two versions, of which one is higher, by what the mods can reach. */
  ghost predicate Consistent(cat: Catalogue, mods: seq<Mod>) {
    forall k, k', p, p' ::
      Reachable(cat, mods, k) && Reachable(cat, mods, k') && PinsExactly(cat, k, p) && PinsExactly(cat, k', p')
      && p.name == p'.name && p.name !in Names(mods)
      ==> !Higher(p.version, p'.version)
  }

  lemma {:induction false} UnlistedIsPinned(mods: seq<Mod>, cat: Catalogue, k: Key) returns (a: Key)
    requires Chained(cat, mods, HistoryOf(mods, cat)) && k in HistoryOf(mods, cat) && k.name !in Names(mods)
    ensures a in HistoryOf(mods, cat) && PinsExactly(cat, a, Pin(k.name, k.version)) && Reachable(cat, mods, a)
  {
    hide HistoryOf, PinsExactly;
    var seen := HistoryOf(mods, cat);
    assert HasChain(cat, mods, seen, k);
    var chain :| IsChain(cat, mods, seen, chain) && chain[|chain| - 1] == k;
    ChainOfUnlisted(cat, mods, seen, chain);
    a := chain[|chain| - 2];
    assert HasChain(cat, mods, seen, a);
  }

  lemma {:induction false} NothingIsRaised(mods: seq<Mod>, cat: Catalogue, k: Key)
    requires Expand(mods, cat).Some? && Consistent(cat, mods) && k in HistoryOf(mods, cat)
    ensures !RaisedSince(mods, Expand(mods, cat).value, k)
  {
    var d := Behind(mods, cat);
    var out := mods + SortedMods(d);
    hide Fixpoint, Expand, Pass, History, Higher, PinsExactly, Chained, Reachable;
    if k.name !in Names(mods) {
      var a := UnlistedIsPinned(mods, cat, k);
      forall i | |mods| <= i < |out| && out[i].name == k.name ensures !Higher(out[i].version, k.version) {
        ReturnedKey(out, i);
        var b := UnlistedIsPinned(mods, cat, KeyOf(out[i]));
        assert PinsExactly(cat, b, Pin(k.name, out[i].version));
      }
    }
  }

  /** There, every added mod ends a chain of pins from a listed one that runs through returned mods only. */
  lemma {:induction false} ConsistentPinsAreReturned(mods: seq<Mod>, cat: Catalogue, i: nat) returns (chain: seq<Key>)
    requires Expand(mods, cat).Some? && Consistent(cat, mods) && |mods| <= i < |Expand(mods, cat).value|
    ensures
      var out := Expand(mods, cat).value;
      IsChain(cat, mods, Keys(out), chain) && chain[|chain| - 1] == KeyOf(out[i]) && |chain| > 1
    ensures !PinnedByNone(cat, Expand(mods, cat).value, Expand(mods, cat).value[i].name)
  {
    chain := AddedModsAreReached(mods, cat, i);
    var out := Expand(mods, cat).value;
    hide Expand, HistoryOf, Consistent, RaisedSince, Keys, PinsExactly;
    forall j | 0 <= j < |chain| ensures chain[j] in Keys(out) {
      NothingIsRaised(mods, cat, chain[j]);
      LookedUpIsReturnedOrRaised(mods, cat, chain[j]);
    }
    PinNames(cat, chain[|chain| - 2], KeyOf(out[i]));
  }

  lemma {:induction false} PinNames(cat: Catalogue, a: Key, k: Key)
    requires PinsExactly(cat, a, Pin(k.name, k.version))
    ensures PinsName(cat, a, k.name)
  {
  }

  // ----- and one in which it is not -----

  /** A pins B at v1, B at v1 pins C, and C pins B at v2. */
  function Cat(a: Mod, b: string, c: string, v1: string, v2: string, src: string): Catalogue {
    Catalogue(
      map[
        KeyOf(a) := Package([Some(Pin(b, v1))], src),
        Key(b, v1, src) := Package([Some(Pin(c, v1))], src),
        Key(c, v1, src) := Package([Some(Pin(b, v2))], src),
        Key(b, v2, src) := Package([], src)
      ],
      {})
  }

  ghost predicate Setting(a: Mod, b: string, c: string, v1: string, v2: string) {
    a.name != b && a.name != c && b != c && Higher(v2, v1)
  }

  lemma {:induction false} PinsOfCat(a: Mod, b: string, c: string, v1: string, v2: string, src: string, k: Key, p: Pin)
    requires Setting(a, b, c, v1, v2) && PinsExactly(Cat(a, b, c, v1, v2, src), k, p)
    ensures (k == KeyOf(a) && p == Pin(b, v1)) || (k == Key(b, v1, src) && p == Pin(c, v1)) ||
          (k == Key(c, v1, src) && p == Pin(b, v2))
    ensures Cat(a, b, c, v1, v2, src).rows[k].origin == src
  {
    HigherIsStrict(v1, v1, v1);
    hide Higher;
  }

  /** An added mod of this catalogue is B at one of its versions, or C. */
  lemma {:induction false} AddedOfCat(a: Mod, b: string, c: string, v1: string, v2: string, src: string, d: Derived,
        x: string)
    requires Setting(a, b, c, v1, v2) && x in d
    requires
      var cat := Cat(a, b, c, v1, v2, src);
      Traced(d, cat, [a], HistoryOf([a], cat))
    ensures d[x].name == x && d[x].source == src && ((x == b && d[x].version in {v1, v2}) ||
          (x == c && d[x].version == v1))
    ensures x == b && d[x].version == v2 ==> Key(c, v1, src) in HistoryOf([a], Cat(a, b, c, v1, v2, src))
  {
    var cat := Cat(a, b, c, v1, v2, src);
    HigherIsStrict(v1, v1, v1);
    hide HistoryOf, Cat, Higher;
    assert TracedMod(x, d[x], cat, [a], HistoryOf([a], cat));
    var k :| k in HistoryOf([a], cat) && PinsExactly(cat, k, Pin(x, d[x].version));
    PinsOfCat(a, b, c, v1, v2, src, k, Pin(x, d[x].version));
    var s :| s in HistoryOf([a], cat) && PinsName(cat, s, x) && cat.rows[s].origin == d[x].source;
    var v :| Some(Pin(x, v)) in cat.rows[s].pins;
    assert PinsExactly(cat, s, Pin(x, v));
    PinsOfCat(a, b, c, v1, v2, src, s, Pin(x, v));
  }

  /** A pin of a returned mod is met by the derived package it names. */
  lemma {:induction false} PinIsMet(mods: seq<Mod>, cat: Catalogue, d: Derived, i: nat, p: Pin)
    requires Expand(mods, cat) == Some(mods + SortedMods(d)) && Traced(d, cat, mods, HistoryOf(mods, cat))
    requires
      var out := mods + SortedMods(d);
      i < |out| && KeyOf(out[i]) in cat.rows && Some(p) in cat.rows[KeyOf(out[i])].pins && p.name !in Names(mods)
    ensures p.name in d && !Higher(p.version, d[p.name].version)
  {
    ExpandIsClosed(mods, cat);
    hide Expand, Traced, HistoryOf, Higher, SortedMods;
    var out := mods + SortedMods(d);
    assert PinsMet(mods, out, out[i], cat);
    var j :| |mods| <= j < |out| && out[j].name == p.name && !Higher(p.version, out[j].version);
    AddedIsDerived(mods, cat, d, j);
  }

  ghost predicate Returned(a: Mod, cat: Catalogue, d: Derived) {
    && Expand([a], cat) == Some([a] + SortedMods(d)) && Expanded([a], cat, d)
    && Traced(d, cat, [a], HistoryOf([a], cat))
  }

  lemma {:induction false} NameOfOne(a: Mod)
    ensures forall x :: x in Names([a]) <==> x == a.name
  {
    assert [a][0].name in Names([a]);
  }

  lemma {:induction false} BIsReturned(a: Mod, b: string, c: string, v1: string, v2: string, src: string, d: Derived)
    requires Setting(a, b, c, v1, v2) && Returned(a, Cat(a, b, c, v1, v2, src), d)
    ensures b in d
  {
    NameOfOne(a);
    hide Expand, Traced, HistoryOf, Higher, SortedMods;
    PinIsMet([a], Cat(a, b, c, v1, v2, src), d, 0, Pin(b, v1));
  }

  lemma {:induction false} BBringsC(a: Mod, b: string, c: string, v1: string, v2: string, src: string, d: Derived)
    requires Setting(a, b, c, v1, v2) && Returned(a, Cat(a, b, c, v1, v2, src), d) && b in d
    requires d[b] == Mod(b, v1, src, d[b].side)
    ensures c in d
  {
    var cat := Cat(a, b, c, v1, v2, src);
    NameOfOne(a);
    HigherIsStrict(v1, v1, v1);
    hide Traced, Higher, SortedMods, Expand, HistoryOf, History, Fixpoint;
    var i := DerivedIsReturned([a], d, b);
    PinIsMet([a], cat, d, i, Pin(c, v1));
  }

  lemma {:induction false} CIsReturned(a: Mod, b: string, c: string, v1: string, v2: string, src: string, d: Derived)
    requires Setting(a, b, c, v1, v2) && Returned(a, Cat(a, b, c, v1, v2, src), d) && b in d
    ensures c in d
  {
    hide Traced, Higher, SortedMods, Expand, HistoryOf, History, Fixpoint, KeptOrRaised, Cat;
    var cat := Cat(a, b, c, v1, v2, src);
    AddedOfCat(a, b, c, v1, v2, src, d, b);
    if d[b].version == v1 {
      BBringsC(a, b, c, v1, v2, src, d);
    } else {
      CStays(a, cat, d, Key(c, v1, src));
    }
  }

  lemma {:induction false} CStays(a: Mod, cat: Catalogue, d: Derived, k: Key)
    requires Returned(a, cat, d) && k in HistoryOf([a], cat) && k.name != a.name
    ensures k.name in d
  {
    hide Traced, Higher, SortedMods, Expand, History, Fixpoint;
    NothingChained(cat, [a]);
    assert Traced(map[], cat, [a], {}) by { NothingTraced(cat, [a]); }
    HistoryIsKept(map[], [a], cat, {}, k);
  }

  lemma {:induction false} NothingTraced(cat: Catalogue, mods: seq<Mod>)
    ensures Traced(map[], cat, mods, {})
  {
  }

  lemma {:induction false} BIsRaised(a: Mod, b: string, c: string, v1: string, v2: string, src: string, d: Derived)
    requires Setting(a, b, c, v1, v2) && Returned(a, Cat(a, b, c, v1, v2, src), d) && b in d && c in d
    ensures d[b].version == v2
  {
    AddedOfCat(a, b, c, v1, v2, src, d, b);
    AddedOfCat(a, b, c, v1, v2, src, d, c);
    NameOfOne(a);
    hide Traced, Higher, SortedMods, Expand, HistoryOf;
    var i := DerivedIsReturned([a], d, c);
    PinIsMet([a], Cat(a, b, c, v1, v2, src), d, i, Pin(b, v2));
  }

  /**
   A witness, for any three names and any two ordered versions: C is returned and no returned mod pins
   it. Only B at v1 did, and C itself raised B past it.
  */
  lemma {:induction false} SupersededPinsStay(a: Mod, b: string, c: string, v1: string, v2: string, src: string)
    requires Setting(a, b, c, v1, v2)
    ensures
      var cat := Cat(a, b, c, v1, v2, src);
      && Expand([a], cat).Some? && c in Names(Expand([a], cat).value)
      && PinnedByNone(cat, Expand([a], cat).value, c)
  {
    var cat := Cat(a, b, c, v1, v2, src);
    FixpointAnswers(map[], [a], cat);
    var d := Behind([a], cat);
    BIsReturned(a, b, c, v1, v2, src, d);
    CIsReturned(a, b, c, v1, v2, src, d);
    BIsRaised(a, b, c, v1, v2, src, d);
    hide Fixpoint, Expand, Pass, History, Higher, Chained, Traced;
    var out := [a] + SortedMods(d);
    var i := DerivedIsReturned([a], d, c);
    NameIsThere(a, b, c, v1, v2, src, d, i);
    forall k | k in Keys(out) ensures !PinsName(cat, k, c) {
      KeyPinsNoC(a, b, c, v1, v2, src, d, k);
    }
  }

  lemma {:induction false} NameIsThere(a: Mod, b: string, c: string, v1: string, v2: string, src: string,
        d: Derived, i: nat)
    requires Returned(a, Cat(a, b, c, v1, v2, src), d) && c in d && i < |[a] + SortedMods(d)| &&
          ([a] + SortedMods(d))[i] == d[c]
    ensures c in Names([a] + SortedMods(d))
  {
    hide SortedMods, Expand, HistoryOf;
    assert TracedMod(c, d[c], Cat(a, b, c, v1, v2, src), [a], HistoryOf([a], Cat(a, b, c, v1, v2, src)));
  }

  lemma {:induction false} KeyPinsNoC(a: Mod, b: string, c: string, v1: string, v2: string, src: string, d: Derived,
        k: Key)
    requires Setting(a, b, c, v1, v2) && Returned(a, Cat(a, b, c, v1, v2, src), d)
    requires b in d && d[b].version == v2 && k in Keys([a] + SortedMods(d))
    ensures !PinsName(Cat(a, b, c, v1, v2, src), k, c)
  {
    var out, cat := [a] + SortedMods(d), Cat(a, b, c, v1, v2, src);
    HigherIsStrict(v1, v1, v1);
    var i :| 0 <= i < |out| && KeyOf(out[i]) == k;
    hide SortedMods, Expand, HistoryOf, Traced, Higher, Cat;
    if i > 0 { AddedIsDerived([a], cat, d, i); }
    if PinsName(cat, k, c) { OnlyBPinsC(a, b, c, v1, v2, src, k); }
  }

  lemma {:induction false} OnlyBPinsC(a: Mod, b: string, c: string, v1: string, v2: string, src: string, k: Key)
    requires Setting(a, b, c, v1, v2) && PinsName(Cat(a, b, c, v1, v2, src), k, c)
    ensures k == Key(b, v1, src)
  {
    hide Cat;
    var v :| Some(Pin(c, v)) in Cat(a, b, c, v1, v2, src).rows[k].pins;
    assert PinsExactly(Cat(a, b, c, v1, v2, src), k, Pin(c, v));
    PinsOfCat(a, b, c, v1, v2, src, k, Pin(c, v));
  }
}
