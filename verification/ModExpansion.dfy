/**
 Dependency fixpoints over a mod catalogue: expandMods and reduceMods of
 internal/api/manifest_code.go. A dependency string is taken as already split into a name and a
 version, or as unreadable; a catalogue lists finitely many package versions.
*/
module ModExpansion {
  import opened Optional
  import opened Text
  import opened SemVer

  datatype Mod = Mod(name: string, version: string, source: string, side: string)

  datatype Pin = Pin(name: string, version: string)

  /** One catalogue row: its pins, None for one that does not parse, and the registry it is in. */
  datatype Package = Package(pins: seq<Option<Pin>>, origin: string)

  datatype Key = Key(name: string, version: string, source: string)

  /** What lookups answer: a row, no row, or, for the keys in failing, an error. */
  datatype Catalogue = Catalogue(rows: map<Key, Package>, failing: set<Key>)

  function KeyOf(m: Mod): Key { Key(m.name, m.version, m.source) }

  // ----- side tags (internal/mods/manager/side.go) -----

  const SIDE_UNKNOWN := "unknown"

  function SideRank(side: string): nat {
    if side == "client_required" then 3
    else if side == "client_optional" then 2
    else if side == "server_only" then 1
    else 0
  }

  predicate Weaker(current: string, side: string) { SideRank(current) < SideRank(side) }

  function SideOrUnknown(side: string): string { if side == "" then SIDE_UNKNOWN else side }

  predicate SameMod(a: Mod, b: Mod) {
    a.version == b.version && a.source == b.source && SideOrUnknown(a.side) == SideOrUnknown(b.side)
  }

  // ----- one pass -----

  type Derived = map<string, Mod>

  function Names(mods: seq<Mod>): set<string> { set i | 0 <= i < |mods| :: mods[i].name }

  function Raised(d: Mod, m: Mod, pin: Pin): Mod {
    d.(version := if Higher(pin.version, d.version) then pin.version else d.version,
       side := if Weaker(d.side, m.side) then m.side else d.side)
  }

  /** What one pin of m does to the derived packages. */
  function DeriveOne(derived: Derived, listed: set<string>, m: Mod, pin: Option<Pin>, origin: string): Derived {
    if pin.None? || pin.value.name in listed then derived
    else
      var p := pin.value;
      if p.name !in derived then derived[p.name := Mod(p.name, p.version, origin, m.side)]
      else derived[p.name := Raised(derived[p.name], m, p)]
  }

  function Derive(derived: Derived, listed: set<string>, m: Mod, pins: seq<Option<Pin>>, origin: string): Derived
    decreases |pins|
  {
    if pins == [] then derived
    else Derive(DeriveOne(derived, listed, m, pins[0], origin), listed, m, pins[1..], origin)
  }

  /** What reading m's row does, None for a failing lookup. */
  function Visit(derived: Derived, listed: set<string>, m: Mod, cat: Catalogue): Option<Derived> {
    if KeyOf(m) in cat.failing then None
    else if KeyOf(m) !in cat.rows then Some(derived)
    else Some(Derive(derived, listed, m, cat.rows[KeyOf(m)].pins, cat.rows[KeyOf(m)].origin))
  }

  function Pass(derived: Derived, listed: set<string>, mods: seq<Mod>, cat: Catalogue): Option<Derived>
    decreases |mods|
  {
    if mods == [] then Some(derived)
    else
      match Visit(derived, listed, mods[0], cat)
      case None => None
      case Some(d) => Pass(d, listed, mods[1..], cat)
  }

  /** sortedMods: the derived packages by name. */
  function SortedMods(derived: Derived): (mods: seq<Mod>)
    ensures |mods| == |Sorted(derived.Keys)|
    ensures forall i :: 0 <= i < |mods| ==> mods[i] == derived[Sorted(derived.Keys)[i]]
  {
    ModsNamed(derived, Sorted(derived.Keys))
  }

  function ModsNamed(derived: Derived, names: seq<string>): (mods: seq<Mod>)
    requires forall n :: n in names ==> n in derived
    ensures |mods| == |names|
    ensures forall i :: 0 <= i < |mods| ==> mods[i] == derived[names[i]]
  {
    if names == [] then [] else [derived[names[0]]] + ModsNamed(derived, names[1..])
  }

  // ----- why the passes end -----

  /** What is known of a derived package: that it is there, a version it reaches, a rank it has. */
  datatype Fact = Present(name: string) | Reaches(name: string, version: string) | Ranks(name: string, rank: nat)

  ghost function PinNames(cat: Catalogue): set<string> {
    set k, i | k in cat.rows && 0 <= i < |cat.rows[k].pins| && cat.rows[k].pins[i].Some? ::
      cat.rows[k].pins[i].value.name
  }

  ghost function PinVersions(cat: Catalogue): set<string> {
    set k, i | k in cat.rows && 0 <= i < |cat.rows[k].pins| && cat.rows[k].pins[i].Some? ::
      cat.rows[k].pins[i].value.version
  }

  ghost function AllFacts(cat: Catalogue): set<Fact> {
    (set n | n in PinNames(cat) :: Present(n))
    + (set n, v | n in PinNames(cat) && v in PinVersions(cat) :: Reaches(n, v))
    + (set n, r | n in PinNames(cat) && 0 <= r <= 3 :: Ranks(n, r))
  }

  ghost predicate Holds(derived: Derived, f: Fact) {
    f.name in derived &&
    match f
    case Present(_) => true
    case Reaches(n, v) => !Higher(v, derived[n].version)
    case Ranks(n, r) => r <= SideRank(derived[n].side)
  }

  ghost function Facts(derived: Derived, cat: Catalogue): set<Fact> {
    set f | f in AllFacts(cat) && Holds(derived, f)
  }

  /** later has every package of earlier, at no lower version and no weaker side. */
  ghost predicate Extends(earlier: Derived, later: Derived) {
    forall n :: n in earlier ==> n in later && AtLeast(earlier[n], later[n])
  }

  ghost predicate AtLeast(d: Mod, d': Mod) {
    && d'.name == d.name && d'.source == d.source
    && (d'.version == d.version || Higher(d'.version, d.version))
    && (d'.side == d.side || Weaker(d.side, d'.side))
  }

  lemma {:induction false} AtLeastTransitive(a: Mod, b: Mod, c: Mod)
    requires AtLeast(a, b) && AtLeast(b, c)
    ensures AtLeast(a, c)
  {
    HigherIsStrict(c.version, b.version, a.version);
  }

  lemma {:induction false} ExtendsTransitive(a: Derived, b: Derived, c: Derived)
    requires Extends(a, b) && Extends(b, c)
    ensures Extends(a, c)
  {
    forall n | n in a ensures AtLeast(a[n], c[n]) { AtLeastTransitive(a[n], b[n], c[n]); }
  }

  lemma {:induction false} ExtendsAntisymmetric(a: Derived, b: Derived)
    requires Extends(a, b) && Extends(b, a)
    ensures a == b
  {
    forall n | n in a ensures a[n] == b[n] {
      HigherIsStrict(a[n].version, b[n].version, a[n].version);
      HigherIsStrict(b[n].version, a[n].version, b[n].version);
    }
    assert a.Keys == b.Keys;
  }

  lemma {:induction false} DeriveOneExtends(derived: Derived, listed: set<string>, m: Mod, pin: Option<Pin>,
        origin: string)
    ensures Extends(derived, DeriveOne(derived, listed, m, pin, origin))
  {
  }

  lemma {:induction false} DeriveExtends(derived: Derived, listed: set<string>, m: Mod, pins: seq<Option<Pin>>,
        origin: string)
    ensures Extends(derived, Derive(derived, listed, m, pins, origin))
    decreases |pins|
  {
    if pins != [] {
      var d := DeriveOne(derived, listed, m, pins[0], origin);
      DeriveOneExtends(derived, listed, m, pins[0], origin);
      DeriveExtends(d, listed, m, pins[1..], origin);
      ExtendsTransitive(derived, d, Derive(derived, listed, m, pins, origin));
    }
  }

  lemma {:induction false} PassExtends(derived: Derived, listed: set<string>, mods: seq<Mod>, cat: Catalogue)
    ensures Pass(derived, listed, mods, cat).Some? ==> Extends(derived, Pass(derived, listed, mods, cat).value)
    decreases |mods|
  {
    if mods != [] && Visit(derived, listed, mods[0], cat).Some? {
      var d := Visit(derived, listed, mods[0], cat).value;
      if KeyOf(mods[0]) in cat.rows {
        var row := cat.rows[KeyOf(mods[0])];
        DeriveExtends(derived, listed, mods[0], row.pins, row.origin);
      }
      PassExtends(d, listed, mods[1..], cat);
      if Pass(d, listed, mods[1..], cat).Some? {
        ExtendsTransitive(derived, d, Pass(d, listed, mods[1..], cat).value);
      }
    }
  }

  /** Every version a derived package has is one the catalogue pins. */
  ghost predicate Pinned(derived: Derived, cat: Catalogue) {
    forall n :: n in derived ==>
      derived[n].name == n && n in PinNames(cat) && derived[n].version in PinVersions(cat)
  }

  lemma {:induction false} FactsGrow(earlier: Derived, later: Derived, cat: Catalogue)
    requires Extends(earlier, later) && Pinned(later, cat)
    ensures Facts(earlier, cat) <= Facts(later, cat)
    ensures earlier != later ==> Facts(earlier, cat) != Facts(later, cat)
  {
    forall f | f in Facts(earlier, cat) ensures Holds(later, f) {
      if f.Reaches? {
        HigherIsStrict(f.version, later[f.name].version, earlier[f.name].version);
      }
    }
    if earlier != later {
      var f := NewFact(earlier, later, cat);
      assert f in Facts(later, cat) && f !in Facts(earlier, cat);
    }
  }

  lemma {:induction false} NewFact(earlier: Derived, later: Derived, cat: Catalogue) returns (f: Fact)
    requires Extends(earlier, later) && Pinned(later, cat) && earlier != later
    ensures f in AllFacts(cat) && Holds(later, f) && !Holds(earlier, f)
  {
    if n :| n in later && n !in earlier {
      f := Present(n);
      FactIsKnown(f, n, later, cat);
    } else {
      assert earlier.Keys == later.Keys;
      var n :| n in earlier && earlier[n] != later[n];
      f := RaisedFact(n, earlier[n], later[n]);
      FactIsKnown(f, n, later, cat);
    }
  }

  lemma {:induction false} FactIsKnown(f: Fact, n: string, d: Derived, cat: Catalogue)
    requires Pinned(d, cat) && n in d
    requires f == Present(n) || f == Reaches(n, d[n].version) || f == Ranks(n, SideRank(d[n].side))
    ensures f in AllFacts(cat)
  {
    assert n in PinNames(cat) && d[n].version in PinVersions(cat);
    hide PinNames, PinVersions;
  }

  /** A package raised to different values reaches a version, or has a rank, it did not. */
  lemma {:induction false} RaisedFact(n: string, d: Mod, d': Mod) returns (f: Fact)
    requires AtLeast(d, d') && d != d'
    ensures f == Reaches(n, d'.version) || f == Ranks(n, SideRank(d'.side))
    ensures f.Reaches? ==> Higher(d'.version, d.version) && !Higher(d'.version, d'.version)
    ensures f.Ranks? ==> SideRank(d.side) < SideRank(d'.side)
  {
    if Higher(d'.version, d.version) {
      HigherIsStrict(d'.version, d.version, d.version);
      f := Reaches(n, d'.version);
    } else {
      f := Ranks(n, SideRank(d'.side));
    }
  }

  lemma {:induction false} DeriveIsPinned(derived: Derived, listed: set<string>, m: Mod, pins: seq<Option<Pin>>,
        origin: string, cat: Catalogue)
    requires Pinned(derived, cat)
    requires forall i :: 0 <= i < |pins| && pins[i].Some? ==>
               pins[i].value.name in PinNames(cat) && pins[i].value.version in PinVersions(cat)
    ensures Pinned(Derive(derived, listed, m, pins, origin), cat)
    decreases |pins|
  {
    if pins != [] {
      DeriveIsPinned(DeriveOne(derived, listed, m, pins[0], origin), listed, m, pins[1..], origin, cat);
    }
  }

  lemma {:induction false} PassIsPinned(derived: Derived, listed: set<string>, mods: seq<Mod>, cat: Catalogue)
    requires Pinned(derived, cat)
    ensures Pass(derived, listed, mods, cat).Some? ==> Pinned(Pass(derived, listed, mods, cat).value, cat)
    decreases |mods|
  {
    if mods != [] && Visit(derived, listed, mods[0], cat).Some? {
      if KeyOf(mods[0]) in cat.rows {
        var row := cat.rows[KeyOf(mods[0])];
        DeriveIsPinned(derived, listed, mods[0], row.pins, row.origin, cat);
      }
      PassIsPinned(Visit(derived, listed, mods[0], cat).value, listed, mods[1..], cat);
    }
  }

  /** Passes over the listed and derived packages until one changes nothing. */
  function Fixpoint(derived: Derived, mods: seq<Mod>, cat: Catalogue): Option<Derived>
    requires Pinned(derived, cat)
    decreases AllFacts(cat) - Facts(derived, cat)
  {
    var snapshot := mods + SortedMods(derived);
    PassExtends(derived, Names(mods), snapshot, cat);
    PassIsPinned(derived, Names(mods), snapshot, cat);
    match Pass(derived, Names(mods), snapshot, cat)
    case None => None
    case Some(d) =>
      FactsGrow(derived, d, cat);
      if d == derived then Some(d) else Fixpoint(d, mods, cat)
  }

  /** expandMods. */
  function Expand(mods: seq<Mod>, cat: Catalogue): Option<seq<Mod>> {
    match Fixpoint(map[], mods, cat)
    case None => None
    case Some(d) => Some(mods + SortedMods(d))
  }

  // ----- what a fixpoint is -----

  lemma {:induction false} PassIsStable(d: Derived, listed: set<string>, mods: seq<Mod>, cat: Catalogue)
    requires Pass(d, listed, mods, cat) == Some(d)
    ensures forall i :: 0 <= i < |mods| ==> Visit(d, listed, mods[i], cat) == Some(d)
    decreases |mods|
  {
    if mods != [] {
      var d' := Visit(d, listed, mods[0], cat).value;
      PassExtends(d, listed, mods[..1], cat);
      assert mods[..1][1..] == [] && Pass(d, listed, mods[..1], cat) == Some(d');
      PassExtends(d', listed, mods[1..], cat);
      ExtendsAntisymmetric(d, d');
      PassIsStable(d, listed, mods[1..], cat);
    }
  }

  lemma {:induction false} DeriveIsStable(d: Derived, listed: set<string>, m: Mod, pins: seq<Option<Pin>>,
        origin: string)
    requires Derive(d, listed, m, pins, origin) == d
    ensures forall j :: 0 <= j < |pins| && pins[j].Some? && pins[j].value.name !in listed ==>
              MeetsPin(d, m, pins[j].value)
    decreases |pins|
  {
    if pins != [] {
      var d' := DeriveOne(d, listed, m, pins[0], origin);
      DeriveOneExtends(d, listed, m, pins[0], origin);
      DeriveExtends(d', listed, m, pins[1..], origin);
      ExtendsAntisymmetric(d, d');
      DeriveIsStable(d, listed, m, pins[1..], origin);
      if pins[0].Some? && pins[0].value.name !in listed {
        var p := pins[0].value;
        assert p.name in d' && (p.name in d ==> d'[p.name] == Raised(d[p.name], m, p));
        HigherIsStrict(p.version, p.version, p.version);
      }
    }
  }

  /** The derived package p names is not below the pin, nor weaker-sided than the m that holds it. */
  ghost predicate MeetsPin(d: Derived, m: Mod, p: Pin) {
    p.name in d && !Higher(p.version, d[p.name].version) && !Weaker(d[p.name].side, m.side)
  }

  // ----- where derived packages come from -----

  ghost predicate PinsExactly(cat: Catalogue, k: Key, p: Pin) {
    k in cat.rows && Some(p) in cat.rows[k].pins
  }

  ghost predicate PinsName(cat: Catalogue, k: Key, name: string) {
    k in cat.rows && exists v :: Some(Pin(name, v)) in cat.rows[k].pins
  }

  ghost function Keys(mods: seq<Mod>): set<Key> {
    set i | 0 <= i < |mods| :: KeyOf(mods[i])
  }

  /** Every package version the passes look up, from the first one on: the listed mods and what is derived at each. */
  ghost function History(derived: Derived, mods: seq<Mod>, cat: Catalogue): set<Key>
    requires Pinned(derived, cat)
    decreases AllFacts(cat) - Facts(derived, cat)
  {
    var snapshot := mods + SortedMods(derived);
    PassExtends(derived, Names(mods), snapshot, cat);
    PassIsPinned(derived, Names(mods), snapshot, cat);
    match Pass(derived, Names(mods), snapshot, cat)
    case None => Keys(snapshot)
    case Some(d) =>
      FactsGrow(derived, d, cat);
      if d == derived then Keys(snapshot) else Keys(snapshot) + History(d, mods, cat)
  }

  /** A chain of pins from a listed mod, through package versions of seen: each pins the next. */
  ghost predicate IsChain(cat: Catalogue, mods: seq<Mod>, seen: set<Key>, chain: seq<Key>) {
    && |chain| > 0 && chain[0] in Keys(mods)
    && (forall j :: 0 < j < |chain| ==> PinsExactly(cat, chain[j - 1], Pin(chain[j].name, chain[j].version)))
    && forall j :: 0 <= j < |chain| ==> chain[j] in seen
  }

  ghost predicate HasChain(cat: Catalogue, mods: seq<Mod>, seen: set<Key>, k: Key) {
    exists chain :: IsChain(cat, mods, seen, chain) && chain[|chain| - 1] == k
  }

  ghost predicate Chained(cat: Catalogue, mods: seq<Mod>, seen: set<Key>) {
    forall k :: k in seen ==> HasChain(cat, mods, seen, k)
  }

  ghost predicate SideListed(mods: seq<Mod>, side: string) {
    exists i :: 0 <= i < |mods| && mods[i].side == side
  }

  ghost predicate PinnedBySeen(cat: Catalogue, seen: set<Key>, p: Pin) {
    exists a :: a in seen && PinsExactly(cat, a, p)
  }

  ghost predicate SourceSeen(cat: Catalogue, seen: set<Key>, name: string, source: string) {
    exists a :: a in seen && PinsName(cat, a, name) && cat.rows[a].origin == source
  }

  /** Added packages are unlisted, carry a listed side, and have a pinned version and a real source. */
  ghost predicate Traced(derived: Derived, cat: Catalogue, mods: seq<Mod>, seen: set<Key>) {
    forall x :: x in derived ==> TracedMod(x, derived[x], cat, mods, seen)
  }

  ghost predicate TracedMod(x: string, d: Mod, cat: Catalogue, mods: seq<Mod>, seen: set<Key>) {
    && d.name == x && x !in Names(mods) && SideListed(mods, d.side)
    && PinnedBySeen(cat, seen, Pin(x, d.version)) && SourceSeen(cat, seen, x, d.source)
  }

  lemma {:induction false} TracedLater(derived: Derived, cat: Catalogue, mods: seq<Mod>, seen: set<Key>, more: set<Key>)
    requires Traced(derived, cat, mods, seen) && seen <= more
    ensures Traced(derived, cat, mods, more)
  {
    forall x | x in derived ensures TracedMod(x, derived[x], cat, mods, more) {
      var d := derived[x];
      assert TracedMod(x, d, cat, mods, seen);
      var a :| a in seen && PinsExactly(cat, a, Pin(x, d.version));
      var b :| b in seen && PinsName(cat, b, x) && cat.rows[b].origin == d.source;
      assert a in more && b in more;
    }
  }

  lemma {:induction false} DeriveIsTraced(derived: Derived, m: Mod, pins: seq<Option<Pin>>, cat: Catalogue,
        mods: seq<Mod>, seen: set<Key>)
    requires Traced(derived, cat, mods, seen) && KeyOf(m) in seen && SideListed(mods, m.side) && KeyOf(m) in cat.rows
    requires forall i :: 0 <= i < |pins| ==> pins[i] in cat.rows[KeyOf(m)].pins
    ensures Traced(Derive(derived, Names(mods), m, pins, cat.rows[KeyOf(m)].origin), cat, mods, seen)
    decreases |pins|
  {
    if pins != [] {
      var origin := cat.rows[KeyOf(m)].origin;
      var d := DeriveOne(derived, Names(mods), m, pins[0], origin);
      if pins[0].Some? && pins[0].value.name !in Names(mods) {
        var p := pins[0].value;
        assert Some(Pin(p.name, p.version)) in cat.rows[KeyOf(m)].pins;
        assert PinsExactly(cat, KeyOf(m), Pin(p.name, p.version)) && PinsName(cat, KeyOf(m), p.name);
        assert PinnedBySeen(cat, seen, p) && SourceSeen(cat, seen, p.name, origin);
        assert p.name in derived ==> TracedMod(p.name, derived[p.name], cat, mods, seen);
        assert TracedMod(p.name, d[p.name], cat, mods, seen);
      }
      DeriveIsTraced(d, m, pins[1..], cat, mods, seen);
    }
  }

  lemma {:induction false} PassIsTraced(derived: Derived, todo: seq<Mod>, cat: Catalogue, mods: seq<Mod>,
        seen: set<Key>)
    requires Traced(derived, cat, mods, seen)
    requires forall i :: 0 <= i < |todo| ==> KeyOf(todo[i]) in seen && SideListed(mods, todo[i].side)
    ensures Pass(derived, Names(mods), todo, cat).Some? ==>
              Traced(Pass(derived, Names(mods), todo, cat).value, cat, mods, seen)
    decreases |todo|
  {
    hide Traced, SideListed;
    if todo != [] && Visit(derived, Names(mods), todo[0], cat).Some? {
      if KeyOf(todo[0]) in cat.rows {
        DeriveIsTraced(derived, todo[0], cat.rows[KeyOf(todo[0])].pins, cat, mods, seen);
      }
      PassIsTraced(Visit(derived, Names(mods), todo[0], cat).value, todo[1..], cat, mods, seen);
    }
  }

  /** A mod of the snapshot is a listed one or a derived one. */
  lemma {:induction false} SnapshotMods(derived: Derived, mods: seq<Mod>, i: nat)
    requires i < |mods + SortedMods(derived)|
    ensures
      var m := (mods + SortedMods(derived))[i];
      if i < |mods| then m == mods[i] && KeyOf(m) in Keys(mods)
      else exists x :: x in derived && m == derived[x]
  {
    if i >= |mods| {
      var x := Sorted(derived.Keys)[i - |mods|];
      assert x in derived.Keys;
    }
  }

  lemma {:induction false} SnapshotIsListed(derived: Derived, cat: Catalogue, mods: seq<Mod>, seen: set<Key>)
    requires Traced(derived, cat, mods, seen)
    ensures
      var snapshot := mods + SortedMods(derived);
      forall i :: 0 <= i < |snapshot| ==> KeyOf(snapshot[i]) in Keys(snapshot) && SideListed(mods, snapshot[i].side)
  {
    var snapshot := mods + SortedMods(derived);
    forall i | 0 <= i < |snapshot| ensures KeyOf(snapshot[i]) in Keys(snapshot) && SideListed(mods, snapshot[i].side) {
      SnapshotMods(derived, mods, i);
      if i >= |mods| {
        var x :| x in derived && snapshot[i] == derived[x];
        assert TracedMod(x, derived[x], cat, mods, seen);
      }
    }
  }

  lemma {:induction false} ChainWidens(cat: Catalogue, mods: seq<Mod>, seen: set<Key>, more: set<Key>, k: Key)
    requires HasChain(cat, mods, seen, k) && seen <= more
    ensures HasChain(cat, mods, more, k)
  {
    var chain :| IsChain(cat, mods, seen, chain) && chain[|chain| - 1] == k;
    assert IsChain(cat, mods, more, chain);
  }

  lemma {:induction false} ChainStarts(cat: Catalogue, mods: seq<Mod>, seen: set<Key>, k: Key)
    requires k in Keys(mods) && k in seen
    ensures HasChain(cat, mods, seen, k)
  {
    assert IsChain(cat, mods, seen, [k]);
  }

  lemma {:induction false} ChainGoesOn(cat: Catalogue, mods: seq<Mod>, seen: set<Key>, a: Key, k: Key)
    requires HasChain(cat, mods, seen, a) && PinsExactly(cat, a, Pin(k.name, k.version)) && k in seen
    ensures HasChain(cat, mods, seen, k)
  {
    hide PinsExactly;
    var chain :| IsChain(cat, mods, seen, chain) && chain[|chain| - 1] == a;
    var longer := chain + [k];
    assert forall j :: 0 <= j < |chain| ==> longer[j] == chain[j];
    assert IsChain(cat, mods, seen, longer);
  }

  lemma {:induction false} SnapshotKeyIsChained(derived: Derived, cat: Catalogue, mods: seq<Mod>, seen: set<Key>,
        more: set<Key>, i: nat)
    requires Traced(derived, cat, mods, seen) && Chained(cat, mods, seen) && seen <= more
    requires i < |mods + SortedMods(derived)| && KeyOf((mods + SortedMods(derived))[i]) in more
    ensures HasChain(cat, mods, more, KeyOf((mods + SortedMods(derived))[i]))
  {
    hide HasChain, PinsExactly, SourceSeen, SideListed, Keys;
    SnapshotMods(derived, mods, i);
    var k := KeyOf((mods + SortedMods(derived))[i]);
    if i < |mods| {
      ChainStarts(cat, mods, more, k);
    } else {
      var x :| x in derived && (mods + SortedMods(derived))[i] == derived[x];
      assert TracedMod(x, derived[x], cat, mods, seen);
      var a :| a in seen && PinsExactly(cat, a, Pin(x, derived[x].version));
      ChainWidens(cat, mods, seen, more, a);
      ChainGoesOn(cat, mods, more, a, k);
    }
  }

  /** What a snapshot looks up is at the end of a chain through what was looked up before, and itself. */
  lemma {:induction false} SnapshotIsChained(derived: Derived, cat: Catalogue, mods: seq<Mod>, seen: set<Key>)
    requires Traced(derived, cat, mods, seen) && Chained(cat, mods, seen)
    ensures Chained(cat, mods, seen + Keys(mods + SortedMods(derived)))
  {
    hide HasChain, Traced, SortedMods;
    var snapshot := mods + SortedMods(derived);
    var more := seen + Keys(snapshot);
    forall k | k in more ensures HasChain(cat, mods, more, k) {
      if k in seen {
        ChainWidens(cat, mods, seen, more, k);
      } else {
        var i :| 0 <= i < |snapshot| && KeyOf(snapshot[i]) == k;
        SnapshotKeyIsChained(derived, cat, mods, seen, more, i);
      }
    }
  }

  /** One pass keeps what is known of the derived packages, over what it looked up. */
  lemma {:induction false} PassKeeps(derived: Derived, mods: seq<Mod>, cat: Catalogue, seen: set<Key>, d: Derived)
    requires Pinned(derived, cat) && Traced(derived, cat, mods, seen) && Chained(cat, mods, seen)
    requires Pass(derived, Names(mods), mods + SortedMods(derived), cat) == Some(d)
    ensures
      var more := seen + Keys(mods + SortedMods(derived));
      Traced(d, cat, mods, more) && Chained(cat, mods, more) && Pinned(d, cat) && Extends(derived, d)
  {
    hide Traced, Chained, Keys, Pass, SortedMods, Extends, Pinned, SideListed;
    var snapshot := mods + SortedMods(derived);
    var more := seen + Keys(snapshot);
    SnapshotIsListed(derived, cat, mods, seen);
    SnapshotIsChained(derived, cat, mods, seen);
    TracedLater(derived, cat, mods, seen, more);
    PassIsTraced(derived, snapshot, cat, mods, more);
    PassExtends(derived, Names(mods), snapshot, cat);
    PassIsPinned(derived, Names(mods), snapshot, cat);
  }

  /** The fixpoint and what it looks up, one pass at a time. */
  lemma {:induction false} OnePass(derived: Derived, mods: seq<Mod>, cat: Catalogue, d: Derived)
    requires Pinned(derived, cat) && Pinned(d, cat) &&
          Pass(derived, Names(mods), mods + SortedMods(derived), cat) == Some(d)
    ensures Fixpoint(derived, mods, cat) == if d == derived then Some(d) else Fixpoint(d, mods, cat)
    ensures History(derived, mods, cat)
            == Keys(mods + SortedMods(derived)) + if d == derived then {} else History(d, mods, cat)
    ensures Extends(derived, d) && d != derived ==> AllFacts(cat) - Facts(d, cat) < AllFacts(cat) - Facts(derived, cat)
  {
    hide Pass, SortedMods, Pinned, Keys, AllFacts, Holds, Extends;
    if Extends(derived, d) { FactsGrow(derived, d, cat); }
  }

  /** Traced, left as it is by a pass, and its own keys among those looked up. */
  ghost predicate Stable(d: Derived, mods: seq<Mod>, cat: Catalogue, seen: set<Key>, history: set<Key>) {
    && Traced(d, cat, mods, seen + history) && Chained(cat, mods, seen + history)
    && Pass(d, Names(mods), mods + SortedMods(d), cat) == Some(d)
    && Keys(mods + SortedMods(d)) <= history
  }

  lemma {:induction false} PassAnswered(derived: Derived, mods: seq<Mod>, cat: Catalogue)
    requires Pinned(derived, cat) && Fixpoint(derived, mods, cat).Some?
    ensures Pass(derived, Names(mods), mods + SortedMods(derived), cat).Some?
  {
    hide Pass, SortedMods, Pinned;
  }

  lemma {:induction false} StableAtOnce(d: Derived, mods: seq<Mod>, cat: Catalogue, seen: set<Key>, keys: set<Key>)
    requires keys == Keys(mods + SortedMods(d)) && Pass(d, Names(mods), mods + SortedMods(d), cat) == Some(d)
    requires Traced(d, cat, mods, seen + keys) && Chained(cat, mods, seen + keys)
    ensures Stable(d, mods, cat, seen, keys + {})
  {
    hide Traced, Chained, Keys, Pass, SortedMods;
    assert keys + {} == keys;
  }

  lemma {:induction false} StableAfter(d: Derived, mods: seq<Mod>, cat: Catalogue, seen: set<Key>, keys: set<Key>,
        later: set<Key>)
    requires Stable(d, mods, cat, seen + keys, later)
    ensures Stable(d, mods, cat, seen, keys + later)
  {
    hide Traced, Chained, Keys, Pass, SortedMods;
    assert (seen + keys) + later == seen + (keys + later);
  }

  lemma {:induction false} FixpointIsStable(derived: Derived, mods: seq<Mod>, cat: Catalogue, seen: set<Key>)
    requires Pinned(derived, cat) && Traced(derived, cat, mods, seen) && Chained(cat, mods, seen)
    requires Fixpoint(derived, mods, cat).Some?
    ensures
      var d := Fixpoint(derived, mods, cat).value;
      Stable(d, mods, cat, seen, History(derived, mods, cat)) && Extends(derived, d)
    decreases AllFacts(cat) - Facts(derived, cat)
  {
    hide Traced, Chained, Keys, Pass, SortedMods, Extends, Pinned, AllFacts, Facts, Fixpoint, History, Stable;
    PassAnswered(derived, mods, cat);
    var d := Pass(derived, Names(mods), mods + SortedMods(derived), cat).value;
    PassKeeps(derived, mods, cat, seen, d);
    OnePass(derived, mods, cat, d);
    var keys := Keys(mods + SortedMods(derived));
    if d == derived {
      StableAtOnce(d, mods, cat, seen, keys);
    } else {
      FixpointIsStable(d, mods, cat, seen + keys);
      StableAfter(Fixpoint(d, mods, cat).value, mods, cat, seen, keys, History(d, mods, cat));
      ExtendsTransitive(derived, d, Fixpoint(d, mods, cat).value);
    }
  }

  // ----- expandMods -----

  ghost predicate Expanded(mods: seq<Mod>, cat: Catalogue, d: Derived) {
    Pinned(map[], cat) && Fixpoint(map[], mods, cat) == Some(d)
  }

  ghost function HistoryOf(mods: seq<Mod>, cat: Catalogue): set<Key> {
    History(map[], mods, cat)
  }

  /** The derived packages behind an expansion, and what is known of them. */
  lemma {:induction false} Behind(mods: seq<Mod>, cat: Catalogue) returns (d: Derived)
    requires Expand(mods, cat).Some?
    ensures Expand(mods, cat) == Some(mods + SortedMods(d)) && Expanded(mods, cat, d)
    ensures Traced(d, cat, mods, HistoryOf(mods, cat)) && Chained(cat, mods, HistoryOf(mods, cat))
    ensures Pass(d, Names(mods), mods + SortedMods(d), cat) == Some(d)
    ensures Keys(mods + SortedMods(d)) <= HistoryOf(mods, cat)
  {
    hide Pass, Chained, SortedMods;
    assert Chained(cat, mods, {}) by { NothingChained(cat, mods); }
    FixpointIsStable(map[], mods, cat, {});
    d := Fixpoint(map[], mods, cat).value;
    assert {} + HistoryOf(mods, cat) == HistoryOf(mods, cat);
  }

  lemma {:induction false} NothingChained(cat: Catalogue, mods: seq<Mod>)
    ensures Chained(cat, mods, {})
  {
  }

  /** m's readable pins are all in out, and those it added meet them. */
  ghost predicate PinsMet(mods: seq<Mod>, out: seq<Mod>, m: Mod, cat: Catalogue) {
    KeyOf(m) in cat.rows ==>
      forall p :: Some(p) in cat.rows[KeyOf(m)].pins && p.name !in Names(mods) ==>
        exists i :: |mods| <= i < |out| && out[i].name == p.name
                    && !Higher(p.version, out[i].version) && !Weaker(out[i].side, m.side)
  }

  /** What expandMods returns: the listed mods as they were, closed under pins, and nothing made up. */
  lemma {:induction false} ExpandIsClosed(mods: seq<Mod>, cat: Catalogue)
    requires Expand(mods, cat).Some?
    ensures
      var out := Expand(mods, cat).value;
      && mods <= out
      && (forall i :: |mods| <= i < |out| ==> out[i].name !in Names(mods))
      && (forall i, j :: |mods| <= i < j < |out| ==> Less(out[i].name, out[j].name))
      && (forall i :: 0 <= i < |out| ==> KeyOf(out[i]) !in cat.failing && PinsMet(mods, out, out[i], cat))
  {
    hide Fixpoint, Higher;
    var d := Behind(mods, cat);
    var out := mods + SortedMods(d);
    PassIsStable(d, Names(mods), out, cat);
    AddedNames(d, cat, mods, HistoryOf(mods, cat));
    forall i | 0 <= i < |out| ensures KeyOf(out[i]) !in cat.failing && PinsMet(mods, out, out[i], cat) {
      assert Visit(d, Names(mods), out[i], cat) == Some(d);
      if KeyOf(out[i]) in cat.rows {
        RowIsMet(d, mods, out[i], cat);
      }
    }
  }

  lemma {:induction false} AddedNames(d: Derived, cat: Catalogue, mods: seq<Mod>, seen: set<Key>)
    requires Traced(d, cat, mods, seen)
    ensures forall i :: 0 <= i < |SortedMods(d)| ==> SortedMods(d)[i].name == Sorted(d.Keys)[i]
    ensures forall i :: 0 <= i < |SortedMods(d)| ==> SortedMods(d)[i].name !in Names(mods)
    ensures forall i, j :: 0 <= i < j < |SortedMods(d)| ==> Less(SortedMods(d)[i].name, SortedMods(d)[j].name)
  {
    SortedAscends(d.Keys);
    forall i | 0 <= i < |SortedMods(d)|
      ensures SortedMods(d)[i].name == Sorted(d.Keys)[i] && SortedMods(d)[i].name !in Names(mods)
    {
      var x := Sorted(d.Keys)[i];
      assert x in d.Keys && TracedMod(x, d[x], cat, mods, seen);
    }
  }

  lemma {:induction false} RowIsMet(d: Derived, mods: seq<Mod>, m: Mod, cat: Catalogue)
    requires KeyOf(m) in cat.rows && KeyOf(m) !in cat.failing
    requires Visit(d, Names(mods), m, cat) == Some(d)
    requires forall i :: 0 <= i < |SortedMods(d)| ==> SortedMods(d)[i].name == Sorted(d.Keys)[i]
    ensures PinsMet(mods, mods + SortedMods(d), m, cat)
  {
    var row, out := cat.rows[KeyOf(m)], mods + SortedMods(d);
    DeriveIsStable(d, Names(mods), m, row.pins, row.origin);
    forall p | Some(p) in row.pins && p.name !in Names(mods)
      ensures exists i :: |mods| <= i < |out| && out[i].name == p.name
                          && !Higher(p.version, out[i].version) && !Weaker(out[i].side, m.side)
    {
      var j :| 0 <= j < |row.pins| && row.pins[j] == Some(p);
      assert MeetsPin(d, m, p);
      assert p.name in Sorted(d.Keys);
      var i :| 0 <= i < |Sorted(d.Keys)| && Sorted(d.Keys)[i] == p.name;
      assert out[|mods| + i] == d[p.name];
    }
  }

  /**
   Every mod expandMods adds ends a chain of pins through what its passes looked up, and is tagged as a listed
   mod is.
  */
  lemma {:induction false} AddedModsAreReached(mods: seq<Mod>, cat: Catalogue, i: nat) returns (chain: seq<Key>)
    requires Expand(mods, cat).Some? && |mods| <= i < |Expand(mods, cat).value|
    ensures
      var m := Expand(mods, cat).value[i];
      && IsChain(cat, mods, HistoryOf(mods, cat), chain) && chain[|chain| - 1] == KeyOf(m) && |chain| > 1
      && SideListed(mods, m.side) && PinnedBySeen(cat, HistoryOf(mods, cat), Pin(m.name, m.version))
  {
    var d := Behind(mods, cat);
    var seen := HistoryOf(mods, cat);
    hide Fixpoint, Expand, Pass, IsChain, History;
    var out := mods + SortedMods(d);
    SnapshotMods(d, mods, i);
    var x :| x in d && out[i] == d[x];
    assert TracedMod(x, d[x], cat, mods, seen);
    assert KeyOf(out[i]) in Keys(out);
    chain :| IsChain(cat, mods, seen, chain) && chain[|chain| - 1] == KeyOf(out[i]);
    ChainOfUnlisted(cat, mods, seen, chain);
  }

  lemma {:induction false} ChainOfUnlisted(cat: Catalogue, mods: seq<Mod>, seen: set<Key>, chain: seq<Key>)
    requires IsChain(cat, mods, seen, chain) && chain[|chain| - 1].name !in Names(mods)
    ensures |chain| > 1
  {
    var i :| 0 <= i < |mods| && KeyOf(mods[i]) == chain[0];
    assert mods[i].name in Names(mods);
  }

  /** Without failing lookups the expansion always answers, whatever cycles the pins form. */
  lemma {:induction false} FixpointAnswers(derived: Derived, mods: seq<Mod>, cat: Catalogue)
    requires cat.failing == {} && Pinned(derived, cat)
    ensures Fixpoint(derived, mods, cat).Some?
    decreases AllFacts(cat) - Facts(derived, cat)
  {
    var snapshot := mods + SortedMods(derived);
    PassAnswers(derived, Names(mods), snapshot, cat);
    PassExtends(derived, Names(mods), snapshot, cat);
    PassIsPinned(derived, Names(mods), snapshot, cat);
    var d := Pass(derived, Names(mods), snapshot, cat).value;
    if d != derived {
      FactsGrow(derived, d, cat);
      FixpointAnswers(d, mods, cat);
    }
  }

  lemma {:induction false} PassAnswers(derived: Derived, listed: set<string>, mods: seq<Mod>, cat: Catalogue)
    requires cat.failing == {}
    ensures Pass(derived, listed, mods, cat).Some?
    decreases |mods|
  {
    if mods != [] { PassAnswers(Visit(derived, listed, mods[0], cat).value, listed, mods[1..], cat); }
  }
}
