/**
 What expandMods of internal/api/manifest_code.go gives back of a set of installed rows, read off the pins
 alone: routes of pins through the catalogue, with no pass and no fixpoint.
*/
module ModRoutes {
  import opened Optional
  import opened SemVer
  import opened ModExpansion
  import opened StalePins
  import opened ModLists

  // ----- routes -----

  /** A readable pin of a's row names k, and is looked up in the registry that row is in. */
  ghost predicate Brings(cat: Catalogue, a: Key, k: Key) {
    a in cat.rows && Some(Pin(k.name, k.version)) in cat.rows[a].pins && k.source == cat.rows[a].origin
  }

  ghost predicate IsRoute(cat: Catalogue, start: Key, route: seq<Key>) {
    |route| > 0 && route[0] == start && forall j :: 0 < j < |route| ==> Brings(cat, route[j - 1], route[j])
  }

  ghost predicate Leads(cat: Catalogue, start: Key, k: Key) {
    exists route :: IsRoute(cat, start, route) && route[|route| - 1] == k
  }

  /** A route of pins from one of these mods ends at this package version. */
  ghost predicate Led(cat: Catalogue, mods: set<Mod>, k: Key) {
    exists l :: l in mods && Leads(cat, KeyOf(l), k)
  }

  /** Some version of a that is led to pins b. */
  ghost predicate Passes(cat: Catalogue, mods: set<Mod>, a: string, b: string) {
    exists k, k' :: Led(cat, mods, k) && k.name == a && Brings(cat, k, k') && k'.name == b
  }

  ghost predicate IsNameRoute(cat: Catalogue, mods: set<Mod>, l: Mod, names: seq<string>) {
    |names| > 0 && names[0] == l.name && forall j :: 0 < j < |names| ==> Passes(cat, mods, names[j - 1], names[j])
  }

  /** l's package pins the named one, or a package that does, and so on. */
  ghost predicate Touches(cat: Catalogue, mods: set<Mod>, l: Mod, name: string) {
    exists names :: IsNameRoute(cat, mods, l, names) && names[|names| - 1] == name
  }

  /** One of the mods with this side tag touches the name. */
  ghost predicate SideFrom(cat: Catalogue, mods: set<Mod>, side: string, name: string) {
    exists l :: l in mods && l.side == side && Touches(cat, mods, l, name)
  }

  ghost predicate RankFrom(cat: Catalogue, mods: set<Mod>, rank: nat, name: string) {
    exists l :: l in mods && SideRank(l.side) == rank && Touches(cat, mods, l, name)
  }

  /** The mods lead to y's own version, and one of them as strong as y touches its name. */
  ghost predicate Reached(cat: Catalogue, mods: set<Mod>, y: Mod) {
    Led(cat, mods, KeyOf(y)) && RankFrom(cat, mods, SideRank(y.side), y.name)
  }

  lemma {:induction false} StartIsLed(cat: Catalogue, mods: set<Mod>, l: Mod)
    requires l in mods
    ensures Led(cat, mods, KeyOf(l)) && Touches(cat, mods, l, l.name)
  {
    assert IsRoute(cat, KeyOf(l), [KeyOf(l)]);
    assert IsNameRoute(cat, mods, l, [l.name]);
  }

  lemma {:induction false} LedOn(cat: Catalogue, mods: set<Mod>, a: Key, k: Key)
    requires Led(cat, mods, a) && Brings(cat, a, k)
    ensures Led(cat, mods, k) && Passes(cat, mods, a.name, k.name)
  {
    hide Brings;
    var l :| l in mods && Leads(cat, KeyOf(l), a);
    var route :| IsRoute(cat, KeyOf(l), route) && route[|route| - 1] == a;
    assert IsRoute(cat, KeyOf(l), route + [k]);
    assert Leads(cat, KeyOf(l), k) by { assert (route + [k])[|route + [k]| - 1] == k; }
  }

  lemma {:induction false} TouchesOn(cat: Catalogue, mods: set<Mod>, l: Mod, a: string, b: string)
    requires Touches(cat, mods, l, a) && Passes(cat, mods, a, b)
    ensures Touches(cat, mods, l, b)
  {
    hide Passes;
    var names :| IsNameRoute(cat, mods, l, names) && names[|names| - 1] == a;
    assert IsNameRoute(cat, mods, l, names + [b]);
    assert (names + [b])[|names + [b]| - 1] == b;
  }

  lemma {:induction false} LedWidens(cat: Catalogue, mods: set<Mod>, more: set<Mod>, k: Key)
    requires mods <= more && Led(cat, mods, k)
    ensures Led(cat, more, k)
  {
    hide Leads;
  }

  lemma {:induction false} PassesWidens(cat: Catalogue, mods: set<Mod>, more: set<Mod>, a: string, b: string)
    requires mods <= more && Passes(cat, mods, a, b)
    ensures Passes(cat, more, a, b)
  {
    hide Led, Brings;
    var k, k' :| Led(cat, mods, k) && k.name == a && Brings(cat, k, k') && k'.name == b;
    LedWidens(cat, mods, more, k);
  }

  lemma {:induction false} TouchesWidens(cat: Catalogue, mods: set<Mod>, more: set<Mod>, l: Mod, name: string)
    requires mods <= more && Touches(cat, mods, l, name)
    ensures Touches(cat, more, l, name)
  {
    hide Passes;
    var names :| IsNameRoute(cat, mods, l, names) && names[|names| - 1] == name;
    forall j | 0 < j < |names| ensures Passes(cat, more, names[j - 1], names[j]) {
      PassesWidens(cat, mods, more, names[j - 1], names[j]);
    }
    assert IsNameRoute(cat, more, l, names);
  }

  lemma {:induction false} ReachedWidens(cat: Catalogue, mods: set<Mod>, more: set<Mod>, y: Mod)
    requires mods <= more && Reached(cat, mods, y)
    ensures Reached(cat, more, y)
  {
    hide Led, Touches;
    LedWidens(cat, mods, more, KeyOf(y));
    var l :| l in mods && SideRank(l.side) == SideRank(y.side) && Touches(cat, mods, l, y.name);
    TouchesWidens(cat, mods, more, l, y.name);
  }

  // ----- settled rows -----

  predicate AtMost(v: string, w: string) { v == w || Higher(w, v) }

  lemma {:induction false} AtMostTransitive(u: string, v: string, w: string)
    requires AtMost(u, v) && AtMost(v, w)
    ensures AtMost(u, w) && (w == u ==> v == u)
  {
    HigherIsStrict(w, v, u);
    HigherIsStrict(u, u, u);
  }

  predicate KnownSide(side: string) { SideOrUnknown(side) == SIDE_UNKNOWN || SideRank(side) > 0 }

  /** No package is a row twice, and every row has one of the side tags. */
  ghost predicate OneRowEach(rows: set<Mod>) {
    (forall a, b :: a in rows && b in rows && a.name == b.name ==> a == b) &&
    forall a :: a in rows ==> KnownSide(a.side)
  }

  /** Led versions of one package are of one registry, and ordered. */
  ghost predicate Agree(cat: Catalogue, rows: set<Mod>) {
    forall k, k' :: Led(cat, rows, k) && Led(cat, rows, k') && k.name == k'.name ==>
      k.source == k'.source && (AtMost(k.version, k'.version) || AtMost(k'.version, k.version))
  }

  /** No row is below a version of its package that is led to. */
  ghost predicate Floors(cat: Catalogue, rows: set<Mod>) {
    forall k, y :: Led(cat, rows, k) && y in rows && k.name == y.name ==> AtMost(k.version, y.version)
  }

  ghost predicate PinsNoLower(cat: Catalogue, k: Key, p: Key) {
    exists p' :: Brings(cat, k, p') && p'.name == p.name && AtMost(p.version, p'.version)
  }

  /** A higher version of a package pins what a lower one does, and no lower. */
  ghost predicate Growth(cat: Catalogue, rows: set<Mod>) {
    forall k, k', p ::
      Led(cat, rows, k) && Led(cat, rows, k') && k.name == k'.name && Higher(k'.version, k.version) && Brings(cat, k, p)
      ==> PinsNoLower(cat, k', p)
  }

  /** No row is weaker-sided than one that touches it. */
  ghost predicate SideFloors(cat: Catalogue, rows: set<Mod>) {
    forall y, z :: y in rows && z in rows && Touches(cat, rows, z, y.name) ==> SideRank(z.side) <= SideRank(y.side)
  }

  /** An install whose rows meet every pin that reaches them. */
  ghost predicate Settled(rows: set<Mod>, cat: Catalogue) {
    && cat.failing == {} && OneRowEach(rows)
    && Agree(cat, rows) && Floors(cat, rows) && Growth(cat, rows) && SideFloors(cat, rows)
  }

  /** One registry and one side tag, each package pinned at one version, which is its row's own if it has a row. */
  ghost predicate OnePinEach(rows: set<Mod>, cat: Catalogue, source: string) {
    && cat.failing == {} && OneRowEach(rows)
    && (forall y, z :: y in rows && z in rows ==> y.source == source && SideRank(y.side) == SideRank(z.side))
    && (forall a :: a in cat.rows ==> cat.rows[a].origin == source)
    && (forall a, b, p, p' :: PinsExactly(cat, a, p) && PinsExactly(cat, b, p') && p.name == p'.name ==> p == p')
    && forall a, p, y :: PinsExactly(cat, a, p) && y in rows && y.name == p.name ==> p.version == y.version
  }

  lemma {:induction false} RowOrPinned(cat: Catalogue, mods: set<Mod>, k: Key)
    requires Led(cat, mods, k)
    ensures (exists l :: l in mods && KeyOf(l) == k) || exists a :: Brings(cat, a, k)
  {
    hide Brings;
    var l :| l in mods && Leads(cat, KeyOf(l), k);
    var route :| IsRoute(cat, KeyOf(l), route) && route[|route| - 1] == k;
    if |route| > 1 { assert Brings(cat, route[|route| - 2], k); }
  }

  lemma {:induction false} OneVersionEach(rows: set<Mod>, cat: Catalogue, source: string, k: Key, k': Key)
    requires OnePinEach(rows, cat, source) && Led(cat, rows, k) && Led(cat, rows, k') && k.name == k'.name
    ensures k == k'
  {
    RowOrPinned(cat, rows, k);
    RowOrPinned(cat, rows, k');
    hide Led;
    if a :| Brings(cat, a, k) {
      assert PinsExactly(cat, a, Pin(k.name, k.version));
      if b :| Brings(cat, b, k') { assert PinsExactly(cat, b, Pin(k'.name, k'.version)); }
    } else if b :| Brings(cat, b, k') {
      assert PinsExactly(cat, b, Pin(k'.name, k'.version));
    }
  }

  /** Such rows are settled. */
  lemma {:induction false} OnePinEachIsSettled(rows: set<Mod>, cat: Catalogue, source: string)
    requires OnePinEach(rows, cat, source)
    ensures Settled(rows, cat)
  {
    hide Led, Brings, Touches, Higher, PinsNoLower;
    forall k, k' | Led(cat, rows, k) && Led(cat, rows, k') && k.name == k'.name ensures k == k' {
      OneVersionEach(rows, cat, source, k, k');
    }
    forall y | y in rows ensures Led(cat, rows, KeyOf(y)) { StartIsLed(cat, rows, y); }
    forall v ensures !Higher(v, v) { HigherIsStrict(v, v, v); }
  }

  // ----- what is derived is led to -----

  ghost function ModSet(mods: seq<Mod>): set<Mod> { set m | m in mods }

  ghost predicate LedMod(cat: Catalogue, mods: set<Mod>, m: Mod) {
    Led(cat, mods, KeyOf(m)) && SideFrom(cat, mods, m.side, m.name)
  }

  ghost predicate AllLed(derived: Derived, mods: set<Mod>, cat: Catalogue) {
    forall x :: x in derived ==> derived[x].name == x && LedMod(cat, mods, derived[x])
  }

  lemma {:induction false} SideOn(cat: Catalogue, mods: set<Mod>, side: string, a: string, b: string)
    requires SideFrom(cat, mods, side, a) && Passes(cat, mods, a, b)
    ensures SideFrom(cat, mods, side, b)
  {
    hide Touches, Passes;
    var l :| l in mods && l.side == side && Touches(cat, mods, l, a);
    TouchesOn(cat, mods, l, a, b);
  }

  lemma {:induction false} RaisedIsLed(d: Mod, m: Mod, p: Pin, origin: string, mods: set<Mod>, rows: set<Mod>,
        cat: Catalogue)
    requires mods <= rows && Agree(cat, rows) && LedMod(cat, mods, d) && d.name == p.name
    requires Led(cat, mods, Key(p.name, p.version, origin)) && SideFrom(cat, mods, m.side, p.name)
    ensures LedMod(cat, mods, Raised(d, m, p))
  {
    hide Led, SideFrom, AtMost, Higher, Weaker;
    LedWidens(cat, mods, rows, Key(p.name, p.version, origin));
    LedWidens(cat, mods, rows, KeyOf(d));
  }

  lemma {:induction false} PinIsLed(m: Mod, p: Pin, origin: string, mods: set<Mod>, cat: Catalogue)
    requires LedMod(cat, mods, m) && Brings(cat, KeyOf(m), Key(p.name, p.version, origin))
    ensures Led(cat, mods, Key(p.name, p.version, origin)) && SideFrom(cat, mods, m.side, p.name)
  {
    hide Led, SideFrom, Brings, Passes;
    LedOn(cat, mods, KeyOf(m), Key(p.name, p.version, origin));
    SideOn(cat, mods, m.side, m.name, p.name);
  }

  lemma {:induction false} DeriveOneLed(derived: Derived, listed: set<string>, m: Mod, p: Pin, origin: string,
        mods: set<Mod>, rows: set<Mod>, cat: Catalogue)
    requires mods <= rows && Agree(cat, rows) && AllLed(derived, mods, cat) && LedMod(cat, mods, m)
    requires Brings(cat, KeyOf(m), Key(p.name, p.version, origin))
    ensures AllLed(DeriveOne(derived, listed, m, Some(p), origin), mods, cat)
  {
    hide Led, SideFrom, Brings, Agree, Raised;
    PinIsLed(m, p, origin, mods, cat);
    assert LedMod(cat, mods, Mod(p.name, p.version, origin, m.side));
    hide LedMod;
    if p.name in derived { RaisedIsLed(derived[p.name], m, p, origin, mods, rows, cat); }
    RaisedName(p.name, m, p, derived);
  }

  lemma {:induction false} RaisedName(x: string, m: Mod, p: Pin, derived: Derived)
    ensures x in derived ==> Raised(derived[x], m, p).name == derived[x].name
  {
  }

  lemma {:induction false} DeriveLed(derived: Derived, listed: set<string>, m: Mod, pins: seq<Option<Pin>>,
        mods: set<Mod>, rows: set<Mod>, cat: Catalogue)
    requires mods <= rows && Agree(cat, rows) && AllLed(derived, mods, cat) && LedMod(cat, mods, m)
    requires KeyOf(m) in cat.rows && forall i :: 0 <= i < |pins| ==> pins[i] in cat.rows[KeyOf(m)].pins
    ensures AllLed(Derive(derived, listed, m, pins, cat.rows[KeyOf(m)].origin), mods, cat)
    decreases |pins|
  {
    hide AllLed, LedMod, Agree;
    if pins != [] {
      var origin := cat.rows[KeyOf(m)].origin;
      if pins[0].Some? {
        assert pins[0] == Some(Pin(pins[0].value.name, pins[0].value.version));
        DeriveOneLed(derived, listed, m, pins[0].value, origin, mods, rows, cat);
      }
      DeriveLed(DeriveOne(derived, listed, m, pins[0], origin), listed, m, pins[1..], mods, rows, cat);
    }
  }

  lemma {:induction false} PassLed(derived: Derived, listed: set<string>, todo: seq<Mod>, mods: set<Mod>,
        rows: set<Mod>, cat: Catalogue)
    requires mods <= rows && Agree(cat, rows) && AllLed(derived, mods, cat)
    requires forall m :: m in todo ==> LedMod(cat, mods, m)
    ensures Pass(derived, listed, todo, cat).Some? ==> AllLed(Pass(derived, listed, todo, cat).value, mods, cat)
    decreases |todo|
  {
    hide AllLed, LedMod, Agree;
    if todo != [] && Visit(derived, listed, todo[0], cat).Some? {
      if KeyOf(todo[0]) in cat.rows {
        DeriveLed(derived, listed, todo[0], cat.rows[KeyOf(todo[0])].pins, mods, rows, cat);
      }
      PassLed(Visit(derived, listed, todo[0], cat).value, listed, todo[1..], mods, rows, cat);
    }
  }

  lemma {:induction false} SnapshotLed(derived: Derived, mods: seq<Mod>, cat: Catalogue, i: nat)
    requires AllLed(derived, ModSet(mods), cat) && i < |mods + SortedMods(derived)|
    ensures LedMod(cat, ModSet(mods), (mods + SortedMods(derived))[i])
  {
    hide SortedMods, Led, Touches;
    SnapshotMods(derived, mods, i);
    if i < |mods| { StartIsLed(cat, ModSet(mods), mods[i]); }
  }

  lemma {:induction false} FixpointLed(derived: Derived, mods: seq<Mod>, rows: set<Mod>, cat: Catalogue)
    requires ModSet(mods) <= rows && Agree(cat, rows) && AllLed(derived, ModSet(mods), cat)
    requires Pinned(derived, cat) && Fixpoint(derived, mods, cat).Some?
    ensures AllLed(Fixpoint(derived, mods, cat).value, ModSet(mods), cat)
    decreases AllFacts(cat) - Facts(derived, cat)
  {
    hide AllLed, LedMod, Agree, Pass, SortedMods, Pinned, Extends, Fixpoint, History, AllFacts, Facts, ModSet;
    PassAnswered(derived, mods, cat);
    var snapshot := mods + SortedMods(derived);
    var d := Pass(derived, Names(mods), snapshot, cat).value;
    PassExtends(derived, Names(mods), snapshot, cat);
    PassIsPinned(derived, Names(mods), snapshot, cat);
    OnePass(derived, mods, cat, d);
    forall m | m in snapshot ensures LedMod(cat, ModSet(mods), m) {
      var i :| 0 <= i < |snapshot| && snapshot[i] == m;
      SnapshotLed(derived, mods, cat, i);
    }
    PassLed(derived, Names(mods), snapshot, ModSet(mods), rows, cat);
    if d != derived { FixpointLed(d, mods, rows, cat); }
  }

  // ----- an expansion of settled rows -----

  /** What is used of an expansion: it starts with the mods, names nothing twice, is led to, and meets its pins. */
  ghost predicate Closed(mods: seq<Mod>, out: seq<Mod>, cat: Catalogue) {
    && mods <= out && UniqueNames(out)
    && forall m :: m in out ==> LedMod(cat, ModSet(mods), m) && PinsMet(mods, out, m, cat)
  }

  lemma {:induction false} ExpansionIsClosed(mods: seq<Mod>, rows: set<Mod>, cat: Catalogue)
    requires UniqueNames(mods) && ModSet(mods) <= rows && Agree(cat, rows) && Expand(mods, cat).Some?
    ensures Closed(mods, Expand(mods, cat).value, cat)
  {
    hide LedMod, Agree, Pass, SortedMods, Traced, Chained, Fixpoint, History, PinsMet, ModSet;
    var d := Behind(mods, cat);
    var out := mods + SortedMods(d);
    ExpansionHasUniqueNames(mods, cat);
    ExpandIsClosed(mods, cat);
    FixpointLed(map[], mods, rows, cat);
    forall m | m in out ensures LedMod(cat, ModSet(mods), m) && PinsMet(mods, out, m, cat) {
      var i :| 0 <= i < |out| && out[i] == m;
      SnapshotLed(d, mods, cat, i);
    }
  }

  /** out has the package at no lower a version, and no weaker-sided than the rank. */
  ghost predicate Holding(out: seq<Mod>, m: Mod, name: string, version: string, rank: nat) {
    m in out && m.name == name && AtMost(version, m.version) && rank <= SideRank(m.side)
  }

  lemma {:induction false} OneOfName(out: seq<Mod>, a: Mod, b: Mod)
    requires UniqueNames(out) && a in out && b in out && a.name == b.name
    ensures a == b
  {
    var i :| 0 <= i < |out| && out[i] == a;
    var j :| 0 <= j < |out| && out[j] == b;
  }

  /** A pin of a returned mod is held. */
  lemma {:induction false} PinIsHeld(mods: seq<Mod>, out: seq<Mod>, rows: set<Mod>, cat: Catalogue, m: Mod, k: Key)
      returns (n: Mod)
    requires Closed(mods, out, cat) && ModSet(mods) <= rows && Settled(rows, cat) && m in out
    requires Brings(cat, KeyOf(m), k)
    ensures Holding(out, n, k.name, k.version, SideRank(m.side))
  {
    var start := ModSet(mods);
    assert LedMod(cat, start, m) && PinsMet(mods, out, m, cat);
    LedOn(cat, start, KeyOf(m), k);
    LedWidens(cat, start, rows, k);
    if k.name in Names(mods) {
      n := ListedHolds(mods, out, rows, cat, m, k);
    } else {
      var p := Pin(k.name, k.version);
      assert Some(p) in cat.rows[KeyOf(m)].pins;
      hide Led, SideFrom, Passes, Brings, AtMost, Higher, Weaker;
      var i :| |mods| <= i < |out| && out[i].name == p.name && !Higher(p.version, out[i].version)
               && !Weaker(out[i].side, m.side);
      n := out[i];
      assert LedMod(cat, start, n);
      LedWidens(cat, start, rows, KeyOf(n));
      NotHigher(k.version, n.version);
      NotWeaker(n.side, m.side);
    }
  }

  lemma {:induction false} NotHigher(v: string, w: string)
    requires AtMost(v, w) || AtMost(w, v)
    ensures !Higher(v, w) ==> AtMost(v, w)
  {
  }

  lemma {:induction false} NotWeaker(a: string, b: string)
    ensures !Weaker(a, b) ==> SideRank(b) <= SideRank(a)
  {
  }

  lemma {:induction false} ListedHolds(mods: seq<Mod>, out: seq<Mod>, rows: set<Mod>, cat: Catalogue, m: Mod, k: Key)
      returns (n: Mod)
    requires mods <= out && ModSet(mods) <= rows && LedMod(cat, ModSet(mods), m) && k.name in Names(mods)
    requires Passes(cat, ModSet(mods), m.name, k.name) && Led(cat, rows, k)
    requires Floors(cat, rows) && SideFloors(cat, rows)
    ensures Holding(out, n, k.name, k.version, SideRank(m.side))
  {
    hide Led, Passes, Touches, AtMost, SideRank;
    var i :| 0 <= i < |mods| && mods[i].name == k.name;
    n := mods[i];
    assert n in ModSet(mods) && out[i] == n;
    var l :| l in ModSet(mods) && l.side == m.side && Touches(cat, ModSet(mods), l, m.name);
    TouchesOn(cat, ModSet(mods), l, m.name, k.name);
    TouchesWidens(cat, ModSet(mods), rows, l, k.name);
  }

  /** So is a pin of any version of its package that is led to. */
  lemma {:induction false} PinCarriesOn(mods: seq<Mod>, out: seq<Mod>, rows: set<Mod>, cat: Catalogue, m: Mod, k: Key,
        p: Key) returns (n: Mod)
    requires Closed(mods, out, cat) && ModSet(mods) <= rows && Settled(rows, cat)
    requires Holding(out, m, k.name, k.version, 0) && Led(cat, rows, k) && Brings(cat, k, p)
    ensures Holding(out, n, p.name, p.version, SideRank(m.side))
  {
    assert LedMod(cat, ModSet(mods), m);
    hide Led, Brings, SideFrom, ModSet, Higher, Closed;
    LedWidens(cat, ModSet(mods), rows, KeyOf(m));
    var p' := p;
    if m.version == k.version {
      assert KeyOf(m) == k;
    } else {
      assert PinsNoLower(cat, KeyOf(m), p);
      p' :| Brings(cat, KeyOf(m), p') && p'.name == p.name && AtMost(p.version, p'.version);
    }
    n := PinIsHeld(mods, out, rows, cat, m, p');
    AtMostTransitive(p.version, p'.version, n.version);
  }

  /** Along a route of pins every package is returned, no lower. */
  lemma {:induction false} RouteIsHeld(mods: seq<Mod>, out: seq<Mod>, rows: set<Mod>, cat: Catalogue, l: Mod,
        route: seq<Key>) returns (m: Mod)
    requires Closed(mods, out, cat) && ModSet(mods) <= rows && Settled(rows, cat)
    requires l in mods && IsRoute(cat, KeyOf(l), route)
    ensures Holding(out, m, route[|route| - 1].name, route[|route| - 1].version, 0)
    ensures Led(cat, rows, route[|route| - 1])
    decreases |route|
  {
    var k := route[|route| - 1];
    hide Settled, Brings, Led;
    if |route| == 1 {
      StartIsLed(cat, rows, l);
      m := l;
      hide Closed;
      MemberIsReturned(mods, out, l);
    } else {
      var shorter := route[..|route| - 1];
      assert IsRoute(cat, KeyOf(l), shorter);
      var n := RouteIsHeld(mods, out, rows, cat, l, shorter);
      var a := shorter[|shorter| - 1];
      assert Brings(cat, a, k);
      LedOn(cat, rows, a, k);
      hide Closed;
      m := PinCarriesOn(mods, out, rows, cat, n, a, k);
    }
  }

  lemma {:induction false} MemberIsReturned(mods: seq<Mod>, out: seq<Mod>, l: Mod)
    requires mods <= out && l in mods
    ensures l in out
  {
  }

  lemma {:induction false} LedIsHeld(mods: seq<Mod>, out: seq<Mod>, rows: set<Mod>, cat: Catalogue, k: Key)
      returns (m: Mod)
    requires Closed(mods, out, cat) && ModSet(mods) <= rows && Settled(rows, cat) && Led(cat, ModSet(mods), k)
    ensures Holding(out, m, k.name, k.version, 0)
  {
    hide Settled, Closed;
    var l :| l in ModSet(mods) && Leads(cat, KeyOf(l), k);
    var route :| IsRoute(cat, KeyOf(l), route) && route[|route| - 1] == k;
    m := RouteIsHeld(mods, out, rows, cat, l, route);
  }

  /** Along a route of names every package is returned no weaker-sided than the mod it starts from. */
  lemma {:induction false} NamesAreHeld(mods: seq<Mod>, out: seq<Mod>, rows: set<Mod>, cat: Catalogue, l: Mod,
        names: seq<string>) returns (m: Mod)
    requires Closed(mods, out, cat) && ModSet(mods) <= rows && Settled(rows, cat)
    requires l in mods && IsNameRoute(cat, ModSet(mods), l, names)
    ensures m in out && m.name == names[|names| - 1] && SideRank(l.side) <= SideRank(m.side)
    decreases |names|
  {
    hide Settled, Passes, ModSet;
    if |names| == 1 {
      m := l;
    } else {
      var shorter := names[..|names| - 1];
      assert IsNameRoute(cat, ModSet(mods), l, shorter);
      var n := NamesAreHeld(mods, out, rows, cat, l, shorter);
      assert Passes(cat, ModSet(mods), n.name, names[|names| - 1]);
      m := NameCarriesOn(mods, out, rows, cat, n, names[|names| - 1]);
    }
  }

  lemma {:induction false} NameCarriesOn(mods: seq<Mod>, out: seq<Mod>, rows: set<Mod>, cat: Catalogue, n: Mod,
        name: string) returns (m: Mod)
    requires Closed(mods, out, cat) && ModSet(mods) <= rows && Settled(rows, cat)
    requires n in out && Passes(cat, ModSet(mods), n.name, name)
    ensures m in out && m.name == name && SideRank(n.side) <= SideRank(m.side)
  {
    hide Settled, Led, Brings, ModSet;
    var k, k' :| Led(cat, ModSet(mods), k) && k.name == n.name && Brings(cat, k, k') && k'.name == name;
    var held := LedIsHeld(mods, out, rows, cat, k);
    OneOfName(out, held, n);
    hide Closed;
    LedWidens(cat, ModSet(mods), rows, k);
    m := PinCarriesOn(mods, out, rows, cat, n, k, k');
  }

  // ----- what settled rows are given back -----

  lemma {:induction false} GivenBackIsReached(mods: seq<Mod>, out: seq<Mod>, rows: set<Mod>, cat: Catalogue, y: Mod)
    requires Closed(mods, out, cat) && GivesBack(out, y)
    ensures Reached(cat, ModSet(mods), y)
  {
    hide Led, Touches, ModSet;
    var i :| 0 <= i < |out| && out[i].name == y.name && SameMod(out[i], y);
    assert LedMod(cat, ModSet(mods), out[i]);
    assert KeyOf(out[i]) == KeyOf(y) && SideRank(out[i].side) == SideRank(y.side);
  }

  lemma {:induction false} SidesAgree(a: string, b: string)
    requires KnownSide(a) && KnownSide(b) && SideRank(a) == SideRank(b)
    ensures SideOrUnknown(a) == SideOrUnknown(b)
  {
  }

  lemma {:induction false} ReachedIsHeld(mods: seq<Mod>, out: seq<Mod>, rows: set<Mod>, cat: Catalogue, y: Mod)
      returns (m: Mod)
    requires Closed(mods, out, cat) && ModSet(mods) <= rows && Settled(rows, cat) && Reached(cat, ModSet(mods), y)
    ensures Holding(out, m, y.name, y.version, SideRank(y.side)) && Led(cat, rows, KeyOf(m))
    ensures SideFrom(cat, rows, m.side, m.name)
  {
    hide Settled, Led, SideRank, Passes;
    m := LedIsHeld(mods, out, rows, cat, KeyOf(y));
    var l :| l in ModSet(mods) && SideRank(l.side) == SideRank(y.side) && Touches(cat, ModSet(mods), l, y.name);
    var names :| IsNameRoute(cat, ModSet(mods), l, names) && names[|names| - 1] == y.name;
    var n := NamesAreHeld(mods, out, rows, cat, l, names);
    OneOfName(out, m, n);
    assert LedMod(cat, ModSet(mods), m);
    LedWidens(cat, ModSet(mods), rows, KeyOf(m));
    var strong :| strong in ModSet(mods) && strong.side == m.side && Touches(cat, ModSet(mods), strong, m.name);
    TouchesWidens(cat, ModSet(mods), rows, strong, m.name);
  }

  lemma {:induction false} HeldIsGivenBack(out: seq<Mod>, rows: set<Mod>, cat: Catalogue, y: Mod, m: Mod)
    requires Settled(rows, cat) && y in rows && Holding(out, m, y.name, y.version, SideRank(y.side))
    requires Led(cat, rows, KeyOf(m)) && SideFrom(cat, rows, m.side, m.name)
    ensures GivesBack(out, y)
  {
    StartIsLed(cat, rows, y);
    hide Led, Touches, SideRank, Higher, KnownSide, AtMost, SideOrUnknown;
    var strong :| strong in rows && strong.side == m.side && Touches(cat, rows, strong, m.name);
    SidesAgree(m.side, y.side);
    assert AtMost(KeyOf(m).version, y.version);
    AtMostTransitive(y.version, m.version, y.version);
    assert KeyOf(m).source == KeyOf(y).source;
    var i :| 0 <= i < |out| && out[i] == m;
    assert SameMod(out[i], y);
  }

  /**
   Of settled rows, the expansion of any of them gives a row back exactly when a route of pins from them
   ends at its own version and one of them as strong-sided touches it.
  */
  lemma {:induction false} GivesBackIff(mods: seq<Mod>, rows: set<Mod>, cat: Catalogue, y: Mod)
    requires UniqueNames(mods) && ModSet(mods) <= rows && Settled(rows, cat) && y in rows
    ensures Expand(mods, cat).Some?
    ensures GivesBack(Expand(mods, cat).value, y) <==> Reached(cat, ModSet(mods), y)
  {
    ExpandAnswers(mods, cat);
    ExpansionIsClosed(mods, rows, cat);
    hide Expand, Closed, Led, Reached, GivesBack, ModSet;
    var out := Expand(mods, cat).value;
    if GivesBack(out, y) { GivenBackIsReached(mods, out, rows, cat, y); }
    if Reached(cat, ModSet(mods), y) {
      var m := ReachedIsHeld(mods, out, rows, cat, y);
      HeldIsGivenBack(out, rows, cat, y, m);
    }
  }
}
