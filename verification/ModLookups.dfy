/**
 At which version, side and registry expandMods of internal/api/manifest_code.go adds a package: what its
 passes read, one after the other, and how the added mods follow from it.
*/
module ModLookups {
  import opened Optional
  import opened Text
  import opened SemVer
  import opened ModExpansion

  /** One pin that was read: of which mod, as it was tagged then, and in which registry its row is. */
  datatype Read = Read(reader: Mod, pin: Pin, origin: string)

  function ReadsOfPins(m: Mod, listed: set<string>, pins: seq<Option<Pin>>, origin: string): seq<Read> {
    if pins == [] then []
    else
      (if pins[0].None? || pins[0].value.name in listed then [] else [Read(m, pins[0].value, origin)])
      + ReadsOfPins(m, listed, pins[1..], origin)
  }

  /** The readable pins of unlisted packages that m's row has. */
  function ReadsOf(m: Mod, listed: set<string>, cat: Catalogue): seq<Read> {
    if KeyOf(m) !in cat.rows then []
    else ReadsOfPins(m, listed, cat.rows[KeyOf(m)].pins, cat.rows[KeyOf(m)].origin)
  }

  function Reads(todo: seq<Mod>, listed: set<string>, cat: Catalogue): seq<Read> {
    if todo == [] then [] else ReadsOf(todo[0], listed, cat) + Reads(todo[1..], listed, cat)
  }

  ghost predicate Named(trace: seq<Read>, x: string) {
    exists i :: 0 <= i < |trace| && trace[i].pin.name == x
  }

  /** The highest of the versions read. */
  ghost predicate HighestRead(trace: seq<Read>, x: string, version: string) {
    && (exists i :: 0 <= i < |trace| && trace[i].pin == Pin(x, version))
    && forall i :: 0 <= i < |trace| && trace[i].pin.name == x ==> !Higher(trace[i].pin.version, version)
  }

  /** The strongest side tag of the mods it was read from. */
  ghost predicate StrongestRead(trace: seq<Read>, x: string, side: string) {
    && (exists i :: 0 <= i < |trace| && trace[i].pin.name == x && trace[i].reader.side == side)
    && forall i :: 0 <= i < |trace| && trace[i].pin.name == x ==> !Weaker(side, trace[i].reader.side)
  }

  /** The registry of the first. */
  ghost predicate FirstRead(trace: seq<Read>, x: string, origin: string) {
    exists i :: 0 <= i < |trace| && trace[i].pin.name == x && trace[i].origin == origin && !Named(trace[..i], x)
  }

  ghost predicate AsRead(trace: seq<Read>, d: Mod) {
    HighestRead(trace, d.name, d.version) && StrongestRead(trace, d.name, d.side) && FirstRead(trace, d.name, d.source)
  }

  /** The derived packages are those that were read, as they were read. */
  ghost predicate Exact(derived: Derived, trace: seq<Read>) {
    && (forall x :: x in derived <==> Named(trace, x))
    && forall x :: x in derived ==> derived[x].name == x && AsRead(trace, derived[x])
  }

  // ----- one more read -----

  lemma {:induction false} NamedMore(trace: seq<Read>, r: Read, x: string)
    ensures Named(trace + [r], x) <==> Named(trace, x) || r.pin.name == x
  {
    var more := trace + [r];
    assert more[|trace|] == r;
    assert forall i :: 0 <= i < |trace| ==> more[i] == trace[i];
  }

  lemma {:induction false} FirstStays(trace: seq<Read>, r: Read, x: string, origin: string)
    requires FirstRead(trace, x, origin)
    ensures FirstRead(trace + [r], x, origin)
  {
    var i :| 0 <= i < |trace| && trace[i].pin.name == x && trace[i].origin == origin && !Named(trace[..i], x);
    assert (trace + [r])[i] == trace[i] && (trace + [r])[..i] == trace[..i];
  }

  lemma {:induction false} OthersStay(trace: seq<Read>, r: Read, d: Mod)
    requires AsRead(trace, d) && r.pin.name != d.name
    ensures AsRead(trace + [r], d)
  {
    hide Higher, Weaker, FirstRead;
    FirstStays(trace, r, d.name, d.source);
    assert forall i :: 0 <= i < |trace| ==> (trace + [r])[i] == trace[i];
  }

  lemma {:induction false} FirstIsNew(trace: seq<Read>, r: Read)
    requires !Named(trace, r.pin.name)
    ensures AsRead(trace + [r], Mod(r.pin.name, r.pin.version, r.origin, r.reader.side))
  {
    HigherIsStrict(r.pin.version, r.pin.version, r.pin.version);
    hide Higher;
    var more := trace + [r];
    assert forall i :: 0 <= i < |trace| ==> more[i] == trace[i];
    assert more[|trace|] == r && more[..|trace|] == trace;
    assert r.pin == Pin(r.pin.name, r.pin.version);
  }

  lemma {:induction false} HighestMore(trace: seq<Read>, r: Read, x: string, version: string)
    requires HighestRead(trace, x, version) && r.pin.name == x
    ensures HighestRead(trace + [r], x, if Higher(r.pin.version, version) then r.pin.version else version)
  {
    var more := trace + [r];
    var top := if Higher(r.pin.version, version) then r.pin.version else version;
    assert more[|trace|] == r && forall i :: 0 <= i < |trace| ==> more[i] == trace[i];
    forall i | 0 <= i < |more| && more[i].pin.name == x ensures !Higher(more[i].pin.version, top) {
      HigherIsStrict(more[i].pin.version, top, version);
      HigherIsStrict(top, top, top);
    }
    assert r.pin == Pin(x, r.pin.version);
  }

  lemma {:induction false} StrongestMore(trace: seq<Read>, r: Read, x: string, side: string)
    requires StrongestRead(trace, x, side) && r.pin.name == x
    ensures StrongestRead(trace + [r], x, if Weaker(side, r.reader.side) then r.reader.side else side)
  {
    var more := trace + [r];
    assert more[|trace|] == r && forall i :: 0 <= i < |trace| ==> more[i] == trace[i];
  }

  lemma {:induction false} RaisedIsRead(trace: seq<Read>, r: Read, d: Mod)
    requires AsRead(trace, d) && r.pin.name == d.name
    ensures AsRead(trace + [r], Raised(d, r.reader, r.pin))
  {
    hide HighestRead, StrongestRead, FirstRead, Higher, Weaker;
    HighestMore(trace, r, d.name, d.version);
    StrongestMore(trace, r, d.name, d.side);
    FirstStays(trace, r, d.name, d.source);
  }

  lemma {:induction false} OneMoreRead(derived: Derived, listed: set<string>, m: Mod, p: Pin, origin: string,
        trace: seq<Read>)
    requires Exact(derived, trace) && p.name !in listed
    ensures Exact(DeriveOne(derived, listed, m, Some(p), origin), trace + [Read(m, p, origin)])
  {
    hide AsRead, Named, Higher, Weaker;
    var r := Read(m, p, origin);
    var d := DeriveOne(derived, listed, m, Some(p), origin);
    forall x ensures x in d <==> Named(trace + [r], x) { NamedMore(trace, r, x); }
    forall x | x in d ensures d[x].name == x && AsRead(trace + [r], d[x]) {
      if x != p.name {
        OthersStay(trace, r, derived[x]);
      } else if x in derived {
        RaisedIsRead(trace, r, derived[x]);
      } else {
        FirstIsNew(trace, r);
      }
    }
  }

  // ----- all of them -----

  lemma {:induction false} DeriveIsExact(derived: Derived, listed: set<string>, m: Mod, pins: seq<Option<Pin>>,
        origin: string, trace: seq<Read>)
    requires Exact(derived, trace)
    ensures Exact(Derive(derived, listed, m, pins, origin), trace + ReadsOfPins(m, listed, pins, origin))
    decreases |pins|
  {
    hide Exact;
    if pins == [] {
      assert trace + [] == trace;
    } else {
      var one := if pins[0].None? || pins[0].value.name in listed then [] else [Read(m, pins[0].value, origin)];
      if one == [] {
        assert trace + one == trace;
      } else {
        OneMoreRead(derived, listed, m, pins[0].value, origin, trace);
      }
      DeriveIsExact(DeriveOne(derived, listed, m, pins[0], origin), listed, m, pins[1..], origin, trace + one);
      Associates(trace, one, ReadsOfPins(m, listed, pins[1..], origin));
    }
  }

  lemma {:induction false} VisitIsExact(derived: Derived, listed: set<string>, m: Mod, cat: Catalogue, trace: seq<Read>)
    requires Exact(derived, trace) && Visit(derived, listed, m, cat).Some?
    ensures Exact(Visit(derived, listed, m, cat).value, trace + ReadsOf(m, listed, cat))
  {
    hide Exact, Derive, ReadsOfPins;
    if KeyOf(m) in cat.rows {
      DeriveIsExact(derived, listed, m, cat.rows[KeyOf(m)].pins, cat.rows[KeyOf(m)].origin, trace);
    } else {
      assert trace + [] == trace;
    }
  }

  lemma {:induction false} PassIsExact(derived: Derived, listed: set<string>, todo: seq<Mod>, cat: Catalogue,
        trace: seq<Read>)
    requires Exact(derived, trace) && Pass(derived, listed, todo, cat).Some?
    ensures Exact(Pass(derived, listed, todo, cat).value, trace + Reads(todo, listed, cat))
    decreases |todo|
  {
    hide Exact, Derive, ReadsOfPins;
    if todo == [] {
      assert trace + [] == trace;
    } else {
      var m := todo[0];
      VisitIsExact(derived, listed, m, cat, trace);
      hide ReadsOf, Visit;
      PassIsExact(Visit(derived, listed, m, cat).value, listed, todo[1..], cat, trace + ReadsOf(m, listed, cat));
      Associates(trace, ReadsOf(m, listed, cat), Reads(todo[1..], listed, cat));
    }
  }

  // ----- what the passes look up -----

  /** The mods that are looked up from the first pass to the last, in order, as they are then. */
  ghost function Lookups(derived: Derived, mods: seq<Mod>, cat: Catalogue): seq<Mod>
    requires Pinned(derived, cat)
    decreases AllFacts(cat) - Facts(derived, cat)
  {
    var snapshot := mods + SortedMods(derived);
    PassExtends(derived, Names(mods), snapshot, cat);
    PassIsPinned(derived, Names(mods), snapshot, cat);
    match Pass(derived, Names(mods), snapshot, cat)
    case None => snapshot
    case Some(d) =>
      FactsGrow(derived, d, cat);
      if d == derived then snapshot else snapshot + Lookups(d, mods, cat)
  }

  lemma {:induction false} KeysOfBoth(a: seq<Mod>, b: seq<Mod>)
    ensures Keys(a + b) == Keys(a) + Keys(b)
  {
    assert forall i :: 0 <= i < |a| ==> (a + b)[i] == a[i];
    assert forall i :: 0 <= i < |b| ==> (a + b)[|a| + i] == b[i];
  }

  lemma {:induction false} FirstPass(derived: Derived, mods: seq<Mod>, cat: Catalogue, d: Derived)
    requires Pinned(derived, cat) && Pinned(d, cat) && d != derived
    requires Pass(derived, Names(mods), mods + SortedMods(derived), cat) == Some(d)
    ensures Lookups(derived, mods, cat) == mods + SortedMods(derived) + Lookups(d, mods, cat)
  {
    hide Pass, SortedMods, Pinned, AllFacts, Holds, Extends;
  }

  lemma {:induction false} LastPass(derived: Derived, mods: seq<Mod>, cat: Catalogue)
    requires Pinned(derived, cat)
    requires Pass(derived, Names(mods), mods + SortedMods(derived), cat) == Some(derived)
    ensures Lookups(derived, mods, cat) == mods + SortedMods(derived)
  {
    hide Pass, SortedMods, Pinned, AllFacts, Holds, Extends;
  }

  lemma {:induction false} FixpointIsExact(derived: Derived, mods: seq<Mod>, cat: Catalogue, trace: seq<Read>)
    requires Pinned(derived, cat) && Exact(derived, trace) && Fixpoint(derived, mods, cat).Some?
    ensures Exact(Fixpoint(derived, mods, cat).value, trace + Reads(Lookups(derived, mods, cat), Names(mods), cat))
    ensures Keys(Lookups(derived, mods, cat)) == History(derived, mods, cat)
    decreases AllFacts(cat) - Facts(derived, cat)
  {
    hide Pass, SortedMods, Extends, Pinned, AllFacts, Facts, Fixpoint, History, Exact, Keys, Lookups, Reads;
    PassAnswered(derived, mods, cat);
    var snapshot := mods + SortedMods(derived);
    var d := Pass(derived, Names(mods), snapshot, cat).value;
    PassExtends(derived, Names(mods), snapshot, cat);
    PassIsPinned(derived, Names(mods), snapshot, cat);
    OnePass(derived, mods, cat, d);
    PassIsExact(derived, Names(mods), snapshot, cat, trace);
    if d == derived {
      LastPass(derived, mods, cat);
    } else {
      FirstPass(derived, mods, cat, d);
      var now := Reads(snapshot, Names(mods), cat);
      FixpointIsExact(d, mods, cat, trace + now);
      KeysOfBoth(snapshot, Lookups(d, mods, cat));
      ReadsOfBoth(snapshot, Lookups(d, mods, cat), Names(mods), cat);
      assert trace + now + Reads(Lookups(d, mods, cat), Names(mods), cat)
        == trace + (now + Reads(Lookups(d, mods, cat), Names(mods), cat));
    }
  }

  lemma {:induction false} ReadsOfBoth(a: seq<Mod>, b: seq<Mod>, listed: set<string>, cat: Catalogue)
    ensures Reads(a + b, listed, cat) == Reads(a, listed, cat) + Reads(b, listed, cat)
  {
    hide ReadsOf;
    if a == [] {
      assert a + b == b;
    } else {
      ReadsOfBoth(a[1..], b, listed, cat);
      assert (a + b)[1..] == a[1..] + b;
      ReadsOfFirst(a, listed, cat);
      ReadsOfFirst(a + b, listed, cat);
      hide Reads;
      Associates(ReadsOf(a[0], listed, cat), Reads(a[1..], listed, cat), Reads(b, listed, cat));
    }
  }

  lemma {:induction false} Associates(a: seq<Read>, b: seq<Read>, c: seq<Read>)
    ensures a + (b + c) == a + b + c
  {
  }

  lemma {:induction false} ReadsOfFirst(todo: seq<Mod>, listed: set<string>, cat: Catalogue)
    requires todo != []
    ensures Reads(todo, listed, cat) == ReadsOf(todo[0], listed, cat) + Reads(todo[1..], listed, cat)
  {
  }

  /** What is read over the whole of expandMods. */
  ghost function AllReads(mods: seq<Mod>, cat: Catalogue): seq<Read> {
    Reads(Lookups(map[], mods, cat), Names(mods), cat)
  }

  ghost predicate AddedName(mods: seq<Mod>, out: seq<Mod>, x: string) {
    exists i :: |mods| <= i < |out| && out[i].name == x
  }

  lemma {:induction false} ExactBehind(mods: seq<Mod>, cat: Catalogue) returns (d: Derived)
    requires Expand(mods, cat).Some?
    ensures Expand(mods, cat) == Some(mods + SortedMods(d)) && Exact(d, AllReads(mods, cat))
    ensures Keys(Lookups(map[], mods, cat)) == HistoryOf(mods, cat)
  {
    hide Lookups, Reads, Pass, Traced, Chained, SortedMods, AsRead, Keys, History;
    d := Behind(mods, cat);
    hide Expand, Fixpoint;
    var none: Derived := map[];
    assert Exact(none, []);
    FixpointIsExact(none, mods, cat, []);
    assert [] + AllReads(mods, cat) == AllReads(mods, cat);
  }

  /**
   What expandMods adds to the listed mods: exactly the unlisted packages that a mod it looked up pins, each at
   the highest version pinned, with the strongest side of those that pin it, from the registry of the first.
  */
  lemma {:induction false} ExpandIsExact(mods: seq<Mod>, cat: Catalogue)
    requires Expand(mods, cat).Some?
    ensures Keys(Lookups(map[], mods, cat)) == HistoryOf(mods, cat)
    ensures
      var out, trace := Expand(mods, cat).value, AllReads(mods, cat);
      && (forall x :: AddedName(mods, out, x) <==> Named(trace, x))
      && forall i :: |mods| <= i < |out| ==> AsRead(trace, out[i])
  {
    hide Lookups, AllReads, Expand, SortedMods, AsRead, Named, HistoryOf, AddedName, Keys;
    var d := ExactBehind(mods, cat);
    AddedAreDerived(mods, d);
  }

  lemma {:induction false} AddedAreDerived(mods: seq<Mod>, d: Derived)
    requires forall x :: x in d ==> d[x].name == x
    ensures forall x :: AddedName(mods, mods + SortedMods(d), x) <==> x in d
    ensures forall i :: |mods| <= i < |mods + SortedMods(d)| ==>
              (mods + SortedMods(d))[i].name in d && d[(mods + SortedMods(d))[i].name] == (mods + SortedMods(d))[i]
  {
    var names, out := Sorted(d.Keys), mods + SortedMods(d);
    forall i | |mods| <= i < |out| ensures out[i].name in d && d[out[i].name] == out[i] {
      assert names[i - |mods|] in d.Keys && out[i] == d[names[i - |mods|]];
    }
    forall x | x in d ensures AddedName(mods, out, x) {
      assert x in names;
      var j :| 0 <= j < |names| && names[j] == x;
      assert out[|mods| + j] == d[x];
    }
  }
}
