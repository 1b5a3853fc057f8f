/**
 Which mods a client profile holds: buildExport, walkClosure and addDependency of
 internal/api/mods_export.go. A dependency string is taken as already read or as unreadable, and
 the cached index as a finite table of rows by package, version and preferred registry.
*/
module ClientExport {
  import opened Optional
  import opened Text

  /** The side tag of an installed mod; the table admits these four and no other. */
  datatype Side = ServerOnly | ClientRequired | ClientOptional | Unknown

  datatype Installed = Installed(name: string, version: string, source: string, side: Side, enabled: bool)

  datatype Reason = Tagged | Dependency

  datatype Entry = Entry(name: string, version: string, source: string, side: Side, reason: Reason)

  datatype Conflict = Conflict(name: string, version: string, requiredBy: string, side: Side)

  datatype Dep = Readable(name: string, version: string) | Unreadable(raw: string)

  datatype Key = Key(name: string, version: string, prefer: string)

  datatype Index = Index(rows: map<Key, seq<Dep>>, failing: set<Key>)

  type Installs = map<string, Installed>

  predicate Seed(byName: Installs, n: string) {
    n in byName && byName[n].enabled && (byName[n].side == ClientRequired || byName[n].side == ClientOptional)
  }

  function SideOf(byName: Installs, n: string): Side {
    if n in byName then byName[n].side else Unknown
  }

  function KeyFor(byName: Installs, e: Entry): Key {
    Key(e.name, e.version, if e.name in byName then byName[e.name].source else "")
  }

  function DepsOf(byName: Installs, idx: Index, e: Entry): Option<seq<Dep>> {
    var k := KeyFor(byName, e);
    if k in idx.rows then Some(idx.rows[k]) else None
  }

  // ----- the walk as a value -----

  /** Dependency dep of package parent, read off the queue. */
  datatype Fact = Fact(parent: string, dep: Dep)

  /**
   The walk's state: included and conflicts are the code's. order lists included's names as they
   were added, told holds the dependencies read so far, undescribed the packages the index lacks,
   and done the packages whose dependencies have all been read.
   */
  datatype Walk = Walk(
    byName: Installs, idx: Index,
    included: map<string, Entry>, conflicts: seq<Conflict>,
    order: seq<string>, told: set<Fact>, undescribed: set<string>, done: set<string>)

  /** A dependency no export can include: one that does not parse, or a server-only package. */
  predicate Bad(byName: Installs, dep: Dep) {
    dep.Unreadable? || SideOf(byName, dep.name) == ServerOnly
  }

  /** The entry a dependency string adds: the installed version where there is one. */
  function EntryFor(byName: Installs, name: string, pinned: string): Entry {
    if name in byName then Entry(name, byName[name].version, byName[name].source, byName[name].side, Dependency)
    else Entry(name, pinned, "", Unknown, Dependency)
  }

  /** addDependency. */
  function Read(w: Walk, parent: string, dep: Dep): Walk {
    var w' := w.(told := w.told + {Fact(parent, dep)});
    if dep.Unreadable? then w'.(conflicts := w.conflicts + [Conflict(dep.raw, "", parent, Unknown)])
    else
      var e := EntryFor(w.byName, dep.name, dep.version);
      if e.side == ServerOnly then w'.(conflicts := w.conflicts + [Conflict(e.name, e.version, parent, e.side)])
      else if e.name in w.included then
        w'.(included := w.included[e.name := w.included[e.name].(reason := Dependency)])
      else w'.(included := w.included[e.name := e], order := w.order + [e.name])
  }

  /** A package the index cannot describe is a conflict of its own. */
  function Undescribed(w: Walk, parent: string): Walk
    requires parent in w.included
  {
    w.(conflicts := w.conflicts + [Conflict(parent, w.included[parent].version, parent, w.included[parent].side)],
       undescribed := w.undescribed + {parent}, done := w.done + {parent})
  }

  // ----- its invariant -----

  /** Included packages are never server-only, and are what the server runs where it has them. */
  ghost predicate Faithful(byName: Installs, included: map<string, Entry>) {
    forall n :: n in included ==>
      && included[n].name == n && included[n].side == SideOf(byName, n) && included[n].side != ServerOnly
      && (n in byName ==> included[n].version == byName[n].version && included[n].source == byName[n].source)
  }

  ghost predicate Ordered(w: Walk) {
    && (forall n :: n in w.order <==> n in w.included)
    && (forall i, j :: 0 <= i < j < |w.order| ==> w.order[i] != w.order[j])
    && (forall n :: Seed(w.byName, n) ==> n in w.included)
  }

  /** What was read is what the index says, and a done package was read whole. */
  ghost predicate Informed(w: Walk) {
    && (forall f :: f in w.told ==>
          f.parent in w.included && Describes(w.byName, w.idx, w.included[f.parent], f.dep))
    && (forall p :: p in w.undescribed ==> p in w.included && DepsOf(w.byName, w.idx, w.included[p]).None?)
    && (forall p :: p in w.done ==>
          p in w.included && ReadWhole(w, p) && KeyFor(w.byName, w.included[p]) !in w.idx.failing)
  }

  ghost predicate Describes(byName: Installs, idx: Index, e: Entry, dep: Dep) {
    DepsOf(byName, idx, e).Some? && dep in DepsOf(byName, idx, e).value
  }

  ghost predicate ReadWhole(w: Walk, p: string)
    requires p in w.included
  {
    match DepsOf(w.byName, w.idx, w.included[p])
    case None => p in w.undescribed
    case Some(deps) => forall d :: d in deps ==> Fact(p, d) in w.told
  }

  /** Every includable dependency read so far is included. */
  ghost predicate Closed(w: Walk) {
    forall f :: f in w.told && !Bad(w.byName, f.dep) ==> f.dep.name in w.included
  }

  ghost predicate Trouble(w: Walk, p: string) {
    p in w.undescribed || exists f :: f in w.told && f.parent == p && Bad(w.byName, f.dep)
  }

  ghost predicate Reported(w: Walk) {
    && (w.conflicts == [] ==> forall p :: !Trouble(w, p))
    && (forall c :: c in w.conflicts ==> Trouble(w, c.requiredBy))
  }

  ghost predicate Depended(w: Walk, n: string) {
    exists f :: f in w.told && f.dep.Readable? && f.dep.name == n
  }

  /** Still tagged: a seed nothing read so far depends on. */
  ghost predicate Reasoned(w: Walk) {
    forall n :: n in w.included ==>
      (w.included[n].reason == Tagged <==> Seed(w.byName, n) && !Depended(w, n))
  }

  /** Every included package is a seed or a dependency of one included before it. */
  ghost predicate Grounded(w: Walk) {
    forall i :: 0 <= i < |w.order| ==> Seed(w.byName, w.order[i]) || NamedBefore(w, i)
  }

  ghost predicate NamedBefore(w: Walk, i: nat)
    requires i < |w.order|
  {
    exists f :: f in w.told && f.dep.Readable? && f.dep.name == w.order[i] && f.parent in w.order[..i]
  }

  /** The conflict reported for dependency dep of parent: one that does not parse, or is installed server-only. */
  predicate Blames(byName: Installs, parent: string, dep: Dep, c: Conflict) {
    match dep
    case Unreadable(raw) => c == Conflict(raw, "", parent, Unknown)
    case Readable(n, _) =>
      n in byName && byName[n].side == ServerOnly && c == Conflict(n, byName[n].version, parent, ServerOnly)
  }

  /** The conflict of a package no row describes. */
  predicate LacksRow(included: map<string, Entry>, undescribed: set<string>, c: Conflict) {
    var n := c.name;
    n in undescribed && n in included && c == Conflict(n, included[n].version, n, included[n].side)
  }

  /** The conflicts are those of what was read, and no others. */
  ghost predicate Recorded(w: Walk) {
    forall c :: IsRecorded(w, c)
  }

  ghost predicate IsRecorded(w: Walk, c: Conflict) {
    c in w.conflicts <==> ToldBlame(w.byName, w.told, c) || LacksRow(w.included, w.undescribed, c)
  }

  ghost predicate ToldBlame(byName: Installs, told: set<Fact>, c: Conflict) {
    exists f :: f in told && Blames(byName, f.parent, f.dep, c)
  }

  ghost predicate ToldPin(told: set<Fact>, n: string, version: string) {
    exists f :: f in told && f.dep == Readable(n, version)
  }

  /** What the server does not run is listed at a version a dependency pins, with no source. */
  ghost predicate FromPins(w: Walk) {
    forall n :: IsFromPin(w, n)
  }

  ghost predicate IsFromPin(w: Walk, n: string) {
    n in w.included && n !in w.byName ==> w.included[n].source == "" && ToldPin(w.told, n, w.included[n].version)
  }

  ghost predicate Inv(w: Walk) {
    && Faithful(w.byName, w.included) && Ordered(w) && Informed(w)
    && Closed(w) && Reported(w) && Reasoned(w) && Grounded(w)
    && Recorded(w) && FromPins(w)
  }

  lemma {:induction false} ReadKeepsIncluded(w: Walk, parent: string, dep: Dep)
    requires Faithful(w.byName, w.included) && Ordered(w)
    ensures Faithful(w.byName, Read(w, parent, dep).included) && Ordered(Read(w, parent, dep))
  {
    ReadKeepsFaithful(w, parent, dep);
    ReadKeepsOrdered(w, parent, dep);
    hide Faithful, Ordered, Read;
  }

  lemma {:induction false} ReadKeepsFaithful(w: Walk, parent: string, dep: Dep)
    requires Faithful(w.byName, w.included)
    ensures Faithful(w.byName, Read(w, parent, dep).included)
  {
  }

  lemma {:induction false} ReadKeepsOrdered(w: Walk, parent: string, dep: Dep)
    requires Ordered(w)
    ensures Ordered(Read(w, parent, dep))
  {
    hide Seed, SideOf;
  }

  /** Reading a dependency leaves what the index says of an included package. */
  lemma {:induction false} ReadKeepsDeps(w: Walk, parent: string, dep: Dep, n: string)
    requires n in w.included && Faithful(w.byName, w.included)
    ensures n in Read(w, parent, dep).included
    ensures DepsOf(w.byName, w.idx, Read(w, parent, dep).included[n]) == DepsOf(w.byName, w.idx, w.included[n])
  {
  }

  lemma {:induction false} ReadKeepsInformed(w: Walk, parent: string, dep: Dep)
    requires Informed(w) && Faithful(w.byName, w.included)
    requires parent in w.included && Describes(w.byName, w.idx, w.included[parent], dep)
    ensures Informed(Read(w, parent, dep))
  {
    var w' := Read(w, parent, dep);
    forall f | f in w'.told
      ensures f.parent in w'.included && Describes(w.byName, w.idx, w'.included[f.parent], f.dep)
    {
      ReadKeepsDeps(w, parent, dep, f.parent);
    }
    forall p | p in w'.undescribed
      ensures p in w'.included && DepsOf(w.byName, w.idx, w'.included[p]).None?
    {
      ReadKeepsDeps(w, parent, dep, p);
    }
    forall p | p in w'.done ensures p in w'.included && ReadWhole(w', p) {
      ReadKeepsDeps(w, parent, dep, p);
      assert ReadWhole(w, p);
    }
  }

  lemma {:induction false} ReadKeepsReported(w: Walk, parent: string, dep: Dep)
    requires Closed(w) && Reported(w)
    ensures Closed(Read(w, parent, dep)) && Reported(Read(w, parent, dep))
  {
    var w' := Read(w, parent, dep);
    forall p | Trouble(w, p) ensures Trouble(w', p) {
    }
    if Bad(w.byName, dep) {
      assert Fact(parent, dep) in w'.told;
      assert |w'.conflicts| > 0;
    } else {
      forall p | Trouble(w', p) ensures Trouble(w, p) {
      }
    }
  }

  lemma {:induction false} ReadKeepsReasoned(w: Walk, parent: string, dep: Dep)
    requires Reasoned(w) && Faithful(w.byName, w.included)
    ensures Reasoned(Read(w, parent, dep))
  {
    var w' := Read(w, parent, dep);
    forall n | n in w'.included
      ensures w'.included[n].reason == Tagged <==> Seed(w'.byName, n) && !Depended(w', n)
    {
      if dep.Readable? && dep.name == n {
        assert Fact(parent, dep) in w'.told;
        assert Depended(w', n);
      } else {
        assert n in w.included && w'.included[n] == w.included[n];
        assert Depended(w', n) <==> Depended(w, n);
      }
    }
  }

  lemma {:induction false} ReadKeepsRecorded(w: Walk, parent: string, dep: Dep)
    requires Recorded(w) && w.undescribed <= w.included.Keys
    ensures Recorded(Read(w, parent, dep))
  {
    var w' := Read(w, parent, dep);
    forall c ensures IsRecorded(w', c) {
      assert IsRecorded(w, c);
      OneMoreBlame(w, parent, dep, c);
    }
  }

  lemma {:induction false} OneMoreBlame(w: Walk, parent: string, dep: Dep, c: Conflict)
    requires w.undescribed <= w.included.Keys
    ensures
      var w' := Read(w, parent, dep);
      && (c in w'.conflicts <==> c in w.conflicts || Blames(w.byName, parent, dep, c))
      && (ToldBlame(w.byName, w'.told, c) <==> ToldBlame(w.byName, w.told, c) || Blames(w.byName, parent, dep, c))
      && (LacksRow(w'.included, w'.undescribed, c) <==> LacksRow(w.included, w.undescribed, c))
      && w'.byName == w.byName
  {
    assert Fact(parent, dep) in Read(w, parent, dep).told;
  }

  lemma {:induction false} ReadKeepsPins(w: Walk, parent: string, dep: Dep)
    requires FromPins(w)
    ensures FromPins(Read(w, parent, dep))
  {
    var w' := Read(w, parent, dep);
    assert Fact(parent, dep) in w'.told;
    forall n ensures IsFromPin(w', n) { assert IsFromPin(w, n); }
  }

  lemma {:induction false} NamedBeforeStays(w: Walk, w': Walk, i: nat)
    requires i < |w.order| && w.order <= w'.order && w.told <= w'.told && NamedBefore(w, i)
    ensures NamedBefore(w', i)
  {
    var f :| f in w.told && f.dep.Readable? && f.dep.name == w.order[i] && f.parent in w.order[..i];
    assert w'.order[..i] == w.order[..i] && w'.order[i] == w.order[i];
    assert f in w'.told;
  }

  lemma {:induction false} NewNameIsNamed(w: Walk, w': Walk, parent: string, dep: Dep)
    requires dep.Readable? && w'.order == w.order + [dep.name] && Fact(parent, dep) in w'.told && parent in w.order
    ensures NamedBefore(w', |w.order|)
  {
    assert w'.order[..|w.order|] == w.order;
    assert w'.order[|w.order|] == dep.name;
  }

  lemma {:induction false} GroundedStep(w: Walk, w': Walk, parent: string, dep: Dep)
    requires Grounded(w) && parent in w.order && w'.byName == w.byName
    requires w'.told == w.told + {Fact(parent, dep)}
    requires w'.order == w.order || (dep.Readable? && w'.order == w.order + [dep.name])
    ensures Grounded(w')
  {
    forall i | 0 <= i < |w'.order| ensures Seed(w'.byName, w'.order[i]) || NamedBefore(w', i) {
      if i < |w.order| {
        if NamedBefore(w, i) { NamedBeforeStays(w, w', i); }
      } else {
        NewNameIsNamed(w, w', parent, dep);
      }
    }
  }

  lemma {:induction false} ReadAppends(w: Walk, parent: string, dep: Dep)
    ensures
      var w' := Read(w, parent, dep);
      && w'.byName == w.byName && w'.idx == w.idx && w'.told == w.told + {Fact(parent, dep)}
      && (w'.order == w.order || (dep.Readable? && w'.order == w.order + [dep.name]))
  {
  }

  lemma {:induction false} ReadKeepsInv(w: Walk, parent: string, dep: Dep)
    requires Inv(w) && parent in w.included && Describes(w.byName, w.idx, w.included[parent], dep)
    ensures Inv(Read(w, parent, dep))
  {
    var w' := Read(w, parent, dep);
    ReadKeepsIncluded(w, parent, dep);
    ReadKeepsInformed(w, parent, dep);
    ReadKeepsReported(w, parent, dep);
    ReadKeepsReasoned(w, parent, dep);
    ReadKeepsRecorded(w, parent, dep);
    ReadKeepsPins(w, parent, dep);
    ReadAppends(w, parent, dep);
    assert parent in w.order;
    hide Read, Faithful, Informed, Closed, Reported, Reasoned, Ordered, Grounded, Recorded, FromPins;
    GroundedStep(w, w', parent, dep);
  }

  /** Reasoned, Grounded and Closed speak only of what is included and what was told. */
  lemma {:induction false} SameToldSameClaims(w: Walk, w': Walk)
    requires w'.byName == w.byName && w'.included == w.included && w'.order == w.order && w'.told == w.told
    requires Closed(w) && Reasoned(w) && Grounded(w)
    ensures Closed(w') && Reasoned(w') && Grounded(w')
  {
    forall n ensures Depended(w', n) <==> Depended(w, n) {
    }
    forall i | 0 <= i < |w'.order| ensures Seed(w'.byName, w'.order[i]) || NamedBefore(w', i) {
      assert Seed(w.byName, w.order[i]) || NamedBefore(w, i);
    }
  }

  lemma {:induction false} UndescribedIsReported(w: Walk, p: string)
    requires Reported(w) && p in w.included
    ensures Reported(Undescribed(w, p))
  {
    var w' := Undescribed(w, p);
    assert Trouble(w', p) && |w'.conflicts| > 0;
    forall q | Trouble(w, q) ensures Trouble(w', q) {
    }
  }

  lemma {:induction false} UndescribedIsInformed(w: Walk, p: string)
    requires Informed(w) && p in w.included && DepsOf(w.byName, w.idx, w.included[p]).None?
    requires KeyFor(w.byName, w.included[p]) !in w.idx.failing
    ensures Informed(Undescribed(w, p))
  {
    var w' := Undescribed(w, p);
    forall q | q in w'.done ensures q in w'.included && ReadWhole(w', q) {
      if q != p { assert ReadWhole(w, q); }
    }
  }

  lemma {:induction false} SameRecords(w: Walk, w': Walk)
    requires w'.byName == w.byName && w'.included == w.included && w'.told == w.told
    ensures FromPins(w) ==> FromPins(w')
    ensures w'.conflicts == w.conflicts && w'.undescribed == w.undescribed && Recorded(w) ==> Recorded(w')
  {
    hide ToldBlame, ToldPin, LacksRow;
    if FromPins(w) {
      forall n ensures IsFromPin(w', n) { assert IsFromPin(w, n); }
    }
    if w'.conflicts == w.conflicts && w'.undescribed == w.undescribed && Recorded(w) {
      forall c ensures IsRecorded(w', c) { assert IsRecorded(w, c); }
    }
  }

  lemma {:induction false} UndescribedKeepsInv(w: Walk, p: string)
    requires Inv(w) && p in w.included && DepsOf(w.byName, w.idx, w.included[p]).None?
    requires KeyFor(w.byName, w.included[p]) !in w.idx.failing
    ensures Inv(Undescribed(w, p))
  {
    hide Faithful, Ordered, Informed, Closed, Reported, Reasoned, Grounded, Recorded, FromPins, Undescribed;
    var w' := Undescribed(w, p);
    UndescribedAdds(w, p);
    SameToldSameClaims(w, w');
    SameRecords(w, w');
    UndescribedIsReported(w, p);
    UndescribedIsInformed(w, p);
    UndescribedIsRecorded(w, p);
  }

  lemma {:induction false} UndescribedAdds(w: Walk, p: string)
    requires p in w.included
    ensures
      var w' := Undescribed(w, p);
      && w'.byName == w.byName && w'.included == w.included && w'.order == w.order && w'.told == w.told
      && (Ordered(w) ==> Ordered(w'))
  {
  }

  lemma {:induction false} UndescribedIsRecorded(w: Walk, p: string)
    requires Recorded(w) && p in w.included
    ensures Recorded(Undescribed(w, p))
  {
    hide ToldBlame;
    var w' := Undescribed(w, p);
    forall c ensures IsRecorded(w', c) { assert IsRecorded(w, c); }
  }

  lemma {:induction false} FinishKeepsInv(w: Walk, p: string)
    requires Inv(w) && p in w.included && ReadWhole(w, p) && KeyFor(w.byName, w.included[p]) !in w.idx.failing
    ensures Inv(w.(done := w.done + {p}))
  {
    hide Faithful, Ordered, Informed, Closed, Reported, Reasoned, Grounded, Recorded, FromPins;
    var w' := w.(done := w.done + {p});
    SameToldSameClaims(w, w');
    SameRecords(w, w');
    FinishIsInformed(w, p);
  }

  lemma {:induction false} FinishIsInformed(w: Walk, p: string)
    requires p in w.included && ReadWhole(w, p) && KeyFor(w.byName, w.included[p]) !in w.idx.failing
    ensures
      var w' := w.(done := w.done + {p});
      (Informed(w) ==> Informed(w')) && (Ordered(w) ==> Ordered(w')) && (Reported(w) ==> Reported(w'))
  {
    var w' := w.(done := w.done + {p});
    forall q | q in w.included ensures ReadWhole(w', q) <==> ReadWhole(w, q) {
    }
    forall q ensures Trouble(w', q) <==> Trouble(w, q) {
    }
  }

  // ----- what a finished walk is -----

  /** Nothing rules out exporting e whole: the index describes it and each dependency is includable. */
  ghost predicate Whole(byName: Installs, idx: Index, e: Entry) {
    DepsOf(byName, idx, e).Some? && forall d :: d in DepsOf(byName, idx, e).value ==> !Bad(byName, d)
  }

  /** A described included package other than a server-only one depends on n. */
  ghost predicate NeededBy(byName: Installs, idx: Index, included: map<string, Entry>, p: string, n: string) {
    p in included && exists d :: Describes(byName, idx, included[p], d) && d.Readable? && d.name == n
  }

  /** A set of names with every seed in it that includable dependencies never lead out of. */
  ghost predicate Closure(byName: Installs, idx: Index, included: map<string, Entry>, names: set<string>) {
    && (forall n :: Seed(byName, n) ==> n in names)
    && (forall p, d :: p in names && p in included && Describes(byName, idx, included[p], d) && !Bad(byName, d) ==>
          d.name in names)
  }

  /** What stands in the way of handing the packages to a client. */
  ghost predicate Conflicting(byName: Installs, idx: Index, included: map<string, Entry>, c: Conflict) {
    || BlamedBy(byName, idx, included, c)
    || (c.name in included && DepsOf(byName, idx, included[c.name]).None? && LacksRow(included, included.Keys, c))
  }

  ghost predicate BlamedBy(byName: Installs, idx: Index, included: map<string, Entry>, c: Conflict) {
    exists p, d :: p in included && Describes(byName, idx, included[p], d) && Blames(byName, p, d, c)
  }

  ghost predicate PinnedAt(byName: Installs, idx: Index, included: map<string, Entry>, n: string, version: string) {
    exists p :: p in included && Describes(byName, idx, included[p], Readable(n, version))
  }

  /** conflicts has c exactly when c stands in the way. */
  ghost predicate Tells(byName: Installs, idx: Index, included: map<string, Entry>, conflicts: seq<Conflict>,
        c: Conflict) {
    c in conflicts <==> Conflicting(byName, idx, included, c)
  }

  /** A package the server does not run is listed at a version an included one pins, with no source. */
  ghost predicate AsPinned(byName: Installs, idx: Index, included: map<string, Entry>, n: string) {
    n in included && n !in byName ==>
      included[n].source == "" && PinnedAt(byName, idx, included, n, included[n].version)
  }

  ghost predicate Exported(byName: Installs, idx: Index, included: map<string, Entry>, conflicts: seq<Conflict>) {
    && Faithful(byName, included)
    && Closure(byName, idx, included, included.Keys)
    && (forall names :: Closure(byName, idx, included, names) ==> included.Keys <= names)
    && (conflicts == [] <==> forall n :: n in included ==> Whole(byName, idx, included[n]))
    && (forall c :: Tells(byName, idx, included, conflicts, c))
    && (forall n :: n in included ==>
          (included[n].reason == Tagged <==>
           Seed(byName, n) && forall p :: !NeededBy(byName, idx, included, p, n)))
    && (forall n :: AsPinned(byName, idx, included, n))
    && (forall n :: n in included ==> KeyFor(byName, included[n]) !in idx.failing)
  }

  lemma {:induction false} GroundedIsLeast(w: Walk, names: set<string>, i: nat)
    requires Inv(w) && i < |w.order| && Closure(w.byName, w.idx, w.included, names)
    ensures w.order[i] in names
    decreases i
  {
    if !Seed(w.byName, w.order[i]) {
      assert NamedBefore(w, i);
      var f :| f in w.told && f.dep.Readable? && f.dep.name == w.order[i] && f.parent in w.order[..i];
      var k :| 0 <= k < i && w.order[k] == f.parent;
      GroundedIsLeast(w, names, k);
      assert w.order[i] in w.included && Describes(w.byName, w.idx, w.included[f.parent], f.dep);
    }
  }

  lemma {:induction false} FinishedConflicts(w: Walk)
    requires Inv(w) && w.done == w.included.Keys
    ensures w.conflicts == [] <==> forall n :: n in w.included ==> Whole(w.byName, w.idx, w.included[n])
  {
    forall n | n in w.included ensures Whole(w.byName, w.idx, w.included[n]) <==> !Trouble(w, n) {
      assert ReadWhole(w, n);
      if DepsOf(w.byName, w.idx, w.included[n]).Some? && Trouble(w, n) {
        var f :| f in w.told && f.parent == n && Bad(w.byName, f.dep);
        assert Describes(w.byName, w.idx, w.included[n], f.dep);
      }
    }
    if |w.conflicts| > 0 {
      var c := w.conflicts[0];
      assert c in w.conflicts && Trouble(w, c.requiredBy);
      assert c.requiredBy in w.included;
    }
  }

  lemma {:induction false} FinishedReasons(w: Walk, n: string)
    requires Inv(w) && w.done == w.included.Keys && n in w.included
    ensures Depended(w, n) <==> exists p :: NeededBy(w.byName, w.idx, w.included, p, n)
  {
    if Depended(w, n) {
      var f :| f in w.told && f.dep.Readable? && f.dep.name == n;
      assert Describes(w.byName, w.idx, w.included[f.parent], f.dep);
      assert NeededBy(w.byName, w.idx, w.included, f.parent, n);
    }
    if p :| NeededBy(w.byName, w.idx, w.included, p, n) {
      var d :| Describes(w.byName, w.idx, w.included[p], d) && d.Readable? && d.name == n;
      assert ReadWhole(w, p);
      assert Fact(p, d) in w.told;
    }
  }

  lemma {:induction false} FinishedConflict(w: Walk, c: Conflict)
    requires Inv(w) && w.done == w.included.Keys
    ensures Tells(w.byName, w.idx, w.included, w.conflicts, c)
  {
    hide Blames, Closed, Reasoned, Grounded, Reported, Ordered, Faithful, FromPins;
    assert IsRecorded(w, c);
    if ToldBlame(w.byName, w.told, c) {
      var f :| f in w.told && Blames(w.byName, f.parent, f.dep, c);
      assert Describes(w.byName, w.idx, w.included[f.parent], f.dep);
    }
    if BlamedBy(w.byName, w.idx, w.included, c) {
      var p, d :| p in w.included && Describes(w.byName, w.idx, w.included[p], d) && Blames(w.byName, p, d, c);
      assert ReadWhole(w, p);
      assert Fact(p, d) in w.told;
    }
    if c.name in w.included { assert ReadWhole(w, c.name); }
  }

  lemma {:induction false} FinishedPin(w: Walk, n: string)
    requires Inv(w) && w.done == w.included.Keys
    ensures AsPinned(w.byName, w.idx, w.included, n)
  {
    hide Blames, Closed, Reasoned, Grounded, Reported, Ordered, Faithful, Recorded;
    assert IsFromPin(w, n);
    if n in w.included && n !in w.byName {
      var f :| f in w.told && f.dep == Readable(n, w.included[n].version);
      assert Describes(w.byName, w.idx, w.included[f.parent], f.dep);
    }
  }

  /** A walk whose queue has run dry is the export: the least closed set, and told apart rightly. */
  lemma {:induction false} FinishedWalkIsExported(w: Walk)
    requires Inv(w) && w.done == w.included.Keys
    ensures Exported(w.byName, w.idx, w.included, w.conflicts)
  {
    FinishedConflicts(w);
    forall c ensures Tells(w.byName, w.idx, w.included, w.conflicts, c) { FinishedConflict(w, c); }
    forall n ensures AsPinned(w.byName, w.idx, w.included, n) { FinishedPin(w, n); }
    forall n | n in w.included
      ensures w.included[n].reason == Tagged <==>
                Seed(w.byName, n) && forall p :: !NeededBy(w.byName, w.idx, w.included, p, n)
    {
      FinishedReasons(w, n);
    }
    forall p, d | p in w.included && Describes(w.byName, w.idx, w.included[p], d) && !Bad(w.byName, d)
      ensures d.name in w.included
    {
      assert ReadWhole(w, p);
      assert Fact(p, d) in w.told;
    }
    forall names | Closure(w.byName, w.idx, w.included, names) ensures w.included.Keys <= names {
      forall n | n in w.included ensures n in names {
        assert n in w.order;
        var i :| 0 <= i < |w.order| && w.order[i] == n;
        GroundedIsLeast(w, names, i);
      }
    }
  }

  /** What players need from the start: enabled, and tagged for the client. */
  predicate ForClients(mod: Installed) { mod.enabled && mod.side in {ClientRequired, ClientOptional} }

  /**
   What an export is, in terms of the rows: every enabled mod tagged for the client; every dependency its packages
   pin in the registry they were installed from, but for server-only ones; each at the version the server
   runs; and nothing at all where nothing is tagged.
  */
  lemma {:induction false} ExportSays(byName: Installs, idx: Index, included: map<string, Entry>,
        conflicts: seq<Conflict>, n: string)
    requires Exported(byName, idx, included, conflicts)
    ensures n in byName && ForClients(byName[n]) ==> n in included
    ensures n in included && included[n].reason == Tagged ==> n in byName && ForClients(byName[n])
    ensures n in included && n in byName ==>
              && included[n].version == byName[n].version && included[n].source == byName[n].source
              && included[n].side == byName[n].side && byName[n].side != ServerOnly
    ensures (forall m :: m in byName ==> !ForClients(byName[m])) ==> included == map[]
    ensures n in included ==>
              var k := Key(n, included[n].version, if n in byName then byName[n].source else "");
              && k !in idx.failing
              && (k in idx.rows ==>
                    forall m, v :: Readable(m, v) in idx.rows[k] && !(m in byName && byName[m].side == ServerOnly) ==>
                      m in included && included[m].reason == Dependency)
  {
    if n in included {
      var k := KeyFor(byName, included[n]);
      if k in idx.rows {
        forall m, v | Readable(m, v) in idx.rows[k] && !(m in byName && byName[m].side == ServerOnly)
          ensures m in included && included[m].reason == Dependency
        {
          PinIsIncluded(byName, idx, included, conflicts, n, Readable(m, v));
        }
      }
    }
    if forall m :: m in byName ==> !ForClients(byName[m]) { NothingTagged(byName, idx, included, conflicts); }
  }

  lemma {:induction false} PinIsIncluded(byName: Installs, idx: Index, included: map<string, Entry>,
        conflicts: seq<Conflict>, p: string, d: Dep)
    requires Exported(byName, idx, included, conflicts) && p in included && Describes(byName, idx, included[p], d)
    requires d.Readable? && !Bad(byName, d)
    ensures d.name in included && included[d.name].reason == Dependency
  {
    hide Describes, AsPinned, Tells;
    assert NeededBy(byName, idx, included, p, d.name);
  }

  lemma {:induction false} NothingTagged(byName: Installs, idx: Index, included: map<string, Entry>,
        conflicts: seq<Conflict>)
    requires Exported(byName, idx, included, conflicts) && forall m :: m in byName ==> !ForClients(byName[m])
    ensures included == map[]
  {
    hide Describes, AsPinned, Tells;
    assert Closure(byName, idx, included, {});
  }
}
