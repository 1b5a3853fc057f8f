/**
 buildExport and walkClosure as they run: a queue drained while the shared map of included entries
 grows under it. The ghost field `walk` ties the fields to the value module ClientExport reasons about.
*/
module ClientProfile {
  import opened Optional
  import opened Text
  import opened ClientExport

  /** Why an installed mod is left out: its side tag, or that it is disabled. */
  datatype ExclusionReason = ByTag(side: Side) | Disabled

  datatype Excluded = Excluded(name: string, version: string, source: string, side: Side, reason: ExclusionReason)

  datatype Preview = Preview(mods: seq<Entry>, excluded: seq<Excluded>, conflicts: seq<Conflict>)

  /** Every name the walk can meet. */
  ghost function AllNames(byName: Installs, idx: Index): set<string> {
    byName.Keys + set k, i | k in idx.rows && 0 <= i < |idx.rows[k]| && idx.rows[k][i].Readable? :: idx.rows[k][i].name
  }

  class Exporter {
    const byName: Installs
    const idx: Index
    var included: map<string, Entry>
    var queue: seq<string>
    var conflicts: seq<Conflict>
    ghost var taken: seq<string>
    ghost var walk: Walk

    /** The fields are the walk's, and its order is what was taken and what still queues. */
    ghost predicate Mirrors()
      reads this
    {
      && walk.byName == byName && walk.idx == idx
      && walk.included == included && walk.conflicts == conflicts
      && walk.order == taken + queue
    }

    /** Between two packages: the walk's invariant, with exactly the taken packages done. */
    ghost predicate Valid()
      reads this
    {
      Mirrors() && Inv(walk) && walk.done == Members(taken) && included.Keys <= AllNames(byName, idx)
    }

    constructor (byName: Installs, idx: Index)
      ensures this.byName == byName && this.idx == idx
      ensures included == map[] && queue == [] && conflicts == [] && taken == []
      ensures walk == Walk(byName, idx, map[], [], [], {}, {}, {})
    {
      this.byName, this.idx := byName, idx;
      included, queue, conflicts, taken := map[], [], [], [];
      walk := Walk(byName, idx, map[], [], [], {}, {}, {});
    }

    /** The seeded state walkClosure starts from. */
    method Seed(seeds: map<string, Entry>, names: seq<string>)
      requires Mirrors() && taken == [] && included == map[] && queue == [] && conflicts == []
      requires Faithful(byName, seeds)
      requires forall n :: n in seeds <==> ClientExport.Seed(byName, n)
      requires forall n :: n in seeds ==> seeds[n].reason == Tagged
      requires forall n :: n in names <==> n in seeds
      requires forall i, j :: 0 <= i < j < |names| ==> names[i] != names[j]
      modifies this
      ensures Valid() && taken == []
    {
      included, queue := seeds, names;
      walk := Walk(byName, idx, seeds, [], names, {}, {}, {});
      SeedsKeepInv(walk);
      assert names == taken + names;
    }

    /** addDependency: the conflict the dependency is, or the name it adds to included. */
    method AddDependency(parent: string, dep: Dep)
      requires Mirrors()
      modifies this
      ensures Mirrors() && walk == Read(old(walk), parent, dep) && taken == old(taken)
      ensures included.Keys <= old(included).Keys + (if dep.Readable? then {dep.name} else {})
      ensures old(included).Keys <= included.Keys
      ensures included.Keys == old(included).Keys ==> queue == old(queue)
    {
      walk := Read(walk, parent, dep);
      if dep.Unreadable? {
        conflicts := conflicts + [Conflict(dep.raw, "", parent, Unknown)];
        return;
      }
      var name, version, side, source := dep.name, dep.version, Unknown, "";
      if name in byName {
        version, side, source := byName[name].version, byName[name].side, byName[name].source;
      }
      if side == ServerOnly {
        conflicts := conflicts + [Conflict(name, version, parent, side)];
        return;
      }
      if name in included {
        var entry := included[name];
        if entry.reason == Tagged {
          included := included[name := entry.(reason := Dependency)];
        } else {
          assert entry.(reason := Dependency) == entry;
          assert included[name := entry] == included;
        }
        return;
      }
      included := included[name := Entry(name, version, source, side, Dependency)];
      queue := queue + [name];
      assert walk.order == taken + queue;
    }

    /** The dependencies of one package taken off the queue. */
    method ReadPackage(parent: string, deps: seq<Dep>)
      requires Mirrors() && Inv(walk) && included.Keys <= AllNames(byName, idx)
      requires parent in included && DepsOf(byName, idx, included[parent]) == Some(deps)
      requires KeyFor(byName, included[parent]) !in idx.failing
      modifies this
      ensures Mirrors() && Inv(walk) && included.Keys <= AllNames(byName, idx)
      ensures walk.done == old(walk).done + {parent} && taken == old(taken)
      ensures old(included).Keys <= included.Keys
      ensures included.Keys == old(included).Keys ==> queue == old(queue)
    {
      hide Inv;
      hide Read;
      for i := 0 to |deps|
        invariant Mirrors() && Inv(walk) && included.Keys <= AllNames(byName, idx)
        invariant parent in included && DepsOf(byName, idx, included[parent]) == Some(deps)
        invariant KeyFor(byName, included[parent]) !in idx.failing
        invariant walk.done == old(walk).done && taken == old(taken)
        invariant old(included).Keys <= included.Keys
        invariant included.Keys == old(included).Keys ==> queue == old(queue)
        invariant forall j :: 0 <= j < i ==> Fact(parent, deps[j]) in walk.told
      {
        Reading(walk, parent, deps, i);
        AddDependency(parent, deps[i]);
      }
      Finished(walk, parent, deps);
      walk := walk.(done := walk.done + {parent});
    }

    /** An included package's row could not be read. */
    ghost predicate LookupFails()
      reads this
    {
      exists n :: n in included && KeyFor(byName, included[n]) in idx.failing
    }

    /** walkClosure: drain the queue; false when the index could not be read. */
    method WalkClosure() returns (ok: bool)
      requires Valid() && taken == []
      modifies this
      ensures Valid()
      ensures ok ==> queue == [] && Exported(byName, idx, included, conflicts)
      ensures !ok ==> LookupFails()
    {
      hide Inv, Exported, AllNames;
      while queue != []
        invariant Valid()
        decreases AllNames(byName, idx) - included.Keys, |queue|
      {
        ok := NextPackage();
        if !ok { return; }
      }
      DoneIsIncluded(walk, taken);
      FinishedWalkIsExported(walk);
      return true;
    }

    /** One turn of the loop: the head of the queue, its row, and each of its dependencies. */
    method NextPackage() returns (ok: bool)
      requires Valid() && queue != []
      modifies this
      ensures Valid()
      ensures old(included).Keys <= included.Keys
      ensures ok && included.Keys == old(included).Keys ==> queue == old(queue)[1..]
      ensures !ok ==> LookupFails()
    {
      hide Inv, AllNames;
      var parent := queue[0];
      HeadIsIncluded(walk, taken, queue);
      var key := KeyFor(byName, included[parent]);
      if key in idx.failing {
        return false;
      }
      ExtendDone(taken, parent);
      Regroup(taken, queue);
      taken, queue := taken + [parent], queue[1..];
      if key !in idx.rows {
        ReportUndescribed(parent);
        return true;
      }
      ReadPackage(parent, idx.rows[key]);
      return true;
    }

    method ReportUndescribed(parent: string)
      requires Mirrors() && Inv(walk) && parent in included && DepsOf(byName, idx, included[parent]).None?
      requires KeyFor(byName, included[parent]) !in idx.failing
      modifies this
      ensures Mirrors() && Inv(walk) && walk.done == old(walk).done + {parent}
      ensures included == old(included) && queue == old(queue) && taken == old(taken)
    {
      hide Inv;
      UndescribedKeepsInv(walk, parent);
      walk := Undescribed(walk, parent);
      var entry := included[parent];
      conflicts := conflicts + [Conflict(parent, entry.version, parent, entry.side)];
    }
  }

  ghost function Members(names: seq<string>): set<string> { set n | n in names }

  lemma {:induction false} ExtendDone(taken: seq<string>, parent: string)
    ensures Members(taken + [parent]) == Members(taken) + {parent}
  {
  }

  lemma {:induction false} Regroup(taken: seq<string>, queue: seq<string>)
    requires queue != []
    ensures taken + queue == taken + [queue[0]] + queue[1..]
  {
  }

  lemma {:induction false} HeadIsIncluded(w: Walk, taken: seq<string>, queue: seq<string>)
    requires Inv(w) && w.order == taken + queue && queue != []
    ensures queue[0] in w.included
  {
    assert queue[0] in w.order;
  }

  lemma {:induction false} DoneIsIncluded(w: Walk, taken: seq<string>)
    requires Inv(w) && w.order == taken + [] && w.done == Members(taken)
    ensures w.done == w.included.Keys
  {
    assert w.order == taken;
  }


  lemma {:induction false} Reading(w: Walk, parent: string, deps: seq<Dep>, i: nat)
    requires Inv(w) && parent in w.included && DepsOf(w.byName, w.idx, w.included[parent]) == Some(deps) && i < |deps|
    ensures Inv(Read(w, parent, deps[i]))
    ensures Progress(w, Read(w, parent, deps[i]), parent, deps, deps[i])
    ensures deps[i].Readable? ==> deps[i].name in AllNames(w.byName, w.idx)
  {
    IncludedIsFaithful(w);
    ReadingProgresses(w, parent, deps, i);
    hide Inv;
    ReadKeepsInv(w, parent, deps[i]);
  }

  lemma {:induction false} IncludedIsFaithful(w: Walk)
    requires Inv(w)
    ensures Faithful(w.byName, w.included)
  {
  }

  ghost predicate Progress(w: Walk, w': Walk, parent: string, deps: seq<Dep>, dep: Dep) {
    && parent in w'.included && DepsOf(w.byName, w.idx, w'.included[parent]) == Some(deps)
    && Fact(parent, dep) in w'.told && w.told <= w'.told && w'.done == w.done
    && (parent in w.included ==> KeyFor(w.byName, w'.included[parent]) == KeyFor(w.byName, w.included[parent]))
  }

  lemma {:induction false} ReadingProgresses(w: Walk, parent: string, deps: seq<Dep>, i: nat)
    requires Faithful(w.byName, w.included)
    requires parent in w.included && DepsOf(w.byName, w.idx, w.included[parent]) == Some(deps) && i < |deps|
    ensures Progress(w, Read(w, parent, deps[i]), parent, deps, deps[i])
    ensures deps[i].Readable? ==> deps[i].name in AllNames(w.byName, w.idx)
  {
    ReadKeepsDeps(w, parent, deps[i], parent);
    if deps[i].Readable? { DepNameIsKnown(w.byName, w.idx, w.included[parent], deps[i]); }
  }

  lemma {:induction false} Finished(w: Walk, parent: string, deps: seq<Dep>)
    requires Inv(w) && parent in w.included && DepsOf(w.byName, w.idx, w.included[parent]) == Some(deps)
    requires forall j :: 0 <= j < |deps| ==> Fact(parent, deps[j]) in w.told
    requires KeyFor(w.byName, w.included[parent]) !in w.idx.failing
    ensures Inv(w.(done := w.done + {parent}))
  {
    FinishKeepsInv(w, parent);
  }

  lemma {:induction false} DepNameIsKnown(byName: Installs, idx: Index, e: Entry, dep: Dep)
    requires Describes(byName, idx, e, dep) && dep.Readable?
    ensures dep.name in AllNames(byName, idx)
  {
    var k := KeyFor(byName, e);
    var i :| 0 <= i < |idx.rows[k]| && idx.rows[k][i] == dep;
    assert idx.rows[k][i].name == dep.name;
  }

  // ----- buildExport -----

  ghost predicate UniqueInstalled(installed: seq<Installed>) {
    forall i, j :: 0 <= i < j < |installed| ==> installed[i].name != installed[j].name
  }

  ghost predicate Indexes(byName: Installs, installed: seq<Installed>) {
    && (forall i :: 0 <= i < |installed| ==> installed[i].name in byName && byName[installed[i].name] == installed[i])
    && (forall n :: n in byName ==> byName[n] in installed && byName[n].name == n)
  }

  /** The included entries by name, as the sorted preview lists them. */
  ghost predicate Lists(mods: seq<Entry>, included: map<string, Entry>) {
    && |mods| == |Sorted(included.Keys)|
    && forall i :: 0 <= i < |mods| ==> mods[i] == included[Sorted(included.Keys)[i]]
  }

  function ExcludedAs(mod: Installed): Excluded {
    Excluded(mod.name, mod.version, mod.source, mod.side, if mod.enabled then ByTag(mod.side) else Disabled)
  }

  /** The installed mods left out, in table order, each with why. */
  ghost function LeftOut(installed: seq<Installed>, included: map<string, Entry>): seq<Excluded> {
    if installed == [] then []
    else (if installed[0].name in included then [] else [ExcludedAs(installed[0])]) + LeftOut(installed[1..], included)
  }

  lemma {:induction false} LeftOutAppend(installed: seq<Installed>, mod: Installed, included: map<string, Entry>)
    ensures LeftOut(installed + [mod], included)
            == LeftOut(installed, included) + (if mod.name in included then [] else [ExcludedAs(mod)])
  {
    if installed == [] {
      assert installed + [mod] == [mod];
    } else {
      LeftOutAppend(installed[1..], mod, included);
      assert (installed + [mod])[1..] == installed[1..] + [mod];
    }
  }

  ghost predicate Excludes(excluded: seq<Excluded>, n: string) {
    exists j :: 0 <= j < |excluded| && excluded[j].name == n
  }

  ghost predicate HasName(installed: seq<Installed>, n: string) {
    exists k :: 0 <= k < |installed| && installed[k].name == n
  }

  lemma {:induction false} LeftOutNames(installed: seq<Installed>, included: map<string, Entry>, n: string)
    ensures Excludes(LeftOut(installed, included), n) <==> n !in included && HasName(installed, n)
  {
    if installed != [] {
      var head := if installed[0].name in included then [] else [ExcludedAs(installed[0])];
      var rest := LeftOut(installed[1..], included);
      LeftOutNames(installed[1..], included, n);
      assert LeftOut(installed, included) == head + rest;
      assert Excludes(head + rest, n) <==> Excludes(head, n) || Excludes(rest, n) by {
        if j :| 0 <= j < |rest| && rest[j].name == n { assert (head + rest)[|head| + j].name == n; }
        if j :| 0 <= j < |head| && head[j].name == n { assert (head + rest)[j].name == n; }
      }
      assert Excludes(head, n) <==> installed[0].name == n && n !in included by {
        if installed[0].name == n && n !in included { assert head[0].name == n; }
      }
      assert HasName(installed, n) <==> installed[0].name == n || HasName(installed[1..], n) by {
        if k :| 0 <= k < |installed[1..]| && installed[1..][k].name == n { assert installed[k + 1].name == n; }
        if k :| 0 < k < |installed| && installed[k].name == n { assert installed[1..][k - 1].name == n; }
      }
    }
  }

  /** A mod left out is listed as it is installed, as disabled where it is and by its tag otherwise. */
  lemma {:induction false} LeftOutSays(installed: seq<Installed>, included: map<string, Entry>, x: Excluded)
    ensures x in LeftOut(installed, included) <==>
              exists k :: 0 <= k < |installed| && installed[k].name !in included && IsExcluded(installed[k], x)
  {
    if installed != [] {
      LeftOutSays(installed[1..], included, x);
      if k :| 0 <= k < |installed[1..]| && installed[1..][k].name !in included && IsExcluded(installed[1..][k], x) {
        assert installed[k + 1] == installed[1..][k];
      }
      if k :| 0 < k < |installed| && installed[k].name !in included && IsExcluded(installed[k], x) {
        assert installed[1..][k - 1] == installed[k];
      }
      assert x == ExcludedAs(installed[0]) <==> IsExcluded(installed[0], x);
    }
  }

  predicate IsExcluded(mod: Installed, x: Excluded) {
    && x.name == mod.name && x.version == mod.version && x.source == mod.source && x.side == mod.side
    && (if mod.enabled then x.reason == ByTag(mod.side) else x.reason == Disabled)
  }

  /** The preview splits the installed mods exactly: each is exported or left out, never both. */
  lemma {:induction false} PreviewSplits(installed: seq<Installed>, included: map<string, Entry>, mods: seq<Entry>,
        k: nat)
    requires k < |installed| && Lists(mods, included) && forall n :: n in included ==> included[n].name == n
    ensures (exists i :: 0 <= i < |mods| && mods[i].name == installed[k].name)
            <==> !Excludes(LeftOut(installed, included), installed[k].name)
  {
    var n := installed[k].name;
    LeftOutNames(installed, included, n);
    assert HasName(installed, n);
    if n in included {
      assert n in Sorted(included.Keys);
      var i :| 0 <= i < |mods| && Sorted(included.Keys)[i] == n;
      assert mods[i].name == n;
    } else {
      forall i | 0 <= i < |mods| ensures mods[i].name != n {
        assert Sorted(included.Keys)[i] in included.Keys;
      }
    }
  }

  /** Before the first package is read the walk holds the seeds, each tagged. */
  lemma {:induction false} SeedsKeepInv(w: Walk)
    requires Faithful(w.byName, w.included) && Ordered(w)
    requires forall n :: n in w.included ==> Seed(w.byName, n) && w.included[n].reason == Tagged
    requires w.conflicts == [] && w.told == {} && w.undescribed == {} && w.done == {}
    ensures Inv(w)
  {
    forall i | 0 <= i < |w.order| ensures Seed(w.byName, w.order[i]) {
      assert w.order[i] in w.order;
    }
  }

  method IndexByName(installed: seq<Installed>) returns (byName: Installs)
    requires UniqueInstalled(installed)
    ensures Indexes(byName, installed)
  {
    byName := map[];
    for i := 0 to |installed|
      invariant forall j :: 0 <= j < i ==> installed[j].name in byName && byName[installed[j].name] == installed[j]
      invariant forall n :: n in byName ==> byName[n] in installed && byName[n].name == n
    {
      byName := byName[installed[i].name := installed[i]];
    }
  }

  /** The tagged seed, queued in table order. */
  method SeedEntries(installed: seq<Installed>, byName: Installs)
    returns (included: map<string, Entry>, queue: seq<string>)
    requires UniqueInstalled(installed) && Indexes(byName, installed)
    ensures Faithful(byName, included)
    ensures forall n :: n in included <==> Seed(byName, n)
    ensures forall n :: n in included ==> included[n].reason == Tagged
    ensures forall n :: n in queue <==> n in included
    ensures forall i, j :: 0 <= i < j < |queue| ==> queue[i] != queue[j]
  {
    included, queue := map[], [];
    for i := 0 to |installed|
      invariant Faithful(byName, included)
      invariant forall n :: n in included ==> Seed(byName, n) && included[n].reason == Tagged
      invariant forall n :: n in included ==> exists j :: 0 <= j < i && installed[j].name == n
      invariant forall j :: 0 <= j < i && Seed(byName, installed[j].name) ==> installed[j].name in included
      invariant forall n :: n in queue <==> n in included
      invariant forall j, k :: 0 <= j < k < |queue| ==> queue[j] != queue[k]
    {
      var mod := installed[i];
      if mod.enabled && (mod.side == ClientRequired || mod.side == ClientOptional) {
        assert mod.name !in included && mod.name !in queue;
        included := included[mod.name := Entry(mod.name, mod.version, mod.source, mod.side, Tagged)];
        queue := queue + [mod.name];
      }
    }
    forall n | Seed(byName, n) ensures n in included {
      var j :| 0 <= j < |installed| && installed[j] == byName[n];
    }
  }

  /** The row of a package the walk included could not be read. */
  ghost predicate MeetsFailure(w: Walk) {
    exists n :: n in w.included && KeyFor(w.byName, w.included[n]) in w.idx.failing
  }

  /** buildExport: false when the index could not be read. */
  method BuildExport(installed: seq<Installed>, idx: Index) returns (ok: bool, preview: Preview)
    requires UniqueInstalled(installed)
    ensures idx.failing == {} ==> ok
    ensures !ok ==> exists w: Walk :: Indexes(w.byName, installed) && w.idx == idx && Inv(w) && MeetsFailure(w)
    ensures ok ==> exists byName, included ::
              && Indexes(byName, installed) && Exported(byName, idx, included, preview.conflicts)
              && Lists(preview.mods, included) && preview.excluded == LeftOut(installed, included)
  {
    var byName := IndexByName(installed);
    var e := new Exporter(byName, idx);
    preview := Preview([], [], []);
    var included, queue := SeedEntries(installed, byName);
    e.Seed(included, queue);
    ok := e.WalkClosure();
    if !ok {
      assert MeetsFailure(e.walk);
      return;
    }
    var mods := ListEntries(e.included);
    var excluded := ListExcluded(installed, e.included);
    preview := Preview(mods, excluded, e.conflicts);
    hide Exported;
    assert Exported(byName, idx, e.included, preview.conflicts);
  }

  method ListEntries(included: map<string, Entry>) returns (mods: seq<Entry>)
    ensures Lists(mods, included)
  {
    var names := Sorted(included.Keys);
    mods := [];
    for i := 0 to |names|
      invariant |mods| == i && forall j :: 0 <= j < i ==> mods[j] == included[names[j]]
    {
      mods := mods + [included[names[i]]];
    }
  }

  method ListExcluded(installed: seq<Installed>, included: map<string, Entry>) returns (excluded: seq<Excluded>)
    ensures excluded == LeftOut(installed, included)
  {
    excluded := [];
    for i := 0 to |installed|
      invariant excluded == LeftOut(installed[..i], included)
    {
      assert installed[..i + 1] == installed[..i] + [installed[i]];
      LeftOutAppend(installed[..i], installed[i], included);
      if installed[i].name !in included {
        excluded := excluded + [ExcludedAs(installed[i])];
      }
    }
    assert installed[..|installed|] == installed;
  }
}
