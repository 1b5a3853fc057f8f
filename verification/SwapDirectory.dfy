/**
 The same swap as code that mutates a directory: internal/backup/restore.go's functions over the
 four names, every filesystem call of which may fail or be the last one before a crash. The ghost
 field `run` records the calls as steps of WorldSwap's transition system, so a contract holds of
 the state any interruption leaves, and the claims about runs are claims about this class.
*/
module SwapDirectory {
  import opened Optional
  import opened Text
  import opened Worlds
  import opened WorldSwap

  /** RecoverSwapKeeping's report of what it did. */
  datatype Action =
    | NothingInProgress
    | CompletedSwapped
    | DiscardedUnstarted
    | CompletedInterrupted
    | DiscardedUnfinished
    | DiscardedAndPutBack
    | Reversed

  function ActionFor(fs: Files): Action {
    match RecoveryEntry(fs)
    case Carrying => CompletedSwapped
    case Publish => CompletedInterrupted
    case Withdraw(Restore) => if fs.aside.Some? then DiscardedAndPutBack else DiscardedUnfinished
    case PutBack => Reversed
    case _ => if fs.aside.None? && fs.staged.None? then NothingInProgress else DiscardedUnstarted
  }

  /** Each report names one state of the three trees and the marker, and says where the world came from. */
  lemma {:induction false} ReportIsExact(fs: Files, keep: string -> bool)
    ensures
      var a, live := ActionFor(fs), Recovered(fs, keep).live;
      && (a == NothingInProgress <==> fs.aside.None? && fs.staged.None?)
      && (a == CompletedSwapped <==> fs.live.Some? && fs.aside.Some?)
      && (a == DiscardedUnstarted <==> fs.live.Some? && fs.aside.None? && fs.staged.Some?)
      && (a == CompletedInterrupted <==> fs.live.None? && fs.staged.Some? && fs.marker)
      && (a == DiscardedUnfinished <==> fs.live.None? && fs.aside.None? && fs.staged.Some? && !fs.marker)
      && (a == DiscardedAndPutBack <==> fs.live.None? && fs.aside.Some? && fs.staged.Some? && !fs.marker)
      && (a == Reversed <==> fs.live.None? && fs.aside.Some? && fs.staged.None?)
      && (a == CompletedInterrupted ==> live.Some? && Within(fs.staged.value, live.value))
      && (a == DiscardedAndPutBack || a == Reversed ==> live == fs.aside)
      && (a in {NothingInProgress, DiscardedUnstarted, DiscardedUnfinished} ==> live == fs.live)
  {
  }

  /** carryOver's loop as a fold over the listing. */
  ghost function Sweep(fs: Files, keep: string -> bool, names: seq<string>): Files
    decreases |names|
  {
    if names == [] then fs
    else Sweep(if Carries(fs, keep, names[0]) then Moved(fs, names[0]) else fs, keep, names[1..])
  }

  lemma {:induction false} SweepStep(fs: Files, keep: string -> bool, names: seq<string>)
    requires fs.live.Some? && fs.aside.Some?
    ensures
      var r := Sweep(fs, keep, names);
      && r.live.Some? && r.aside.Some? && r.staged == fs.staged && r.marker == fs.marker
      && (forall n :: n in r.live.value <==>
            n in fs.live.value || (n in names && n in fs.aside.value && keep(n)))
      && (forall n :: n in r.live.value ==>
            r.live.value[n] == if n in fs.live.value then fs.live.value[n] else fs.aside.value[n])
      && Within(r.aside.value, fs.aside.value)
    decreases |names|
  {
    if names != [] {
      SweepStep(if Carries(fs, keep, names[0]) then Moved(fs, names[0]) else fs, keep, names[1..]);
    }
  }

  /** One turn of the loop. */
  lemma {:induction false} SweepNext(fs: Files, keep: string -> bool, names: seq<string>, i: nat)
    requires i < |names|
    ensures
      Sweep(fs, keep, names[i..])
      == Sweep(if Carries(fs, keep, names[i]) then Moved(fs, names[i]) else fs, keep, names[i + 1..])
  {
    hide Carries, Moved;
    assert names[i..][1..] == names[i + 1..] && names[i..][0] == names[i];
  }

  lemma {:induction false} SweepEnds(fs: Files, keep: string -> bool, names: seq<string>)
    ensures Sweep(fs, keep, names[|names|..]) == fs && names[0..] == names
  {
  }

  /** Sweeping a whole listing carries everything keep selects and leaves nothing to carry. */
  lemma {:induction false} SweepCarries(fs: Files, keep: string -> bool, names: seq<string>)
    requires fs.live.Some? && fs.aside.Some?
    requires forall n :: n in fs.aside.value ==> n in names
    ensures
      var r := Sweep(fs, keep, names);
      && r.live == Some(Carried(fs.live.value, fs.aside.value, keep))
      && r.aside.Some? && r.staged == fs.staged && r.marker == fs.marker
      && forall n :: !Carries(r, keep, n)
  {
    SweepStep(fs, keep, names);
    var r := Sweep(fs, keep, names);
    assert r.live.value == Carried(fs.live.value, fs.aside.value, keep);
  }

  /** The entries of world named by names, written into t in that order. */
  ghost function Overlay(t: Tree, world: Tree, names: seq<string>): Tree
    requires forall n :: n in names ==> n in world
    decreases |names|
  {
    if names == [] then t else Overlay(t[names[0] := world[names[0]]], world, names[1..])
  }

  lemma {:induction false} OverlayCopies(t: Tree, world: Tree, names: seq<string>)
    requires Within(t, world)
    requires forall n :: n in names ==> n in world
    requires forall n :: n in world ==> n in t || n in names
    ensures Overlay(t, world, names) == world
    decreases |names|
  {
    if names == [] {
      assert t == world;
    } else {
      OverlayCopies(t[names[0] := world[names[0]]], world, names[1..]);
    }
  }

  class Directory {
    var live: Option<Tree>
    var aside: Option<Tree>
    var staged: Option<Tree>
    var marker: bool
    const keep: string -> bool
    var failed: bool   // a filesystem call failed, or the process died before it
    ghost var run: seq<Machine>

    function Disk(): Files
      reads this
    {
      Files(live, aside, staged, marker)
    }

    ghost predicate Valid()
      reads this
    {
      IsTrace(run, keep) && run[|run| - 1].fs == Disk()
    }

    ghost function Now(): Machine
      requires |run| > 0
      reads this
    {
      run[|run| - 1]
    }

    twostate predicate Continues()
      reads this
    {
      old(run) <= run
    }

    /** A method gives up only where a call failed, or where it refuses what it finds. */
    twostate predicate GivesUp(ok: bool, refused: bool)
      reads this
    {
      if ok then failed == old(failed) && !refused else failed || refused
    }

    constructor (world: Option<Tree>, keep: string -> bool)
      ensures Valid() && IsRun(run, this.keep) && Now().pc == Resting
      ensures Disk() == Files(world, None, None, false) && this.keep == keep
    {
      live, aside, staged, marker, failed := world, None, None, false, false;
      this.keep := keep;
      run := [Machine(Files(world, None, None, false), Resting, world, OrEmpty(world), {OrEmpty(world)}, map[],
            map[], 0, false)];
    }

    /** Whether the next filesystem call fails, or never happens because the process is gone. */
    method Interrupted() returns (cut: bool)
      modifies this`failed
      ensures failed == (old(failed) || cut)
    {
      cut := *;
      failed := failed || cut;
    }

    ghost method Step(m: Machine)
      requires IsTrace(run, keep) && Next(Now(), m, keep)
      modifies this`run
      ensures run == old(run) + [m] && IsTrace(run, keep)
    {
      run := run + [m];
      forall i | 0 < i < |run| ensures StepAt(run, keep, i) {
        if i < |run| - 1 {
          assert StepAt(old(run), keep, i);
        }
      }
    }

    ghost method Stop()
      requires Valid()
      modifies this`run
      ensures Valid() && Continues() && Now() == old(Now()).(pc := Resting)
    {
      Step(Now().(pc := Resting));
    }

    /** os.WriteFile of the marker: the claim that the staged tree is complete. */
    method MarkStaged() returns (ok: bool)
      requires Valid() && Now().pc == Staging && staged == Some(Now().target)
      modifies this
      ensures Valid() && Continues()
      ensures GivesUp(ok, false)
      ensures ok ==> Now() == old(Now()).(fs := old(Disk()).(marker := true), pc := Marked, claim := old(Now()).target,
                                          vouched := old(Now()).vouched + {old(Now()).target})
      ensures !ok ==> Now() == old(Now()).(pc := Resting) && Disk() == old(Disk())
    {
      var cut := Interrupted();
      if cut {
        Stop();
        return false;
      }
      marker := true;
      Step(Now().(fs := Disk(), pc := Marked, claim := Now().target, vouched := Now().vouched + {Now().target}));
      return true;
    }

    /** os.RemoveAll of the staged tree, which may stop part way. */
    method RemoveStaged(ghost next: After) returns (ok: bool)
      requires Valid() && Now().pc == Remove(next)
      modifies this
      ensures Valid() && Continues()
      ensures GivesUp(ok, false)
      ensures ok ==> Disk() == old(Disk()).(staged := None)
      ensures ok ==> Now() == old(Now()).(fs := Disk(), pc :=
                       match next
                       case Stop => Resting
                       case Stage => Staging
                       case Restore => if aside.Some? then PutBack else Resting)
      ensures !ok ==> Now().pc == Resting && Disk() == old(Disk()).(staged := staged)
    {
      var cut := Interrupted();
      if cut {
        if staged.Some? {
          var left: Tree := *;
          if left.Keys <= staged.value.Keys {
            staged := Some(left);
            Step(Now().(fs := Disk()));
          }
        }
        Stop();
        return false;
      }
      staged := None;
      Step(Now().(fs := Disk(), pc :=
                    match next
                    case Stop => Resting
                    case Stage => Staging
                    case Restore => if aside.Some? then PutBack else Resting));
      return true;
    }

    method DiscardStaged(ghost next: After) returns (ok: bool)
      requires Valid() && Now().pc == Withdraw(next)
      modifies this
      ensures Valid() && Continues()
      ensures GivesUp(ok, false)
      ensures ok ==> Disk() == old(Disk()).(staged := None, marker := false)
      ensures ok ==> Now() == old(Now()).(fs := Disk(), pc :=
                       match next
                       case Stop => Resting
                       case Stage => Staging
                       case Restore => if aside.Some? then PutBack else Resting)
      ensures !ok ==> Now().pc == Resting && live == old(live) && aside == old(aside)
    {
      var cut := Interrupted();
      if cut {
        Stop();
        return false;
      }
      marker := false;
      Step(Now().(fs := Disk(), pc := Remove(next)));
      ok := RemoveStaged(next);
    }

    /** os.Rename of the staged tree to live. */
    method PublishStaged() returns (ok: bool)
      requires Valid() && Now().pc == Publish
      modifies this
      ensures Valid() && Continues()
      ensures GivesUp(ok, old(staged).None? || old(live).Some?)
      ensures ok ==> old(staged).Some? && old(live).None? && Disk() == old(Disk()).(live := old(staged), staged := None)
      ensures ok ==> Now() == PublishedAs(old(Now()))
      ensures !ok ==> Now() == old(Now()).(pc := Resting) && Disk() == old(Disk())
    {
      var cut := Interrupted();
      if cut || staged.None? || live.Some? {
        Stop();
        return false;
      }
      live, staged := staged, None;
      Step(PublishedAs(Now()));
      return true;
    }

    /** carryOver: the superseded tree's selected entries, in listing order, skipping names live has. */
    method CarryOver() returns (ok: bool)
      requires Valid() && Now().pc == Carrying && live.Some?
      modifies this
      ensures Valid() && Continues()
      ensures GivesUp(ok, false)
      ensures ok ==> live == Some(Carried(old(live).value, OrEmpty(old(aside)), keep))
      ensures ok ==> staged == old(staged) && marker == old(marker)
      ensures ok ==> Now() == old(Now()).(fs := Disk(), pc := RemoveOld)
      ensures !ok ==> Now().pc == Resting
    {
      assert |run| > 0;
      hide IsTrace, Next, Carried;
      if aside.None? {
        CarryingNothing(live.value, map[], keep);
        NothingLeft();
        return true;
      }
      var names := Sorted(aside.value.Keys);
      ghost var found := Disk();
      ok := CarryEntries(names);
      if !ok { return; }
      SweepCarries(found, keep, names);
      NothingLeft();
    }

    /** The loop over the listing. */
    method CarryEntries(names: seq<string>) returns (ok: bool)
      requires Valid() && Now().pc == Carrying && live.Some? && aside.Some?
      requires forall j :: 0 <= j < |names| ==> names[j] in aside.value
      requires forall i, j :: 0 <= i < j < |names| ==> names[i] != names[j]
      modifies this
      ensures Valid() && Continues()
      ensures GivesUp(ok, false)
      ensures ok ==> Now() == old(Now()).(fs := Disk()) && Disk() == Sweep(old(Disk()), keep, names)
      ensures !ok ==> Now().pc == Resting
    {
      assert |run| > 0;
      hide IsTrace, Next, Sweep;
      ghost var found := Disk();
      SweepEnds(found, keep, names);
      for i := 0 to |names|
        invariant |run| > 0 && Valid() && Continues() && live.Some? && aside.Some?
        invariant Now() == old(Now()).(fs := Disk()) && failed == old(failed)
        invariant forall j :: i <= j < |names| ==> names[j] in aside.value
        invariant Sweep(Disk(), keep, names[i..]) == Sweep(found, keep, names)
      {
        SweepNext(Disk(), keep, names, i);
        if keep(names[i]) && names[i] !in live.value {
          ok := CarryEntry(names[i]);
          if !ok { return; }
        }
      }
      SweepEnds(Disk(), keep, names);
      return true;
    }

    ghost method NothingLeft()
      requires Valid() && Now().pc == Carrying && NothingToCarry(Disk(), keep)
      modifies this`run
      ensures Valid() && Continues() && Now() == old(Now()).(pc := RemoveOld)
    {
      Step(Now().(pc := RemoveOld));
    }

    /** os.Rename of one entry of the superseded tree into live. */
    method CarryEntry(n: string) returns (ok: bool)
      requires Valid() && Now().pc == Carrying && live.Some? && aside.Some?
      requires n in aside.value && keep(n) && n !in live.value
      modifies this
      ensures Valid() && Continues()
      ensures GivesUp(ok, false)
      ensures ok ==> Carries(old(Disk()), keep, n) && Disk() == Moved(old(Disk()), n)
      ensures ok ==> Now() == old(Now()).(fs := Disk())
      ensures !ok ==> Now().pc == Resting
    {
      var cut := Interrupted();
      if cut {
        Stop();
        return false;
      }
      assert Carries(Now().fs, keep, n);
      ghost var moved := Moved(Disk(), n);
      live, aside := Some(live.value[n := aside.value[n]]), Some(aside.value - {n});
      Step(Now().(fs := moved));
      return true;
    }

    /** os.RemoveAll of the superseded tree, which may stop part way. */
    method RemoveSuperseded() returns (ok: bool)
      requires Valid() && Now().pc == RemoveOld
      modifies this
      ensures Valid() && Continues() && Now().pc == Resting
      ensures GivesUp(ok, false)
      ensures ok ==> Disk() == old(Disk()).(aside := None)
    {
      var cut := Interrupted();
      if cut {
        if aside.Some? {
          var left: Tree := *;
          if left.Keys <= aside.value.Keys {
            aside := Some(left);
            Step(Now().(fs := Disk()));
          }
        }
        Stop();
        return false;
      }
      aside := None;
      Step(Now().(fs := Disk(), pc := Resting));
      return true;
    }

    /** The tail SwapKeeping and publishStaged share, from the second rename on. */
    method FinishSwap() returns (ok: bool)
      requires Valid() && Now().pc == Publish
      modifies this
      ensures Valid() && Continues() && Now().pc == Resting
      ensures GivesUp(ok, old(staged).None? || old(live).Some?)
      ensures ok ==> old(staged).Some? && Disk() == Swapped(old(Disk()).(live := None), keep)
    {
      assert |run| > 0;
      hide IsTrace, Carried;
      ok := PublishStaged();
      if !ok { return; }
      var cut := Interrupted();
      if cut {
        Stop();
        return false;
      }
      marker := false;
      Step(Now().(fs := Disk(), pc := Carrying));
      ok := CarryOver();
      if !ok { return; }
      ok := RemoveSuperseded();
    }

    method SwapKeeping() returns (ok: bool)
      requires Valid() && Now().pc == Marked
      modifies this
      ensures Valid() && Continues() && Now().pc == Resting
      ensures GivesUp(ok, old(staged).None? || (old(live).Some? && old(aside).Some?))
      ensures ok ==> old(staged).Some? && Disk() == Swapped(old(Disk()), keep)
      ensures ok ==> old(live).None? || old(aside).None?
    {
      if live.Some? {
        Step(Now().(pc := SetAside));
        var cut := Interrupted();
        if cut || aside.Some? {
          Stop();
          return false;
        }
        live, aside := None, live;
        Step(Now().(fs := Disk(), pc := Publish));
      } else {
        Step(Now().(pc := Publish));
      }
      ok := FinishSwap();
    }

    /** Extraction into the staged tree: any number of entries may be there when it is cut. */
    method Extract(world: Tree) returns (ok: bool)
      requires Valid() && Now().pc == Staging && staged.None?
      modifies this
      ensures Valid() && Continues()
      ensures GivesUp(ok, false)
      ensures ok ==> Now() == old(Now()).(fs := Disk()) && Disk() == old(Disk()).(staged := Some(world))
      ensures !ok ==> Now().pc == Resting && live == old(live) && aside == old(aside)
    {
      MakeDestination();
      ok := WriteEntries(world, Sorted(world.Keys));
      if ok {
        OverlayCopies(map[], world, Sorted(world.Keys));
      }
    }

    method WriteEntries(world: Tree, names: seq<string>) returns (ok: bool)
      requires Valid() && Now().pc == Staging && staged.Some?
      requires forall n :: n in names ==> n in world
      modifies this
      ensures Valid() && Continues()
      ensures GivesUp(ok, false)
      ensures ok ==> Disk() == old(Disk()).(staged := Some(Overlay(old(staged).value, world, names)))
      ensures ok ==> Now() == old(Now()).(fs := Disk())
      ensures !ok ==> Now().pc == Resting && live == old(live) && aside == old(aside)
    {
      assert |run| > 0;
      hide IsTrace, Next;
      for i := 0 to |names|
        invariant |run| > 0 && Valid() && Continues() && staged.Some?
        invariant Now() == old(Now()).(fs := Disk()) && Disk() == old(Disk()).(staged := staged)
        invariant failed == old(failed)
        invariant Overlay(staged.value, world, names[i..]) == Overlay(old(staged).value, world, names)
      {
        ok := WriteEntry(names[i], world[names[i]]);
        if !ok { return; }
      }
      return true;
    }

    method MakeDestination()
      requires Valid() && Now().pc == Staging
      modifies this
      ensures Valid() && Continues()
      ensures Disk() == old(Disk()).(staged := Some(map[])) && Now() == old(Now()).(fs := Disk())
      ensures failed == old(failed)
    {
      staged := Some(map[]);
      Step(Now().(fs := Disk()));
    }

    method WriteEntry(n: string, entry: Node) returns (ok: bool)
      requires Valid() && Now().pc == Staging && staged.Some?
      modifies this
      ensures Valid() && Continues()
      ensures GivesUp(ok, false)
      ensures ok ==> Disk() == old(Disk()).(staged := Some(old(staged).value[n := entry]))
      ensures ok ==> Now() == old(Now()).(fs := Disk())
      ensures !ok ==> Now().pc == Resting && live == old(live) && aside == old(aside)
    {
      var cut := Interrupted();
      if cut {
        Stop();
        return false;
      }
      staged := Some(staged.value[n := entry]);
      Step(Now().(fs := Disk()));
      return true;
    }

    /**
     One restore attempt, as every stager runs it: discard what is left, stage, mark, check that the
     server is still stopped, swap. An attempt that gives up discards its staging.
     */
    method Restore(world: Tree, stopped: bool) returns (ok: bool)
      requires Valid() && Now().pc == Resting
      modifies this
      ensures Valid() && Continues() && Now().pc == Resting
      ensures ok ==>
            Disk() == Files(Some(Carried(world, OrEmpty(old(Settled(live, aside, keep))), keep)), None, None, false)
      ensures !failed ==> (ok <==> stopped && (old(live).None? || old(aside).None?))
      ensures ok ==> stopped && !failed && (old(live).None? || old(aside).None?)
      ensures !stopped ==> live == old(live) && aside == old(aside) && (!failed ==> staged.None? && !marker)
      ensures Init(run[0]) ==> LiveIsWhole(Now(), keep)
      ensures Init(run[0]) && old(Settled(live, aside, keep)).Some? ==> Recovered(Disk(), keep).live.Some?
    {
      failed := false;
      ghost var start, found := |run|, Settled(live, aside, keep);
      Step(Now().(pc := Withdraw(Stage), base := found, target := world, attempt := Now().attempt + 1,
            published := false));
      ghost var begun := run;
      ok := Attempt(world, stopped);
      assert run[start] == begun[start] && HasWorld(run[start]) == found.Some?;
      if Init(run[0]) {
        LiveIsNeverPartial(run, keep, |run| - 1);
        if found.Some? {
          WorldSurvives(run, keep, start, |run| - 1);
        }
      }
    }

    method Attempt(world: Tree, stopped: bool) returns (ok: bool)
      requires Valid() && Now().pc == Withdraw(Stage) && Now().target == world
      modifies this
      ensures Valid() && Continues() && Now().pc == Resting
      ensures ok ==>
            Disk() == Files(Some(Carried(world, OrEmpty(old(Settled(live, aside, keep))), keep)), None, None, false)
      ensures GivesUp(ok, !stopped || (old(live).Some? && old(aside).Some?))
      ensures !stopped ==> live == old(live) && aside == old(aside) && (!failed ==> staged.None? && !marker)
    {
      assert |run| > 0;
      hide IsTrace, Next, Carried;
      ok := DiscardStaged(Stage);
      if !ok { return; }
      ok := Extract(world);
      if !ok {
        Abandon();
        return;
      }
      ok := MarkStaged();
      if !ok || !stopped {
        if ok { Stop(); }
        Abandon();
        return false;
      }
      ok := SwapKeeping();
    }

    /** The staging a failed attempt drops, unless it died instead of failing. */
    method Abandon()
      requires Valid() && Now().pc == Resting
      modifies this
      ensures Valid() && Continues() && Now().pc == Resting
      ensures live == old(live) && aside == old(aside) && (old(failed) ==> failed)
      ensures !failed ==> staged.None? && !marker
    {
      var died := Interrupted();
      if !died {
        Step(Now().(pc := Withdraw(After.Stop)));
        var _ := DiscardStaged(After.Stop);
      }
    }

    method RecoverSwapKeeping() returns (ok: bool, action: Action)
      requires Valid() && Now().pc == Resting
      modifies this
      ensures Valid() && Continues() && Now().pc == Resting
      ensures ok <==> !failed
      ensures ok ==> Disk() == Recovered(old(Disk()), keep) && action == ActionFor(old(Disk()))
      ensures Init(run[0]) && ok ==> live == Due(old(Now()), keep) && aside.None?
      ensures Init(run[0]) && ok ==> (staged.None? <==> !AllThree(old(Disk())))
      ensures Init(run[0]) ==> LiveIsWhole(Now(), keep)
    {
      failed := false;
      ghost var before := run;
      Step(Now().(pc := RecoveryEntry(Disk())));
      ok, action := Resolve();
      if Init(run[0]) {
        assert before[0] == run[0];
        RecoveryCompletes(before, keep, |before| - 1);
        LiveIsNeverPartial(run, keep, |run| - 1);
      }
    }

    method Resolve() returns (ok: bool, action: Action)
      requires Valid() && Now().pc == RecoveryEntry(Disk())
      modifies this
      ensures Valid() && Continues() && Now().pc == Resting
      ensures GivesUp(ok, false)
      ensures ok ==> Disk() == Recovered(old(Disk()), keep) && action == ActionFor(old(Disk()))
    {
      if aside.None? && staged.None? {
        action := NothingInProgress;
        ok := DiscardStaged(After.Stop);
      } else if live.Some? && aside.Some? {
        action := CompletedSwapped;
        ok := CarryOver();
        if ok { ok := RemoveSuperseded(); }
      } else if live.Some? {
        action := DiscardedUnstarted;
        ok := DiscardStaged(After.Stop);
      } else if staged.Some? && marker {
        action := CompletedInterrupted;
        ok := FinishSwap();
      } else if staged.Some? {
        ok, action := DiscardUnfinishedStaging();
      } else {
        action := Reversed;
        ok := PutBackSuperseded();
      }
    }

    method DiscardUnfinishedStaging() returns (ok: bool, action: Action)
      requires Valid() && Now().pc == Withdraw(After.Restore) && live.None?
      modifies this
      ensures Valid() && Continues() && Now().pc == Resting
      ensures GivesUp(ok, false)
      ensures ok ==> Disk() == Files(old(aside), None, None, false)
      ensures ok ==> action == if old(aside).Some? then DiscardedAndPutBack else DiscardedUnfinished
    {
      action := DiscardedUnfinished;
      ok := DiscardStaged(After.Restore);
      if ok && aside.Some? {
        action := DiscardedAndPutBack;
        ok := PutBackSuperseded();
      }
    }

    /** os.Rename of the superseded tree back to live. */
    method PutBackSuperseded() returns (ok: bool)
      requires Valid() && Now().pc == PutBack && live.None? && aside.Some?
      modifies this
      ensures Valid() && Continues() && Now().pc == Resting
      ensures GivesUp(ok, false)
      ensures ok ==> Disk() == old(Disk()).(live := old(aside), aside := None)
    {
      var cut := Interrupted();
      if cut {
        Stop();
        return false;
      }
      live, aside := aside, None;
      Step(Now().(fs := Disk(), pc := Resting));
      return true;
    }
  }
}
