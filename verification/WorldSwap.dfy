/**
 The crash-safe directory swap of internal/backup/restore.go.

 The first half is a transition system over the four things on disk: the live tree, the tree set
 aside as `.old`, the tree staged as `.new`, and the staging's completion marker. One step is one
 filesystem operation; a crash is a step of its own, allowed everywhere, and a RemoveAll may stop
 after any number of unlinks. A new attempt may begin in whatever state the last one was left.
 `base`, `root`, `vouched`, `claim`, `target`, `attempt` and `published` are history: no step reads
 them, they only name the worlds the claims are about.
*/
module WorldSwap {
  import opened Optional
  import opened Worlds

  datatype Files = Files(live: Option<Tree>, aside: Option<Tree>, staged: Option<Tree>, marker: bool)

  /** What follows a DiscardStaged: nothing, the staging of a new attempt, or putting `.old` back. */
  datatype After = Stop | Stage | Restore

  datatype Pc =
    | Resting                  // no swap code runs: finished, failed or crashed
    | Withdraw(next: After)    // DiscardStaged, before the marker goes
    | Remove(next: After)      // DiscardStaged, inside RemoveAll of the staged tree
    | Staging                  // extraction writes into the staged tree
    | Marked                   // MarkStaged returned
    | SetAside                 // about to rename live to `.old`
    | Publish                  // about to rename `.new` to live
    | ClearMarker
    | Carrying                 // inside carryOver
    | RemoveOld                // inside RemoveAll of the superseded tree
    | PutBack                  // about to rename `.old` to live

  datatype Machine = Machine(
    fs: Files,
    pc: Pc,
    base: Option<Tree>,   // the world the latest attempt found, with what its own swap had still to carry
    root: Tree,           // the tree live was when it last came to be: the first world, or a published staging
    vouched: set<Tree>,   // the first world and every tree a MarkStaged vouched for
    target: Tree,         // the complete world the latest attempt stages
    claim: Tree,          // the world the latest MarkStaged vouched for
    attempt: nat,         // attempts begun
    published: bool)      // the latest attempt's second rename has landed

  // ----- what the operations compute when nothing interrupts them -----

  /** The published tree plus the kept entries of the superseded one whose names it lacks. */
  function Carried(published: Tree, aside: Tree, keep: string -> bool): Tree {
    published + map n | n in aside && keep(n) && n !in published :: aside[n]
  }

  function OrEmpty(t: Option<Tree>): Tree {
    match t case Some(x) => x case None => map[]
  }

  /** SwapKeeping over a complete staging. */
  function Swapped(fs: Files, keep: string -> bool): Files
    requires fs.staged.Some?
  {
    Files(Some(Carried(fs.staged.value, OrEmpty(if fs.live.Some? then fs.live else fs.aside), keep)), None, None, false)
  }

  /** The world that live and `.old` amount to, any staging aside. */
  function Settled(live: Option<Tree>, aside: Option<Tree>, keep: string -> bool): Option<Tree> {
    if live.Some? && aside.Some? then Some(Carried(live.value, aside.value, keep))
    else if live.Some? then live
    else aside
  }

  /** RecoverSwapKeeping's choice of history, by which of the four exist. */
  function RecoveryEntry(fs: Files): Pc {
    if fs.aside.None? && fs.staged.None? then Withdraw(Stop)
    else if fs.live.Some? && fs.aside.Some? then Carrying
    else if fs.live.Some? then Withdraw(Stop)
    else if fs.staged.Some? && fs.marker then Publish
    else if fs.staged.Some? then Withdraw(Restore)
    else PutBack
  }

  /** RecoverSwapKeeping run to completion. */
  function Recovered(fs: Files, keep: string -> bool): Files {
    match RecoveryEntry(fs)
    case Carrying => fs.(live := Some(Carried(OrEmpty(fs.live), OrEmpty(fs.aside), keep)), aside := None)
    case Publish => Swapped(fs, keep)
    case Withdraw(Restore) => Files(fs.aside, None, None, false)
    case PutBack => fs.(live := fs.aside, aside := None)
    case _ => fs.(staged := None, marker := false)
  }

  // ----- the transition system -----

  ghost predicate Init(m: Machine) {
    && m.pc == Resting && m.fs.aside.None? && m.fs.staged.None? && m.base == m.fs.live && !m.published
    && (m.fs.live.Some? ==> m.root == m.fs.live.value && m.root in m.vouched)
  }

  ghost predicate Next(m: Machine, m': Machine, keep: string -> bool) {
    || m' == m.(pc := Resting)
    || match m.pc {
         case Resting =>
           || m' == m.(pc := RecoveryEntry(m.fs))
           || m' == m.(pc := Withdraw(Stop))
           || m' == m.(pc := Withdraw(Stage), base := Settled(m.fs.live, m.fs.aside, keep), target := m'.target,
                       attempt := m.attempt + 1, published := false)
         case Withdraw(next) => m' == m.(fs := m.fs.(marker := false), pc := Remove(next))
         case Remove(next) => RemoveStep(m, m', next)
         case Staging => StageStep(m, m')
         case Marked =>
           || m' == m.(pc := Withdraw(Stop))
           || m' == m.(pc := if m.fs.live.Some? then SetAside else Publish)
         case SetAside =>
           m.fs.live.Some? && m.fs.aside.None? &&
           m' == m.(fs := m.fs.(live := None, aside := m.fs.live), pc := Publish)
         case Publish =>
           m.fs.live.None? && m.fs.staged.Some? &&
           m' == PublishedAs(m)
         case ClearMarker => m' == m.(fs := m.fs.(marker := false), pc := Carrying)
         case Carrying => CarryStep(m, m', keep)
         case RemoveOld =>
           || m' == m.(fs := m.fs.(aside := None), pc := Resting)
           || (m.fs.aside.Some? && m'.fs.aside.Some? && m'.fs.aside.value.Keys <= m.fs.aside.value.Keys &&
               m' == m.(fs := m.fs.(aside := m'.fs.aside)))
         case PutBack =>
           m.fs.live.None? && m.fs.aside.Some? &&
           m' == m.(fs := m.fs.(live := m.fs.aside, aside := None), pc := Resting)
       }
  }

  function PublishedAs(m: Machine): Machine
    requires m.fs.staged.Some?
  {
    m.(fs := m.fs.(live := m.fs.staged, staged := None), pc := ClearMarker, published := true,
          root := m.fs.staged.value)
  }

  /** RemoveAll of the staged tree: unlink some of it, or finish. */
  ghost predicate RemoveStep(m: Machine, m': Machine, next: After) {
    || m' == m.(fs := m.fs.(staged := None),
                pc := match next
                      case Stop => Resting
                      case Stage => Staging
                      case Restore => if m.fs.aside.Some? then PutBack else Resting)
    || (m.fs.staged.Some? && m'.fs.staged.Some? && m'.fs.staged.value.Keys <= m.fs.staged.value.Keys &&
        m' == m.(fs := m.fs.(staged := m'.fs.staged)))
  }

  /** Extraction may leave anything at all in the staged tree; only a finished one is marked. */
  ghost predicate StageStep(m: Machine, m': Machine) {
    || (m'.fs.staged.Some? && m' == m.(fs := m.fs.(staged := m'.fs.staged)))
    || (m.fs.staged == Some(m.target) && m' == m.(fs := m.fs.(marker := true), pc := Marked, claim := m.target,
                                         vouched := m.vouched + {m.target}))
    || m' == m.(pc := Withdraw(Stop))
  }

  predicate Carries(fs: Files, keep: string -> bool, n: string) {
    fs.live.Some? && fs.aside.Some? && n in fs.aside.value && keep(n) && n !in fs.live.value
  }

  function Moved(fs: Files, n: string): Files
    requires fs.live.Some? && fs.aside.Some? && n in fs.aside.value
  {
    fs.(live := Some(fs.live.value[n := fs.aside.value[n]]), aside := Some(fs.aside.value - {n}))
  }

  /** carryOver: rename one selected entry across, or find none left. */
  ghost predicate CarryStep(m: Machine, m': Machine, keep: string -> bool) {
    || (exists n :: Carries(m.fs, keep, n) && m' == m.(fs := Moved(m.fs, n)))
    || ((forall n :: !Carries(m.fs, keep, n)) && m' == m.(pc := RemoveOld))
  }

  ghost predicate StepAt(run: seq<Machine>, keep: string -> bool, i: nat) {
    0 < i < |run| && Next(run[i - 1], run[i], keep)
  }

  ghost predicate IsTrace(run: seq<Machine>, keep: string -> bool) {
    |run| > 0 && forall i :: 0 < i < |run| ==> StepAt(run, keep, i)
  }

  /** A trace from a disk no swap has touched yet. */
  ghost predicate IsRun(run: seq<Machine>, keep: string -> bool) {
    IsTrace(run, keep) && Init(run[0])
  }

  // ----- what every reachable state keeps -----

  /** The world live and `.old` owe: what was published over what it was published over, else what was found. */
  function Owed(m: Machine, keep: string -> bool): Option<Tree> {
    if m.published then Some(Carried(m.claim, OrEmpty(m.base), keep)) else m.base
  }

  ghost predicate Within(part: Tree, whole: Tree) {
    forall n :: n in part ==> n in whole && whole[n] == part[n]
  }

  /** live holds all of a tree that was whole. */
  ghost predicate Rooted(m: Machine) {
    && (m.fs.live.Some? ==> m.root in m.vouched && Within(m.root, m.fs.live.value))
    && (m.published ==> m.fs.live.Some? && m.root == m.claim && m.fs.staged.None?)
  }

  ghost predicate PcFits(m: Machine, keep: string -> bool) {
    match m.pc
    case Resting => true
    case Withdraw(next) => (next == Stage ==> !m.published) && (next == Restore ==> m.fs.live.None?)
    case Remove(next) => !m.fs.marker && (next == Stage ==> !m.published) && (next == Restore ==> m.fs.live.None?)
    case Staging => !m.published && !m.fs.marker
    case Marked => !m.published && m.fs.marker && m.fs.staged == Some(m.claim)
    case SetAside => !m.published && m.fs.live.Some? && m.fs.marker && m.fs.staged == Some(m.claim)
    case Publish => !m.published && m.fs.live.None? && m.fs.marker && m.fs.staged == Some(m.claim)
    case ClearMarker => m.published
    case Carrying => m.fs.live.Some?
    case RemoveOld => m.fs.live.Some? && m.fs.live == Owed(m, keep) && NothingToCarry(m.fs, keep)
    case PutBack => m.fs.live.None? && m.fs.aside.Some?
  }

  ghost predicate NothingToCarry(fs: Files, keep: string -> bool) {
    forall n :: !Carries(fs, keep, n)
  }

  ghost predicate Inv(m: Machine, keep: string -> bool) {
    && (m.fs.marker && m.fs.staged.Some? ==> m.fs.staged == Some(m.claim) && m.claim in m.vouched)
    && Settled(m.fs.live, m.fs.aside, keep) == Owed(m, keep)
    && (m.fs.live.None? && m.base.Some? ==> m.root in m.vouched && Within(m.root, m.base.value))
    && Rooted(m)
    && PcFits(m, keep)
  }

  lemma {:induction false} CarryingNothing(live: Tree, aside: Tree, keep: string -> bool)
    ensures Carried(live, map[], keep) == live
    ensures NothingToCarry(Files(Some(live), Some(aside), None, false), keep) ==> Carried(live, aside, keep) == live
  {
    var fs := Files(Some(live), Some(aside), None, false);
    assert Carried(live, map[], keep) == live;
    if NothingToCarry(fs, keep) {
      forall n | n in aside && keep(n) ensures n in live {
        assert !Carries(fs, keep, n);
      }
      assert Carried(live, aside, keep) == live;
    }
  }

  /** One rename of carryOver leaves what the two trees amount to. */
  lemma {:induction false} CarryingOne(fs: Files, keep: string -> bool, n: string)
    requires Carries(fs, keep, n)
    ensures Settled(Moved(fs, n).live, Moved(fs, n).aside, keep) == Settled(fs.live, fs.aside, keep)
  {
    var before, after := Settled(fs.live, fs.aside, keep).value, Settled(Moved(fs, n).live, Moved(fs, n).aside,
          keep).value;
    assert before.Keys == after.Keys;
    forall k | k in before ensures before[k] == after[k] {
    }
    assert before == after;
  }

  lemma {:induction false} CarryKeepsInv(m: Machine, m': Machine, keep: string -> bool)
    requires Inv(m, keep) && m.pc == Carrying && CarryStep(m, m', keep)
    ensures Inv(m', keep)
  {
    hide Carried, Moved;
    if n :| Carries(m.fs, keep, n) && m' == m.(fs := Moved(m.fs, n)) {
      CarryingOne(m.fs, keep, n);
      MovedGrows(m.fs, keep, n, m.root);
    } else if m.fs.aside.Some? {
      assert NothingToCarry(Files(m.fs.live, m.fs.aside, None, false), keep) by {
        forall n ensures !Carries(Files(m.fs.live, m.fs.aside, None, false), keep, n) { assert !Carries(m.fs, keep,
              n); }
      }
      CarryingNothing(m.fs.live.value, m.fs.aside.value, keep);
    }
  }

  lemma {:induction false} MovedGrows(fs: Files, keep: string -> bool, n: string, root: Tree)
    requires Carries(fs, keep, n) && Within(root, fs.live.value)
    ensures Moved(fs, n) == fs.(live := Moved(fs, n).live, aside := Moved(fs, n).aside)
    ensures Moved(fs, n).live.Some? && Within(root, Moved(fs, n).live.value)
  {
  }

  lemma {:induction false} RemoveOldKeepsInv(m: Machine, m': Machine, keep: string -> bool)
    requires Inv(m, keep) && m.pc == RemoveOld && Next(m, m', keep)
    ensures Inv(m', keep)
  {
    if m'.fs.aside.Some? && m.fs.aside.Some? {
      forall n ensures !Carries(m'.fs, keep, n) && !Carries(Files(m'.fs.live, m'.fs.aside, None, false), keep, n) {
        assert !Carries(m.fs, keep, n);
        assert n in m'.fs.aside.value.Keys ==> n in m.fs.aside.value.Keys;
      }
      CarryingNothing(m'.fs.live.value, m'.fs.aside.value, keep);
    }
  }

  lemma {:induction false} PublishKeepsInv(m: Machine, m': Machine, keep: string -> bool)
    requires Inv(m, keep) && m.pc == Publish && m' == PublishedAs(m)
    ensures Inv(m', keep)
  {
    CarryingNothing(m.claim, map[], keep);
    assert m.fs.aside == m.base;
  }

  lemma {:induction false} BeginKeepsInv(m: Machine, m': Machine, keep: string -> bool)
    requires Inv(m, keep) && m.pc == Resting
    requires m' == m.(pc := Withdraw(Stage), base := Settled(m.fs.live, m.fs.aside, keep), target := m'.target,
                      attempt := m.attempt + 1, published := false)
    ensures Inv(m', keep)
  {
    hide Carried;
  }

  /** DiscardStaged, extraction and the marker touch neither live nor `.old`. */
  lemma {:induction false} StagingKeepsInv(m: Machine, m': Machine, keep: string -> bool)
    requires Inv(m, keep) && Next(m, m', keep) && (m.pc.Withdraw? || m.pc.Remove? || m.pc.Staging? || m.pc.Marked?)
    ensures Inv(m', keep)
  {
    hide Settled, Carried, Within;
  }

  lemma {:induction false} RenameKeepsInv(m: Machine, m': Machine, keep: string -> bool)
    requires Inv(m, keep) && Next(m, m', keep) && (m.pc.SetAside? || m.pc.PutBack? || m.pc.ClearMarker?)
    ensures Inv(m', keep)
  {
    hide Carried;
  }

  lemma {:induction false} RecoveryEntryFits(m: Machine, keep: string -> bool)
    requires Inv(m, keep) && m.pc == Resting
    ensures Inv(m.(pc := RecoveryEntry(m.fs)), keep) && Inv(m.(pc := Withdraw(Stop)), keep)
  {
    hide Settled, Carried, Within;
  }

  lemma {:induction false} StoppingKeepsInv(m: Machine, keep: string -> bool)
    requires Inv(m, keep)
    ensures Inv(m.(pc := Resting), keep)
  {
    hide Settled, Carried, Within;
  }

  lemma {:induction false} StepKeepsInv(m: Machine, m': Machine, keep: string -> bool)
    requires Inv(m, keep) && Next(m, m', keep)
    ensures Inv(m', keep)
  {
    hide Inv, Settled, RecoveryEntry, RemoveStep, StageStep, Carries;
    StoppingKeepsInv(m, keep);
    if m' != m.(pc := Resting) {
      match m.pc
      case Resting =>
        RecoveryEntryFits(m, keep);
        if m'.attempt == m.attempt + 1 { BeginKeepsInv(m, m', keep); }
      case Carrying => CarryKeepsInv(m, m', keep);
      case Publish => PublishKeepsInv(m, m', keep);
      case RemoveOld => RemoveOldKeepsInv(m, m', keep);
      case SetAside => RenameKeepsInv(m, m', keep);
      case PutBack => RenameKeepsInv(m, m', keep);
      case ClearMarker => RenameKeepsInv(m, m', keep);
      case _ => StagingKeepsInv(m, m', keep);
    }
  }

  lemma {:induction false} RunKeepsInv(run: seq<Machine>, keep: string -> bool, i: nat)
    requires IsRun(run, keep) && i < |run|
    ensures Inv(run[i], keep)
  {
    hide Inv, Next, Init;
    if i > 0 {
      RunKeepsInv(run, keep, i - 1);
      assert StepAt(run, keep, i);
      StepKeepsInv(run[i - 1], run[i], keep);
    } else {
      InitKeepsInv(run[0], keep);
    }
  }

  lemma {:induction false} InitKeepsInv(m: Machine, keep: string -> bool)
    requires Init(m)
    ensures Inv(m, keep)
  {
  }

  // ----- what that means for the world on disk -----

  /** There is, or was when the latest attempt began, a world. */
  predicate HasWorld(m: Machine) {
    m.base.Some? || m.published
  }

  /**
   live is the world owed, or that world short of kept entries that wait in `.old`; and it holds all of a whole
   tree.
  */
  ghost predicate LiveIsWhole(m: Machine, keep: string -> bool) {
    m.fs.live.Some? ==>
      && m.root in m.vouched && Within(m.root, m.fs.live.value)
      && Owed(m, keep).Some? && Within(m.fs.live.value, Owed(m, keep).value)
      && forall n :: n in Owed(m, keep).value && n !in m.fs.live.value ==>
           keep(n) && m.fs.aside.Some? && n in m.fs.aside.value && m.fs.aside.value[n] == Owed(m, keep).value[n]
  }

  /**
   In every state of every run live is whole; and while there is no live, the whole world the attempt
   found is in `.old`.
  */
  lemma {:induction false} LiveIsNeverPartial(run: seq<Machine>, keep: string -> bool, i: nat)
    requires IsRun(run, keep) && i < |run|
    ensures LiveIsWhole(run[i], keep)
    ensures run[i].fs.live.None? ==> run[i].fs.aside == run[i].base && !run[i].published
  {
    RunKeepsInv(run, keep, i);
  }

  /**
   What an attempt finds is the world the one before it left owing: the first world, or a published one made
   whole.
  */
  lemma {:induction false} AttemptFindsTheWorldOwed(run: seq<Machine>, keep: string -> bool, i: nat)
    requires IsRun(run, keep) && 0 < i < |run| && run[i].attempt != run[i - 1].attempt
    ensures run[i].base == Owed(run[i - 1], keep) && run[i].root == run[i - 1].root
    ensures run[i].attempt == run[i - 1].attempt + 1 && run[i].fs == run[i - 1].fs
  {
    hide Carried, Settled, Owed, Within, Carries, RecoveryEntry;
    RunKeepsInv(run, keep, i - 1);
    assert StepAt(run, keep, i);
    BeginsAtRest(run[i - 1], run[i], keep);
  }

  /** Only the beginning of an attempt counts one. */
  lemma {:induction false} BeginsAtRest(m: Machine, m': Machine, keep: string -> bool)
    requires Next(m, m', keep) && m'.attempt != m.attempt
    ensures m.pc == Resting && m'.attempt == m.attempt + 1 && m'.fs == m.fs && m'.root == m.root
    ensures m'.base == Settled(m.fs.live, m.fs.aside, keep)
  {
    hide Carried, Settled, Carries, RecoveryEntry;
  }

  /** The claim is honest: a staged tree beside the marker is one that was verified, whole. */
  lemma {:induction false} MarkedStagingIsComplete(run: seq<Machine>, keep: string -> bool, i: nat)
    requires IsRun(run, keep) && i < |run|
    requires run[i].fs.marker && run[i].fs.staged.Some?
    ensures run[i].fs.staged.value == run[i].claim && run[i].claim in run[i].vouched
  {
    RunKeepsInv(run, keep, i);
  }

  /** What recovery publishes: nothing but a marked staging beside no live. */
  predicate Publishes(fs: Files) {
    fs.live.None? && fs.staged.Some? && fs.marker
  }

  /** The world recovery owes: the claimed one once it is published or due to be, else the one found. */
  function Due(m: Machine, keep: string -> bool): Option<Tree> {
    if Publishes(m.fs) then Some(Carried(m.claim, OrEmpty(m.base), keep)) else Owed(m, keep)
  }

  predicate AllThree(fs: Files) {
    fs.live.Some? && fs.aside.Some? && fs.staged.Some?
  }

  /**
   Recovery of any reachable state leaves that one world, and nothing beside it exactly when it did not
   find all three trees. What it then leaves is a staging, which a second recovery drops.
  */
  lemma {:induction false} RecoveryCompletes(run: seq<Machine>, keep: string -> bool, i: nat)
    requires IsRun(run, keep) && i < |run|
    ensures
      var m, r := run[i], Recovered(run[i].fs, keep);
      && r.live == Due(m, keep) && (HasWorld(m) ==> r.live.Some?)
      && r.aside.None? && (r.staged.None? <==> !AllThree(m.fs))
    ensures
      var twice := Recovered(Recovered(run[i].fs, keep), keep);
      twice == Files(Due(run[i], keep), None, None, false)
  {
    RunKeepsInv(run, keep, i);
    hide Carried;
  }

  lemma {:induction false} StepKeepsHistory(m: Machine, m': Machine, keep: string -> bool)
    requires Inv(m, keep) && Next(m, m', keep)
    ensures m.attempt <= m'.attempt
    ensures HasWorld(m) ==> HasWorld(m')
    ensures m.published && m'.attempt == m.attempt ==> m'.published && m'.base == m.base && m'.claim == m.claim
  {
    hide Carried, Within, Carries, Moved;
    if m' != m.(pc := Resting) {
      match m.pc
      case Carrying =>
      case _ =>
    }
  }

  lemma {:induction false} RunStepKeepsHistory(run: seq<Machine>, keep: string -> bool, j: nat, m: Machine, m': Machine)
    requires IsRun(run, keep) && 0 < j < |run| && m == run[j - 1] && m' == run[j]
    ensures m.attempt <= m'.attempt
    ensures HasWorld(m) ==> HasWorld(m')
    ensures m.published && m'.attempt == m.attempt ==> m'.published && m'.base == m.base && m'.claim == m.claim
  {
    RunKeepsInv(run, keep, j - 1);
    assert StepAt(run, keep, j);
    StepKeepsHistory(m, m', keep);
  }

  /** Once an instance has a world, every later state of every run can be recovered to one. */
  lemma {:induction false} WorldSurvives(run: seq<Machine>, keep: string -> bool, i: nat, j: nat)
    requires IsRun(run, keep) && i <= j < |run| && HasWorld(run[i])
    ensures HasWorld(run[j]) && Recovered(run[j].fs, keep).live.Some?
    decreases j
  {
    hide HasWorld, Recovered;
    if i < j {
      WorldSurvives(run, keep, i, j - 1);
      RunStepKeepsHistory(run, keep, j, run[j - 1], run[j]);
    }
    RecoveryCompletes(run, keep, j);
  }

  lemma {:induction false} PublishedHistoryIsFixed(run: seq<Machine>, keep: string -> bool, i: nat, j: nat)
    requires IsRun(run, keep) && i <= j < |run|
    ensures run[i].attempt <= run[j].attempt
    ensures run[i].published && run[j].attempt == run[i].attempt ==>
              run[j].published && run[j].base == run[i].base && run[j].claim == run[i].claim
    decreases j
  {
    if i < j {
      PublishedHistoryIsFixed(run, keep, i, j - 1);
      RunStepKeepsHistory(run, keep, j, run[j - 1], run[j]);
    }
  }

  /**
   Confluence. Once the second rename of an attempt has landed, every schedule of further crashes
   and recoveries that gets rid of `.old` ends in the live tree of the uninterrupted swap: the
   staged tree, and of the old one exactly the kept entries whose names the staged tree lacks.
  */
  lemma {:induction false} EveryScheduleEndsAlike(run: seq<Machine>, keep: string -> bool, i: nat, j: nat, uncut: Files)
    requires IsRun(run, keep) && i <= j < |run|
    requires run[i].published && run[j].attempt == run[i].attempt
    requires uncut == Files(run[i].base, None, Some(run[i].claim), true)
    ensures Recovered(run[j].fs, keep).live == Swapped(uncut, keep).live
    ensures run[j].fs.aside.None? ==> run[j].fs.live == Swapped(uncut, keep).live
    ensures
      var result, next, before := Swapped(uncut, keep).live.value, run[i].claim, OrEmpty(run[i].base);
      forall n ::
        && (n in result <==> n in next || (n in before && keep(n)))
        && (n in result ==> result[n] == if n in next then next[n] else before[n])
  {
    PublishedHistoryIsFixed(run, keep, i, j);
    RunKeepsInv(run, keep, j);
    RecoveryCompletes(run, keep, j);
  }

  /**
   A second recovery changes nothing but a stale marker, exactly when the first did not find all
   three trees at once. The marker outlives the first recovery exactly where that recovery only dealt
   with `.old`.
  */
  lemma {:induction false} SecondRecoveryOnlyClearsTheMarker(fs: Files, keep: string -> bool)
    ensures Recovered(Recovered(fs, keep), keep) == Recovered(fs, keep).(marker := false) <==> !AllThree(fs)
    ensures Recovered(fs, keep).marker
            <==> fs.marker && fs.aside.Some? && (fs.live.Some? || fs.staged.None?)
  {
    var once := Recovered(fs, keep);
    if !AllThree(fs) {
      assert once.aside.None? && once.staged.None?;
    } else {
      assert once.staged.Some? && Recovered(once, keep).staged.None?;
    }
  }

  // ----- stagers that recover first -----

  /** A resting machine starts an attempt, or drops a staging, only once `.old` is gone. */
  ghost predicate OrderlyAt(run: seq<Machine>, i: nat) {
    0 < i < |run| && run[i - 1].pc == Resting && run[i].pc in {Withdraw(Stage), Withdraw(Stop)} ==>
          run[i].fs.aside.None?
  }

  ghost predicate Orderly(run: seq<Machine>) {
    forall i :: 0 < i < |run| ==> OrderlyAt(run, i)
  }

  /** A displaced world is beside its successor, complete or published. */
  predicate Paired(fs: Files) {
    && (fs.live.None? && fs.aside.Some? ==> fs.staged.Some? && fs.marker)
    && !AllThree(fs)
  }

  ghost predicate OrderlyInv(m: Machine) {
    && Paired(m.fs)
    && match m.pc
       case Withdraw(_) | Remove(_) | Staging | Marked | SetAside => m.fs.aside.None?
       case PutBack => false
       case _ => true
  }

  lemma {:induction false} OrderlyStep(m: Machine, m': Machine, keep: string -> bool)
    requires Inv(m, keep) && OrderlyInv(m) && Next(m, m', keep)
    requires m.pc == Resting && m'.pc in {Withdraw(Stage), Withdraw(Stop)} ==> m'.fs.aside.None?
    ensures OrderlyInv(m')
  {
    hide Carried;
    if m' != m.(pc := Resting) {
      match m.pc
      case Carrying =>
      case _ =>
    }
  }

  /**
   Where every stager recovers first, a displaced world is always paired: the branches that put `.old`
   back never run, and all three trees are never there.
  */
  lemma {:induction false} OrderlyRunsStayPaired(run: seq<Machine>, keep: string -> bool, i: nat)
    requires IsRun(run, keep) && Orderly(run) && i < |run|
    ensures OrderlyInv(run[i])
  {
    hide OrderlyInv, Inv, Next;
    if i == 0 {
      assert OrderlyInv(run[0]) by { InitIsOrderly(run[0]); }
    } else {
      OrderlyRunsStayPaired(run, keep, i - 1);
      RunKeepsInv(run, keep, i - 1);
      assert StepAt(run, keep, i) && OrderlyAt(run, i);
      OrderlyStep(run[i - 1], run[i], keep);
    }
  }

  lemma {:induction false} InitIsOrderly(m: Machine)
    requires Init(m)
    ensures OrderlyInv(m)
  {
  }

  /** A run one step longer. */
  lemma {:induction false} Extended(run: seq<Machine>, keep: string -> bool, m: Machine)
    requires IsRun(run, keep) && Next(run[|run| - 1], m, keep)
    ensures IsRun(run + [m], keep)
  {
    hide Next;
    var longer := run + [m];
    forall i | 0 < i < |longer| ensures StepAt(longer, keep, i) {
      if i < |run| { assert StepAt(run, keep, i); }
    }
  }

  /** And only there: an attempt begun while `.old` is there can always lose the pairing. */
  lemma {:induction false} AttemptOverOldUnpairs(run: seq<Machine>, keep: string -> bool) returns (longer: seq<Machine>)
    requires IsRun(run, keep) && run[|run| - 1].pc == Resting && run[|run| - 1].fs.aside.Some?
    ensures IsRun(longer, keep) && run < longer && !Paired(longer[|longer| - 1].fs)
    ensures
      var fs := longer[|longer| - 1].fs;
      fs.live == run[|run| - 1].fs.live && fs.aside == run[|run| - 1].fs.aside
      && if fs.live.Some? then AllThree(fs) else RecoveryEntry(fs) == PutBack
  {
    hide Carried;
    var m := run[|run| - 1];
    var begun := m.(pc := Withdraw(Stage), base := Settled(m.fs.live, m.fs.aside, keep), attempt := m.attempt + 1,
          published := false);
    Extended(run, keep, begun);
    var unmarked := begun.(fs := begun.fs.(marker := false), pc := Remove(Stage));
    Extended(run + [begun], keep, unmarked);
    var cleared := unmarked.(fs := unmarked.fs.(staged := None), pc := Staging);
    longer := run + [begun] + [unmarked];
    Extended(longer, keep, cleared);
    longer := longer + [cleared];
    if m.fs.live.Some? {
      var staging := cleared.(fs := cleared.fs.(staged := Some(map[])));
      Extended(longer, keep, staging);
      longer := longer + [staging];
    }
  }

  /** Such a state is a swap away: cut between its renames, it rests with `.old` and no live. */
  lemma {:induction false} CutSwapLeavesOld(run: seq<Machine>, keep: string -> bool, next: Tree)
    returns (longer: seq<Machine>)
    requires IsRun(run, keep) && run[|run| - 1].pc == Resting
    requires run[|run| - 1].fs.live.Some? && run[|run| - 1].fs.aside.None?
    ensures IsRun(longer, keep) && run < longer && longer[|longer| - 1].pc == Resting
    ensures longer[|longer| - 1].fs == Files(None, run[|run| - 1].fs.live, Some(next), true)
  {
    hide Carried;
    var m := run[|run| - 1];
    var begun := m.(pc := Withdraw(Stage), base := m.fs.live, target := next, attempt := m.attempt + 1,
          published := false);
    Extended(run, keep, begun);
    var unmarked := begun.(fs := begun.fs.(marker := false), pc := Remove(Stage));
    Extended(run + [begun], keep, unmarked);
    var cleared := unmarked.(fs := unmarked.fs.(staged := None), pc := Staging);
    longer := run + [begun] + [unmarked];
    Extended(longer, keep, cleared);
    longer := longer + [cleared];
    longer := SwapCut(longer, keep, cleared);
  }

  lemma {:induction false} SwapCut(run: seq<Machine>, keep: string -> bool, m: Machine) returns (longer: seq<Machine>)
    requires IsRun(run, keep) && run[|run| - 1] == m && m.pc == Staging && m.fs.live.Some? && m.fs.aside.None?
    ensures IsRun(longer, keep) && run < longer && longer[|longer| - 1].pc == Resting
    ensures longer[|longer| - 1].fs == Files(None, m.fs.live, Some(m.target), true)
  {
    hide Carried;
    var staged := m.(fs := m.fs.(staged := Some(m.target)));
    Extended(run, keep, staged);
    var marked := staged.(fs := staged.fs.(marker := true), pc := Marked, claim := m.target,
          vouched := m.vouched + {m.target});
    Extended(run + [staged], keep, marked);
    longer := run + [staged] + [marked];
    var swapping := marked.(pc := SetAside);
    Extended(longer, keep, swapping);
    longer := longer + [swapping];
    var displaced := swapping.(fs := swapping.fs.(live := None, aside := m.fs.live), pc := Publish);
    Extended(longer, keep, displaced);
    longer := longer + [displaced];
    Extended(longer, keep, displaced.(pc := Resting));
    longer := longer + [displaced.(pc := Resting)];
  }
}
