/**
 One schedule row shared by the API's edits and the clock of internal/scheduler/scheduler.go. Both read
 the row, decide, and write later, so their steps interleave.
*/
module ScheduleClock {
  import opened Optional
  import opened Schedules

  const SECOND: int := 1_000_000_000

  /** A PATCH between its load and its store. */
  datatype InFlight = InFlight(copy: Row, body: Body)

  /** The clock: between ticks, with a due copy, or past the re-read that confirmed it. */
  datatype Clock = Idle | Due(copy: Row, now: Time) | Confirmed(copy: Row, now: Time)

  datatype State = State(row: Row, edits: seq<InFlight>, clock: Clock, enqueued: nat)

  /** occupied: players may be connected. */
  datatype Event = Load(body: Body) | Commit(i: nat, now: Time) | Tick(now: Time) | Judge(occupied: bool) | Advance

  /** The calendar, and NextRun with the run that just fired. */
  datatype Times = Times(cal: Calendar, nextRun: (string, string, Time, Option<Time>) -> Option<Time>)

  /** updateSchedule: the hold is released or left as the database has it. */
  function Written(row: Row, e: Edit): Row {
    e.row.(kind := row.kind, held := if e.released then None else row.held)
  }

  /** DeferSchedule: a recorded hold keeps its time. */
  function Deferred(row: Row, now: Time): Row {
    if row.held.None? then row.(held := Some(now)) else row
  }

  /** MarkScheduleRun: only over the next_run_at that was read. */
  function Marked(row: Row, copy: Row, next: Time): Row {
    if row.next == copy.next then row.(next := Some(next), held := None) else row
  }

  predicate IsDue(row: Row, now: Time) {
    row.enabled && (row.next.None? || row.next.value <= now)
  }

  /** hold: whether the due copy waits. */
  predicate Holds(copy: Row, now: Time, occupied: bool) {
    && copy.wait && occupied
    && (copy.held.None? || now < copy.held.value + copy.maxDeferral * SECOND)
  }

  predicate StillDue(row: Row, copy: Row) {
    row.enabled && row.cron == copy.cron && row.zone == copy.zone && row.next == copy.next
  }

  function NextRun(t: Times, copy: Row, now: Time): Option<Time> {
    t.nextRun(copy.cron, copy.zone, now, copy.next)
  }

  /** fire, up to enqueueing. */
  function Fired(t: Times, s: State, copy: Row, now: Time, occupied: bool): State {
    match NextRun(t, copy, now)
    case None => s.(clock := Idle)
    case Some(next) =>
      if copy.next.None? then s.(row := Marked(s.row, copy, next), clock := Idle)
      else if Holds(copy, now, occupied) then s.(row := if copy.held.Some? then s.row else Deferred(s.row, now),
            clock := Idle)
      else if StillDue(s.row, copy) then s.(clock := Confirmed(copy, now), enqueued := s.enqueued + 1)
      else s.(clock := Idle)
  }

  function Advanced(t: Times, s: State, copy: Row, now: Time): State {
    match NextRun(t, copy, now)
    case None => s.(clock := Idle)
    case Some(next) => s.(row := Marked(s.row, copy, next), clock := Idle)
  }

  function Without<T>(xs: seq<T>, i: nat): seq<T>
    requires i < |xs|
  {
    xs[..i] + xs[i + 1..]
  }

  ghost function Committed(t: Times, s: State, i: nat, now: Time): State
    requires i < |s.edits|
  {
    var rest := s.(edits := Without(s.edits, i));
    match Edited(t.cal, now, s.edits[i].body, s.edits[i].copy)
    case None => rest
    case Some(e) => rest.(row := Written(s.row, e))
  }

  /** One step; an event that does not apply changes nothing. */
  ghost function Next(t: Times, s: State, e: Event): State {
    match e
    case Load(body) => s.(edits := s.edits + [InFlight(s.row, body)])
    case Commit(i, now) => if i < |s.edits| then Committed(t, s, i, now) else s
    case Tick(now) => if s.clock.Idle? && IsDue(s.row, now) then s.(clock := Due(s.row, now)) else s
    case Judge(occupied) => if s.clock.Due? then Fired(t, s, s.clock.copy, s.clock.now, occupied) else s
    case Advance => if s.clock.Confirmed? then Advanced(t, s, s.clock.copy, s.clock.now) else s
  }

  // ----- what every interleaving keeps -----

  /** Only what stops a server waits; what stops it is spaced; the policy is within its bounds. */
  ghost predicate Steady(cal: Calendar, row: Row) {
    && (row.wait ==> PlayerAware(row.kind, row.steps))
    && (TakesServerDown(row.kind, row.steps) ==> HasBeenChecked(cal, row.cron, row.zone))
    && 60 <= row.maxDeferral <= 86400 && row.unknown != OtherPolicy
  }

  ghost predicate HasBeenChecked(cal: Calendar, cron: string, zone: string) {
    exists now :: Spaced(cal, cron, zone, now)
  }

  ghost predicate Inv(t: Times, s: State) {
    && Steady(t.cal, s.row)
    && forall i :: 0 <= i < |s.edits| ==> s.edits[i].copy.kind == s.row.kind && Steady(t.cal, s.edits[i].copy)
  }

  lemma {:induction false} TimedKeepsTheRest(cal: Calendar, now: Time, body: Body, row: Row)
    requires Timed(cal, now, body, row).Some?
    ensures
      var t := Timed(cal, now, body, row).value;
      t.row == row.(cron := t.row.cron, zone := t.row.zone, next := t.row.next)
      && (!t.rescheduled ==> t.row == row)
  {
    hide ParseCron;
  }

  lemma {:induction false} SwitchedKeeps(cal: Calendar, now: Time, body: Body, row: Row, rescheduled: bool)
    ensures
      var r := Switched(cal, now, body, row, rescheduled);
      r == row.(enabled := r.enabled, next := r.next)
  {
    hide ParseCron;
  }

  lemma {:induction false} PolicedIsBounded(cal: Calendar, body: Body, row: Row)
    requires Policed(body, row).Some? && 60 <= row.maxDeferral <= 86400
    requires TakesServerDown(row.kind, row.steps) ==> HasBeenChecked(cal, row.cron, row.zone)
    ensures Steady(cal, Policed(body, row).value) && Policed(body, row).value.kind == row.kind
  {
    hide HasBeenChecked;
  }

  /** An accepted edit of a steady row is a steady row. */
  lemma {:induction false} EditIsSteady(cal: Calendar, now: Time, body: Body, copy: Row)
    requires Steady(cal, copy) && Edited(cal, now, body, copy).Some?
    ensures var e := Edited(cal, now, body, copy).value; Steady(cal, e.row) && e.row.kind == copy.kind
  {
    hide Timed, Switched, Policed, StepsValid, StopsServer, Spaced;
    var stepped := WithSteps(body, copy).value;
    var timed := Timed(cal, now, body, stepped).value;
    TimedKeepsTheRest(cal, now, body, stepped);
    var switched := Switched(cal, now, body, timed.row, timed.rescheduled);
    SwitchedKeeps(cal, now, body, timed.row, timed.rescheduled);
    if TakesServerDown(switched.kind, switched.steps) {
      assert HasBeenChecked(cal, switched.cron, switched.zone);
    }
    PolicedIsBounded(cal, body, switched);
  }

  lemma {:induction false} StepKeepsInv(t: Times, s: State, e: Event)
    requires Inv(t, s)
    ensures Inv(t, Next(t, s, e))
  {
    hide Steady, Edited, NextRun;
    match e
    case Load(_) =>
    case Commit(i, now) =>
      if i < |s.edits| {
        var f := s.edits[i];
        if Edited(t.cal, now, f.body, f.copy).Some? {
          EditIsSteady(t.cal, now, f.body, f.copy);
          HoldIsNoMatter(t.cal, Edited(t.cal, now, f.body, f.copy).value.row, Written(s.row, Edited(t.cal, now,
                f.body, f.copy).value));
        }
      }
    case Tick(_) =>
    case Judge(_) => HoldIsNoMatter(t.cal, s.row, Next(t, s, e).row);
    case Advance => HoldIsNoMatter(t.cal, s.row, Next(t, s, e).row);
  }

  /** So is a created row, and it holds nothing. */
  lemma {:induction false} CreatedIsSteady(cal: Calendar, now: Time, kind: Kind, body: Body)
    requires Created(cal, now, kind, body).Some?
    ensures var row := Created(cal, now, kind, body).value; Steady(cal, row) && HoldMakesSense(row) && row.kind == kind
  {
    hide ParseCron, StopsServer, StepsValid, Spaced;
    var zone := if body.zone.Some? then body.zone.value else "UTC";
    var row := NewRow(kind, body, zone, ParseCron(cal, body.cron, zone, now));
    assert TakesServerDown(row.kind, row.steps) ==> HasBeenChecked(cal, row.cron, row.zone);
    PolicedIsBounded(cal, body, row);
    PolicedKeepsHold(body, row);
  }

  /** The clock's own bookkeeping is no part of being steady. */
  lemma {:induction false} HoldIsNoMatter(cal: Calendar, a: Row, b: Row)
    ensures Steady(cal, a) && b == a.(next := b.next, held := b.held) ==> Steady(cal, b)
  {
  }

  ghost function After(t: Times, s: State, events: seq<Event>): State
    decreases |events|
  {
    if events == [] then s else After(t, Next(t, s, events[0]), events[1..])
  }

  /** Over every interleaving of edits and clock steps. */
  lemma {:induction false} RunKeepsInv(t: Times, s: State, events: seq<Event>)
    requires Inv(t, s)
    ensures Inv(t, After(t, s, events))
    decreases |events|
  {
    hide Inv, Next;
    if events != [] {
      StepKeepsInv(t, s, events[0]);
      RunKeepsInv(t, Next(t, s, events[0]), events[1..]);
    }
  }

  // ----- holds -----

  predicate HoldMakesSense(row: Row) {
    row.held.Some? ==> row.enabled && row.wait
  }

  /** The two writes that can leave a hold on a row that does not wait, made from a copy that is still true. */
  ghost predicate Fresh(s: State, e: Event) {
    match e
    case Commit(i, _) => i < |s.edits| ==> s.edits[i].copy.held == s.row.held
    case Judge(_) => s.clock.Due? ==> (s.clock.copy.wait ==> s.row.enabled && s.row.wait)
    case _ => true
  }

  /** The edit moved the schedule to other times. */
  predicate Rescheduled(before: Row, now: Row) {
    now.cron != before.cron || now.zone != before.zone
  }

  /**
   What an accepted edit does to the run the clock holds and to the next one: it releases the hold
   exactly when the row is off, moved or no longer waits; a moved row next runs after now, so does one
   switched back on, and no other edit moves the next run.
  */
  lemma {:induction false} EditIsExact(cal: Calendar, now: Time, body: Body, row: Row)
    requires Advances(cal) && Edited(cal, now, body, row).Some?
    ensures
      var e := Edited(cal, now, body, row).value;
      && (e.released <==> row.held.Some? && (!e.row.enabled || Rescheduled(row, e.row) || !e.row.wait))
      && e.row.held == (if e.released then None else row.held)
      && (Rescheduled(row, e.row) ==> e.row.next.Some? && e.row.next.value > now)
      && (!Rescheduled(row, e.row) && !row.enabled && e.row.enabled && ParseCron(cal, row.cron, row.zone, now).Some?
          ==> e.row.next.Some? && e.row.next.value > now)
      && (!Rescheduled(row, e.row) && !(e.row.enabled && !row.enabled) ==> e.row.next == row.next)
  {
    hide StepsValid, StopsServer, Spaced, ParseCron;
    var stepped := WithSteps(body, row).value;
    var timed := Timed(cal, now, body, stepped).value;
    TimedIsExact(cal, now, body, stepped);
    hide Timed, Switched, Policed;
    SwitchedIsExact(cal, now, body, timed.row, timed.rescheduled);
    PolicedKeepsHold(body, Switched(cal, now, body, timed.row, timed.rescheduled));
  }

  /**
   The steps after an accepted edit are the body's or the row's own; the body's are a chain's, valid, and
   checked for their interval at the times the row then has if any of them takes the server down.
  */
  lemma {:induction false} EditReplacesSteps(cal: Calendar, now: Time, body: Body, row: Row)
    requires Edited(cal, now, body, row).Some?
    ensures
      var e := Edited(cal, now, body, row).value;
      && e.row.steps == (if body.steps.Some? then body.steps.value else row.steps)
      && (body.steps.Some? ==>
            && row.kind == Chain && StepsValid(e.row.steps)
            && (StopsServer(e.row.steps) ==> Spaced(cal, e.row.cron, e.row.zone, now))
            && (e.row.wait ==> StopsServer(e.row.steps)))
  {
    hide StepsValid, StopsServer, Spaced, ParseCron;
    var stepped := WithSteps(body, row).value;
    var timed := Timed(cal, now, body, stepped).value;
    TimedKeepsTheRest(cal, now, body, stepped);
    SwitchedKeeps(cal, now, body, timed.row, timed.rescheduled);
    var switched := Switched(cal, now, body, timed.row, timed.rescheduled);
    hide Timed, Switched;
    PolicedKeepsHold(body, switched);
  }

  lemma {:induction false} TimedIsExact(cal: Calendar, now: Time, body: Body, row: Row)
    requires Advances(cal) && Timed(cal, now, body, row).Some?
    ensures
      var t := Timed(cal, now, body, row).value;
      && (t.rescheduled <==> Rescheduled(row, t.row))
      && t.row == row.(cron := t.row.cron, zone := t.row.zone, next := t.row.next)
      && (t.rescheduled ==> t.row.next.Some? && t.row.next.value > now)
      && (!t.rescheduled ==> t.row == row)
  {
  }

  lemma {:induction false} SwitchedIsExact(cal: Calendar, now: Time, body: Body, row: Row, rescheduled: bool)
    requires Advances(cal)
    ensures
      var r := Switched(cal, now, body, row, rescheduled);
      && r == row.(enabled := r.enabled, next := r.next)
      && (!rescheduled && !row.enabled && r.enabled && ParseCron(cal, row.cron, row.zone, now).Some?
          ==> r.next.Some? && r.next.value > now)
      && (rescheduled || !(r.enabled && !row.enabled) ==> r.next == row.next)
  {
  }

  lemma {:induction false} EditReleases(cal: Calendar, now: Time, body: Body, copy: Row)
    requires Edited(cal, now, body, copy).Some?
    ensures
      var e := Edited(cal, now, body, copy).value;
      (e.released ==> copy.held.Some?) && (copy.held.Some? && !e.released ==> e.row.enabled && e.row.wait)
  {
    hide Timed, Switched, Policed, StepsValid, StopsServer, Spaced;
    var stepped := WithSteps(body, copy).value;
    TimedKeepsTheRest(cal, now, body, stepped);
    var timed := Timed(cal, now, body, stepped).value;
    SwitchedKeeps(cal, now, body, timed.row, timed.rescheduled);
    PolicedKeepsHold(body, Switched(cal, now, body, timed.row, timed.rescheduled));
  }

  lemma {:induction false} PolicedKeepsHold(body: Body, row: Row)
    ensures
      Policed(body, row).Some? ==>
        var p := Policed(body, row).value;
        p == row.(wait := p.wait, maxDeferral := p.maxDeferral, unknown := p.unknown)
  {
    hide PlayerAware;
  }

  /**
   Storing an edit leaves a hold on a row that is off or does not wait exactly when the clock recorded
   the hold after the edit loaded the row.
  */
  lemma {:induction false} CommitBreaksHoldIff(cal: Calendar, now: Time, body: Body, copy: Row, row: Row)
    requires Edited(cal, now, body, copy).Some?
    ensures
      var e := Edited(cal, now, body, copy).value;
      !HoldMakesSense(Written(row, e)) <==> row.held.Some? && copy.held.None? && !(e.row.enabled && e.row.wait)
  {
    EditReleases(cal, now, body, copy);
    hide Edited;
  }

  /** The clock leaves one exactly when the row was switched off or stopped waiting after the tick read it. */
  lemma {:induction false} JudgeBreaksHoldIff(t: Times, s: State, occupied: bool)
    requires s.clock.Due? && HoldMakesSense(s.row)
    ensures
      var copy, now := s.clock.copy, s.clock.now;
      !HoldMakesSense(Next(t, s, Judge(occupied)).row)
      <==> NextRun(t, copy, now).Some? && copy.next.Some? && copy.held.None? && Holds(copy, now, occupied) &&
            !(s.row.enabled && s.row.wait)
  {
    hide NextRun, Holds;
  }

  lemma {:induction false} FreshStepKeepsHold(t: Times, s: State, e: Event)
    requires HoldMakesSense(s.row) && Fresh(s, e)
    ensures HoldMakesSense(Next(t, s, e).row)
  {
    hide NextRun, Edited;
    match e
    case Commit(i, now) =>
      if i < |s.edits| && Edited(t.cal, now, s.edits[i].body, s.edits[i].copy).Some? {
        CommitBreaksHoldIff(t.cal, now, s.edits[i].body, s.edits[i].copy, s.row);
      }
    case Judge(occupied) => if s.clock.Due? { JudgeBreaksHoldIff(t, s, occupied); }
    case _ =>
  }

  ghost predicate AllFresh(t: Times, s: State, events: seq<Event>)
    decreases |events|
  {
    events == [] || (Fresh(s, events[0]) && AllFresh(t, Next(t, s, events[0]), events[1..]))
  }

  /** Over every run whose writes are made from copies that are still true, a held row is on and waits. */
  lemma {:induction false} RunKeepsHold(t: Times, s: State, events: seq<Event>)
    requires HoldMakesSense(s.row) && AllFresh(t, s, events)
    ensures HoldMakesSense(After(t, s, events).row)
    decreases |events|
  {
    hide HoldMakesSense, Fresh, Next;
    if events != [] {
      FreshStepKeepsHold(t, s, events[0]);
      RunKeepsHold(t, Next(t, s, events[0]), events[1..]);
    }
  }

  const STOP_WAITING := Body("", None, None, Some(false), None, None, None)

  /** And without that it fails: an edit that stops the wait, loaded before the clock's hold and stored after it. */
  lemma {:induction false} HoldOutlivesTheWait(t: Times, s: State, now: Time, later: Time)
    requires s.clock.Idle? && s.edits == [] && Steady(t.cal, s.row)
    requires s.row.wait && IsDue(s.row, now) && s.row.next.Some? && s.row.held.None? && NextRun(t, s.row, now).Some?
    ensures
      var end := After(t, s, [Load(STOP_WAITING), Tick(now), Judge(true), Commit(0, later)]);
      end.row == s.row.(wait := false, held := Some(now)) && !HoldMakesSense(end.row)
  {
    hide NextRun, Spaced, StopsServer, ParseCron;
    var s1 := Next(t, s, Load(STOP_WAITING));
    var s2 := Next(t, s1, Tick(now));
    var s3 := Next(t, s2, Judge(true));
    assert s3.row == s.row.(held := Some(now)) && s3.edits == [InFlight(s.row, STOP_WAITING)];
    assert Edited(t.cal, later, STOP_WAITING, s.row) == Some(Edit(s.row.(wait := false), false));
    var s4 := Next(t, s3, Commit(0, later));
    assert s4.row == s.row.(wait := false, held := Some(now));
    FourSteps(t, s, Load(STOP_WAITING), Tick(now), Judge(true), Commit(0, later));
  }

  lemma {:induction false} FourSteps(t: Times, s: State, a: Event, b: Event, c: Event, d: Event)
    ensures After(t, s, [a, b, c, d]) == Next(t, Next(t, Next(t, Next(t, s, a), b), c), d)
  {
    hide Next;
    var s1 := Next(t, s, a);
    assert [a, b, c, d][1..] == [b, c, d] && [b, c, d][1..] == [c, d] && [c, d][1..] == [d];
    assert After(t, s, [a, b, c, d]) == After(t, s1, [b, c, d]);
    var s2 := Next(t, s1, b);
    assert After(t, s1, [b, c, d]) == After(t, s2, [c, d]);
    var s3 := Next(t, s2, c);
    assert After(t, s2, [c, d]) == After(t, s3, [d]);
    assert After(t, s3, [d]) == After(t, Next(t, s3, d), []);
  }

  // ----- how long a hold lasts -----

  /** A tick that nothing interrupts. */
  ghost function Ticked(t: Times, s: State, now: Time, occupied: bool): State {
    Next(t, Next(t, Next(t, s, Tick(now)), Judge(occupied)), Advance)
  }

  /**
   An uninterrupted tick of a due row keeps the time the hold began, ends it at the longest deferral, and
   ends it on a row that does not wait; the run is enqueued exactly when the row is not held.
  */
  lemma {:induction false} HoldEndsInTime(t: Times, s: State, now: Time, occupied: bool)
    requires s.clock.Idle? && IsDue(s.row, now) && s.row.next.Some? && s.row.maxDeferral > 0
    requires NextRun(t, s.row, now).Some?
    ensures
      var end := Ticked(t, s, now, occupied);
      && end.clock.Idle?
      && (end.row.held.Some? <==> Holds(s.row, now, occupied))
      && (end.row.held.Some? ==> now < end.row.held.value + end.row.maxDeferral * SECOND)
      && (end.row.held.Some? && s.row.held.Some? ==> end.row.held == s.row.held)
      && (end.row.held.Some? ==> end.enqueued == s.enqueued)
      && (end.row.held.None? ==> end.enqueued == s.enqueued + 1 && end.row.next == NextRun(t, s.row, now))
      && (!s.row.wait ==> end.row.held.None?)
  {
    hide NextRun;
  }
}
