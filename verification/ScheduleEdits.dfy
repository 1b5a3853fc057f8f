/**
 What a schedule edit does to each field and when it is refused, and what one event of the clock does,
 told without the functions that compute them: internal/api/schedules.go and internal/scheduler/scheduler.go.
*/
module ScheduleEdits {
  import opened Optional
  import opened Schedules
  import opened ScheduleClock

  // ----- the tables -----

  /** Backups and restarts stop the server, and chains with a step that does; a game update does but never waits. */
  lemma {:induction false} WhatStopsTheServer(kind: Kind, steps: seq<Step>)
    ensures StopsServer(steps) <==> exists i :: 0 <= i < |steps| && steps[i] in {BackupStep, StopStep, RestartStep,
                  GameUpdateStep}
    ensures PlayerAware(kind, steps) <==> kind in {Backup, Restart} || (kind == Chain && StopsServer(steps))
    ensures TakesServerDown(kind, steps)
            <==> kind in {Backup, Restart, GameUpdate} || (kind == Chain && StopsServer(steps))
  {
    forall i | 0 <= i < |steps|
      ensures TakesDown(steps[i]) <==> steps[i] in {BackupStep, StopStep, RestartStep, GameUpdateStep}
    {
    }
  }

  /** A wait is of one second to one hour, for the server to be ready or empty if for anything; a command is a line. */
  lemma {:induction false} WhichStepsRun(seconds: int, condition: Condition, readable: bool, s: Step)
    ensures StepValid(WaitStep(seconds)) <==> 1 <= seconds <= 60 * 60
    ensures StepValid(WaitForStep(condition, seconds)) <==> condition in {Ready, Empty} && 1 <= seconds <= 60 * 60
    ensures StepValid(CommandStep(readable)) <==> readable
    ensures s in {BackupStep, StopStep, StartStep, RestartStep, GameUpdateStep} ==> StepValid(s)
    ensures !StepValid(OtherStep)
  {
  }

  /** Expressions that carry a zone or a period of their own are refused, whatever follows; no others are here. */
  lemma {:induction false} WhichExpressionsAreRefused(rest: string, expr: string)
    ensures Refused("TZ=" + rest) && Refused("CRON_TZ=" + rest) && Refused("@every" + rest)
    ensures Refused(expr) ==> "TZ=" <= expr || "CRON_TZ=" <= expr || "@every" <= expr
  {
    var a, b, c := "TZ=" + rest, "CRON_TZ=" + rest, "@every" + rest;
    assert a[..3] == "TZ=" && b[..8] == "CRON_TZ=" && c[..6] == "@every";
  }

  /** Spaced runs are an hour apart, as far as they begin within two days of the first. */
  lemma {:induction false} SpacedSays(cal: Calendar, expr: string, zone: string, from: Time, k: nat)
    requires Spaced(cal, expr, zone, from) && RunAt(cal, expr, zone, from, 0).Some?
    requires RunAt(cal, expr, zone, from, k).Some? && RunAt(cal, expr, zone, from, k + 1).Some?
    ensures
      var first, run := RunAt(cal, expr, zone, from, 0).value, RunAt(cal, expr, zone, from, k).value;
      run - first < 2 * 24 * 60 * 60 * 1_000_000_000 ==>
        RunAt(cal, expr, zone, from, k + 1).value - run >= 60 * 60 * 1_000_000_000
  {
    hide RunAt;
    assert Apart(cal, expr, zone, from, k);
  }

  // ----- an edit -----

  function Given<T>(field: Option<T>, old_: T): T { if field.Some? then field.value else old_ }

  function CronOf(body: Body, row: Row): string { if body.cron != "" then body.cron else row.cron }

  predicate Moves(body: Body, row: Row) {
    CronOf(body, row) != row.cron || Given(body.zone, row.zone) != row.zone
  }

  /** Everything an edit is refused for. */
  ghost predicate EditRefused(cal: Calendar, now: Time, body: Body, row: Row) {
    var cron, zone, steps := CronOf(body, row), Given(body.zone, row.zone), Given(body.steps, row.steps);
    || (body.steps.Some? && !(row.kind == Chain && StepsValid(steps)))
    || (body.zone.Some? && !cal.validZone(zone))
    || (Moves(body, row) && (Refused(cron) || cal.nextIn(cron, zone, now).None?))
    || ((Moves(body, row) || body.steps.Some?) && TakesServerDown(row.kind, steps) && !Spaced(cal, cron, zone, now))
    || (body.maxDeferral.Some? && !(60 <= body.maxDeferral.value <= 24 * 60 * 60))
    || Given(body.unknown, row.unknown) == OtherPolicy
    || (Given(body.wait, row.wait) && !PlayerAware(row.kind, steps))
  }

  /** An edit is refused for one of these and for nothing else. */
  lemma {:induction false} EditRefusedIff(cal: Calendar, now: Time, body: Body, row: Row)
    ensures Edited(cal, now, body, row).None? <==> EditRefused(cal, now, body, row)
  {
    hide StepsValid, Spaced, TakesServerDown, PlayerAware, Refused;
    if WithSteps(body, row).Some? {
      var stepped := WithSteps(body, row).value;
      assert stepped == row.(steps := Given(body.steps, row.steps));
      TimedIff(cal, now, body, stepped);
      hide Timed;
      if Timed(cal, now, body, stepped).Some? {
        var t := Timed(cal, now, body, stepped).value;
        SwitchedKeeps(cal, now, body, t.row, t.rescheduled);
        hide Switched;
        PolicedIff(body, Switched(cal, now, body, t.row, t.rescheduled));
        hide Policed;
      }
    }
  }

  lemma {:induction false} TimedIff(cal: Calendar, now: Time, body: Body, row: Row)
    ensures
      var cron, zone, t := CronOf(body, row), Given(body.zone, row.zone), Timed(cal, now, body, row);
      && (t.None? <==>
            || (body.zone.Some? && !cal.validZone(zone))
            || (Moves(body, row) && (Refused(cron) || cal.nextIn(cron, zone, now).None?)))
      && (t.Some? ==>
            && (t.value.rescheduled <==> Moves(body, row))
            && t.value.row == row.(cron := cron, zone := zone, next := t.value.row.next))
  {
    hide Refused;
  }

  lemma {:induction false} PolicedIff(body: Body, row: Row)
    ensures
      var p := Policed(body, row);
      && (p.None? <==>
            || (body.maxDeferral.Some? && !(60 <= body.maxDeferral.value <= 24 * 60 * 60))
            || Given(body.unknown, row.unknown) == OtherPolicy
            || (Given(body.wait, row.wait) && !PlayerAware(row.kind, row.steps)))
      && (p.Some? ==>
            p.value == row.(wait := Given(body.wait, row.wait), maxDeferral := Given(body.maxDeferral, row.maxDeferral),
                            unknown := Given(body.unknown, row.unknown)))
  {
    hide PlayerAware;
  }

  /** An accepted edit leaves each field as the body gives it, and as it was where the body does not. */
  lemma {:induction false} EditTakesTheBody(cal: Calendar, now: Time, body: Body, row: Row)
    requires Edited(cal, now, body, row).Some?
    ensures
      var r := Edited(cal, now, body, row).value.row;
      && r.kind == row.kind && r.steps == Given(body.steps, row.steps)
      && r.cron == CronOf(body, row) && r.zone == Given(body.zone, row.zone)
      && r.enabled == Given(body.enabled, row.enabled) && r.wait == Given(body.wait, row.wait)
      && r.maxDeferral == Given(body.maxDeferral, row.maxDeferral)
      && r.unknown == Given(body.unknown, row.unknown)
  {
    hide StepsValid, Spaced, TakesServerDown, PlayerAware, Refused, Timed, Switched, Policed;
    var stepped := WithSteps(body, row).value;
    assert stepped == row.(steps := Given(body.steps, row.steps));
    AppliedTakes(cal, now, body, stepped);
  }

  lemma {:induction false} AppliedTakes(cal: Calendar, now: Time, body: Body, row: Row)
    requires Applied(cal, now, body, row).Some?
    ensures
      var r := Applied(cal, now, body, row).value.row;
      r == row.(cron := CronOf(body, row), zone := Given(body.zone, row.zone), next := r.next, held := r.held,
                enabled := Given(body.enabled, row.enabled), wait := Given(body.wait, row.wait),
                maxDeferral := Given(body.maxDeferral, row.maxDeferral), unknown := Given(body.unknown, row.unknown))
  {
    hide StepsValid, Spaced, TakesServerDown, PlayerAware, Refused, Timed, Switched, Policed;
    TimedIff(cal, now, body, row);
    var t := Timed(cal, now, body, row).value;
    SwitchedTakes(cal, now, body, t.row, t.rescheduled);
    PolicedIff(body, Switched(cal, now, body, t.row, t.rescheduled));
  }

  lemma {:induction false} SwitchedTakes(cal: Calendar, now: Time, body: Body, row: Row, rescheduled: bool)
    ensures
      var r := Switched(cal, now, body, row, rescheduled);
      r == row.(enabled := Given(body.enabled, row.enabled), next := r.next)
  {
    hide ParseCron;
  }

  predicate ParsesNow(cal: Calendar, now: Time, row: Row) {
    !Refused(row.cron) && cal.nextIn(row.cron, row.zone, now).Some?
  }

  /** The next run after an edit: the moved row's next, or that of a row switched back on, or the one it had. */
  function NextAfter(cal: Calendar, now: Time, body: Body, row: Row): Option<Time> {
    if Moves(body, row) then cal.nextIn(CronOf(body, row), Given(body.zone, row.zone), now)
    else if body.enabled == Some(true) && !row.enabled && ParsesNow(cal, now, row) then
      cal.nextIn(row.cron, row.zone, now)
    else row.next
  }

  lemma {:induction false} EditSetsTheNextRun(cal: Calendar, now: Time, body: Body, row: Row)
    requires Edited(cal, now, body, row).Some?
    ensures Edited(cal, now, body, row).value.row.next == NextAfter(cal, now, body, row)
  {
    hide StepsValid, Spaced, TakesServerDown, PlayerAware, Refused, Timed, Switched, Policed;
    var stepped := WithSteps(body, row).value;
    assert stepped == row.(steps := Given(body.steps, row.steps));
    TimedIff(cal, now, body, stepped);
    TimedNext(cal, now, body, stepped);
    var t := Timed(cal, now, body, stepped).value;
    SwitchedNext(cal, now, body, t.row, t.rescheduled);
    PolicedIff(body, Switched(cal, now, body, t.row, t.rescheduled));
  }

  lemma {:induction false} TimedNext(cal: Calendar, now: Time, body: Body, row: Row)
    requires Timed(cal, now, body, row).Some?
    ensures Timed(cal, now, body, row).value.row.next
            == if Moves(body, row) then cal.nextIn(CronOf(body, row), Given(body.zone, row.zone), now) else row.next
  {
    hide Refused;
  }

  lemma {:induction false} SwitchedNext(cal: Calendar, now: Time, body: Body, row: Row, rescheduled: bool)
    ensures Switched(cal, now, body, row, rescheduled).next
            == if body.enabled == Some(true) && !row.enabled && !rescheduled && ParsesNow(cal, now, row) then
                 cal.nextIn(row.cron, row.zone, now)
               else row.next
  {
    hide Refused;
  }

  /** A new row: on unless the body says off, two hours of deferral, waiting for nobody. */
  lemma {:induction false} CreatedTakesTheBody(cal: Calendar, now: Time, kind: Kind, body: Body)
    requires Created(cal, now, kind, body).Some?
    ensures
      var r := Created(cal, now, kind, body).value;
      && r.kind == kind && r.cron == body.cron && r.zone == Given(body.zone, "UTC")
      && r.steps == Given(body.steps, []) && r.enabled == Given(body.enabled, true)
      && r.wait == Given(body.wait, false) && r.maxDeferral == Given(body.maxDeferral, 2 * 60 * 60)
      && r.unknown == Given(body.unknown, WaitUnknown) && r.held == None
      && r.next.Some? && !Refused(body.cron) && r.next == cal.nextIn(body.cron, r.zone, now)
  {
    hide StepsValid, Spaced, StopsServer, Refused;
    var zone := Given(body.zone, "UTC");
    PolicedIff(body, NewRow(kind, body, zone, ParseCron(cal, body.cron, zone, now)));
    hide Policed;
  }

  // ----- an event of the clock -----

  /** Players keep a run waiting, but not past the longest deferral. */
  predicate Waits(copy: Row, now: Time, occupied: bool) {
    copy.wait && occupied && (copy.held.Some? ==> now - copy.held.value < copy.maxDeferral * 1_000_000_000)
  }

  /** A tick picks the row up exactly when the clock is free and the row is on and due. */
  lemma {:induction false} TickPicksUp(t: Times, s: State, now: Time)
    ensures
      var s' := Next(t, s, Tick(now));
      && s' == s.(clock := s'.clock)
      && (s'.clock != s.clock ==> s'.clock == Due(s.row, now))
      && (s.clock.Idle? ==> (s'.clock.Due? <==> s.row.enabled && (s.row.next.None? || s.row.next.value <= now)))
  {
  }

  /**
   What is judged due runs exactly when nobody keeps it waiting and the row, read again, is still on and due at
   those times; a wait is recorded once; a row that never ran is given its next time and not run.
  */
  lemma {:induction false} DueRunsIff(t: Times, s: State, occupied: bool)
    requires s.clock.Due? && NextRun(t, s.clock.copy, s.clock.now).Some?
    ensures
      var copy, now, s' := s.clock.copy, s.clock.now, Next(t, s, Judge(occupied));
      && (s'.enqueued == s.enqueued + 1 <==>
            && copy.next.Some? && !Waits(copy, now, occupied)
            && s.row.enabled && s.row.cron == copy.cron && s.row.zone == copy.zone && s.row.next == copy.next)
      && (s'.enqueued != s.enqueued + 1 ==> s'.enqueued == s.enqueued && s'.clock.Idle?)
      && (s'.enqueued == s.enqueued + 1 ==> s'.clock == Confirmed(copy, now) && s'.row == s.row)
      && (copy.next.Some? && Waits(copy, now, occupied) ==>
            s'.row == if copy.held.None? && s.row.held.None? then s.row.(held := Some(now)) else s.row)
      && (copy.next.None? && s.row.next.None? ==>
            s'.row == s.row.(next := NextRun(t, copy, now), held := None))
  {
    hide NextRun;
  }

  /** After the run the row moves on, unless it was moved meanwhile, and holds nothing. */
  lemma {:induction false} RunMovesOn(t: Times, s: State)
    requires s.clock.Confirmed? && NextRun(t, s.clock.copy, s.clock.now).Some?
    ensures
      var copy, s' := s.clock.copy, Next(t, s, Advance);
      && s'.clock.Idle? && s'.enqueued == s.enqueued && s'.edits == s.edits
      && s'.row == if s.row.next != copy.next then s.row
                   else s.row.(next := NextRun(t, copy, s.clock.now), held := None)
  {
    hide NextRun;
  }

  /** A stored edit writes its row, but a hold it does not end is left as the database has it. */
  lemma {:induction false} CommitWrites(t: Times, s: State, i: nat, now: Time)
    requires i < |s.edits|
    ensures
      var s', e := Next(t, s, Commit(i, now)), Edited(t.cal, now, s.edits[i].body, s.edits[i].copy);
      && s'.edits == s.edits[..i] + s.edits[i + 1..] && s'.clock == s.clock && s'.enqueued == s.enqueued
      && (e.None? ==> s'.row == s.row)
      && (e.Some? ==>
            s'.row == e.value.row.(kind := s.row.kind, held := if e.value.released then None else s.row.held))
  {
    hide Edited;
  }
}
