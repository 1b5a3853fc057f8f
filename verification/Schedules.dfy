/**
 Schedule edits of internal/api/schedules.go: the timing, the player policy and the release of a held
 run, and the check that keeps a server from being stopped more than once an hour.
*/
module Schedules {
  import opened Optional

  /** Nanoseconds. */
  type Time = int

  const HOUR: int := 3_600_000_000_000

  datatype Kind = UpdateCheck | Backup | Restart | GameUpdate | Prune | AlertScan | Chain

  datatype Condition = Ready | Empty | OtherCondition

  /** A chain step; a command is here only as whether it reads as one line. */
  datatype Step =
    | CommandStep(readable: bool) | WaitStep(seconds: int) | WaitForStep(condition: Condition, seconds: int)
    | BackupStep | StopStep | StartStep | RestartStep | GameUpdateStep | OtherStep

  predicate TakesDown(s: Step) { s.BackupStep? || s.StopStep? || s.RestartStep? || s.GameUpdateStep? }

  predicate StopsServer(steps: seq<Step>) {
    exists i :: 0 <= i < |steps| && TakesDown(steps[i])
  }

  predicate StepValid(s: Step) {
    match s
    case CommandStep(readable) => readable
    case WaitStep(seconds) => 1 <= seconds <= 3600
    case WaitForStep(condition, seconds) => condition != OtherCondition && 1 <= seconds <= 3600
    case OtherStep => false
    case _ => true
  }

  predicate StepsValid(steps: seq<Step>) {
    1 <= |steps| <= 20 && forall i :: 0 <= i < |steps| ==> StepValid(steps[i])
  }

  datatype UnknownPlayers = WaitUnknown | RunUnknown | OtherPolicy

  /** A row of scheduled_jobs; steps is a chain's payload. */
  datatype Row = Row(
    kind: Kind, steps: seq<Step>, cron: string, zone: string, enabled: bool, next: Option<Time>,
    wait: bool, maxDeferral: int, unknown: UnknownPlayers, held: Option<Time>)

  /** A PATCH body, its texts trimmed; an empty cron is absent. */
  datatype Body = Body(
    cron: string, zone: Option<string>, enabled: Option<bool>, wait: Option<bool>, maxDeferral: Option<int>,
    unknown: Option<UnknownPlayers>, steps: Option<seq<Step>>)

  /** The cron parser and the time zones. */
  datatype Calendar = Calendar(validZone: string -> bool, nextIn: (string, string, Time) -> Option<Time>)

  /** Next is strictly after. */
  ghost predicate Advances(cal: Calendar) {
    forall expr, zone, t :: cal.nextIn(expr, zone, t).Some? ==> cal.nextIn(expr, zone, t).value > t
  }

  /** spec.forSteps(steps).playerAware */
  predicate PlayerAware(kind: Kind, steps: seq<Step>) {
    kind == Backup || kind == Restart || (kind == Chain && StopsServer(steps))
  }

  predicate TakesServerDown(kind: Kind, steps: seq<Step>) {
    PlayerAware(kind, steps) || kind == GameUpdate
  }

  predicate Prefixed(s: string, prefix: string) { |s| >= |prefix| && s[..|prefix|] == prefix }

  /** Spellings the parser would honour and parseCron refuses. */
  predicate Refused(expr: string) {
    Prefixed(expr, "TZ=") || Prefixed(expr, "CRON_TZ=") || Prefixed(expr, "@every")
  }

  function ParseCron(cal: Calendar, expr: string, zone: string, now: Time): Option<Time> {
    if Refused(expr) then None else cal.nextIn(expr, zone, now)
  }

  // ----- the interval check -----

  /** The k-th run after `from`, None once the calendar has no next. */
  function RunAt(cal: Calendar, expr: string, zone: string, from: Time, k: nat): Option<Time> {
    if k == 0 then cal.nextIn(expr, zone, from)
    else
      match RunAt(cal, expr, zone, from, k - 1)
      case None => None
      case Some(t) => cal.nextIn(expr, zone, t)
  }

  /** Runs k and k+1 exist and run k is within two days of run 0. */
  predicate Judged(cal: Calendar, expr: string, zone: string, from: Time, k: nat) {
    var first, run, next := RunAt(cal, expr, zone, from, 0), RunAt(cal, expr, zone, from, k), RunAt(cal, expr, zone,
          from, k + 1);
    first.Some? && run.Some? && next.Some? && run.value < first.value + 48 * HOUR
  }

  predicate Apart(cal: Calendar, expr: string, zone: string, from: Time, k: nat) {
    Judged(cal, expr, zone, from, k) ==>
      RunAt(cal, expr, zone, from, k + 1).value - RunAt(cal, expr, zone, from, k).value >= HOUR
  }

  /** Every run in the next two days is at least an hour before the one after it. */
  ghost predicate Spaced(cal: Calendar, expr: string, zone: string, from: Time) {
    forall k: nat :: Apart(cal, expr, zone, from, k)
  }

  lemma {:induction false} RunsAscend(cal: Calendar, expr: string, zone: string, from: Time, j: nat, k: nat)
    requires Advances(cal) && j <= k && RunAt(cal, expr, zone, from, k).Some?
    ensures RunAt(cal, expr, zone, from, j).Some?
    ensures RunAt(cal, expr, zone, from, j).value <= RunAt(cal, expr, zone, from, k).value
    decreases k
  {
    if j < k { RunsAscend(cal, expr, zone, from, j, k - 1); }
  }

  /** checkInterval for a kind that takes the server down. rounds counts the loop's iterations. */
  method CheckInterval(cal: Calendar, expr: string, zone: string, now: Time) returns (ok: bool, rounds: nat)
    requires Advances(cal)
    ensures ok <==> Spaced(cal, expr, zone, now)
    ensures rounds <= 48
  {
    rounds := 0;
    var first := cal.nextIn(expr, zone, now);
    if first.None? { return true, 0; }
    var prev := first.value;
    var horizon := prev + 48 * HOUR;
    while prev < horizon
      invariant RunAt(cal, expr, zone, now, rounds) == Some(prev)
      invariant prev >= first.value + rounds * HOUR && rounds <= 48
      invariant forall k: nat :: k < rounds ==> Apart(cal, expr, zone, now, k)
      decreases horizon - prev
    {
      var next := cal.nextIn(expr, zone, prev);
      if next.None? {
        assert RunAt(cal, expr, zone, now, rounds + 1).None?;
        NothingLater(cal, expr, zone, now, rounds + 1);
        assert forall k: nat :: Apart(cal, expr, zone, now, k);
        return true, rounds;
      }
      if next.value - prev < HOUR {
        assert !Apart(cal, expr, zone, now, rounds);
        return false, rounds;
      }
      prev := next.value;
      rounds := rounds + 1;
    }
    forall k: nat | Judged(cal, expr, zone, now, k) ensures Apart(cal, expr, zone, now, k) {
      if k >= rounds { RunsAscend(cal, expr, zone, now, rounds, k); }
    }
    return true, rounds;
  }

  lemma {:induction false} NothingLater(cal: Calendar, expr: string, zone: string, from: Time, end: nat)
    requires Advances(cal) && RunAt(cal, expr, zone, from, end).None?
    ensures forall k: nat :: k + 1 >= end ==> !Judged(cal, expr, zone, from, k)
  {
    forall k: nat | k + 1 >= end ensures !Judged(cal, expr, zone, from, k) {
      if RunAt(cal, expr, zone, from, k + 1).Some? { RunsAscend(cal, expr, zone, from, end, k + 1); }
    }
  }

  // ----- an edit, as the row it leaves -----

  datatype Timing = Timing(row: Row, rescheduled: bool)

  /** applyScheduleTiming; None is the refusal. */
  function Timed(cal: Calendar, now: Time, body: Body, row: Row): Option<Timing> {
    if body.zone.Some? && !cal.validZone(body.zone.value) then None
    else
      var zone := if body.zone.Some? then body.zone.value else row.zone;
      var cron := if body.cron != "" then body.cron else row.cron;
      if zone == row.zone && cron == row.cron then Some(Timing(row, false))
      else
        match ParseCron(cal, cron, zone, now)
        case None => None
        case Some(next) => Some(Timing(row.(zone := zone, cron := cron, next := Some(next)), true))
  }

  /** applyPlayerPolicy */
  function Policed(body: Body, row: Row): Option<Row> {
    var policed := row.(
      wait := if body.wait.Some? then body.wait.value else row.wait,
      maxDeferral := if body.maxDeferral.Some? then body.maxDeferral.value else row.maxDeferral,
      unknown := if body.unknown.Some? then body.unknown.value else row.unknown);
    if body.maxDeferral.Some? && !(60 <= body.maxDeferral.value <= 86400) then None
    else if policed.unknown == OtherPolicy then None
    else if policed.wait && !PlayerAware(row.kind, row.steps) then None
    else Some(policed)
  }

  /** A re-enabled schedule resumes at its next occurrence. */
  function Switched(cal: Calendar, now: Time, body: Body, row: Row, rescheduled: bool): Row {
    match body.enabled
    case None => row
    case Some(on) =>
      var next := if on && !row.enabled && !rescheduled then ParseCron(cal, row.cron, row.zone, now) else None;
      row.(enabled := on, next := if next.Some? then next else row.next)
  }

  /** editSteps */
  function WithSteps(body: Body, row: Row): Option<Row> {
    match body.steps
    case None => Some(row)
    case Some(steps) => if row.kind == Chain && StepsValid(steps) then Some(row.(steps := steps)) else None
  }

  /** released: the edit ends the hold the copy showed. */
  datatype Edit = Edit(row: Row, released: bool)

  function Released(row: Row, rescheduled: bool): Edit {
    var released := row.held.Some? && (!row.enabled || rescheduled || !row.wait);
    Edit(if released then row.(held := None) else row, released)
  }

  /** applyEdit, after editSteps. */
  ghost function Applied(cal: Calendar, now: Time, body: Body, row: Row): Option<Edit> {
    match Timed(cal, now, body, row)
    case None => None
    case Some(t) =>
      if (t.rescheduled || body.steps.Some?) && TakesServerDown(row.kind, row.steps) &&
            !Spaced(cal, t.row.cron, t.row.zone, now) then None
      else
        match Policed(body, Switched(cal, now, body, t.row, t.rescheduled))
        case None => None
        case Some(policed) => Some(Released(policed, t.rescheduled))
  }

  /** A PATCH on the row as it was loaded. */
  ghost function Edited(cal: Calendar, now: Time, body: Body, row: Row): Option<Edit> {
    match WithSteps(body, row)
    case None => None
    case Some(stepped) => Applied(cal, now, body, stepped)
  }

  /** requestSteps: a chain needs valid steps, any other kind refuses them. */
  function RequestedSteps(kind: Kind, body: Body): Option<seq<Step>> {
    if kind != Chain then if body.steps.Some? then None else Some([])
    else
      var steps := if body.steps.Some? then body.steps.value else [];
      if StepsValid(steps) then Some(steps) else None
  }

  function NewRow(kind: Kind, body: Body, zone: string, next: Option<Time>): Row {
    var steps := RequestedSteps(kind, body);
    Row(kind, if steps.Some? then steps.value else [], body.cron, zone, body.enabled.None? || body.enabled.value, next,
        false, 7200, WaitUnknown, None)
  }

  /** newScheduleRow: two hours of deferral and waiting on an unknown count unless the body says otherwise. */
  ghost function Created(cal: Calendar, now: Time, kind: Kind, body: Body): Option<Row> {
    var zone := if body.zone.Some? then body.zone.value else "UTC";
    var next := ParseCron(cal, body.cron, zone, now);
    var row := NewRow(kind, body, zone, next);
    if RequestedSteps(kind, body).None? || !cal.validZone(zone) || next.None? then None
    else if TakesServerDown(kind, row.steps) && !Spaced(cal, body.cron, zone, now) then None
    else Policed(body, row)
  }

  /** The row a handler loaded and edits in place. */
  class Schedule {
    const kind: Kind
    var steps: seq<Step>
    var cron: string
    var zone: string
    var enabled: bool
    var next: Option<Time>
    var wait: bool
    var maxDeferral: int
    var unknown: UnknownPlayers
    var held: Option<Time>

    constructor (row: Row)
      ensures Contents() == row
    {
      kind, steps, cron, zone, enabled, next := row.kind, row.steps, row.cron, row.zone, row.enabled, row.next;
      wait, maxDeferral, unknown, held := row.wait, row.maxDeferral, row.unknown, row.held;
    }

    function Contents(): Row
      reads this
    {
      Row(kind, steps, cron, zone, enabled, next, wait, maxDeferral, unknown, held)
    }

    method ApplyPlayerPolicy(body: Body) returns (ok: bool)
      modifies this
      ensures ok <==> Policed(body, old(Contents())).Some?
      ensures ok ==> Contents() == Policed(body, old(Contents())).value
    {
      hide PlayerAware;
      if body.wait.Some? { wait := body.wait.value; }
      if body.maxDeferral.Some? {
        var secs := body.maxDeferral.value;
        if secs < 60 || secs > 86400 { return false; }
        maxDeferral := secs;
      }
      if body.unknown.Some? { unknown := body.unknown.value; }
      if unknown != WaitUnknown && unknown != RunUnknown { return false; }
      if wait && !PlayerAware(kind, steps) { return false; }
      return true;
    }

    method ApplyScheduleTiming(cal: Calendar, now: Time, body: Body) returns (rescheduled: bool, ok: bool)
      modifies this
      ensures ok <==> Timed(cal, now, body, old(Contents())).Some?
      ensures ok ==> Timed(cal, now, body, old(Contents())).value == Timing(Contents(), rescheduled)
    {
      hide ParseCron;
      rescheduled := false;
      if body.zone.Some? {
        if !cal.validZone(body.zone.value) { return false, false; }
        if body.zone.value != zone { zone, rescheduled := body.zone.value, true; }
      }
      if body.cron != "" && body.cron != cron { cron, rescheduled := body.cron, true; }
      if !rescheduled { return false, true; }
      var parsed := ParseCron(cal, cron, zone, now);
      if parsed.None? { return false, false; }
      next := parsed;
      return true, true;
    }

    method EditSteps(body: Body) returns (ok: bool)
      modifies this
      ensures ok <==> WithSteps(body, old(Contents())).Some?
      ensures ok ==> Contents() == WithSteps(body, old(Contents())).value
    {
      if body.steps.None? { return true; }
      if kind != Chain || !StepsValid(body.steps.value) { return false; }
      steps := body.steps.value;
      return true;
    }

    method SwitchEnabled(cal: Calendar, now: Time, body: Body, rescheduled: bool)
      modifies this
      ensures Contents() == Switched(cal, now, body, old(Contents()), rescheduled)
    {
      hide ParseCron;
      if body.enabled.Some? {
        if body.enabled.value && !enabled && !rescheduled {
          var parsed := ParseCron(cal, cron, zone, now);
          if parsed.Some? { next := parsed; }
        }
        enabled := body.enabled.value;
      }
    }

    method ApplyEdit(cal: Calendar, now: Time, body: Body) returns (released: bool, ok: bool)
      requires Advances(cal)
      modifies this
      ensures ok <==> Applied(cal, now, body, old(Contents())).Some?
      ensures ok ==> Applied(cal, now, body, old(Contents())).value == Edit(Contents(), released)
    {
      hide Timed, Policed, Switched, Spaced, Advances, TakesServerDown;
      ghost var row := Contents();
      var rescheduled;
      rescheduled, ok := ApplyScheduleTiming(cal, now, body);
      if !ok { return false, false; }
      TimingKeepsSteps(cal, now, body, row);
      if (rescheduled || body.steps.Some?) && TakesServerDown(kind, steps) {
        var spaced, rounds := CheckInterval(cal, cron, zone, now);
        if !spaced { return false, false; }
      }
      SwitchEnabled(cal, now, body, rescheduled);
      ok := ApplyPlayerPolicy(body);
      if !ok { return false, false; }
      released := held.Some? && (!enabled || rescheduled || !wait);
      if released { held := None; }
    }

    /** patch: nothing is stored when ok is false. */
    method Patch(cal: Calendar, now: Time, body: Body) returns (released: bool, ok: bool)
      requires Advances(cal)
      modifies this
      ensures ok <==> Edited(cal, now, body, old(Contents())).Some?
      ensures ok ==> Edited(cal, now, body, old(Contents())).value == Edit(Contents(), released)
    {
      hide Applied, WithSteps, Advances;
      ok := EditSteps(body);
      if !ok { return false, false; }
      released, ok := ApplyEdit(cal, now, body);
    }
  }

  lemma {:induction false} TimingKeepsSteps(cal: Calendar, now: Time, body: Body, row: Row)
    requires Timed(cal, now, body, row).Some?
    ensures var t := Timed(cal, now, body, row).value.row; t.kind == row.kind && t.steps == row.steps
  {
    hide ParseCron;
  }
}
