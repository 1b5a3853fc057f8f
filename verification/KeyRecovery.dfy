/**
 Key-loss recovery, cmd/valmind/keyloss.go: every stored secret the new master key cannot open is
 reset, one store operation at a time. A run can be cut before any of them and started again.
*/
module KeyRecovery {
  import opened Optional

  /** The sealed columns of internal/store/rotate.go, in the order they are listed. */
  datatype Column = RemoteCredentials | InstancePassword | BranchPassword | TotpSecret | WebhookUrl | DiscordToken

  /** Where an envelope belongs; sealing binds it to that place. */
  datatype Location = KeyCheck | Cell(column: Column, row: string)

  /** A stored value: empty, an envelope, or text no key opens (which may begin like an envelope without a key id). */
  datatype Secret = Cleared | Sealed(key: nat, home: Location, nonce: nat) | Garbled(blankKeyId: bool)

  /** The master key's generations, by identity, and the one it seals with. */
  datatype Keeper = Keeper(keys: set<nat>, active: nat) {
    predicate Valid() { active in keys }

    /** Encrypt by the active key gives this. */
    predicate Seals(at: Location, s: Secret) {
      Opens(at, s) && s.key == active
    }

    /** Decrypt succeeds. */
    predicate Opens(at: Location, s: Secret) {
      s.Sealed? && s.key in keys && s.home == at
    }
  }

  /** restart holds the instances marked restart_required. */
  datatype Db = Db(secrets: map<Location, Secret>, enabled: set<Location>, restart: set<string>,
        check: Option<Secret>) {
    ghost predicate Valid() {
      && (forall at :: at in secrets ==> at.Cell?)
      && (forall at :: at in enabled ==> at in secrets && at.column in {RemoteCredentials, WebhookUrl, DiscordToken})
      && OneBot()
    }

    /** The unique index over discord_bot allows one row. */
    ghost predicate OneBot() {
      forall r, q :: Cell(DiscordToken, r) in secrets && Cell(DiscordToken, q) in secrets ==> r == q
    }
  }

  predicate CheckOpens(k: Keeper, db: Db) {
    db.check.Some? && k.Opens(KeyCheck, db.check.value)
  }

  /** What ListSecrets returns: everything not empty and not opening with an empty key id. */
  predicate Listed(s: Secret) {
    s != Cleared && !(s.Garbled? && s.blankKeyId)
  }

  predicate Stale(k: Keeper, at: Location, s: Secret) {
    Listed(s) && !k.Opens(at, s)
  }

  ghost predicate NoneStale(k: Keeper, db: Db) {
    forall at :: at in db.secrets ==> !Stale(k, at, db.secrets[at])
  }

  // ----- what recovery may have done between two states -----

  /** What recovery leaves in place of a stale value. */
  predicate IsReset(k: Keeper, at: Location, s: Secret) {
    if at.Cell? && at.column == InstancePassword then k.Seals(at, s) else s == Cleared
  }

  /** One place: kept unless stale, and switched on only while it still holds its own secret. */
  predicate KeptAt(k: Keeper, a: Db, b: Db, at: Location)
    requires at in a.secrets && at in b.secrets
  {
    && (at in b.enabled ==> at in a.enabled && b.secrets[at] == a.secrets[at])
    && if Stale(k, at, a.secrets[at]) then b.secrets[at] == a.secrets[at] || IsReset(k, at, b.secrets[at])
       else b.secrets[at] == a.secrets[at] && (at in a.enabled ==> at in b.enabled)
  }

  predicate RestartAt(a: Db, b: Db, id: string) {
    var at := Cell(InstancePassword, id);
    id in b.restart <==> id in a.restart || (at in a.secrets && at in b.secrets && b.secrets[at] != a.secrets[at])
  }

  ghost predicate CheckKept(k: Keeper, a: Db, b: Db) {
    b.check == a.check || (CheckOpens(k, b) && k.Seals(KeyCheck, b.check.value) && NoneStale(k, b))
  }

  ghost predicate SecretsKept(k: Keeper, a: Db, b: Db) {
    && a.secrets.Keys == b.secrets.Keys
    && (forall at :: at in a.secrets ==> KeptAt(k, a, b, at))
    && forall id :: RestartAt(a, b, id)
  }

  /** b is a after any part of any number of recoveries. */
  ghost predicate Between(k: Keeper, a: Db, b: Db) {
    a.Valid() && b.Valid() && SecretsKept(k, a, b) && CheckKept(k, a, b)
  }

  // ----- the store -----

  function WithoutBots(enabled: set<Location>): set<Location> {
    set at | at in enabled && !(at.Cell? && at.column == DiscordToken)
  }

  /** The conditional update of ReplaceSecret: it writes only over the envelope that was read. */
  function Replaced(db: Db, at: Location, was: Secret, sealed: Secret): Db {
    if at in db.secrets && db.secrets[at] == was then db.(secrets := db.secrets[at := sealed]) else db
  }

  datatype StaleSecret = StaleSecret(at: Location, envelope: Secret)

  datatype Outcome = Cut | AlreadyMatches | Accepted(report: seq<Location>)

  ghost predicate TouchesOnly(a: Db, b: Db, at: Location) {
    && a.secrets.Keys == b.secrets.Keys && a.check == b.check
    && (forall l :: l in a.secrets && l != at ==> b.secrets[l] == a.secrets[l])
    && forall l :: l != at ==> (l in a.enabled <==> l in b.enabled)
  }

  class Store {
    var db: Db
    /** Store operations that still complete before the process is cut. */
    var left: nat

    /** A read; false when the cut comes first. */
    method Read() returns (ok: bool)
      modifies this`left
      ensures ok == (old(left) > 0)
      ensures left == if ok then old(left) - 1 else 0
    {
      ok := left > 0;
      if ok { left := left - 1; }
    }

    /** One statement: done whole, or not at all. */
    method Write(next: Db) returns (ok: bool)
      modifies this
      ensures ok == (old(left) > 0)
      ensures left == if ok then old(left) - 1 else 0
      ensures db == if ok then next else old(db)
    {
      ok := left > 0;
      if ok { left, db := left - 1, next; }
    }

    method ListSecrets() returns (found: Option<seq<StaleSecret>>)
      modifies this`left
      ensures found.None? <==> old(left) == 0
      ensures found.None? ==> left == 0
      ensures found.Some? ==> IsListing(db, found.value)
    {
      var ok := Read();
      if !ok { return None; }
      var out: seq<StaleSecret> := [];
      var todo := db.secrets.Keys;
      while todo != {}
        invariant todo <= db.secrets.Keys
        invariant forall i :: 0 <= i < |out| ==> out[i].at in db.secrets && out[i].at !in todo && Taken(db, out[i])
        invariant forall i, j :: 0 <= i < j < |out| ==> out[i].at != out[j].at
        invariant forall at :: at in db.secrets && at !in todo && Listed(db.secrets[at]) ==>
              StaleSecret(at, db.secrets[at]) in out
        decreases todo
      {
        var at :| at in todo;
        todo := todo - {at};
        if Listed(db.secrets[at]) { out := out + [StaleSecret(at, db.secrets[at])]; }
      }
      return Some(out);
    }

    /** clearSecret */
    method ClearSecret(s: StaleSecret) returns (ok: bool)
      modifies this
      ensures ok == (old(left) > 0)
      ensures left == if ok then old(left) - 1 else 0
      ensures db == if ok then Replaced(old(db), s.at, s.envelope, Cleared) else old(db)
    {
      ok := Write(Replaced(db, s.at, s.envelope, Cleared));
    }

    /** The switch goes off before the secret goes, for the columns that have a switch. */
    method DisableThenClear(s: StaleSecret, switched: set<Location>) returns (ok: bool)
      requires db.Valid() && Taken(db, s) && s.at in db.secrets
      requires s.at !in switched && forall l :: l != s.at ==> (l in switched <==> l in db.enabled)
      modifies this
      ensures !ok ==> left == 0
      ensures TouchesOnly(old(db), db, s.at) && db.restart == old(db).restart
      ensures s.at in db.enabled ==> s.at in old(db).enabled && db.secrets[s.at] == s.envelope
      ensures db.secrets[s.at] == s.envelope || db.secrets[s.at] == Cleared
      ensures ok ==> db.secrets[s.at] == Cleared
    {
      ok := Write(db.(enabled := switched));
      if !ok { return; }
      ok := ClearSecret(s);
    }

    method ResetServerPassword(k: Keeper, s: StaleSecret) returns (ok: bool)
      requires k.Valid() && db.Valid() && s.at in db.secrets && Taken(db, s)
      requires s.at.column == InstancePassword
      modifies this
      ensures !ok ==> left == 0 && db == old(db)
      ensures TouchesOnly(old(db), db, s.at) && db.enabled == old(db).enabled
      ensures ok ==> k.Seals(s.at, db.secrets[s.at]) && db.restart == old(db).restart + {s.at.row}
    {
      ok := Read();
      if !ok { return; }
      if s.at !in db.secrets { return false; }
      var nonce: nat := *;
      var sealed := Sealed(k.active, s.at, nonce);
      ok := Write(db.(secrets := db.secrets[s.at := sealed], restart := db.restart + {s.at.row}));
    }

    /** One stale secret, by its column's rule. */
    method Reset(k: Keeper, s: StaleSecret) returns (ok: bool)
      requires k.Valid() && db.Valid() && s.at in db.secrets && Taken(db, s) && Stale(k, s.at, s.envelope)
      modifies this
      ensures !ok ==> left == 0
      ensures TouchesOnly(old(db), db, s.at) && db.Valid() && SecretsKept(k, old(db), db)
      ensures ok ==> IsReset(k, s.at, db.secrets[s.at])
    {
      match s.at.column
      case InstancePassword =>
        ok := ResetServerPassword(k, s);
      case BranchPassword =>
        ok := Read();
        if ok { ok := ClearSecret(s); }
      case RemoteCredentials =>
        ok := DisableThenClear(s, db.enabled - {s.at});
      case TotpSecret =>
        ok := ClearSecret(s);
      case WebhookUrl =>
        ok := Read();
        if !ok { return; }
        if s.at !in db.secrets { return false; }
        ok := DisableThenClear(s, db.enabled - {s.at});
      case DiscordToken =>
        ok := DisableThenClear(s, WithoutBots(db.enabled));
    }

    /**
     acceptNewKey, cut after `left` store operations. Whatever the cut, the database is between where
     it was and where a whole run would leave it.
    */
    method AcceptNewKey(k: Keeper) returns (outcome: Outcome)
      requires k.Valid() && db.Valid()
      modifies this
      ensures Between(k, old(db), db)
      ensures outcome.Cut? ==> left == 0 && db.check == old(db).check
      ensures outcome.AlreadyMatches? ==> CheckOpens(k, old(db))
      ensures CheckOpens(k, old(db)) ==> db == old(db) && !outcome.Accepted?
      ensures outcome.Accepted? ==> CheckOpens(k, db) && NoneStale(k, db) && IsReport(k, old(db), outcome.report)
    {
      var ok := Read();
      if !ok { NothingKept(k, db); return Cut; }
      if CheckOpens(k, db) { NothingKept(k, db); return AlreadyMatches; }
      var found := ListSecrets();
      NothingKept(k, db);
      if found.None? { return Cut; }
      ghost var was := db;
      var report;
      ok, report := ResetAll(k, found.value);
      hide Between, SecretsKept, CheckKept, Db.Valid, IsListing, IsReportOf, AllReset, NoneStale, IsReport;
      CheckUntouched(k, was, db);
      if !ok { return Cut; }
      var nonce: nat := *;
      var sealed := Sealed(k.active, KeyCheck, nonce);
      AllResetLeavesNone(k, was, db, found.value);
      ReportOfListing(k, was, found.value, report);
      CheckWritten(k, was, db, sealed);
      ok := Write(db.(check := Some(sealed)));
      if !ok { return Cut; }
      return Accepted(report);
    }

    /** The loop over the listed secrets. */
    method ResetAll(k: Keeper, secrets: seq<StaleSecret>) returns (ok: bool, report: seq<Location>)
      requires k.Valid() && db.Valid() && IsListing(db, secrets)
      modifies this
      ensures db.Valid() && SecretsKept(k, old(db), db) && db.check == old(db).check
      ensures !ok ==> left == 0
      ensures ok ==> AllReset(k, db, secrets) && IsReportOf(k, secrets, report)
    {
      hide SecretsKept, IsListing, Db.Valid, IsReportOf, TouchesOnly, Pending, AllReset, IsReset, Keeper.Opens;
      ok, report := true, [];
      ResetStarts(k, db, secrets);
      for i := 0 to |secrets|
        invariant ok && db.Valid() && SecretsKept(k, old(db), db) && db.check == old(db).check
        invariant Pending(db, secrets, i) && AllReset(k, db, secrets[..i]) && IsReportOf(k, secrets[..i], report)
      {
        var s := secrets[i];
        ghost var was := db;
        PendingNow(db, secrets, i);
        if !k.Opens(s.at, s.envelope) {
          ok := Reset(k, s);
          ResetKeeps(k, old(db), was, db);
          if !ok { return; }
          ResetIsNotStale(k, s.at, db.secrets[s.at]);
          ResetOneMore(k, was, db, secrets, i);
          ReportOneMore(k, secrets, i, report);
          if s.at.column != TotpSecret { report := report + [s.at]; }
        } else {
          SkipOne(k, db, secrets, i);
          ReportOneMore(k, secrets, i, report);
        }
      }
      assert secrets[..|secrets|] == secrets;
    }
  }

  predicate Taken(db: Db, s: StaleSecret) {
    s.at in db.secrets && db.secrets[s.at] == s.envelope && Listed(s.envelope)
  }

  /** Every listed secret once. */
  ghost predicate IsListing(db: Db, found: seq<StaleSecret>) {
    && (forall i :: 0 <= i < |found| ==> Taken(db, found[i]))
    && (forall i, j :: 0 <= i < j < |found| ==> found[i].at != found[j].at)
    && forall at :: at in db.secrets && Listed(db.secrets[at]) ==> StaleSecret(at, db.secrets[at]) in found
  }

  ghost predicate IsReportOf(k: Keeper, secrets: seq<StaleSecret>, report: seq<Location>) {
    forall at :: at in report <==>
      exists s :: s in secrets && s.at == at && Reports(k, s)
  }

  /** The report names what this run reset, the totp secrets aside. */
  ghost predicate IsReport(k: Keeper, was: Db, report: seq<Location>) {
    forall at :: at in report <==>
      at in was.secrets && Stale(k, at, was.secrets[at]) && at.Cell? && at.column != TotpSecret
  }

  ghost predicate Pending(db: Db, secrets: seq<StaleSecret>, i: nat)
    requires i <= |secrets|
  {
    && (forall j :: i <= j < |secrets| ==> Taken(db, secrets[j]))
    && forall j, l :: 0 <= j < l < |secrets| ==> secrets[j].at != secrets[l].at
  }

  ghost predicate AllReset(k: Keeper, db: Db, secrets: seq<StaleSecret>) {
    forall j :: 0 <= j < |secrets| ==>
      secrets[j].at in db.secrets && !Stale(k, secrets[j].at, db.secrets[secrets[j].at])
  }

  lemma {:induction false} NothingKept(k: Keeper, db: Db)
    requires db.Valid()
    ensures Between(k, db, db)
  {
  }

  lemma {:induction false} CheckUntouched(k: Keeper, a: Db, b: Db)
    requires a.Valid() && b.Valid() && SecretsKept(k, a, b) && a.check == b.check
    ensures Between(k, a, b)
  {
    hide SecretsKept, Db.Valid;
  }

  lemma {:induction false} CheckWritten(k: Keeper, a: Db, b: Db, sealed: Secret)
    requires a.Valid() && b.Valid() && SecretsKept(k, a, b) && NoneStale(k, b) && k.Seals(KeyCheck, sealed)
    ensures var c := b.(check := Some(sealed)); Between(k, a, c) && NoneStale(k, c) && CheckOpens(k, c)
  {
    hide Keeper.Opens;
    var c := b.(check := Some(sealed));
    forall at | at in a.secrets ensures KeptAt(k, a, c, at) { assert KeptAt(k, a, b, at); }
    forall id ensures RestartAt(a, c, id) { assert RestartAt(a, b, id); }
  }

  lemma {:induction false} ResetStarts(k: Keeper, db: Db, secrets: seq<StaleSecret>)
    requires IsListing(db, secrets)
    ensures SecretsKept(k, db, db) && Pending(db, secrets, 0) && AllReset(k, db, secrets[..0])
    ensures IsReportOf(k, secrets[..0], [])
  {
  }

  lemma {:induction false} PendingNow(db: Db, secrets: seq<StaleSecret>, i: nat)
    requires i < |secrets| && Pending(db, secrets, i)
    ensures Taken(db, secrets[i])
  {
  }

  lemma {:induction false} ResetOneMore(k: Keeper, a: Db, b: Db, secrets: seq<StaleSecret>, i: nat)
    requires i < |secrets| && Pending(a, secrets, i) && AllReset(k, a, secrets[..i])
    requires TouchesOnly(a, b, secrets[i].at)
    requires secrets[i].at in b.secrets && !Stale(k, secrets[i].at, b.secrets[secrets[i].at])
    ensures Pending(b, secrets, i + 1) && AllReset(k, b, secrets[..i + 1])
  {
    hide Stale, Listed;
    forall j | 0 <= j < i
      ensures secrets[j].at in b.secrets && !Stale(k, secrets[j].at, b.secrets[secrets[j].at])
    {
      assert secrets[..i][j] == secrets[j] && secrets[j].at != secrets[i].at;
    }
  }

  lemma {:induction false} ResetIsNotStale(k: Keeper, at: Location, s: Secret)
    requires IsReset(k, at, s)
    ensures !Stale(k, at, s)
  {
  }

  lemma {:induction false} SkipOne(k: Keeper, db: Db, secrets: seq<StaleSecret>, i: nat)
    requires i < |secrets| && Pending(db, secrets, i) && AllReset(k, db, secrets[..i])
    requires k.Opens(secrets[i].at, secrets[i].envelope)
    ensures Pending(db, secrets, i + 1) && AllReset(k, db, secrets[..i + 1])
  {
    hide Listed, Keeper.Opens;
    PendingNow(db, secrets, i);
    forall j | 0 <= j < i
      ensures secrets[j].at in db.secrets && !Stale(k, secrets[j].at, db.secrets[secrets[j].at])
    {
      assert secrets[..i][j] == secrets[j];
    }
  }

  predicate Reports(k: Keeper, s: StaleSecret) {
    !k.Opens(s.at, s.envelope) && s.at.Cell? && s.at.column != TotpSecret
  }

  lemma {:induction false} ReportOneMore(k: Keeper, secrets: seq<StaleSecret>, i: nat, report: seq<Location>)
    requires i < |secrets| && IsReportOf(k, secrets[..i], report)
    ensures IsReportOf(k, secrets[..i + 1], if Reports(k, secrets[i]) then report + [secrets[i].at] else report)
  {
    hide Reports;
    assert secrets[..i + 1] == secrets[..i] + [secrets[i]];
  }

  lemma {:induction false} AllResetLeavesNone(k: Keeper, a: Db, b: Db, secrets: seq<StaleSecret>)
    requires IsListing(a, secrets) && SecretsKept(k, a, b) && AllReset(k, b, secrets)
    ensures NoneStale(k, b)
  {
    hide Keeper.Opens;
    forall at | at in b.secrets ensures !Stale(k, at, b.secrets[at]) {
      assert KeptAt(k, a, b, at);
      if Listed(a.secrets[at]) {
        var j :| 0 <= j < |secrets| && secrets[j] == StaleSecret(at, a.secrets[at]);
      }
    }
  }

  lemma {:induction false} ReportOfListing(k: Keeper, db: Db, secrets: seq<StaleSecret>, report: seq<Location>)
    requires IsListing(db, secrets) && IsReportOf(k, secrets, report)
    ensures IsReport(k, db, report)
  {
    hide Keeper.Opens;
    forall at | at in db.secrets && Stale(k, at, db.secrets[at]) && Reports(k, StaleSecret(at, db.secrets[at]))
      ensures at in report
    {
      assert StaleSecret(at, db.secrets[at]) in secrets;
    }
    forall at | at in report
      ensures at in db.secrets && Stale(k, at, db.secrets[at]) && at.Cell? && at.column != TotpSecret
    {
      var s :| s in secrets && s.at == at && Reports(k, s);
      var i :| 0 <= i < |secrets| && secrets[i] == s;
      assert Taken(db, secrets[i]);
    }
  }

  lemma {:induction false} ResetKeeps(k: Keeper, a: Db, b: Db, c: Db)
    requires SecretsKept(k, a, b) && SecretsKept(k, b, c)
    ensures SecretsKept(k, a, c)
  {
    forall at | at in a.secrets ensures KeptAt(k, a, c, at) {
      assert KeptAt(k, a, b, at) && KeptAt(k, b, c, at);
    }
    forall id ensures RestartAt(a, c, id) {
      RestartJoins(k, a, b, c, id);
    }
  }

  lemma {:induction false} RestartJoins(k: Keeper, a: Db, b: Db, c: Db, id: string)
    requires SecretsKept(k, a, b) && SecretsKept(k, b, c)
    ensures RestartAt(a, c, id)
  {
    var at := Cell(InstancePassword, id);
    assert RestartAt(a, b, id) && RestartAt(b, c, id);
    if at in a.secrets {
      assert KeptAt(k, a, b, at) && KeptAt(k, b, c, at);
    }
  }

  // ----- any number of runs -----

  ghost predicate StepAt(k: Keeper, dbs: seq<Db>, i: nat)
    requires i + 1 < |dbs|
  {
    Between(k, dbs[i], dbs[i + 1])
  }

  /** The database at the start and after each run, cut or whole. */
  ghost predicate Runs(k: Keeper, dbs: seq<Db>) {
    |dbs| > 0 && dbs[0].Valid() && forall i :: 0 <= i < |dbs| - 1 ==> StepAt(k, dbs, i)
  }

  /** A run started where another stopped leaves the database where one run could have. */
  lemma {:induction false} RerunIsOneRun(k: Keeper, a: Db, b: Db, c: Db)
    requires Between(k, a, b) && Between(k, b, c)
    ensures Between(k, a, c)
  {
    ResetKeeps(k, a, b, c);
    if c.check != a.check && c.check == b.check {
      CheckStays(k, b, c);
    }
  }

  lemma {:induction false} CheckStays(k: Keeper, b: Db, c: Db)
    requires SecretsKept(k, b, c) && NoneStale(k, b)
    ensures NoneStale(k, c) && forall at :: at in b.secrets ==> c.secrets[at] == b.secrets[at]
  {
    forall at | at in b.secrets
      ensures c.secrets[at] == b.secrets[at] && !Stale(k, at, c.secrets[at])
    {
      assert KeptAt(k, b, c, at);
    }
  }

  lemma {:induction false} RunsAreOneRun(k: Keeper, dbs: seq<Db>)
    requires Runs(k, dbs)
    ensures Between(k, dbs[0], dbs[|dbs| - 1])
  {
    hide Between, Db.Valid;
    var n := |dbs| - 1;
    if n == 0 {
      NothingKept(k, dbs[0]);
    } else {
      var before := dbs[..n];
      forall i | 0 <= i < |before| - 1 ensures StepAt(k, before, i) { assert StepAt(k, dbs, i); }
      RunsAreOneRun(k, before);
      assert StepAt(k, dbs, n - 1);
      RerunIsOneRun(k, dbs[0], dbs[n - 1], dbs[n]);
    }
  }

  /**
   However recovery is cut and run again: nothing is switched on over a secret that was cleared, no
   secret the key opens is touched, and a new key check stands only over secrets that open.
  */
  lemma {:induction false} CutAnywhereIsSafe(k: Keeper, dbs: seq<Db>, at: Location)
    requires Runs(k, dbs) && at in dbs[0].secrets
    ensures var a, b := dbs[0], dbs[|dbs| - 1]; at in b.secrets && b.Valid()
    ensures var a, b := dbs[0], dbs[|dbs| - 1]; at in b.enabled ==> at in a.enabled && b.secrets[at] == a.secrets[at]
    ensures var a, b := dbs[0], dbs[|dbs| - 1]; !Stale(k, at, a.secrets[at]) ==> b.secrets[at] == a.secrets[at]
    ensures var a, b := dbs[0], dbs[|dbs| - 1]; b.check != a.check ==> CheckOpens(k, b) && !Stale(k, at, b.secrets[at])
  {
    RunsAreOneRun(k, dbs);
    assert KeptAt(k, dbs[0], dbs[|dbs| - 1], at);
  }

  /** A secret reset by an earlier run is not reset again by a later one. */
  lemma {:induction false} ResetOnce(k: Keeper, a: Db, b: Db, c: Db, at: Location)
    requires Between(k, a, b) && Between(k, b, c) && at in a.secrets && b.secrets[at] != a.secrets[at]
    ensures c.secrets[at] == b.secrets[at]
  {
    assert KeptAt(k, a, b, at) && KeptAt(k, b, c, at);
  }

  /**
   A run's report names a secret stale at the start exactly when no run before it reset it: what a cut
   run sealed is reported nowhere.
  */
  lemma {:induction false} ReportNamesIff(k: Keeper, a: Db, b: Db, at: Location, report: seq<Location>)
    requires Between(k, a, b) && IsReport(k, b, report)
    requires at in a.secrets && Stale(k, at, a.secrets[at]) && at.column != TotpSecret
    ensures at in report <==> b.secrets[at] == a.secrets[at]
  {
    assert KeptAt(k, a, b, at);
  }

  /** Every schedule of cuts and reruns that ends in success ends alike, fresh passwords aside. */
  lemma {:induction false} EveryScheduleEndsAlike(k: Keeper, a: Db, b: Db, c: Db, at: Location)
    requires Between(k, a, b) && Between(k, a, c) && NoneStale(k, b) && NoneStale(k, c) && at in a.secrets
    ensures at in b.enabled <==> at in c.enabled
    ensures b.secrets[at] == c.secrets[at] ||
          (at.column == InstancePassword && k.Opens(at, b.secrets[at]) && k.Opens(at, c.secrets[at]))
    ensures at.column == InstancePassword ==> (at.row in b.restart <==> at.row in c.restart)
  {
    assert KeptAt(k, a, b, at) && KeptAt(k, a, c, at);
    assert RestartAt(a, b, at.row) && RestartAt(a, c, at.row);
  }

  /**
   What a successful recovery leaves that no key opens: exactly the values that began like an envelope
   with an empty key id before it, which are never listed and so are not touched.
  */
  lemma {:induction false} UnreadableAfterSuccessIff(k: Keeper, a: Db, b: Db, at: Location)
    requires Between(k, a, b) && NoneStale(k, b) && at in a.secrets
    ensures b.secrets[at] != Cleared && !k.Opens(at, b.secrets[at]) <==> a.secrets[at] == Garbled(true)
    ensures a.secrets[at] == Garbled(true) ==> b.secrets[at] == a.secrets[at]
  {
    assert KeptAt(k, a, b, at);
    assert !Stale(k, at, b.secrets[at]);
  }

  /**
   What a successful recovery leaves of a stale secret: a server password sealed anew under the active key, its
   server marked to restart; anything else cleared, and switched off if it had a switch.
  */
  lemma {:induction false} StaleAfterSuccess(k: Keeper, a: Db, b: Db, at: Location)
    requires Between(k, a, b) && NoneStale(k, b) && at in a.secrets && Stale(k, at, a.secrets[at])
    ensures at.column == InstancePassword ==>
              && b.secrets[at].Sealed? && b.secrets[at].key == k.active && b.secrets[at].home == at
              && at.row in b.restart
    ensures at.column != InstancePassword ==> b.secrets[at] == Cleared && at !in b.enabled
  {
    assert KeptAt(k, a, b, at);
    assert RestartAt(a, b, at.row);
  }
}
