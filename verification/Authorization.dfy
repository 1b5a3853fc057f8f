/**
 internal/authz: the closed set of actions, and the two readings of a grant that must agree, Can for
 one action and Allowed for the list the interface is drawn from.
*/
module Authorization {
  import opened Optional

  datatype Action =
    | InstanceView | ConsoleRead | StatsRead | BackupsList | ModsList | ConfigRead
    | InstanceStart | InstanceStop | InstanceRestart | BackupsCreate | BackupsDownload | PlayersManage | CommandsSend
    | ModsManage | ConfigEdit | ConfigRaw | BackupsRestore | WorldImport | InstanceSettings | NotificationsManage
    | InstanceCreate | InstanceDelete | InstanceClone | InstanceAdopt | InstanceLimits | InstanceExtraArgs
    | InstanceImage | InstanceUpdate | SetupsManage | WorldTools | CommandsUnrestricted | UsersManage
    | InvitesManage | GrantsManage | SchedulesGlobal | PanelSettings | AuditRead

  /** The list an action stands in: the viewer's, what operator adds, the extras, or the admin-only ones. */
  datatype Tier = ViewerTier | OperatorTier | ExtraTier | NeverTier

  function TierOf(a: Action): Tier {
    match a
    case InstanceView | ConsoleRead | StatsRead | BackupsList | ModsList | ConfigRead => ViewerTier
    case InstanceStart | InstanceStop | InstanceRestart | BackupsCreate | BackupsDownload | PlayersManage
       | CommandsSend => OperatorTier
    case ModsManage | ConfigEdit | ConfigRaw | BackupsRestore | WorldImport | InstanceSettings
       | NotificationsManage => ExtraTier
    case _ => NeverTier
  }

  predicate NeverGrantable(a: Action) { TierOf(a) == NeverTier }

  /** The place of an action's wire name among all wire names in order. */
  function Rank(a: Action): nat {
    match a
    case AuditRead => 0 case BackupsCreate => 1 case BackupsDownload => 2 case BackupsList => 3
    case BackupsRestore => 4 case CommandsSend => 5 case CommandsUnrestricted => 6 case ConfigEdit => 7
    case ConfigRaw => 8 case ConfigRead => 9 case ConsoleRead => 10 case GrantsManage => 11
    case InstanceAdopt => 12 case InstanceClone => 13 case InstanceCreate => 14 case InstanceDelete => 15
    case InstanceExtraArgs => 16 case InstanceImage => 17 case InstanceLimits => 18 case InstanceRestart => 19
    case InstanceSettings => 20 case InstanceStart => 21 case InstanceStop => 22 case InstanceUpdate => 23
    case InstanceView => 24 case InvitesManage => 25 case ModsList => 26 case ModsManage => 27
    case NotificationsManage => 28 case PanelSettings => 29 case PlayersManage => 30 case SchedulesGlobal => 31
    case SetupsManage => 32 case StatsRead => 33 case UsersManage => 34 case WorldImport => 35 case WorldTools => 36
  }

  /** An entry of a grant's perms: the name of an action, or a name that is none. */
  datatype Perm = Named(action: Action) | Unknown(text: string)

  datatype GrantRole = Viewer | Operator | OtherRole

  datatype Grant = Grant(role: GrantRole, perms: seq<Perm>)

  datatype User = User(admin: bool, disabled: bool)

  /** GrantFor: an error, or the live grant if there is one. */
  datatype Lookup = Failed | Found(grant: Option<Grant>)

  function BaseRole(role: GrantRole): set<Action> {
    set a: Action | InRole(role, a)
  }

  predicate InRole(role: GrantRole, a: Action) {
    match role
    case Viewer => TierOf(a) == ViewerTier
    case Operator => TierOf(a) == ViewerTier || TierOf(a) == OperatorTier
    case OtherRole => false
  }

  /** A perms entry that names `a` counts unless `a` is never grantable. */
  predicate Extra(perms: seq<Perm>, a: Action) {
    Named(a) in perms && !NeverGrantable(a)
  }

  /** What a grant carries: its role, its grantable extras, and config.edit with config.raw. */
  predicate Carries(g: Grant, a: Action) {
    InRole(g.role, a) || Extra(g.perms, a) || (a == ConfigEdit && Extra(g.perms, ConfigRaw))
  }

  /** granted */
  method Granted(g: Grant) returns (out: set<Action>)
    ensures forall a :: a in out <==> Carries(g, a)
  {
    hide TierOf;
    out := BaseRole(g.role);
    for i := 0 to |g.perms|
      invariant forall a :: a in out <==> InRole(g.role, a) || Extra(g.perms[..i], a)
    {
      var perm := g.perms[i];
      assert g.perms[..i + 1] == g.perms[..i] + [perm];
      if perm.Unknown? { continue; }
      if NeverGrantable(perm.action) { continue; }
      out := out + {perm.action};
    }
    assert g.perms[..|g.perms|] == g.perms;
    RawIsNoBaseAction(g.role);
    if ConfigRaw in out { out := out + {ConfigEdit}; }
  }

  lemma {:induction false} RawIsNoBaseAction(role: GrantRole)
    ensures !InRole(role, ConfigRaw)
  {
  }

  /** decide: the answer to one question. */
  method Can(u: Option<User>, act: Action, instance: string, lookup: Lookup) returns (allowed: bool)
    ensures allowed <==> MayDo(u, act, instance, lookup)
  {
    hide Carries;
    if u.None? { return false; }
    if u.value.disabled { return false; }
    if u.value.admin { return true; }
    if NeverGrantable(act) { return false; }
    if instance == "" { return false; }
    if lookup.Failed? { return false; }
    if lookup.grant.None? { return false; }
    var held := Granted(lookup.grant.value);
    return act in held;
  }

  predicate MayDo(u: Option<User>, act: Action, instance: string, lookup: Lookup) {
    && u.Some? && !u.value.disabled
    && (u.value.admin
        || (!NeverGrantable(act) && instance != "" && lookup.Found? && lookup.grant.Some? &&
              Carries(lookup.grant.value, act)))
  }

  predicate Ascending(s: seq<Action>) {
    forall i, j :: 0 <= i < j < |s| ==> Rank(s[i]) < Rank(s[j])
  }

  /** Allowed: the whole list, sorted by name; None when the lookup fails. */
  method Allowed(u: Option<User>, lookup: Lookup) returns (list: Option<seq<Action>>)
    ensures list.None? <==> u.Some? && !u.value.disabled && !u.value.admin && lookup.Failed?
    ensures list.Some? ==> Ascending(list.value) && forall a :: a in list.value <==> IsAllowed(u, lookup, a)
  {
    hide Carries, Rank;
    if u.None? || u.value.disabled { return Some([]); }
    var out;
    if u.value.admin {
      out := Sorted(Everything());
      return Some(out);
    }
    if lookup.Failed? { return None; }
    if lookup.grant.None? { return Some([]); }
    var g := Granted(lookup.grant.value);
    out := Sorted(g);
    return Some(out);
  }

  predicate IsAllowed(u: Option<User>, lookup: Lookup, a: Action) {
    && u.Some? && !u.value.disabled
    && (u.value.admin || (lookup.Found? && lookup.grant.Some? && Carries(lookup.grant.value, a)))
  }

  function Everything(): set<Action> {
    set a: Action | TierOf(a) in {ViewerTier, OperatorTier, ExtraTier, NeverTier}
  }

  method Sorted(s: set<Action>) returns (out: seq<Action>)
    ensures Ascending(out) && forall a :: a in out <==> a in s
  {
    hide Rank;
    var left := s;
    out := [];
    while left != {}
      invariant left <= s && Ascending(out)
      invariant forall a :: a in s <==> a in out || a in left
      invariant forall i, a :: 0 <= i < |out| && a in left ==> Rank(out[i]) < Rank(a)
      decreases left
    {
      var least := Least(left);
      left := left - {least};
      out := out + [least];
    }
  }

  method Least(s: set<Action>) returns (least: Action)
    requires s != {}
    ensures least in s && forall a :: a in s && a != least ==> Rank(least) < Rank(a)
  {
    hide Rank;
    least :| least in s;
    var left := s - {least};
    while left != {}
      invariant least in s && left <= s
      invariant forall a :: a in s && a !in left && a != least ==> Rank(least) < Rank(a)
      decreases left
    {
      var a :| a in left;
      left := left - {a};
      RanksDiffer(least, a);
      if Rank(a) < Rank(least) { least := a; }
    }
  }

  function Ranked(n: nat): Action {
    if n < 19 then RankedLow(n) else RankedHigh(n)
  }

  function RankedLow(n: nat): Action {
    match n
    case 0 => AuditRead case 1 => BackupsCreate case 2 => BackupsDownload case 3 => BackupsList
    case 4 => BackupsRestore case 5 => CommandsSend case 6 => CommandsUnrestricted case 7 => ConfigEdit
    case 8 => ConfigRaw case 9 => ConfigRead case 10 => ConsoleRead case 11 => GrantsManage
    case 12 => InstanceAdopt case 13 => InstanceClone case 14 => InstanceCreate case 15 => InstanceDelete
    case 16 => InstanceExtraArgs case 17 => InstanceImage case _ => InstanceLimits
  }

  function RankedHigh(n: nat): Action {
    match n
    case 19 => InstanceRestart
    case 20 => InstanceSettings case 21 => InstanceStart case 22 => InstanceStop case 23 => InstanceUpdate
    case 24 => InstanceView case 25 => InvitesManage case 26 => ModsList case 27 => ModsManage
    case 28 => NotificationsManage case 29 => PanelSettings case 30 => PlayersManage case 31 => SchedulesGlobal
    case 32 => SetupsManage case 33 => StatsRead case 34 => UsersManage case 35 => WorldImport case _ => WorldTools
  }

  lemma {:induction false} RankedRank(a: Action)
    ensures Ranked(Rank(a)) == a
  {
  }

  lemma {:induction false} RanksDiffer(a: Action, b: Action)
    ensures Rank(a) == Rank(b) ==> a == b
  {
    hide Rank, Ranked;
    RankedRank(a);
    RankedRank(b);
  }

  // ----- the two readings agree -----

  lemma {:induction false} NeverCarried(g: Grant, a: Action)
    requires NeverGrantable(a)
    ensures !Carries(g, a)
  {
  }

  /** Can and Allowed agree on every action of an instance, whenever the lookup succeeds. */
  lemma {:induction false} CanIffAllowed(u: Option<User>, act: Action, instance: string, lookup: Lookup)
    requires instance != "" && lookup.Found?
    ensures MayDo(u, act, instance, lookup) <==> IsAllowed(u, lookup, act)
  {
    if lookup.grant.Some? && NeverGrantable(act) { NeverCarried(lookup.grant.value, act); }
    hide Carries;
  }

  /**
   Without an instance they part exactly where a grant is stored under the empty id: Can refuses a
   member everything, Allowed reads the grant.
  */
  lemma {:induction false} EmptyInstanceDiffersIff(u: Option<User>, act: Action, lookup: Lookup)
    ensures MayDo(u, act, "", lookup) != IsAllowed(u, lookup, act)
            <==> u.Some? && !u.value.disabled && !u.value.admin && lookup.Found? && lookup.grant.Some? &&
                  Carries(lookup.grant.value, act)
  {
    hide Carries;
  }

  /** No perms list, of a member or of a grant, yields a never-grantable action. */
  lemma {:induction false} NoGrantReachesAdmin(u: User, act: Action, instance: string, lookup: Lookup)
    requires !u.admin && NeverGrantable(act)
    ensures !MayDo(Some(u), act, instance, lookup) && !IsAllowed(Some(u), lookup, act)
  {
    if lookup.Found? && lookup.grant.Some? { NeverCarried(lookup.grant.value, act); }
  }

  /** More perms, in any order and however often, never carry less; so equal sets carry the same. */
  lemma {:induction false} PermsOnlyAdd(role: GrantRole, few: seq<Perm>, many: seq<Perm>, a: Action)
    requires (forall p :: p in few ==> p in many) && Carries(Grant(role, few), a)
    ensures Carries(Grant(role, many), a)
  {
    hide InRole;
  }

  /** config.raw is never held without config.edit, by any user. */
  lemma {:induction false} RawImpliesEdit(u: Option<User>, instance: string, lookup: Lookup)
    ensures MayDo(u, ConfigRaw, instance, lookup) ==> MayDo(u, ConfigEdit, instance, lookup)
  {
    if lookup.Found? && lookup.grant.Some? { RawIsNoBaseAction(lookup.grant.value.role); }
    hide InRole;
  }

  // ----- who may do what -----

  /** A viewer's list, what an operator has besides, and what a grant can add; everything else is an admin's. */
  lemma {:induction false} RolesHold(a: Action)
    ensures InRole(Viewer, a) <==> a in {InstanceView, ConsoleRead, StatsRead, BackupsList, ModsList, ConfigRead}
    ensures InRole(Operator, a) && !InRole(Viewer, a) <==>
              a in {InstanceStart, InstanceStop, InstanceRestart, BackupsCreate, BackupsDownload, PlayersManage,
                    CommandsSend}
    ensures InRole(Viewer, a) ==> InRole(Operator, a)
    ensures !InRole(OtherRole, a)
    ensures !NeverGrantable(a) && !InRole(Operator, a) <==>
              a in {ModsManage, ConfigEdit, ConfigRaw, BackupsRestore, WorldImport, InstanceSettings,
                    NotificationsManage}
  {
  }

  lemma {:induction false} CarriedAre(role: GrantRole, extra: Action, a: Action)
    ensures Carries(Grant(role, []), a) <==> InRole(role, a)
    ensures Carries(Grant(role, [Named(extra)]), a)
            <==> InRole(role, a) || (a == extra && !NeverGrantable(a)) || (a == ConfigEdit && extra == ConfigRaw)
  {
    RawIsGrantable();
    hide InRole, NeverGrantable;
    ExtraIs([], extra, a);
    ExtraIs([], extra, ConfigRaw);
    assert [] + [Named(extra)] == [Named(extra)];
    hide Extra;
  }

  lemma {:induction false} ExtraIs(perms: seq<Perm>, extra: Action, a: Action)
    ensures Extra(perms + [Named(extra)], a) <==> Extra(perms, a) || (a == extra && !NeverGrantable(a))
    ensures !Extra([], a)
  {
    hide NeverGrantable;
  }

  /** The answers to a member with a grant on the instance: the role's list and the named extras, no more. */
  lemma {:induction false} MembersMayDo(a: Action, extra: Action, instance: string, role: GrantRole)
    requires instance != ""
    ensures
      var none, one := Found(Some(Grant(role, []))), Found(Some(Grant(role, [Named(extra)])));
      var member := Some(User(false, false));
      && (MayDo(member, a, instance, none) <==> InRole(role, a))
      && (MayDo(member, a, instance, one) <==>
            InRole(role, a) || (a == extra && !NeverGrantable(a)) || (a == ConfigEdit && extra == ConfigRaw))
      && !MayDo(member, a, instance, Found(None)) && !MayDo(member, a, instance, Failed) && !MayDo(member, a, "", one)
  {
    NeverInRole(role, a);
    CarriedAre(role, extra, a);
    RawIsGrantable();
    hide InRole, NeverGrantable, Carries;
  }

  /** And to anyone else: an administrator may do everything anywhere, a disabled user and nobody nothing. */
  lemma {:induction false} OthersMayDo(a: Action, instance: string, lookup: Lookup, admin: bool)
    ensures MayDo(Some(User(true, false)), a, instance, lookup)
    ensures !MayDo(Some(User(admin, true)), a, instance, lookup) && !MayDo(None, a, instance, lookup)
  {
  }

  lemma {:induction false} NeverInRole(role: GrantRole, a: Action)
    ensures NeverGrantable(a) ==> !InRole(role, a)
  {
  }

  lemma {:induction false} RawIsGrantable()
    ensures !NeverGrantable(ConfigRaw) && !NeverGrantable(ConfigEdit)
  {
  }
}
