/**
 * The `!spin <amount>` command of the slots game: a per-user admission check, then a wager
 * transaction against the currency ledger. Two module-level caches are kept across spins:
 * the users whose spin is in progress (`activeSpinners`) and the time each user's cooldown
 * ends (`cooldownCache`). Time is an integer number of seconds supplied by the caller; the
 * ledger, the role lookups and the slot machine's roll are collaborators whose answers are
 * inputs.
 */
module SlotsSpin {
  import opened Wrappers

  datatype RoleOverride = RoleOverride(roleId: string, percent: int)

  datatype SuccessChances = SuccessChances(basePercent: int, roles: seq<RoleOverride>)

  /** The slots settings the spin reads; a bound or cooldown that is absent or not positive is off. */
  datatype SlotsSettings = SlotsSettings(
    minWager: Option<int>,
    maxWager: Option<int>,
    cooldownSecs: Option<int>,
    successChances: Option<SuccessChances>,
    multiplier: real)

  /** The role ids of the user from the platform, team and custom sources; `team` is `None` when
      that lookup throws. */
  datatype UserRoles = UserRoles(platform: seq<string>, team: Option<seq<string>>, custom: seq<string>)

  /** One `!spin` invocation: whether the `spinAmount` subcommand matched, the sender, the
      parsed wager and the current time. */
  datatype SpinRequest = SpinRequest(isSpinAmount: bool, user: string, wager: int, now: int)

  /** What the collaborators answer during the spin: whether the balance read, the debit and
      the credit throw, the user's roles, and the number of successful rolls. */
  datatype Collaborators = Collaborators(
    balanceFetchFails: bool,
    debitFails: bool,
    roles: UserRoles,
    rolls: nat,
    creditFails: bool)

  datatype SpinOutcome =
    | IncorrectUsage
    | AlreadySpinning
    | OnCooldown(secondsLeft: int)
    | MoreThanZero
    | BelowMinWager
    | AboveMaxWager
    | NotEnough
    | DebitFailed
    | CreditFailed
    | Spun(successChance: int, successfulRolls: nat, winnings: int)

  /** The users with a spin in progress (every value the cache holds is `true`, so its key set
      says it all), each user's cooldown end, and the ledger's balances in the game's currency. */
  datatype SlotsState = SlotsState(activeSpinners: set<string>, cooldownCache: map<string, int>, balances: map<string, int>)

  // ---- Admission ----

  function Balance(balances: map<string, int>, user: string): int {
    if user in balances then balances[user] else 0
  }

  /** `cooldownExpireTime && moment().isBefore(cooldownExpireTime)`: a user with no entry is
      never on cooldown, and one on cooldown has at least a second left. */
  predicate OnCooldownAt(cooldownCache: map<string, int>, user: string, now: int)
    ensures user !in cooldownCache ==> !OnCooldownAt(cooldownCache, user, now)
    ensures OnCooldownAt(cooldownCache, user, now) ==> cooldownCache[user] - now >= 1
  {
    user in cooldownCache && now < cooldownCache[user]
  }

  /** `bound != null & bound > 0`: a missing, zero or negative bound is switched off. */
  predicate BoundOn(bound: Option<int>)
    ensures bound.None? || bound.value <= 0 ==> !BoundOn(bound)
    ensures BoundOn(bound) ==> bound.value >= 1
  {
    bound.Some? && bound.value > 0
  }

  /** The balance the spin sees: a read that throws counts as 0. */
  function FetchedBalance(balances: map<string, int>, user: string, fails: bool): (r: int)
    ensures fails ==> r == 0
    ensures !fails && user in balances ==> r == balances[user]
    ensures !fails && user !in balances ==> r == 0
  {
    if fails then 0 else Balance(balances, user)
  }

  /** The checks before anything changes, in their fixed order; `None` admits the spin. */
  function Admission(s: SlotsState, req: SpinRequest, settings: SlotsSettings, fetchFails: bool): (r: Option<SpinOutcome>)
    ensures r.None? <==>
      req.user !in s.activeSpinners && !OnCooldownAt(s.cooldownCache, req.user, req.now) &&
      req.wager >= 1 &&
      !(BoundOn(settings.minWager) && req.wager < settings.minWager.value) &&
      !(BoundOn(settings.maxWager) && req.wager > settings.maxWager.value) &&
      FetchedBalance(s.balances, req.user, fetchFails) >= req.wager
    ensures r == Some(AlreadySpinning) <==> req.user in s.activeSpinners
    ensures r.Some? && r.value.OnCooldown? <==>
      req.user !in s.activeSpinners && OnCooldownAt(s.cooldownCache, req.user, req.now)
    ensures r.Some? && r.value.OnCooldown? ==> r.value.secondsLeft == s.cooldownCache[req.user] - req.now
    ensures r == Some(MoreThanZero) <==>
      req.user !in s.activeSpinners && !OnCooldownAt(s.cooldownCache, req.user, req.now) &&
      req.wager < 1
    ensures r == Some(BelowMinWager) <==>
      req.user !in s.activeSpinners && !OnCooldownAt(s.cooldownCache, req.user, req.now) &&
      req.wager >= 1 &&
      BoundOn(settings.minWager) && req.wager < settings.minWager.value
    ensures r == Some(AboveMaxWager) <==>
      req.user !in s.activeSpinners && !OnCooldownAt(s.cooldownCache, req.user, req.now) &&
      req.wager >= 1 &&
      !(BoundOn(settings.minWager) && req.wager < settings.minWager.value) &&
      BoundOn(settings.maxWager) && req.wager > settings.maxWager.value
    ensures r == Some(NotEnough) <==>
      req.user !in s.activeSpinners && !OnCooldownAt(s.cooldownCache, req.user, req.now) &&
      req.wager >= 1 &&
      !(BoundOn(settings.minWager) && req.wager < settings.minWager.value) &&
      !(BoundOn(settings.maxWager) && req.wager > settings.maxWager.value) &&
      FetchedBalance(s.balances, req.user, fetchFails) < req.wager
    ensures r.Some? ==> r.value in {AlreadySpinning, MoreThanZero, BelowMinWager, AboveMaxWager, NotEnough} || r.value.OnCooldown?
  {
    if req.user in s.activeSpinners then Some(AlreadySpinning)
    else if OnCooldownAt(s.cooldownCache, req.user, req.now) then Some(OnCooldown(s.cooldownCache[req.user] - req.now))
    else if req.wager < 1 then Some(MoreThanZero)
    else if BoundOn(settings.minWager) && req.wager < settings.minWager.value then Some(BelowMinWager)
    else if BoundOn(settings.maxWager) && req.wager > settings.maxWager.value then Some(AboveMaxWager)
    else if FetchedBalance(s.balances, req.user, fetchFails) < req.wager then Some(NotEnough)
    else None
  }

  // ---- Success chance ----

  /** The percent of the first override, in list order, whose role the user holds. */
  function FirstMatchingOverride(overrides: seq<RoleOverride>, roles: seq<string>): (r: Option<int>)
    ensures r.None? <==> forall k :: 0 <= k < |overrides| ==> overrides[k].roleId !in roles
    ensures r.Some? ==> exists k :: (0 <= k < |overrides| && overrides[k].roleId in roles &&
      r.value == overrides[k].percent &&
      forall j :: 0 <= j < k ==> overrides[j].roleId !in roles)
  {
    if overrides == [] then None
    else if overrides[0].roleId in roles then Some(overrides[0].percent)
    else
      var r := FirstMatchingOverride(overrides[1..], roles);
      assert forall k :: 1 <= k < |overrides| ==> overrides[k] == overrides[1..][k - 1];
      if r.Some? then
        var k :| 0 <= k < |overrides[1..]| && overrides[1..][k].roleId in roles &&
          r.value == overrides[1..][k].percent &&
          forall j :: 0 <= j < k ==> overrides[1..][j].roleId !in roles;
        assert overrides[k + 1].roleId in roles && r.value == overrides[k + 1].percent;
        assert forall j :: 0 <= j < k + 1 ==> overrides[j].roleId !in roles;
        r
      else r
  }

  /** Override `k` is the first, in list order, whose role the user holds. */
  predicate FirstHeld(overrides: seq<RoleOverride>, held: seq<string>, k: int) {
    0 <= k < |overrides| && overrides[k].roleId in held &&
    forall j :: 0 <= j < k ==> overrides[j].roleId !in held
  }

  /** The chance handed to the roll: 50 with no chance settings; otherwise the base percent,
      replaced by the first matching override when the role lookups succeed. */
  function SuccessChance(settings: SlotsSettings, roles: UserRoles): (r: int)
    ensures settings.successChances.None? ==> r == 50
    ensures settings.successChances.Some? && roles.team.None? ==> r == settings.successChances.value.basePercent
    ensures settings.successChances.Some? && roles.team.Some? ==>
      var overrides := settings.successChances.value.roles;
      var held := roles.platform + roles.team.value + roles.custom;
      ((forall k :: 0 <= k < |overrides| ==> overrides[k].roleId !in held) ==> r == settings.successChances.value.basePercent) &&
      (forall k :: FirstHeld(overrides, held, k) ==> r == overrides[k].percent)
  {
    match settings.successChances
    case None => 50
    case Some(sc) =>
      if roles.team.None? then sc.basePercent
      else
        match FirstMatchingOverride(sc.roles, roles.platform + roles.team.value + roles.custom)
        case Some(percent) => percent
        case None => sc.basePercent
  }

  /** `Math.floor(wagerAmount * (successfulRolls * winMultiplier))`, exactly. */
  function Winnings(wager: int, rolls: nat, multiplier: real): (w: int)
    ensures w as real <= (wager as real) * ((rolls as real) * multiplier) < w as real + 1.0
    ensures wager >= 0 && multiplier >= 0.0 ==> w >= 0
    ensures rolls == 0 ==> w == 0
  {
    ((wager as real) * ((rolls as real) * multiplier)).Floor
  }

  // ---- The transaction ----

  predicate ArmsCooldown(settings: SlotsSettings) {
    settings.cooldownSecs.Some? && settings.cooldownSecs.value > 0
  }

  /** The cooldown cache once an admitted spin has armed it. */
  function ArmedCooldowns(cooldownCache: map<string, int>, req: SpinRequest, settings: SlotsSettings): (r: map<string, int>)
    ensures !ArmsCooldown(settings) ==> r == cooldownCache
    ensures ArmsCooldown(settings) ==>
      r == cooldownCache[req.user := req.now + settings.cooldownSecs.value] && OnCooldownAt(r, req.user, req.now)
  {
    if ArmsCooldown(settings) then cooldownCache[req.user := req.now + settings.cooldownSecs.value] else cooldownCache
  }

  /** Arming the cooldown touches no other user's entry. */
  lemma ArmingKeepsOthers(cooldownCache: map<string, int>, req: SpinRequest, settings: SlotsSettings, u: string)
    requires u != req.user
    ensures var r := ArmedCooldowns(cooldownCache, req, settings);
      (u in r <==> u in cooldownCache) && (u in r ==> r[u] == cooldownCache[u])
  {
  }

  predicate Admitted(outcome: SpinOutcome) {
    outcome == DebitFailed || outcome == CreditFailed || outcome.Spun?
  }

  /** One `!spin`. A refused spin changes nothing. An admitted one arms the cooldown, debits the
      wager, and credits the winnings only after a successful debit. The lock is released on
      every path except a credit that throws, which leaves the user locked. */
  function SpinSpec(s: SlotsState, req: SpinRequest, settings: SlotsSettings, ext: Collaborators): (r: (SpinOutcome, SlotsState))
    ensures !req.isSpinAmount ==> r == (IncorrectUsage, s)
    ensures req.isSpinAmount && Admission(s, req, settings, ext.balanceFetchFails).Some? ==>
      r == (Admission(s, req, settings, ext.balanceFetchFails).value, s)
    ensures req.isSpinAmount && Admission(s, req, settings, ext.balanceFetchFails).None? ==>
      (r.0 == DebitFailed <==> ext.debitFails) &&
      (r.0 == CreditFailed <==> !ext.debitFails && ext.creditFails) &&
      (r.0.Spun? <==> !ext.debitFails && !ext.creditFails)
    ensures !Admitted(r.0) ==> r.1 == s
    ensures r.0 != CreditFailed ==> r.1.activeSpinners == s.activeSpinners
    ensures r.0 == CreditFailed ==> r.1.activeSpinners == s.activeSpinners + {req.user}
    ensures Admitted(r.0) ==>
      req.isSpinAmount && Admission(s, req, settings, ext.balanceFetchFails).None? &&
      r.1.cooldownCache == ArmedCooldowns(s.cooldownCache, req, settings)
    ensures r.0 == DebitFailed ==> r.1.balances == s.balances
    ensures r.0 == CreditFailed ==> r.1.balances == s.balances[req.user := Balance(s.balances, req.user) - req.wager]
    ensures r.0.Spun? ==>
      r.0.winnings == Winnings(req.wager, ext.rolls, settings.multiplier) &&
      r.0.successChance == SuccessChance(settings, ext.roles) &&
      r.1.balances == s.balances[req.user := Balance(s.balances, req.user) - req.wager + r.0.winnings]
  {
    if !req.isSpinAmount then (IncorrectUsage, s)
    else match Admission(s, req, settings, ext.balanceFetchFails)
      case Some(refusal) => (refusal, s)
      case None => Wager(s, req, settings, ext)
  }

  /** The admitted part of a spin: lock, arm the cooldown, debit, roll, credit, unlock. */
  function Wager(s: SlotsState, req: SpinRequest, settings: SlotsSettings, ext: Collaborators): (r: (SpinOutcome, SlotsState))
    ensures r.0 == DebitFailed <==> ext.debitFails
    ensures r.0 == CreditFailed <==> !ext.debitFails && ext.creditFails
    ensures r.0.Spun? <==> !ext.debitFails && !ext.creditFails
    ensures r.1.cooldownCache == ArmedCooldowns(s.cooldownCache, req, settings)
    ensures r.1.activeSpinners == if r.0 == CreditFailed then s.activeSpinners + {req.user} else s.activeSpinners - {req.user}
    ensures ext.debitFails ==> r.1.balances == s.balances
    ensures !ext.debitFails && ext.creditFails ==>
      r.1.balances == s.balances[req.user := Balance(s.balances, req.user) - req.wager]
    ensures r.0.Spun? ==>
      r.0.winnings == Winnings(req.wager, ext.rolls, settings.multiplier) &&
      r.0.successChance == SuccessChance(settings, ext.roles) &&
      r.1.balances == s.balances[req.user := Balance(s.balances, req.user) - req.wager + r.0.winnings]
  {
    var user := req.user;
    var locked := s.activeSpinners + {user};
    var cooldowns := ArmedCooldowns(s.cooldownCache, req, settings);
    if ext.debitFails then
      (DebitFailed, SlotsState(locked - {user}, cooldowns, s.balances))
    else
      var debited := s.balances[user := Balance(s.balances, user) - req.wager];
      var winnings := Winnings(req.wager, ext.rolls, settings.multiplier);
      if ext.creditFails then
        (CreditFailed, SlotsState(locked, cooldowns, debited))
      else
        (Spun(SuccessChance(settings, ext.roles), ext.rolls, winnings),
         SlotsState(locked - {user}, cooldowns, debited[user := debited[user] + winnings]))
  }

  // ---- Properties ----

  /** A user whose spin is in progress is refused, with nothing changed. */
  lemma SpinningUserRefused(s: SlotsState, req: SpinRequest, settings: SlotsSettings, ext: Collaborators)
    requires req.isSpinAmount && req.user in s.activeSpinners
    ensures SpinSpec(s, req, settings, ext) == (AlreadySpinning, s)
  {
  }

  /** Two spins by one user at once: while the first holds the lock (after admission, before it
      releases it), the second is refused and changes nothing. */
  lemma ConcurrentSpinRefused(s: SlotsState, first: SpinRequest, second: SpinRequest, settings: SlotsSettings, ext: Collaborators)
    requires Admission(s, first, settings, ext.balanceFetchFails).None?
    requires second.isSpinAmount && second.user == first.user
    ensures var during := SlotsState(s.activeSpinners + {first.user}, ArmedCooldowns(s.cooldownCache, first, settings), s.balances);
      SpinSpec(during, second, settings, ext) == (AlreadySpinning, during)
  {
  }

  /** A failed balance read counts as 0, so it always ends in a refusal and changes nothing. */
  lemma FailedBalanceReadRefuses(s: SlotsState, req: SpinRequest, settings: SlotsSettings, ext: Collaborators)
    requires ext.balanceFetchFails
    ensures !Admitted(SpinSpec(s, req, settings, ext).0) && SpinSpec(s, req, settings, ext).1 == s
  {
  }

  /** Balance 50 and wager 100: refused for lack of funds; no lock, no cooldown, no debit. */
  lemma NotEnoughExample(s: SlotsState, req: SpinRequest, settings: SlotsSettings, ext: Collaborators)
    requires req.isSpinAmount && req.wager == 100 && !ext.balanceFetchFails
    requires req.user !in s.activeSpinners && !OnCooldownAt(s.cooldownCache, req.user, req.now)
    requires !BoundOn(settings.minWager) && !BoundOn(settings.maxWager)
    requires req.user in s.balances && s.balances[req.user] == 50
    ensures SpinSpec(s, req, settings, ext) == (NotEnough, s)
  {
  }

  /** A debit that throws: the balance is as before, the lock is released, but the cooldown
      stays armed. */
  lemma DebitFailureKeepsCooldown(s: SlotsState, req: SpinRequest, settings: SlotsSettings, ext: Collaborators)
    requires req.isSpinAmount && Admission(s, req, settings, ext.balanceFetchFails).None?
    requires ext.debitFails
    ensures SpinSpec(s, req, settings, ext).0 == DebitFailed
    ensures var after := SpinSpec(s, req, settings, ext).1;
      after.balances == s.balances && req.user !in after.activeSpinners &&
      (ArmsCooldown(settings) ==> OnCooldownAt(after.cooldownCache, req.user, req.now))
  {
  }

  /** Once a spin with a positive cooldown has been admitted at time `t` and has released its lock
      (its debit threw, or its credit went through), the same user is refused for cooldown at
      every time in `[t, t + cooldown)`, told a remaining time within the cooldown. */
  lemma RepeatWithinCooldownRefused(s: SlotsState, req: SpinRequest, settings: SlotsSettings, ext: Collaborators,
                                    again: SpinRequest, ext2: Collaborators)
    requires ArmsCooldown(settings)
    requires req.isSpinAmount && Admission(s, req, settings, ext.balanceFetchFails).None?
    requires ext.debitFails || !ext.creditFails
    requires again.isSpinAmount && again.user == req.user
    requires req.now <= again.now < req.now + settings.cooldownSecs.value
    ensures var after := SpinSpec(s, req, settings, ext).1;
      var r := SpinSpec(after, again, settings, ext2);
      r.1 == after && r.0.OnCooldown? && 0 < r.0.secondsLeft <= settings.cooldownSecs.value
  {
    var after := SpinSpec(s, req, settings, ext).1;
    assert req.user !in after.activeSpinners;
    assert after.cooldownCache[req.user] == req.now + settings.cooldownSecs.value;
  }

  /** A credit that throws leaves the user locked: every later spin by that user is refused as
      already spinning, whatever its inputs, until the caches are purged. */
  lemma CreditFailureLocksUser(s: SlotsState, req: SpinRequest, settings: SlotsSettings, ext: Collaborators,
                               later: SpinRequest, laterSettings: SlotsSettings, laterExt: Collaborators)
    requires req.isSpinAmount && Admission(s, req, settings, ext.balanceFetchFails).None?
    requires !ext.debitFails && ext.creditFails
    requires later.isSpinAmount && later.user == req.user
    ensures SpinSpec(s, req, settings, ext).0 == CreditFailed
    ensures var after := SpinSpec(s, req, settings, ext).1;
      SpinSpec(after, later, laterSettings, laterExt) == (AlreadySpinning, after)
  {
  }

  /** A spin that completes changes the user's balance by exactly the winnings minus the wager,
      and no other balance. */
  lemma SpinBalanceChange(s: SlotsState, req: SpinRequest, settings: SlotsSettings, ext: Collaborators)
    requires req.isSpinAmount && Admission(s, req, settings, ext.balanceFetchFails).None?
    requires !ext.debitFails && !ext.creditFails
    ensures var r := SpinSpec(s, req, settings, ext);
      r.0.Spun? &&
      Balance(r.1.balances, req.user) == Balance(s.balances, req.user) - req.wager + Winnings(req.wager, ext.rolls, settings.multiplier) &&
      forall u :: u != req.user ==> Balance(r.1.balances, u) == Balance(s.balances, u)
  {
  }

  /** After the caches are purged no user is locked or on cooldown, so a spin is never refused
      as already spinning or on cooldown. */
  lemma PurgedCachesAdmitAgain(balances: map<string, int>, req: SpinRequest, settings: SlotsSettings, ext: Collaborators)
    requires req.isSpinAmount
    ensures var r := SpinSpec(SlotsState({}, map[], balances), req, settings, ext).0;
      r != AlreadySpinning && !r.OnCooldown?
  {
  }

  /** Wager 10, two successful rolls, multiplier 1.5: winnings 30. */
  lemma WinningsExample()
    ensures Winnings(10, 2, 1.5) == 30
  {
    assert (10 as real) * ((2 as real) * 1.5) == 30.0;
  }

  /** Overrides are taken in list order, not by highest percent. */
  lemma FirstOverrideWins(settings: SlotsSettings, roles: UserRoles)
    requires settings.successChances == Some(SuccessChances(50, [RoleOverride("mod", 70), RoleOverride("sub", 60)]))
    requires roles.team.Some? && "mod" in roles.platform && "sub" in roles.platform
    ensures SuccessChance(settings, roles) == 70
    ensures SuccessChance(settings.(successChances := Some(SuccessChances(50, [RoleOverride("sub", 60), RoleOverride("mod", 70)]))), roles) == 60
  {
  }

  // ---- The ledger and the command ----

  /** The currency ledger's balances for the game's currency (its storage is not modelled). */
  class CurrencyLedger {
    var balances: map<string, int>

    constructor (initial: map<string, int>)
      ensures balances == initial
    {
      balances := initial;
    }

    /** `getUserCurrencyAmount`; `None` when the read throws. */
    method GetUserCurrencyAmount(user: string, fails: bool) returns (amount: Option<int>)
      ensures amount == if fails then None else Some(Balance(balances, user))
    {
      if fails {
        return None;
      }
      return Some(Balance(balances, user));
    }

    /** `adjustCurrencyForUser`: adds `delta` to the user's balance, or throws and changes nothing. */
    method AdjustCurrencyForUser(user: string, delta: int, fails: bool) returns (ok: bool)
      modifies this
      ensures ok == !fails
      ensures balances == if fails then old(balances) else old(balances)[user := Balance(old(balances), user) + delta]
    {
      if fails {
        return false;
      }
      balances := balances[user := Balance(balances, user) + delta];
      return true;
    }
  }

  /** The success chance as the command computes it: the base, then the first matching override
      found by a loop that stops at the first match. */
  method ComputeSuccessChance(settings: SlotsSettings, roles: UserRoles) returns (successChance: int)
    ensures successChance == SuccessChance(settings, roles)
  {
    successChance := 50;
    if settings.successChances.None? {
      return;
    }
    var sc := settings.successChances.value;
    successChance := sc.basePercent;
    if roles.team.None? {
      // the team-role lookup threw; the catch keeps the base percent
      return;
    }
    var allRoles := roles.platform + roles.team.value + roles.custom;
    var k := 0;
    while k < |sc.roles|
      invariant 0 <= k <= |sc.roles|
      invariant successChance == sc.basePercent
      invariant FirstMatchingOverride(sc.roles, allRoles) == FirstMatchingOverride(sc.roles[k..], allRoles)
    {
      if sc.roles[k].roleId in allRoles {
        successChance := sc.roles[k].percent;
        break;
      }
      assert sc.roles[k..][1..] == sc.roles[k + 1..];
      k := k + 1;
    }
  }

  /** The module-level caches of the spin command and its trigger handler. */
  class SpinCommand {
    var activeSpinners: set<string>
    var cooldownCache: map<string, int>

    constructor ()
      ensures activeSpinners == {} && cooldownCache == map[]
    {
      activeSpinners := {};
      cooldownCache := map[];
    }

    /** `onTriggerEvent` of `!spin` */
    method OnTriggerEvent(ledger: CurrencyLedger, req: SpinRequest, settings: SlotsSettings, ext: Collaborators)
      returns (outcome: SpinOutcome)
      modifies this, ledger
      ensures (outcome, SlotsState(activeSpinners, cooldownCache, ledger.balances)) ==
        SpinSpec(old(SlotsState(activeSpinners, cooldownCache, ledger.balances)), req, settings, ext)
    {
      if !req.isSpinAmount {
        return IncorrectUsage;
      }
      var refusal := CheckAdmission(ledger, req, settings, ext.balanceFetchFails);
      if refusal.Some? {
        return refusal.value;
      }
      outcome := RunWager(ledger, req, settings, ext);
    }

    /** The checks before the lock is taken, in the handler's order; `None` lets the spin on.
        Nothing changes. */
    method CheckAdmission(ledger: CurrencyLedger, req: SpinRequest, settings: SlotsSettings, fetchFails: bool)
      returns (refusal: Option<SpinOutcome>)
      ensures refusal == Admission(SlotsState(activeSpinners, cooldownCache, ledger.balances), req, settings, fetchFails)
    {
      var user, wagerAmount := req.user, req.wager;
      if user in activeSpinners {
        return Some(AlreadySpinning);
      }
      if user in cooldownCache && req.now < cooldownCache[user] {
        return Some(OnCooldown(cooldownCache[user] - req.now));
      }
      if wagerAmount < 1 {
        return Some(MoreThanZero);
      }
      var minWager := settings.minWager;
      if minWager.Some? && minWager.value > 0 {
        if wagerAmount < minWager.value {
          return Some(BelowMinWager);
        }
      }
      var maxWager := settings.maxWager;
      if maxWager.Some? && maxWager.value > 0 {
        if wagerAmount > maxWager.value {
          return Some(AboveMaxWager);
        }
      }
      var fetched := ledger.GetUserCurrencyAmount(user, fetchFails);
      var userBalance := if fetched.Some? then fetched.value else 0;
      if userBalance < wagerAmount {
        return Some(NotEnough);
      }
      return None;
    }

    /** The wager once admitted. */
    method RunWager(ledger: CurrencyLedger, req: SpinRequest, settings: SlotsSettings, ext: Collaborators)
      returns (outcome: SpinOutcome)
      requires req.wager >= 1
      modifies this, ledger
      ensures (outcome, SlotsState(activeSpinners, cooldownCache, ledger.balances)) ==
        Wager(old(SlotsState(activeSpinners, cooldownCache, ledger.balances)), req, settings, ext)
    {
      var user, wagerAmount := req.user, req.wager;
      activeSpinners := activeSpinners + {user};
      var cooldownSecs := settings.cooldownSecs;
      if cooldownSecs.Some? && cooldownSecs.value > 0 {
        cooldownCache := cooldownCache[user := req.now + cooldownSecs.value];
      }

      var debit: int := 0 - Abs(wagerAmount);
      var debited := ledger.AdjustCurrencyForUser(user, debit, ext.debitFails);
      if !debited {
        activeSpinners := activeSpinners - {user};
        return DebitFailed;
      }

      var successChance := ComputeSuccessChance(settings, ext.roles);
      // slotMachine.spin(..., successChance, ...) answers with the number of successful rolls
      var successfulRolls := ext.rolls;
      var winnings := Winnings(wagerAmount, successfulRolls, settings.multiplier);

      var credited := ledger.AdjustCurrencyForUser(user, winnings, ext.creditFails);
      if !credited {
        // the exception leaves the handler here, before the lock is released
        return CreditFailed;
      }

      activeSpinners := activeSpinners - {user};
      outcome := Spun(successChance, successfulRolls, winnings);
    }

    /** `purgeCaches`: no user is locked and no user is on cooldown afterwards. */
    method PurgeCaches()
      modifies this
      ensures activeSpinners == {} && cooldownCache == map[]
      ensures forall u, now :: !OnCooldownAt(cooldownCache, u, now)
    {
      cooldownCache := map[];
      activeSpinners := {};
    }
  }

  function Abs(x: int): (r: nat)
    ensures r == x || r == -x
  {
    if x < 0 then -x else x
  }
}
