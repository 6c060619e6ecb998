/**
 The Whitelist registry: an owner, an admin, a global referral cooldown, a
 count of whitelisted addresses, and one entry per address. Every mutator is a
 pure function from the current state (plus the transaction's sender and, for
 referrals, the block time) to either the next state or a typed failure; a
 failure carries no state, so a reverted transaction changes nothing.
 */
module Registry {

  /** A 160-bit account address, as the host chain identifies a sender. */
  newtype Addr = a: int | 0 <= a < 0x1_0000_0000_0000_0000_0000_0000_0000_0000_0000_0000

  /** The address every field of type address holds before it is written. */
  const ZeroAddress: Addr := 0

  /** Per-address record. `lastReferralTime` is the time of the most recent
      referral this address made as a referrer, not as a referee. */
  datatype Entry = Entry(status: bool, referrer: Addr, lastReferralTime: nat)

  /** What `getWhitelist` reports for an address nothing has written. */
  const DefaultEntry := Entry(false, ZeroAddress, 0)

  datatype State = State(
    owner: Addr,
    admin: Addr,
    cooldown: nat,
    count: int,
    entries: map<Addr, Entry>)

  /** Four failures; the first two are both "caller lacks the role" and differ
      only in which role was required. */
  datatype Error = NotOwner | NotAdmin | NotWhitelisted | CooldownActive {

    predicate IsUnauthorized() {
      NotOwner? || NotAdmin?
    }

    /** The revert reason the contract reports. */
    function Message(): string {
      match this
      case NotOwner => "Only Owner of this contract can perform this action!"
      case NotAdmin => "Only admin of this contract can perform this action!"
      case NotWhitelisted => "Only whitelisted users can perform this action!"
      case CooldownActive => "Referrer is on cooldown"
    }
  }

  datatype Result<+T> = Ok(value: T) | Err(error: Error)

  // ---------------------------------------------------------------------------
  // Read accessors: total, never fail.

  function GetOwner(s: State): Addr { s.owner }

  function GetAdminAddress(s: State): Addr { s.admin }

  function GetCooldownTime(s: State): nat { s.cooldown }

  function GetWhitelistCount(s: State): int { s.count }

  function GetWhitelist(s: State, who: Addr): Entry {
    if who in s.entries then s.entries[who] else DefaultEntry
  }

  predicate IsWhitelisted(s: State, who: Addr) {
    GetWhitelist(s, who).status
  }

  /** `who` may refer again at time `now`: the cooldown since its last
      referral has elapsed. */
  predicate OffCooldown(s: State, who: Addr, now: nat) {
    now >= GetWhitelist(s, who).lastReferralTime + GetCooldownTime(s)
  }

  /** Two states agree on every entry except possibly those in `except`. */
  predicate EntriesAgreeOutside(s: State, t: State, except: set<Addr>) {
    forall a :: a !in except ==> GetWhitelist(s, a) == GetWhitelist(t, a)
  }

  /** The roles and the cooldown are the same in both states. */
  predicate SameConfig(s: State, t: State) {
    && GetOwner(s) == GetOwner(t)
    && GetAdminAddress(s) == GetAdminAddress(t)
    && GetCooldownTime(s) == GetCooldownTime(t)
  }

  // ---------------------------------------------------------------------------
  // Deployment and mutators.

  /** Deployment by `deployer`. The admin and the cooldown at deployment are
      parameters: the tests do not fix them. */
  function Init(deployer: Addr, initialAdmin: Addr, initialCooldown: nat): (s: State)
    ensures GetOwner(s) == deployer
    ensures GetWhitelistCount(s) == 0
    ensures GetAdminAddress(s) == initialAdmin
    ensures GetCooldownTime(s) == initialCooldown
    ensures forall a :: GetWhitelist(s, a) == DefaultEntry
  {
    State(deployer, initialAdmin, initialCooldown, 0, map[])
  }

  /** Owner-only: replace the admin. */
  function UpdateAdmin(s: State, caller: Addr, newAdmin: Addr): (r: Result<State>)
    ensures r.Ok? <==> caller == GetOwner(s)
    ensures r.Err? ==> r.error == NotOwner
    ensures r.Ok? ==> GetAdminAddress(r.value) == newAdmin
    ensures r.Ok? ==> GetOwner(r.value) == GetOwner(s)
    ensures r.Ok? ==> GetCooldownTime(r.value) == GetCooldownTime(s)
    ensures r.Ok? ==> GetWhitelistCount(r.value) == GetWhitelistCount(s)
    ensures r.Ok? ==> EntriesAgreeOutside(s, r.value, {})
  {
    if caller != s.owner then Err(NotOwner)
    else Ok(s.(admin := newAdmin))
  }

  /** Admin-only: set the global referral cooldown, in seconds. */
  function UpdateReferralCooldown(s: State, caller: Addr, secs: nat): (r: Result<State>)
    ensures r.Ok? <==> caller == GetAdminAddress(s)
    ensures r.Err? ==> r.error == NotAdmin
    ensures r.Ok? ==> GetCooldownTime(r.value) == secs
    ensures r.Ok? ==> GetOwner(r.value) == GetOwner(s)
    ensures r.Ok? ==> GetAdminAddress(r.value) == GetAdminAddress(s)
    ensures r.Ok? ==> GetWhitelistCount(r.value) == GetWhitelistCount(s)
    ensures r.Ok? ==> EntriesAgreeOutside(s, r.value, {})
  {
    if caller != s.admin then Err(NotAdmin)
    else Ok(s.(cooldown := secs))
  }

  /** The count after `who`'s status goes from `before` to `after`. */
  function AdjustCount(count: int, before: bool, after: bool): int {
    if !before && after then count + 1
    else if before && !after then count - 1
    else count
  }

  /** Admin-only: set `who`'s status, keeping its referrer and its
      last-referral time. */
  function DirectWhitelist(s: State, caller: Addr, who: Addr, status: bool): (r: Result<State>)
    ensures r.Ok? <==> caller == GetAdminAddress(s)
    ensures r.Err? ==> r.error == NotAdmin
    ensures r.Ok? ==> GetWhitelist(r.value, who).status == status
    ensures r.Ok? ==> GetWhitelist(r.value, who).referrer == GetWhitelist(s, who).referrer
    ensures r.Ok? ==> GetWhitelist(r.value, who).lastReferralTime == GetWhitelist(s, who).lastReferralTime
    ensures r.Ok? ==> EntriesAgreeOutside(s, r.value, {who})
    ensures r.Ok? ==> SameConfig(s, r.value)
    ensures r.Ok? && status && !IsWhitelisted(s, who) ==>
              GetWhitelistCount(r.value) == GetWhitelistCount(s) + 1
    ensures r.Ok? && status == IsWhitelisted(s, who) ==>
              GetWhitelistCount(r.value) == GetWhitelistCount(s)
  {
    if caller != s.admin then Err(NotAdmin)
    else
      var e := GetWhitelist(s, who);
      Ok(s.(entries := s.entries[who := e.(status := status)],
            count := AdjustCount(s.count, e.status, status)))
  }

  /** A whitelisted caller that is off cooldown admits `referee`, becomes its
      referrer, and starts a new cooldown at `now`. The whitelist check comes
      before the cooldown check. */
  function ReferWhitelist(s: State, caller: Addr, now: nat, referee: Addr): (r: Result<State>)
    ensures r.Ok? <==> IsWhitelisted(s, caller) && OffCooldown(s, caller, now)
    ensures !IsWhitelisted(s, caller) ==> r == Err(NotWhitelisted)
    ensures IsWhitelisted(s, caller) && !OffCooldown(s, caller, now) ==> r == Err(CooldownActive)
    ensures r.Ok? ==> IsWhitelisted(r.value, referee)
    ensures r.Ok? ==> GetWhitelist(r.value, referee).referrer == caller
    ensures r.Ok? ==> GetWhitelist(r.value, caller).lastReferralTime == now
    ensures r.Ok? && referee != caller ==>
              GetWhitelist(r.value, referee).lastReferralTime == GetWhitelist(s, referee).lastReferralTime
    ensures r.Ok? && referee != caller ==>
              && IsWhitelisted(r.value, caller)
              && GetWhitelist(r.value, caller).referrer == GetWhitelist(s, caller).referrer
    ensures r.Ok? ==> EntriesAgreeOutside(s, r.value, {caller, referee})
    ensures r.Ok? ==> SameConfig(s, r.value)
    ensures r.Ok? ==>
              GetWhitelistCount(r.value) == GetWhitelistCount(s) + (if IsWhitelisted(s, referee) then 0 else 1)
  {
    var c := GetWhitelist(s, caller);
    if !c.status then Err(NotWhitelisted)
    else if now < c.lastReferralTime + s.cooldown then Err(CooldownActive)
    else
      var e := GetWhitelist(s, referee);
      var admitted := s.entries[referee := e.(status := true, referrer := caller)];
      var c' := GetWhitelist(s.(entries := admitted), caller);
      Ok(s.(entries := admitted[caller := c'.(lastReferralTime := now)],
            count := AdjustCount(s.count, e.status, true)))
  }
}
