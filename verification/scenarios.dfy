/**
 The behaviour the Whitelist test suite fixes, one lemma per scenario. Each
 scenario starts from a fresh deployment by `owner`; the signers are arbitrary
 addresses, and block times are arbitrary natural numbers subject only to the
 constraints a scenario needs.
 */
module Scenarios {
  import opened Registry
  import opened Ledger

  /** The owner (the deployer) can appoint an admin. */
  lemma OwnerUpdatesAdmin(owner: Addr, admin0: Addr, cooldown0: nat, addr1: Addr, t: nat)
    ensures GetAdminAddress(Run(Init(owner, admin0, cooldown0), [Tx(owner, t, SetAdmin(addr1))])) == addr1
  {
  }

  /** Anyone but the owner is refused with the owner-only reason, and the
      reverted transaction leaves the deployment as it was. */
  lemma NonOwnerCannotUpdateAdmin(owner: Addr, admin0: Addr, cooldown0: nat, addr1: Addr, addr2: Addr, t: nat)
    requires addr1 != owner
    ensures var s0 := Init(owner, admin0, cooldown0);
            && Step(s0, Tx(addr1, t, SetAdmin(addr2))) == Err(NotOwner)
            && NotOwner.Message() == "Only Owner of this contract can perform this action!"
            && Apply(s0, Tx(addr1, t, SetAdmin(addr2))) == s0
  {
  }

  /** An admin appointed by the owner can set the referral cooldown. */
  lemma AdminUpdatesCooldown(owner: Addr, admin0: Addr, cooldown0: nat, addr1: Addr, t1: nat, t2: nat)
    ensures GetCooldownTime(Run(Init(owner, admin0, cooldown0),
              [Tx(owner, t1, SetAdmin(addr1)), Tx(addr1, t2, SetCooldown(60))])) == 60
  {
  }

  /** Anyone but the admin is refused with the admin-only reason, and the
      reverted transaction leaves the deployment as it was. */
  lemma NonAdminCannotUpdateCooldown(owner: Addr, admin0: Addr, cooldown0: nat, addr1: Addr, t: nat)
    requires addr1 != admin0
    ensures var s0 := Init(owner, admin0, cooldown0);
            && Step(s0, Tx(addr1, t, SetCooldown(60))) == Err(NotAdmin)
            && NotAdmin.Message() == "Only admin of this contract can perform this action!"
            && Apply(s0, Tx(addr1, t, SetCooldown(60))) == s0
  {
  }

  /** An admin appointed by the owner can whitelist an address directly. */
  lemma AdminWhitelistsDirectly(owner: Addr, admin0: Addr, cooldown0: nat, addr1: Addr, addr2: Addr, t1: nat, t2: nat)
    ensures IsWhitelisted(Run(Init(owner, admin0, cooldown0),
              [Tx(owner, t1, SetAdmin(addr1)), Tx(addr1, t2, Direct(addr2, true))]), addr2)
  {
  }

  /** On a fresh deployment nobody is whitelisted, so a referral is refused
      with the whitelisted-only reason and the referee's entry is untouched. */
  lemma NonWhitelistedCannotRefer(owner: Addr, admin0: Addr, cooldown0: nat, addr2: Addr, addr3: Addr, t: nat)
    ensures var s0 := Init(owner, admin0, cooldown0);
            && Step(s0, Tx(addr2, t, Refer(addr3))) == Err(NotWhitelisted)
            && NotWhitelisted.Message() == "Only whitelisted users can perform this action!"
            && GetWhitelist(Apply(s0, Tx(addr2, t, Refer(addr3))), addr3) == GetWhitelist(s0, addr3)
  {
  }

  /** The three transactions every referral scenario begins with: the owner
      appoints `addr1`, who whitelists `addr2`, who refers `addr3` at `t3`. */
  function ReferralSetup(owner: Addr, addr1: Addr, addr2: Addr, addr3: Addr, t1: nat, t2: nat, t3: nat): seq<Tx> {
    [Tx(owner, t1, SetAdmin(addr1)), Tx(addr1, t2, Direct(addr2, true)), Tx(addr2, t3, Refer(addr3))]
  }

  /** Facts about the states along `ReferralSetup` from a fresh deployment: the
      state just before the referral has `addr2` whitelisted and never having
      referred, and the referral itself goes through. */
  lemma ReferralSetupRuns(owner: Addr, admin0: Addr, cooldown0: nat,
                          addr1: Addr, addr2: Addr, addr3: Addr, t1: nat, t2: nat, t3: nat)
    requires cooldown0 <= t3
    ensures var s0 := Init(owner, admin0, cooldown0);
            var txs := ReferralSetup(owner, addr1, addr2, addr3, t1, t2, t3);
            var s2 := Run(s0, txs[..2]);
            && IsWhitelisted(s2, addr2)
            && GetWhitelist(s2, addr2).lastReferralTime == 0
            && GetCooldownTime(s2) == cooldown0
            && (forall a :: a != addr2 ==> !IsWhitelisted(s2, a))
            && ReferWhitelist(s2, addr2, t3, addr3).Ok?
            && Run(s0, txs) == ReferWhitelist(s2, addr2, t3, addr3).value
  {
    var s0 := Init(owner, admin0, cooldown0);
    var txs := ReferralSetup(owner, addr1, addr2, addr3, t1, t2, t3);
    assert txs[..2][..1] == txs[..1] && txs[..1][..0] == [];
    assert txs[..3] == txs;
    var s1 := Apply(s0, txs[0]);
    assert Run(s0, txs[..1]) == s1;
    assert GetAdminAddress(s1) == addr1;
    var s2 := Apply(s1, txs[1]);
    assert Run(s0, txs[..2]) == s2;
    assert EntriesAgreeOutside(s1, s2, {addr2});
  }

  /** A whitelisted user who is off cooldown admits the referee and is
      recorded as its referrer. */
  lemma WhitelistedUserRefers(owner: Addr, admin0: Addr, cooldown0: nat,
                              addr1: Addr, addr2: Addr, addr3: Addr, t1: nat, t2: nat, t3: nat)
    requires cooldown0 <= t3
    ensures var s3 := Run(Init(owner, admin0, cooldown0), ReferralSetup(owner, addr1, addr2, addr3, t1, t2, t3));
            && IsWhitelisted(s3, addr3)
            && GetWhitelist(s3, addr3).referrer == addr2
  {
    ReferralSetupRuns(owner, admin0, cooldown0, addr1, addr2, addr3, t1, t2, t3);
  }

  /** Once `caller` has referred at time `t`, another referral by `caller`
      at any `now` before `t` plus the cooldown is refused as on cooldown, and
      the reverted transaction leaves the second referee as it was. */
  lemma ReferralStartsCooldown(s: State, caller: Addr, referee: Addr, t: nat,
                               next: Addr, now: nat)
    requires ReferWhitelist(s, caller, t, referee).Ok?
    requires now < t + GetCooldownTime(s)
    ensures var s1 := ReferWhitelist(s, caller, t, referee).value;
            && ReferWhitelist(s1, caller, now, next) == Err(CooldownActive)
            && Apply(s1, Tx(caller, now, Refer(next))) == s1
  {
  }

  /** A second referral straight after the first, within the cooldown the
      deployment started with, is refused with the cooldown reason; the second
      referee stays off the whitelist. */
  lemma ReferrerOnCooldown(owner: Addr, admin0: Addr, cooldown0: nat,
                           addr1: Addr, addr2: Addr, addr3: Addr, addr4: Addr,
                           t1: nat, t2: nat, t3: nat, t4: nat)
    requires cooldown0 <= t3 && t4 < t3 + cooldown0
    requires addr4 != addr2 && addr4 != addr3
    ensures var s3 := Run(Init(owner, admin0, cooldown0), ReferralSetup(owner, addr1, addr2, addr3, t1, t2, t3));
            && Step(s3, Tx(addr2, t4, Refer(addr4))) == Err(CooldownActive)
            && CooldownActive.Message() == "Referrer is on cooldown"
            && !IsWhitelisted(Apply(s3, Tx(addr2, t4, Refer(addr4))), addr4)
  {
    var s0 := Init(owner, admin0, cooldown0);
    var txs := ReferralSetup(owner, addr1, addr2, addr3, t1, t2, t3);
    ReferralSetupRuns(owner, admin0, cooldown0, addr1, addr2, addr3, t1, t2, t3);
    var s2 := Run(s0, txs[..2]);
    ReferralStartsCooldown(s2, addr2, addr3, t3, addr4, t4);
    var s3 := Run(s0, txs);
    assert !IsWhitelisted(s2, addr4);
    assert GetWhitelist(s3, addr4) == GetWhitelist(s2, addr4);
  }

  /** Repeating a successful direct whitelisting changes nothing, the count
      included. */
  lemma DirectWhitelistIdempotent(s: State, caller: Addr, who: Addr, status: bool)
    requires DirectWhitelist(s, caller, who, status).Ok?
    ensures var s1 := DirectWhitelist(s, caller, who, status).value;
            DirectWhitelist(s1, caller, who, status) == Ok(s1)
  {
    var s1 := DirectWhitelist(s, caller, who, status).value;
    assert s1.entries[who := GetWhitelist(s1, who).(status := status)] == s1.entries;
  }
}
