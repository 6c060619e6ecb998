# Whitelist registry — a Dafny model

The `Whitelist` contract keeps a permissioned registry of addresses. The
deployer is the owner. The owner appoints an admin. The admin sets a global
referral cooldown and can whitelist or un-whitelist any address directly. A
whitelisted user who is off cooldown can refer another address. The referee
becomes whitelisted, the referrer is recorded on the referee's entry, and the
referrer's cooldown restarts at the block time of the referral.

The behaviour modelled is the one the test suite `test/Whitelist.js` fixes.
Where the tests are silent, the model takes the permissive reading and states
no property about it.

Files:

- `registry.dfy` (module `Registry`): the state (`owner`, `admin`, `cooldown`,
  `count`, `entries: map<Addr, Entry>`), the entry record
  `{status, referrer, lastReferralTime}`, and the four failures `NotOwner`,
  `NotAdmin`, `NotWhitelisted`, `CooldownActive`. The first two are both the
  "unauthorised" kind (`Error.IsUnauthorized`), so there are three kinds.
  `Error.Message` gives each failure's revert reason. Deployment, the four
  mutators and the five getters are pure functions; a mutator returns
  `Ok(next state)` or `Err(failure)`. The four scalar getters
  (`GetOwner`, `GetAdminAddress`, `GetCooldownTime`, `GetWhitelistCount`) and
  `GetWhitelist` are plain field reads; what they return is stated by the
  contracts of `Init` and of the mutators below.
- `ledger.dfy` (module `Ledger`): transactions (`Tx(sender, now, op)`),
  mining one transaction (`Step`, `Apply`: a failed one is reverted and
  leaves the state as it was), a whole history (`Run`), and properties of
  every history.
- `scenarios.dfy` (module `Scenarios`): one lemma per test scenario, over
  arbitrary signer addresses and block times, plus the general cooldown
  and idempotence lemmas those scenarios are instances of.

Modelling choices:

- An address is a 160-bit number (`Addr`). The zero address is the referrer
  of an entry that was never referred.
- The block time `now` is an explicit `nat` carried by each transaction.
- The admin and the cooldown at deployment are arguments of `Init`. The tests
  never say who the admin is before the first `updateAdmin`. The cooldown test
  (`test/Whitelist.js:81-85`) expects a second immediate referral to revert
  without ever calling `updateReferralCooldown`, so that test needs a
  non-zero cooldown at deployment. `ReferrerOnCooldown` asks
  only that the time between the two referrals be below that deployed value.
- The referral checks run in the contract's order. First the caller must be
  whitelisted. Then `now >= lastReferralTime + cooldown` must hold. An address
  that never referred has `lastReferralTime == 0`, so it is off cooldown only
  once `now` reaches the cooldown. While `now` is below the cooldown it is
  refused with `CooldownActive`, even though it has never referred.
- Self-referral and re-referring an already whitelisted address are allowed.
  In a referral the referee's entry is written first and the caller's
  timestamp second, so a self-referral gets both writes.
- The count goes up by one when an entry goes from not whitelisted to
  whitelisted. It goes down by one on the reverse change. It stays put
  otherwise.

## Model

| member | source | states |
|---|---|---|
| Registry.Init | test/Whitelist.js:19-26 | After deployment the owner is the deployer and the whitelist count is 0. Every address reads as the default entry (not whitelisted, zero referrer, time 0). The admin and the cooldown are the values given at deployment. |
| Registry.UpdateAdmin | test/Whitelist.js:32-40 | Succeeds exactly when the caller is the owner, and then `getAdminAddress` returns the new admin and nothing else changes. Any other caller gets `NotOwner`. |
| Registry.UpdateReferralCooldown | test/Whitelist.js:43-52 | Succeeds exactly when the caller is the current admin, and then `getCooldownTime` returns the new value (0 included) and nothing else changes. Any other caller gets `NotAdmin`. |
| Registry.DirectWhitelist | test/Whitelist.js:58-63 | Succeeds exactly when the caller is the admin, and then the address's status is the requested one. Its referrer and last-referral time are kept, other entries and the roles are untouched, and a false-to-true change adds one to the count while a no-op change leaves it. Any other caller gets `NotAdmin`. |
| Registry.ReferWhitelist | test/Whitelist.js:66-85 | Succeeds exactly when the caller is whitelisted and off cooldown. A caller that is not whitelisted gets `NotWhitelisted`, whatever its cooldown. A whitelisted caller on cooldown gets `CooldownActive`. On success the referee is whitelisted with the caller as referrer, and the caller's last-referral time is `now`. When the referee is not the caller, the referee's own time is kept, and so are the caller's status and referrer. No other entry or role changes. The count rises by one if the referee was not whitelisted. |
| Ledger.Step | test/Whitelist.js:39-85 | A transaction never changes the owner. An unauthorised failure comes only from a role-gated call. A not-whitelisted or cooldown failure comes only from a referral. |
| Ledger.Apply | test/Whitelist.js:38-40 | A transaction that fails is reverted: the state after it is the state before it. |
| Ledger.Run | test/Whitelist.js:19-20 | No history of transactions changes the owner. |
| Ledger.RunAppend | test/Whitelist.js:82-85 | Running one history and then another is the same as running them joined. |
| Ledger.UnwrittenReadsDefault | test/Whitelist.js:61-68 | An address that reads as the default entry (not whitelisted, zero referrer, time 0) still reads so after any history in which no transaction whitelists it directly or refers it. |
| Ledger.AdminChangesOnlyByOwner | test/Whitelist.js:32-40 | If the admin at the end of a history differs from the admin at the start, some transaction in it was an `updateAdmin` sent by the owner. |
| Ledger.CooldownChangesOnlyByAdmin | test/Whitelist.js:43-52 | If the cooldown at the end of a history differs from the one at the start, some transaction in it was an `updateReferralCooldown` sent by whoever was admin when it ran. |
| Ledger.WhitelistedOnlyByAdminOrReferral | test/Whitelist.js:58-78 | An address that was not whitelisted and is whitelisted at the end of a history was admitted by some transaction in it. Either the admin of that moment whitelisted it directly, or a user who was whitelisted and off cooldown at that moment referred it. |
| Scenarios.OwnerUpdatesAdmin | test/Whitelist.js:32-35 | On a fresh deployment, the owner's `updateAdmin(addr1)` makes `getAdminAddress` return `addr1`. |
| Scenarios.NonOwnerCannotUpdateAdmin | test/Whitelist.js:38-40 | On a fresh deployment, `updateAdmin` from any non-owner fails with `NotOwner`, whose reason is the owner-only message, and leaves the state unchanged. |
| Scenarios.AdminUpdatesCooldown | test/Whitelist.js:43-47 | After the owner appoints `addr1`, `addr1`'s `updateReferralCooldown(60)` makes `getCooldownTime` return 60. |
| Scenarios.NonAdminCannotUpdateCooldown | test/Whitelist.js:50-52 | On a fresh deployment, `updateReferralCooldown(60)` from anyone but the deployed admin fails with `NotAdmin`, whose reason is the admin-only message, and leaves the state unchanged. |
| Scenarios.AdminWhitelistsDirectly | test/Whitelist.js:58-63 | After the owner appoints `addr1`, `addr1`'s `directWhitelist(addr2, true)` makes `addr2`'s status true. |
| Scenarios.NonWhitelistedCannotRefer | test/Whitelist.js:66-68 | On a fresh deployment, any referral fails with `NotWhitelisted`, whose reason is the whitelisted-only message, and the referee's entry is unchanged. |
| Scenarios.ReferralSetupRuns | test/Whitelist.js:82-84 | Along the three setup transactions (appoint `addr1`, whitelist `addr2`, `addr2` refers `addr3` at a time no earlier than the deployed cooldown): before the referral, only `addr2` is whitelisted and it has never referred. The referral then succeeds. |
| Scenarios.WhitelistedUserRefers | test/Whitelist.js:71-78 | After those setup transactions, `addr3` is whitelisted and its referrer is `addr2`. |
| Scenarios.ReferralStartsCooldown | test/Whitelist.js:84-85 | In any state, after a successful referral by `caller` at time `t`, a second referral by `caller` at any `now < t + cooldown` fails with `CooldownActive`. The reverted transaction leaves the state, and so the second referee, as it was. |
| Scenarios.ReferrerOnCooldown | test/Whitelist.js:81-86 | After the setup transactions, `addr2`'s second referral (of an `addr4` other than `addr2` and `addr3`) at a time less than one deployed cooldown after the first fails with `CooldownActive`, whose reason is the cooldown message. `addr4` stays off the whitelist. |
| Scenarios.DirectWhitelistIdempotent | test/Whitelist.js:60-62 | Repeating a successful `directWhitelist` with the same arguments succeeds and changes nothing, the count included. |

## Left out

- Deployment through the test framework, signers, `connect`, promises and
  assertion plumbing: they are harness I/O. A signer is an `Addr`, and a call
  through `connect(x)` is a transaction whose sender is `x`.
- Real block timestamps and mining: the time of each transaction is an
  argument. Nothing forces the times of a history to be non-decreasing.
- Gas, events, ABI encoding, and revert mechanics beyond "a failed
  transaction changes nothing".
- 256-bit bounds: times, the cooldown and the count are unbounded integers.
  The tests do not show whether an overflow of `lastReferralTime + cooldown`
  or an underflow of the count reverts or wraps, so neither is modelled.
- The count on a true-to-false change, and the count being equal to the
  number of whitelisted addresses: the model decrements, but no property
  about either is stated, because the tests do not exercise them.
- Whether direct whitelisting should clear a referrer, and whether
  self-referral or re-referral should be refused: the model takes the
  permissive reading and states nothing beyond what the mutators' contracts
  say.
- Who the admin is right after deployment: it is an argument of `Init`.
- Registry.ReferWhitelist: a caller that never referred is on cooldown while
  `now` is below the cooldown; the tests only run at block times far above
  the deployed cooldown, so they do not say whether such a caller passes.
