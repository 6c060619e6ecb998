/**
 Transactions against the registry, one at a time, in the order the host
 delivers them. Each transaction names its sender and the block time; a
 transaction that fails is reverted and leaves the state as it was.
 */
module Ledger {
  import opened Registry

  /** The four mutators a transaction can call. */
  datatype Op =
    | SetAdmin(newAdmin: Addr)
    | SetCooldown(secs: nat)
    | Direct(who: Addr, status: bool)
    | Refer(referee: Addr)

  datatype Tx = Tx(sender: Addr, now: nat, op: Op)

  /** The outcome of one transaction. */
  function Step(s: State, tx: Tx): (r: Result<State>)
    ensures r.Ok? ==> GetOwner(r.value) == GetOwner(s)
    ensures r.Err? && r.error.IsUnauthorized() ==> !tx.op.Refer?
    ensures r.Err? && !r.error.IsUnauthorized() ==> tx.op.Refer?
  {
    match tx.op
    case SetAdmin(a) => UpdateAdmin(s, tx.sender, a)
    case SetCooldown(secs) => UpdateReferralCooldown(s, tx.sender, secs)
    case Direct(who, status) => DirectWhitelist(s, tx.sender, who, status)
    case Refer(referee) => ReferWhitelist(s, tx.sender, tx.now, referee)
  }

  /** The state after `tx` is mined: its new state, or `s` if it reverted. */
  function Apply(s: State, tx: Tx): (t: State)
    ensures GetOwner(t) == GetOwner(s)
    ensures Step(s, tx).Err? ==> t == s
  {
    match Step(s, tx)
    case Ok(t) => t
    case Err(_) => s
  }

  /** The state after every transaction of `txs`, in order, starting from `s`. */
  function Run(s: State, txs: seq<Tx>): (t: State)
    ensures GetOwner(t) == GetOwner(s)
    decreases |txs|
  {
    if |txs| == 0 then s
    else Apply(Run(s, txs[..|txs| - 1]), txs[|txs| - 1])
  }

  /** Running two histories one after the other is running their concatenation. */
  lemma {:induction false} RunAppend(s: State, a: seq<Tx>, b: seq<Tx>)
    ensures Run(s, a + b) == Run(Run(s, a), b)
    decreases |b|
  {
    if |b| == 0 {
      assert a + b == a;
    } else {
      var b' := b[..|b| - 1];
      assert (a + b)[..|a + b| - 1] == a + b';
      RunAppend(s, a, b');
    }
  }

  /** An address that reads as the default entry keeps reading so through any
      history in which nobody whitelists it directly or refers it. */
  lemma {:induction false} UnwrittenReadsDefault(s: State, txs: seq<Tx>, w: Addr)
    requires GetWhitelist(s, w) == DefaultEntry
    requires forall i :: 0 <= i < |txs| ==> txs[i].op != Refer(w) && txs[i].op != Direct(w, true)
    ensures GetWhitelist(Run(s, txs), w) == DefaultEntry
    decreases |txs|
  {
    if |txs| > 0 {
      UnwrittenReadsDefault(s, txs[..|txs| - 1], w);
    }
  }

  /** Only a transaction sent by the owner and calling `updateAdmin` ever
      changes the admin. */
  lemma {:induction false} AdminChangesOnlyByOwner(s: State, txs: seq<Tx>)
    ensures GetAdminAddress(Run(s, txs)) != GetAdminAddress(s) ==>
              exists i :: 0 <= i < |txs| && txs[i].op.SetAdmin? && txs[i].sender == GetOwner(s)
    decreases |txs|
  {
    if |txs| > 0 {
      var n := |txs| - 1;
      var pre := txs[..n];
      AdminChangesOnlyByOwner(s, pre);
      if GetAdminAddress(Run(s, txs)) != GetAdminAddress(s) {
        if GetAdminAddress(Run(s, pre)) != GetAdminAddress(s) {
          var i :| 0 <= i < |pre| && pre[i].op.SetAdmin? && pre[i].sender == GetOwner(s);
          assert txs[i] == pre[i];
        } else {
          assert txs[n].op.SetAdmin? && txs[n].sender == GetOwner(s);
        }
      }
    }
  }

  /** Only a transaction calling `updateReferralCooldown`, sent by whoever was
      admin when it ran, ever changes the cooldown. */
  lemma {:induction false} CooldownChangesOnlyByAdmin(s: State, txs: seq<Tx>)
    ensures GetCooldownTime(Run(s, txs)) != GetCooldownTime(s) ==>
              exists i :: 0 <= i < |txs| && txs[i].op.SetCooldown?
                && txs[i].sender == GetAdminAddress(Run(s, txs[..i]))
    decreases |txs|
  {
    if |txs| > 0 {
      var n := |txs| - 1;
      var pre := txs[..n];
      CooldownChangesOnlyByAdmin(s, pre);
      if GetCooldownTime(Run(s, txs)) != GetCooldownTime(s) {
        if GetCooldownTime(Run(s, pre)) != GetCooldownTime(s) {
          var i :| 0 <= i < |pre| && pre[i].op.SetCooldown?
            && pre[i].sender == GetAdminAddress(Run(s, pre[..i]));
          assert txs[i] == pre[i] && pre[..i] == txs[..i];
        } else {
          assert txs[n].op.SetCooldown? && txs[n].sender == GetAdminAddress(Run(s, txs[..n]));
        }
      }
    }
  }

  /** Transaction `tx` admits `who`: the admin sets its status to true, or a
      whitelisted, off-cooldown sender refers it. */
  predicate Admits(s: State, tx: Tx, who: Addr) {
    || (tx.op == Direct(who, true) && tx.sender == GetAdminAddress(s))
    || (tx.op == Refer(who) && IsWhitelisted(s, tx.sender) && OffCooldown(s, tx.sender, tx.now))
  }

  /** An address that was not whitelisted and is whitelisted at the end was
      admitted by some transaction: directly by the admin of the moment, or by
      referral from a user who was whitelisted and off cooldown at the time. */
  lemma {:induction false} WhitelistedOnlyByAdminOrReferral(s: State, txs: seq<Tx>, who: Addr)
    requires !IsWhitelisted(s, who)
    ensures IsWhitelisted(Run(s, txs), who) ==>
              exists i :: 0 <= i < |txs| && Admits(Run(s, txs[..i]), txs[i], who)
    decreases |txs|
  {
    if |txs| > 0 {
      var n := |txs| - 1;
      var pre := txs[..n];
      WhitelistedOnlyByAdminOrReferral(s, pre, who);
      if IsWhitelisted(Run(s, txs), who) {
        if IsWhitelisted(Run(s, pre), who) {
          var i :| 0 <= i < |pre| && Admits(Run(s, pre[..i]), pre[i], who);
          assert txs[i] == pre[i] && pre[..i] == txs[..i];
        } else {
          assert Admits(Run(s, txs[..n]), txs[n], who);
        }
      }
    }
  }
}
