/** What a bystander can rely on, for every sequence of events. */
module ChannelTheorems {
  import opened Common
  import opened Channel
  import opened ChannelSafety

  // ---------- refund before contract ----------

  /** b is the log at some earlier moment of log. */
  predicate IsPast(b: Log, log: Log) {
    b == log || (log.After? && IsPast(b, log.before))
  }

  /** The refund validated last, and on which Consumer it started a payment. */
  function LastRefund(log: Log): (r: Option<Entry>)
    ensures r.Some? ==> r.value.RefundValidated?
  {
    if log.Empty? then None else if log.entry.RefundValidated? then Some(log.entry) else LastRefund(log.before)
  }

  predicate Contracted(log: Log, id: nat) {
    log.After? && ((log.entry.ProvideContract? && log.entry.id == id) || Contracted(log.before, id))
  }

  lemma {:induction false} PastAudit(b: Log, log: Log)
    requires IsPast(b, log) && Audit(log).Some?
    ensures Audit(b).Some?
  {
    if b != log {
      PastAudit(b, log.before);
    }
  }

  lemma {:induction false} LedgerSets(log: Log, id: nat)
    requires Audit(log).Some?
    ensures id in Audit(log).value.contracted <==> Contracted(log, id)
  {
    if log.After? {
      LedgerSets(log.before, id);
    }
  }

  ghost predicate Refunded(r: Option<Entry>, l: Ledger)
    requires r.Some? ==> r.value.RefundValidated?
  {
    if r.None? then l.current.None? && l.refund.None?
    else l.current == Some(r.value.id) && l.refund == Some(r.value.refund) && l.change <= l.amount == r.value.amount
  }

  lemma {:induction false} LedgerRefund(log: Log)
    requires Audit(log).Some?
    ensures Refunded(LastRefund(log), Audit(log).value)
  {
    if log.After? {
      LedgerRefund(log.before);
    }
  }

  lemma {:induction false} LedgerWorth(log: Log, b: Log, e: Entry)
    requires Audit(log).Some? && e.RefundValidated? && IsPast(After(b, e), log)
    ensures var worth := Audit(log).value.worth; e.id in worth && worth[e.id] == e.amount + e.fee
  {
    if log != After(b, e) {
      LedgerWorth(log.before, b, e);
    }
  }

  /** A payment is worth exactly what the inputs of its Consumer hold, less the fee. */
  lemma RefundIsBacked(events: seq<Event>, b: Log, e: Entry)
    requires e.RefundValidated? && IsPast(After(b, e), Run(events).log)
    ensures var cs := Run(events).wallet.commitments;
            e.id < |cs| && e.amount + e.fee == Satoshis(cs[e.id]) as real
  {
    var l := RunKeeps(events);
    LedgerWorth(Run(events).log, b, e);
  }

  /** The refund validated last is somewhere in the past. */
  lemma {:induction false} LastRefundPast(log: Log) returns (b: Log)
    requires LastRefund(log).Some?
    ensures IsPast(After(b, LastRefund(log).value), log)
  {
    if log.entry.RefundValidated? {
      b := log.before;
    } else {
      b := LastRefundPast(log.before);
    }
  }

  /**
    A contract leaves only when the refund validated last is its own Consumer's and on that Consumer, and
    never twice. The first payment, what the contract returns and the fee add up to what the commitment holds.
   */
  lemma RefundBeforeContract(events: seq<Event>, b: Log, e: Entry)
    requires e.ProvideContract? && IsPast(After(b, e), Run(events).log)
    ensures LastRefund(b).Some? && LastRefund(b).value.id == LastRefund(b).value.refund == e.id
    ensures !Contracted(b, e.id) && e.sent
    ensures e.first >= 0.0 && e.change == LastRefund(b).value.amount - e.first
    ensures var cs := Run(events).wallet.commitments;
            e.id < |cs| && e.first + e.change + LastRefund(b).value.fee == Satoshis(cs[e.id]) as real
  {
    var l := RunKeeps(events);
    PastAudit(After(b, e), Run(events).log);
    LedgerSets(b, e.id);
    LedgerRefund(b);
    var c := LastRefundPast(b);
    PastPast(After(c, LastRefund(b).value), After(b, e), Run(events).log);
    RefundIsBacked(events, c, LastRefund(b).value);
  }

  /** A contract of a Consumer was sent, or failed. */
  predicate Tried(log: Log, id: nat) {
    log.After?
    && (((log.entry.ProvideContract? || log.entry.ContractFailed?) && log.entry.id == id) || Tried(log.before, id))
  }

  lemma {:induction false} LedgerTried(log: Log, id: nat)
    requires Audit(log).Some?
    ensures id in Audit(log).value.tried <==> Tried(log, id)
  {
    if log.After? {
      LedgerTried(log.before, id);
    }
  }

  /** In every run a version message asks only for a channel whose contract this client has made before. */
  lemma ReopensOwn(events: seq<Event>, b: Log, e: Entry)
    requires e.ClientVersion? && e.reopen.Some? && IsPast(After(b, e), Run(events).log)
    ensures Tried(b, e.reopen.value)
  {
    var l := RunKeeps(events);
    PastAudit(After(b, e), Run(events).log);
    LedgerTried(b, e.reopen.value);
  }

  // ---------- the money of a channel ----------

  /** No refund is validated after b. */
  predicate SamePayment(b: Log, log: Log) {
    b == log || (log.After? && !log.entry.RefundValidated? && SamePayment(b, log.before))
  }

  lemma {:induction false} ChangeFalls(b: Log, log: Log)
    requires SamePayment(b, log) && Audit(log).Some?
    ensures Audit(b).Some?
    ensures Audit(log).value.change <= Audit(b).value.change
    ensures Audit(log).value.amount == Audit(b).value.amount && Audit(log).value.current == Audit(b).value.current
    ensures Audit(b).value.offered.Some? ==> Audit(log).value.offered == Audit(b).value.offered
  {
    if b != log {
      ChangeFalls(b, log.before);
    }
  }

  /**
    Every update is of the payment started last and leaves nothing, or at least the minimum, and never more
    than its worth.
   */
  lemma UpdateIsSound(events: seq<Event>, c: Log, f: Entry)
    requires f.UpdatePayment? && IsPast(After(c, f), Run(events).log)
    ensures LastRefund(c).Some? && f.id == LastRefund(c).value.id && 0.0 <= f.change <= LastRefund(c).value.amount
    ensures f.final ==> f.change == 0.0
    ensures !f.final ==> f.change >= f.least >= 0.0
    ensures f.least > 0.0 ==> (f.final <==> f.change == 0.0)
  {
    var l := RunKeeps(events);
    PastAudit(After(c, f), Run(events).log);
    LedgerRefund(c);
  }

  /** Until another refund is validated the change never grows, and an update behind a contract names its Consumer. */
  lemma ChangeNeverGrows(events: seq<Event>, b: Log, e: Entry, c: Log, f: Entry)
    requires f.UpdatePayment? && IsPast(After(c, f), Run(events).log)
    requires (e.ProvideContract? || e.UpdatePayment?) && SamePayment(After(b, e), c)
    ensures f.id == e.id && 0.0 <= f.change <= e.change
    ensures e.ProvideContract? ==> Contracted(c, f.id)
  {
    UpdateIsSound(events, c, f);
    var l := RunKeeps(events);
    PastAudit(After(c, f), Run(events).log);
    ChangeFalls(After(b, e), c);
    if e.ProvideContract? {
      ContractStays(b, e, c);
    }
  }

  lemma {:induction false} ContractStays(b: Log, e: Entry, log: Log)
    requires e.ProvideContract? && SamePayment(After(b, e), log)
    ensures Contracted(log, e.id)
  {
    if log != After(b, e) {
      ContractStays(b, e, log.before);
    }
  }

  // ---------- acknowledgements ----------

  function Updates(log: Log): nat {
    if log.Empty? then 0 else Updates(log.before) + if log.entry.UpdatePayment? then 1 else 0
  }

  function Acks(log: Log): nat {
    if log.Empty? then 0 else Acks(log.before) + if log.entry.PaymentAcked? then 1 else 0
  }

  lemma {:induction false} AckEach(log: Log)
    requires Audit(log).Some?
    ensures Updates(log) + (if Audit(log).value.acked then 1 else 0) <= Acks(log)
  {
    if log.After? {
      AckEach(log.before);
    }
  }

  /** Every payment update answers an acknowledgement of its own, and one more may be outstanding. */
  lemma UpdatesAreAcked(events: seq<Event>)
    ensures Updates(Run(events).log) + (if Run(events).money.receivedAck then 1 else 0) <= Acks(Run(events).log)
  {
    var l := RunKeeps(events);
    AckEach(Run(events).log);
  }

  /** The branch that reopens the channel after too many unacknowledged updates is never taken. */
  lemma NeverCounted(events: seq<Event>)
    ensures Run(events).unacked == 0 <= MAX_UNACKED
  {
    var l := RunKeeps(events);
  }

  /** The updates since b that return less than what was returned before. */
  function Lowering(b: Log, log: Log): nat {
    if b == log || log.Empty? then 0
    else
      var l := Audit(log.before);
      var lowers := log.entry.UpdatePayment? && l.Some? && log.entry.change < l.value.change;
      Lowering(b, log.before) + if lowers then 1 else 0
  }

  /** Every update since b that was not final is at least w wide. */
  predicate Wide(b: Log, log: Log, w: real) {
    b == log || log.Empty?
    || (Wide(b, log.before, w) && (log.entry.UpdatePayment? && !log.entry.final ==> log.entry.width >= w))
  }

  /** n times w. */
  function Times(n: nat, w: real): real {
    if n == 0 then 0.0 else Times(n - 1, w) + w
  }

  lemma OneMore(n: nat, w: real)
    ensures (n + 1) as real * w == n as real * w + w
  {
  }

  lemma {:induction false} TimesIsProduct(n: nat, w: real)
    ensures Times(n, w) == n as real * w
  {
    if n > 0 {
      TimesIsProduct(n - 1, w);
      OneMore(n - 1, w);
    }
  }

  /**
    n updates have lowered the change from `from` to `to`. While something is left each took at least w; once
    nothing is left, all but the last did, and the last took something.
   */
  ghost predicate Paced(n: nat, w: real, from: real, to: real) {
    && (to > 0.0 ==> Times(n, w) <= from - to)
    && (n > 0 ==> to >= 0.0 && Times(n - 1, w) < from - to)
  }

  lemma PacedStep(n: nat, w: real, from: real, l: Ledger, e: Entry)
    requires Paced(n, w, from, l.change) && Post(l, e).Some? && !e.RefundValidated? && !e.ContractFailed?
    requires !e.ProvideContract? && (e.UpdatePayment? && !e.final ==> e.width >= w)
    ensures var lowers := e.UpdatePayment? && e.change < l.change;
            Paced(if lowers then n + 1 else n, w, from, Post(l, e).value.change)
  {
  }

  /** Behind a contract no second contract follows, and none fails, before the next refund. */
  lemma {:induction false} LoweringPaced(b: Log, log: Log, w: real)
    requires SamePayment(b, log) && Audit(log).Some? && Wide(b, log, w)
    requires Audit(b).Some? && Audit(b).value.offered.Some?
    ensures Paced(Lowering(b, log), w, Audit(b).value.change, Audit(log).value.change)
  {
    if b != log {
      LoweringPaced(b, log.before, w);
      ChangeFalls(b, log.before);
      PacedStep(Lowering(b, log.before), w, Audit(b).value.change, Audit(log.before).value, log.entry);
    }
  }

  lemma {:induction false} SamePast(b: Log, log: Log)
    requires SamePayment(b, log)
    ensures IsPast(b, log)
  {
    if b != log {
      SamePast(b, log.before);
    }
  }

  lemma AuditedUpdatesAreFew(b: Log, e: Entry, log: Log, w: real, n: nat)
    requires e.ProvideContract? && SamePayment(After(b, e), log) && Audit(log).Some? && Wide(After(b, e), log, w)
    requires n == Lowering(After(b, e), log) > 0
    ensures Times(n - 1, w) < e.change
  {
    ChangeFalls(After(b, e), log);
    LoweringPaced(After(b, e), log, w);
  }

  /** A contract of a run, and what its payment is worth. */
  lemma ContractOfRun(events: seq<Event>, b: Log, e: Entry, log: Log)
    requires IsPast(log, Run(events).log) && e.ProvideContract? && SamePayment(After(b, e), log)
    ensures Audit(log).Some? && LastRefund(b).Some?
    ensures e.first >= 0.0 && e.change == LastRefund(b).value.amount - e.first
  {
    var l := RunKeeps(events);
    PastAudit(log, Run(events).log);
    SamePast(After(b, e), log);
    PastPast(After(b, e), log, Run(events).log);
    RefundBeforeContract(events, b, e);
  }

  lemma ProductBelow(n: nat, w: real, most: real)
    requires n > 0 && Times(n - 1, w) < most
    ensures (n - 1) as real * w < most
  {
    TimesIsProduct(n - 1, w);
  }

  /**
    After a contract and until the next refund, when all updates but a final one are at least w wide, those
    that lower the change number at most (amount - first payment) / w, rounded up.
   */
  lemma UpdatesAreFew(events: seq<Event>, b: Log, e: Entry, log: Log, w: real, n: nat)
    requires IsPast(log, Run(events).log)
    requires e.ProvideContract? && SamePayment(After(b, e), log) && Wide(After(b, e), log, w)
    requires n == Lowering(After(b, e), log)
    ensures LastRefund(b).Some? && e.first >= 0.0
    ensures n > 0 ==> (n - 1) as real * w < LastRefund(b).value.amount - e.first
  {
    ContractOfRun(events, b, e, log);
    if n > 0 {
      AuditedUpdatesAreFew(b, e, log, w, n);
      ProductBelow(n, w, e.change);
    }
  }

  lemma {:induction false} PastPast(a: Log, b: Log, c: Log)
    requires IsPast(a, b) && IsPast(b, c)
    ensures IsPast(a, c)
  {
    if b != c {
      PastPast(a, b, c.before);
    }
  }

  /**
    A channel opened with no acknowledgement pending, whose increments were each acknowledged at most
    once: what it has paid is what the client's total has risen by, plus an unacknowledged increment.
   */
  lemma TotalMatchesPaid(events: seq<Event>, l: Ledger)
    requires Audit(Run(events).log) == Some(l) && l.clean && l.base.Some?
    ensures var m := Run(events).money;
            && m.lastIncrement.Some? && m.totalPaid.Some?
            && m.totalPaid.value - l.base.value + (if m.receivedAck then 0.0 else m.lastIncrement.value)
               == l.amount - l.change
            && (m.consumer.Some? && m.consumer.value.payment.Some?
                ==> m.consumer.value.payment.value.paid == l.amount - l.change)
  {
    var l' := RunKeeps(events);
  }

  // ---------- funding ----------

  function Offset(cs: seq<seq<Utxo>>, a: nat): nat
    requires a <= |cs|
  {
    |Flatten(cs[..a])|
  }

  lemma {:induction false} FlattenAt(cs: seq<seq<Utxo>>, a: nat, i: nat)
    requires a < |cs| && i < |cs[a]|
    ensures Offset(cs, a) + i < |Flatten(cs)| && Flatten(cs)[Offset(cs, a) + i] == cs[a][i]
  {
    var n := |cs| - 1;
    assert cs[..n][..a] == cs[..a];
    if a < n {
      FlattenAt(cs[..n], a, i);
    }
  }

  lemma {:induction false} OffsetsApart(cs: seq<seq<Utxo>>, a: nat, b: nat)
    requires a < b <= |cs|
    ensures Offset(cs, a) + |cs[a]| <= Offset(cs, b)
  {
    assert cs[..b][..b - 1] == cs[..b - 1];
    if a < b - 1 {
      OffsetsApart(cs, a, b - 1);
    }
  }

  /** No output of any transaction is an input twice, of one commitment or of two. */
  lemma NoDoubleCommitment(events: seq<Event>, a: nat, i: nat, b: nat, j: nat)
    requires var cs := Run(events).wallet.commitments;
             && a < |cs| && i < |cs[a]| && b < |cs| && j < |cs[b]| && a <= b
             && cs[a][i].txId == cs[b][j].txId && cs[a][i].index == cs[b][j].index
    ensures a == b && i == j
  {
    var l := RunKeeps(events);
    var cs := Run(events).wallet.commitments;
    FlattenAt(cs, a, i);
    FlattenAt(cs, b, j);
    if a < b {
      OffsetsApart(cs, a, b);
    }
  }

  function Committed(cs: seq<seq<Utxo>>): nat {
    if |cs| == 0 then 0 else Committed(cs[..|cs| - 1]) + Satoshis(cs[|cs| - 1])
  }

  lemma {:induction false} CommittedSum(cs: seq<seq<Utxo>>)
    ensures Committed(cs) == Satoshis(Flatten(cs))
  {
    if |cs| > 0 {
      CommittedSum(cs[..|cs| - 1]);
      SatoshisJoin(Flatten(cs[..|cs| - 1]), cs[|cs| - 1]);
    }
  }

  /** Every satoshi received is in one commitment or still unprocessed. */
  lemma SatoshisConserved(events: seq<Event>)
    ensures var w := Run(events).wallet;
            && w.used <= |w.outputs|
            && Satoshis(Utxos(w.outputs)) == Committed(w.commitments) + Satoshis(Utxos(w.outputs[w.used..]))
            && forall i :: 0 <= i < |w.outputs| ==> (w.outputs[i].state.Unprocessed? <==> i >= w.used)
  {
    var l := RunKeeps(events);
    var w := Run(events).wallet;
    CommittedSum(w.commitments);
    UtxosSplit(w.outputs, w.used);
    SatoshisJoin(Utxos(w.outputs)[..w.used], Utxos(w.outputs[w.used..]));
  }

  /** The outputs of a transaction that pay the funding address, each with its own index and amount. */
  lemma {:induction false} OursExactly(tx: FundingTx, n: nat, u: Utxo)
    requires n <= |tx.outputs|
    ensures u in Ours(tx, n)
            <==> u.txId == tx.id && u.index < n && tx.outputs[u.index] == TxOut(true, u.satoshis)
  {
    if n > 0 {
      OursExactly(tx, n - 1, u);
    }
  }

  lemma CommitUtxos(w: Wallet)
    ensures Utxos(Commit(w).outputs) == Utxos(w.outputs)
  {
  }

  /** A refundable transaction not seen before adds all its outputs that are ours; any other adds nothing. */
  lemma FundingArrives(g: Globals, tx: FundingTx)
    requires g.socket.Open?
    ensures var added := if tx.id in g.wallet.hashes || !tx.refundable then [] else Ours(tx, |tx.outputs|);
            Utxos(Step(g, Received(Funding(tx))).g.wallet.outputs) == Utxos(g.wallet.outputs) + added
  {
    var w := AddFunding(g.wallet, Ours(tx, |tx.outputs|));
    assert Utxos(w.outputs) == Utxos(g.wallet.outputs) + Ours(tx, |tx.outputs|);
    assert Utxos(g.wallet.outputs) + [] == Utxos(g.wallet.outputs);
    CommitUtxos(w);
    FundingWallet(g, tx);
  }

  lemma FundingWallet(g: Globals, tx: FundingTx)
    ensures var w := AddFunding(g.wallet, Ours(tx, |tx.outputs|));
            var w' := ReceiveFunding(g, tx).g.wallet;
            if tx.id in g.wallet.hashes || !tx.refundable then w' == g.wallet else w' == w || w' == Commit(w)
  {
    if tx.id !in g.wallet.hashes && tx.refundable {
      var added := Ours(tx, |tx.outputs|);
      EnterFundingWallet(UpdateEscrow(g.(wallet := AddFunding(g.wallet, added))));
    }
  }

  lemma EnterFundingWallet(g: Globals)
    ensures var w := SetState(g, ReceivedFunding).g.wallet; w == g.wallet || w == Commit(g.wallet)
  {
    StartWallet(g.(state := ReceivedFunding));
  }

  /** A Consumer is built exactly when enough is left to open a channel and the server's key is known. */
  lemma StartWallet(g: Globals)
    ensures StartChannel(g).g.wallet
            == if Undepleted(g.wallet.outputs) as real - 1000.0 >= g.terms.minEscrow && g.terms.serverKey
               then Commit(g.wallet) else g.wallet
  {
  }

  lemma {:induction false} UndepletedFrom(outputs: seq<FundingOutput>, used: nat)
    requires used <= |outputs| && forall i :: 0 <= i < |outputs| ==> (outputs[i].state.Depleted? <==> i < used)
    ensures Undepleted(outputs) == Satoshis(Utxos(outputs[used..]))
  {
    if |outputs| > 0 {
      var front, last := outputs[..|outputs| - 1], outputs[|outputs| - 1];
      if used < |outputs| {
        UndepletedFrom(front, used);
        assert Utxos(outputs[used..]) == Utxos(front[used..]) + [last.utxo];
        SatoshisJoin(Utxos(front[used..]), [last.utxo]);
        SatoshisOne(last.utxo);
      } else {
        UndepletedFrom(front, used - 1);
        assert Utxos(outputs[used..]) == Utxos(front[used - 1..]) == [];
      }
    }
  }

  /** Closing a channel that was used up leaves exactly the outputs that no commitment holds. */
  lemma ClosedLeaves(events: seq<Event>)
    requires Run(events).fullyUsedUp && Run(events).socket.Open?
    ensures var w := Run(events).wallet;
            w.used <= |w.outputs|
            && Undepleted(Step(Run(events), Received(Close)).g.wallet.outputs) == Satoshis(Utxos(w.outputs[w.used..]))
  {
    var l := RunKeeps(events);
    CloseLeaves(Run(events));
  }

  lemma CloseLeaves(g: Globals)
    requires Sound(g.wallet) && g.fullyUsedUp
    ensures Undepleted(ReceiveClose(g).g.wallet.outputs) == Satoshis(Utxos(g.wallet.outputs[g.wallet.used..]))
  {
    CloseWallet(g);
    DepleteLeaves(g.wallet);
  }

  lemma DepleteLeaves(w: Wallet)
    requires Sound(w)
    ensures Undepleted(Deplete(w.outputs)) == Satoshis(Utxos(w.outputs[w.used..]))
  {
    UndepletedFrom(Deplete(w.outputs), w.used);
    assert Utxos(Deplete(w.outputs)[w.used..]) == Utxos(w.outputs[w.used..]);
  }

  lemma CloseWallet(g: Globals)
    ensures ReceiveClose(g).g.wallet.outputs == if g.fullyUsedUp then Deplete(g.wallet.outputs) else g.wallet.outputs
  {
  }

  // ---------- when a payment is forgotten ----------

  function PaidOf(g: Globals): real {
    if g.money.consumer.Some? && g.money.consumer.value.payment.Some?
    then g.money.consumer.value.payment.value.paid
    else 0.0
  }

  lemma RefundForgetsAt(g: Globals, signed: bool, fee: real)
    requires g.terms.minPayment >= 0.0
    requires g.state.SentRefund? ==> g.money.consumer.Some? && g.money.consumer.value.payment.None?
    ensures PaidOf(ReceiveRefund(g, signed, fee).g) < PaidOf(g)
            <==> signed && g.money.refundTx.Some? && !g.state.SentRefund? && PaidOf(g) > 0.0
  {
    if g.money.consumer.Some? {
      if g.money.refundTx.Some? && signed {
        SignedRefundPays(g, fee);
      } else {
        assert ReceiveRefund(g, signed, fee) == ExitWithError(g);
      }
    }
  }

  lemma SignedRefundPays(g: Globals, fee: real)
    requires g.terms.minPayment >= 0.0 && g.money.consumer.Some? && g.money.refundTx.Some?
    ensures PaidOf(ReceiveRefund(g, true, fee).g) == if g.state.SentRefund? then g.terms.minPayment else 0.0
  {
    var c := ValidateRefund(g.money.consumer.value, fee);
    var e := RefundValidated(c.id, g.money.refundTx.value, c.payment.value.amount, fee);
    var h := Note(g, e).(money := g.money.(consumer := Some(c)));
    EnterRefundPays(h);
  }

  lemma EnterRefundPays(h: Globals)
    requires h.terms.minPayment >= 0.0 && h.money.consumer.Some? && h.money.consumer.value.payment.Some?
             && PaidOf(h) == 0.0
    ensures PaidOf(SetState(h, ReceivedRefund).g) == if h.state.SentRefund? then h.terms.minPayment else 0.0
  {
  }

  /** A repeated refund signature restarts the payment: what was paid is forgotten exactly outside SENT_REFUND. */
  lemma RefundForgets(events: seq<Event>, signed: bool, fee: real)
    requires Run(events).socket.Open?
    ensures var g := Run(events);
            PaidOf(Step(g, Received(ReturnRefund(signed, fee))).g) < PaidOf(g)
            <==> signed && g.money.refundTx.Some? && !g.state.SentRefund? && PaidOf(g) > 0.0
  {
    var l := RunKeeps(events);
    RefundForgetsAt(Run(events), signed, fee);
  }
}
