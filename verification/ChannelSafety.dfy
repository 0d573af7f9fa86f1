/**
  What every run of the channel client keeps. The client's log is checked against an auditor that
  sees only the log and knows nothing of the client's variables.
 */
module ChannelSafety {
  import opened Common
  import opened Channel

  // ---------- the auditor ----------

  /**
    contracted: Consumers whose contract was sent; tried: also those whose contract failed.
    worth: what every refund validated on a Consumer returned, its fee included.
    current, refund: whose payment is being raised, and whose refund was validated to start it.
    amount, change: the worth of that payment, and what it still returns.
    offered: the change named by the contract of that payment.
    acked, increment: whether the last increment was acknowledged, and its size.
    clean: every increment since the contract was acknowledged at most once; rise: what was acknowledged.
   */
  datatype Ledger = Ledger(
    contracted: set<nat>, tried: set<nat>, worth: map<nat, real>, current: Option<nat>, refund: Option<nat>,
    amount: real, change: real, offered: Option<real>, acked: bool, increment: Option<real>, clean: bool,
    base: Option<real>, rise: real)

  const BLANK := Ledger({}, {}, map[], None, None, 0.0, 0.0, None, false, None, false, None, 0.0)

  /** None when the entry breaks a rule. */
  function Post(l: Ledger, e: Entry): Option<Ledger> {
    match e
    case RefundValidated(id, refund, amount, fee) =>
      if id in l.worth && l.worth[id] != amount + fee then None
      else Some(l.(worth := l.worth[id := amount + fee], current := Some(id), refund := Some(refund), amount := amount,
                   change := amount, offered := None, clean := false))
    case ProvideContract(id, first, change, total, sent) =>
      if sent && id !in l.contracted && l.current == Some(id) == l.refund && l.offered.None?
         && l.change == l.amount && first >= 0.0 && change == l.amount - first && change != 0.0
      then Some(l.(contracted := l.contracted + {id}, tried := l.tried + {id}, change := change,
                   offered := Some(change), increment := Some(l.amount - change), clean := !l.acked, base := total,
                   rise := 0.0))
      else None
    case ContractFailed(id) =>
      if l.current == Some(id) && l.offered.None? && l.change == l.amount >= 0.0
      then Some(l.(tried := l.tried + {id}, change := 0.0, clean := false)) else None
    case ClientVersion(reopen, sent) =>
      if reopen.Some? && reopen.value !in l.tried then None else Some(l)
    case UpdatePayment(id, change, final, least, width, sent) =>
      if l.current == Some(id) && l.acked && least >= 0.0 && change <= l.change
         && if final then change == 0.0 && l.change - width < least else change >= least && l.change - change == width
      then Some(l.(change := change, acked := false, increment := Some(l.change - change)))
      else None
    case PaymentAcked =>
      Some(l.(acked := true, clean := l.clean && !l.acked,
              rise := if l.increment.Some? then l.rise + l.increment.value else l.rise))
    case _ => Some(l)
  }

  function Audit(log: Log): Option<Ledger> {
    match log
    case Empty => Some(BLANK)
    case After(before, e) =>
      var l := Audit(before);
      if l.None? then None else Post(l.value, e)
  }

  // ---------- the invariant ----------

  /** From building the Consumer to sending its contract. */
  predicate Opening(s: ChannelState) {
    s.Initiated? || s.SentRefund? || s.ReceivedRefund? || s.SentContract?
  }

  /** The client's variables agree with the ledger; n Consumers have been built. */
  ghost predicate Books(m: Money, n: nat, l: Ledger) {
    && m.receivedAck == l.acked
    && (forall id :: id in l.contracted ==> id < n)
    && (l.clean ==> m.lastIncrement == l.increment && l.increment.Some? && Acknowledged(m, l))
    && (m.consumer.Some? && m.consumer.value.payment.Some? ==> Matches(m.consumer.value, l))
  }

  /** Of what the channel has paid, all but an unacknowledged increment is in the client's total. */
  ghost predicate Acknowledged(m: Money, l: Ledger)
    requires l.increment.Some?
  {
    && m.totalPaid == Plus(l.base, Some(l.rise))
    && l.rise + (if l.acked then 0.0 else l.increment.value) == l.amount - l.change
  }

  ghost predicate Matches(c: Consumer, l: Ledger)
    requires c.payment.Some?
  {
    && l.current == Some(c.id)
    && c.payment.value.amount == l.amount && c.payment.value.Change() == l.change
  }

  ghost predicate Protocol(g: Globals, l: Ledger) {
    var c := g.money.consumer;
    && (Opening(g.state) ==> !g.waiting && c.Some?)
    && (Opening(g.state) && !g.state.SentContract? ==> c.value.id !in l.contracted)
    && (g.state.SentRefund? ==> c.value.payment.None? && g.money.refundTx == Some(c.value.id))
    && (c.Some? ==> IsCommitted(c.value, g.wallet.commitments))
    && (g.socket.Connecting? || g.socket.Closed? ==> !Opening(g.state))
  }

  /** Every refund was worth what its Consumer's commitment holds. */
  ghost predicate Backed(worth: map<nat, real>, cs: seq<seq<Utxo>>) {
    forall id :: id in worth ==> id < |cs| && worth[id] == Satoshis(cs[id]) as real
  }

  predicate IsCommitted(c: Consumer, cs: seq<seq<Utxo>>) {
    c.id < |cs| && cs[c.id] == c.inputs
  }

  function Flatten(cs: seq<seq<Utxo>>): seq<Utxo> {
    if |cs| == 0 then [] else Flatten(cs[..|cs| - 1]) + cs[|cs| - 1]
  }

  ghost predicate Distinct(us: seq<Utxo>) {
    forall i, j :: 0 <= i < j < |us| ==> us[i].txId != us[j].txId || us[i].index != us[j].index
  }

  /** Every output is known once, and the commitments hold exactly the used ones, in order. */
  ghost predicate Sound(w: Wallet) {
    && w.count == |w.outputs|
    && w.used <= w.count
    && (forall i :: 0 <= i < |w.outputs| ==> (w.outputs[i].state.Unprocessed? <==> i >= w.used))
    && (forall i :: 0 <= i < |w.outputs| ==> w.outputs[i].utxo.txId in w.hashes)
    && Distinct(Utxos(w.outputs))
    && Flatten(w.commitments) == Utxos(w.outputs)[..w.used]
  }

  ghost predicate Inv(g: Globals, l: Ledger) {
    && Audit(g.log) == Some(l)
    && g.terms.minPayment >= 0.0 && g.unacked == 0
    && Books(g.money, |g.wallet.commitments|, l)
    && Protocol(g, l)
    && Backed(l.worth, g.wallet.commitments)
    && (g.previousContract.Some? ==> g.previousContract.value in l.tried)
    && Sound(g.wallet)
  }

  // ---------- moves that leave the money alone ----------

  lemma Steer(g: Globals, l: Ledger, h: Globals)
    requires Inv(g, l) && h.money == g.money && h.wallet == g.wallet && h.terms.minPayment >= 0.0
             && Audit(h.log) == Some(l) && h.unacked == 0 && h.previousContract == g.previousContract
    requires Opening(h.state) ==> h.state == g.state && h.waiting == g.waiting
    requires h.socket == g.socket || !Opening(h.state)
    ensures Inv(h, l)
  {
  }

  lemma SendVersionKeeps(g: Globals, l: Ledger)
    requires Inv(g, l)
    ensures Inv(SendVersion(g).g, l)
  {
    Steer(g, l, SendVersion(g).g);
  }

  lemma StartPaymentChannelKeeps(g: Globals, l: Ledger)
    requires Inv(g, l)
    ensures Inv(StartPaymentChannel(g).g, l)
  {
    Steer(g, l, g.(timer := false));
    SendVersionKeeps(g.(timer := false), l);
  }

  lemma ExitWithErrorKeeps(g: Globals, l: Ledger)
    requires Inv(g, l)
    ensures Inv(ExitWithError(g).g, l)
  {
    Steer(g, l, ExitWithError(g).g);
  }

  lemma SendFundingAddressKeeps(g: Globals, l: Ledger)
    requires Inv(g, l)
    ensures Inv(SendFundingAddress(g).g, l)
  {
    Steer(g, l, SendFundingAddress(g).g);
  }

  // ---------- opening a channel ----------

  /** A Consumer just built: no payment, no contract. */
  ghost predicate Newborn(g: Globals, l: Ledger) {
    && g.money.consumer.Some? && g.money.consumer.value.payment.None? && !g.waiting && g.socket.Open?
    && g.money.consumer.value.id !in l.contracted
  }

  lemma SendRefundKeeps(g: Globals, l: Ledger)
    requires Inv(g, l) && g.state.Initiated? && Newborn(g, l)
    ensures Inv(SendRefund(g).g, l)
  {
  }

  lemma EnterInitiatedKeeps(g: Globals, l: Ledger)
    requires Inv(g, l) && Newborn(g, l)
    ensures Inv(EnterInitiated(g).g, l)
  {
    if IsEdge(g.state, Initiated) {
      SendRefundKeeps(g.(state := Initiated), l);
    }
  }

  lemma FlattenExtend(cs: seq<seq<Utxo>>, c: seq<Utxo>)
    ensures Flatten(cs + [c]) == Flatten(cs) + c
  {
    assert (cs + [c])[..|cs|] == cs;
  }

  lemma UtxosSplit(outputs: seq<FundingOutput>, i: nat)
    requires i <= |outputs|
    ensures Utxos(outputs)[..i] + Utxos(outputs[i..]) == Utxos(outputs)
  {
  }

  lemma CommitKeeps(w: Wallet)
    requires Sound(w)
    ensures Sound(Commit(w))
  {
    FlattenExtend(w.commitments, Unused(w));
    assert Utxos(Commit(w).outputs) == Utxos(w.outputs);
    UtxosSplit(w.outputs, w.used);
    assert w.outputs[w.used..w.count] == w.outputs[w.used..];
    assert Utxos(w.outputs)[..w.count] == Utxos(w.outputs);
  }

  lemma CreateChannelKeeps(g: Globals, l: Ledger)
    requires Inv(g, l) && !g.waiting && g.socket.Open? && !Opening(g.state)
    ensures Inv(CreateChannel(g), l) && Newborn(CreateChannel(g), l)
  {
    CommitKeeps(g.wallet);
  }

  lemma StartChannelKeeps(g: Globals, l: Ledger)
    requires Inv(g, l) && g.socket.Open? && !Opening(g.state)
    ensures Inv(StartChannel(g).g, l)
  {
    var h := UpdateEscrow(g);
    if h.terms.escrow < h.terms.minEscrow {
      Steer(g, l, h.(waiting := true));
    } else {
      var k := h.(waiting := false, attemptReopen := true);
      Steer(g, l, k);
      if k.terms.serverKey {
        CreateChannelKeeps(k, l);
        EnterInitiatedKeeps(CreateChannel(k), l);
      }
    }
  }

  lemma EnterPriceKeeps(g: Globals, l: Ledger)
    requires Inv(g, l) && g.socket.Open?
    ensures Inv(SetState(g, ReceivedPrice).g, l)
  {
    if IsEdge(g.state, ReceivedPrice) {
      var h := g.(state := ReceivedPrice);
      Steer(g, l, h);
      if h.wallet.count > h.wallet.used { StartChannelKeeps(h, l); } else { SendFundingAddressKeeps(h, l); }
    }
  }

  lemma EnterFundingKeeps(g: Globals, l: Ledger)
    requires Inv(g, l) && g.socket.Open?
    ensures Inv(SetState(g, ReceivedFunding).g, l)
  {
    var h := g.(state := ReceivedFunding);
    Steer(g, l, h);
    if h.waiting { StartChannelKeeps(h, l); } else { Steer(h, l, h.(waiting := true)); }
  }

  /** The other moves: none opens a channel. */
  lemma SetStateKeeps(g: Globals, l: Ledger, s: ChannelState)
    requires Inv(g, l)
    requires !s.ReceivedPrice? && !s.ReceivedFunding? && !Opening(s) && !s.Begin?
    ensures Inv(SetState(g, s).g, l)
  {
    if IsEdge(g.state, s) {
      var h := g.(state := s);
      Steer(g, l, h);
      if s.ReceivedError? || s.ReceivedClose? || s.SentClose? {
        StartPaymentChannelKeeps(h, l);
      }
    }
  }

  // ---------- the refund and the contract ----------

  lemma SendContractKeeps(g: Globals, l: Ledger) returns (l': Ledger)
    requires Inv(g, l) && g.state.ReceivedRefund? && g.socket.Open? && g.money.consumer.value.payment.Some?
    requires l.offered.None? && l.change == l.amount && l.refund == l.current
    ensures Inv(SendContract(g).g, l') && l'.change == l.amount - g.terms.minPayment
  {
    var c := Raise(g.money.consumer.value, g.terms.minPayment);
    var change := c.payment.value.Change();
    var e := if change == 0.0 then ContractFailed(c.id)
             else ProvideContract(c.id, g.terms.minPayment, change, g.money.totalPaid, true);
    ContractReady(g, l);
    ContractBooks(g.money, |g.wallet.commitments|, l, e, g.terms.minPayment);
    l' := Post(l, e).value;
    ContractSent(g, e);
    ContractKept(g, l, SendContract(g).g, e, l');
  }

  lemma ContractReady(g: Globals, l: Ledger)
    requires Inv(g, l) && g.state.ReceivedRefund? && g.money.consumer.value.payment.Some?
    ensures Books(g.money, |g.wallet.commitments|, l) && g.terms.minPayment >= 0.0
    ensures g.money.consumer.value.id < |g.wallet.commitments| && g.money.consumer.value.id !in l.contracted
  {
  }

  /** A contract offered or failed, and nothing else touched. */
  lemma ContractKept(g: Globals, l: Ledger, h: Globals, e: Entry, l': Ledger)
    requires Inv(g, l) && g.state.ReceivedRefund? && g.socket.Open? && g.money.consumer.value.payment.Some?
    requires (e.ProvideContract? || e.ContractFailed?) && Post(l, e) == Some(l')
    requires h == Note(g, e).(money := Pay(g.money, g.terms.minPayment), previousContract := h.previousContract,
                              state := if e.ProvideContract? then SentContract else g.state)
    requires h.previousContract == Some(e.id) && Books(h.money, |h.wallet.commitments|, l')
    ensures Inv(h, l')
  {
  }

  lemma ContractSent(g: Globals, e: Entry)
    requires g.state.ReceivedRefund? && g.socket.Open?
    requires g.money.consumer.Some? && g.money.consumer.value.payment.Some?
    requires var m := Pay(g.money, g.terms.minPayment);
             var change := m.consumer.value.payment.value.Change();
             e == if change == 0.0 then ContractFailed(m.consumer.value.id)
                  else ProvideContract(m.consumer.value.id, g.terms.minPayment, change, g.money.totalPaid, true)
    ensures SendContract(g).g
            == Note(g, e).(money := Pay(g.money, g.terms.minPayment),
                           previousContract := Some(g.money.consumer.value.id),
                           state := if e.ProvideContract? then SentContract else g.state)
  {
  }

  lemma ContractBooks(m: Money, n: nat, l: Ledger, e: Entry, first: real)
    requires Books(m, n, l) && m.consumer.Some? && m.consumer.value.payment.Some? && m.consumer.value.id < n
    requires m.consumer.value.id !in l.contracted && first >= 0.0
    requires l.offered.None? && l.change == l.amount && l.refund == l.current
    requires var c := Pay(m, first).consumer.value;
             var change := c.payment.value.Change();
             e == if change == 0.0 then ContractFailed(c.id)
                  else ProvideContract(c.id, first, change, m.totalPaid, true)
    ensures Post(l, e).Some? && Books(Pay(m, first), n, Post(l, e).value)
    ensures Post(l, e).value.change == l.amount - first
  {
  }

  lemma RefundAccepted(g: Globals, l: Ledger, c: Consumer, refund: nat, fee: real, h: Globals) returns (l': Ledger)
    requires Inv(g, l) && g.money.consumer.Some? && c.payment.Some? && c.payment.value.paid == 0.0
    requires c == g.money.consumer.value.(payment := c.payment)
    requires c.payment.value.amount + fee == Satoshis(c.inputs) as real
    requires h.log == After(g.log, RefundValidated(c.id, refund, c.payment.value.amount, fee))
             && h.money == g.money.(consumer := Some(c))
    requires h.wallet == g.wallet && h.terms == g.terms && h.waiting == g.waiting && h.socket == g.socket
    requires h.unacked == g.unacked && h.previousContract == g.previousContract
    requires h.state == if g.state.SentRefund? then ReceivedRefund else g.state
    ensures Inv(h, l')
    ensures l'.offered.None? && l'.change == l'.amount && l'.current == Some(c.id) && l'.refund == Some(refund)
  {
    l' := Post(l, RefundValidated(c.id, refund, c.payment.value.amount, fee)).value;
  }

  lemma ReceiveRefundKeeps(g: Globals, l: Ledger, signed: bool, fee: real) returns (l': Ledger)
    requires Inv(g, l) && g.socket.Open?
    ensures Inv(ReceiveRefund(g, signed, fee).g, l')
  {
    l' := l;
    if g.money.consumer.Some? {
      if g.money.refundTx.None? || !signed {
        ExitWithErrorKeeps(g, l);
      } else {
        l' := SignedRefundKeeps(g, l, fee);
      }
    }
  }

  lemma SignedRefund(g: Globals, fee: real, h: Globals)
    requires g.money.consumer.Some? && g.money.refundTx.Some?
    requires var c := ValidateRefund(g.money.consumer.value, fee);
             var e := RefundValidated(c.id, g.money.refundTx.value, c.payment.value.amount, fee);
             h == Note(g, e).(money := g.money.(consumer := Some(c)))
    ensures ReceiveRefund(g, true, fee).g
            == if g.state.SentRefund? then SendContract(h.(state := ReceivedRefund)).g else h
  {
  }

  lemma SignedRefundKeeps(g: Globals, l: Ledger, fee: real) returns (l': Ledger)
    requires Inv(g, l) && g.socket.Open? && g.money.consumer.Some? && g.money.refundTx.Some?
    ensures Inv(ReceiveRefund(g, true, fee).g, l')
  {
    var c, refund := ValidateRefund(g.money.consumer.value, fee), g.money.refundTx.value;
    var e := RefundValidated(c.id, refund, c.payment.value.amount, fee);
    var h := Note(g, e).(money := g.money.(consumer := Some(c)));
    SignedRefund(g, fee, h);
    if g.state.SentRefund? {
      var k := h.(state := ReceivedRefund);
      l' := RefundAccepted(g, l, c, refund, fee, k);
      l' := SendContractKeeps(k, l');
    } else {
      l' := RefundAccepted(g, l, c, refund, fee, h);
    }
  }

  // ---------- funding ----------

  lemma {:induction false} OursAt(tx: FundingTx, n: nat)
    requires n <= |tx.outputs|
    ensures forall i :: 0 <= i < |Ours(tx, n)| ==> Ours(tx, n)[i].txId == tx.id && Ours(tx, n)[i].index < n
    ensures Distinct(Ours(tx, n))
  {
    if n > 0 {
      OursAt(tx, n - 1);
    }
  }

  lemma DistinctJoin(a: seq<Utxo>, b: seq<Utxo>, id: nat)
    requires Distinct(a) && Distinct(b)
    requires forall i :: 0 <= i < |a| ==> a[i].txId != id
    requires forall i :: 0 <= i < |b| ==> b[i].txId == id
    ensures Distinct(a + b)
  {
  }

  lemma AddFundingHashes(w: Wallet, added: seq<Utxo>, i: nat)
    requires Sound(w) && i < |w.outputs| + |added|
    ensures AddFunding(w, added).outputs[i].utxo.txId in AddFunding(w, added).hashes
  {
    var h := AddFunding(w, added);
    if i >= |w.outputs| {
      assert h.hashes[|w.hashes| + (i - |w.outputs|)] == h.outputs[i].utxo.txId;
    } else {
      assert w.outputs[i].utxo.txId in w.hashes;
    }
  }

  lemma AddFundingKeeps(w: Wallet, tx: FundingTx)
    requires Sound(w) && tx.id !in w.hashes
    ensures Sound(AddFunding(w, Ours(tx, |tx.outputs|)))
  {
    var added := Ours(tx, |tx.outputs|);
    var h := AddFunding(w, added);
    OursAt(tx, |tx.outputs|);
    assert Utxos(h.outputs) == Utxos(w.outputs) + added;
    DistinctJoin(Utxos(w.outputs), added, tx.id);
    forall i | 0 <= i < |h.outputs|
      ensures h.outputs[i].utxo.txId in h.hashes
    {
      AddFundingHashes(w, added, i);
    }
    assert Utxos(h.outputs)[..h.used] == Utxos(w.outputs)[..w.used];
  }

  lemma FundingUsedKeeps(g: Globals, l: Ledger, added: seq<Utxo>)
    requires Inv(g, l) && g.socket.Open?
    ensures Inv((if Satoshis(added) == 0 then ExitWithError(g) else SetState(UpdateEscrow(g), ReceivedFunding)).g, l)
  {
    if Satoshis(added) == 0 {
      ExitWithErrorKeeps(g, l);
    } else {
      Steer(g, l, UpdateEscrow(g));
      EnterFundingKeeps(UpdateEscrow(g), l);
    }
  }

  lemma ReceiveFundingKeeps(g: Globals, l: Ledger, tx: FundingTx)
    requires Inv(g, l) && g.socket.Open?
    ensures Inv(ReceiveFunding(g, tx).g, l)
  {
    if tx.id !in g.wallet.hashes {
      if !tx.refundable {
        ExitWithErrorKeeps(g, l);
      } else {
        var added := Ours(tx, |tx.outputs|);
        var h := g.(wallet := AddFunding(g.wallet, added));
        AddFundingKeeps(g.wallet, tx);
        assert Inv(h, l);
        FundingUsedKeeps(h, l, added);
      }
    }
  }

  // ---------- paying ----------

  lemma PaymentRaised(m: Money, n: nat, l: Ledger, e: Entry, increment: real) returns (l': Ledger)
    requires Books(m, n, l) && m.receivedAck && m.consumer.Some? && m.consumer.value.payment.Some? && increment >= 0.0
    requires e.UpdatePayment? && e.id == m.consumer.value.id && e.least >= 0.0
    requires var p := m.consumer.value.payment.value;
             && e.change == p.Change() - increment
             && e.final == (p.Change() - e.width < e.least)
             && increment == if e.final then p.Change() else e.width
    ensures Post(l, e) == Some(l') && l'.contracted == l.contracted && l'.tried == l.tried && l'.worth == l.worth
    ensures Books(Pay(m, increment).(receivedAck := false), n, l')
  {
    l' := Post(l, e).value;
  }

  /** A payment raised and nothing else touched. */
  lemma UpdateKeeps(g: Globals, l: Ledger, h: Globals, e: Entry, increment: real) returns (l': Ledger)
    requires Inv(g, l) && g.money.receivedAck && g.money.consumer.Some? && g.money.consumer.value.payment.Some?
             && increment >= 0.0
    requires e.UpdatePayment? && e.id == g.money.consumer.value.id && e.least >= 0.0
    requires var p := g.money.consumer.value.payment.value;
             && e.change == p.Change() - increment
             && e.final == (p.Change() - e.width < e.least)
             && increment == if e.final then p.Change() else e.width
    requires h.log == After(g.log, e) && h.money == Pay(g.money, increment).(receivedAck := false)
    requires h.wallet == g.wallet && h.terms == g.terms && h.state == g.state && h.waiting == g.waiting
             && h.socket == g.socket && h.unacked == g.unacked && h.previousContract == g.previousContract
    ensures Inv(h, l')
  {
    l' := PaymentRaised(g.money, |g.wallet.commitments|, l, e, increment);
    RaisedProtocol(g, l, h, l', increment);
  }

  lemma RaisedProtocol(g: Globals, l: Ledger, h: Globals, l': Ledger, increment: real)
    requires Protocol(g, l) && l'.contracted == l.contracted && g.money.consumer.Some?
             && g.money.consumer.value.payment.Some?
    requires h.money == Pay(g.money, increment).(receivedAck := false) && h.wallet == g.wallet
    requires h.state == g.state && h.waiting == g.waiting && h.socket == g.socket
    ensures Protocol(h, l')
  {
  }

  /** What an increment is, and whether it is the last. */
  function Final(g: Globals, p: Payment): bool {
    p.amount - p.paid - g.terms.coinWidth < g.terms.minPayment
  }

  function Increment(g: Globals, p: Payment): real {
    if Final(g, p) then p.amount - p.paid else g.terms.coinWidth
  }

  lemma IncrementPaymentKeeps(g: Globals, l: Ledger) returns (l': Ledger)
    requires Inv(g, l) && g.money.receivedAck && !g.fullyUsedUp
    ensures Inv(IncrementPayment(g).g, l')
  {
    l' := l;
    if g.money.consumer.Some? && g.money.consumer.value.payment.Some? {
      var p := g.money.consumer.value.payment.value;
      var h := g.(fullyUsedUp := Final(g, p));
      Steer(g, l, h);
      IncrementCases(g, p);
      if Increment(g, p) < 0.0 {
        ExitWithErrorKeeps(h, l);
      } else {
        l' := SendUpdateKeeps(h, l, p, Increment(g, p));
      }
    }
  }

  lemma IncrementCases(g: Globals, p: Payment)
    requires g.money.consumer.Some? && g.money.consumer.value.payment == Some(p) && !g.fullyUsedUp
    ensures var h := g.(fullyUsedUp := Final(g, p));
            IncrementPayment(g).g
            == if Increment(g, p) < 0.0 then ExitWithError(h).g else SendUpdate(h, Increment(g, p))
  {
  }

  lemma SendUpdateKeeps(g: Globals, l: Ledger, p: Payment, increment: real) returns (l': Ledger)
    requires Inv(g, l) && g.money.receivedAck && g.money.consumer.Some? && g.money.consumer.value.payment == Some(p)
    requires g.fullyUsedUp == Final(g, p) && increment == Increment(g, p) && increment >= 0.0
    ensures Inv(SendUpdate(g, increment), l')
  {
    var h := SendUpdate(g, increment);
    l' := UpdateKeeps(g, l, h, h.log.entry, increment);
  }

  lemma UpdatePaymentsKeeps(g: Globals, l: Ledger) returns (l': Ledger)
    requires Inv(g, l)
    ensures Inv(UpdatePayments(g).g, l')
  {
    l' := l;
    if g.money.receivedAck {
      Steer(g, l, g.(unacked := 0));
      if !g.fullyUsedUp {
        l' := IncrementPaymentKeeps(g.(unacked := 0), l);
      }
    }
  }

  lemma DepleteKeeps(w: Wallet)
    requires Sound(w)
    ensures Sound(w.(outputs := Deplete(w.outputs)))
  {
    assert Utxos(Deplete(w.outputs)) == Utxos(w.outputs);
  }

  lemma ReceiveCloseKeeps(g: Globals, l: Ledger)
    requires Inv(g, l)
    ensures Inv(ReceiveClose(g).g, l)
  {
    if g.fullyUsedUp {
      DepleteKeeps(g.wallet);
      var h := g.(wallet := g.wallet.(outputs := Deplete(g.wallet.outputs)), attemptReopen := false,
        openChannel := true);
      SetStateKeeps(h, l, ReceivedClose);
    } else {
      Steer(g, l, g.(attemptReopen := true, openChannel := true));
      SetStateKeeps(g.(attemptReopen := true, openChannel := true), l, ReceivedClose);
    }
  }

  lemma ReceiveAckKeeps(g: Globals, l: Ledger) returns (l': Ledger)
    requires Inv(g, l)
    ensures Inv(ReceiveAck(g).g, l')
  {
    l' := Post(l, PaymentAcked).value;
  }

  // ---------- every event ----------

  lemma ReceivePriceKeeps(g: Globals, l: Ledger, proposed: int)
    requires Inv(g, l) && g.socket.Open?
    ensures Inv(ReceivePrice(g, proposed).g, l)
  {
    var t := g.terms.(price := proposed);
    if proposed < 0 {
      Steer(g, l, g.(terms := t));
      ExitWithErrorKeeps(g.(terms := t), l);
    } else {
      Steer(g, l, g.(terms := t.(serverKey := true)));
      EnterPriceKeeps(g.(terms := t.(serverKey := true)), l);
    }
  }

  lemma ReceiveInitiateKeeps(g: Globals, l: Ledger, minChannel: nat, minInitial: nat)
    requires Inv(g, l) && g.socket.Open?
    ensures Inv(ReceiveInitiate(g, minChannel, minInitial).g, l)
  {
    var h := g.(terms := g.terms.(minEscrow := minChannel as real, minPayment := minInitial as real));
    Steer(g, l, h);
    if h.waiting { StartChannelKeeps(h, l); }
  }

  lemma ReceiveKeeps(g: Globals, l: Ledger, m: Message) returns (l': Ledger)
    requires Inv(g, l) && g.socket.Open?
    ensures Inv(Receive(g, m).g, l')
  {
    l' := l;
    match m
    case ServerVersion(accepted) =>
      if accepted { SetStateKeeps(g, l, ReceivedVersion); } else { ExitWithErrorKeeps(g, l); }
    case Price(proposed) => ReceivePriceKeeps(g, l, proposed);
    case Funding(tx) => ReceiveFundingKeeps(g, l, tx);
    case Initiate(minChannel, minInitial) => ReceiveInitiateKeeps(g, l, minChannel, minInitial);
    case ReturnRefund(signed, fee) => l' := ReceiveRefundKeeps(g, l, signed, fee);
    case ChannelOpen =>
      Steer(g, l, g.(fullyUsedUp := false, timer := true));
      SetStateKeeps(g.(fullyUsedUp := false, timer := true), l, ReceivedChannelOpen);
    case PaymentAck => l' := ReceiveAckKeeps(g, l);
    case Close => ReceiveCloseKeeps(g, l);
    case Error =>
      Steer(g, l, g.(attemptReopen := true));
      SetStateKeeps(g.(attemptReopen := true), l, ReceivedError);
  }

  lemma DisconnectKeeps(g: Globals, l: Ledger)
    requires Inv(g, l)
    ensures Inv(Disconnect(g).g, l)
  {
    var h := Note(g, ErrorMessage(g.socket.Open?)).(timer := false, openChannel := false, state := SentError);
    Steer(g, l, h);
    assert Disconnect(g).g == g || Disconnect(g).g == h;
  }

  lemma ReconnectKeeps(g: Globals, l: Ledger)
    requires Inv(g, l)
    ensures Inv(Reconnect(g).g, l)
  {
    var h := g.(attemptReopen := true, fullyUsedUp := false, openChannel := true);
    Steer(g, l, h);
    SendVersionKeeps(h, l);
  }

  lemma CloseChannelKeeps(g: Globals, l: Ledger)
    requires Inv(g, l)
    ensures Inv(CloseChannel(g).g, l)
  {
    var h := Note(g, CloseMessage(g.socket.Open?)).(attemptReopen := false);
    Steer(g, l, h);
    SetStateKeeps(h, l, SentClose);
  }

  lemma SocketOpenedKeeps(g: Globals, l: Ledger)
    requires Inv(g, l) && g.socket.Connecting?
    ensures Inv(Step(g, SocketOpened).g, l)
  {
    var h := g.(socket := Open, waiting := true);
    Steer(g, l, h);
    if h.openChannel { StartPaymentChannelKeeps(h, l); }
  }

  lemma SocketClosedKeeps(g: Globals, l: Ledger)
    requires Inv(g, l) && (g.socket.Open? || g.socket.Connecting?)
    ensures Inv(SetState(g.(socket := Closed, timer := false), WebsocketClosed).g, l)
  {
    var h := g.(socket := Closed, timer := false, state := WebsocketClosed);
    Steer(g, l, h);
    assert SetState(g.(socket := Closed, timer := false), WebsocketClosed).g == h;
  }

  lemma SocketRefusedKeeps(g: Globals, l: Ledger, socket: Socket)
    requires Inv(g, l) && (socket.Refused? || (g.socket.Closed? && socket.Connecting?))
    ensures Inv(g.(socket := socket), l)
  {
  }

  lemma SocketKeeps(g: Globals, l: Ledger, e: Event)
    requires Inv(g, l) && (e.SocketOpened? || e.SocketClosed? || e.SocketRestarted?)
    ensures Inv(Step(g, e).g, l)
  {
    match e
    case SocketOpened => if g.socket.Connecting? { SocketOpenedKeeps(g, l); }
    case SocketClosed(policy) =>
      if g.socket.Open? || g.socket.Connecting? {
        if policy { SocketRefusedKeeps(g, l, Refused); } else { SocketClosedKeeps(g, l); }
      }
    case SocketRestarted => if g.socket.Closed? { SocketRefusedKeeps(g, l, Connecting); }
  }

  lemma StepKeeps(g: Globals, l: Ledger, e: Event) returns (l': Ledger)
    requires Inv(g, l)
    ensures Inv(Step(g, e).g, l')
  {
    l' := l;
    match e
    case Received(m) => if g.socket.Open? { l' := ReceiveKeeps(g, l, m); }
    case Tick(due) => if g.timer && due { l' := UpdatePaymentsKeeps(g, l); }
    case UserDisconnect => DisconnectKeeps(g, l);
    case UserReconnect => ReconnectKeeps(g, l);
    case UserClose => CloseChannelKeeps(g, l);
    case _ => SocketKeeps(g, l, e);
  }

  /** Whatever happens, in whatever order: the log passes the audit and the books agree with it. */
  lemma {:induction false} RunKeeps(events: seq<Event>) returns (l: Ledger)
    ensures Inv(Run(events), l)
  {
    if |events| == 0 {
      l := BLANK;
    } else {
      var before := RunKeeps(events[..|events| - 1]);
      l := StepKeeps(Run(events[..|events| - 1]), before, events[|events| - 1]);
    }
  }
}
