/** What the client does get done: channels open, and due payments are sent. */
module ChannelProgress {
  import opened Common
  import opened Channel
  import opened ChannelSafety
  import opened ChannelTheorems

  // ---------- one event in any run ----------

  /** A provider that confirms the contract gets the channel open and the timer started. */
  lemma ContractOpens(events: seq<Event>)
    requires Run(events).state.SentContract? && Run(events).socket.Open?
    ensures var g := Run(events);
            Step(g, Received(ChannelOpen))
            == Result(true, g.(state := ReceivedChannelOpen, fullyUsedUp := false, timer := true))
  {
  }

  /** Less than the least payment would remain. */
  predicate IsLast(left: real, width: real, least: real) {
    left - width < least
  }

  /** A tick of the timer that a payment answers. */
  ghost predicate PaysNow(g: Globals, due: bool) {
    && g.timer && due && g.money.receivedAck && !g.fullyUsedUp
    && g.money.consumer.Some? && g.money.consumer.value.payment.Some?
  }

  /** The update that a tick sends: the coin width, or all when less than the least payment would remain. */
  function NextUpdate(id: nat, left: real, width: real, least: real, open: bool): Entry {
    if IsLast(left, width, least) then UpdatePayment(id, 0.0, true, least, width, open)
    else UpdatePayment(id, left - width, false, least, width, open)
  }

  /** What a tick adds to the log. */
  function TickLog(g: Globals): Log
    requires g.money.consumer.Some? && g.money.consumer.value.payment.Some?
  {
    var c, width, least := g.money.consumer.value, g.terms.coinWidth, g.terms.minPayment;
    var left := c.payment.value.Change();
    if (if IsLast(left, width, least) then left else width) < 0.0 then After(g.log, ErrorMessage(g.socket.Open?))
    else After(g.log, NextUpdate(c.id, left, width, least, g.socket.Open?))
  }

  lemma IncrementLogs(g: Globals)
    requires g.money.consumer.Some? && g.money.consumer.value.payment.Some? && !g.fullyUsedUp
    ensures IncrementPayment(g).g.log == TickLog(g)
  {
    var p := g.money.consumer.value.payment.value;
    IncrementCases(g, p);
  }

  lemma TickIs(g: Globals, due: bool)
    requires g.unacked == 0
    ensures Step(g, Tick(due)).g
            == if g.timer && due && g.money.receivedAck && !g.fullyUsedUp then IncrementPayment(g).g else g
  {
    assert g.(unacked := 0) == g;
  }

  /**
    A due tick after an acknowledgement sends the next update, or an error where there is nothing to pay with.
    Any other tick sends nothing.
   */
  lemma TickPays(events: seq<Event>, due: bool)
    ensures var g := Run(events);
            Step(g, Tick(due)).g.log == if PaysNow(g, due) then TickLog(g) else g.log
  {
    NeverCounted(events);
    var g := Run(events);
    TickIs(g, due);
    if PaysNow(g, due) {
      IncrementLogs(g);
    }
  }

  lemma OpeningKeepsTerms(g: Globals)
    ensures EnterInitiated(CreateChannel(g)).g.terms == g.terms
  {
  }

  lemma RepriceKeeps(t: Terms, total: nat)
    ensures var r := Reprice(t, total); r.minEscrow == t.minEscrow && r.minPayment == t.minPayment && r.price == t.price
  {
  }

  lemma StartKeepsTerms(g: Globals)
    ensures var t := StartChannel(g).g.terms;
            t.minEscrow == g.terms.minEscrow && t.minPayment == g.terms.minPayment && t.price == g.terms.price
  {
    RepriceKeeps(g.terms, Undepleted(g.wallet.outputs));
    OpeningKeepsTerms(UpdateEscrow(g).(waiting := false, attemptReopen := true));
  }

  /** The least channel and the least payment that a server names are taken as they are, and so is its price. */
  lemma TermsReceived(g: Globals, minChannel: nat, minInitial: nat)
    requires g.socket.Open?
    ensures var t := Step(g, Received(Initiate(minChannel, minInitial))).g.terms;
            t.minEscrow == minChannel as real && t.minPayment == minInitial as real
  {
    StartKeepsTerms(g.(terms := g.terms.(minEscrow := minChannel as real, minPayment := minInitial as real)));
  }

  lemma PriceReceived(g: Globals, proposed: int)
    requires g.socket.Open?
    ensures Step(g, Received(Price(proposed))).g.terms.price == proposed
  {
    EnterPriceKeepsPrice(g.(terms := g.terms.(price := proposed).(serverKey := true)));
  }

  lemma EnterPriceKeepsPrice(g: Globals)
    ensures SetState(g, ReceivedPrice).g.terms.price == g.terms.price
  {
    StartKeepsTerms(g.(state := ReceivedPrice));
  }

  /** What the client does not take: it answers with an error message and tries to reopen afterwards. */
  ghost predicate Unacceptable(g: Globals, m: Message) {
    match m
    case ServerVersion(accepted) => !accepted
    case Price(proposed) => proposed < 0
    case Funding(tx) => tx.id !in g.wallet.hashes && (!tx.refundable || Satoshis(Ours(tx, |tx.outputs|)) == 0)
    case ReturnRefund(signed, fee) => g.money.consumer.Some? && (g.money.refundTx.None? || !signed)
    case _ => false
  }

  lemma Refuses(g: Globals, m: Message)
    requires g.socket.Open? && Unacceptable(g, m)
    ensures var r := Step(g, Received(m));
            r.ok && r.g.state.SentError? && r.g.attemptReopen && r.g.log == After(g.log, ErrorMessage(true))
  {
  }

  lemma StartSendsVersion(g: Globals)
    ensures StartPaymentChannel(g).g.log
            == After(g.log, ClientVersion(if g.attemptReopen then g.previousContract else None, g.socket.Open?))
  {
  }

  /** Reconnecting asks for the previous channel, closing does not. */
  lemma VersionSent(g: Globals)
    ensures Step(g, UserReconnect).g.log == After(g.log, ClientVersion(g.previousContract, g.socket.Open?))
    ensures Step(g, UserClose).g.log
            == After(After(g.log, CloseMessage(g.socket.Open?)), ClientVersion(None, g.socket.Open?))
  {
    StartSendsVersion(Note(g, CloseMessage(g.socket.Open?)).(attemptReopen := false, state := SentClose));
  }

  /** When the server closes or fails, the client asks for the previous channel unless that was used up and closed. */
  lemma VersionAfter(g: Globals)
    requires g.socket.Open?
    ensures Step(g, Received(Close)).g.log
            == After(g.log, ClientVersion(if g.fullyUsedUp then None else g.previousContract, true))
    ensures Step(g, Received(Error)).g.log == After(g.log, ClientVersion(g.previousContract, true))
  {
    var w := if g.fullyUsedUp then g.wallet.(outputs := Deplete(g.wallet.outputs)) else g.wallet;
    StartSendsVersion(g.(wallet := w, attemptReopen := !g.fullyUsedUp, openChannel := true, state := ReceivedClose));
    StartSendsVersion(g.(attemptReopen := true, state := ReceivedError));
  }

  // ---------- a page that opens a channel ----------

  const SIGNED: Event := Received(ReturnRefund(true, 1000.0))

  /** Funds s satoshis and sends the contract of a channel on them. */
  function Tape(s: nat): seq<Event> {
    [SocketOpened, Received(ServerVersion(true)), Received(Price(1)),
     Received(Funding(FundingTx(7, true, [TxOut(true, s)]))), SIGNED]
  }

  lemma RunStep(before: seq<Event>, e: Event)
    ensures Run(before + [e]) == Step(Run(before), e).g
  {
    assert (before + [e])[..|before|] == before;
  }

  /** Waiting for funds at the default terms. */
  ghost predicate Funded(h: Globals) {
    && h.state.SentFundingAddress? && h.socket.Open? && h.waiting && h.terms.serverKey && h.terms.price == 1
    && h.terms.minEscrow == 1000.0 && h.terms.minPayment == 1000.0 && h.wallet == Wallet([], 0, 0, [], [])
    && !h.money.receivedAck && h.log.After?
  }

  lemma TapeConnects(g: Globals, h: Globals)
    requires g == Step(SetState(INITIAL, Begin).g, SocketOpened).g
    requires h == Step(Step(g, Received(ServerVersion(true))).g, Received(Price(1))).g
    ensures Funded(h)
  {
  }

  lemma OneOurs(tx: FundingTx, n: nat)
    requires |tx.outputs| == n + 1 && n == 0 && tx.outputs[n].ours
    ensures Ours(tx, n + 1) == [Utxo(tx.id, n, tx.outputs[n].satoshis)]
  {
    assert Ours(tx, n) == [];
  }

  lemma OneUndepleted(u: Utxo)
    ensures Undepleted([FundingOutput(u, Unprocessed)]) == u.satoshis
  {
    assert Undepleted([]) == 0;
  }

  lemma TapeWallet(w: Wallet, u: Utxo)
    requires w == AddFunding(Wallet([], 0, 0, [], []), [u])
    ensures w.outputs == [FundingOutput(u, Unprocessed)] && w.used == 0 && w.count == 1 && Unused(w) == [u]
            && w.commitments == []
  {
    assert w.outputs[0..1] == w.outputs;
  }

  function Width(s: nat): real {
    if (s as real - 1000.0) / 100.0 < 1.0 then 1.0 else (s as real - 1000.0) / 100.0
  }

  /** The refund of a commitment of s satoshis has been asked for. */
  ghost predicate Asked(k: Globals, s: nat) {
    && k.state.SentRefund? && k.socket.Open? && k.terms.minPayment == 1000.0 && k.terms.coinWidth == Width(s)
    && k.money.consumer == Some(Consumer(0, [Utxo(7, 0, s)], None)) && k.money.refundTx == Some(0)
  }

  lemma TapeFunds(h: Globals, k: Globals, s: nat)
    requires Funded(h) && s >= 2000
    requires k == Step(h, Received(Funding(FundingTx(7, true, [TxOut(true, s)])))).g
    ensures Asked(k, s)
  {
    var tx, u := FundingTx(7, true, [TxOut(true, s)]), Utxo(7, 0, s);
    OneOurs(tx, 0);
    SatoshisOne(u);
    OneUndepleted(u);
    var w := AddFunding(h.wallet, [u]);
    TapeWallet(w, u);
    assert ReceiveFunding(h, tx) == SetState(UpdateEscrow(h.(wallet := w)), ReceivedFunding);
    TapeOpens(UpdateEscrow(h.(wallet := w)), u);
  }

  lemma TapeOpens(g: Globals, u: Utxo)
    requires g.waiting && g.socket.Open? && g.terms.serverKey && g.terms.minEscrow == 1000.0 && u.satoshis >= 2000
    requires g.terms.price == 1 && g.terms.minPayment == 1000.0 && u.txId == 7 && u.index == 0
    requires Undepleted(g.wallet.outputs) == u.satoshis && Unused(g.wallet) == [u] && g.wallet.commitments == []
    ensures Asked(SetState(g, ReceivedFunding).g, u.satoshis)
  {
  }

  /** The contract of a commitment of s satoshis has been sent; the first payment is 1000. */
  ghost predicate Sent(m: Globals, s: nat) {
    && m.state.SentContract? && m.socket.Open? && m.terms.minPayment == 1000.0 && m.terms.coinWidth == Width(s)
    && m.money.refundTx == Some(0)
    && m.money.consumer == Some(Consumer(0, [Utxo(7, 0, s)], Some(Payment(s as real - 1000.0, 1000.0))))
  }

  lemma TapePays(k: Globals, m: Globals, s: nat)
    requires Asked(k, s) && s > 2000 && m == Step(k, SIGNED).g
    ensures Sent(m, s)
  {
    SatoshisOne(Utxo(7, 0, s));
  }

  lemma TapeRuns(s: nat)
    requires s > 2000
    ensures Sent(Run(Tape(s)), s)
  {
    var tape := Tape(s);
    RunStep([], tape[0]);
    RunStep(tape[..1], tape[1]);
    RunStep(tape[..2], tape[2]);
    RunStep(tape[..3], tape[3]);
    RunStep(tape[..4], tape[4]);
    assert tape[..1] == [] + [tape[0]] && tape[..2] == tape[..1] + [tape[1]] && tape[..3] == tape[..2] + [tape[2]];
    assert tape[..4] == tape[..3] + [tape[3]] && tape == tape[..4] + [tape[4]];
    TapeConnects(Run(tape[..1]), Run(tape[..3]));
    TapeFunds(Run(tape[..3]), Run(tape[..4]), s);
    TapePays(Run(tape[..4]), Run(tape), s);
  }

  /** The channel is open, the first payment acknowledged, and the rest can be paid. */
  ghost predicate Paying(g: Globals, s: nat) {
    && g.state.ReceivedChannelOpen? && g.socket.Open? && g.terms.minPayment == 1000.0 && g.terms.coinWidth == Width(s)
    && PaysNow(g, true) && g.money.consumer.value.id == 0
    && g.money.consumer.value.payment == Some(Payment(s as real - 1000.0, 1000.0))
  }

  lemma OpenPays(m: Globals, g: Globals, k: Globals, s: nat)
    requires Sent(m, s) && g == m.(state := ReceivedChannelOpen, fullyUsedUp := false, timer := true)
    requires k == Step(g, Received(PaymentAck)).g
    ensures Paying(k, s)
  {
  }

  lemma TapeOpen(s: nat)
    requires s > 2000
    ensures Paying(Run(Tape(s) + [Received(ChannelOpen)] + [Received(PaymentAck)]), s)
  {
    var open := Tape(s) + [Received(ChannelOpen)];
    TapeRuns(s);
    RunStep(Tape(s), Received(ChannelOpen));
    RunStep(open, Received(PaymentAck));
    ContractOpens(Tape(s));
    OpenPays(Run(Tape(s)), Run(open), Run(open + [Received(PaymentAck)]), s);
  }

  /** Whatever more than 2000 satoshis arrive, the channel opens and the first due tick pays one coin width. */
  lemma ChannelPays(s: nat)
    requires s > 2000
    ensures var g := Run(Tape(s) + [Received(ChannelOpen)] + [Received(PaymentAck)]);
            && g.state.ReceivedChannelOpen?
            && Step(g, Tick(true)).g.log == After(g.log, NextUpdate(0, s as real - 2000.0, Width(s), 1000.0, true))
  {
    TapeOpen(s);
    TickPays(Tape(s) + [Received(ChannelOpen)] + [Received(PaymentAck)], true);
  }

  /** A page on which a payment is forgotten: the same signature twice. */
  lemma RefundSentTwice()
    ensures PaidOf(Run(Tape(200000))) == 1000.0
    ensures PaidOf(Run(Tape(200000) + [SIGNED])) < 1000.0
  {
    TapeRuns(200000);
    RunStep(Tape(200000), SIGNED);
    RefundForgets(Tape(200000), true, 1000.0);
  }
}
