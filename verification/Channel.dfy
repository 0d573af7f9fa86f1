/**
  The payment-channel client as a function from states and events to states. A handler that throws
  keeps what it had changed so far; `ok` is false then. Amounts are real satoshis, since the coin
  width may be a fraction.
 */
module Channel {
  import opened Common

  datatype ChannelState =
    | Undefined | Begin | SentVersion | ReceivedVersion | ReceivedPrice | SentFundingAddress | ReceivedFunding
    | Initiated | SentRefund | ReceivedRefund | SentContract | ReceivedChannelOpen | ReceivedError | SentError
    | ReceivedClose | SentClose | WebsocketClosed

  datatype Socket = Unstarted | Connecting | Open | Closed | Refused

  datatype OutputState = Unprocessed | Attached | Depleted

  datatype Utxo = Utxo(txId: nat, index: nat, satoshis: nat)

  datatype FundingOutput = FundingOutput(utxo: Utxo, state: OutputState)

  datatype TxOut = TxOut(ours: bool, satoshis: nat)

  /** A funding transaction: `refundable` when some input names an address to pay back to. */
  datatype FundingTx = FundingTx(id: nat, refundable: bool, outputs: seq<TxOut>)

  datatype Payment = Payment(amount: real, paid: real) {
    function Change(): real {
      amount - paid
    }
  }

  datatype Consumer = Consumer(id: nat, inputs: seq<Utxo>, payment: Option<Payment>)

  /**
    What the client does that a bystander can see. `sent` is false when the socket was not open. A validated
    refund is that of one Consumer and starts the payment of one, which need not be the same.
   */
  datatype Entry =
    | ClientVersion(reopen: Option<nat>, sent: bool)
    | FundingAddress(sent: bool)
    | ProvideRefund(id: nat, sent: bool)
    | RefundValidated(id: nat, refund: nat, amount: real, fee: real)
    | ProvideContract(id: nat, first: real, change: real, total: Option<real>, sent: bool)
    | ContractFailed(id: nat)
    | UpdatePayment(id: nat, change: real, final: bool, least: real, width: real, sent: bool)
    | PaymentAcked
    | CloseMessage(sent: bool)
    | ErrorMessage(sent: bool)

  datatype Log = Empty | After(before: Log, entry: Entry)

  /** The funding outputs, the hashes of the transactions they came with, and the inputs of every commitment so far. */
  datatype Wallet = Wallet(
    outputs: seq<FundingOutput>, count: nat, used: nat, hashes: seq<nat>, commitments: seq<seq<Utxo>>)

  datatype Terms = Terms(minEscrow: real, minPayment: real, escrow: real, coinWidth: real, price: int, serverKey: bool)

  /** refundTx is the Consumer whose refund was set up last; totalPaid is None once it is not a number. */
  datatype Money = Money(
    consumer: Option<Consumer>, refundTx: Option<nat>, receivedAck: bool, lastIncrement: Option<real>,
    totalPaid: Option<real>)

  datatype Globals = Globals(
    state: ChannelState, socket: Socket, waiting: bool, openChannel: bool, attemptReopen: bool, timer: bool,
    fullyUsedUp: bool, unacked: nat, previousContract: Option<nat>, terms: Terms, wallet: Wallet, money: Money,
    log: Log)

  const FEE: real := 1000.0
  const MAX_UNACKED: nat := 5

  const INITIAL := Globals(
    Undefined, Unstarted, false, true, false, false,
    false, 0, None, Terms(1000.0, 1000.0, 0.0, 0.0, 1, false), Wallet([], 0, 0, [], []),
    Money(None, None, false, None, Some(0.0)), Empty)

  datatype Message =
    | ServerVersion(accepted: bool)
    | Price(proposed: int)
    | Funding(tx: FundingTx)
    | Initiate(minChannel: nat, minInitial: nat)
    | ReturnRefund(signed: bool, fee: real)
    | ChannelOpen
    | PaymentAck
    | Close
    | Error

  datatype Event =
    | Received(message: Message)
    | SocketOpened
    | SocketClosed(policy: bool)
    | SocketRestarted
    | Tick(due: bool)
    | UserDisconnect
    | UserReconnect
    | UserClose

  datatype Result = Result(ok: bool, g: Globals)

  // ---------- the state machine ----------

  predicate IsEdge(a: ChannelState, b: ChannelState) {
    match b
    case Begin => a.Undefined?
    case SentVersion =>
      a.Begin? || a.WebsocketClosed? || a.SentVersion? || a.ReceivedClose? || a.SentClose? || a.SentError?
    case ReceivedVersion => a.SentVersion?
    case ReceivedPrice => a.ReceivedVersion?
    case SentFundingAddress => a.ReceivedPrice?
    case Initiated => a.ReceivedPrice? || a.ReceivedFunding?
    case SentRefund => a.Initiated?
    case ReceivedRefund => a.SentRefund?
    case SentContract => a.ReceivedRefund?
    case ReceivedChannelOpen => a.ReceivedVersion? || a.SentContract?
    case Undefined => false
    case _ => true
  }

  /** A move into a state without an entry action. */
  function Move(g: Globals, s: ChannelState): Result {
    if IsEdge(g.state, s) then Result(true, g.(state := s)) else Result(false, g)
  }

  function Note(g: Globals, e: Entry): Globals {
    g.(log := After(g.log, e))
  }

  function StartPaymentChannel(g: Globals): Result {
    SendVersion(g.(timer := false))
  }

  function SendVersion(g: Globals): Result {
    Move(Note(g, ClientVersion(if g.attemptReopen then g.previousContract else None, g.socket.Open?)), SentVersion)
  }

  function SendFundingAddress(g: Globals): Result {
    Move(Note(g, FundingAddress(g.socket.Open?)), SentFundingAddress)
  }

  function ExitWithError(g: Globals): Result {
    Move(Note(g, ErrorMessage(g.socket.Open?)).(attemptReopen := true), SentError)
  }

  // ---------- funding ----------

  function Satoshis(utxos: seq<Utxo>): nat {
    if |utxos| == 0 then 0 else Satoshis(utxos[..|utxos| - 1]) + utxos[|utxos| - 1].satoshis
  }

  /** The satoshis of the outputs that are not depleted. */
  function Undepleted(outputs: seq<FundingOutput>): nat {
    if |outputs| == 0 then 0
    else
      var last := outputs[|outputs| - 1];
      Undepleted(outputs[..|outputs| - 1]) + if last.state.Depleted? then 0 else last.utxo.satoshis
  }

  function Reprice(t: Terms, total: nat): (r: Terms)
    ensures r.escrow + 1000.0 == total as real
    ensures r.coinWidth >= r.escrow / 100.0 && r.coinWidth >= r.price as real
    ensures r.coinWidth == r.escrow / 100.0 || r.coinWidth == r.price as real
  {
    var escrow := total as real - FEE;
    var width := escrow / 100.0;
    t.(escrow := escrow, coinWidth := if width < t.price as real then t.price as real else width)
  }

  /** The outputs in a state, in order. */
  function Having(outputs: seq<FundingOutput>, s: OutputState): seq<Utxo> {
    if |outputs| == 0 then []
    else
      var last := outputs[|outputs| - 1];
      Having(outputs[..|outputs| - 1], s) + if last.state == s then [last.utxo] else []
  }

  lemma {:induction false} SatoshisJoin(a: seq<Utxo>, b: seq<Utxo>)
    ensures Satoshis(a + b) == Satoshis(a) + Satoshis(b)
  {
    if |b| == 0 {
      assert a + b == a;
    } else {
      assert (a + b)[..|a + b| - 1] == a + b[..|b| - 1];
      SatoshisJoin(a, b[..|b| - 1]);
    }
  }

  lemma SatoshisOne(u: Utxo)
    ensures Satoshis([u]) == u.satoshis
  {
    assert Satoshis([]) == 0;
  }

  function Held(outputs: seq<FundingOutput>, s: OutputState): nat {
    Satoshis(Having(outputs, s))
  }

  lemma HavingLast(front: seq<FundingOutput>, last: FundingOutput, s: OutputState)
    ensures Held(front + [last], s) == Held(front, s) + if last.state == s then last.utxo.satoshis else 0
  {
    assert (front + [last])[..|front|] == front;
    SatoshisOne(last.utxo);
    SatoshisJoin(Having(front, s), [last.utxo]);
    assert Having(front, s) + [] == Having(front, s);
  }

  lemma LastCounts(front: seq<FundingOutput>, last: FundingOutput)
    ensures Satoshis(Utxos(front + [last])) == Satoshis(Utxos(front)) + last.utxo.satoshis
    ensures Undepleted(front + [last]) == Undepleted(front) + if last.state.Depleted? then 0 else last.utxo.satoshis
  {
    assert (front + [last])[..|front|] == front && Utxos(front + [last]) == Utxos(front) + [last.utxo];
    SatoshisOne(last.utxo);
    SatoshisJoin(Utxos(front), [last.utxo]);
  }

  /** Attached outputs count in full, depleted ones not at all. */
  ghost predicate Counted(outputs: seq<FundingOutput>) {
    && Undepleted(outputs) == Held(outputs, Unprocessed) + Held(outputs, Attached)
    && Undepleted(outputs) + Held(outputs, Depleted) == Satoshis(Utxos(outputs))
  }

  lemma CountsNext(outputs: seq<FundingOutput>, front: seq<FundingOutput>, last: FundingOutput)
    requires Counted(front) && outputs == front + [last]
    ensures Counted(outputs)
  {
    HavingLast(front, last, Unprocessed);
    HavingLast(front, last, Attached);
    HavingLast(front, last, Depleted);
    LastCounts(front, last);
  }

  lemma CountsNone(outputs: seq<FundingOutput>)
    requires |outputs| == 0
    ensures Counted(outputs)
  {
    assert Undepleted(outputs) == 0 && Utxos(outputs) == [] && Satoshis([]) == 0;
  }

  lemma {:induction false} UndepletedCounts(outputs: seq<FundingOutput>)
    ensures Counted(outputs)
  {
    if |outputs| > 0 {
      var front, last := outputs[..|outputs| - 1], outputs[|outputs| - 1];
      UndepletedCounts(front);
      CountsNext(outputs, front, last);
    } else {
      CountsNone(outputs);
    }
  }

  /** The escrow is all that is not depleted less the fee, and the coin width its hundredth or the price if more. */
  ghost predicate Priced(t: Terms, outputs: seq<FundingOutput>) {
    && t.escrow + 1000.0 == (Held(outputs, Unprocessed) + Held(outputs, Attached)) as real
    && t.coinWidth >= t.escrow / 100.0 && t.coinWidth >= t.price as real
    && (t.coinWidth == t.escrow / 100.0 || t.coinWidth == t.price as real)
  }

  lemma RepricePriced(t: Terms, outputs: seq<FundingOutput>)
    ensures Priced(Reprice(t, Undepleted(outputs)), outputs)
  {
    UndepletedCounts(outputs);
  }

  function UpdateEscrow(g: Globals): Globals {
    g.(terms := Reprice(g.terms, Undepleted(g.wallet.outputs)))
  }

  /** The outputs of a transaction that pay the funding address, among its first n. */
  function Ours(tx: FundingTx, n: nat): seq<Utxo>
    requires n <= |tx.outputs|
  {
    if n == 0 then []
    else Ours(tx, n - 1) + if tx.outputs[n - 1].ours then [Utxo(tx.id, n - 1, tx.outputs[n - 1].satoshis)] else []
  }

  function Fresh(utxos: seq<Utxo>): (outputs: seq<FundingOutput>)
    ensures |outputs| == |utxos|
  {
    seq(|utxos|, i requires 0 <= i < |utxos| => FundingOutput(utxos[i], Unprocessed))
  }

  function TxIds(utxos: seq<Utxo>): seq<nat> {
    seq(|utxos|, i requires 0 <= i < |utxos| => utxos[i].txId)
  }

  function AddFunding(w: Wallet, added: seq<Utxo>): Wallet {
    w.(outputs := w.outputs + Fresh(added), count := w.count + |added|, hashes := w.hashes + TxIds(added))
  }

  function ReceiveFunding(g: Globals, tx: FundingTx): Result {
    if tx.id in g.wallet.hashes then Result(true, g)
    else if !tx.refundable then ExitWithError(g)
    else
      var added := Ours(tx, |tx.outputs|);
      var h := g.(wallet := AddFunding(g.wallet, added));
      if Satoshis(added) == 0 then ExitWithError(h)
      else SetState(UpdateEscrow(h), ReceivedFunding)
  }

  // ---------- opening a channel ----------

  /** The outputs not yet used, which the next commitment takes. */
  function Unused(w: Wallet): seq<Utxo> {
    if w.used <= w.count <= |w.outputs| then Utxos(w.outputs[w.used..w.count]) else []
  }

  function Commit(w: Wallet): Wallet {
    w.(commitments := w.commitments + [Unused(w)], outputs := Attach(w.outputs, w.used, w.count), used := w.count)
  }

  function CreateChannel(g: Globals): Globals {
    var c := Consumer(|g.wallet.commitments|, Unused(g.wallet), None);
    g.(money := g.money.(consumer := Some(c)), wallet := Commit(g.wallet))
  }

  function Utxos(outputs: seq<FundingOutput>): (us: seq<Utxo>)
    ensures |us| == |outputs|
  {
    seq(|outputs|, i requires 0 <= i < |outputs| => outputs[i].utxo)
  }

  function Attach(outputs: seq<FundingOutput>, from: nat, to: nat): (r: seq<FundingOutput>)
    ensures |r| == |outputs|
  {
    seq(|outputs|, i requires 0 <= i < |outputs| =>
      if from <= i < to then outputs[i].(state := Attached) else outputs[i])
  }

  /** Signing a commitment without inputs throws: it has no output to refund. */
  function SendRefund(g: Globals): Result {
    if g.money.consumer.None? || g.money.consumer.value.inputs == [] then Result(false, g)
    else
      var id := g.money.consumer.value.id;
      Move(Note(g, ProvideRefund(id, g.socket.Open?)).(money := g.money.(refundTx := Some(id))), SentRefund)
  }

  function EnterInitiated(g: Globals): Result {
    var r := Move(g, Initiated);
    if r.ok then SendRefund(r.g) else r
  }

  /** The source's `initiate`. Without a server key building the Consumer throws. */
  function StartChannel(g: Globals): Result {
    var h := UpdateEscrow(g);
    if h.terms.escrow < h.terms.minEscrow then Result(true, h.(waiting := true))
    else
      var k := h.(waiting := false, attemptReopen := true);
      if k.terms.serverKey then EnterInitiated(CreateChannel(k)) else Result(false, k)
  }

  function ValidateRefund(c: Consumer, fee: real): Consumer {
    c.(payment := Some(Payment(Satoshis(c.inputs) as real - fee, 0.0)))
  }

  function ReceiveRefund(g: Globals, signed: bool, fee: real): Result {
    if g.money.consumer.None? then Result(false, g)
    else if g.money.refundTx.None? || !signed then ExitWithError(g)
    else
      var c := ValidateRefund(g.money.consumer.value, fee);
      var h := Note(g, RefundValidated(c.id, g.money.refundTx.value, c.payment.value.amount, fee));
      SetState(h.(money := g.money.(consumer := Some(c))), ReceivedRefund)
  }

  function Raise(c: Consumer, delta: real): Consumer
    requires c.payment.Some?
  {
    c.(payment := Some(c.payment.value.(paid := c.payment.value.paid + delta)))
  }

  /** Raises the payment and remembers by how much. */
  function Pay(m: Money, delta: real): Money
    requires m.consumer.Some? && m.consumer.value.payment.Some?
  {
    m.(consumer := Some(Raise(m.consumer.value, delta)), lastIncrement := Some(delta))
  }

  /** Reading the change output of the first payment throws when nothing is left. */
  function OfferContract(g: Globals): Result
    requires g.money.consumer.Some? && g.money.consumer.value.payment.Some?
  {
    var c := g.money.consumer.value;
    if c.payment.value.Change() == 0.0 then Result(false, Note(g, ContractFailed(c.id)))
    else
      var e := ProvideContract(c.id, g.terms.minPayment, c.payment.value.Change(), g.money.totalPaid, g.socket.Open?);
      Move(Note(g, e), SentContract)
  }

  function SendContract(g: Globals): Result {
    if g.money.consumer.None? then Result(false, g)
    else
      var h := g.(previousContract := Some(g.money.consumer.value.id));
      if h.money.consumer.value.payment.None? then Result(false, h)
      else OfferContract(h.(money := Pay(h.money, h.terms.minPayment)))
  }

  /** The entry action of a state, which may move on. */
  function Enter(g: Globals, s: ChannelState): Result {
    match s
    case Begin => Result(true, g.(socket := Connecting))
    case ReceivedPrice => if g.wallet.count > g.wallet.used then StartChannel(g) else SendFundingAddress(g)
    case ReceivedFunding => if g.waiting then StartChannel(g) else Result(true, g.(waiting := true))
    case Initiated => SendRefund(g)
    case ReceivedRefund => SendContract(g)
    case ReceivedError => StartPaymentChannel(g)
    case ReceivedClose => StartPaymentChannel(g)
    case SentClose => StartPaymentChannel(g)
    case _ => Result(true, g)
  }

  /** Moves along an edge and runs the entry action of the new state. */
  function SetState(g: Globals, s: ChannelState): Result {
    if IsEdge(g.state, s) then Enter(g.(state := s), s) else Result(false, g)
  }

  // ---------- paying ----------

  function SendUpdate(g: Globals, increment: real): Globals
    requires g.money.consumer.Some? && g.money.consumer.value.payment.Some?
  {
    var m := Pay(g.money, increment).(receivedAck := false);
    var change := m.consumer.value.payment.value.Change();
    Note(g.(money := m), UpdatePayment(
      m.consumer.value.id, change, g.fullyUsedUp, g.terms.minPayment, g.terms.coinWidth, g.socket.Open?))
  }

  function IncrementPayment(g: Globals): Result {
    if g.money.consumer.None? || g.money.consumer.value.payment.None? then Result(false, g)
    else
      var p := g.money.consumer.value.payment.value;
      var final := p.amount - p.paid - g.terms.coinWidth < g.terms.minPayment;
      var increment := if final then p.amount - p.paid else g.terms.coinWidth;
      var h := g.(fullyUsedUp := g.fullyUsedUp || final);
      if increment < 0.0 then ExitWithError(h) else Result(true, SendUpdate(h, increment))
  }

  /** One turn of the payment timer; `due` when bought time is running out. */
  function UpdatePayments(g: Globals): Result {
    if g.money.receivedAck then
      var h := g.(unacked := 0);
      if h.fullyUsedUp then Result(true, h) else IncrementPayment(h)
    else if g.unacked > MAX_UNACKED then ExitWithError(g.(timer := false))
    else Result(true, g)
  }

  /** An undefined last increment makes the total not a number, for good. */
  function Plus(total: Option<real>, increment: Option<real>): Option<real> {
    if total.Some? && increment.Some? then Some(total.value + increment.value) else None
  }

  function ReceiveAck(g: Globals): Result {
    var m := g.money;
    var paid := m.(totalPaid := Plus(m.totalPaid, m.lastIncrement), receivedAck := true);
    Result(true, Note(g, PaymentAcked).(money := paid))
  }

  function Deplete(outputs: seq<FundingOutput>): (r: seq<FundingOutput>)
    ensures |r| == |outputs|
  {
    seq(|outputs|, i requires 0 <= i < |outputs| =>
      if outputs[i].state.Attached? then outputs[i].(state := Depleted) else outputs[i])
  }

  function ReceiveClose(g: Globals): Result {
    var h := if g.fullyUsedUp then g.(wallet := g.wallet.(outputs := Deplete(g.wallet.outputs)), attemptReopen := false)
             else g.(attemptReopen := true);
    SetState(h.(openChannel := true), ReceivedClose)
  }

  function ReceivePrice(g: Globals, proposed: int): Result {
    var t := g.terms.(price := proposed);
    if proposed < 0 then ExitWithError(g.(terms := t))
    else SetState(g.(terms := t.(serverKey := true)), ReceivedPrice)
  }

  function ReceiveInitiate(g: Globals, minChannel: nat, minInitial: nat): Result {
    var h := g.(terms := g.terms.(minEscrow := minChannel as real, minPayment := minInitial as real));
    if h.waiting then StartChannel(h) else Result(true, h)
  }

  function Receive(g: Globals, m: Message): Result {
    match m
    case ServerVersion(accepted) => if accepted then SetState(g, ReceivedVersion) else ExitWithError(g)
    case Price(proposed) => ReceivePrice(g, proposed)
    case Funding(tx) => ReceiveFunding(g, tx)
    case Initiate(minChannel, minInitial) => ReceiveInitiate(g, minChannel, minInitial)
    case ReturnRefund(signed, fee) => ReceiveRefund(g, signed, fee)
    case ChannelOpen => SetState(g.(fullyUsedUp := false, timer := true), ReceivedChannelOpen)
    case PaymentAck => ReceiveAck(g)
    case Close => ReceiveClose(g)
    case Error => SetState(g.(attemptReopen := true), ReceivedError)
  }

  function Disconnect(g: Globals): Result {
    if g.money.consumer.None? || g.money.consumer.value.payment.None? then Result(false, g)
    else if g.money.consumer.value.payment.value.Change() <= g.terms.minPayment then Result(true, g)
    else Move(Note(g, ErrorMessage(g.socket.Open?)).(timer := false, openChannel := false), SentError)
  }

  function Reconnect(g: Globals): Result {
    SendVersion(g.(attemptReopen := true, fullyUsedUp := false, openChannel := true))
  }

  function CloseChannel(g: Globals): Result {
    SetState(Note(g, CloseMessage(g.socket.Open?)).(attemptReopen := false), SentClose)
  }

  // ---------- runs ----------

  /** One event. An event that cannot happen now (a message on a closed socket, a stopped timer) changes nothing. */
  function Step(g: Globals, e: Event): Result {
    match e
    case Received(m) => if g.socket.Open? then Receive(g, m) else Result(true, g)
    case SocketOpened =>
      if !g.socket.Connecting? then Result(true, g)
      else
        var h := g.(socket := Open, waiting := true);
        if h.openChannel then StartPaymentChannel(h) else Result(true, h)
    case SocketClosed(policy) =>
      if !g.socket.Open? && !g.socket.Connecting? then Result(true, g)
      else if policy then Result(true, g.(socket := Refused))
      else SetState(g.(socket := Closed, timer := false), WebsocketClosed)
    case SocketRestarted => Result(true, if g.socket.Closed? then g.(socket := Connecting) else g)
    case Tick(due) => if g.timer && due then UpdatePayments(g) else Result(true, g)
    case UserDisconnect => Disconnect(g)
    case UserReconnect => Reconnect(g)
    case UserClose => CloseChannel(g)
  }

  /** The client after the page has loaded and the events have happened in order. */
  function Run(events: seq<Event>): Globals {
    if |events| == 0 then SetState(INITIAL, Begin).g
    else Step(Run(events[..|events| - 1]), events[|events| - 1]).g
  }
}
