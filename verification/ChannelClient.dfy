/** The client's handlers over its global variables, proved against the step functions of Channel. */
module ChannelClient {
  import opened Common
  import opened Channel

  /** bitcore-channel's Consumer: a commitment under construction and its payment transaction. */
  class ChannelConsumer {
    const id: nat
    var inputs: seq<Utxo>
    var payment: Option<Payment>

    ghost function Value(): Consumer
      reads this
    {
      Consumer(id, inputs, payment)
    }

    constructor (id: nat)
      ensures Value() == Consumer(id, [], None)
    {
      this.id := id;
      inputs := [];
      payment := None;
    }

    method ProcessFunding(utxo: Utxo)
      modifies this
      ensures Value() == old(Value()).(inputs := old(inputs) + [utxo])
    {
      inputs := inputs + [utxo];
    }

    method Amount() returns (total: nat)
      ensures total == Satoshis(inputs)
    {
      total := 0;
      var i := 0;
      while i < |inputs|
        invariant i <= |inputs| && total == Satoshis(inputs[..i])
      {
        assert inputs[..i + 1][..i] == inputs[..i];
        total := total + inputs[i].satoshis;
        i := i + 1;
      }
      assert inputs[..i] == inputs;
    }

    method AcceptRefund(fee: real)
      modifies this
      ensures Value() == ValidateRefund(old(Value()), fee)
      ensures payment.Some? && payment.value.amount + fee == Satoshis(inputs) as real && payment.value.paid == 0.0
    {
      var amount := Amount();
      payment := Some(Payment(amount as real - fee, 0.0));
    }

    method IncrementPaymentBy(satoshis: real)
      requires payment.Some?
      modifies this
      ensures Value() == Raise(old(Value()), satoshis)
    {
      payment := Some(payment.value.(paid := payment.value.paid + satoshis));
    }
  }

  class Client {
    var state: ChannelState
    var socket: Socket
    var waiting: bool
    var openChannel: bool
    var attemptReopen: bool
    var timer: bool
    var fullyUsedUp: bool
    var unacked: nat
    var previousContract: Option<nat>
    var terms: Terms
    var wallet: Wallet
    var consumer: ChannelConsumer?
    var refundTx: Option<nat>
    var receivedAck: bool
    var lastIncrement: Option<real>
    var totalPaid: Option<real>
    ghost var log: Log

    ghost function M(): Money
      reads this, consumer
    {
      Money(if consumer == null then None else Some(consumer.Value()), refundTx, receivedAck, lastIncrement, totalPaid)
    }

    /** The global variables as a value. */
    ghost function G(): Globals
      reads this, consumer
    {
      Globals(state, socket, waiting, openChannel, attemptReopen, timer, fullyUsedUp, unacked, previousContract,
              terms, wallet, M(), log)
    }

    ghost predicate Valid()
      reads this
    {
      wallet.count == |wallet.outputs| && wallet.used <= wallet.count
    }

    constructor ()
      ensures Valid() && G() == INITIAL
    {
      state, socket, waiting, openChannel, attemptReopen, timer := Undefined, Unstarted, false, true, false, false;
      fullyUsedUp, unacked, previousContract := false, 0, None;
      terms, wallet := Terms(1000.0, 1000.0, 0.0, 0.0, 1, false), Wallet([], 0, 0, [], []);
      consumer, refundTx, receivedAck, lastIncrement, totalPaid := null, None, false, None, Some(0.0);
      log := Empty;
    }

    /** A move into a state without an entry action. False where it throws. */
    method MoveTo(s: ChannelState) returns (ok: bool)
      modifies this`state
      ensures Result(ok, G()) == Move(old(G()), s)
    {
      ok := IsEdge(state, s);
      if ok {
        state := s;
      }
    }

    /** Re-entrant: the entry action of a state may ask for the next. False where it throws. */
    method SetChannelState(s: ChannelState) returns (ok: bool)
      requires Valid()
      modifies this, consumer
      ensures Valid() && (consumer == old(consumer) || fresh(consumer))
      ensures Result(ok, G()) == SetState(old(G()), s)
    {
      ok := MoveTo(s);
      if ok {
        ok := EntryAction(s);
      }
    }

    method EntryAction(s: ChannelState) returns (ok: bool)
      requires Valid()
      modifies this, consumer
      ensures Valid() && (consumer == old(consumer) || fresh(consumer))
      ensures Result(ok, G()) == Enter(old(G()), s)
    {
      ok := true;
      match s
      case Begin => socket := Connecting;
      case ReceivedPrice => ok := EnterPrice();
      case ReceivedFunding => ok := EnterFunding();
      case Initiated => ok := SendRefund();
      case ReceivedRefund => ok := SendContract();
      case ReceivedError => ok := StartPaymentChannel();
      case ReceivedClose => ok := StartPaymentChannel();
      case SentClose => ok := StartPaymentChannel();
      case _ =>
    }

    method EnterPrice() returns (ok: bool)
      requires Valid()
      modifies this`terms, this`waiting, this`attemptReopen, this`wallet, this`consumer, this`refundTx, this`log,
               this`state
      ensures Valid() && (consumer == old(consumer) || fresh(consumer))
      ensures Result(ok, G()) == Enter(old(G()), ReceivedPrice)
    {
      if wallet.count > wallet.used {
        ok := Initiate();
      } else {
        ok := SendFundingAddress();
      }
    }

    method EnterFunding() returns (ok: bool)
      requires Valid()
      modifies this`terms, this`waiting, this`attemptReopen, this`wallet, this`consumer, this`refundTx, this`log,
               this`state
      ensures Valid() && (consumer == old(consumer) || fresh(consumer))
      ensures Result(ok, G()) == Enter(old(G()), ReceivedFunding)
    {
      ok := true;
      if waiting {
        ok := Initiate();
      } else {
        waiting := true;
      }
    }

    method StartPaymentChannel() returns (ok: bool)
      modifies this`timer, this`log, this`state
      ensures Result(ok, G()) == Channel.StartPaymentChannel(old(G()))
    {
      timer := false;
      ok := SendVersion();
    }

    method SendVersion() returns (ok: bool)
      modifies this`log, this`state
      ensures Result(ok, G()) == Channel.SendVersion(old(G()))
    {
      log := After(log, ClientVersion(if attemptReopen then previousContract else None, socket.Open?));
      ok := MoveTo(SentVersion);
    }

    method SendFundingAddress() returns (ok: bool)
      modifies this`log, this`state
      ensures Result(ok, G()) == Channel.SendFundingAddress(old(G()))
    {
      log := After(log, FundingAddress(socket.Open?));
      ok := MoveTo(SentFundingAddress);
    }

    method ExitWithError() returns (ok: bool)
      modifies this`log, this`attemptReopen, this`state
      ensures Result(ok, G()) == Channel.ExitWithError(old(G()))
    {
      log := After(log, ErrorMessage(socket.Open?));
      attemptReopen := true;
      ok := MoveTo(SentError);
    }

    method UpdateEscrowAmount()
      modifies this`terms
      ensures G() == UpdateEscrow(old(G()))
      ensures Priced(terms, wallet.outputs)
    {
      RepricePriced(terms, wallet.outputs);
      var total := UndepletedTotal();
      var escrow := total as real - FEE;
      var width := escrow / 100.0;
      if width < terms.price as real {
        width := terms.price as real;
      }
      terms := terms.(escrow := escrow, coinWidth := width);
    }

    method UndepletedTotal() returns (total: nat)
      ensures total == Undepleted(wallet.outputs)
    {
      var outputs := wallet.outputs;
      total := 0;
      var i := 0;
      while i < |outputs|
        invariant i <= |outputs| && total == Undepleted(outputs[..i])
      {
        assert outputs[..i + 1][..i] == outputs[..i];
        if outputs[i].state != Depleted {
          total := total + outputs[i].utxo.satoshis;
        }
        i := i + 1;
      }
      assert outputs[..i] == outputs;
    }

    method Initiate() returns (ok: bool)
      requires Valid()
      modifies this`terms, this`waiting, this`attemptReopen, this`wallet, this`consumer, this`refundTx, this`log,
               this`state
      ensures Valid() && (consumer == old(consumer) || fresh(consumer))
      ensures Result(ok, G()) == StartChannel(old(G()))
    {
      UpdateEscrowAmount();
      if terms.escrow < terms.minEscrow {
        waiting := true;
        return true;
      }
      waiting := false;
      attemptReopen := true;
      assert G() == UpdateEscrow(old(G())).(waiting := false, attemptReopen := true);
      if !terms.serverKey {
        return false;
      }
      ok := OpenNew();
    }

    method OpenNew() returns (ok: bool)
      requires Valid()
      modifies this`wallet, this`consumer, this`refundTx, this`log, this`state
      ensures Valid() && (consumer == old(consumer) || fresh(consumer))
      ensures Result(ok, G()) == EnterInitiated(CreateChannel(old(G())))
    {
      CreatePaymentChannel();
      ok := MoveTo(Initiated);
      if ok {
        ok := SendRefund();
      }
    }

    /** Attaches every output not used before to a Consumer. */
    method AttachOutputs(c: ChannelConsumer)
      requires Valid()
      modifies this`wallet, c
      ensures wallet == old(wallet).(outputs := Attach(old(wallet.outputs), wallet.used, wallet.count))
      ensures c.Value()
              == old(c.Value()).(inputs := old(c.inputs) + Utxos(old(wallet.outputs)[wallet.used..wallet.count]))
    {
      ghost var was := wallet.outputs;
      var i := wallet.used;
      while i < wallet.count
        invariant wallet.used <= i <= wallet.count == |was|
                  && wallet == old(wallet).(outputs := Attach(was, wallet.used, i))
        invariant c.Value() == old(c.Value()).(inputs := old(c.inputs) + Utxos(was[wallet.used..i]))
      {
        c.ProcessFunding(wallet.outputs[i].utxo);
        wallet := wallet.(outputs := wallet.outputs[i := wallet.outputs[i].(state := Attached)]);
        assert was[wallet.used..i + 1] == was[wallet.used..i] + [was[i]];
        i := i + 1;
      }
    }

    /** Builds a Consumer over every output not used before. */
    method BuildConsumer() returns (c: ChannelConsumer)
      requires Valid()
      modifies this`wallet
      ensures Valid() && fresh(c) && wallet == Commit(old(wallet))
      ensures c.Value() == Consumer(|old(wallet.commitments)|, Unused(old(wallet)), None)
    {
      c := new ChannelConsumer(|wallet.commitments|);
      AttachOutputs(c);
      wallet := wallet.(used := wallet.count, commitments := wallet.commitments + [c.inputs]);
      assert [] + Unused(old(wallet)) == Unused(old(wallet));
    }

    method CreatePaymentChannel()
      requires Valid()
      modifies this`wallet, this`consumer
      ensures Valid() && consumer != null && fresh(consumer) && G() == CreateChannel(old(G()))
    {
      consumer := BuildConsumer();
      assert M() == old(M()).(consumer := Some(consumer.Value()));
    }

    /** Raises the payment and remembers by how much. */
    method PayMore(delta: real)
      requires consumer != null && consumer.payment.Some?
      modifies this`lastIncrement, consumer
      ensures consumer.payment.Some? && G() == old(G()).(money := Pay(old(M()), delta))
    {
      consumer.IncrementPaymentBy(delta);
      lastIncrement := Some(delta);
    }

    method SendRefund() returns (ok: bool)
      modifies this`refundTx, this`log, this`state
      ensures Result(ok, G()) == Channel.SendRefund(old(G()))
    {
      if consumer == null || consumer.inputs == [] {
        return false;
      }
      refundTx := Some(consumer.id);
      log := After(log, ProvideRefund(consumer.id, socket.Open?));
      ok := MoveTo(SentRefund);
    }

    method SendContract() returns (ok: bool)
      modifies this`previousContract, this`lastIncrement, this`log, this`state, consumer
      ensures Result(ok, G()) == Channel.SendContract(old(G()))
    {
      if consumer == null {
        return false;
      }
      previousContract := Some(consumer.id);
      if consumer.payment.None? {
        return false;
      }
      PayMore(terms.minPayment);
      ok := Offer();
    }

    method Offer() returns (ok: bool)
      requires consumer != null && consumer.payment.Some?
      modifies this`log, this`state
      ensures Result(ok, G()) == OfferContract(old(G()))
    {
      var refundAmount := consumer.payment.value.Change();
      if refundAmount == 0.0 {
        log := After(log, ContractFailed(consumer.id));
        return false;
      }
      log := After(log, ProvideContract(consumer.id, terms.minPayment, refundAmount, totalPaid, socket.Open?));
      ok := MoveTo(SentContract);
    }

    method ReceiveRefund(signed: bool, fee: real) returns (ok: bool)
      requires Valid()
      modifies this, consumer
      ensures Valid() && (consumer == old(consumer) || fresh(consumer))
      ensures Result(ok, G()) == Channel.ReceiveRefund(old(G()), signed, fee)
    {
      if consumer == null {
        return false;
      }
      if refundTx.None? || !signed {
        ok := ExitWithError();
        return;
      }
      consumer.AcceptRefund(fee);
      log := After(log, RefundValidated(consumer.id, refundTx.value, consumer.payment.value.amount, fee));
      ok := SetChannelState(ReceivedRefund);
    }

    /** Records the outputs of a transaction that pay the funding address; returns what they add up to. */
    method CollectOutputs(tx: FundingTx) returns (amount: nat)
      requires Valid()
      modifies this`wallet
      ensures Valid() && wallet == AddFunding(old(wallet), Ours(tx, |tx.outputs|))
      ensures amount == Satoshis(Ours(tx, |tx.outputs|))
    {
      amount := 0;
      var j := 0;
      while j < |tx.outputs|
        invariant j <= |tx.outputs| && amount == Satoshis(Ours(tx, j)) && wallet == AddFunding(old(wallet), Ours(tx, j))
      {
        if tx.outputs[j].ours {
          var utxo := Utxo(tx.id, j, tx.outputs[j].satoshis);
          AddOne(old(wallet), Ours(tx, j), utxo);
          amount := amount + tx.outputs[j].satoshis;
          wallet := wallet.(outputs := wallet.outputs + [FundingOutput(utxo, Unprocessed)], count := wallet.count + 1,
                            hashes := wallet.hashes + [tx.id]);
        } else {
          assert Ours(tx, j) + [] == Ours(tx, j);
        }
        j := j + 1;
      }
    }

    method ReceiveFunding(tx: FundingTx) returns (ok: bool)
      requires Valid()
      modifies this, consumer
      ensures Valid() && (consumer == old(consumer) || fresh(consumer))
      ensures Result(ok, G()) == Channel.ReceiveFunding(old(G()), tx)
    {
      if tx.id in wallet.hashes {
        return true;
      }
      if !tx.refundable {
        ok := ExitWithError();
        return;
      }
      var amount := CollectOutputs(tx);
      assert G() == old(G()).(wallet := wallet);
      ok := UseFunding(amount);
    }

    method UseFunding(amount: nat) returns (ok: bool)
      requires Valid()
      modifies this, consumer
      ensures Valid() && (consumer == old(consumer) || fresh(consumer))
      ensures Result(ok, G()) == if amount == 0 then Channel.ExitWithError(old(G()))
                                 else SetState(UpdateEscrow(old(G())), ReceivedFunding)
    {
      if amount <= 0 {
        ok := ExitWithError();
      } else {
        UpdateEscrowAmount();
        ok := SetChannelState(ReceivedFunding);
      }
    }

    method ReceivePrice(proposed: int) returns (ok: bool)
      requires Valid()
      modifies this, consumer
      ensures Valid() && (consumer == old(consumer) || fresh(consumer))
      ensures Result(ok, G()) == Channel.ReceivePrice(old(G()), proposed)
    {
      terms := terms.(price := proposed);
      if terms.price < 0 {
        ok := ExitWithError();
        return;
      }
      terms := terms.(serverKey := true);
      ok := SetChannelState(ReceivedPrice);
    }

    method ReceiveInitiate(minChannel: nat, minInitial: nat) returns (ok: bool)
      requires Valid()
      modifies this, consumer
      ensures Valid() && (consumer == old(consumer) || fresh(consumer))
      ensures Result(ok, G()) == Channel.ReceiveInitiate(old(G()), minChannel, minInitial)
    {
      terms := terms.(minEscrow := minChannel as real, minPayment := minInitial as real);
      ok := true;
      if waiting {
        ok := Initiate();
      }
    }

    method IncrementPayment() returns (ok: bool)
      modifies this`fullyUsedUp, this`receivedAck, this`lastIncrement, this`log, this`attemptReopen, this`state,
               consumer
      ensures Result(ok, G()) == Channel.IncrementPayment(old(G()))
    {
      if consumer == null || consumer.payment.None? {
        return false;
      }
      var p := consumer.payment.value;
      var increment := terms.coinWidth;
      var remainder := p.amount - p.paid - increment;
      if remainder < terms.minPayment {
        increment := p.amount - p.paid;
        fullyUsedUp := true;
      }
      assert G() == old(G()).(fullyUsedUp := fullyUsedUp);
      if increment < 0.0 {
        ok := ExitWithError();
      } else {
        Update(increment);
        ok := true;
      }
    }

    method Update(increment: real)
      requires consumer != null && consumer.payment.Some?
      modifies this`receivedAck, this`lastIncrement, this`log, consumer
      ensures G() == SendUpdate(old(G()), increment)
    {
      PayMore(increment);
      var change := consumer.payment.value.Change();
      log := After(log, UpdatePayment(
        consumer.id, change, fullyUsedUp, terms.minPayment, terms.coinWidth, socket.Open?));
      receivedAck := false;
    }

    method OnTimer() returns (ok: bool)
      modifies this`unacked, this`timer, this`fullyUsedUp, this`receivedAck, this`lastIncrement, this`log,
               this`attemptReopen, this`state
      modifies consumer
      ensures Result(ok, G()) == UpdatePayments(old(G()))
    {
      ok := true;
      if receivedAck {
        unacked := 0;
        if !fullyUsedUp {
          ok := IncrementPayment();
        }
      } else if unacked > MAX_UNACKED {
        timer := false;
        ok := ExitWithError();
      }
    }

    method ReceivePaymentAck() returns (ok: bool)
      modifies this`log, this`totalPaid, this`receivedAck
      ensures Result(ok, G()) == ReceiveAck(old(G()))
    {
      log := After(log, PaymentAcked);
      totalPaid := Plus(totalPaid, lastIncrement);
      receivedAck := true;
      ok := true;
    }

    method DepleteAttached()
      modifies this`wallet
      ensures wallet == old(wallet).(outputs := Deplete(old(wallet.outputs)))
    {
      ghost var was := wallet.outputs;
      var i := 0;
      while i < |wallet.outputs|
        invariant wallet == old(wallet).(outputs := wallet.outputs) && i <= |wallet.outputs| == |was|
        invariant forall k :: 0 <= k < i ==> wallet.outputs[k] == Deplete(was)[k]
        invariant forall k :: i <= k < |was| ==> wallet.outputs[k] == was[k]
      {
        if wallet.outputs[i].state == Attached {
          wallet := wallet.(outputs := wallet.outputs[i := wallet.outputs[i].(state := Depleted)]);
        }
        i := i + 1;
      }
    }

    method ReceiveClose() returns (ok: bool)
      requires Valid()
      modifies this`wallet, this`attemptReopen, this`openChannel, this`timer, this`log, this`state
      ensures Valid() && Result(ok, G()) == Channel.ReceiveClose(old(G()))
    {
      if fullyUsedUp {
        DepleteAttached();
        attemptReopen := false;
      } else {
        attemptReopen := true;
      }
      openChannel := true;
      ok := Restart(ReceivedClose);
    }

    /** A state whose entry action starts the channel again. */
    method Restart(s: ChannelState) returns (ok: bool)
      requires s.ReceivedError? || s.ReceivedClose? || s.SentClose?
      modifies this`timer, this`log, this`state
      ensures Result(ok, G()) == SetState(old(G()), s)
    {
      ok := MoveTo(s);
      if ok {
        ok := StartPaymentChannel();
      }
    }

    method ReceiveServerVersion(accepted: bool) returns (ok: bool)
      modifies this`log, this`attemptReopen, this`state
      ensures Result(ok, G()) == Receive(old(G()), ServerVersion(accepted))
    {
      if accepted {
        ok := MoveTo(ReceivedVersion);
      } else {
        ok := ExitWithError();
      }
    }

    method ReceiveChannelOpen() returns (ok: bool)
      modifies this`fullyUsedUp, this`timer, this`state
      ensures Result(ok, G()) == Receive(old(G()), ChannelOpen)
    {
      fullyUsedUp := false;
      timer := true;
      assert G() == old(G()).(fullyUsedUp := false, timer := true);
      ok := MoveTo(ReceivedChannelOpen);
    }

    method ReceiveError() returns (ok: bool)
      modifies this`attemptReopen, this`timer, this`log, this`state
      ensures Result(ok, G()) == Receive(old(G()), Error)
    {
      attemptReopen := true;
      assert G() == old(G()).(attemptReopen := true);
      ok := Restart(ReceivedError);
    }

    method OnMessage(m: Message) returns (ok: bool)
      requires Valid()
      modifies this, consumer
      ensures Valid() && (consumer == old(consumer) || fresh(consumer))
      ensures Result(ok, G()) == Receive(old(G()), m)
    {
      match m
      case ServerVersion(accepted) => ok := ReceiveServerVersion(accepted);
      case Price(proposed) => ok := ReceivePrice(proposed);
      case Funding(tx) => ok := ReceiveFunding(tx);
      case Initiate(minChannel, minInitial) => ok := ReceiveInitiate(minChannel, minInitial);
      case ReturnRefund(signed, fee) => ok := ReceiveRefund(signed, fee);
      case ChannelOpen => ok := ReceiveChannelOpen();
      case PaymentAck => ok := ReceivePaymentAck();
      case Close => ok := ReceiveClose();
      case Error => ok := ReceiveError();
    }

    method UserDisconnects() returns (ok: bool)
      modifies this`log, this`timer, this`openChannel, this`state
      ensures Result(ok, G()) == Disconnect(old(G()))
    {
      if consumer == null || consumer.payment.None? {
        return false;
      }
      if consumer.payment.value.Change() <= terms.minPayment {
        return true;
      }
      log := After(log, ErrorMessage(socket.Open?));
      timer := false;
      openChannel := false;
      ok := MoveTo(SentError);
    }

    method UserReconnects() returns (ok: bool)
      modifies this`attemptReopen, this`fullyUsedUp, this`openChannel, this`log, this`state
      ensures Result(ok, G()) == Reconnect(old(G()))
    {
      attemptReopen := true;
      fullyUsedUp := false;
      openChannel := true;
      assert G() == old(G()).(attemptReopen := true, fullyUsedUp := false, openChannel := true);
      ok := SendVersion();
    }

    method Close() returns (ok: bool)
      modifies this`attemptReopen, this`timer, this`log, this`state
      ensures Result(ok, G()) == CloseChannel(old(G()))
    {
      log := After(log, CloseMessage(socket.Open?));
      attemptReopen := false;
      ok := Restart(SentClose);
    }

    method OnSocketOpen() returns (ok: bool)
      modifies this`socket, this`waiting, this`timer, this`log, this`state
      ensures Result(ok, G()) == Step(old(G()), SocketOpened)
    {
      ok := true;
      if socket.Connecting? {
        socket := Open;
        waiting := true;
        if openChannel { ok := StartPaymentChannel(); }
      }
    }

    method OnSocketClose(policy: bool) returns (ok: bool)
      modifies this`socket, this`timer, this`state
      ensures Result(ok, G()) == Step(old(G()), SocketClosed(policy))
    {
      ok := true;
      if socket.Open? || socket.Connecting? {
        if policy {
          socket := Refused;
        } else {
          socket := Closed;
          timer := false;
          assert G() == old(G()).(socket := Closed, timer := false);
          ok := MoveTo(WebsocketClosed);
        }
      }
    }

    /** One event; false where the handler throws. */
    method Handle(e: Event) returns (ok: bool)
      requires Valid()
      modifies this, consumer
      ensures Valid() && (consumer == old(consumer) || fresh(consumer))
      ensures Result(ok, G()) == Step(old(G()), e)
    {
      ok := true;
      match e
      case Received(m) => if socket.Open? { ok := OnMessage(m); }
      case SocketOpened => ok := OnSocketOpen();
      case SocketClosed(policy) => ok := OnSocketClose(policy);
      case SocketRestarted => if socket.Closed? { socket := Connecting; }
      case Tick(due) => if timer && due { ok := OnTimer(); }
      case UserDisconnect => ok := UserDisconnects();
      case UserReconnect => ok := UserReconnects();
      case UserClose => ok := Close();
    }
  }

  lemma AddOne(w: Wallet, added: seq<Utxo>, utxo: Utxo)
    ensures AddFunding(w, added + [utxo])
         == AddFunding(w, added).(outputs := AddFunding(w, added).outputs + [FundingOutput(utxo, Unprocessed)],
                                  count := AddFunding(w, added).count + 1,
                                  hashes := AddFunding(w, added).hashes + [utxo.txId])
    ensures Satoshis(added + [utxo]) == Satoshis(added) + utxo.satoshis
  {
    assert (added + [utxo])[..|added|] == added;
    assert Fresh(added + [utxo]) == Fresh(added) + [FundingOutput(utxo, Unprocessed)];
    assert TxIds(added + [utxo]) == TxIds(added) + [utxo.txId];
  }

  /** The page after loading and after every event, in order: the run that the theorems are about. */
  method RunClient(events: seq<Event>) returns (client: Client)
    ensures fresh(client) && client.Valid() && client.G() == Run(events)
  {
    client := new Client();
    var ok := client.SetChannelState(Begin);
    var i := 0;
    while i < |events|
      invariant i <= |events| && fresh(client) && (client.consumer != null ==> fresh(client.consumer))
      invariant Stands(client, Run(events[..i]))
    {
      RunNext(events, i);
      Follow(client, Run(events[..i]), events[i]);
      i := i + 1;
    }
    assert events[..i] == events;
  }

  ghost predicate Stands(client: Client, g: Globals)
    reads client, client.consumer
  {
    client.Valid() && client.G() == g
  }

  lemma RunNext(events: seq<Event>, i: nat)
    requires i < |events|
    ensures Run(events[..i + 1]) == Step(Run(events[..i]), events[i]).g
  {
    assert events[..i + 1][..i] == events[..i];
  }

  /** One event; a handler that throws ends there. */
  method Follow(client: Client, ghost g: Globals, e: Event)
    requires Stands(client, g)
    modifies client, client.consumer
    ensures Stands(client, Step(g, e).g) && (client.consumer == old(client.consumer) || fresh(client.consumer))
  {
    var ok := client.Handle(e);
  }
}
