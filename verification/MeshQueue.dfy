/** `TxBuffer` and the sending part of `AquilaMesh` as objects over the network layer. */
module MeshQueue {
  import opened NwkModel
  import opened NwkDataReq
  import opened MeshModel

  /** Place of packet `i` in a ring read from `tail` on. */
  function Place(tail: nat, i: nat): (r: nat)
    ensures r < TX_BUFFER_SIZE
  {
    (tail + i) % TX_BUFFER_SIZE
  }

  /** The place behind `p`. */
  function Behind(p: nat): nat { if p + 1 == TX_BUFFER_SIZE then 0 else p + 1 }

  lemma PlacesDiffer(tail: nat, i: nat, j: nat)
    requires i < j < TX_BUFFER_SIZE
    ensures Place(tail, i) != Place(tail, j)
  {
  }

  lemma PlaceNext(tail: nat, i: nat)
    requires tail < TX_BUFFER_SIZE
    ensures Place(Behind(tail), i) == Place(tail, i + 1) == Behind(Place(tail, i))
    ensures Place(tail, 0) == tail
  {
  }

  /** Ring buffer of packets: `head` is where the next one is written, `tail` where it is read. */
  class TxBuffer {
    const buffer: array<Packet>
    var head: nat
    var tail: nat
    var count: nat

    ghost predicate Valid()
      reads this, buffer
    {
      buffer.Length == TX_BUFFER_SIZE && tail < TX_BUFFER_SIZE && count <= TX_BUFFER_SIZE &&
      head == Place(tail, count)
    }

    ghost function Contents(): (r: seq<Packet>)
      reads this, buffer
      requires Valid()
      ensures |r| == count
    {
      seq(count, i requires 0 <= i < count && Valid() reads this, buffer => buffer[Place(tail, i)])
    }

    constructor ()
      ensures Valid() && Contents() == [] && fresh(buffer)
    {
      buffer := new Packet[TX_BUFFER_SIZE](_ => Packet(EMPTY_CONTENT, 0));
      head, tail, count := 0, 0, 0;
    }

    method IsFull() returns (full: bool)
      requires Valid()
      ensures full == (|Contents()| == TX_BUFFER_SIZE)
    {
      full := count >= TX_BUFFER_SIZE;
    }

    method IsEmpty() returns (empty: bool)
      requires Valid()
      ensures empty == (Contents() == [])
    {
      empty := count == 0;
    }

    method Insert(data: Packet) returns (ok: bool)
      requires Valid()
      modifies this, buffer
      ensures Valid() && ok == (|old(Contents())| < TX_BUFFER_SIZE)
      ensures Contents() == if ok then old(Contents()) + [data] else old(Contents())
    {
      hide Place;
      ok := count < TX_BUFFER_SIZE;
      if ok {
        forall i | 0 <= i < count ensures Place(tail, i) != head { PlacesDiffer(tail, i, count); }
        PlaceNext(tail, count);
        buffer[head] := data;
        head := head + 1;
        if head == TX_BUFFER_SIZE { head := 0; }
        count := count + 1;
      }
    }

    method Remove() returns (ok: bool, data: Packet)
      requires Valid()
      modifies this
      ensures Valid() && ok == (old(Contents()) != [])
      ensures ok ==> data == old(Contents())[0] && Contents() == old(Contents())[1..]
      ensures !ok ==> Contents() == old(Contents())
    {
      hide Place;
      ok, data := count > 0, Packet(EMPTY_CONTENT, 0);
      if ok {
        forall i: nat ensures Place(Behind(tail), i) == Place(tail, i + 1) { PlaceNext(tail, i); }
        PlaceNext(tail, 0);
        data := buffer[tail];
        tail := tail + 1;
        if tail == TX_BUFFER_SIZE { tail := 0; }
        count := count - 1;
      }
    }
  }

  class AquilaMesh {
    const txBuffer: TxBuffer
    const nwk: NwkLayer
    const request: Request          // the request inside the static packet: its status and control
    var bufPacket: Content          // its other fields and its data
    var txBusy: bool
    var txUserConfirm: Callback
    var secEnabled: bool
    ghost var accepted: seq<Packet>
    ghost var handed: seq<Packet>
    ghost var completed: seq<Packet>
    ghost var outcomes: seq<Outcome>
    ghost var calls: seq<Call>

    ghost predicate Valid()
      reads this, txBuffer, txBuffer.buffer, nwk`queue, nwk`reqs, nwk.reqs`next
    {
      txBuffer.Valid() && nwk.Linked() && request.id == BUF_ID &&
      forall r | r in nwk.reqs :: r.id == BUF_ID ==> r == request
    }

    ghost function State(): Mesh
      reads this, txBuffer, txBuffer.buffer, nwk, nwk.reqs, nwk.frames
      requires Valid()
    {
      Mesh(txBuffer.Contents(), txBusy, txUserConfirm, bufPacket, secEnabled, nwk.State(),
           accepted, handed, completed, outcomes, calls)
    }

    constructor (nwk: NwkLayer)
      requires nwk.Linked() && nwk.reqs == []
      ensures Valid() && this.nwk == nwk && fresh(txBuffer) && fresh(txBuffer.buffer) && fresh(request)
      ensures State() == Mesh([], false, NoCallback, EMPTY_CONTENT, false, nwk.State(), [], [], [], [], [])
    {
      txBuffer := new TxBuffer();
      this.nwk := nwk;
      request := new Request(BUF_ID);
      bufPacket, txBusy, txUserConfirm, secEnabled := EMPTY_CONTENT, false, NoCallback, false;
      accepted, handed, completed, outcomes, calls := [], [], [], [], [];
    }

    /** `sendPacket`: the data of the packet must fit the buffer, which the caller has to see to. */
    method SendPacket(packet: Packet) returns (ok: bool)
      requires Valid() && |packet.content.data| <= MAX_PAYLOAD
      modifies this`accepted, txBuffer, txBuffer.buffer
      ensures Valid() && State() == MeshModel.SendPacket(old(State()), packet)
      ensures ok == (|old(State()).tx| < TX_BUFFER_SIZE)
    {
      hide TxBuffer.Valid, TxBuffer.Contents, NwkLayer.Linked, NwkLayer.State, Views;
      var full := txBuffer.IsFull();
      if full { return false; }
      ok := txBuffer.Insert(packet);
      if ok { accepted := accepted + [packet]; }
    }

    /** The second half of `sendNow`: the packet moves to the static one and its request into the list. */
    method HandOver(packet: Packet)
      requires Valid() && request !in nwk.reqs
      modifies this`bufPacket, this`txBusy, this`txUserConfirm, this`handed, nwk, request
      ensures Valid() && nwk.reqs == [request] + old(nwk.reqs)
      ensures State() == old(State()).(txBusy := true, txUserConfirm := packet.content.confirm,
        bufPacket := packet.content.(confirm := TxConfirm), nwk := Submit(old(State()).nwk, BUF_ID, packet.control),
        handed := old(State()).handed + [packet])
    {
      hide TxBuffer.Valid, TxBuffer.Contents, NwkLayer.Linked, Views, Submit;
      txUserConfirm := packet.content.confirm;
      bufPacket := packet.content.(confirm := TxConfirm);
      txBusy := true;
      handed := handed + [packet];
      request.control := packet.control;
      nwk.DataReq(request);
    }

    /** `sendNow`. */
    method SendNow()
      requires Valid() && (txBusy <==> request in nwk.reqs)
      modifies this, txBuffer, nwk, request
      ensures Valid() && (txBusy <==> request in nwk.reqs)
      ensures State() == MeshModel.SendNow(old(State()))
    {
      hide TxBuffer.Valid, TxBuffer.Contents, NwkLayer.Linked, Views, Submit, Secured;
      var empty := txBuffer.IsEmpty();
      var busy := nwk.IsBusy();
      if empty || txBusy || busy { return; }
      var ok, packet := txBuffer.Remove();
      if !ok { return; }
      HandOver(Secured(packet, secEnabled));
    }

    /** `txConfirm`, run by the network layer when the static packet's request is confirmed: the callback is
        given that packet, with the status and control that are now in its request. */
    method Confirm()
      requires Valid()
      modifies this`txBusy, this`txUserConfirm, this`completed, this`calls
      ensures Valid() && !txBusy && State() == Confirmed(old(State()), request.status, request.control)
    {
      hide TxBuffer.Valid, TxBuffer.Contents, NwkLayer.Linked, NwkLayer.State, Views;
      txBusy := false;
      if txUserConfirm.User? {
        calls := calls + [Call(txUserConfirm.id, bufPacket, request.status, request.control)];
      }
      txUserConfirm := NoCallback;
      completed := if |completed| < |handed| then completed + [handed[|completed|]] else completed;
    }

    /** One pass of the network layer's request handler with its callback. */
    method RequestTask()
      requires Valid() && (txBusy <==> request in nwk.reqs)
      modifies this, nwk, nwk.frames, nwk.reqs
      ensures Valid() && (txBusy <==> request in nwk.reqs)
      ensures State() == MeshStep(old(State()), Layer(TaskHandler))
    {
      hide TxBuffer.Valid, TxBuffer.Contents, NwkLayer.Linked, Views, Task, Confirmed, OutcomeOf;
      outcomes := outcomes + One(OutcomeOf(nwk.State(), TaskHandler, BUF_ID));
      var confirmed := nwk.TaskHandler();
      if confirmed == request { Confirm(); }
    }

    /** The transmitter reports on a frame. */
    method Transmitted(frame: nat, status: nat, control: nat)
      requires Valid() && frame < nwk.frames.Length
      modifies this`outcomes, nwk`lock, nwk.frames, nwk.reqs`state, nwk.reqs`status, nwk.reqs`control, nwk.reqs`frame
      ensures Valid() && State() == MeshStep(old(State()), Layer(Event.Transmitted(frame, status, control)))
    {
      hide TxBuffer.Valid, TxBuffer.Contents, NwkLayer.Linked, Views, TxDone, OutcomeOf, MeshStep;
      TransmittedStep(State(), frame, status, control);
      outcomes := outcomes + One(OutcomeOf(nwk.State(), Event.Transmitted(frame, status, control), BUF_ID));
      nwk.Transmitted(frame, status, control);
    }
  }
}
