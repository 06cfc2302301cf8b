/** The mesh send queue on top of the network layer: one static packet at a time is under way. */
module MeshModel {
  import opened Wrappers
  import opened NwkModel

  const TX_BUFFER_SIZE: nat := 8
  const MAX_PAYLOAD: nat := 105
  const OPT_ENABLE_SECURITY: bv8 := 2

  datatype Callback = NoCallback | User(id: nat) | TxConfirm

  /** The part of a packet that the network layer leaves alone. */
  datatype Content = Content(dstAddr: nat, dstEndpoint: nat, srcEndpoint: nat, options: bv8, data: seq<bv8>,
                             confirm: Callback)

  /** `control` is whatever the sender left in that field. */
  datatype Packet = Packet(content: Content, control: nat)

  const EMPTY_CONTENT: Content := Content(0, 0, 0, 0, [], NoCallback)

  /** Address of the request inside the static packet. */
  const BUF_ID: nat := 0

  /** A callback that ran: whose it is, and the packet it was given, with the status and control that the
      network layer keeps in the same object. */
  datatype Call = Call(id: nat, content: Content, status: nat, control: nat)

  /** `accepted`, `handed` and `completed` record the packets `sendPacket` took, the packets passed to
      `NWK_DataReq` and the packets whose request was confirmed; `outcomes` records what the transmissions of
      the static packet came to, `calls` the callbacks that ran. Status and control of the static packet are
      those of its request. */
  datatype Mesh = Mesh(tx: seq<Packet>, txBusy: bool, txUserConfirm: Callback, bufPacket: Content, secEnabled: bool,
                       nwk: Nwk, accepted: seq<Packet>, handed: seq<Packet>, completed: seq<Packet>,
                       outcomes: seq<Outcome>, calls: seq<Call>)

  function SecuredContent(c: Content, enabled: bool): Content {
    c.(options := if enabled then c.options | OPT_ENABLE_SECURITY else c.options & !OPT_ENABLE_SECURITY)
  }

  function Secured(p: Packet, enabled: bool): Packet { p.(content := SecuredContent(p.content, enabled)) }

  // ---- steps ----

  function SendPacket(m: Mesh, p: Packet): Mesh {
    if |m.tx| >= TX_BUFFER_SIZE then m else m.(tx := m.tx + [p], accepted := m.accepted + [p])
  }

  function SendNow(m: Mesh): Mesh {
    if m.tx == [] || m.txBusy || m.nwk.lock > 0 then m
    else
      var p := Secured(m.tx[0], m.secEnabled);
      m.(tx := m.tx[1..], txBusy := true, txUserConfirm := p.content.confirm,
         bufPacket := p.content.(confirm := TxConfirm), nwk := Submit(m.nwk, BUF_ID, p.control),
         handed := m.handed + [p])
  }

  /** `txConfirm`: frees the sender and runs the user's callback, if there is one, on the packet as the network
      layer returned it. */
  function Confirmed(m: Mesh, status: nat, control: nat): Mesh {
    var ran := if m.txUserConfirm.User? then [Call(m.txUserConfirm.id, m.bufPacket, status, control)] else [];
    m.(txBusy := false, txUserConfirm := NoCallback, calls := m.calls + ran,
       completed := if |m.completed| < |m.handed| then m.completed + [m.handed[|m.completed|]] else m.completed)
  }

  function One(o: Option<Outcome>): seq<Outcome> { if o.Some? then [o.value] else [] }

  datatype MeshEvent = Send(packet: Packet) | Flush | SetSecurity(enabled: bool) | Layer(event: Event)

  function MeshStep(m: Mesh, e: MeshEvent): Mesh {
    match e
    case Send(p) => SendPacket(m, p)
    case Flush => SendNow(m)
    case SetSecurity(b) => m.(secEnabled := b)
    case Layer(x) =>
      var (nwk, c) := Step(m.nwk, x);
      var m' := m.(nwk := nwk, outcomes := m.outcomes + One(OutcomeOf(m.nwk, x, BUF_ID)));
      if c.Some? && c.value.id == BUF_ID then Confirmed(m', c.value.status, c.value.control) else m'
  }

  /** A report confirms nothing yet. */
  lemma TransmittedStep(m: Mesh, f: nat, status: nat, control: nat)
    requires f < |m.nwk.frames|
    ensures var e := Transmitted(f, status, control);
      MeshStep(m, Layer(e)) ==
      m.(nwk := TxDone(m.nwk, f, status, control), outcomes := m.outcomes + One(OutcomeOf(m.nwk, e, BUF_ID)))
  {
  }

  /** Applications may submit requests of their own, but not the static one. */
  predicate MeshLegal(m: Mesh, e: MeshEvent) {
    e.Layer? ==> Legal(m.nwk, e.event) && !Submits(e.event, BUF_ID)
  }

  // ---- invariant ----

  /** The same packet up to the security option, which is set when it is sent. */
  predicate SamePacket(p: Packet, q: Packet) {
    p.control == q.control && p.content.(options := 0) == q.content.(options := 0) &&
    p.content.options & !OPT_ENABLE_SECURITY == q.content.options & !OPT_ENABLE_SECURITY
  }

  /** The callbacks owed for these packets and the outcomes of their transmissions, in order. */
  function CallsFor(ps: seq<Packet>, outcomes: seq<Outcome>): seq<Call>
    requires |ps| <= |outcomes|
  {
    if ps == [] then []
    else
      var c, o := ps[|ps| - 1].content, outcomes[|ps| - 1];
      CallsFor(ps[..|ps| - 1], outcomes) +
      (if c.confirm.User? then [Call(c.confirm.id, c.(confirm := TxConfirm), o.status, o.control)] else [])
  }

  /** What the packet under way has met with so far. */
  function Pending(m: Mesh): Option<Outcome> {
    if |m.completed| < |m.outcomes| then Some(m.outcomes[|m.completed|]) else None
  }

  ghost predicate Books(m: Mesh) {
    |m.tx| <= TX_BUFFER_SIZE && |m.handed| + |m.tx| == |m.accepted| &&
    (forall i | 0 <= i < |m.handed| :: SamePacket(m.handed[i], m.accepted[i])) &&
    (forall i | 0 <= i < |m.tx| :: m.tx[i] == m.accepted[|m.handed| + i]) &&
    m.completed <= m.handed && |m.handed| == |m.completed| + (if m.txBusy then 1 else 0) &&
    m.txUserConfirm != TxConfirm &&
    (if m.txBusy then
       var c := m.handed[|m.completed|].content;
       c.confirm == m.txUserConfirm && m.bufPacket == c.(confirm := TxConfirm)
     else m.txUserConfirm == NoCallback)
  }

  /** One outcome for each completed packet, and at most one more: that of the packet under way. */
  ghost predicate Reports(m: Mesh) {
    m.completed <= m.handed && |m.completed| <= |m.outcomes| <= |m.completed| + 1 &&
    m.calls == CallsFor(m.completed, m.outcomes) &&
    (if m.txBusy then
       |m.completed| < |m.handed| && AllMet(m.nwk.queue, BUF_ID, m.handed[|m.completed|].control, Pending(m))
     else |m.outcomes| == |m.completed|)
  }

  ghost predicate MeshInv(m: Mesh) { Inv(m.nwk) && m.txBusy == Queued(m.nwk, BUF_ID) && Books(m) && Reports(m) }

  /** Applications do not pass the queue's own callback. */
  predicate UserPacket(p: Packet) { p.content.confirm != TxConfirm }

  ghost predicate AllByUsers(m: Mesh) { forall i | 0 <= i < |m.accepted| :: UserPacket(m.accepted[i]) }

  lemma SecuredSame(p: Packet, enabled: bool)
    ensures SamePacket(Secured(p, enabled), p)
  {
  }

  lemma InitMesh(frames: nat, buf: Content, secEnabled: bool)
    ensures var nwk := Nwk([], seq(frames, _ => Free), false, 0);
      MeshInv(Mesh([], false, NoCallback, buf, secEnabled, nwk, [], [], [], [], []))
  {
    InitInv(frames);
  }

  lemma {:induction false} CallsForFront(ps: seq<Packet>, outcomes: seq<Outcome>, more: seq<Outcome>)
    requires |ps| <= |outcomes|
    ensures CallsFor(ps, outcomes + more) == CallsFor(ps, outcomes)
    decreases |ps|
  {
    if ps != [] { CallsForFront(ps[..|ps| - 1], outcomes, more); }
  }

  lemma SendPacketInv(m: Mesh, p: Packet)
    requires MeshInv(m)
    ensures MeshInv(SendPacket(m, p))
  {
  }

  /** The static packet is free whenever it is handed over, so it is never linked into the list twice. */
  lemma HandOverLegal(m: Mesh)
    requires MeshInv(m) && !m.txBusy
    ensures forall control :: Legal(m.nwk, DataReq(BUF_ID, control))
  {
  }

  lemma SendNowInv(m: Mesh)
    requires MeshInv(m) && AllByUsers(m)
    ensures MeshInv(SendNow(m))
  {
    hide Inv, Queued, Submit, AllMet, CallsFor, SamePacket, SecuredContent, Legal, Submits, Books;
    if m.tx != [] && !m.txBusy && m.nwk.lock == 0 {
      var e := DataReq(BUF_ID, m.tx[0].control);
      SubmitLegal(m.nwk, e);
      StepInv(m.nwk, e);
      SubmittedMeets(m.nwk, BUF_ID, m.tx[0].control);
      SendNowBooks(m);
      BooksEven(m);
    }
  }

  lemma BooksEven(m: Mesh)
    requires Books(m) && !m.txBusy
    ensures m.handed == m.completed
  {
  }

  lemma SubmitLegal(s: Nwk, e: Event)
    requires Inv(s) && e.DataReq? && !Queued(s, e.id)
    ensures Legal(s, e) && Queued(Submit(s, e.id, e.control), e.id)
  {
    assert Submit(s, e.id, e.control).queue[0].id == e.id;
  }

  lemma SendNowBooks(m: Mesh)
    requires Books(m) && AllByUsers(m) && m.tx != [] && !m.txBusy && m.nwk.lock == 0
    ensures Books(SendNow(m))
  {
    SecuredSame(m.tx[0], m.secEnabled);
    hide SamePacket;
    assert m.tx[0] == m.accepted[|m.handed| + 0];
  }

  lemma ConfirmedInv(m: Mesh, nwk: Nwk, status: nat, control: nat)
    requires MeshInv(m) && m.txBusy && Inv(nwk) && !Queued(nwk, BUF_ID) && Pending(m) == Some(Outcome(status, control))
    ensures MeshInv(Confirmed(m.(nwk := nwk), status, control))
  {
    hide Inv, Queued, SamePacket, AllMet;
    var p := m.handed[|m.completed|];
    var done := m.completed + [p];
    assert done[..|done| - 1] == m.completed;
    assert m.handed == done;
  }

  /** A packet under way meets with its outcome. */
  lemma ReportKept(m: Mesh, nwk: Nwk, o: Option<Outcome>)
    requires Reports(m) && (o.Some? ==> m.txBusy && Pending(m).None?)
    requires m.txBusy ==> AllMet(nwk.queue, BUF_ID, m.handed[|m.completed|].control, Later(Pending(m), o))
    ensures Reports(m.(nwk := nwk, outcomes := m.outcomes + One(o)))
  {
    hide AllMet, CallsFor;
    CallsForFront(m.completed, m.outcomes, One(o));
    assert m.outcomes + [] == m.outcomes;
  }

  lemma LayerInv(m: Mesh, e: Event)
    requires MeshInv(m) && Legal(m.nwk, e) && !Submits(e, BUF_ID)
    ensures MeshInv(MeshStep(m, Layer(e)))
  {
    hide Inv, Step, OutcomeOf, Legal, Queued, CallsFor, AllMet, Confirmed, Submits, SamePacket;
    var (nwk, c) := Step(m.nwk, e);
    var o := OutcomeOf(m.nwk, e, BUF_ID);
    StepInv(m.nwk, e);
    InvUnique(m.nwk);
    QueuedAfter(m.nwk, e, BUF_ID);
    if m.txBusy {
      OutcomeReached(m.nwk, e, BUF_ID, m.handed[|m.completed|].control, Pending(m));
    } else {
      NoOutcome(m.nwk, e, BUF_ID);
    }
    ReportKept(m, nwk, o);
    if c.Some? && c.value.id == BUF_ID {
      assert m.outcomes + [] == m.outcomes;
      ConfirmedInv(m, nwk, c.value.status, c.value.control);
    }
  }

  lemma MeshStepInv(m: Mesh, e: MeshEvent)
    requires MeshInv(m) && MeshLegal(m, e) && AllByUsers(m)
    ensures MeshInv(MeshStep(m, e))
  {
    hide MeshInv, SendPacket, SendNow, MeshLegal, AllByUsers;
    match e
    case Send(p) => SendPacketInv(m, p);
    case Flush => SendNowInv(m);
    case SetSecurity(b) => SetSecurityInv(m, b);
    case Layer(x) => LayerLegal(m, x); LayerInv(m, x);
  }

  lemma SetSecurityInv(m: Mesh, enabled: bool)
    requires MeshInv(m)
    ensures MeshInv(m.(secEnabled := enabled))
  {
    hide Inv, Queued, AllMet, SamePacket, CallsFor;
  }

  lemma LayerLegal(m: Mesh, e: Event)
    requires MeshLegal(m, Layer(e))
    ensures Legal(m.nwk, e) && !Submits(e, BUF_ID)
  {
  }

  // ---- whole runs ----

  function MeshRun(m: Mesh, events: seq<MeshEvent>): Mesh
    decreases |events|
  {
    if events == [] then m else MeshRun(MeshStep(m, events[0]), events[1..])
  }

  predicate MeshLegalRun(m: Mesh, events: seq<MeshEvent>)
    decreases |events|
  {
    events == [] ||
    (MeshLegal(m, events[0]) && (events[0].Send? ==> UserPacket(events[0].packet)) &&
     MeshLegalRun(MeshStep(m, events[0]), events[1..]))
  }

  /** What the send queue promises at any time. */
  ghost predicate Delivery(m: Mesh) {
    // handed over at most once, in the order of acceptance, with their own contents
    |m.handed| <= |m.accepted| &&
    (forall i | 0 <= i < |m.handed| :: SamePacket(m.handed[i], m.accepted[i])) &&
    // nothing is lost: what was accepted and not handed over is waiting
    m.accepted[|m.handed|..] == m.tx &&
    // at most one packet is under way, and it is the one in the static packet
    m.completed <= m.handed && |m.handed| == |m.completed| + (if m.txBusy then 1 else 0) &&
    (m.txBusy ==> m.handed[|m.completed|].content == m.bufPacket.(confirm := m.txUserConfirm)) &&
    // each packet meets with one outcome, between its handing over and its completion
    |m.completed| <= |m.outcomes| <= |m.handed| &&
    // every callback ran once, for its own packet, with the outcome of its own transmission
    m.calls == CallsFor(m.completed, m.outcomes)
  }

  lemma AcceptedByUser(m: Mesh, e: MeshEvent)
    requires AllByUsers(m) && (e.Send? ==> UserPacket(e.packet))
    ensures AllByUsers(MeshStep(m, e))
  {
  }

  lemma InvDelivers(m: Mesh)
    requires MeshInv(m)
    ensures Delivery(m)
  {
    hide Inv, Queued, SamePacket, CallsFor, AllMet;
  }

  /** Over every run of the send queue and the network layer below it. */
  lemma {:induction false} RunDelivers(m: Mesh, events: seq<MeshEvent>)
    requires MeshInv(m) && MeshLegalRun(m, events) && AllByUsers(m)
    ensures MeshInv(MeshRun(m, events)) && Delivery(MeshRun(m, events))
    decreases |events|
  {
    hide MeshInv, Delivery, MeshStep, UserPacket, AllByUsers, MeshLegal;
    InvDelivers(m);
    if events != [] {
      MeshStepInv(m, events[0]);
      AcceptedByUser(m, events[0]);
      RunDelivers(MeshStep(m, events[0]), events[1..]);
    }
  }

  /** Outcomes are recorded as they come: the report on the frame allocated for the packet under way, or
      the lack of a frame, with the control field as it was sent. */
  lemma OutcomesAreOwn(m: Mesh, e: MeshEvent)
    requires MeshInv(m) && MeshLegal(m, e)
    ensures var t := MeshStep(m, e);
      t.outcomes == m.outcomes + (if e.Layer? then One(OutcomeOf(m.nwk, e.event, BUF_ID)) else [])
    ensures e.Layer? && e.event.TaskHandler? && OutcomeOf(m.nwk, e.event, BUF_ID).Some? ==>
      m.txBusy &&
      OutcomeOf(m.nwk, e.event, BUF_ID) == Some(Outcome(OUT_OF_MEMORY_STATUS, m.handed[|m.completed|].control))
  {
    hide Inv, Step, FirstReady, FirstFree, SamePacket, CallsFor;
    if e.Layer? && e.event.TaskHandler? && OutcomeOf(m.nwk, e.event, BUF_ID).Some? {
      assert m.nwk.queue[FirstReady(m.nwk.queue)].id == BUF_ID;
    }
  }
}
