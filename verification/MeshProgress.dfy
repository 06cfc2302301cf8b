/** What the send queue gets done: packets are handed over as secured as the switch says, and all delivered. */
module MeshProgress {
  import opened Wrappers
  import opened NwkModel
  import opened MeshModel

  // ---- handing over ----

  /** Bit 1 of the options asks for security. */
  predicate AsksSecurity(c: Content) { c.options & 2 != 0 }

  /** `q` is the accepted packet `p`, secured if and only if the switch was on. */
  predicate HandedAs(p: Packet, q: Packet, on: bool) {
    q.control == p.control && q.content == p.content.(options := q.content.options) &&
    q.content.options & 0xFD == p.content.options & 0xFD && AsksSecurity(q.content) == on
  }

  lemma SecuredAs(p: Packet, on: bool)
    ensures HandedAs(p, Secured(p, on), on)
  {
  }

  predicate CanHandOver(m: Mesh) { m.tx != [] && !m.txBusy && m.nwk.lock == 0 }

  /** A packet is handed over whenever one waits, none is under way and the network layer is idle, and never
      otherwise: the oldest one, in the static packet, with the security bit as the switch says. */
  lemma HandOverIff(m: Mesh)
    ensures var t := SendNow(m);
      if CanHandOver(m) then
        |t.handed| == |m.handed| + 1 && t.handed[..|m.handed|] == m.handed &&
        HandedAs(m.tx[0], t.handed[|m.handed|], m.secEnabled) &&
        t.bufPacket == t.handed[|m.handed|].content.(confirm := TxConfirm) &&
        AsksSecurity(t.bufPacket) == m.secEnabled &&
        t.txUserConfirm == m.tx[0].content.confirm && t.tx == m.tx[1..] && t.txBusy &&
        t.nwk.queue == [Req(BUF_ID, Initial, SUCCESS_STATUS, m.tx[0].control, None)] + m.nwk.queue
      else t == m
  {
    if CanHandOver(m) {
      SecuredAs(m.tx[0], m.secEnabled);
      hide SecuredContent;
    }
  }

  /** A packet is accepted while fewer than eight wait, and then waits behind them. */
  lemma SendAccepts(m: Mesh, p: Packet)
    ensures var t := SendPacket(m, p);
      if |m.tx| < 8 then t.tx == m.tx + [p] && t.accepted == m.accepted + [p] else t == m
  {
  }

  /** The switch at each hand-over of a run, beginning with `on`. */
  function Switches(m: Mesh, on: bool, events: seq<MeshEvent>): seq<bool>
    decreases |events|
  {
    if events == [] then []
    else
      (if events[0].Flush? && CanHandOver(m) then [on] else []) +
      Switches(MeshStep(m, events[0]), if events[0].SetSecurity? then events[0].enabled else on, events[1..])
  }

  lemma HandedGrows(m: Mesh, e: MeshEvent)
    ensures var t := MeshStep(m, e);
      if e.Flush? && CanHandOver(m) then |t.handed| == |m.handed| + 1 && t.handed[..|m.handed|] == m.handed
      else t.handed == m.handed
    ensures MeshStep(m, e).secEnabled == if e.SetSecurity? then e.enabled else m.secEnabled
  {
    hide Step, OutcomeOf, SecuredContent;
    if e.Flush? { HandOverIff(m); }
  }

  /** Over every run each packet handed over asks for security exactly if the switch was on at that moment. */
  lemma {:induction false} RunSecures(m: Mesh, events: seq<MeshEvent>)
    ensures var sw, t := Switches(m, m.secEnabled, events), MeshRun(m, events);
      |t.handed| == |m.handed| + |sw| && t.handed[..|m.handed|] == m.handed &&
      forall i | 0 <= i < |sw| :: AsksSecurity(t.handed[|m.handed| + i].content) == sw[i]
    decreases |events|
  {
    hide MeshStep, SendNow, AsksSecurity;
    if events != [] {
      var u := MeshStep(m, events[0]);
      HandedGrows(m, events[0]);
      RunSecures(u, events[1..]);
      var t := MeshRun(m, events);
      assert t.handed[..|m.handed|] == t.handed[..|u.handed|][..|m.handed|];
      if events[0].Flush? && CanHandOver(m) {
        FlushSecures(m);
        assert t.handed[|m.handed|] == t.handed[..|u.handed|][|m.handed|];
        var more := Switches(u, u.secEnabled, events[1..]);
        assert Switches(m, m.secEnabled, events) == [m.secEnabled] + more;
      }
    }
  }

  lemma FlushSecures(m: Mesh)
    requires CanHandOver(m)
    ensures var t := MeshStep(m, Flush);
      |t.handed| > |m.handed| && AsksSecurity(t.handed[|m.handed|].content) == m.secEnabled
  {
    HandOverIff(m);
  }

  // ---- delivery ----

  /** Nothing is under way and the network layer has nothing to do. */
  ghost predicate Idle(m: Mesh) {
    !m.txBusy && m.nwk.queue == [] && !m.nwk.phyActive && m.nwk.lock == 0 && |m.nwk.frames| > 0 &&
    forall f | 0 <= f < |m.nwk.frames| :: m.nwk.frames[f] == Free
  }

  /** Hand over, send, report on the frame, confirm. */
  function Round(o: Outcome): seq<MeshEvent> {
    [Flush, Layer(TaskHandler), Layer(Transmitted(0, o.status, o.control)), Layer(TaskHandler)]
  }

  function Rounds(os: seq<Outcome>): seq<MeshEvent> { if os == [] then [] else Round(os[0]) + Rounds(os[1..]) }

  /** The callback owed for the packet `p` when its transmission came to `o`. */
  function CallOf(c: Content, o: Outcome): seq<Call> {
    if c.confirm.User? then [Call(c.confirm.id, c.(confirm := TxConfirm), o.status, o.control)] else []
  }

  lemma SendStep(m: Mesh)
    requires Idle(m) && m.tx != []
    ensures var u := MeshStep(MeshStep(m, Flush), Layer(TaskHandler));
      var t := SendNow(m);
      u == t.(nwk := u.nwk) && u.nwk.lock == 2 && !u.nwk.phyActive &&
      u.nwk.queue == [Req(BUF_ID, WaitConf, SUCCESS_STATUS, m.tx[0].control, Some(0))] &&
      u.nwk.frames == m.nwk.frames[0 := Busy(Some(BUF_ID))]
  {
    hide SecuredContent;
    var t := SendNow(m);
    var r := Req(BUF_ID, Initial, SUCCESS_STATUS, m.tx[0].control, None);
    assert t.nwk.queue == [r];
    assert FirstReady(t.nwk.queue) == 0 && FirstFree(t.nwk.frames) == 0;
    assert [r][0 := r.(state := WaitConf, frame := Some(0))] == [r.(state := WaitConf, frame := Some(0))];
    assert t.outcomes + [] == t.outcomes;
  }

  lemma ReportStep(u: Mesh, control: nat, frames: seq<Frame>, o: Outcome)
    requires u.nwk.queue == [Req(BUF_ID, WaitConf, SUCCESS_STATUS, control, Some(0))] && u.nwk.lock == 2
    requires |frames| > 0 && frames[0] == Free && u.nwk.frames == frames[0 := Busy(Some(BUF_ID))] && !u.nwk.phyActive
    ensures var v := MeshStep(MeshStep(u, Layer(Transmitted(0, o.status, o.control))), Layer(TaskHandler));
      v == Confirmed(u.(nwk := Nwk([], frames, false, 0), outcomes := u.outcomes + [o]), o.status, o.control)
  {
    var r := Req(BUF_ID, WaitConf, SUCCESS_STATUS, control, Some(0));
    var w := MeshStep(u, Layer(Transmitted(0, o.status, o.control)));
    assert FirstWith(u.nwk.queue, 0) == 0;
    var r' := r.(status := o.status, control := o.control, state := Confirm);
    assert [r][0 := r'] == [r'];
    assert w.nwk.queue == [r'] && w.nwk.frames == frames && w.nwk.lock == 1;
    assert FirstReady(w.nwk.queue) == 0;
    assert w.nwk.queue[..0] + w.nwk.queue[1..] == [];
    assert w.outcomes + [] == w.outcomes;
  }

  lemma FirstStep(m: Mesh, e: MeshEvent, more: seq<MeshEvent>)
    ensures MeshRun(m, [e] + more) == MeshRun(MeshStep(m, e), more)
  {
    assert ([e] + more)[1..] == more;
  }

  lemma FourSteps(m: Mesh, a: MeshEvent, b: MeshEvent, c: MeshEvent, d: MeshEvent, more: seq<MeshEvent>)
    ensures MeshRun(m, [a, b, c, d] + more) == MeshRun(MeshStep(MeshStep(MeshStep(MeshStep(m, a), b), c), d), more)
  {
    hide MeshStep, MeshRun;
    assert [a, b, c, d] + more == [a] + ([b] + ([c] + ([d] + more)));
    FirstStep(m, a, [b] + ([c] + ([d] + more)));
    FirstStep(MeshStep(m, a), b, [c] + ([d] + more));
    FirstStep(MeshStep(MeshStep(m, a), b), c, [d] + more);
    FirstStep(MeshStep(MeshStep(MeshStep(m, a), b), c), d, more);
  }

  /** `t` is `m` with its oldest packet delivered. */
  ghost predicate Delivered(m: Mesh, t: Mesh, o: Outcome)
    requires m.tx != []
  {
    var p := Secured(m.tx[0], m.secEnabled);
    Idle(t) && t.tx == m.tx[1..] && t.accepted == m.accepted && t.secEnabled == m.secEnabled &&
    t.handed == m.handed + [p] && t.completed == m.completed + [p] && t.outcomes == m.outcomes + [o] &&
    t.calls == m.calls + CallOf(p.content, o)
  }

  /** One round delivers the oldest packet with the outcome of its transmission, and all is idle again. */
  lemma RoundDelivers(m: Mesh, o: Outcome, more: seq<MeshEvent>)
    requires Idle(m) && m.handed == m.completed && m.tx != []
    ensures exists t :: Delivered(m, t, o) && MeshRun(m, Round(o) + more) == MeshRun(t, more)
  {
    hide MeshStep, SecuredContent;
    SendStep(m);
    var u := MeshStep(MeshStep(m, Flush), Layer(TaskHandler));
    ReportStep(u, m.tx[0].control, m.nwk.frames, o);
    var t := Confirmed(u.(nwk := Nwk([], m.nwk.frames, false, 0), outcomes := u.outcomes + [o]), o.status, o.control);
    FourSteps(m, Flush, Layer(TaskHandler), Layer(Transmitted(0, o.status, o.control)), Layer(TaskHandler), more);
    assert Delivered(m, t, o);
  }

  /** The packets as they are handed over, and the callbacks owed for them. */
  function AllSecured(ps: seq<Packet>, on: bool): seq<Packet> {
    if ps == [] then [] else [Secured(ps[0], on)] + AllSecured(ps[1..], on)
  }

  function CallsOf(ps: seq<Packet>, os: seq<Outcome>): seq<Call>
    requires |ps| == |os|
  {
    if ps == [] then [] else CallOf(ps[0].content, os[0]) + CallsOf(ps[1..], os[1..])
  }

  /** `t` is `m` with the packets `ps` delivered, which were all that waited. */
  ghost predicate AllDone(m: Mesh, t: Mesh, ps: seq<Packet>, os: seq<Outcome>) {
    |ps| == |os| && Idle(t) && t.tx == [] && t.accepted == m.accepted && t.handed == t.completed == m.completed + ps &&
    t.outcomes == m.outcomes + os && t.calls == m.calls + CallsOf(ps, os)
  }

  lemma DoneFirst(m: Mesh, u: Mesh, t: Mesh, o: Outcome, ps: seq<Packet>, os: seq<Outcome>)
    requires m.tx != [] && Delivered(m, u, o) && AllDone(u, t, ps, os)
    ensures AllDone(m, t, [Secured(m.tx[0], m.secEnabled)] + ps, [o] + os)
  {
    hide Idle, SecuredContent, CallOf;
    var p := Secured(m.tx[0], m.secEnabled);
    assert ([p] + ps)[1..] == ps && ([o] + os)[1..] == os;
  }

  lemma SecuredFirst(ps: seq<Packet>, on: bool)
    ensures ps != [] ==> AllSecured(ps, on) == [Secured(ps[0], on)] + AllSecured(ps[1..], on)
    ensures AllSecured([], on) == [] && CallsOf([], []) == []
  {
  }

  lemma {:induction false} RoundsDeliver(m: Mesh, os: seq<Outcome>)
    requires Idle(m) && m.handed == m.completed && |os| == |m.tx|
    ensures AllDone(m, MeshRun(m, Rounds(os)), AllSecured(m.tx, m.secEnabled), os)
    decreases |os|
  {
    hide MeshStep, Secured, Idle, AllSecured, CallsOf, Round;
    SecuredFirst(m.tx, m.secEnabled);
    if os != [] {
      var more := Rounds(os[1..]);
      RoundDelivers(m, os[0], more);
      var u :| Delivered(m, u, os[0]) && MeshRun(m, Round(os[0]) + more) == MeshRun(u, more);
      RoundsDeliver(u, os[1..]);
      var ps := AllSecured(m.tx[1..], m.secEnabled);
      DoneFirst(m, u, MeshRun(u, more), os[0], ps, os[1..]);
      assert [os[0]] + os[1..] == os;
    }
  }

  /** From rest, one round for each waiting packet delivers them all in order, each callback run once with the
      outcome of its round, and leaves the queue empty and at rest. */
  lemma AllDelivered(m: Mesh, os: seq<Outcome>)
    requires MeshInv(m) && Idle(m) && |os| == |m.tx|
    ensures |AllSecured(m.tx, m.secEnabled)| == |os|
    ensures var t, ps := MeshRun(m, Rounds(os)), AllSecured(m.tx, m.secEnabled);
      Idle(t) && t.tx == [] && t.completed == m.completed + ps && |t.completed| == |m.accepted| &&
      t.outcomes == m.outcomes + os && t.calls == m.calls + CallsOf(ps, os)
  {
    hide Inv, Queued, AllMet, SamePacket, CallsFor, AllSecured, CallsOf, MeshRun, Rounds;
    BooksEven(m);
    RoundsDeliver(m, os);
  }
}
