/** The network layer's outgoing data requests and frame pool as a state machine. */
module NwkModel {
  import opened Wrappers

  datatype ReqState = Initial | WaitConf | Confirm

  const SUCCESS_STATUS: nat := 0x00
  const OUT_OF_MEMORY_STATUS: nat := 0x02
  const LOCK_MODULUS: nat := 0x1_0000

  /** A request is named by its address. `frame` is the index of the frame last allocated for the request; it is
      never cleared on confirmation. */
  datatype Req = Req(id: nat, state: ReqState, status: nat, control: nat, frame: Option<nat>)

  /** A frame in use either has no confirmation callback (None) or reports to `nwkDataReqTxConf`; then
      `owner` records for which request it was allocated. */
  datatype Frame = Free | Busy(owner: Option<nat>)

  datatype Nwk = Nwk(queue: seq<Req>, frames: seq<Frame>, phyActive: bool, lock: nat)

  function Inc(lock: nat): nat { (lock + 1) % LOCK_MODULUS }

  function Dec(lock: nat): nat { (lock + LOCK_MODULUS - 1) % LOCK_MODULUS }

  // ---- steps ----

  /** Position of the first free frame, or the number of frames. */
  function FirstFree(frames: seq<Frame>): (f: nat)
    ensures f <= |frames| && (f < |frames| ==> frames[f].Free?)
    ensures forall g | 0 <= g < f :: frames[g].Busy?
  {
    if frames == [] || frames[0].Free? then 0 else 1 + FirstFree(frames[1..])
  }

  /** Allocates a frame and hands it to the transmitter; unchanged when none is free. */
  function Allocate(s: Nwk, owner: Option<nat>): Nwk {
    var f := FirstFree(s.frames);
    if f == |s.frames| then s else s.(frames := s.frames[f := Busy(owner)], lock := Inc(s.lock))
  }

  function Submit(s: Nwk, id: nat, control: nat): Nwk {
    s.(queue := [Req(id, Initial, SUCCESS_STATUS, control, None)] + s.queue, lock := Inc(s.lock))
  }

  function SendFrame(s: Nwk, i: nat): Nwk
    requires i < |s.queue|
  {
    var r := s.queue[i];
    var f := FirstFree(s.frames);
    if f == |s.frames| then
      s.(queue := s.queue[i := r.(state := Confirm, status := OUT_OF_MEMORY_STATUS)])
    else
      Allocate(s, Some(r.id)).(queue := s.queue[i := r.(state := WaitConf, frame := Some(f))])
  }

  /** Position of the first request that carries this frame pointer, or the length of the queue. */
  function FirstWith(queue: seq<Req>, f: nat): (i: nat)
    ensures i <= |queue| && (i < |queue| ==> queue[i].frame == Some(f))
    ensures forall j | 0 <= j < i :: queue[j].frame != Some(f)
  {
    if queue == [] || queue[0].frame == Some(f) then 0 else 1 + FirstWith(queue[1..], f)
  }

  lemma FirstWithIs(queue: seq<Req>, f: nat, i: nat)
    requires i <= |queue| && (i < |queue| ==> queue[i].frame == Some(f))
    requires forall j | 0 <= j < i :: queue[j].frame != Some(f)
    ensures FirstWith(queue, f) == i
  {
    var k := FirstWith(queue, f);
    assert k < |queue| ==> queue[k].frame == Some(f);
  }

  function FreeFrame(s: Nwk, f: nat): Nwk
    requires f < |s.frames|
  {
    s.(frames := s.frames[f := Free], lock := Dec(s.lock))
  }

  function TxConf(s: Nwk, f: nat, status: nat, control: nat): Nwk
    requires f < |s.frames|
  {
    var i := FirstWith(s.queue, f);
    var t := if i == |s.queue| then s
             else s.(queue := s.queue[i := s.queue[i].(status := status, control := control, state := Confirm)]);
    FreeFrame(t, f)
  }

  /** The transmitter is done with frame `f`. */
  function TxDone(s: Nwk, f: nat, status: nat, control: nat): Nwk
    requires f < |s.frames|
  {
    if s.frames[f] == Free then s
    else if s.frames[f].owner == None then FreeFrame(s, f)
    else TxConf(s, f, status, control)
  }

  /** Position of the first request that is not waiting, or the length of the queue. */
  function FirstReady(queue: seq<Req>): (i: nat)
    ensures i <= |queue| && (i < |queue| ==> queue[i].state != WaitConf)
    ensures forall j | 0 <= j < i :: queue[j].state == WaitConf
  {
    if queue == [] || queue[0].state != WaitConf then 0 else 1 + FirstReady(queue[1..])
  }

  lemma FirstReadyIs(queue: seq<Req>, i: nat)
    requires i <= |queue| && (i < |queue| ==> queue[i].state != WaitConf)
    requires forall j | 0 <= j < i :: queue[j].state == WaitConf
    ensures FirstReady(queue) == i
  {
    var k := FirstReady(queue);
    assert k < |queue| ==> queue[k].state != WaitConf;
  }

  function Unlink(s: Nwk, i: nat): Nwk
    requires i < |s.queue|
  {
    s.(queue := s.queue[..i] + s.queue[i + 1..], lock := Dec(s.lock))
  }

  /** `nwkDataReqTaskHandler`: new state and the request confirmed to the application, if any. */
  function Task(s: Nwk): (Nwk, Option<Req>) {
    var i := FirstReady(s.queue);
    if i == |s.queue| then (s, None)
    else if s.queue[i].state == Initial then (SendFrame(s, i), None)
    else (Unlink(s, i), Some(s.queue[i]))
  }

  /** The transmitter, the radio and the other users of the frame pool are steps that may happen at any time. */
  datatype Event =
    | DataReq(id: nat, control: nat)   // `control` is what the request happens to hold
    | TaskHandler
    | Transmitted(frame: nat, status: nat, control: nat)
    | OtherFrame                 // a frame allocated by another module
    | PhyStart                   // the radio takes a frame
    | PhyDone

  function Step(s: Nwk, e: Event): (Nwk, Option<Req>) {
    match e
    case DataReq(id, control) => (Submit(s, id, control), None)
    case TaskHandler => Task(s)
    case Transmitted(f, status, control) =>
      (if f < |s.frames| then TxDone(s, f, status, control) else s, None)
    case OtherFrame => (Allocate(s, None), None)
    case PhyStart => (if s.phyActive then s else s.(phyActive := true, lock := Inc(s.lock)), None)
    case PhyDone => (if s.phyActive then s.(phyActive := false, lock := Dec(s.lock)) else s, None)
  }

  predicate Has(queue: seq<Req>, id: nat) { exists i | 0 <= i < |queue| :: queue[i].id == id }

  predicate Queued(s: Nwk, id: nat) { Has(s.queue, id) }

  predicate Submits(e: Event, id: nat) { e.DataReq? && e.id == id }

  /** A request may be submitted only while it is not in the list. */
  predicate Legal(s: Nwk, e: Event) { e.DataReq? ==> !Queued(s, e.id) }

  // ---- invariant ----

  function BusyFrames(frames: seq<Frame>): nat {
    if frames == [] then 0 else (if frames[0].Busy? then 1 else 0) + BusyFrames(frames[1..])
  }

  /** Everything the lock counter stands for. */
  function Pending(s: Nwk): nat { |s.queue| + BusyFrames(s.frames) + if s.phyActive then 1 else 0 }

  predicate UniqueIds(queue: seq<Req>) {
    forall i, j | 0 <= i < j < |queue| :: queue[i].id != queue[j].id
  }

  predicate InitialHasNoFrame(queue: seq<Req>) {
    forall i | 0 <= i < |queue| :: queue[i].state == Initial ==> queue[i].frame == None
  }

  /** A waiting request's frame is in use and was allocated for it. */
  predicate WaitingOwns(s: Nwk) {
    forall i | 0 <= i < |s.queue| ::
      s.queue[i].state == WaitConf ==>
      s.queue[i].frame.Some? && s.queue[i].frame.value < |s.frames| &&
      s.frames[s.queue[i].frame.value] == Busy(Some(s.queue[i].id))
  }

  predicate WaitsFor(queue: seq<Req>, i: int, id: nat, f: nat) {
    0 <= i < |queue| && queue[i].id == id && queue[i].state == WaitConf && queue[i].frame == Some(f)
  }

  /** A frame that will be reported is awaited by the request it was allocated for. */
  ghost predicate OwnersWait(s: Nwk) {
    forall f | 0 <= f < |s.frames| :: s.frames[f].Busy? && s.frames[f].owner.Some? ==>
      exists i :: WaitsFor(s.queue, i, s.frames[f].owner.value, f)
  }

  /** No request nearer the head carries the frame pointer of a waiting request. */
  predicate NoStaleAhead(queue: seq<Req>) {
    forall i, j | 0 <= i < j < |queue| :: queue[j].state == WaitConf ==> queue[i].frame != queue[j].frame
  }

  ghost predicate Inv(s: Nwk) {
    UniqueIds(s.queue) && InitialHasNoFrame(s.queue) && WaitingOwns(s) && OwnersWait(s) &&
    NoStaleAhead(s.queue) && s.lock == Pending(s) % LOCK_MODULUS
  }

  lemma {:induction false} BusyUpdate(frames: seq<Frame>, f: nat, x: Frame)
    requires f < |frames|
    ensures BusyFrames(frames[f := x]) ==
            BusyFrames(frames) - (if frames[f].Busy? then 1 else 0) + (if x.Busy? then 1 else 0)
  {
    if f == 0 {
      assert frames[f := x][1..] == frames[1..];
    } else {
      BusyUpdate(frames[1..], f - 1, x);
      assert frames[f := x][1..] == frames[1..][f - 1 := x];
    }
  }

  lemma LockUp(n: nat)
    ensures Inc(n % LOCK_MODULUS) == (n + 1) % LOCK_MODULUS
  {
  }

  lemma LockDown(n: nat)
    requires n > 0
    ensures Dec(n % LOCK_MODULUS) == (n - 1) % LOCK_MODULUS
  {
  }

  lemma InitInv(frames: nat)
    ensures Inv(Nwk([], seq(frames, _ => Free), false, 0))
  {
    AllFree(frames);
  }

  lemma {:induction false} AllFree(n: nat)
    ensures BusyFrames(seq(n, _ => Free)) == 0
  {
    if n > 0 {
      AllFree(n - 1);
      assert seq(n, _ => Free)[1..] == seq(n - 1, _ => Free);
    }
  }

  lemma SubmitInv(s: Nwk, id: nat, control: nat)
    requires Inv(s) && !Queued(s, id)
    ensures Inv(Submit(s, id, control))
  {
    var t := Submit(s, id, control);
    LockUp(Pending(s));
    assert forall i | 0 < i < |t.queue| :: t.queue[i] == s.queue[i - 1];
    forall f | 0 <= f < |s.frames| && s.frames[f].Busy? && s.frames[f].owner.Some?
      ensures exists i :: WaitsFor(t.queue, i, s.frames[f].owner.value, f)
    {
      var i :| WaitsFor(s.queue, i, s.frames[f].owner.value, f);
      assert WaitsFor(t.queue, i + 1, s.frames[f].owner.value, f);
    }
  }

  lemma AllocateInv(s: Nwk)
    requires Inv(s)
    ensures Inv(Allocate(s, None))
  {
    var f := FirstFree(s.frames);
    if f < |s.frames| {
      BusyUpdate(s.frames, f, Busy(None));
      LockUp(Pending(s));
    }
  }

  lemma SendFrameOwners(s: Nwk, i: nat)
    requires Inv(s) && i == FirstReady(s.queue) < |s.queue| && s.queue[i].state == Initial
    ensures OwnersWait(SendFrame(s, i))
  {
    var f := FirstFree(s.frames);
    var t := SendFrame(s, i);
    forall g | 0 <= g < |t.frames| && t.frames[g].Busy? && t.frames[g].owner.Some?
      ensures exists k :: WaitsFor(t.queue, k, t.frames[g].owner.value, g)
    {
      if f < |s.frames| && g == f {
        assert WaitsFor(t.queue, i, s.queue[i].id, f);
      } else {
        var k :| WaitsFor(s.queue, k, s.frames[g].owner.value, g);
        assert WaitsFor(t.queue, k, s.frames[g].owner.value, g);
      }
    }
  }

  /** The request that is sent is the first that is not waiting, so the frames of all requests nearer the
      head are in use and differ from the free frame it gets. */
  lemma SendFrameQueue(s: Nwk, i: nat)
    requires Inv(s) && i == FirstReady(s.queue) < |s.queue| && s.queue[i].state == Initial
    ensures var t := SendFrame(s, i);
      UniqueIds(t.queue) && InitialHasNoFrame(t.queue) && WaitingOwns(t) && NoStaleAhead(t.queue)
  {
    hide OwnersWait, Pending, Inc, FirstFree, FirstReady;
    var f := FirstFree(s.frames);
    var t := SendFrame(s, i);
    assert forall k | 0 <= k < |t.queue| && k != i :: t.queue[k] == s.queue[k];
    if f < |s.frames| {
      assert forall k | 0 <= k < |s.queue| && s.queue[k].state == WaitConf :: s.queue[k].frame != Some(f);
    }
  }

  lemma SendFrameInv(s: Nwk, i: nat)
    requires Inv(s) && i == FirstReady(s.queue) < |s.queue| && s.queue[i].state == Initial
    ensures Inv(SendFrame(s, i))
  {
    SendFrameQueue(s, i);
    SendFrameOwners(s, i);
    hide OwnersWait, UniqueIds, InitialHasNoFrame, WaitingOwns, NoStaleAhead;
    var f := FirstFree(s.frames);
    if f < |s.frames| {
      BusyUpdate(s.frames, f, Busy(Some(s.queue[i].id)));
      LockUp(Pending(s));
    }
  }

  /** A transmit confirmation reaches the request the frame was allocated for, although stale frame
      pointers of finished requests are still in the list. */
  lemma ConfirmationReachesOwner(s: Nwk, f: nat)
    requires Inv(s) && f < |s.frames| && s.frames[f].Busy? && s.frames[f].owner.Some?
    ensures var i := FirstWith(s.queue, f);
      i < |s.queue| && s.queue[i].id == s.frames[f].owner.value && s.queue[i].state == WaitConf
  {
    var k :| WaitsFor(s.queue, k, s.frames[f].owner.value, f);
    var i := FirstWith(s.queue, f);
    assert i <= k;
  }

  /** Setting free a frame nobody waits for, after its owner (if any) has been told. */
  lemma FreeFrameInv(s: Nwk, f: nat)
    requires UniqueIds(s.queue) && InitialHasNoFrame(s.queue) && WaitingOwns(s) && NoStaleAhead(s.queue)
    requires f < |s.frames| && s.frames[f].Busy? && s.lock == Pending(s) % LOCK_MODULUS
    requires forall i | 0 <= i < |s.queue| :: s.queue[i].state == WaitConf ==> s.queue[i].frame != Some(f)
    requires forall g | 0 <= g < |s.frames| && g != f :: s.frames[g].Busy? && s.frames[g].owner.Some? ==>
               exists i :: WaitsFor(s.queue, i, s.frames[g].owner.value, g)
    ensures Inv(FreeFrame(s, f))
  {
    BusyUpdate(s.frames, f, Free);
    LockDown(Pending(s));
  }

  lemma TxDoneInv(s: Nwk, f: nat, status: nat, control: nat)
    requires Inv(s) && f < |s.frames|
    ensures Inv(TxDone(s, f, status, control))
  {
    if s.frames[f] == Free {
    } else if s.frames[f].owner == None {
      FreeFrameInv(s, f);
    } else {
      ConfirmationReachesOwner(s, f);
      var i := FirstWith(s.queue, f);
      var t := s.(queue := s.queue[i := s.queue[i].(status := status, control := control, state := Confirm)]);
      forall g | 0 <= g < |s.frames| && g != f && s.frames[g].Busy? && s.frames[g].owner.Some?
        ensures exists k :: WaitsFor(t.queue, k, s.frames[g].owner.value, g)
      {
        var k :| WaitsFor(s.queue, k, s.frames[g].owner.value, g);
        assert WaitsFor(t.queue, k, s.frames[g].owner.value, g);
      }
      assert forall k | 0 <= k < |s.queue| && s.queue[k].state == WaitConf && s.queue[k].frame == Some(f) ::
          s.queue[k].id == s.queue[i].id;
      FreeFrameInv(t, f);
    }
  }

  function Without(queue: seq<Req>, k: nat): (r: seq<Req>)
    requires k < |queue|
    ensures |r| == |queue| - 1 && forall i | 0 <= i < |r| :: r[i] == queue[if i < k then i else i + 1]
  {
    queue[..k] + queue[k + 1..]
  }

  lemma WithoutKeeps(queue: seq<Req>, k: nat)
    requires UniqueIds(queue) && InitialHasNoFrame(queue) && NoStaleAhead(queue) && k < |queue|
    ensures var r := Without(queue, k);
      UniqueIds(r) && InitialHasNoFrame(r) && NoStaleAhead(r)
  {
  }

  lemma UnlinkInv(s: Nwk, i: nat)
    requires Inv(s) && i < |s.queue| && s.queue[i].state == Confirm
    ensures Inv(Unlink(s, i))
  {
    var t := Unlink(s, i);
    LockDown(Pending(s));
    WithoutKeeps(s.queue, i);
    hide UniqueIds, InitialHasNoFrame, NoStaleAhead, BusyFrames;
    assert t.queue == Without(s.queue, i);
    forall g | 0 <= g < |t.frames| && t.frames[g].Busy? && t.frames[g].owner.Some?
      ensures exists k :: WaitsFor(t.queue, k, t.frames[g].owner.value, g)
    {
      var k :| WaitsFor(s.queue, k, s.frames[g].owner.value, g);
      assert WaitsFor(t.queue, if k < i then k else k - 1, s.frames[g].owner.value, g);
    }
  }

  /** Every step keeps the invariant. */
  lemma StepInv(s: Nwk, e: Event)
    requires Inv(s) && Legal(s, e)
    ensures Inv(Step(s, e).0)
  {
    match e
    case DataReq(id, control) => SubmitInv(s, id, control);
    case TaskHandler =>
      var i := FirstReady(s.queue);
      if i < |s.queue| {
        if s.queue[i].state == Initial { SendFrameInv(s, i); } else { UnlinkInv(s, i); }
      }
    case Transmitted(f, status, control) => if f < |s.frames| { TxDoneInv(s, f, status, control); }
    case OtherFrame => AllocateInv(s);
    case PhyStart => LockUp(Pending(s));
    case PhyDone => if s.phyActive { LockDown(Pending(s)); }
  }

  /** What a finished transmission does to the list: the owner alone gets status and control. */
  lemma TransmittedUpdatesOwner(s: Nwk, f: nat, status: nat, control: nat)
    requires Inv(s) && f < |s.frames| && s.frames[f].Busy? && s.frames[f].owner.Some?
    ensures var t := TxDone(s, f, status, control);
      |t.queue| == |s.queue| && Queued(s, s.frames[f].owner.value) &&
      forall i | 0 <= i < |s.queue| ::
        t.queue[i] == if s.queue[i].id == s.frames[f].owner.value
                      then s.queue[i].(status := status, control := control, state := Confirm) else s.queue[i]
  {
    ConfirmationReachesOwner(s, f);
  }

  // ---- what a request is confirmed with ----

  datatype Outcome = Outcome(status: nat, control: nat)

  /** The outcome a step brings for request `id`: the report on the frame allocated for it, or the refusal
      of a frame. */
  function OutcomeOf(s: Nwk, e: Event, id: nat): Option<Outcome> {
    match e
    case Transmitted(f, status, control) =>
      if f < |s.frames| && s.frames[f] == Busy(Some(id)) then Some(Outcome(status, control)) else None
    case TaskHandler =>
      var i := FirstReady(s.queue);
      if i < |s.queue| && s.queue[i].id == id && s.queue[i].state == Initial && FirstFree(s.frames) == |s.frames|
      then Some(Outcome(OUT_OF_MEMORY_STATUS, s.queue[i].control))
      else None
    case _ => None
  }

  /** A request that was submitted with `control` and has met with `out` so far. */
  predicate Met(r: Req, control: nat, out: Option<Outcome>) {
    (r.state == Confirm <==> out.Some?) &&
    match out
    case None => r.control == control
    case Some(o) => r.status == o.status && r.control == o.control
  }

  predicate AllMet(queue: seq<Req>, id: nat, control: nat, out: Option<Outcome>) {
    forall i | 0 <= i < |queue| && queue[i].id == id :: Met(queue[i], control, out)
  }

  function Later(out: Option<Outcome>, o: Option<Outcome>): Option<Outcome> { if o.Some? then o else out }

  lemma SubmittedMeets(s: Nwk, id: nat, control: nat)
    requires !Queued(s, id)
    ensures AllMet(Submit(s, id, control).queue, id, control, None)
  {
    var t := Submit(s, id, control).queue;
    assert forall i | 0 < i < |t| :: t[i] == s.queue[i - 1];
  }

  lemma TaskMeets(s: Nwk, id: nat, control: nat, out: Option<Outcome>)
    requires UniqueIds(s.queue) && AllMet(s.queue, id, control, out)
    ensures var (t, c) := Task(s);
      var o := OutcomeOf(s, TaskHandler, id);
      AllMet(t.queue, id, control, Later(out, o)) &&
      (o.Some? ==> out.None?) && (c.Some? && c.value.id == id ==> out == Some(Outcome(c.value.status, c.value.control)))
  {
    hide FirstReady, FirstFree;
    var i := FirstReady(s.queue);
    if i < |s.queue| && s.queue[i].state != Initial {
      var rest := s.queue[..i] + s.queue[i + 1..];
      assert forall j | 0 <= j < |rest| :: rest[j] == s.queue[if j < i then j else j + 1];
    }
  }

  lemma TransmittedMeets(s: Nwk, e: Event, id: nat, control: nat, out: Option<Outcome>)
    requires Inv(s) && e.Transmitted? && AllMet(s.queue, id, control, out)
    ensures AllMet(Step(s, e).0.queue, id, control, Later(out, OutcomeOf(s, e, id)))
    ensures OutcomeOf(s, e, id).Some? ==> out.None?
  {
    hide Inv, FirstWith, FirstReady;
    if e.frame < |s.frames| && s.frames[e.frame].Busy? && s.frames[e.frame].owner.Some? {
      TransmittedUpdatesOwner(s, e.frame, e.status, e.control);
      OwnerWaits(s, e.frame);
    }
  }

  lemma OwnerWaits(s: Nwk, f: nat)
    requires Inv(s) && f < |s.frames| && s.frames[f].Busy? && s.frames[f].owner.Some?
    ensures exists i :: WaitsFor(s.queue, i, s.frames[f].owner.value, f)
  {
  }

  /** A request meets with one outcome at most, its own, and is confirmed with that. */
  lemma OutcomeReached(s: Nwk, e: Event, id: nat, control: nat, out: Option<Outcome>)
    requires Inv(s) && Legal(s, e) && !Submits(e, id) && AllMet(s.queue, id, control, out)
    ensures var (t, c) := Step(s, e);
      var o := OutcomeOf(s, e, id);
      AllMet(t.queue, id, control, Later(out, o)) &&
      (o.Some? ==> out.None?) && (c.Some? && c.value.id == id ==> out == Some(Outcome(c.value.status, c.value.control)))
  {
    hide Inv, AllMet, Task;
    match e
    case DataReq(other, c) => FirstMeets(Req(other, Initial, SUCCESS_STATUS, c, None), s.queue, id, control, out);
    case TaskHandler =>
      InvUnique(s);
      TaskMeets(s, id, control, out);
    case Transmitted(_, _, _) => TransmittedMeets(s, e, id, control, out);
    case _ =>
  }

  /** Nothing is reported about a request that is not in the list. */
  lemma NoOutcome(s: Nwk, e: Event, id: nat)
    requires Inv(s) && !Queued(s, id)
    ensures OutcomeOf(s, e, id) == None
  {
    if e.Transmitted? && e.frame < |s.frames| && s.frames[e.frame] == Busy(Some(id)) {
      OwnerWaits(s, e.frame);
    }
  }

  lemma FirstMeets(r: Req, queue: seq<Req>, id: nat, control: nat, out: Option<Outcome>)
    requires r.id != id && AllMet(queue, id, control, out)
    ensures AllMet([r] + queue, id, control, out)
  {
  }

  lemma InvUnique(s: Nwk)
    requires Inv(s)
    ensures UniqueIds(s.queue)
  {
  }

  lemma {:induction false} BusyZero(frames: seq<Frame>)
    ensures BusyFrames(frames) == 0 <==> forall f | 0 <= f < |frames| :: frames[f] == Free
  {
    if frames != [] {
      BusyZero(frames[1..]);
      assert forall f | 0 < f < |frames| :: frames[f] == frames[1..][f - 1];
    }
  }

  /** `NWK_Busy` tells the truth: the counter is zero exactly when nothing is pending (it has 16 bits). */
  lemma LockZeroIffIdle(s: Nwk)
    requires Inv(s) && Pending(s) < 0x1_0000
    ensures s.lock == 0 <==>
            s.queue == [] && !s.phyActive && forall f | 0 <= f < |s.frames| :: s.frames[f] == Free
  {
    BusyZero(s.frames);
  }

  // ---- whole runs ----

  /** Final state and the requests confirmed on the way, in order. */
  function Run(s: Nwk, events: seq<Event>): (Nwk, seq<Req>)
    decreases |events|
  {
    if events == [] then (s, [])
    else
      var (t, c) := Step(s, events[0]);
      var (u, cs) := Run(t, events[1..]);
      (u, (if c.Some? then [c.value] else []) + cs)
  }

  predicate LegalRun(s: Nwk, events: seq<Event>)
    decreases |events|
  {
    events == [] || (Legal(s, events[0]) && LegalRun(Step(s, events[0]).0, events[1..]))
  }

  function Submissions(events: seq<Event>, id: nat): nat {
    if events == [] then 0 else (if Submits(events[0], id) then 1 else 0) + Submissions(events[1..], id)
  }

  function Confirmations(confirmed: seq<Req>, id: nat): nat {
    if confirmed == [] then 0 else (if confirmed[0].id == id then 1 else 0) + Confirmations(confirmed[1..], id)
  }

  function InList(s: Nwk, id: nat): nat { if Queued(s, id) then 1 else 0 }

  lemma HasFirst(r: Req, queue: seq<Req>, id: nat)
    ensures Has([r] + queue, id) == (r.id == id || Has(queue, id))
  {
    assert ([r] + queue)[0] == r;
    assert forall i | 0 <= i < |queue| :: queue[i] == ([r] + queue)[i + 1];
  }

  lemma HasOthers(queue: seq<Req>, k: nat, id: nat)
    requires UniqueIds(queue) && k < |queue|
    ensures Has(queue[..k] + queue[k + 1..], id) == (Has(queue, id) && queue[k].id != id)
  {
    var rest := queue[..k] + queue[k + 1..];
    if Has(rest, id) {
      var i :| 0 <= i < |rest| && rest[i].id == id;
      assert queue[if i < k then i else i + 1].id == id;
    }
    if Has(queue, id) && queue[k].id != id {
      var i :| 0 <= i < |queue| && queue[i].id == id;
      assert rest[if i < k then i else i - 1].id == id;
    }
  }

  predicate SameIds(q: seq<Req>, r: seq<Req>) {
    |q| == |r| && forall i | 0 <= i < |q| :: r[i].id == q[i].id
  }

  lemma HasSame(q: seq<Req>, r: seq<Req>, id: nat)
    requires SameIds(q, r)
    ensures Has(q, id) == Has(r, id)
  {
    if Has(q, id) {
      var i :| 0 <= i < |q| && q[i].id == id;
      assert r[i].id == id;
    }
    if Has(r, id) {
      var i :| 0 <= i < |r| && r[i].id == id;
      assert q[i].id == id;
    }
  }

  /** How one step changes the list: a new first element, one element taken out, or the same requests. */
  lemma StepShape(s: Nwk, e: Event)
    ensures var (t, c) := Step(s, e);
      match e
      case DataReq(id, control) => t.queue == [Req(id, Initial, SUCCESS_STATUS, control, None)] + s.queue && c == None
      case TaskHandler =>
        if c.Some? then
          var k := FirstReady(s.queue);
          k < |s.queue| && c.value == s.queue[k] && t.queue == s.queue[..k] + s.queue[k + 1..]
        else SameIds(s.queue, t.queue)
      case _ => SameIds(s.queue, t.queue) && c == None
  {
  }

  lemma QueuedAfter(s: Nwk, e: Event, id: nat)
    requires UniqueIds(s.queue) && Legal(s, e)
    ensures var (t, c) := Step(s, e);
      InList(s, id) + (if Submits(e, id) then 1 else 0) ==
      InList(t, id) + (if c.Some? && c.value.id == id then 1 else 0)
  {
    hide Has;
    StepShape(s, e);
    var (t, c) := Step(s, e);
    if e.DataReq? {
      HasFirst(t.queue[0], s.queue, id);
    } else if c.Some? {
      HasOthers(s.queue, FirstReady(s.queue), id);
      ConfirmedWasQueued(s.queue, FirstReady(s.queue));
    } else {
      HasSame(s.queue, t.queue, id);
    }
  }

  lemma ConfirmedWasQueued(queue: seq<Req>, k: nat)
    ensures k < |queue| ==> Has(queue, queue[k].id)
  {
  }

  /** Over every run the invariant holds at the end, only finished requests are confirmed, and every
      submission of a request is confirmed exactly once or still in the list. */
  lemma {:induction false} RunKeepsRequests(s: Nwk, events: seq<Event>, id: nat)
    requires Inv(s) && LegalRun(s, events)
    ensures var (t, confirmed) := Run(s, events);
      Inv(t) &&
      (forall i | 0 <= i < |confirmed| :: confirmed[i].state == Confirm) &&
      InList(s, id) + Submissions(events, id) == InList(t, id) + Confirmations(confirmed, id)
    decreases |events|
  {
    if events != [] {
      StepInv(s, events[0]);
      StepShape(s, events[0]);
      QueuedAfter(s, events[0], id);
      var (t, c) := Step(s, events[0]);
      RunKeepsRequests(t, events[1..], id);
      var cs := Run(t, events[1..]).1;
      if c.Some? {
        assert ([c.value] + cs)[1..] == cs;
      } else {
        assert [] + cs == cs;
      }
    }
  }

  predicate Before(queue: seq<Req>, a: nat, b: nat) {
    exists i, j | 0 <= i < j < |queue| :: queue[i].id == a && queue[j].id == b
  }

  lemma BeforeFirst(r: Req, queue: seq<Req>, a: nat, b: nat)
    requires Before(queue, a, b)
    ensures Before([r] + queue, a, b)
  {
    var i, j :| 0 <= i < j < |queue| && queue[i].id == a && queue[j].id == b;
    assert ([r] + queue)[i + 1].id == a && ([r] + queue)[j + 1].id == b;
  }

  lemma BeforeOthers(queue: seq<Req>, k: nat, a: nat, b: nat)
    requires Before(queue, a, b) && k < |queue| && queue[k].id != a && queue[k].id != b
    ensures Before(queue[..k] + queue[k + 1..], a, b)
  {
    var i, j :| 0 <= i < j < |queue| && queue[i].id == a && queue[j].id == b;
    var rest := queue[..k] + queue[k + 1..];
    var i', j' := if i < k then i else i - 1, if j < k then j else j - 1;
    assert rest[i'].id == a && rest[j'].id == b;
  }

  lemma BeforeSame(queue: seq<Req>, other: seq<Req>, a: nat, b: nat)
    requires Before(queue, a, b) && SameIds(queue, other)
    ensures Before(other, a, b)
  {
    var i, j :| 0 <= i < j < |queue| && queue[i].id == a && queue[j].id == b;
    assert other[i].id == a && other[j].id == b;
  }

  /** One step leaves the other requests in their order. */
  lemma OrderKept(s: Nwk, e: Event, a: nat, b: nat)
    requires Before(s.queue, a, b)
    requires var c := Step(s, e).1; c.Some? ==> c.value.id != a && c.value.id != b
    ensures Before(Step(s, e).0.queue, a, b)
  {
    hide Step, Before, SameIds;
    StepShape(s, e);
    var (t, c) := Step(s, e);
    if e.DataReq? {
      BeforeFirst(t.queue[0], s.queue, a, b);
    } else if c.Some? {
      BeforeOthers(s.queue, FirstReady(s.queue), a, b);
    } else {
      BeforeSame(s.queue, t.queue, a, b);
    }
  }
}
