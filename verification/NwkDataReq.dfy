/** The request list and the frame pool as they are in memory: requests linked through `next`, a fixed
    array of frames, one lock counter. Every routine takes the state as `NwkModel` says. */
module NwkDataReq {
  import opened Wrappers
  import opened NwkModel

  class Request {
    const id: nat
    var next: Request?
    var state: ReqState
    var status: nat
    var control: nat
    var frame: Option<nat>

    constructor (id: nat)
      ensures this.id == id
    {
      this.id := id;
      next, state, status, control, frame := null, Initial, 0, 0, None;
    }

    ghost function View(): Req
      reads this`state, this`status, this`control, this`frame
    {
      Req(id, state, status, control, frame)
    }
  }

  ghost function Views(reqs: seq<Request>): (r: seq<Req>)
    reads reqs`state, reqs`status, reqs`control, reqs`frame
    ensures |r| == |reqs| && forall i | 0 <= i < |r| :: r[i] == reqs[i].View()
  {
    if reqs == [] then [] else [reqs[0].View()] + Views(reqs[1..])
  }

  ghost function At(reqs: seq<Request>, i: nat): Request? { if i < |reqs| then reqs[i] else null }

  lemma OnlyAt(q: seq<Req>, r: seq<Req>, i: nat)
    requires |q| == |r| && i < |q| && forall j | 0 <= j < |q| && j != i :: r[j] == q[j]
    ensures r == q[i := r[i]]
  {
  }

  ghost predicate Distinct(reqs: seq<Request>) {
    forall i, j | 0 <= i < j < |reqs| :: reqs[i] != reqs[j]
  }

  lemma DistinctWithout(reqs: seq<Request>, k: nat)
    requires Distinct(reqs) && k < |reqs|
    ensures Distinct(reqs[..k] + reqs[k + 1..])
  {
    var rest := reqs[..k] + reqs[k + 1..];
    assert forall i | 0 <= i < |rest| :: rest[i] == reqs[if i < k then i else i + 1];
  }

  lemma DistinctFirst(req: Request, reqs: seq<Request>)
    requires Distinct(reqs) && req !in reqs
    ensures Distinct([req] + reqs)
  {
  }

  lemma ViewsFirst(req: Request, reqs: seq<Request>)
    ensures Views([req] + reqs) == [req.View()] + Views(reqs)
  {
    hide Views;
  }

  lemma ViewsWithout(reqs: seq<Request>, k: nat)
    requires k < |reqs|
    ensures Views(reqs[..k] + reqs[k + 1..]) == Views(reqs)[..k] + Views(reqs)[k + 1..]
  {
    hide Views;
  }

  class NwkLayer {
    var queue: Request?
    const frames: array<Frame>
    var phyActive: bool
    var lock: nat
    ghost var reqs: seq<Request>

    /** `reqs` are the linked requests from the head on, each of them once. */
    ghost predicate Linked()
      reads this`queue, this`reqs, reqs`next
    {
      queue == At(reqs, 0) &&
      (forall i | 0 <= i < |reqs| :: reqs[i].next == At(reqs, i + 1)) &&
      Distinct(reqs)
    }

    lemma Links(i: nat)
      requires Linked()
      ensures queue == At(reqs, 0)
      ensures i < |reqs| ==> reqs[i].next == At(reqs, i + 1)
      ensures forall j | 0 <= j < |reqs| && i < |reqs| && j != i :: reqs[j] != reqs[i]
    {
    }

    ghost function State(): Nwk
      reads this, reqs, frames
    {
      Nwk(Views(reqs), frames[..], phyActive, lock)
    }

    constructor (buffers: nat)
      ensures Linked() && State() == Nwk([], seq(buffers, _ => Free), false, 0)
      ensures fresh(frames) && reqs == []
    {
      frames := new Frame[buffers](_ => Free);
      queue, phyActive, lock, reqs := null, false, 0, [];
    }

    method IsBusy() returns (busy: bool)
      ensures busy == (State().lock > 0)
    {
      busy := lock > 0;
    }

    /** `NWK_DataReq`. */
    method DataReq(req: Request)
      requires Linked() && req !in reqs
      modifies this, req
      ensures Linked() && reqs == [req] + old(reqs)
      ensures State() == Submit(old(State()), req.id, old(req.control))
    {
      hide Linked, Views;
      req.state, req.status, req.frame := Initial, SUCCESS_STATUS, None;
      lock := Inc(lock);
      ViewsFirst(req, reqs);
      Push(req);
    }

    /** Puts `req` in front of the list. */
    method Push(req: Request)
      requires Linked() && req !in reqs
      modifies this`queue, this`reqs, req`next
      ensures Linked() && reqs == [req] + old(reqs)
    {
      hide Distinct;
      DistinctFirst(req, reqs);
      req.next := queue;
      queue := req;
      reqs := [req] + reqs;
      assert reqs[1..] == old(reqs);
    }

    /** `nwkFrameAlloc`: counts the frame but leaves its state free; `TxFrame` marks it. */
    method FrameAlloc() returns (frame: Option<nat>)
      modifies this`lock
      ensures var f := FirstFree(frames[..]);
        frame == (if f < frames.Length then Some(f) else None) &&
        lock == if f < frames.Length then Inc(old(lock)) else old(lock)
    {
      var i := 0;
      while i < frames.Length
        invariant i <= frames.Length && forall g | 0 <= g < i :: frames[g].Busy?
      {
        if frames[i].Free? {
          lock := Inc(lock);
          return Some(i);
        }
        i := i + 1;
      }
      return None;
    }

    /** `nwkTxFrame`, as far as the pool is concerned. */
    method TxFrame(frame: nat, owner: Option<nat>)
      requires frame < frames.Length
      modifies frames
      ensures frames[..] == old(frames[..])[frame := Busy(owner)]
    {
      frames[frame] := Busy(owner);
    }

    method FrameFree(frame: nat)
      requires frame < frames.Length
      modifies frames, this`lock
      ensures frames[..] == old(frames[..])[frame := Free] && lock == Dec(old(lock))
    {
      frames[frame] := Free;
      lock := Dec(lock);
    }

    /** A route error, acknowledgement, broadcast copy or received frame. */
    method OtherFrame()
      requires Linked()
      modifies this`lock, frames
      ensures Linked() && State() == Allocate(old(State()), None)
    {
      var f := FrameAlloc();
      if f.Some? { TxFrame(f.value, None); }
    }

    /** Updates the fields of one linked request. */
    method Mark(req: Request, ghost i: nat, state: ReqState, status: nat, control: nat, frame: Option<nat>)
      requires Linked() && i < |reqs| && reqs[i] == req
      modifies req`state, req`status, req`control, req`frame
      ensures Linked() && Views(reqs) == old(Views(reqs))[i := Req(req.id, state, status, control, frame)]
    {
      req.state, req.status, req.control, req.frame := state, status, control, frame;
      hide Views;
      OnlyAt(old(Views(reqs)), Views(reqs), i);
    }

    /** `nwkDataReqSendFrame`. */
    method SendFrame(req: Request, ghost i: nat)
      requires Linked() && i < |reqs| && reqs[i] == req
      modifies this`lock, frames, req`state, req`status, req`control, req`frame
      ensures Linked() && State() == NwkModel.SendFrame(old(State()), i)
    {
      hide Views, FirstFree, Linked;
      var frame := FrameAlloc();
      if frame.None? {
        Mark(req, i, Confirm, OUT_OF_MEMORY_STATUS, req.control, req.frame);
      } else {
        Mark(req, i, WaitConf, req.status, req.control, frame);
        TxFrame(frame.value, Some(req.id));
      }
    }

    /** The loop of `nwkDataReqTxConf`: the first request that carries this frame pointer. */
    method RequestWith(frame: nat) returns (req: Request?, ghost i: nat)
      requires Linked()
      ensures i == FirstWith(Views(reqs), frame) && req == At(reqs, i)
    {
      hide Views, FirstWith, Linked;
      i := 0;
      Links(0);
      req := queue;
      while req != null && req.frame != Some(frame)
        invariant i <= |reqs| && req == At(reqs, i)
        invariant forall j | 0 <= j < i :: Views(reqs)[j].frame != Some(frame)
        decreases |reqs| - i
      {
        Links(i);
        req, i := req.next, i + 1;
      }
      FirstWithIs(Views(reqs), frame, i);
    }

    /** `nwkDataReqTxConf`. */
    method TxConf(frame: nat, status: nat, control: nat)
      requires Linked() && frame < frames.Length
      modifies this`lock, frames, reqs`state, reqs`status, reqs`control, reqs`frame
      ensures Linked() && State() == NwkModel.TxConf(old(State()), frame, status, control)
    {
      hide Views, FirstWith, Linked;
      var req, i := RequestWith(frame);
      if req != null {
        assert Views(reqs)[i] == req.View();
        Mark(req, i, Confirm, status, control, req.frame);
      }
      FrameFree(frame);
    }

    /** The part of `nwkTxTaskHandler` that finishes a frame. */
    method Transmitted(frame: nat, status: nat, control: nat)
      requires Linked() && frame < frames.Length
      modifies this`lock, frames, reqs`state, reqs`status, reqs`control, reqs`frame
      ensures Linked() && State() == TxDone(old(State()), frame, status, control)
    {
      match frames[frame]
      case Free =>
      case Busy(None) => FrameFree(frame);
      case Busy(Some(_)) => TxConf(frame, status, control);
    }

    /** The loop of `nwkDataReqConfirm`: the request whose `next` is `req`. */
    method Predecessor(req: Request, ghost k: nat) returns (prev: Request)
      requires Linked() && 0 < k < |reqs| && reqs[k] == req
      ensures prev == reqs[k - 1]
    {
      prev := queue;
      ghost var i := 0;
      while prev.next != req
        invariant i < k && prev == reqs[i]
        decreases k - i
      {
        prev, i := prev.next, i + 1;
      }
    }

    method CutFirst()
      requires Linked() && reqs != []
      modifies this`queue, this`reqs
      ensures Linked() && reqs == old(reqs)[1..]
    {
      queue := queue.next;
      reqs := reqs[1..];
    }

    method CutAfter(prev: Request, ghost k: nat)
      requires Linked() && 0 < k < |reqs| && prev == reqs[k - 1]
      modifies prev`next, this`reqs
      ensures Linked() && reqs == old(reqs)[..k] + old(reqs)[k + 1..]
    {
      DistinctWithout(reqs, k);
      assert forall i | 0 <= i < |reqs| && i != k - 1 :: reqs[i] != prev;
      hide Distinct;
      prev.next := prev.next.next;
      reqs := reqs[..k] + reqs[k + 1..];
    }

    /** Takes `req` out of the list. */
    method Cut(req: Request, ghost k: nat)
      requires Linked() && k < |reqs| && reqs[k] == req
      modifies this`queue, this`reqs, reqs`next
      ensures Linked() && reqs == old(reqs)[..k] + old(reqs)[k + 1..]
    {
      hide Linked;
      Links(0);
      Links(k);
      if queue == req {
        assert reqs[..k] + reqs[k + 1..] == reqs[1..];
        CutFirst();
      } else {
        var prev := Predecessor(req, k);
        CutAfter(prev, k);
      }
    }

    /** `nwkDataReqConfirm` up to the callback. */
    method ConfirmReq(req: Request, ghost k: nat)
      requires Linked() && k < |reqs| && reqs[k] == req
      modifies this`queue, this`lock, this`reqs, reqs`next
      ensures Linked() && reqs == old(reqs)[..k] + old(reqs)[k + 1..]
      ensures State() == Unlink(old(State()), k) && req.View() == old(req.View())
    {
      hide Views, Linked;
      ViewsWithout(reqs, k);
      Cut(req, k);
      lock := Dec(lock);
    }

    /** The loop of `nwkDataReqTaskHandler`: the first request that is not waiting. */
    method ReadyRequest() returns (req: Request?, ghost i: nat)
      requires Linked()
      ensures i == FirstReady(Views(reqs)) && req == At(reqs, i)
    {
      hide Views, FirstReady, Linked;
      i := 0;
      Links(0);
      req := queue;
      while req != null && req.state == WaitConf
        invariant i <= |reqs| && req == At(reqs, i)
        invariant forall j | 0 <= j < i :: Views(reqs)[j].state == WaitConf
        decreases |reqs| - i
      {
        Links(i);
        req, i := req.next, i + 1;
      }
      FirstReadyIs(Views(reqs), i);
    }

    /** `nwkDataReqTaskHandler`: serves the first request that is not waiting and returns it when it is to
        be confirmed to the application. */
    method TaskHandler() returns (confirmed: Request?)
      requires Linked()
      modifies this, frames, reqs
      ensures Linked() && State() == Task(old(State())).0
      ensures forall r :: r in old(reqs) <==> (r in reqs || (confirmed != null && r == confirmed))
      ensures match Task(old(State())).1
              case None => confirmed == null && reqs == old(reqs)
              case Some(r) => confirmed != null && confirmed in old(reqs) && confirmed !in reqs && confirmed.View() == r
    {
      hide Views, FirstReady, Linked, NwkModel.SendFrame, Unlink;
      var req, i := ReadyRequest();
      if req == null { return null; }
      assert Views(reqs)[i] == req.View();
      if req.state == Initial {
        SendFrame(req, i);
        return null;
      }
      NotAfter(i);
      ConfirmReq(req, i);
      return req;
    }

    /** A linked request stands at one place only. */
    lemma NotAfter(i: nat)
      requires Linked() && i < |reqs|
      ensures var rest := reqs[..i] + reqs[i + 1..];
        reqs[i] !in rest && forall r :: r in reqs <==> (r in rest || r == reqs[i])
    {
      var rest := reqs[..i] + reqs[i + 1..];
      assert reqs == reqs[..i] + [reqs[i]] + reqs[i + 1..];
    }
  }
}
