/** What the request handler gets done: requests are sent, served in turn, and in the end all confirmed. */
module NwkProgress {
  import opened Wrappers
  import opened NwkModel

  predicate FreeFrameAt(s: Nwk, f: int) { 0 <= f < |s.frames| && s.frames[f] == Free }

  ghost predicate HasFreeFrame(s: Nwk) { exists f :: FreeFrameAt(s, f) }

  /** The next request for the handler is to be sent. */
  predicate Sends(s: Nwk) { var i := FirstReady(s.queue); i < |s.queue| && s.queue[i].state == Initial }

  /** `t` is `s` with frame `f` on the air for request `i`, which waits for the report on it. */
  predicate OnAir(s: Nwk, t: Nwk, i: nat, f: int) {
    i < |s.queue| && FreeFrameAt(s, f) && t.frames == s.frames[f := Busy(Some(s.queue[i].id))] &&
    t.queue == s.queue[i := s.queue[i].(state := WaitConf, frame := Some(f))] &&
    WaitsFor(t.queue, i, s.queue[i].id, f) && t.lock == (s.lock + 1) % 0x1_0000 && t.phyActive == s.phyActive
  }

  /** One pass of the handler sends the request in a free frame, or gives it up if there is none. */
  lemma TaskSends(s: Nwk)
    requires Sends(s)
    ensures var (t, c) := Task(s);
      var i := FirstReady(s.queue);
      c == None &&
      (HasFreeFrame(s) ==> exists f :: OnAir(s, t, i, f)) &&
      (!HasFreeFrame(s) ==>
         t == s.(queue := s.queue[i := s.queue[i].(state := Confirm, status := OUT_OF_MEMORY_STATUS)]))
  {
    var f := FirstFree(s.frames);
    if f < |s.frames| {
      assert FreeFrameAt(s, f) && OnAir(s, Task(s).0, FirstReady(s.queue), f);
    }
  }

  /** The newest request is served first. */
  lemma NewestFirst(s: Nwk, id: nat, control: nat, other: nat)
    requires Queued(s, other)
    ensures var t := Submit(s, id, control);
      Before(t.queue, id, other) && FirstReady(t.queue) == 0 && t.queue[0].id == id && t.queue[0].control == control
  {
    var i :| 0 <= i < |s.queue| && s.queue[i].id == other;
    var q := Submit(s, id, control).queue;
    assert q[0].id == id && q[i + 1].id == other;
  }

  /** What every step adds to the things pending, or takes away. */
  lemma StepPending(s: Nwk, e: Event)
    ensures Pending(Step(s, e).0) - Pending(s) ==
      match e
      case DataReq(_, _) => 1
      case TaskHandler =>
        if FirstReady(s.queue) == |s.queue| then 0
        else if !Sends(s) then -1
        else if HasFreeFrame(s) then 1 else 0
      case Transmitted(f, _, _) => if f < |s.frames| && s.frames[f] != Free then -1 else 0
      case OtherFrame => if HasFreeFrame(s) then 1 else 0
      case PhyStart => if s.phyActive then 0 else 1
      case PhyDone => if s.phyActive then -1 else 0
  {
    var g := FirstFree(s.frames);
    assert g < |s.frames| ==> FreeFrameAt(s, g);
    match e
    case TaskHandler =>
      if Sends(s) && g < |s.frames| {
        BusyUpdate(s.frames, g, Busy(Some(s.queue[FirstReady(s.queue)].id)));
      }
    case Transmitted(f, _, _) => if f < |s.frames| { BusyUpdate(s.frames, f, Free); }
    case OtherFrame => if g < |s.frames| { BusyUpdate(s.frames, g, Busy(None)); }
    case _ =>
  }

  /** A pass of the handler, the report on frame `f` and another pass confirm request `i` with what was reported,
      and leave everything else as it was. */
  ghost predicate SentAndConfirmed(s: Nwk, i: nat, f: int, status: nat, control: nat)
    requires i < |s.queue|
  {
    FreeFrameAt(s, f) &&
    var (t, confirmed) := Run(s, [TaskHandler, Transmitted(f, status, control), TaskHandler]);
    confirmed == [Req(s.queue[i].id, Confirm, status, control, Some(f))] &&
    t.queue == s.queue[..i] + s.queue[i + 1..] && t.frames == s.frames && t.phyActive == s.phyActive
  }

  /** With no other request ready, sent, reported and confirmed. */
  lemma Served(s: Nwk, i: nat, status: nat, control: nat)
    requires Inv(s) && HasFreeFrame(s) && i < |s.queue| && s.queue[i].state == Initial
    requires forall j | 0 <= j < |s.queue| && j != i :: s.queue[j].state == WaitConf
    ensures exists f :: SentAndConfirmed(s, i, f, status, control)
  {
    hide Inv, Task, HasFreeFrame, OnAir, SentAndConfirmed;
    FirstReadyIs(s.queue, i);
    TaskSends(s);
    StepInv(s, TaskHandler);
    var f :| OnAir(s, Task(s).0, i, f);
    ServedIn(s, i, f, status, control);
  }

  lemma ServedIn(s: Nwk, i: nat, f: int, status: nat, control: nat)
    requires i < |s.queue| && OnAir(s, Task(s).0, i, f) && Inv(Task(s).0) && Task(s).1 == None
    requires forall j | 0 <= j < |s.queue| && j != i :: s.queue[j].state == WaitConf
    ensures SentAndConfirmed(s, i, f, status, control)
  {
    hide Inv, Task;
    var u, e := Task(s).0, Transmitted(f, status, control);
    ReportComes(s, u, i, f, status, control);
    var v := Step(u, e).0;
    FirstReadyIs(v.queue, i);
    TaskConfirms(v);
    RunThree(s, TaskHandler, e, TaskHandler);
  }

  /** The report on the frame of request `i`. */
  lemma ReportComes(s: Nwk, u: Nwk, i: nat, f: int, status: nat, control: nat)
    requires i < |s.queue| && OnAir(s, u, i, f) && Inv(u)
    ensures var (v, c) := Step(u, Transmitted(f, status, control));
      c == None && v.queue == s.queue[i := Req(s.queue[i].id, Confirm, status, control, Some(f))] &&
      v.frames == s.frames && v.phyActive == s.phyActive
  {
    hide Inv;
    TransmittedUpdatesOwner(u, f, status, control);
    InvUnique(u);
  }

  lemma TaskConfirms(s: Nwk)
    requires FirstReady(s.queue) < |s.queue| && !Sends(s)
    ensures var i := FirstReady(s.queue); Task(s) == (Unlink(s, i), Some(s.queue[i]))
  {
  }

  function ConfirmedBy(c: Option<Req>): seq<Req> { if c.Some? then [c.value] else [] }

  lemma RunFirst(s: Nwk, e: Event, more: seq<Event>)
    ensures var (t, c) := Step(s, e); Run(s, [e] + more) == (Run(t, more).0, ConfirmedBy(c) + Run(t, more).1)
    ensures Run(s, []) == (s, [])
  {
    hide Step;
    assert ([e] + more)[1..] == more;
  }

  lemma RunThree(s: Nwk, a: Event, b: Event, c: Event)
    ensures var (t, x) := Step(s, a);
      var (u, y) := Step(t, b);
      var (v, z) := Step(u, c);
      Run(s, [a, b, c]) == (v, ConfirmedBy(x) + ConfirmedBy(y) + ConfirmedBy(z))
  {
    hide Step, Run;
    var (t, x) := Step(s, a);
    var (u, y) := Step(t, b);
    var (v, z) := Step(u, c);
    assert [a, b, c] == [a] + ([b] + ([c] + []));
    RunFirst(s, a, [b] + ([c] + []));
    RunFirst(t, b, [c] + []);
    RunFirst(u, c, []);
    RunFirst(v, c, []);
    var cx, cy, cz := ConfirmedBy(x), ConfirmedBy(y), ConfirmedBy(z);
    assert cx + (cy + (cz + [])) == cx + cy + cz;
  }

  // ---- nothing stays in the list for good ----

  /** Passes of the handler that the requests in the list still need at most, without reports. */
  function Work(queue: seq<Req>): nat {
    if queue == [] then 0
    else (match queue[0].state case Initial => 2 case Confirm => 1 case WaitConf => 0) + Work(queue[1..])
  }

  function Passes(n: nat): (r: seq<Event>)
    ensures |r| == n && forall i | 0 <= i < n :: r[i] == TaskHandler
  {
    seq(n, _ => TaskHandler)
  }

  lemma {:induction false} WorkSplit(a: seq<Req>, b: seq<Req>)
    ensures Work(a + b) == Work(a) + Work(b)
    decreases |a|
  {
    if a == [] {
      assert a + b == b;
    } else {
      assert (a + b)[1..] == a[1..] + b;
      WorkSplit(a[1..], b);
    }
  }

  lemma {:induction false} NoWork(queue: seq<Req>)
    ensures Work(queue) == 0 <==> FirstReady(queue) == |queue|
    decreases |queue|
  {
    if queue != [] { NoWork(queue[1..]); }
  }

  lemma WorkAt(queue: seq<Req>, i: nat)
    requires i < |queue|
    ensures Work(queue) == Work(queue[..i]) + Work([queue[i]]) + Work(queue[i + 1..])
  {
    WorkSplit(queue[..i], [queue[i]]);
    WorkSplit(queue[..i] + [queue[i]], queue[i + 1..]);
    assert queue == queue[..i] + [queue[i]] + queue[i + 1..];
  }

  /** Each pass that finds something to do leaves less to do. */
  lemma PassWorks(s: Nwk)
    ensures if FirstReady(s.queue) == |s.queue| then Task(s) == (s, None) else Work(Task(s).0.queue) < Work(s.queue)
  {
    hide Work, FirstReady, FirstFree;
    var i := FirstReady(s.queue);
    if i < |s.queue| {
      var q := Task(s).0.queue;
      WorkAt(s.queue, i);
      OneWork(s.queue[i]);
      if s.queue[i].state == Initial {
        WorkAt(q, i);
        OneWork(q[i]);
        assert q[..i] == s.queue[..i] && q[i + 1..] == s.queue[i + 1..];
      } else {
        WorkSplit(s.queue[..i], s.queue[i + 1..]);
      }
    }
  }

  lemma OneWork(r: Req)
    ensures Work([r]) == match r.state case Initial => 2 case Confirm => 1 case WaitConf => 0
  {
    assert [r][1..] == [];
  }

  lemma RunOn(s: Nwk, events: seq<Event>)
    requires events != []
    ensures Run(s, events).0 == Run(Step(s, events[0]).0, events[1..]).0
  {
  }

  /** Enough passes leave only requests that wait for a report. */
  lemma {:induction false} PassesSettle(s: Nwk, n: nat)
    requires Inv(s) && Work(s.queue) <= n
    ensures var t := Run(s, Passes(n)).0;
      Inv(t) && Work(t.queue) == 0 && |t.frames| == |s.frames| && t.phyActive == s.phyActive
    decreases n
  {
    hide Inv, Work, FirstReady;
    if n > 0 {
      PassWorks(s);
      NoWork(s.queue);
      StepInv(s, TaskHandler);
      RunOn(s, Passes(n));
      TaskFrames(s);
      assert Passes(n)[1..] == Passes(n - 1);
      PassesSettle(Task(s).0, n - 1);
    }
  }

  lemma TaskFrames(s: Nwk)
    ensures |Task(s).0.frames| == |s.frames| && Task(s).0.phyActive == s.phyActive
    ensures !Sends(s) ==> Task(s).0.frames == s.frames
  {
  }

  predicate NoneInitial(queue: seq<Req>) { forall i | 0 <= i < |queue| :: queue[i].state != Initial }

  predicate Reported(events: seq<Event>, f: int) {
    exists i :: 0 <= i < |events| && events[i].Transmitted? && events[i].frame == f
  }

  predicate OnlyReports(events: seq<Event>) { forall i | 0 <= i < |events| :: events[i].Transmitted? }

  predicate AllFree(s: Nwk) { forall f | 0 <= f < |s.frames| :: s.frames[f] == Free }

  /** After reports on all frames in use, none is in use and no request waits. */
  lemma {:induction false} ReportsFree(s: Nwk, reports: seq<Event>)
    requires Inv(s) && NoneInitial(s.queue) && OnlyReports(reports)
    requires forall f | 0 <= f < |s.frames| && s.frames[f] != Free :: Reported(reports, f)
    ensures var t := Run(s, reports).0;
      Inv(t) && NoneInitial(t.queue) && AllFree(t) && |t.frames| == |s.frames| && t.phyActive == s.phyActive &&
      |t.queue| == |s.queue|
    decreases |reports|
  {
    hide Inv, Step;
    if reports == [] {
      forall f | 0 <= f < |s.frames| ensures s.frames[f] == Free {
        assert !Reported(reports, f);
      }
    } else {
      var e := reports[0];
      var u := Step(s, e).0;
      StepInv(s, e);
      ReportOne(s, e);
      RunOn(s, reports);
      forall f | 0 <= f < |u.frames| && u.frames[f] != Free ensures Reported(reports[1..], f) {
        var i :| 0 <= i < |reports| && reports[i].Transmitted? && reports[i].frame == f;
        assert reports[1..][i - 1] == reports[i];
      }
      ReportsFree(u, reports[1..]);
    }
  }

  lemma ReportOne(s: Nwk, e: Event)
    requires e.Transmitted? && NoneInitial(s.queue)
    ensures var u := Step(s, e).0;
      NoneInitial(u.queue) && |u.frames| == |s.frames| && u.phyActive == s.phyActive && |u.queue| == |s.queue| &&
      forall f | 0 <= f < |s.frames| :: u.frames[f] == if f == e.frame then Free else s.frames[f]
  {
  }

  /** With no frame in use nobody waits, and passes confirm all that is left. */
  lemma {:induction false} PassesConfirm(s: Nwk, n: nat)
    requires Inv(s) && NoneInitial(s.queue) && AllFree(s) && |s.queue| <= n
    ensures var t := Run(s, Passes(n)).0; Inv(t) && t.queue == [] && t.frames == s.frames && t.phyActive == s.phyActive
    decreases n
  {
    hide Inv;
    NobodyWaits(s);
    if n > 0 {
      StepInv(s, TaskHandler);
      RunOn(s, Passes(n));
      TaskFrames(s);
      assert Passes(n)[1..] == Passes(n - 1);
      if s.queue != [] { assert FirstReady(s.queue) == 0; }
      PassesConfirm(Task(s).0, n - 1);
    }
  }

  lemma NobodyWaits(s: Nwk)
    requires Inv(s) && AllFree(s)
    ensures forall i | 0 <= i < |s.queue| :: s.queue[i].state != WaitConf
  {
  }

  lemma {:induction false} RunAppend(s: Nwk, a: seq<Event>, b: seq<Event>)
    ensures Run(s, a + b).0 == Run(Run(s, a).0, b).0
    ensures Run(s, a + b).1 == Run(s, a).1 + Run(Run(s, a).0, b).1
    decreases |a|
  {
    hide Step;
    if a == [] {
      assert a + b == b;
    } else {
      assert (a + b)[1..] == a[1..] + b;
      RunAppend(Step(s, a[0]).0, a[1..], b);
    }
  }

  lemma {:induction false} PassesShorten(s: Nwk, n: nat)
    ensures |Run(s, Passes(n)).0.queue| <= |s.queue|
    decreases n
  {
    hide FirstReady, FirstFree;
    if n > 0 {
      RunOn(s, Passes(n));
      assert Passes(n)[1..] == Passes(n - 1);
      PassesShorten(Task(s).0, n - 1);
    }
  }

  /** A run without submissions. */
  lemma {:induction false} QuietRun(s: Nwk, events: seq<Event>, id: nat)
    requires forall i | 0 <= i < |events| :: !events[i].DataReq?
    ensures LegalRun(s, events) && Submissions(events, id) == 0
    decreases |events|
  {
    hide Step;
    if events != [] { QuietRun(Step(s, events[0]).0, events[1..], id); }
  }

  lemma Settled(t: Nwk)
    requires Inv(t) && t.queue == [] && AllFree(t)
    ensures t.lock == (if t.phyActive then 1 else 0)
    ensures forall id :: InList(t, id) == 0
  {
    BusyZero(t.frames);
  }

  /** From any state: enough passes of the handler, a report on every frame and enough passes again empty the
      list, confirm each request that was in it exactly once, free all frames and bring the lock down to what the
      radio holds. */
  lemma Drains(s: Nwk, first: nat, reports: seq<Event>, last: nat, id: nat)
    requires Inv(s) && Work(s.queue) <= first && |s.queue| <= last
    requires OnlyReports(reports) && forall f | 0 <= f < |s.frames| :: Reported(reports, f)
    ensures var (t, confirmed) := Run(s, Passes(first) + reports + Passes(last));
      t.queue == [] && AllFree(t) && t.phyActive == s.phyActive && t.lock == (if s.phyActive then 1 else 0) &&
      Confirmations(confirmed, id) == InList(s, id)
  {
    hide Inv, Work, Queued, Confirmations;
    var events := Passes(first) + reports + Passes(last);
    PassesSettle(s, first);
    var u := Run(s, Passes(first)).0;
    NoWork(u.queue);
    PassesShorten(s, first);
    ReportsFree(u, reports);
    var v := Run(u, reports).0;
    PassesConfirm(v, last);
    RunAppend(s, Passes(first), reports);
    RunAppend(s, Passes(first) + reports, Passes(last));
    QuietRun(s, events, id);
    RunKeepsRequests(s, events, id);
    Settled(Run(s, events).0);
  }
}
