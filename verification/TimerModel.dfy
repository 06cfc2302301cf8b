/** The polled scheduler on values. Times are unbounded; the clock the code reads is the time modulo 2^32. */
module TimerModel {
  const MAX_TIMERS: nat := 10
  const RUN_FOREVER: int := 0
  const CLOCK: nat := 0x1_0000_0000

  /** `callback` 0 is the null pointer and marks a free slot. */
  datatype Slot = Slot(callback: nat, on: bool, prev: nat, delay: int, maxRuns: int, runs: int)

  datatype Call = DontRun | RunOnly | RunAndDelete

  /** `calls` records the slots whose callbacks ran, in order. */
  datatype Timers = Timers(slots: seq<Slot>, numTimers: int, calls: seq<nat>)

  // ---- operations ----

  /** `millis()` at a time. */
  function Clock(at: nat): nat { at % CLOCK }

  function Since(now: nat, prev: nat): nat { (now - prev) % CLOCK }

  /** A `long` as the unsigned number it is compared as. */
  function Unsigned(d: int): nat { d % CLOCK }

  predicate Occupied(s: Slot) { s.callback != 0 }

  function Due(s: Slot, now: nat): bool { Occupied(s) && Since(now, s.prev) >= Unsigned(s.delay) }

  /** The first loop of `run` for one slot. */
  function Polled(s: Slot, now: nat): (Slot, Call) {
    if !Due(s, now) then (s, DontRun)
    else
      var t := s.(prev := (s.prev + Unsigned(s.delay)) % CLOCK);
      if !t.on then (t, DontRun)
      else if t.maxRuns == RUN_FOREVER then (t, RunOnly)
      else if t.runs < t.maxRuns then
        (t.(runs := t.runs + 1), if t.runs + 1 >= t.maxRuns then RunAndDelete else RunOnly)
      else (t, DontRun)
  }

  function Deleted(s: Slot): Slot { s.(callback := 0, on := false, delay := 0, runs := 0) }

  /** Both loops of `run` for one slot. */
  function Served(s: Slot, now: nat): Slot {
    var (t, call) := Polled(s, now);
    if call == RunAndDelete then Deleted(t) else t
  }

  predicate Fires(s: Slot, now: nat) { Polled(s, now).1 != DontRun }

  function ServedAll(slots: seq<Slot>, now: nat): (r: seq<Slot>)
    ensures |r| == |slots| && forall i | 0 <= i < |r| :: r[i] == Served(slots[i], now)
  {
    seq(|slots|, i requires 0 <= i < |slots| => Served(slots[i], now))
  }

  /** The slots below `k` whose callbacks run. */
  function CallsBelow(slots: seq<Slot>, now: nat, k: nat): seq<nat>
    requires k <= |slots|
  {
    if k == 0 then [] else CallsBelow(slots, now, k - 1) + (if Fires(slots[k - 1], now) then [k - 1] else [])
  }

  function Count(slots: seq<Slot>): nat {
    if slots == [] then 0 else (if Occupied(slots[0]) then 1 else 0) + Count(slots[1..])
  }

  function FirstFree(slots: seq<Slot>, i: nat): (r: nat)
    requires i <= |slots|
    ensures i <= r <= |slots| && (r < |slots| ==> !Occupied(slots[r])) && forall j | i <= j < r :: Occupied(slots[j])
    decreases |slots| - i
  {
    if i == |slots| || !Occupied(slots[i]) then i else FirstFree(slots, i + 1)
  }

  function Run(t: Timers, now: nat): Timers {
    var slots := ServedAll(t.slots, now);
    Timers(slots, t.numTimers - (Count(t.slots) - Count(slots)), t.calls + CallsBelow(t.slots, now, |t.slots|))
  }

  /** The number `setTimer` returns, -1 if it refuses. */
  function TimerNumber(t: Timers, callback: nat): (r: int)
    ensures -1 <= r < |t.slots|
  {
    var i := FirstFree(t.slots, 0);
    if t.numTimers >= MAX_TIMERS || i == |t.slots| || callback == 0 then -1 else i
  }

  function SetTimer(t: Timers, d: int, callback: nat, n: int, now: nat): Timers {
    var i := TimerNumber(t, callback);
    if i < 0 then t
    else t.(slots := t.slots[i := t.slots[i].(delay := d, callback := callback, maxRuns := n, on := true, prev := now)],
            numTimers := t.numTimers + 1)
  }

  function DeleteTimer(t: Timers, i: nat): Timers {
    if i >= |t.slots| || t.numTimers == 0 || !Occupied(t.slots[i]) then t
    else t.(slots := t.slots[i := Deleted(t.slots[i])], numTimers := t.numTimers - 1)
  }

  function Restart(t: Timers, i: nat, now: nat): Timers {
    if i >= |t.slots| then t else t.(slots := t.slots[i := t.slots[i].(prev := now)])
  }

  function Switch(t: Timers, i: nat, on: bool): Timers {
    if i >= |t.slots| then t else t.(slots := t.slots[i := t.slots[i].(on := on)])
  }

  function Toggle(t: Timers, i: nat): Timers {
    if i >= |t.slots| then t else Switch(t, i, !t.slots[i].on)
  }

  // ---- invariant ----

  /** A free slot has no runs; a timer that is limited to `n` runs and still there has run fewer times. */
  predicate SlotOk(s: Slot) {
    s.prev < CLOCK && s.runs >= 0 && (!Occupied(s) ==> s.runs == 0) &&
    (Occupied(s) && s.maxRuns > 0 ==> s.runs < s.maxRuns) && (Occupied(s) && s.maxRuns <= 0 ==> s.runs == 0)
  }

  ghost predicate Inv(t: Timers) {
    |t.slots| == MAX_TIMERS && t.numTimers == Count(t.slots) && forall i | 0 <= i < |t.slots| :: SlotOk(t.slots[i])
  }

  lemma {:induction false} CountSet(slots: seq<Slot>, i: nat, s: Slot)
    requires i < |slots|
    ensures Count(slots[i := s]) ==
      Count(slots) - (if Occupied(slots[i]) then 1 else 0) + (if Occupied(s) then 1 else 0)
    decreases |slots|
  {
    if i > 0 {
      assert slots[i := s][1..] == slots[1..][i - 1 := s];
      CountSet(slots[1..], i - 1, s);
    } else {
      assert slots[i := s][1..] == slots[1..];
    }
  }

  lemma {:induction false} CountNone(slots: seq<Slot>)
    requires forall i | 0 <= i < |slots| :: !Occupied(slots[i])
    ensures Count(slots) == 0
    decreases |slots|
  {
    if slots != [] { CountNone(slots[1..]); }
  }

  lemma {:induction false} CountAll(slots: seq<Slot>)
    ensures Count(slots) <= |slots| && (Count(slots) == |slots| <==> FirstFree(slots, 0) == |slots|)
    decreases |slots|
  {
    if slots != [] {
      CountAll(slots[1..]);
      FreeShift(slots, 1);
    }
  }

  lemma {:induction false} FreeShift(slots: seq<Slot>, i: nat)
    requires 1 <= i <= |slots|
    ensures FirstFree(slots, i) == FirstFree(slots[1..], i - 1) + 1
    decreases |slots| - i
  {
    if i < |slots| { FreeShift(slots, i + 1); }
  }

  /** Polling alone frees no slot. */
  lemma {:induction false} PolledCount(slots: seq<Slot>, polled: seq<Slot>, now: nat)
    requires |polled| == |slots| && forall i | 0 <= i < |slots| :: polled[i] == Polled(slots[i], now).0
    ensures Count(polled) == Count(slots)
    decreases |slots|
  {
    if slots != [] { PolledCount(slots[1..], polled[1..], now); }
  }

  lemma {:induction false} CountPositive(slots: seq<Slot>, i: nat)
    requires i < |slots| && Occupied(slots[i])
    ensures Count(slots) > 0
    decreases |slots|
  {
    if i > 0 { CountPositive(slots[1..], i - 1); }
  }

  lemma PolledShape(s: Slot, now: nat)
    ensures Polled(s, now).1 == RunAndDelete ==> Occupied(Polled(s, now).0)
  {
  }

  lemma ServedOk(s: Slot, now: nat)
    requires SlotOk(s)
    ensures SlotOk(Served(s, now))
  {
  }

  datatype Event =
    | Poll(at: nat)
    | Set(delay: int, callback: nat, n: int, at: nat)
    | Delete(i: nat)
    | RestartAt(i: nat, at: nat)
    | Turn(i: nat, on: bool)
    | Flip(i: nat)

  function Step(t: Timers, e: Event): Timers {
    match e
    case Poll(at) => Run(t, Clock(at))
    case Set(d, callback, n, at) => SetTimer(t, d, callback, n, Clock(at))
    case Delete(i) => DeleteTimer(t, i)
    case RestartAt(i, at) => Restart(t, i, Clock(at))
    case Turn(i, on) => Switch(t, i, on)
    case Flip(i) => Toggle(t, i)
  }

  /** `numTimers` is the number of occupied slots, over every step. */
  lemma StepInv(t: Timers, e: Event)
    requires Inv(t)
    ensures Inv(Step(t, e))
  {
    hide Count, FirstFree, Served, CallsBelow;
    match e
    case Poll(at) =>
      forall i | 0 <= i < |t.slots| ensures SlotOk(Served(t.slots[i], Clock(at))) { ServedOk(t.slots[i], Clock(at)); }
    case Set(d, callback, n, at) =>
      var i := FirstFree(t.slots, 0);
      if i < |t.slots| { CountSet(t.slots, i, Step(t, e).slots[i]); }
    case Delete(i) => if i < |t.slots| { CountSet(t.slots, i, Step(t, e).slots[i]); }
    case RestartAt(i, _) => if i < |t.slots| { CountSet(t.slots, i, Step(t, e).slots[i]); }
    case Turn(i, _) => if i < |t.slots| { CountSet(t.slots, i, Step(t, e).slots[i]); }
    case Flip(i) => if i < |t.slots| { CountSet(t.slots, i, Step(t, e).slots[i]); }
  }

  /** A timer is refused only when all slots are taken or there is nothing to call. */
  lemma SetTimerFails(t: Timers, callback: nat)
    requires Inv(t)
    ensures TimerNumber(t, callback) == -1 <==> t.numTimers == 10 || callback == 0
  {
    CountAll(t.slots);
  }

  // ---- whole runs ----

  function Steps(t: Timers, events: seq<Event>): Timers
    decreases |events|
  {
    if events == [] then t else Steps(Step(t, events[0]), events[1..])
  }

  lemma {:induction false} StepsInv(t: Timers, events: seq<Event>)
    requires Inv(t)
    ensures Inv(Steps(t, events))
    decreases |events|
  {
    hide Inv, Step;
    if events != [] {
      StepInv(t, events[0]);
      StepsInv(Step(t, events[0]), events[1..]);
    }
  }

  /** How often the callback of slot `i` ran. */
  function Runs(calls: seq<nat>, i: nat): nat {
    if calls == [] then 0 else Runs(calls[..|calls| - 1], i) + (if calls[|calls| - 1] == i then 1 else 0)
  }

  lemma {:induction false} RunsAppend(a: seq<nat>, b: seq<nat>, i: nat)
    ensures Runs(a + b, i) == Runs(a, i) + Runs(b, i)
    decreases |b|
  {
    if b == [] {
      assert a + b == a;
    } else {
      assert (a + b)[..|a + b| - 1] == a + b[..|b| - 1];
      RunsAppend(a, b[..|b| - 1], i);
    }
  }

  lemma {:induction false} CallsOf(slots: seq<Slot>, now: nat, k: nat, i: nat)
    requires k <= |slots|
    ensures Runs(CallsBelow(slots, now, k), i) == if i < k && Fires(slots[i], now) then 1 else 0
    decreases k
  {
    hide Fires, Runs;
    if k > 0 {
      CallsOf(slots, now, k - 1, i);
      var calls := CallsBelow(slots, now, k - 1);
      if Fires(slots[k - 1], now) {
        RunsOne(calls, k - 1, i);
        assert CallsBelow(slots, now, k) == calls + [k - 1];
      } else {
        assert CallsBelow(slots, now, k) == calls;
      }
    } else {
      NoRuns(i);
    }
  }

  /** Callbacks of one poll run in the order of their slots, each at most once. */
  lemma {:induction false} CallsInOrder(slots: seq<Slot>, now: nat, k: nat, i: nat, j: nat)
    requires k <= |slots| && i < j < |CallsBelow(slots, now, k)|
    ensures CallsBelow(slots, now, k)[i] < CallsBelow(slots, now, k)[j] < k
    decreases k
  {
    hide Fires;
    var before := CallsBelow(slots, now, k - 1);
    if j < |before| {
      CallsInOrder(slots, now, k - 1, i, j);
    } else {
      CallBelow(slots, now, k - 1, i);
    }
  }

  lemma {:induction false} CallBelow(slots: seq<Slot>, now: nat, k: nat, i: nat)
    requires k <= |slots| && i < |CallsBelow(slots, now, k)|
    ensures CallsBelow(slots, now, k)[i] < k
    decreases k
  {
    hide Fires;
    if i < |CallsBelow(slots, now, k - 1)| { CallBelow(slots, now, k - 1, i); }
  }

  lemma NoRuns(i: nat)
    ensures Runs([], i) == 0
  {
  }

  lemma RunsOne(calls: seq<nat>, j: nat, i: nat)
    ensures Runs(calls + [j], i) == Runs(calls, i) + if j == i then 1 else 0
  {
    assert (calls + [j])[..|calls|] == calls;
  }

  /** Number of times slot `i` fires in a step. */
  function Fired(t: Timers, e: Event, i: nat): nat
    requires i < |t.slots|
  {
    if e.Poll? && Fires(t.slots[i], Clock(e.at)) then 1 else 0
  }

  predicate Touches(e: Event, i: nat) {
    match e
    case Delete(j) => j == i
    case RestartAt(j, _) => j == i
    case Turn(j, _) => j == i
    case Flip(j) => j == i
    case _ => false
  }

  predicate SameLife(s: Slot, t: Slot) { s.callback == t.callback && s.runs == t.runs && s.maxRuns == t.maxRuns }

  /** A step fires an occupied slot as its own state says; steps for other timers leave it alone. */
  lemma StepSlot(t: Timers, e: Event, i: nat)
    requires Inv(t) && i < MAX_TIMERS && Occupied(t.slots[i])
    ensures Runs(Step(t, e).calls, i) == Runs(t.calls, i) + Fired(t, e, i)
    ensures e.Poll? ==> Step(t, e).slots[i] == Served(t.slots[i], Clock(e.at))
    ensures !e.Poll? && !Touches(e, i) ==> Step(t, e).slots[i] == t.slots[i]
    ensures !e.Poll? && !e.Delete? ==> SameLife(Step(t, e).slots[i], t.slots[i])
  {
    hide Count, Served, Fires, CallsBelow, Runs;
    if e.Poll? {
      var now := Clock(e.at);
      CallsOf(t.slots, now, |t.slots|, i);
      RunsAppend(t.calls, CallsBelow(t.slots, now, |t.slots|), i);
    }
  }

  // ---- timers limited to n runs ----

  ghost predicate Limited(t: Timers, i: nat, n: nat) {
    Inv(t) && i < MAX_TIMERS && Occupied(t.slots[i]) && t.slots[i].maxRuns == n > 0
  }

  /** The timer is not deleted from outside, and a run ends when it is freed. */
  ghost predicate Watched(t: Timers, i: nat, events: seq<Event>)
    requires i < |t.slots|
    decreases |events|
  {
    events == [] ||
    (Occupied(t.slots[i]) && events[0] != Delete(i) && |Step(t, events[0]).slots| > i &&
     Watched(Step(t, events[0]), i, events[1..]))
  }

  lemma LimitedStep(t: Timers, i: nat, n: nat, e: Event)
    requires Limited(t, i, n) && e != Delete(i)
    ensures var t' := Step(t, e);
      Inv(t') && Runs(t'.calls, i) - Runs(t.calls, i) ==
        (if Occupied(t'.slots[i]) then t'.slots[i].runs else n) - t.slots[i].runs &&
      (Occupied(t'.slots[i]) ==> Limited(t', i, n))
  {
    StepInv(t, e);
    hide Count, CallsBelow, Runs, Step;
    StepSlot(t, e, i);
    if e.Delete? { DeleteOther(t, e, i); }
  }

  lemma DeleteOther(t: Timers, e: Event, i: nat)
    requires e.Delete? && e != Delete(i) && i < |t.slots|
    ensures Step(t, e).slots[i] == t.slots[i]
  {
  }

  /** While it is there it has fired as often as its counter says, below n; when it is freed, exactly n times. */
  lemma {:induction false} LimitedFires(t: Timers, i: nat, n: nat, events: seq<Event>)
    requires Limited(t, i, n) && Watched(t, i, events)
    ensures var t' := Steps(t, events);
      Inv(t') &&
      Runs(t'.calls, i) - Runs(t.calls, i) ==
        (if Occupied(t'.slots[i]) then t'.slots[i].runs else n) - t.slots[i].runs &&
      (Occupied(t'.slots[i]) ==> t'.slots[i].runs < n)
    decreases |events|
  {
    hide Step, Runs;
    if events != [] {
      LimitedStep(t, i, n, events[0]);
      var u := Step(t, events[0]);
      if Occupied(u.slots[i]) {
        LimitedFires(u, i, n, events[1..]);
      } else {
        assert events[1..] == [];
      }
    }
  }

  /** A new timer starts with no runs, so a limit of `n` means `n` calls. */
  lemma NewTimer(t: Timers, d: int, callback: nat, n: int, at: nat)
    requires Inv(t) && TimerNumber(t, callback) >= 0
    ensures var i, t' := TimerNumber(t, callback), Step(t, Set(d, callback, n, at));
      !Occupied(t.slots[i]) && t'.slots[i] == Slot(callback, true, Clock(at), d, n, 0) &&
      t'.numTimers == t.numTimers + 1 && t'.calls == t.calls && (n > 0 ==> Limited(t', i, n))
  {
    StepInv(t, Set(d, callback, n, at));
  }

  /** When the callback of a slot runs: there is a timer, it is due by the clock, switched on, and without limit or
      below it. */
  lemma FiresIff(s: Slot, now: nat)
    ensures Fires(s, now) <==>
      s.callback != 0 && (now - s.prev) % 0x1_0000_0000 >= s.delay % 0x1_0000_0000 && s.on &&
      (s.maxRuns == 0 || s.runs < s.maxRuns)
  {
  }

  /** Two timers that differ in the switch only. */
  ghost predicate Twins(t: Timers, u: Timers, i: nat) {
    Inv(t) && Inv(u) && i < MAX_TIMERS && t.slots[i] == u.slots[i].(on := false) &&
    Occupied(u.slots[i]) && u.slots[i].maxRuns == RUN_FOREVER
  }

  lemma TwinsStep(t: Timers, u: Timers, i: nat, e: Event)
    requires Twins(t, u, i) && !Touches(e, i)
    ensures Twins(Step(t, e), Step(u, e), i) && Runs(Step(t, e).calls, i) == Runs(t.calls, i)
  {
    hide Runs, Step, Count;
    StepInv(t, e);
    StepInv(u, e);
    StepSlot(t, e, i);
    StepSlot(u, e, i);
  }

  /** Switched off, an interval never fires, while its due times move on as if it were on. */
  lemma {:induction false} OffKeepsTime(t: Timers, u: Timers, i: nat, events: seq<Event>)
    requires Twins(t, u, i) && Untouched(events, i)
    ensures var t', u' := Steps(t, events), Steps(u, events);
      Twins(t', u', i) && t'.slots[i].prev == u'.slots[i].prev && Runs(t'.calls, i) == Runs(t.calls, i)
    decreases |events|
  {
    hide Runs, Step, Inv, Touches;
    if events != [] {
      assert !Touches(events[0], i);
      TwinsStep(t, u, i, events[0]);
      assert forall j | 0 <= j < |events| - 1 :: events[1..][j] == events[j + 1];
      OffKeepsTime(Step(t, events[0]), Step(u, events[0]), i, events[1..]);
    }
    TwinSlots(t, u, i);
  }

  lemma TwinSlots(t: Timers, u: Timers, i: nat)
    requires Twins(t, u, i)
    ensures i < |t.slots| == |u.slots|
  {
  }

  /** Turning a timer on or off, flipping it and restarting it change that one field; deleting it frees its slot. */
  lemma Controls(t: Timers, i: nat, on: bool, at: nat)
    requires Inv(t) && i < 10
    ensures Step(t, Turn(i, on)) == t.(slots := t.slots[i := t.slots[i].(on := on)])
    ensures Step(t, Flip(i)).slots[i].on == !t.slots[i].on && Step(Step(t, Flip(i)), Flip(i)) == t
    ensures Step(t, RestartAt(i, at)) == t.(slots := t.slots[i := t.slots[i].(prev := at % 0x1_0000_0000)])
    ensures var d := Step(t, Delete(i));
      d.slots[i].callback == 0 && d.calls == t.calls && |d.slots| == 10 &&
      (forall j | 0 <= j < 10 && j != i :: d.slots[j] == t.slots[j]) &&
      d.numTimers == t.numTimers - (if t.slots[i].callback != 0 then 1 else 0)
  {
    hide Count;
    if Occupied(t.slots[i]) { CountPositive(t.slots, i); }
    var f := Step(t, Flip(i));
    assert t.slots[i := f.slots[i]][i := t.slots[i]] == t.slots;
  }

  // ---- when a limited timer is done ----

  /** An enabled timer of delay `d` limited to `n` runs whose last due time was `due`. */
  ghost predicate Counting(t: Timers, i: nat, due: nat, d: nat, n: nat) {
    Limited(t, i, n) && 0 < d < CLOCK / 2 && t.slots[i].on && t.slots[i].delay == d && t.slots[i].prev == Clock(due)
  }

  predicate Untouched(events: seq<Event>, i: nat) { forall j | 0 <= j < |events| :: !Touches(events[j], i) }

  /** No poll comes before the last due time or a whole turn of the clock behind it. */
  predicate Punctual(events: seq<Event>, due: nat, d: nat)
    decreases |events|
  {
    events == [] ||
    (var e := events[0];
     (e.Poll? ==> due <= e.at < due + CLOCK) &&
     Punctual(events[1..], if e.Poll? && due + d <= e.at then due + d else due, d))
  }

  /** The polls at which a call is due, by the times alone. */
  function CallsDue(events: seq<Event>, due: nat, d: nat): nat
    decreases |events|
  {
    if events == [] then 0
    else if events[0].Poll? && due + d <= events[0].at then 1 + CallsDue(events[1..], due + d, d)
    else CallsDue(events[1..], due, d)
  }

  /** The events up to the one that frees slot `i`. */
  function Until(t: Timers, i: nat, events: seq<Event>): seq<Event>
    requires Inv(t) && i < MAX_TIMERS
    decreases |events|
  {
    if events == [] || !Occupied(t.slots[i]) then []
    else (StepInv(t, events[0]); [events[0]] + Until(Step(t, events[0]), i, events[1..]))
  }

  lemma PollLimited(s: Slot, at: nat, due: nat, d: nat)
    requires SlotOk(s) && Occupied(s) && s.maxRuns > 0 && s.on && s.delay == d && 0 < d < CLOCK / 2
    requires s.prev == Clock(due) && due <= at < due + CLOCK
    ensures Fires(s, Clock(at)) <==> due + d <= at
    ensures !Fires(s, Clock(at)) ==> Served(s, Clock(at)) == s
    ensures Fires(s, Clock(at)) && s.runs + 1 < s.maxRuns ==>
      Served(s, Clock(at)) == s.(prev := Clock(due + d), runs := s.runs + 1)
    ensures Fires(s, Clock(at)) && s.runs + 1 == s.maxRuns ==> !Occupied(Served(s, Clock(at)))
  {
    hide Due, Clock, Unsigned;
    DueLimited(s, at, due, d);
  }

  /** The clock of a poll less than a turn behind the last due time. */
  lemma DueLimited(s: Slot, at: nat, due: nat, d: nat)
    requires Occupied(s) && s.delay == d && 0 < d < CLOCK / 2 && s.prev == Clock(due) && due <= at < due + CLOCK
    ensures Due(s, Clock(at)) <==> due + d <= at
    ensures (s.prev + Unsigned(s.delay)) % CLOCK == Clock(due + d)
  {
    ClockSince(at, due);
    ClockPlus(due, d);
    ClockLess(at - due);
    ClockLess(d);
    hide Since;
  }

  /** One event: a due poll is one run more, and the last run frees the timer. */
  lemma CountingStep(t: Timers, i: nat, due: nat, d: nat, n: nat, e: Event)
    requires Counting(t, i, due, d, n) && !Touches(e, i) && (e.Poll? ==> due <= e.at < due + CLOCK)
    ensures var t' := Step(t, e);
      var fires := e.Poll? && due + d <= e.at;
      Inv(t') && Runs(t'.calls, i) == Runs(t.calls, i) + (if fires then 1 else 0) &&
      (if !fires then t'.slots[i] == t.slots[i] && Counting(t', i, due, d, n)
       else if t.slots[i].runs + 1 < n then t'.slots[i].runs == t.slots[i].runs + 1 && Counting(t', i, due + d, d, n)
       else !Occupied(t'.slots[i]))
  {
    hide Count, Step, Runs, Served, Fires, Clock;
    StepInv(t, e);
    StepSlot(t, e, i);
    if e.Poll? { PollLimited(t.slots[i], e.at, due, d); }
  }

  /** Polled less than a turn late, a limited timer is freed exactly when as many calls have come due as it has
      runs left, and it fires at each of them until then. */
  lemma {:induction false} LimitedFinishes(t: Timers, i: nat, due: nat, d: nat, n: nat, events: seq<Event>)
    requires Counting(t, i, due, d, n) && Untouched(events, i) && Punctual(events, due, d)
    ensures var left, calls := n - t.slots[i].runs, CallsDue(events, due, d);
      var t' := Steps(t, Until(t, i, events));
      i < |t'.slots| && (Occupied(t'.slots[i]) <==> calls < left) &&
      Runs(t'.calls, i) - Runs(t.calls, i) == if calls < left then calls else left
    decreases |events|
  {
    hide Step, Runs, Touches;
    if events != [] {
      var e := events[0];
      CountingStep(t, i, due, d, n, e);
      var u := Step(t, e);
      var next := if e.Poll? && due + d <= e.at then due + d else due;
      if Occupied(u.slots[i]) {
        LimitedFinishes(u, i, next, d, n, events[1..]);
        assert ([e] + Until(u, i, events[1..]))[1..] == Until(u, i, events[1..]);
      } else {
        assert Until(u, i, events[1..]) == [];
        assert ([e] + [])[1..] == [];
        assert Until(t, i, events) == [e];
        assert Steps(t, [e]) == Steps(u, []);
      }
    }
  }

  /** A new timer limited to `n` runs, polled less than a turn late: it fires at each call that comes due, `n`
      times at most, and its slot is free exactly when `n` have come due. */
  lemma LimitedCount(t: Timers, callback: nat, d: nat, n: nat, start: nat, events: seq<Event>)
    requires Inv(t) && TimerNumber(t, callback) >= 0 && 0 < d < CLOCK / 2 && n > 0
    requires Untouched(events, TimerNumber(t, callback)) && Punctual(events, start, d)
    ensures var i, u := TimerNumber(t, callback), Step(t, Set(d, callback, n, start));
      var calls := CallsDue(events, start, d);
      Inv(u) &&
      var t' := Steps(u, Until(u, i, events));
      i < |t'.slots| && (Occupied(t'.slots[i]) <==> calls < n) &&
      Runs(t'.calls, i) - Runs(t.calls, i) == if calls < n then calls else n
  {
    hide Inv, Step, Runs, Steps, Untouched, Punctual, CallsDue, TimerNumber, Until;
    var u := Step(t, Set(d, callback, n, start));
    NewTimer(t, d, callback, n, start);
    StepInv(t, Set(d, callback, n, start));
    LimitedFinishes(u, TimerNumber(t, callback), start, d, n, events);
  }

  // ---- intervals ----

  /** When call `k` of an interval is due; the zeroth is the start. */
  function DueAt(start: nat, d: nat, k: nat): nat { if k == 0 then start else DueAt(start, d, k - 1) + d }

  lemma DueNext(start: nat, d: nat, k: nat)
    ensures DueAt(start, d, k + 1) == DueAt(start, d, k) + d
  {
  }

  lemma {:induction false} DueIs(start: nat, d: nat, k: nat)
    ensures DueAt(start, d, k) == start + k * d
  {
    if k > 0 {
      DueIs(start, d, k - 1);
      assert k * d == (k - 1) * d + d;
    }
  }

  lemma {:induction false} DueOrder(start: nat, d: nat, k: nat, l: nat)
    requires k <= l
    ensures DueAt(start, d, k) <= DueAt(start, d, l)
    decreases l
  {
    if k < l { DueOrder(start, d, k, l - 1); }
  }

  /** An enabled interval of `d` that was started at `start` and has fired `k` times since. */
  ghost predicate Interval(t: Timers, i: nat, start: nat, d: nat, k: nat) {
    Inv(t) && i < MAX_TIMERS && d > 0 && t.slots[i].prev == Clock(DueAt(start, d, k)) && Ticking(t.slots[i], d)
  }

  predicate Ticking(s: Slot, d: nat) {
    Occupied(s) && s.on && s.maxRuns == RUN_FOREVER && s.delay == d && d < CLOCK / 2
  }

  lemma ClockSince(at: nat, from: nat)
    requires from <= at
    ensures Since(Clock(at), Clock(from)) == Clock(at - from)
  {
    var a, b := at / CLOCK, from / CLOCK;
    assert at - from == (Clock(at) - Clock(from)) + (a - b) * CLOCK;
    ModPlus(Clock(at) - Clock(from), a - b);
  }

  lemma ModPlus(x: int, k: int)
    ensures (x + k * CLOCK) % CLOCK == x % CLOCK
  {
  }

  lemma ClockPlus(x: nat, d: nat)
    ensures Clock(Clock(x) + d) == Clock(x + d)
  {
    ModPlus(Clock(x) + d, x / CLOCK);
  }

  /** A poll fires exactly if the clock shows at least `d` since the last due time: one call at most, and none
      if what is left of the backlog beyond whole turns of the clock is less than `d`. */
  lemma PollInterval(s: Slot, at: nat, due: nat, d: nat)
    requires Ticking(s, d) && d > 0 && s.prev == Clock(due) && due <= at
    ensures Fires(s, Clock(at)) <==> Clock(at - due) >= d
    ensures var r := Served(s, Clock(at));
      r == if Clock(at - due) >= d then s.(prev := Clock(due + d)) else s
  {
    ClockSince(at, due);
    ClockPlus(due, d);
  }

  /** Each step keeps the account: the last due time is that of call `k`, and the k-th is never in the future. */
  lemma IntervalStep(t: Timers, i: nat, start: nat, d: nat, k: nat, e: Event)
    requires Interval(t, i, start, d, k) && !Touches(e, i)
    requires e.Poll? ==> DueAt(start, d, k) <= e.at
    ensures var t' := Step(t, e);
      var k' := k + Fired(t, e, i);
      Interval(t', i, start, d, k') && Runs(t'.calls, i) == Runs(t.calls, i) + k' - k &&
      (e.Poll? ==> DueAt(start, d, k') <= e.at && (k' > k <==> Clock(e.at - DueAt(start, d, k)) >= d))
  {
    StepInv(t, e);
    StepSlot(t, e, i);
    hide Inv, Step, Runs, Served, Fires, DueAt, Clock;
    if e.Poll? {
      PollInterval(t.slots[i], e.at, DueAt(start, d, k), d);
      ClockLess(e.at - DueAt(start, d, k));
      DueNext(start, d, k);
    }
  }

  lemma ClockLess(x: nat)
    ensures Clock(x) <= x && (x < CLOCK ==> Clock(x) == x)
  {
  }

  /** A restart begins the account anew. */
  lemma Restarted(t: Timers, i: nat, d: nat, at: nat)
    requires Inv(t) && i < MAX_TIMERS && Ticking(t.slots[i], d) && d > 0
    ensures Interval(Step(t, RestartAt(i, at)), i, at, d, 0)
  {
    StepInv(t, RestartAt(i, at));
  }

  /** Polls in order of time, none before `from`, and nothing done to timer `i` itself. */
  predicate Ordered(events: seq<Event>, from: nat, i: nat)
    decreases |events|
  {
    events == [] ||
    (!Touches(events[0], i) && (events[0].Poll? ==> from <= events[0].at) &&
     Ordered(events[1..], if events[0].Poll? then events[0].at else from, i))
  }

  function LastPoll(events: seq<Event>, from: nat): nat
    decreases |events|
  {
    if events == [] then from else LastPoll(events[1..], if events[0].Poll? then events[0].at else from)
  }

  function Polls(events: seq<Event>): nat
    decreases |events|
  {
    if events == [] then 0 else (if events[0].Poll? then 1 else 0) + Polls(events[1..])
  }

  /** Polls never further apart than the delay. */
  predicate Often(events: seq<Event>, from: nat, d: nat)
    decreases |events|
  {
    events == [] ||
    ((events[0].Poll? ==> events[0].at <= from + d) &&
     Often(events[1..], if events[0].Poll? then events[0].at else from, d))
  }

  lemma IntervalFacts(t: Timers, i: nat, start: nat, d: nat, k: nat)
    requires Interval(t, i, start, d, k)
    ensures Inv(t) && |t.slots| == MAX_TIMERS && i < MAX_TIMERS && 0 < d < CLOCK / 2
  {
  }

  /** Calls of timer `i` since it was started, when `k` are known before the run. */
  function Counted(t: Timers, k: nat, i: nat, events: seq<Event>): int {
    k + Runs(Steps(t, events).calls, i) - Runs(t.calls, i)
  }

  /** An interval never fires early: k calls mean that k whole delays have passed. */
  lemma {:induction false} NeverEarly(t: Timers, i: nat, start: nat, d: nat, k: nat, from: nat, events: seq<Event>)
    requires Interval(t, i, start, d, k) && DueAt(start, d, k) <= from && Ordered(events, from, i)
    ensures var k' := Counted(t, k, i, events);
      k' >= k && Interval(Steps(t, events), i, start, d, k') && DueAt(start, d, k') <= LastPoll(events, from)
    decreases |events|
  {
    hide Interval, Step, Runs, Touches, Fires, Inv, DueAt;
    IntervalFacts(t, i, start, d, k);
    if events != [] {
      var e := events[0];
      IntervalStep(t, i, start, d, k, e);
      NeverEarly(Step(t, e), i, start, d, k + Fired(t, e, i), if e.Poll? then e.at else from, events[1..]);
    }
  }

  /** It catches up by one call a poll: if no poll is a whole turn late, after enough polls at or after `from` it
      has fired once for every whole delay up to `from`. */
  lemma {:induction false} CatchesUp(t: Timers, i: nat, start: nat, d: nat, k: nat, from: nat,
                                     events: seq<Event>, owed: nat)
    requires Interval(t, i, start, d, k) && DueAt(start, d, k) <= from && Ordered(events, from, i)
    requires Punctual(events, DueAt(start, d, k), d)
    requires DueAt(start, d, owed) <= from && owed <= k + Polls(events)
    ensures Counted(t, k, i, events) >= owed
    decreases |events|
  {
    hide Interval, Step, Runs, Touches, Inv, DueAt, Clock;
    IntervalFacts(t, i, start, d, k);
    NeverEarly(t, i, start, d, k, from, events);
    if owed > k {
      var e := events[0];
      IntervalStep(t, i, start, d, k, e);
      if e.Poll? {
        DueOrder(start, d, k + 1, owed);
        DueNext(start, d, k);
        ClockLess(e.at - DueAt(start, d, k));
      }
      CatchesUp(Step(t, e), i, start, d, k + Fired(t, e, i), if e.Poll? then e.at else from, events[1..], owed);
    }
  }

  lemma Multiply(a: nat, b: nat, d: nat)
    requires a <= b
    ensures a * d <= b * d
  {
  }

  /** Polled at least once every `d`, it has at every poll fired exactly once for each whole delay that passed. */
  lemma {:induction false} OnTime(t: Timers, i: nat, start: nat, d: nat, k: nat, from: nat, events: seq<Event>)
    requires Interval(t, i, start, d, k) && DueAt(start, d, k) <= from < DueAt(start, d, k) + d
    requires Ordered(events, from, i) && Often(events, from, d)
    ensures var k' := Counted(t, k, i, events);
      k' >= k && DueAt(start, d, k') <= LastPoll(events, from) < DueAt(start, d, k') + d
    decreases |events|
  {
    hide Interval, Step, Runs, Touches, Inv, DueAt, Clock;
    IntervalFacts(t, i, start, d, k);
    if events != [] {
      var e := events[0];
      IntervalStep(t, i, start, d, k, e);
      DueNext(start, d, k);
      if e.Poll? { ClockLess(e.at - DueAt(start, d, k)); }
      OnTime(Step(t, e), i, start, d, k + Fired(t, e, i), if e.Poll? then e.at else from, events[1..]);
    }
  }

  lemma QuotientIs(start: nat, d: nat, k: nat, at: nat)
    requires d > 0 && start <= at
    ensures DueAt(start, d, k) <= at <==> k <= (at - start) / d
  {
    hide DueAt;
    var q := (at - start) / d;
    DueIs(start, d, k);
    DivisionBounds(at - start, d);
    if k <= q { Multiply(k, q, d); } else { Multiply(q + 1, k, d); }
  }

  lemma DivisionBounds(x: nat, d: nat)
    requires d > 0
    ensures x / d * d <= x < (x / d + 1) * d
  {
    var q := x / d;
    assert x == q * d + x % d;
    assert (q + 1) * d == q * d + d;
  }

  lemma {:induction false} LastPollAfter(events: seq<Event>, from: nat, i: nat)
    requires Ordered(events, from, i)
    ensures from <= LastPoll(events, from)
    decreases |events|
  {
    if events != [] { LastPollAfter(events[1..], if events[0].Poll? then events[0].at else from, i); }
  }

  /** A new interval of `d` has at its last poll fired no more often than whole delays have passed since it was
      started, and exactly that often if it is polled at least once every `d`. */
  lemma IntervalCount(t: Timers, callback: nat, d: nat, start: nat, events: seq<Event>)
    requires Inv(t) && TimerNumber(t, callback) >= 0 && 0 < d < CLOCK / 2
    requires Ordered(events, start, TimerNumber(t, callback))
    ensures var i := TimerNumber(t, callback);
      var t' := Steps(Step(t, Set(d, callback, RUN_FOREVER, start)), events);
      var count := Runs(t'.calls, i) - Runs(t.calls, i);
      0 <= count <= (LastPoll(events, start) - start) / d &&
      (Often(events, start, d) ==> count == (LastPoll(events, start) - start) / d)
  {
    var i := TimerNumber(t, callback);
    var e := Set(d, callback, RUN_FOREVER, start);
    NewTimer(t, d, callback, RUN_FOREVER, start);
    StepInv(t, e);
    hide Inv, Step, Runs, Steps, Ordered, Often, LastPoll, TimerNumber;
    var u := Step(t, e);
    NeverEarly(u, i, start, d, 0, start, events);
    LastPollAfter(events, start, i);
    var count := Counted(u, 0, i, events);
    QuotientIs(start, d, count, LastPoll(events, start));
    if Often(events, start, d) {
      OnTime(u, i, start, d, 0, start, events);
      DueNext(start, d, count);
      QuotientIs(start, d, count + 1, LastPoll(events, start));
    }
  }

  // ---- a whole turn of the clock late ----

  /** What is left of a backlog of more than a turn after one call is still a turn. */
  lemma ClockTurn(x: nat, d: nat)
    requires CLOCK <= x && d <= Clock(x)
    ensures CLOCK + d <= x
  {
  }

  /** One poll does not bring a timer back that is a whole turn behind. */
  lemma BehindStep(t: Timers, i: nat, start: nat, d: nat, k: nat, e: Event)
    requires Interval(t, i, start, d, k) && !Touches(e, i) && (e.Poll? ==> DueAt(start, d, k) + CLOCK <= e.at)
    ensures var t', k' := Step(t, e), k + Fired(t, e, i);
      Interval(t', i, start, d, k') && Runs(t'.calls, i) == Runs(t.calls, i) + k' - k &&
      (e.Poll? ==> DueAt(start, d, k') + CLOCK <= e.at)
  {
    hide Interval, Step, Runs, DueAt, Clock, Touches;
    IntervalFacts(t, i, start, d, k);
    IntervalStep(t, i, start, d, k, e);
    DueNext(start, d, k);
    if e.Poll? && Fired(t, e, i) == 1 { ClockTurn(e.at - DueAt(start, d, k), d); }
  }

  /** Once a whole turn behind, an interval stays behind by a turn, however often it is polled. */
  lemma {:induction false} NeverRecovers(t: Timers, i: nat, start: nat, d: nat, k: nat, from: nat, events: seq<Event>)
    requires Interval(t, i, start, d, k) && DueAt(start, d, k) + CLOCK <= from && Ordered(events, from, i)
    ensures var k' := Counted(t, k, i, events); k' >= k && DueAt(start, d, k') + CLOCK <= LastPoll(events, from)
    decreases |events|
  {
    hide Interval, Step, Runs, Touches, Inv, DueAt, Fires;
    IntervalFacts(t, i, start, d, k);
    if events != [] {
      var e := events[0];
      BehindStep(t, i, start, d, k, e);
      NeverRecovers(Step(t, e), i, start, d, k + Fired(t, e, i), if e.Poll? then e.at else from, events[1..]);
    }
  }

  /** At the end of a run an interval is less than a turn behind exactly if no poll came a whole turn late. */
  lemma {:induction false} PunctualIff(t: Timers, i: nat, start: nat, d: nat, k: nat, from: nat, events: seq<Event>)
    requires Interval(t, i, start, d, k) && DueAt(start, d, k) <= from < DueAt(start, d, k) + CLOCK
    requires Ordered(events, from, i)
    ensures var k' := Counted(t, k, i, events);
      k' >= k && (Punctual(events, DueAt(start, d, k), d) <==> LastPoll(events, from) < DueAt(start, d, k') + CLOCK)
    decreases |events|
  {
    hide Interval, Step, Runs, Touches, Inv, DueAt, Fires;
    IntervalFacts(t, i, start, d, k);
    NeverEarly(t, i, start, d, k, from, events);
    if events != [] {
      var e := events[0];
      var u, k', at := Step(t, e), k + Fired(t, e, i), if e.Poll? then e.at else from;
      IntervalStep(t, i, start, d, k, e);
      DueOrder(start, d, k, k');
      DueNext(start, d, k);
      if e.Poll? && e.at < DueAt(start, d, k) + CLOCK { ClockLess(e.at - DueAt(start, d, k)); }
      if e.Poll? && DueAt(start, d, k) + CLOCK <= e.at {
        BehindStep(t, i, start, d, k, e);
        NeverRecovers(u, i, start, d, k', at, events[1..]);
      } else {
        PunctualIff(u, i, start, d, k', at, events[1..]);
      }
    }
  }

  /** Polled at one time as often as calls are owed, an interval catches up exactly if it is less than a turn of
      the clock behind. */
  lemma BurstIff(t: Timers, i: nat, start: nat, d: nat, k: nat, at: nat, burst: seq<Event>)
    requires Interval(t, i, start, d, k) && DueAt(start, d, k) <= at && start <= at
    requires Ordered(burst, at, i) && LastPoll(burst, at) == at && k + Polls(burst) >= (at - start) / d
    ensures Counted(t, k, i, burst) == (at - start) / d <==> at < DueAt(start, d, k) + CLOCK
  {
    hide Interval, Runs, Steps, Ordered, LastPoll, Polls, Punctual, DueAt;
    IntervalFacts(t, i, start, d, k);
    NeverEarly(t, i, start, d, k, at, burst);
    var k', owed := Counted(t, k, i, burst), (at - start) / d;
    QuotientIs(start, d, k', at);
    if at < DueAt(start, d, k) + CLOCK {
      DueOrder(start, d, k, k');
      PunctualIff(t, i, start, d, k, at, burst);
      QuotientIs(start, d, owed, at);
      CatchesUp(t, i, start, d, k, at, burst, owed);
    } else {
      NeverRecovers(t, i, start, d, k, at, burst);
      DueNext(start, d, k');
      QuotientIs(start, d, k' + 1, at);
    }
  }

  lemma {:induction false} StepsAppend(t: Timers, a: seq<Event>, b: seq<Event>)
    ensures Steps(t, a + b) == Steps(Steps(t, a), b)
    decreases |a|
  {
    hide Step;
    if a == [] {
      assert a + b == b;
    } else {
      assert (a + b)[1..] == a[1..] + b;
      StepsAppend(Step(t, a[0]), a[1..], b);
    }
  }

  /** After any run, given as many polls as calls can be owed, an interval has fired once for every whole delay
      since its start exactly if no poll of the run came a whole turn of the clock behind the last due time. */
  lemma CatchesUpIff(t: Timers, i: nat, start: nat, d: nat, k: nat, from: nat, events: seq<Event>, burst: seq<Event>)
    requires Interval(t, i, start, d, k) && start <= from && DueAt(start, d, k) <= from < DueAt(start, d, k) + CLOCK
    requires Ordered(events, from, i)
    requires var last := LastPoll(events, from);
      Ordered(burst, last, i) && LastPoll(burst, last) == last && Polls(burst) >= (last - start) / d
    ensures Counted(t, k, i, events + burst) == (LastPoll(events, from) - start) / d <==>
      Punctual(events, DueAt(start, d, k), d)
  {
    hide Interval, Runs, Steps, Ordered, LastPoll, Polls, Punctual, DueAt;
    IntervalFacts(t, i, start, d, k);
    var last, k' := LastPoll(events, from), Counted(t, k, i, events);
    NeverEarly(t, i, start, d, k, from, events);
    PunctualIff(t, i, start, d, k, from, events);
    LastPollAfter(events, from, i);
    StepsAppend(t, events, burst);
    BurstIff(Steps(t, events), i, start, d, k', last, burst);
  }

  /** A whole turn of the clock late, the poll does not see the backlog. */
  lemma BacklogLost(s: Slot, due: nat, d: nat)
    requires Ticking(s, d) && d > 0 && s.prev == Clock(due)
    ensures !Fires(s, Clock(due + CLOCK))
  {
    PollInterval(s, due + CLOCK, due, d);
  }
}
