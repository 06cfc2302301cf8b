/** `SimpleTimer` with its parallel arrays. Callbacks do not call the timer again. */
module SimpleTimer {
  import T = TimerModel

  const NULL: nat := 0

  class SimpleTimer {
    const callbacks: array<nat>
    const enabled: array<bool>
    const prevMillis: array<nat>
    const delays: array<int>
    const maxNumRuns: array<int>
    const numRuns: array<int>
    const toBeCalled: array<T.Call>
    var numTimers: int
    ghost var calls: seq<nat>   // slots whose callbacks ran

    ghost predicate Shape() {
      callbacks.Length == enabled.Length == prevMillis.Length == delays.Length == maxNumRuns.Length == numRuns.Length ==
      toBeCalled.Length == T.MAX_TIMERS &&
      delays != maxNumRuns && delays != numRuns && maxNumRuns != numRuns && callbacks != prevMillis
    }

    ghost function SlotAt(i: nat): T.Slot
      reads callbacks, enabled, prevMillis, delays, maxNumRuns, numRuns
      requires Shape() && i < T.MAX_TIMERS
    {
      T.Slot(callbacks[i], enabled[i], prevMillis[i], delays[i], maxNumRuns[i], numRuns[i])
    }

    ghost function Slots(): (r: seq<T.Slot>)
      reads callbacks, enabled, prevMillis, delays, maxNumRuns, numRuns
      requires Shape()
      ensures |r| == T.MAX_TIMERS && forall i | 0 <= i < T.MAX_TIMERS :: r[i] == SlotAt(i)
    {
      seq(T.MAX_TIMERS, i requires 0 <= i < T.MAX_TIMERS && Shape()
        reads callbacks, enabled, prevMillis, delays, maxNumRuns, numRuns => SlotAt(i))
    }

    ghost function State(): T.Timers
      reads this, callbacks, enabled, prevMillis, delays, maxNumRuns, numRuns
      requires Shape()
    {
      T.Timers(Slots(), numTimers, calls)
    }

    ghost predicate Valid()
      reads this, callbacks, enabled, prevMillis, delays, maxNumRuns, numRuns
    {
      Shape() && T.Inv(State())
    }

    constructor (elapsed: nat)
      requires elapsed < T.CLOCK
      ensures Valid() && numTimers == 0 && calls == []
    {
      callbacks := new nat[T.MAX_TIMERS](_ => NULL);
      enabled := new bool[T.MAX_TIMERS](_ => false);
      prevMillis := new nat[T.MAX_TIMERS](_ => elapsed);
      delays := new int[T.MAX_TIMERS];
      maxNumRuns := new int[T.MAX_TIMERS];
      numRuns := new int[T.MAX_TIMERS](_ => 0);
      toBeCalled := new T.Call[T.MAX_TIMERS](_ => T.DontRun);
      numTimers, calls := 0, [];
      new;
      T.CountNone(Slots());
    }

    method FindFirstFreeSlot() returns (r: int)
      requires Valid()
      ensures r == var i := T.FirstFree(Slots(), 0); if numTimers >= T.MAX_TIMERS || i == T.MAX_TIMERS then -1 else i
    {
      if numTimers >= T.MAX_TIMERS { return -1; }
      var i := 0;
      while i < T.MAX_TIMERS
        invariant i <= T.MAX_TIMERS && T.FirstFree(Slots(), i) == T.FirstFree(Slots(), 0)
      {
        if callbacks[i] == NULL { return i; }
        i := i + 1;
      }
      return -1;
    }

    method SetTimer(d: int, f: nat, n: int, elapsed: nat) returns (r: int)
      requires Valid() && elapsed < T.CLOCK
      modifies this, callbacks, enabled, prevMillis, delays, maxNumRuns
      ensures Valid() && State() == T.SetTimer(old(State()), d, f, n, elapsed) && r == T.TimerNumber(old(State()), f)
    {
      hide T.Count;
      var freeTimer := FindFirstFreeSlot();
      if freeTimer < 0 { return -1; }
      if f == NULL { return -1; }
      delays[freeTimer] := d;
      callbacks[freeTimer] := f;
      maxNumRuns[freeTimer] := n;
      enabled[freeTimer] := true;
      prevMillis[freeTimer] := elapsed;
      numTimers := numTimers + 1;
      T.StepInv(old(State()), T.Set(d, f, n, elapsed));
      assert Slots() == old(Slots())[freeTimer := SlotAt(freeTimer)];
      return freeTimer;
    }

    /** `run`, first loop, one slot. */
    method PollTimer(i: nat, now: nat)
      requires Shape() && i < T.MAX_TIMERS && prevMillis[i] < T.CLOCK
      modifies prevMillis, numRuns, toBeCalled
      ensures Slots() == old(Slots())[i := T.Polled(old(Slots())[i], now).0]
      ensures toBeCalled[..] == old(toBeCalled[..])[i := T.Polled(old(Slots())[i], now).1]
    {
      toBeCalled[i] := T.DontRun;
      if callbacks[i] != NULL {
        if (now - prevMillis[i]) % T.CLOCK >= delays[i] % T.CLOCK {
          prevMillis[i] := (prevMillis[i] + delays[i] % T.CLOCK) % T.CLOCK;
          if enabled[i] {
            if maxNumRuns[i] == T.RUN_FOREVER {
              toBeCalled[i] := T.RunOnly;
            } else if numRuns[i] < maxNumRuns[i] {
              toBeCalled[i] := T.RunOnly;
              numRuns[i] := numRuns[i] + 1;
              if numRuns[i] >= maxNumRuns[i] { toBeCalled[i] := T.RunAndDelete; }
            }
          }
        }
      }
      assert SlotAt(i) == T.Polled(old(SlotAt(i)), now).0;
    }

    /** `run`, second loop, one slot. */
    method ServeTimer(i: nat)
      requires Shape() && i < T.MAX_TIMERS && numTimers == T.Count(Slots())
      requires toBeCalled[i] == T.RunAndDelete ==> callbacks[i] != NULL
      modifies this`numTimers, this`calls, callbacks, enabled, delays, numRuns, toBeCalled
      ensures numTimers == T.Count(Slots())
      ensures forall j | 0 <= j < T.MAX_TIMERS && j != i :: toBeCalled[j] == old(toBeCalled[j])
      ensures old(toBeCalled[i]) != T.RunAndDelete ==> Slots() == old(Slots())
      ensures old(toBeCalled[i]) == T.RunAndDelete ==> Slots() == old(Slots())[i := T.Deleted(old(Slots())[i])]
      ensures calls == old(calls) + if old(toBeCalled[i]) == T.DontRun then [] else [i]
    {
      hide T.Count;
      match toBeCalled[i]
      case DontRun =>
      case RunOnly => calls := calls + [i];
      case RunAndDelete =>
        calls := calls + [i];
        T.CountPositive(Slots(), i);
        DeleteTimer(i);
    }

    method Run(elapsed: nat)
      requires Valid() && elapsed < T.CLOCK
      modifies this`numTimers, this`calls, callbacks, enabled, prevMillis, delays, numRuns, toBeCalled
      ensures Valid() && State() == T.Run(old(State()), elapsed)
    {
      hide T.Count, T.Polled, T.Served, T.SlotOk;
      ghost var s := Slots();
      T.StepInv(State(), T.Poll(elapsed));
      PollAll(elapsed);
      T.PolledCount(s, Slots(), elapsed);
      ServeAll(s, elapsed);
      assert Slots() == T.ServedAll(s, elapsed);
    }

    /** The second loop of `run`, for timers that were `s` before they were polled. */
    method ServeAll(ghost s: seq<T.Slot>, ghost now: nat)
      requires Shape() && numTimers == T.Count(Slots()) && |s| == T.MAX_TIMERS
      requires forall j | 0 <= j < T.MAX_TIMERS :: Slots()[j] == T.Polled(s[j], now).0
      requires forall j | 0 <= j < T.MAX_TIMERS :: toBeCalled[j] == T.Polled(s[j], now).1
      modifies this`numTimers, this`calls, callbacks, enabled, delays, numRuns, toBeCalled
      ensures numTimers == T.Count(Slots()) && calls == old(calls) + T.CallsBelow(s, now, T.MAX_TIMERS)
      ensures forall j | 0 <= j < T.MAX_TIMERS :: Slots()[j] == T.Served(s[j], now)
    {
      hide T.Count, T.Polled, T.Deleted;
      var i := 0;
      while i < T.MAX_TIMERS
        invariant i <= T.MAX_TIMERS && numTimers == T.Count(Slots())
        invariant forall j | 0 <= j < i :: Slots()[j] == T.Served(s[j], now)
        invariant forall j | i <= j < T.MAX_TIMERS :: Slots()[j] == T.Polled(s[j], now).0
        invariant forall j | i <= j < T.MAX_TIMERS :: toBeCalled[j] == T.Polled(s[j], now).1
        invariant calls == old(calls) + T.CallsBelow(s, now, i)
      {
        T.PolledShape(s[i], now);
        ServeTimer(i);
        i := i + 1;
      }
    }

    method PollAll(elapsed: nat)
      requires Valid()
      modifies prevMillis, numRuns, toBeCalled
      ensures Shape() && forall j | 0 <= j < T.MAX_TIMERS ::
        Slots()[j] == T.Polled(old(Slots())[j], elapsed).0 && toBeCalled[j] == T.Polled(old(Slots())[j], elapsed).1
    {
      hide T.Polled, T.Count;
      ghost var s := Slots();
      var i := 0;
      while i < T.MAX_TIMERS
        invariant i <= T.MAX_TIMERS
        invariant forall j | 0 <= j < i :: Slots()[j] == T.Polled(s[j], elapsed).0
        invariant forall j | 0 <= j < i :: toBeCalled[j] == T.Polled(s[j], elapsed).1
        invariant forall j | i <= j < T.MAX_TIMERS :: Slots()[j] == s[j]
      {
        assert T.SlotOk(s[i]) && s[i] == SlotAt(i);
        PollTimer(i, elapsed);
        i := i + 1;
      }
    }

    /** Called from `run` too, when the limits of a timer about to be deleted are reached. */
    method DeleteTimer(timerId: nat)
      requires Shape() && numTimers == T.Count(Slots())
      modifies this`numTimers, callbacks, enabled, delays, numRuns, toBeCalled
      ensures State() == T.DeleteTimer(old(State()), timerId) && numTimers == T.Count(Slots())
      ensures forall j | 0 <= j < T.MAX_TIMERS && j != timerId :: toBeCalled[j] == old(toBeCalled[j])
      ensures old(T.Inv(State())) ==> Valid()
    {
      if timerId >= T.MAX_TIMERS { return; }
      if numTimers == 0 { return; }
      if callbacks[timerId] != NULL {
        ghost var s := Slots();
        callbacks[timerId] := NULL;
        enabled[timerId] := false;
        toBeCalled[timerId] := T.DontRun;
        delays[timerId] := 0;
        numRuns[timerId] := 0;
        numTimers := numTimers - 1;
        assert SlotAt(timerId) == T.Deleted(s[timerId]);
        assert Slots() == s[timerId := T.Deleted(s[timerId])];
        T.CountSet(s, timerId, T.Deleted(s[timerId]));
      }
    }

    method RestartTimer(numTimer: nat, elapsed: nat)
      requires Valid() && elapsed < T.CLOCK
      modifies prevMillis
      ensures Valid() && State() == T.Restart(old(State()), numTimer, elapsed)
    {
      T.StepInv(State(), T.RestartAt(numTimer, elapsed));
      if numTimer >= T.MAX_TIMERS { return; }
      prevMillis[numTimer] := elapsed;
      assert Slots() == old(Slots())[numTimer := SlotAt(numTimer)];
    }

    method IsEnabled(numTimer: nat) returns (r: bool)
      requires Valid()
      ensures r == (numTimer < T.MAX_TIMERS && Slots()[numTimer].on)
    {
      if numTimer >= T.MAX_TIMERS { return false; }
      return enabled[numTimer];
    }

    method Enable(numTimer: nat)
      requires Valid()
      modifies enabled
      ensures Valid() && State() == T.Switch(old(State()), numTimer, true)
    {
      T.StepInv(State(), T.Turn(numTimer, true));
      if numTimer >= T.MAX_TIMERS { return; }
      enabled[numTimer] := true;
      assert Slots() == old(Slots())[numTimer := SlotAt(numTimer)];
    }

    method Disable(numTimer: nat)
      requires Valid()
      modifies enabled
      ensures Valid() && State() == T.Switch(old(State()), numTimer, false)
    {
      T.StepInv(State(), T.Turn(numTimer, false));
      if numTimer >= T.MAX_TIMERS { return; }
      enabled[numTimer] := false;
      assert Slots() == old(Slots())[numTimer := SlotAt(numTimer)];
    }

    method Toggle(numTimer: nat)
      requires Valid()
      modifies enabled
      ensures Valid() && State() == T.Toggle(old(State()), numTimer)
    {
      T.StepInv(State(), T.Flip(numTimer));
      if numTimer >= T.MAX_TIMERS { return; }
      enabled[numTimer] := !enabled[numTimer];
      assert Slots() == old(Slots())[numTimer := SlotAt(numTimer)];
    }
  }
}
