/** Whether free entries of the route table go before live ones, step by step and over runs. */
module RouteOrder {
  import opened RouteModel

  // ---- a live route lost while a slot is free ----

  /** The step needs an entry for a key that is not in the table. */
  predicate Takes(t: seq<Entry>, e: Event) {
    match e
    case UpdateRoute(dst, m, _, _) => Find(t, dst, m) == |t|
    case FrameReceived(_, f) => !Ignored(f) && Find(t, f.nwkSrc, false) == |t|
    case _ => false
  }

  ghost predicate LosesKey(t: seq<Entry>, t': seq<Entry>) { exists k :: k in View(t) && k !in View(t') }

  /** Learning a route costs another one although a slot is free. */
  ghost predicate Wastes(t: seq<Entry>, e: Event)
    requires HasRoom(t)
  {
    HasFree(t) && (e.UpdateRoute? || e.FrameReceived?) && LosesKey(t, Step(t, e))
  }

  lemma LosesEvicted(t: seq<Entry>, t': seq<Entry>, k: Key, hop: nat)
    requires Sound(t) && View(t') == (View(t) - Evicted(t)) + Learned(k, hop) && k !in View(t)
    ensures LosesKey(t, t') <==> Evicted(t) != {}
  {
    hide View, Sound, Evicted, Overtaken, HasFree, FreeLow;
    SoundRoom(t);
    EvictedIs(t);
    if lost :| lost in Evicted(t) {
      assert lost in View(t) && lost !in View(t');
    }
  }

  lemma LosesNone(t: seq<Entry>, t': seq<Entry>, k: Key, hop: nat)
    requires View(t') == View(t) || View(t') == (View(t) - {}) + Learned(k, hop)
    ensures !LosesKey(t, t')
  {
  }

  lemma WastesByKey(t: seq<Entry>, t': seq<Entry>, k: Key, hop: nat)
    requires Sound(t) && View(t') == (View(t) - Displaced(t, k)) + Learned(k, hop)
    ensures LosesKey(t, t') <==> Find(t, k.dst, k.multicast) == |t| && Evicted(t) != {}
  {
    hide View, Sound, Find, Evicted, LosesKey;
    SoundRoom(t);
    FoundEntry(t, k);
    if Find(t, k.dst, k.multicast) < |t| { LosesNone(t, t', k, hop); } else { LosesEvicted(t, t', k, hop); }
  }

  /** A step costs another route although a slot is free exactly if it needs an entry when a live one comes
      before all free ones. */
  lemma WastesIff(t: seq<Entry>, e: Event)
    requires Sound(t)
    ensures Wastes(t, e) <==> Takes(t, e) && Overtaken(t)
  {
    hide View, Sound, Find, Evicted, LosesKey, Ignored, HasFree, Update, Received;
    SoundRoom(t);
    EvictedIs(t);
    match e
    case UpdateRoute(dst, m, nextHop, lqi) =>
      UpdateView(t, dst, m, nextHop, lqi);
      WastesByKey(t, Step(t, e), Key(dst, m), nextHop);
    case FrameReceived(addr, f) =>
      ReceivedView(t, addr, f);
      var k := Key(f.nwkSrc, false);
      if Ignored(f) || View(Step(t, e)) == View(t) {
        LosesNone(t, Step(t, e), k, f.macSrc);
      }
      if !Ignored(f) && View(Step(t, e)) == (View(t) - Displaced(t, k)) + Learned(k, f.macSrc) {
        WastesByKey(t, Step(t, e), k, f.macSrc);
      }
    case _ =>
  }

  /** Some step of the run costs another route although a slot is free. */
  ghost predicate WastesInRun(t: seq<Entry>, events: seq<Event>)
    requires Sound(t)
    decreases |events|
  {
    events != [] &&
    (StepSound(t, events[0]); Wastes(t, events[0]) || WastesInRun(Step(t, events[0]), events[1..]))
  }

  /** Some step of the run needs an entry when a live one comes before all free ones. */
  ghost predicate TakesOvertaken(t: seq<Entry>, events: seq<Event>)
    requires Sound(t)
    decreases |events|
  {
    events != [] &&
    (StepSound(t, events[0]);
     (Takes(t, events[0]) && Overtaken(t)) || TakesOvertaken(Step(t, events[0]), events[1..]))
  }

  /** Over a whole run a route is lost to another while a slot is free exactly if some step needs an entry when a
      live one comes before all free ones; with proper steps from a good table that never happens. */
  lemma {:induction false} RunWastesIff(t: seq<Entry>, events: seq<Event>)
    requires Sound(t)
    ensures WastesInRun(t, events) <==> TakesOvertaken(t, events)
    ensures Inv(t) && ProperRun(t, events) ==> !WastesInRun(t, events)
    decreases |events|
  {
    hide Sound, Step, Wastes, Takes, Overtaken, Proper, FreeLow;
    SoundRoom(t);
    if events != [] {
      StepSound(t, events[0]);
      WastesIff(t, events[0]);
      RunWastesIff(Step(t, events[0]), events[1..]);
      if Inv(t) {
        FreeBeforeLive(t);
        StepInvIff(t, events[0]);
      }
    }
  }

  // ---- the order of ranks ----

  /** Free entries rank below live ones. */
  ghost predicate FreeBelow(t: seq<Entry>) {
    forall i, j | FreeAt(t, j) && LiveAt(t, i) :: t[j].rank < t[i].rank
  }

  ghost predicate FreeBelowRank(t: seq<Entry>, at: nat, rank: nat) {
    forall j | FreeAt(t, j) && j != at :: t[j].rank < rank
  }

  ghost predicate LiveAboveRank(t: seq<Entry>, at: nat, rank: nat) {
    forall i | LiveAt(t, i) && i != at :: rank < t[i].rank
  }

  /** In entry `at` a rank is in its place, for a live or a free entry, unless the entry is fixed. */
  ghost predicate InPlace(t: seq<Entry>, at: nat, live: bool, rank: nat)
    requires at < |t|
  {
    t[at].fixed || if live then FreeBelowRank(t, at, rank) else LiveAboveRank(t, at, rank)
  }

  lemma SetOrder(t: seq<Entry>, at: nat, e: Entry)
    requires FreeBelow(t) && at < |t| && e.fixed == t[at].fixed
    ensures FreeBelow(t[at := e]) <==> InPlace(t, at, Live(e), e.rank)
  {
    var t' := t[at := e];
    assert forall j | j != at :: (FreeAt(t', j) <==> FreeAt(t, j)) && (LiveAt(t', j) <==> LiveAt(t, j));
    if FreeBelow(t') && !e.fixed {
      if Live(e) {
        assert LiveAt(t', at);
        forall j | FreeAt(t, j) && j != at ensures t[j].rank < e.rank { assert FreeAt(t', j); }
      } else {
        assert FreeAt(t', at);
        forall i | LiveAt(t, i) && i != at ensures e.rank < t[i].rank { assert LiveAt(t', i); }
      }
    }
    if InPlace(t, at, Live(e), e.rank) {
      forall i, j | FreeAt(t', j) && LiveAt(t', i) ensures t'[j].rank < t'[i].rank {
        assert i == at || j == at || (FreeAt(t, j) && LiveAt(t, i));
      }
    }
  }

  /** The key a step is about. */
  function Subject(e: Event): Key {
    match e
    case UpdateRoute(dst, m, _, _) => Key(dst, m)
    case RemoveRoute(dst, m) => Key(dst, m)
    case FrameReceived(_, f) => Key(f.nwkSrc, false)
    case FrameSent(dst, m, _) => Key(dst, m)
  }

  /** The entry a route to `k` is written to. */
  function Written(t: seq<Entry>, k: Key): (r: nat)
    requires HasRoom(t)
    ensures r < |t|
  {
    VictimIsLeast(t);
    var i := Find(t, k.dst, k.multicast);
    if i < |t| then i else Victim(t)
  }

  /** The success that brings a rank to the limit. */
  predicate Halves(t: seq<Entry>, dst: nat, multicast: bool, success: bool) {
    var i := Find(t, dst, multicast);
    dst != BROADCAST_ADDR && i < |t| && !t[i].fixed && success && t[i].rank + 1 == MAX_RANK
  }

  /** No free entry but a lower one than each live entry besides `at` is left by halving. */
  ghost predicate HalvesApart(t: seq<Entry>, at: nat) {
    forall i, j | FreeAt(t, j) && LiveAt(t, i) && i != at :: t[j].rank / 2 < t[i].rank / 2
  }

  /** The steps that keep free entries below live ones: a middle rank given must be in its place, and the order
      of free and live entries must survive a halving. */
  ghost predicate KeepsOrder(t: seq<Entry>, e: Event)
    requires HasRoom(t)
  {
    match e
    case UpdateRoute(dst, _, _, _) => InPlace(t, Written(t, Subject(e)), dst != ROUTE_UNKNOWN, DEFAULT_RANK)
    case FrameReceived(_, f) =>
      Takes(t, e) ==> InPlace(t, Written(t, Subject(e)), f.nwkSrc != ROUTE_UNKNOWN, DEFAULT_RANK)
    case FrameSent(dst, m, success) => Halves(t, dst, m, success) ==> HalvesApart(t, Find(t, dst, m))
    case RemoveRoute(_, _) => true
  }

  lemma UpdateOrder(t: seq<Entry>, dst: nat, multicast: bool, nextHop: nat, lqi: nat)
    requires Sound(t) && FreeBelow(t)
    ensures FreeBelow(Update(t, dst, multicast, nextHop, lqi)) <==>
      KeepsOrder(t, UpdateRoute(dst, multicast, nextHop, lqi))
  {
    hide Sound, FreeBelow, Find, Victim, InPlace, HasRoom;
    SoundRoom(t);
    VictimIsLeast(t);
    var at := Written(t, Key(dst, multicast));
    SetOrder(t, at, Update(t, dst, multicast, nextHop, lqi)[at]);
  }

  /** An entry that stays live or stays free, and keeps its rank, keeps the order. */
  lemma SameOrder(t: seq<Entry>, at: nat, e: Entry)
    requires FreeBelow(t) && at < |t| && e.fixed == t[at].fixed && Live(e) == Live(t[at])
    requires if Live(e) then t[at].rank <= e.rank else e.rank <= t[at].rank
    ensures FreeBelow(t[at := e])
  {
    SetOrder(t, at, e);
    if !e.fixed {
      assert if Live(e) then LiveAt(t, at) else FreeAt(t, at);
    }
  }

  lemma ReceivedOrder(t: seq<Entry>, addr: nat, f: RxFrame)
    requires Sound(t) && FreeBelow(t)
    ensures FreeBelow(Received(t, addr, f)) <==> KeepsOrder(t, FrameReceived(addr, f))
  {
    hide Sound, FreeBelow, Find, Victim, InPlace, HasRoom, Ignored;
    SoundRoom(t);
    VictimIsLeast(t);
    var at := Written(t, Key(f.nwkSrc, false));
    var e := Received(t, addr, f)[at];
    if Takes(t, FrameReceived(addr, f)) {
      SetOrder(t, at, e);
    } else if !Ignored(f) {
      SameOrder(t, at, e);
    }
  }

  /** A freed entry ranks below every live one. */
  lemma FreedOrder(t: seq<Entry>, at: nat, e: Entry)
    requires Sound(t) && FreeBelow(t) && at < |t| && e.fixed == t[at].fixed && !Live(e) && e.rank == 0
    ensures FreeBelow(t[at := e])
  {
    SetOrder(t, at, e);
    assert forall i | LiveAt(t, i) :: LiveOk(t[i]);
  }

  lemma RemoveOrder(t: seq<Entry>, dst: nat, multicast: bool)
    requires Sound(t) && FreeBelow(t)
    ensures FreeBelow(Remove(t, dst, multicast))
  {
    hide Sound, FreeBelow, Find;
    var i := Find(t, dst, multicast);
    if i < |t| && !t[i].fixed { FreedOrder(t, i, Remove(t, dst, multicast)[i]); }
  }

  /** Halving with the raised entry at the limit. */
  lemma HalvedOrder(t: seq<Entry>, at: nat, e: Entry)
    requires FreeBelow(t) && LiveAt(t, at) && t[at].rank + 1 == MAX_RANK
    requires e == t[at].(score := DEFAULT_SCORE, rank := MAX_RANK)
    ensures FreeBelow(Normalized(t[at := e])) <==> HalvesApart(t, at)
  {
    var t' := Normalized(t[at := e]);
    assert forall j :: (FreeAt(t', j) <==> FreeAt(t, j)) && (LiveAt(t', j) <==> LiveAt(t, j));
    assert forall j | 0 <= j < |t| && j != at :: t'[j].rank == t[j].rank / 2 + 1;
    assert t'[at].rank == 128;
    if FreeBelow(t') {
      forall i, j | FreeAt(t, j) && LiveAt(t, i) && i != at ensures t[j].rank / 2 < t[i].rank / 2 {
        assert FreeAt(t', j) && LiveAt(t', i);
      }
    }
    if HalvesApart(t, at) {
      forall i, j | FreeAt(t', j) && LiveAt(t', i) ensures t'[j].rank < t'[i].rank {
        assert FreeAt(t, j) && LiveAt(t, i) && j != at;
      }
    }
  }

  lemma SentOrder(t: seq<Entry>, dst: nat, multicast: bool, success: bool)
    requires Sound(t) && FreeBelow(t)
    ensures FreeBelow(Sent(t, dst, multicast, success)) <==> KeepsOrder(t, FrameSent(dst, multicast, success))
  {
    hide Sound, FreeBelow, Find, Normalized, HalvesApart, HasRoom;
    SoundRoom(t);
    var i := Find(t, dst, multicast);
    if dst != BROADCAST_ADDR && i < |t| && !t[i].fixed {
      FoundEntry(t, Key(dst, multicast));
      var e := if success then t[i].(score := DEFAULT_SCORE, rank := (t[i].rank + 1) % 256)
               else t[i].(score := (t[i].score + 15) % 16);
      if e.rank == MAX_RANK {
        HalvedOrder(t, i, e);
      } else if e.score == 0 {
        FreedTwice(t, i, e);
        FreedOrder(t, i, e.(dst := ROUTE_UNKNOWN, rank := 0));
      } else {
        SameOrder(t, i, e);
      }
    }
  }

  /** A step leaves free entries ranking below live ones exactly if it gives a middle rank in its place, and
      halves ranks that stay apart. */
  lemma StepOrderIff(t: seq<Entry>, e: Event)
    requires Sound(t) && FreeBelow(t)
    ensures FreeBelow(Step(t, e)) <==> KeepsOrder(t, e)
  {
    hide Sound, FreeBelow, HasRoom, Takes, Halves, HalvesApart, InPlace, Written;
    SoundRoom(t);
    match e
    case UpdateRoute(dst, m, nextHop, lqi) => UpdateOrder(t, dst, m, nextHop, lqi);
    case RemoveRoute(dst, m) => RemoveOrder(t, dst, m);
    case FrameReceived(addr, frame) => ReceivedOrder(t, addr, frame);
    case FrameSent(dst, m, success) => SentOrder(t, dst, m, success);
  }

  lemma LowRanks(t: seq<Entry>, at: nat)
    requires Inv(t)
    ensures FreeBelow(t) && FreeBelowRank(t, at, DEFAULT_RANK) && HalvesApart(t, at)
  {
    assert forall j | FreeAt(t, j) :: FreeOk(t[j]);
    assert forall i | LiveAt(t, i) :: LiveOk(t[i]);
  }

  /** While free entries rank at most 1, only a free entry left with a middle rank can break the order, and it
      does unless all other live entries rank higher still. */
  lemma InvOrderIff(t: seq<Entry>, e: Event)
    requires Inv(t)
    ensures FreeBelow(t)
    ensures FreeBelow(Step(t, e)) <==> Proper(t, e) || LiveAboveRank(t, Written(t, Subject(e)), DEFAULT_RANK)
  {
    hide Find, Victim, HasRoom, Sound, FreeLow, Ignored, Step, FreeBelow, LiveAboveRank, FreeBelowRank, HalvesApart;
    SoundRoom(t);
    VictimIsLeast(t);
    LowRanks(t, Written(t, Subject(e)));
    LowRanks(t, Find(t, Subject(e).dst, Subject(e).multicast));
    StepOrderIff(t, e);
  }

  lemma BelowSafe(t: seq<Entry>)
    requires FreeBelow(t)
    ensures !Overtaken(t)
  {
  }

  ghost predicate BelowThroughout(t: seq<Entry>, events: seq<Event>)
    requires Sound(t)
    decreases |events|
  {
    FreeBelow(t) && (events == [] || (StepSound(t, events[0]); BelowThroughout(Step(t, events[0]), events[1..])))
  }

  ghost predicate KeepsOrderRun(t: seq<Entry>, events: seq<Event>)
    requires Sound(t)
    decreases |events|
  {
    events == [] ||
    (StepSound(t, events[0]); KeepsOrder(t, events[0]) && KeepsOrderRun(Step(t, events[0]), events[1..]))
  }

  /** Over a whole run free entries rank below live ones exactly if every step keeps the order where it is taken,
      and then no route is lost to another while a slot is free. */
  lemma {:induction false} RunOrderIff(t: seq<Entry>, events: seq<Event>)
    requires Sound(t) && FreeBelow(t)
    ensures BelowThroughout(t, events) <==> KeepsOrderRun(t, events)
    ensures KeepsOrderRun(t, events) ==> !WastesInRun(t, events)
    decreases |events|
  {
    hide Sound, Step, Wastes, Takes, Overtaken, KeepsOrder, FreeBelow;
    SoundRoom(t);
    if events != [] {
      var u := Step(t, events[0]);
      StepSound(t, events[0]);
      StepOrderIff(t, events[0]);
      BelowSafe(t);
      WastesIff(t, events[0]);
      if FreeBelow(u) { RunOrderIff(u, events[1..]); }
    }
  }
}
