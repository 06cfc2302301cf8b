/** The mesh route table on values: ranks decide which route is evicted, scores which is dropped. */
module RouteModel {
  const ROUTE_UNKNOWN: nat := 0xffff
  const BROADCAST_ADDR: nat := 0xffff
  const BROADCAST_PANID: nat := 0xffff
  const NON_ROUTING: nat := 0x8000
  const DEFAULT_SCORE: nat := 3
  const DEFAULT_RANK: nat := 128
  const MAX_RANK: nat := 255

  /** `score` is a 4-bit field, `rank` an 8-bit one. */
  datatype Entry = Entry(fixed: bool, multicast: bool, score: nat, dst: nat, nextHop: nat, rank: nat, lqi: nat)

  datatype Key = Key(dst: nat, multicast: bool)

  datatype RxFrame = RxFrame(macSrc: nat, macDst: nat, macDstPan: nat, nwkSrc: nat, nwkDst: nat, lqi: nat)

  // ---- operations ----

  predicate Matches(e: Entry, dst: nat, multicast: bool) { e.dst == dst && e.multicast == multicast }

  /** First matching entry from `i` on, or the length of the table. */
  function FindFrom(t: seq<Entry>, dst: nat, multicast: bool, i: nat): (r: nat)
    requires i <= |t|
    ensures i <= r <= |t| && (r < |t| ==> Matches(t[r], dst, multicast))
    ensures forall j | i <= j < r :: !Matches(t[j], dst, multicast)
    decreases |t| - i
  {
    if i == |t| || Matches(t[i], dst, multicast) then i else FindFrom(t, dst, multicast, i + 1)
  }

  function Find(t: seq<Entry>, dst: nat, multicast: bool): (r: nat)
    ensures r <= |t| && (r < |t| ==> Matches(t[r], dst, multicast))
    ensures forall j | 0 <= j < r :: !Matches(t[j], dst, multicast)
  {
    FindFrom(t, dst, multicast, 0)
  }

  ghost predicate HasRoom(t: seq<Entry>) { exists i :: 0 <= i < |t| && !t[i].fixed }

  /** The scan for an entry to reuse; `best` is the candidate so far, the length of the table if there is none. */
  function VictimFrom(t: seq<Entry>, i: nat, best: nat): (r: nat)
    requires i <= |t| && (best < i || best == |t|)
    ensures r <= |t|
    decreases |t| - i
  {
    if i == |t| then best
    else if t[i].fixed then VictimFrom(t, i + 1, best)
    else if t[i].rank == 0 then i
    else if best == |t| || t[i].rank < t[best].rank then VictimFrom(t, i + 1, i)
    else VictimFrom(t, i + 1, best)
  }

  function Victim(t: seq<Entry>): nat { VictimFrom(t, 0, |t|) }

  /** What `NWK_RouteNewEntry` leaves in the entry it returns. */
  function Renewed(e: Entry): Entry { e.(multicast := false, score := DEFAULT_SCORE, rank := DEFAULT_RANK) }

  function Freed(t: seq<Entry>, i: nat): seq<Entry>
    requires i < |t|
  {
    if t[i].fixed then t else t[i := t[i].(dst := ROUTE_UNKNOWN, rank := 0)]
  }

  function NextHop(t: seq<Entry>, dst: nat, multicast: bool): nat {
    var i := Find(t, dst, multicast);
    if i < |t| then t[i].nextHop else ROUTE_UNKNOWN
  }

  function Update(t: seq<Entry>, dst: nat, multicast: bool, nextHop: nat, lqi: nat): seq<Entry>
    requires HasRoom(t)
  {
    var i := Find(t, dst, multicast);
    VictimIsLeast(t);
    var k := if i < |t| then i else Victim(t);
    t[k := Entry(t[k].fixed, multicast, DEFAULT_SCORE, dst, nextHop, DEFAULT_RANK, lqi)]
  }

  function Remove(t: seq<Entry>, dst: nat, multicast: bool): seq<Entry> {
    var i := Find(t, dst, multicast);
    if i < |t| then Freed(t, i) else t
  }

  /** Frames that were sent on by another node, or to any network, teach nothing. */
  predicate Ignored(f: RxFrame) {
    (f.macSrc / NON_ROUTING % 2 == 1 && f.macSrc != f.nwkSrc) || f.macDstPan == BROADCAST_PANID
  }

  /** A known route is replaced by a better link, or when the frame answers a discovery. */
  predicate Better(e: Entry, f: RxFrame, addr: nat) {
    (e.nextHop != f.macSrc && f.lqi > e.lqi) || (f.macDst == BROADCAST_ADDR && addr == f.nwkDst)
  }

  function Learn(e: Entry, f: RxFrame, addr: nat): Entry {
    (if Better(e, f, addr) then e.(nextHop := f.macSrc, score := DEFAULT_SCORE) else e).(lqi := f.lqi)
  }

  function Received(t: seq<Entry>, addr: nat, f: RxFrame): seq<Entry>
    requires HasRoom(t)
  {
    if Ignored(f) then t
    else
      var i := Find(t, f.nwkSrc, false);
      if i < |t| then t[i := Learn(t[i], f, addr)]
      else
        VictimIsLeast(t);
        var k := Victim(t);
        t[k := Renewed(t[k]).(dst := f.nwkSrc, nextHop := f.macSrc, lqi := f.lqi)]
  }

  function Normalized(t: seq<Entry>): (r: seq<Entry>)
    ensures |r| == |t| && forall i | 0 <= i < |t| :: r[i] == t[i].(rank := t[i].rank / 2 + 1)
  {
    seq(|t|, i requires 0 <= i < |t| => t[i].(rank := t[i].rank / 2 + 1))
  }

  function Sent(t: seq<Entry>, dst: nat, multicast: bool, success: bool): seq<Entry> {
    var i := Find(t, dst, multicast);
    if dst == BROADCAST_ADDR || i == |t| || t[i].fixed then t
    else if success then
      var rank := (t[i].rank + 1) % 256;
      var t' := t[i := t[i].(score := DEFAULT_SCORE, rank := rank)];
      if rank == MAX_RANK then Normalized(t') else t'
    else
      var score := (t[i].score + 15) % 16;
      var t' := t[i := t[i].(score := score)];
      if score == 0 then Freed(t', i) else t'
  }

  // ---- which entry is reused ----

  /** `v` is the first non-fixed entry of least rank among the first `n` entries. */
  ghost predicate FirstLeast(t: seq<Entry>, v: nat, n: nat)
    requires n <= |t|
  {
    v < n && !t[v].fixed && forall j | 0 <= j < n && !t[j].fixed :: v == j || Ahead(t, v, j)
  }

  /** Entry `i` comes before entry `j` when one is taken for reuse. */
  predicate Ahead(t: seq<Entry>, i: int, j: int)
    requires 0 <= i < |t| && 0 <= j < |t|
  {
    t[i].rank < t[j].rank || (t[i].rank == t[j].rank && i < j)
  }

  lemma {:induction false} VictimScan(t: seq<Entry>, i: nat, best: nat)
    requires i <= |t| && (best < i || best == |t|)
    requires best < i ==> FirstLeast(t, best, i) && t[best].rank > 0
    requires best == |t| ==> forall j | 0 <= j < i :: t[j].fixed
    ensures var v := VictimFrom(t, i, best);
      if v == |t| then forall j | 0 <= j < |t| :: t[j].fixed else FirstLeast(t, v, |t|)
    decreases |t| - i
  {
    if i < |t| {
      if t[i].fixed {
        VictimScan(t, i + 1, best);
      } else if t[i].rank > 0 {
        VictimScan(t, i + 1, if best == |t| || t[i].rank < t[best].rank then i else best);
      }
    }
  }

  /** `NWK_RouteNewEntry` takes a non-fixed entry of least rank, the first one of them. */
  lemma VictimIsLeast(t: seq<Entry>)
    requires HasRoom(t)
    ensures Victim(t) < |t| && !t[Victim(t)].fixed
    ensures forall j | 0 <= j < |t| && !t[j].fixed :: Victim(t) == j || Ahead(t, Victim(t), j)
  {
    VictimScan(t, 0, |t|);
  }

  // ---- invariant ----

  predicate Live(e: Entry) { e.dst != ROUTE_UNKNOWN }

  function KeyOf(e: Entry): Key { Key(e.dst, e.multicast) }

  /** A live entry ranks from 2 to 254, and its score has not run out. */
  predicate LiveOk(e: Entry) {
    !e.fixed && Live(e) ==> 2 <= e.rank < MAX_RANK && 1 <= e.score <= DEFAULT_SCORE
  }

  /** A free entry ranks at most 1. */
  predicate FreeOk(e: Entry) { !e.fixed && !Live(e) ==> e.rank <= 1 }

  ghost predicate Ranked(t: seq<Entry>) { forall i | 0 <= i < |t| :: LiveOk(t[i]) }

  ghost predicate FreeLow(t: seq<Entry>) { forall i | 0 <= i < |t| :: FreeOk(t[i]) }

  ghost predicate Unique(t: seq<Entry>) {
    forall i, j | 0 <= i < j < |t| && Live(t[i]) && Live(t[j]) :: KeyOf(t[i]) != KeyOf(t[j])
  }

  /** What every step keeps, whatever it is. */
  ghost predicate Sound(t: seq<Entry>) { Ranked(t) && Unique(t) && HasRoom(t) }

  /** What is meant to hold besides: free entries rank at most 1, and so below live ones. */
  ghost predicate Inv(t: seq<Entry>) { Sound(t) && FreeLow(t) }

  /** The table `nwkRouteInit` makes. */
  lemma InitInv(t: seq<Entry>)
    requires |t| > 0 && forall i | 0 <= i < |t| :: t[i].dst == ROUTE_UNKNOWN && !t[i].fixed && t[i].rank == 0
    ensures Inv(t) && View(t) == map[]
  {
    assert !t[0].fixed;
  }

  predicate FreeAt(t: seq<Entry>, j: int) { 0 <= j < |t| && !t[j].fixed && !Live(t[j]) }

  predicate LiveAt(t: seq<Entry>, i: int) { 0 <= i < |t| && !t[i].fixed && Live(t[i]) }

  ghost predicate HasFree(t: seq<Entry>) { exists j :: FreeAt(t, j) }

  ghost predicate AheadOfFree(t: seq<Entry>, i: int)
    requires LiveAt(t, i)
  {
    forall j | FreeAt(t, j) :: Ahead(t, i, j)
  }

  /** Slots are free, but a live entry comes before all of them. */
  ghost predicate Overtaken(t: seq<Entry>) { HasFree(t) && exists i :: LiveAt(t, i) && AheadOfFree(t, i) }

  /** A live route is taken when no slot is free, and otherwise exactly if a live entry comes before every free
      one; while free entries rank at most 1, none does. Only non-fixed entries are ever taken. */
  lemma FreeBeforeLive(t: seq<Entry>)
    requires HasRoom(t)
    ensures Victim(t) < |t| && !t[Victim(t)].fixed
    ensures Live(t[Victim(t)]) <==> !HasFree(t) || Overtaken(t)
    ensures Inv(t) ==> !Overtaken(t)
  {
    VictimIsLeast(t);
    var v := Victim(t);
    if Live(t[v]) {
      assert LiveAt(t, v) && AheadOfFree(t, v);
    } else {
      assert FreeAt(t, v);
    }
  }

  // ---- the bounded map ----

  ghost function View(t: seq<Entry>): map<Key, nat> {
    map i | 0 <= i < |t| && Live(t[i]) && i == Find(t, t[i].dst, t[i].multicast) :: KeyOf(t[i]) := t[i].nextHop
  }

  lemma FindLive(t: seq<Entry>, i: nat)
    requires Unique(t) && i < |t| && Live(t[i])
    ensures Find(t, t[i].dst, t[i].multicast) == i
  {
    var k := Find(t, t[i].dst, t[i].multicast);
    if k < i {
      assert KeyOf(t[k]) == KeyOf(t[i]);
    }
  }

  lemma ViewAt(t: seq<Entry>, i: nat)
    requires Unique(t) && i < |t| && Live(t[i])
    ensures KeyOf(t[i]) in View(t) && View(t)[KeyOf(t[i])] == t[i].nextHop
  {
    FindLive(t, i);
  }

  ghost predicate At(t: seq<Entry>, i: int, k: Key, hop: nat) {
    0 <= i < |t| && Live(t[i]) && KeyOf(t[i]) == k && t[i].nextHop == hop
  }

  ghost predicate Maps(m: map<Key, nat>, k: Key, hop: nat) { k in m && m[k] == hop }

  lemma ViewIs(t: seq<Entry>, k: Key, hop: nat)
    requires Unique(t)
    ensures Maps(View(t), k, hop) <==> exists i :: At(t, i, k, hop)
  {
    if i :| At(t, i, k, hop) {
      ViewAt(t, i);
    }
    if Maps(View(t), k, hop) {
      assert At(t, Find(t, k.dst, k.multicast), k, hop);
    }
  }

  lemma SameMaps(m: map<Key, nat>, n: map<Key, nat>)
    requires forall k, hop :: Maps(m, k, hop) <==> Maps(n, k, hop)
    ensures m == n
  {
    forall k | k in m ensures Maps(n, k, m[k]) { assert Maps(m, k, m[k]); }
    forall k | k in n ensures Maps(m, k, n[k]) { assert Maps(n, k, n[k]); }
  }

  lemma ViewHas(t: seq<Entry>, k: Key)
    requires Unique(t)
    ensures k in View(t) <==> k.dst != ROUTE_UNKNOWN && Find(t, k.dst, k.multicast) < |t|
  {
    var i := Find(t, k.dst, k.multicast);
    if k.dst != ROUTE_UNKNOWN && i < |t| {
      assert KeyOf(t[i]) == k;
      ViewAt(t, i);
    }
  }

  /** The answer of the map, the unknown address outside it. */
  ghost function Answer(t: seq<Entry>, k: Key): nat { if k in View(t) then View(t)[k] else ROUTE_UNKNOWN }

  /** A lookup answers with the map, but for the unknown address: there it may answer with what a free entry
      still holds. */
  lemma NextHopIsView(t: seq<Entry>, dst: nat, multicast: bool)
    requires Unique(t)
    ensures var i := Find(t, dst, multicast);
      NextHop(t, dst, multicast) == Answer(t, Key(dst, multicast)) <==>
      dst != ROUTE_UNKNOWN || i == |t| || t[i].nextHop == ROUTE_UNKNOWN
  {
    ViewHas(t, Key(dst, multicast));
    var i := Find(t, dst, multicast);
    if i < |t| && Live(t[i]) {
      ViewAt(t, i);
    }
  }

  ghost predicate NoneElse(t: seq<Entry>, i: nat, e: Entry) {
    Live(e) ==> forall j | 0 <= j < |t| && j != i && Live(t[j]) :: KeyOf(t[j]) != KeyOf(e)
  }

  ghost function Held(e: Entry): set<Key> { if Live(e) then {KeyOf(e)} else {} }

  ghost function Route(e: Entry): map<Key, nat> { if Live(e) then map[KeyOf(e) := e.nextHop] else map[] }

  lemma UniqueSet(t: seq<Entry>, i: nat, e: Entry)
    requires Unique(t) && i < |t| && NoneElse(t, i, e)
    ensures Unique(t[i := e])
  {
  }

  /** Overwriting one entry takes its old route out of the map and puts the new one in. */
  lemma ViewSet(t: seq<Entry>, i: nat, e: Entry)
    requires Unique(t) && i < |t| && NoneElse(t, i, e)
    ensures Unique(t[i := e]) && View(t[i := e]) == (View(t) - Held(t[i])) + Route(e)
  {
    var t' := t[i := e];
    UniqueSet(t, i, e);
    var after := (View(t) - Held(t[i])) + Route(e);
    forall k, hop ensures Maps(View(t'), k, hop) <==> Maps(after, k, hop) {
      ViewIs(t, k, hop);
      ViewIs(t', k, hop);
      SetAt(t, i, e, t', k, hop);
      hide View, Unique;
    }
    SameMaps(View(t'), after);
  }

  lemma SetAt(t: seq<Entry>, i: nat, e: Entry, t': seq<Entry>, k: Key, hop: nat)
    requires Unique(t) && i < |t| && NoneElse(t, i, e) && t' == t[i := e]
    ensures (exists j :: At(t', j, k, hop)) <==>
      Maps(Route(e), k, hop) || (k !in Route(e) && k !in Held(t[i]) && exists j :: At(t, j, k, hop))
  {
    if j :| At(t', j, k, hop) {
      if j != i {
        assert At(t, j, k, hop);
      }
    }
    if j :| At(t, j, k, hop) {
      if j != i {
        assert At(t', j, k, hop);
      }
    }
    if Maps(Route(e), k, hop) {
      assert At(t', i, k, hop);
    }
  }

  lemma NormalizedUnique(t: seq<Entry>)
    requires Unique(t)
    ensures Unique(Normalized(t))
  {
  }

  lemma NormalizedAt(t: seq<Entry>, k: Key, hop: nat)
    ensures (exists i :: At(t, i, k, hop)) <==> (exists i :: At(Normalized(t), i, k, hop))
  {
    assert forall i :: At(t, i, k, hop) <==> At(Normalized(t), i, k, hop);
  }

  lemma ViewNormalized(t: seq<Entry>)
    requires Unique(t)
    ensures Unique(Normalized(t)) && View(Normalized(t)) == View(t)
  {
    hide View, Unique, Normalized;
    NormalizedUnique(t);
    forall k, hop ensures Maps(View(Normalized(t)), k, hop) <==> Maps(View(t), k, hop) {
      ViewIs(t, k, hop);
      ViewIs(Normalized(t), k, hop);
      NormalizedAt(t, k, hop);
    }
    SameMaps(View(Normalized(t)), View(t));
  }

  // ---- what each operation does to the map ----

  /** Overwriting one entry, with a key nobody else holds. */
  lemma SetEntry(t: seq<Entry>, i: nat, e: Entry)
    requires Sound(t) && i < |t| && NoneElse(t, i, e) && LiveOk(e) && e.fixed == t[i].fixed
    ensures Sound(t[i := e]) && View(t[i := e]) == (View(t) - Held(t[i])) + Route(e)
  {
    ViewSet(t, i, e);
    var j :| 0 <= j < |t| && !t[j].fixed;
    assert !t[i := e][j].fixed;
  }

  lemma FreeLowSet(t: seq<Entry>, i: nat, e: Entry)
    requires FreeLow(t) && i < |t|
    ensures FreeLow(t[i := e]) <==> FreeOk(e)
  {
    assert t[i := e][i] == e;
  }

  lemma SoundRoom(t: seq<Entry>)
    requires Sound(t)
    ensures HasRoom(t)
  {
  }

  lemma FoundEntry(t: seq<Entry>, k: Key)
    requires Sound(t)
    ensures var i := Find(t, k.dst, k.multicast);
      (i < |t| ==> LiveOk(t[i]) && KeyOf(t[i]) == k) &&
      (k in View(t) <==> i < |t| && k.dst != ROUTE_UNKNOWN) && (k in View(t) ==> View(t)[k] == t[i].nextHop) &&
      HasRoom(t) && Unique(t)
  {
    ViewHas(t, k);
    var i := Find(t, k.dst, k.multicast);
    if k in View(t) { ViewAt(t, i); }
  }

  lemma NotFound(t: seq<Entry>, dst: nat, multicast: bool, i: nat, e: Entry)
    requires Find(t, dst, multicast) == |t| && KeyOf(e) == Key(dst, multicast)
    ensures NoneElse(t, i, e)
  {
  }

  lemma FoundOnce(t: seq<Entry>, dst: nat, multicast: bool, e: Entry)
    requires Unique(t) && KeyOf(e) == Key(dst, multicast) && Find(t, dst, multicast) < |t|
    ensures NoneElse(t, Find(t, dst, multicast), e)
  {
  }

  /** Keys a new route displaces. */
  ghost function Evicted(t: seq<Entry>): set<Key>
    requires HasRoom(t)
  {
    VictimIsLeast(t);
    Held(t[Victim(t)])
  }

  /** `k` is held by a non-fixed entry `v` of least rank. */
  ghost predicate LeastRanked(t: seq<Entry>, v: int, k: Key) {
    0 <= v < |t| && !t[v].fixed && KeyOf(t[v]) == k && forall j | 0 <= j < |t| && !t[j].fixed :: t[v].rank <= t[j].rank
  }

  /** At most one key is displaced, that of a non-fixed entry of least rank; none exactly if a slot is free and
      no live entry comes before all free ones. */
  lemma EvictedIs(t: seq<Entry>)
    requires Sound(t)
    ensures forall k | k in Evicted(t) :: k in View(t) && Evicted(t) == {k} && exists v :: LeastRanked(t, v, k)
    ensures Evicted(t) == {} <==> HasFree(t) && !Overtaken(t)
    ensures FreeLow(t) ==> !Overtaken(t)
  {
    hide HasFree, Overtaken;
    FreeBeforeLive(t);
    VictimIsLeast(t);
    var v := Victim(t);
    if Live(t[v]) {
      ViewAt(t, v);
      assert LeastRanked(t, v, KeyOf(t[v]));
    }
  }

  /** What a route to `k` adds to the map; the unknown address is no destination. */
  ghost function Learned(k: Key, hop: nat): map<Key, nat> { if k.dst == ROUTE_UNKNOWN then map[] else map[k := hop] }

  /** What is displaced when `k` is looked up and given an entry. */
  ghost function Displaced(t: seq<Entry>, k: Key): set<Key>
    requires HasRoom(t)
  {
    if Find(t, k.dst, k.multicast) < |t| then {} else Evicted(t)
  }

  /** An update sets its own route and loses no other key but the one displaced when it needs an entry. */
  lemma UpdateView(t: seq<Entry>, dst: nat, multicast: bool, nextHop: nat, lqi: nat)
    requires Sound(t)
    ensures var t', k := Update(t, dst, multicast, nextHop, lqi), Key(dst, multicast);
      Sound(t') && View(t') == (View(t) - Displaced(t, k)) + Learned(k, nextHop)
  {
    hide View, Sound, Find, Victim, HasRoom, Unique, NoneElse;
    FoundEntry(t, Key(dst, multicast));
    VictimIsLeast(t);
    var i := Find(t, dst, multicast);
    var at := if i < |t| then i else Victim(t);
    var e := Entry(t[at].fixed, multicast, DEFAULT_SCORE, dst, nextHop, DEFAULT_RANK, lqi);
    if i < |t| { FoundOnce(t, dst, multicast, e); } else { NotFound(t, dst, multicast, at, e); }
    SetEntry(t, at, e);
  }

  /** Removing a route takes its key out of the map, unless the entry is fixed. */
  lemma RemoveView(t: seq<Entry>, dst: nat, multicast: bool)
    requires Sound(t)
    ensures var t', i := Remove(t, dst, multicast), Find(t, dst, multicast);
      Sound(t') && View(t') == View(t) - (if i < |t| && t[i].fixed then {} else {Key(dst, multicast)})
  {
    hide View, Sound, Find, HasRoom, Unique;
    FoundEntry(t, Key(dst, multicast));
    var i := Find(t, dst, multicast);
    if i < |t| && !t[i].fixed {
      FreedView(t, i);
    }
  }

  lemma FreedView(t: seq<Entry>, i: nat)
    requires Sound(t) && i < |t| && !t[i].fixed
    ensures Sound(Freed(t, i)) && View(Freed(t, i)) == View(t) - Held(t[i])
  {
    hide View, Sound;
    SetEntry(t, i, t[i].(dst := ROUTE_UNKNOWN, rank := 0));
  }

  /** A received frame teaches a route to its sender, if it is new or better; other routes stay but for the
      one displaced. */
  lemma ReceivedView(t: seq<Entry>, addr: nat, f: RxFrame)
    requires Sound(t)
    ensures var t', k, i := Received(t, addr, f), Key(f.nwkSrc, false), Find(t, f.nwkSrc, false);
      Sound(t') &&
      View(t') == if Ignored(f) || (i < |t| && !Better(t[i], f, addr)) then View(t)
                  else (View(t) - Displaced(t, k)) + Learned(k, f.macSrc)
  {
    hide View, Sound, Find, Victim, HasRoom, Unique, NoneElse, Ignored;
    FoundEntry(t, Key(f.nwkSrc, false));
    VictimIsLeast(t);
    var i := Find(t, f.nwkSrc, false);
    if Ignored(f) {
    } else if i < |t| {
      var e := Learn(t[i], f, addr);
      FoundOnce(t, f.nwkSrc, false, e);
      SetEntry(t, i, e);
    } else {
      var v := Victim(t);
      var e := Renewed(t[v]).(dst := f.nwkSrc, nextHop := f.macSrc, lqi := f.lqi);
      NotFound(t, f.nwkSrc, false, v, e);
      SetEntry(t, v, e);
    }
  }

  /** A success that raises a rank to the limit halves all of them. */
  lemma HalvedInv(t: seq<Entry>, i: nat, e: Entry)
    requires Sound(t) && i < |t| && NoneElse(t, i, e)
    requires !e.fixed && Live(e) && e.rank == MAX_RANK && e.score == DEFAULT_SCORE
    ensures Sound(Normalized(t[i := e])) && View(Normalized(t[i := e])) == (View(t) - Held(t[i])) + Route(e)
  {
    ViewSet(t, i, e);
    ViewNormalized(t[i := e]);
    assert !Normalized(t[i := e])[i].fixed;
  }

  /** A sent frame costs a route only when its last allowed failure in a row is reached. */
  lemma SentView(t: seq<Entry>, dst: nat, multicast: bool, success: bool)
    requires Sound(t)
    ensures var t', i := Sent(t, dst, multicast, success), Find(t, dst, multicast);
      Sound(t') &&
      View(t') == View(t) -
        (if i < |t| && !t[i].fixed && t[i].score == 1 && !success then {Key(dst, multicast)} else {})
  {
    hide View, Sound, Find, HasRoom, Unique, NoneElse, Normalized;
    FoundEntry(t, Key(dst, multicast));
    var i := Find(t, dst, multicast);
    if dst == BROADCAST_ADDR || i == |t| || t[i].fixed {
    } else if success {
      var e := t[i].(score := DEFAULT_SCORE, rank := (t[i].rank + 1) % 256);
      FoundOnce(t, dst, multicast, e);
      if e.rank == MAX_RANK { HalvedInv(t, i, e); } else { SetEntry(t, i, e); }
    } else {
      var e := t[i].(score := (t[i].score + 15) % 16);
      if e.score == 0 {
        FreedAfter(t, i, e);
      } else {
        FoundOnce(t, dst, multicast, e);
        SetEntry(t, i, e);
      }
    }
  }

  /** A freed entry keeps its score, which no longer matters. */
  lemma FreedAfter(t: seq<Entry>, i: nat, e: Entry)
    requires Sound(t) && i < |t| && !t[i].fixed && e == t[i].(score := 0)
    ensures Sound(Freed(t[i := e], i)) && View(Freed(t[i := e], i)) == View(t) - Held(t[i])
  {
    hide View, Sound;
    var f := e.(dst := ROUTE_UNKNOWN, rank := 0);
    SetEntry(t, i, f);
    assert Freed(t[i := e], i) == t[i := f];
  }

  // ---- what the entry itself looks like afterwards ----

  /** The lookup finds the entry that was written for its key. */
  lemma FindWritten(t: seq<Entry>, dst: nat, multicast: bool, i: nat, e: Entry)
    requires i < |t| && KeyOf(e) == Key(dst, multicast)
    requires Find(t, dst, multicast) == i || Find(t, dst, multicast) == |t|
    ensures Find(t[i := e], dst, multicast) == i
  {
    assert t[i := e][i] == e;
  }

  /** After an update the lookup finds a full score, a middle rank and the link quality given. */
  lemma UpdatedEntry(t: seq<Entry>, dst: nat, multicast: bool, nextHop: nat, lqi: nat)
    requires HasRoom(t)
    ensures var t' := Update(t, dst, multicast, nextHop, lqi);
      var i := Find(t', dst, multicast);
      i < |t'| && t'[i].nextHop == nextHop && t'[i].lqi == lqi &&
      t'[i].score == 3 && t'[i].rank == 128
  {
    hide Find, Victim, HasRoom;
    VictimIsLeast(t);
    var i := Find(t, dst, multicast);
    var at := if i < |t| then i else Victim(t);
    FindWritten(t, dst, multicast, at, Entry(t[at].fixed, multicast, DEFAULT_SCORE, dst, nextHop, DEFAULT_RANK, lqi));
  }

  /** After a received frame that is not ignored the lookup finds its link quality, and a full score if the
      route is new or was replaced; otherwise the route keeps its next hop and score. */
  lemma LearnedEntry(t: seq<Entry>, addr: nat, f: RxFrame)
    requires HasRoom(t) && !Ignored(f)
    ensures var t', i := Received(t, addr, f), Find(t, f.nwkSrc, false);
      var j := Find(t', f.nwkSrc, false);
      j < |t'| && t'[j].lqi == f.lqi &&
      if i == |t| || Better(t[i], f, addr) then t'[j].nextHop == f.macSrc && t'[j].score == DEFAULT_SCORE
      else j == i && t'[j] == t[i].(lqi := f.lqi)
  {
    hide Find, Victim, HasRoom, Ignored;
    VictimIsLeast(t);
    var i := Find(t, f.nwkSrc, false);
    var at := if i < |t| then i else Victim(t);
    var e := if i < |t| then Learn(t[i], f, addr)
             else Renewed(t[at]).(dst := f.nwkSrc, nextHop := f.macSrc, lqi := f.lqi);
    FindWritten(t, f.nwkSrc, false, at, e);
  }

  /** Which frames teach a route, and when a known one is replaced: a frame to any network teaches nothing, nor
      does one that a node which does not route sent on for another; otherwise a new source is learned, and a known
      one changes its next hop for a link of higher quality or when the frame answers a discovery. */
  lemma LinkChoice(t: seq<Entry>, addr: nat, f: RxFrame)
    requires HasRoom(t) && f.macSrc <= 0xffff
    ensures var t', i := Received(t, addr, f), Find(t, f.nwkSrc, false);
      if f.macDstPan == 0xffff || (0x8000 <= f.macSrc && f.macSrc != f.nwkSrc) then t' == t
      else
        NextHop(t', f.nwkSrc, false) ==
        if i == |t| || f.lqi > t[i].lqi || (f.macDst == 0xffff && f.nwkDst == addr) then f.macSrc else t[i].nextHop
  {
    hide Find, Victim, HasRoom, Received;
    IgnoredFrames(f);
    if !Ignored(f) { LearnedEntry(t, addr, f); } else { NothingLearned(t, addr, f); }
  }

  lemma IgnoredFrames(f: RxFrame)
    requires f.macSrc <= 0xffff
    ensures Ignored(f) <==> f.macDstPan == 0xffff || (0x8000 <= f.macSrc && f.macSrc != f.nwkSrc)
  {
  }

  lemma NothingLearned(t: seq<Entry>, addr: nat, f: RxFrame)
    requires HasRoom(t) && Ignored(f)
    ensures Received(t, addr, f) == t
  {
  }

  /** The score of a known route is restored exactly if its next hop changes for a link of higher quality, or the
      frame answers a discovery. */
  lemma ScoreRestored(t: seq<Entry>, addr: nat, f: RxFrame)
    requires HasRoom(t) && f.macSrc <= 0xffff && Find(t, f.nwkSrc, false) < |t|
    requires f.macDstPan != 0xffff && (f.macSrc < 0x8000 || f.macSrc == f.nwkSrc)
    ensures var i := Find(t, f.nwkSrc, false);
      Received(t, addr, f) == t[i := t[i].(
        lqi := f.lqi,
        nextHop := if f.lqi > t[i].lqi || (f.macDst == 0xffff && f.nwkDst == addr) then f.macSrc else t[i].nextHop,
        score := if (f.lqi > t[i].lqi && t[i].nextHop != f.macSrc) || (f.macDst == 0xffff && f.nwkDst == addr) then 3
                 else t[i].score)]
  {
    hide Find, Victim, HasRoom;
    IgnoredFrames(f);
  }

  /** A frame of `src` that is sent to this network alone, and neither relayed by a node that does not route nor
      broadcast. */
  predicate Plain(f: RxFrame, src: nat) {
    f.nwkSrc == src && f.macDstPan != 0xffff && f.macDst != 0xffff && (f.macSrc < 0x8000 || f.macSrc == src <= 0xffff)
  }

  /** The sender of the last frame whose link was better than that of the frame before it. */
  function LastRise(hop: nat, lqi: nat, frames: seq<RxFrame>): nat
    decreases |frames|
  {
    if frames == [] then hop
    else LastRise(if frames[0].lqi > lqi then frames[0].macSrc else hop, frames[0].lqi, frames[1..])
  }

  function ReceivedAll(t: seq<Entry>, addr: nat, frames: seq<RxFrame>): seq<Entry>
    requires HasRoom(t)
    decreases |frames|
  {
    if frames == [] then t
    else
      StepFixed(t, FrameReceived(addr, frames[0]));
      ReceivedAll(Received(t, addr, frames[0]), addr, frames[1..])
  }

  lemma RoomKept(t: seq<Entry>, t': seq<Entry>)
    requires HasRoom(t) && FixedKept(t, t')
    ensures HasRoom(t')
  {
  }

  /** Over any number of frames from a known source the next hop is the sender of the last one whose link was
      better than that of the frame before, not the best of all. */
  lemma {:induction false} LinkRun(t: seq<Entry>, addr: nat, src: nat, frames: seq<RxFrame>)
    requires HasRoom(t) && Find(t, src, false) < |t|
    requires forall k | 0 <= k < |frames| :: Plain(frames[k], src)
    ensures var i := Find(t, src, false);
      NextHop(ReceivedAll(t, addr, frames), src, false) == LastRise(t[i].nextHop, t[i].lqi, frames)
    decreases |frames|
  {
    hide Find, Victim, HasRoom, Received;
    if frames != [] {
      var f, i := frames[0], Find(t, src, false);
      ScoreRestored(t, addr, f);
      StepFixed(t, FrameReceived(addr, f));
      var u := Received(t, addr, f);
      FindWritten(t, src, false, i, u[i]);
      RoomKept(t, u);
      LinkRun(u, addr, src, frames[1..]);
    }
  }

  /** Broadcasts, destinations without an entry and fixed entries leave the table alone. */
  lemma SentNothing(t: seq<Entry>, dst: nat, multicast: bool, success: bool)
    ensures var i := Find(t, dst, multicast);
      dst == 0xffff || i == |t| || t[i].fixed ==> Sent(t, dst, multicast, success) == t
  {
  }

  /** A success restores the score of a live route and raises its rank, until the limit halves all ranks. */
  lemma SuccessfulEntry(t: seq<Entry>, i: nat)
    requires Sound(t) && i < |t| && Live(t[i]) && !t[i].fixed
    ensures var t' := Sent(t, t[i].dst, t[i].multicast, true);
      |t'| == |t| && t'[i].score == 3 &&
      (if t[i].rank + 1 < 255 then t' == t[i := t'[i]] && t'[i].rank == t[i].rank + 1
       else t'[i].rank == 128 && forall j | 0 <= j < |t| && j != i :: t'[j] == t[j].(rank := t[j].rank / 2 + 1))
  {
    hide View, Find, HasRoom;
    FindLive(t, i);
  }

  /** Halving the ranks keeps their order. */
  lemma NormalizedOrder(t: seq<Entry>, i: nat, j: nat)
    requires i < |t| && j < |t| && t[i].rank <= t[j].rank
    ensures Normalized(t)[i].rank <= Normalized(t)[j].rank
  {
  }

  // ---- runs ----

  datatype Event =
    | UpdateRoute(dst: nat, multicast: bool, nextHop: nat, lqi: nat)
    | RemoveRoute(dst: nat, multicast: bool)
    | FrameReceived(addr: nat, frame: RxFrame)
    | FrameSent(dst: nat, multicast: bool, success: bool)

  function Step(t: seq<Entry>, e: Event): seq<Entry>
    requires HasRoom(t)
  {
    match e
    case UpdateRoute(dst, m, nextHop, lqi) => Update(t, dst, m, nextHop, lqi)
    case RemoveRoute(dst, m) => Remove(t, dst, m)
    case FrameReceived(addr, frame) => Received(t, addr, frame)
    case FrameSent(dst, m, success) => Sent(t, dst, m, success)
  }

  lemma StepSound(t: seq<Entry>, e: Event)
    requires Sound(t)
    ensures Sound(Step(t, e))
  {
    hide View, Sound;
    match e
    case UpdateRoute(dst, m, nextHop, lqi) => UpdateView(t, dst, m, nextHop, lqi);
    case RemoveRoute(dst, m) => RemoveView(t, dst, m);
    case FrameReceived(addr, frame) => ReceivedView(t, addr, frame);
    case FrameSent(dst, m, success) => SentView(t, dst, m, success);
  }

  /** The fixed entries of `t` are fixed entries of `t'` for the same keys. */
  ghost predicate FixedKept(t: seq<Entry>, t': seq<Entry>) {
    |t'| == |t| && forall i | 0 <= i < |t| :: t'[i].fixed == t[i].fixed && (t[i].fixed ==> KeyOf(t'[i]) == KeyOf(t[i]))
  }

  lemma StepFixed(t: seq<Entry>, e: Event)
    requires HasRoom(t)
    ensures FixedKept(t, Step(t, e))
  {
    VictimIsLeast(t);
  }

  ghost function Run(t: seq<Entry>, events: seq<Event>): seq<Entry>
    requires Sound(t)
    decreases |events|
  {
    if events == [] then t else (StepSound(t, events[0]); Run(Step(t, events[0]), events[1..]))
  }

  /** Over every run: live ranks and scores stay in range, no key is held twice, fixed entries keep their keys. */
  lemma {:induction false} RunKeeps(t: seq<Entry>, events: seq<Event>)
    requires Sound(t)
    ensures Sound(Run(t, events)) && FixedKept(t, Run(t, events))
    decreases |events|
  {
    hide Sound, Step;
    SoundRoom(t);
    if events != [] {
      StepSound(t, events[0]);
      StepFixed(t, events[0]);
      RunKeeps(Step(t, events[0]), events[1..]);
    }
  }

  // ---- when free entries keep ranking at most 1 ----

  /** The steps that leave the ranks of free entries at 1 at most. */
  predicate Proper(t: seq<Entry>, e: Event) {
    match e
    case UpdateRoute(dst, m, _, _) => dst != ROUTE_UNKNOWN || (var i := Find(t, dst, m); i < |t| && t[i].fixed)
    case FrameReceived(_, f) => f.nwkSrc != ROUTE_UNKNOWN || Ignored(f) || Find(t, ROUTE_UNKNOWN, false) < |t|
    case _ => true
  }

  /** With the unknown address as destination an update lifts a free entry, unless it falls on a fixed one. */
  lemma UpdateKeepsRanksIff(t: seq<Entry>, dst: nat, multicast: bool, nextHop: nat, lqi: nat)
    requires Inv(t)
    ensures Inv(Update(t, dst, multicast, nextHop, lqi)) <==> Proper(t, UpdateRoute(dst, multicast, nextHop, lqi))
  {
    hide View, Sound, FreeLow, Find, Victim;
    SoundRoom(t);
    VictimIsLeast(t);
    UpdateView(t, dst, multicast, nextHop, lqi);
    var i := Find(t, dst, multicast);
    var at := if i < |t| then i else Victim(t);
    FreeLowSet(t, at, Update(t, dst, multicast, nextHop, lqi)[at]);
  }

  /** So does a frame that names the unknown address as its source, if it is not ignored and no entry for that
      address, a free one, is found. */
  lemma ReceivedKeepsRanksIff(t: seq<Entry>, addr: nat, f: RxFrame)
    requires Inv(t)
    ensures Inv(Received(t, addr, f)) <==> Proper(t, FrameReceived(addr, f))
  {
    hide View, Sound, FreeLow, Find, Victim, Ignored;
    SoundRoom(t);
    VictimIsLeast(t);
    ReceivedView(t, addr, f);
    var i := Find(t, f.nwkSrc, false);
    var at := if i < |t| then i else Victim(t);
    if !Ignored(f) {
      FreeLowSet(t, at, Received(t, addr, f)[at]);
      if i < |t| { FreeLowAt(t, i); }
    }
  }

  lemma FreeLowAt(t: seq<Entry>, i: nat)
    requires FreeLow(t) && i < |t|
    ensures FreeOk(t[i])
  {
  }

  lemma RemoveKeepsRanks(t: seq<Entry>, dst: nat, multicast: bool)
    requires Inv(t)
    ensures Inv(Remove(t, dst, multicast))
  {
    hide View, Sound, FreeLow, Find;
    RemoveView(t, dst, multicast);
    var i := Find(t, dst, multicast);
    if i < |t| { FreeLowSet(t, i, Remove(t, dst, multicast)[i]); FreeLowAt(t, i); }
  }

  lemma SentKeepsRanks(t: seq<Entry>, dst: nat, multicast: bool, success: bool)
    requires Inv(t)
    ensures Inv(Sent(t, dst, multicast, success))
  {
    hide View, Sound, FreeLow, Find, Normalized;
    SentView(t, dst, multicast, success);
    var i := Find(t, dst, multicast);
    if dst != BROADCAST_ADDR && i < |t| && !t[i].fixed {
      var e := if success then t[i].(score := DEFAULT_SCORE, rank := (t[i].rank + 1) % 256)
               else t[i].(score := (t[i].score + 15) % 16);
      FreeLowSet(t, i, e);
      if e.score == 0 { FreeLowSet(t, i, e.(dst := ROUTE_UNKNOWN, rank := 0)); FreedTwice(t, i, e); }
      NormalizedLow(t[i := e]);
    }
  }

  lemma FreedTwice(t: seq<Entry>, i: nat, e: Entry)
    requires i < |t| && !e.fixed
    ensures Freed(t[i := e], i) == t[i := e.(dst := ROUTE_UNKNOWN, rank := 0)]
  {
  }

  lemma NormalizedLow(t: seq<Entry>)
    requires FreeLow(t)
    ensures FreeLow(Normalized(t))
  {
  }

  lemma StepInvIff(t: seq<Entry>, e: Event)
    requires Inv(t)
    ensures Inv(Step(t, e)) <==> Proper(t, e)
  {
    hide Sound, FreeLow, Find, Ignored;
    SoundRoom(t);
    match e
    case UpdateRoute(dst, m, nextHop, lqi) => UpdateKeepsRanksIff(t, dst, m, nextHop, lqi);
    case RemoveRoute(dst, m) => RemoveKeepsRanks(t, dst, m);
    case FrameReceived(addr, frame) => ReceivedKeepsRanksIff(t, addr, frame);
    case FrameSent(dst, m, success) => SentKeepsRanks(t, dst, m, success);
  }

  ghost predicate ProperRun(t: seq<Entry>, events: seq<Event>)
    requires Sound(t)
    decreases |events|
  {
    events == [] ||
    (StepSound(t, events[0]); Proper(t, events[0]) && ProperRun(Step(t, events[0]), events[1..]))
  }

  ghost predicate InvThroughout(t: seq<Entry>, events: seq<Event>)
    requires Sound(t)
    decreases |events|
  {
    Inv(t) && (events == [] || (StepSound(t, events[0]); InvThroughout(Step(t, events[0]), events[1..])))
  }

  /** Over a whole run free entries rank at most 1 exactly if every step is proper where it is taken. */
  lemma {:induction false} RunInvIff(t: seq<Entry>, events: seq<Event>)
    requires Inv(t)
    ensures InvThroughout(t, events) <==> ProperRun(t, events)
    decreases |events|
  {
    hide Step, Proper, FreeLow, Sound;
    SoundRoom(t);
    if events != [] {
      StepSound(t, events[0]);
      StepInvIff(t, events[0]);
      var u := Step(t, events[0]);
      if Inv(u) { RunInvIff(u, events[1..]); }
    }
  }

  /** Two live routes; a frame from the unknown address takes one entry and leaves it free with a middle rank,
      and the next new route evicts the live one. */
  lemma UnknownSourceBreaksRanks()
    ensures var a, b := Entry(false, false, 3, 1, 1, 50, 0), Entry(false, false, 3, 2, 2, 60, 0);
      var f := RxFrame(5, 7, 0xCA5A, ROUTE_UNKNOWN, 7, 10);
      Inv([a, b]) && !Ignored(f) &&
      var t := Received([a, b], 7, f);
      !Inv(t) && t == [Entry(false, false, 3, ROUTE_UNKNOWN, 5, 128, 10), b] &&
      Victim(t) == 1 && Live(t[1]) && !Live(t[0])
  {
    var a, b := Entry(false, false, 3, 1, 1, 50, 0), Entry(false, false, 3, 2, 2, 60, 0);
    var t := [a, b];
    assert !t[0].fixed;
    assert Find(t, ROUTE_UNKNOWN, false) == 2;
    assert VictimFrom(t, 2, 0) == 0 && VictimFrom(t, 1, 0) == 0;
    assert Victim(t) == 0;
    var u := Received(t, 7, RxFrame(5, 7, 0xCA5A, ROUTE_UNKNOWN, 7, 10));
    assert u == [Entry(false, false, 3, ROUTE_UNKNOWN, 5, 128, 10), b];
    assert !FreeOk(u[0]);
    assert VictimFrom(u, 2, 1) == 1 && VictimFrom(u, 1, 0) == 1;
  }

  /** `n` failed transmissions to one destination. */
  ghost function Failures(t: seq<Entry>, k: Key, n: nat): seq<Entry> {
    if n == 0 then t else Sent(Failures(t, k, n - 1), k.dst, k.multicast, false)
  }

  /** A route survives as many failures in a row as its score allows, and no more. */
  lemma {:induction false} FailuresRun(t: seq<Entry>, i: nat, n: nat)
    requires Sound(t) && i < |t| && Live(t[i]) && !t[i].fixed
    ensures var t', k := Failures(t, KeyOf(t[i]), n), KeyOf(t[i]);
      Sound(t') && View(t') == (if n < t[i].score then View(t) else View(t) - {k}) &&
      (n < t[i].score ==> t' == t[i := t[i].(score := t[i].score - n)])
  {
    hide View, Sound, Find, Sent;
    var k := KeyOf(t[i]);
    if n > 0 {
      FailuresRun(t, i, n - 1);
      var u := Failures(t, k, n - 1);
      SentView(u, k.dst, k.multicast, false);
      if n <= t[i].score {
        FailuresAt(t, i, n - 1);
        FailOnce(u, i);
        assert n < t[i].score ==> u[i := u[i].(score := u[i].score - 1)] == t[i := t[i].(score := t[i].score - n)];
      } else {
        FailuresGone(t, u, k);
      }
    } else {
      LiveScore(t, i);
      assert t[i := t[i].(score := t[i].score)] == t;
    }
  }

  lemma LiveScore(t: seq<Entry>, i: nat)
    requires Sound(t) && i < |t| && Live(t[i]) && !t[i].fixed
    ensures t[i].score > 0
  {
  }

  lemma FailOnce(u: seq<Entry>, i: nat)
    requires Sound(u) && i < |u| && Live(u[i]) && !u[i].fixed && Find(u, u[i].dst, u[i].multicast) == i
    ensures u[i].score > 1 ==> Sent(u, u[i].dst, u[i].multicast, false) == u[i := u[i].(score := u[i].score - 1)]
  {
  }

  lemma FailuresAt(t: seq<Entry>, i: nat, n: nat)
    requires Sound(t) && i < |t| && Live(t[i]) && !t[i].fixed && n < t[i].score
    ensures var u := t[i := t[i].(score := t[i].score - n)];
      Sound(u) && Find(u, t[i].dst, t[i].multicast) == i
  {
    var e := t[i].(score := t[i].score - n);
    FoundOnce(t, e.dst, e.multicast, e);
    FindLive(t, i);
    SetEntry(t, i, e);
    FindLive(t[i := e], i);
  }

  lemma FailuresGone(t: seq<Entry>, u: seq<Entry>, k: Key)
    requires Sound(u) && View(u) == View(t) - {k} && k.dst != ROUTE_UNKNOWN
    ensures Find(u, k.dst, k.multicast) == |u|
  {
    ViewHas(u, k);
  }
}
