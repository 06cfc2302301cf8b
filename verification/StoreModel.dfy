/** The persistent store of protocol entries: as a list of slots that may be free, and as bytes. */
module StoreModel {
  import opened Wrappers

  type byte = bv8
  type Record = r: seq<byte> | |r| == ENTRY_SIZE witness [0, 0, 0, 0, 0, 0, 0, 0, 0, 0, 0, 0]

  const ENTRY_SIZE: nat := 12
  const HEADER_SIZE: nat := 15
  const MAX_ENTRIES: nat := 80
  const REGION_SIZE: nat := 1024
  const SIGNATURE: seq<byte> := [0x6D, 0x61, 0x6B]

  // ---- slots ----

  type Slots = seq<Option<Record>>

  /** The entries in use, in slot order. */
  function Entries(s: Slots): (r: seq<Record>)
    ensures |r| <= |s|
    decreases |s|
  {
    if s == [] then [] else (if s[0].Some? then [s[0].value] else []) + Entries(s[1..])
  }

  /** The search for relative number `n`, resumed at slot `k` with `count` entries passed. */
  function Seek(s: Slots, k: nat, count: nat, n: nat): (r: (nat, nat))
    requires k <= |s|
    ensures k <= r.0 <= |s| && (r.0 < |s| ==> s[r.0].Some? && r.1 == n)
    decreases |s| - k
  {
    if k == |s| then (k, count)
    else if s[k].None? then Seek(s, k + 1, count, n)
    else if count == n then (k, count)
    else Seek(s, k + 1, count + 1, n)
  }

  function FirstFree(s: Slots, k: nat): (r: nat)
    requires k <= |s|
    ensures k <= r <= |s| && (r < |s| ==> s[r].None?)
    ensures forall j | k <= j < r :: s[j].Some?
    decreases |s| - k
  {
    if k == |s| || s[k].None? then k else FirstFree(s, k + 1)
  }

  lemma SeekTurn(s: Slots, k: nat, count: nat, n: nat)
    requires k < |s|
    ensures s[k].None? ==> Seek(s, k, count, n) == Seek(s, k + 1, count, n)
    ensures s[k].Some? && count != n ==> Seek(s, k, count, n) == Seek(s, k + 1, count + 1, n)
    ensures s[k].Some? && count == n ==> Seek(s, k, count, n) == (k, count)
  {
  }

  lemma SeekEnd(s: Slots, count: nat, n: nat)
    ensures Seek(s, |s|, count, n) == (|s|, count)
  {
  }

  lemma FreeTurn(s: Slots, k: nat)
    requires k < |s|
    ensures FirstFree(s, k) == if s[k].None? then k else FirstFree(s, k + 1)
    ensures FirstFree(s, |s|) == |s|
  {
  }

  lemma {:induction false} EntriesAppend(a: Slots, b: Slots)
    ensures Entries(a + b) == Entries(a) + Entries(b)
    decreases |a|
  {
    hide Entries;
    EntriesNone();
    if a == [] {
      assert a + b == b;
    } else {
      EntriesFirst(a);
      EntriesFirst(a + b);
      assert (a + b)[1..] == a[1..] + b;
      EntriesAppend(a[1..], b);
      Associate(if a[0].Some? then [a[0].value] else [], Entries(a[1..]), Entries(b));
    }
  }

  lemma EntriesNone()
    ensures Entries([]) == []
  {
  }

  /** The slots before, at and after `k`. */
  lemma EntriesSplit(s: Slots, k: nat)
    requires k < |s|
    ensures Entries(s) == Entries(s[..k]) + (if s[k].Some? then [s[k].value] else []) + Entries(s[k + 1..])
  {
    hide Entries;
    var a, b: Slots := s[..k], s[k..];
    EntriesAppend(a, b);
    assert s == a + b;
    EntriesFirst(b);
    assert b[0] == s[k] && b[1..] == s[k + 1..];
    var one := if s[k].Some? then [s[k].value] else [];
    Associate(Entries(a), one, Entries(b[1..]));
  }

  lemma Associate(a: seq<Record>, b: seq<Record>, c: seq<Record>)
    ensures a + (b + c) == a + b + c
  {
  }

  lemma EntriesFirst(s: Slots)
    requires s != []
    ensures Entries(s) == (if s[0].Some? then [s[0].value] else []) + Entries(s[1..])
  {
  }

  /** Replacing one slot changes the entries at one place only. */
  lemma EntriesReplace(s: Slots, k: nat, v: Option<Record>)
    requires k < |s|
    ensures Entries(s[k := v]) == Entries(s[..k]) + (if v.Some? then [v.value] else []) + Entries(s[k + 1..])
  {
    var t := s[k := v];
    EntriesSplit(t, k);
    assert t[..k] == s[..k] && t[k + 1..] == s[k + 1..];
  }

  /** Number of entries in slots below `k`. */
  function Rank(s: Slots, k: nat): nat
    requires k <= |s|
  {
    |Entries(s[..k])|
  }

  lemma RankNext(s: Slots, k: nat)
    requires k < |s|
    ensures Rank(s, k + 1) == Rank(s, k) + (if s[k].Some? then 1 else 0)
  {
    var one := s[k..k + 1];
    assert s[..k + 1] == s[..k] + one;
    EntriesAppend(s[..k], one);
    assert Entries(one[1..]) == [];
  }

  /** A search that starts with the right count finds the entry of that number. */
  lemma {:induction false} SeekFinds(s: Slots, k: nat, n: nat)
    requires k <= |s| && Rank(s, k) <= n
    ensures var (at, count) := Seek(s, k, Rank(s, k), n);
      if n < |Entries(s)| then at < |s| && Rank(s, at) == n && s[at] == Some(Entries(s)[n])
      else at == |s| && count == |Entries(s)|
    decreases |s| - k
  {
    hide Entries;
    if k == |s| {
      assert s[..k] == s;
    } else {
      RankNext(s, k);
      if s[k].Some? && Rank(s, k) == n {
        EntriesSplit(s, k);
      } else {
        SeekFinds(s, k + 1, n);
      }
    }
  }

  lemma {:induction false} AllUsed(s: Slots)
    ensures |Entries(s)| == |s| <==> forall j | 0 <= j < |s| :: s[j].Some?
    decreases |s|
  {
    if s != [] {
      AllUsed(s[1..]);
      assert (forall j | 0 <= j < |s| :: s[j].Some?) <==> s[0].Some? && forall j | 0 <= j < |s[1..]| :: s[1..][j].Some?
      by {
        if s[0].Some? && forall j | 0 <= j < |s[1..]| :: s[1..][j].Some? {
          assert forall j | 0 < j < |s| :: s[j] == s[1..][j - 1];
        }
      }
    }
  }

  // ---- bytes ----

  /** One bit of a byte, as the source tests, sets and clears it. */
  predicate TestBit(h: byte, bit: nat)
    requires bit < 8
  {
    (h >> bit) & 1 != 0
  }

  function SetBit(h: byte, bit: nat): byte
    requires bit < 8
  {
    h | (1 << bit)
  }

  function ClearBit(h: byte, bit: nat): byte
    requires bit < 8
  {
    h & !(1 << bit)
  }

  lemma BitSet(h: byte, bit: nat, other: nat)
    requires bit < 8 && other < 8
    ensures TestBit(SetBit(h, bit), other) == (other == bit || TestBit(h, other))
  {
    hide TestBit, SetBit;
    OneBit(h, bit);
    if other != bit { OtherSet(h, bit, other); }
  }

  lemma BitCleared(h: byte, bit: nat, other: nat)
    requires bit < 8 && other < 8
    ensures TestBit(ClearBit(h, bit), other) == (other != bit && TestBit(h, other))
  {
    hide TestBit, ClearBit;
    OneBit(h, bit);
    if other != bit { OtherCleared(h, bit, other); }
  }

  lemma OneBit(h: byte, bit: nat)
    requires bit < 8
    ensures TestBit(SetBit(h, bit), bit) && !TestBit(ClearBit(h, bit), bit)
  {
  }

  lemma OtherSet(h: byte, bit: nat, other: nat)
    requires bit < 8 && other < 8 && bit != other
    ensures TestBit(SetBit(h, bit), other) == TestBit(h, other)
  {
  }

  lemma OtherCleared(h: byte, bit: nat, other: nat)
    requires bit < 8 && other < 8 && bit != other
    ensures TestBit(ClearBit(h, bit), other) == TestBit(h, other)
  {
    match bit
    case 0 => case 1 => case 2 => case 3 =>
    case 4 => case 5 => case 6 => case 7 =>
  }

  /** Bits are counted from the low end of the byte. */
  lemma BitOrder()
    ensures TestBit(1, 0) && TestBit(2, 1) && TestBit(4, 2) && TestBit(8, 3)
    ensures TestBit(16, 4) && TestBit(32, 5) && TestBit(64, 6) && TestBit(128, 7)
  {
  }

  /** A header with a counter and a bitmap, and 80 slots of 12 bytes behind it. */
  type Region = r: seq<byte> | |r| == REGION_SIZE witness seq(REGION_SIZE, _ => 0)

  const COUNT: nat := 4
  const INDEX: nat := 5

  function SlotStart(k: nat): nat { HEADER_SIZE + ENTRY_SIZE * k }

  predicate Used(r: Region, k: nat)
    requires k < MAX_ENTRIES
  {
    TestBit(r[INDEX + k / 8], k % 8)
  }

  function SlotBytes(r: Region, k: nat): Record
    requires k < MAX_ENTRIES
  {
    r[SlotStart(k)..SlotStart(k) + ENTRY_SIZE]
  }

  function SlotsOf(r: Region): (s: Slots)
    ensures |s| == MAX_ENTRIES
    ensures forall k | 0 <= k < MAX_ENTRIES :: s[k] == if Used(r, k) then Some(SlotBytes(r, k)) else None
  {
    seq(MAX_ENTRIES, k requires 0 <= k < MAX_ENTRIES => if Used(r, k) then Some(SlotBytes(r, k)) else None)
  }

  /** What the store holds. */
  function View(r: Region): seq<Record> { Entries(SlotsOf(r)) }

  function PutHeader(r: Region, h: seq<byte>): Region
    requires |h| == HEADER_SIZE
  {
    h + r[HEADER_SIZE..]
  }

  function PutSlot(r: Region, k: nat, e: Record): Region
    requires k < MAX_ENTRIES
  {
    r[..SlotStart(k)] + e + r[SlotStart(k) + ENTRY_SIZE..]
  }

  function Marked(r: Region, k: nat): Region
    requires k < MAX_ENTRIES
  {
    r[INDEX + k / 8 := SetBit(r[INDEX + k / 8], k % 8)][COUNT := r[COUNT] + 1]
  }

  function Unmarked(r: Region, k: nat): Region
    requires k < MAX_ENTRIES
  {
    r[INDEX + k / 8 := ClearBit(r[INDEX + k / 8], k % 8)][COUNT := r[COUNT] - 1]
  }

  const EMPTY_HEADER: seq<byte> := SIGNATURE + [0x0C, 0] + [0, 0, 0, 0, 0, 0, 0, 0, 0, 0]

  // ---- operations ----

  function Format(r: Region): Region { PutHeader(r, EMPTY_HEADER) }

  predicate Signed(r: Region) { r[..3] == SIGNATURE && r[3] == 0x0C }

  function Init(r: Region): Region { if Signed(r) then r else Format(r) }

  function Append(r: Region, e: Record): (bool, Region) {
    var k := FirstFree(SlotsOf(r), 0);
    if r[COUNT] as nat >= MAX_ENTRIES || k == MAX_ENTRIES then (false, r) else (true, Marked(PutSlot(r, k, e), k))
  }

  /** Slot of relative number `n`. */
  function Find(r: Region, n: nat): (k: nat)
    ensures k <= MAX_ENTRIES
  {
    if n >= r[COUNT] as nat then MAX_ENTRIES else Seek(SlotsOf(r), 0, 0, n).0
  }

  function Get(r: Region, n: nat): Option<Record> {
    var k := Find(r, n);
    if k == MAX_ENTRIES then None else Some(SlotBytes(r, k))
  }

  function Set(r: Region, n: nat, e: Record): (bool, Region) {
    var k := Find(r, n);
    if k == MAX_ENTRIES then (false, r) else (true, PutSlot(r, k, e))
  }

  function Del(r: Region, n: nat): (bool, Region) {
    var k := Find(r, n);
    if k == MAX_ENTRIES then (false, r) else (true, Unmarked(r, k))
  }

  // ---- bytes to slots ----

  /** Slots do not overlap each other or the header, and lie inside the region. */
  lemma SlotsApart(j: nat, k: nat)
    requires j < k < MAX_ENTRIES
    ensures HEADER_SIZE <= SlotStart(j) && SlotStart(j) + ENTRY_SIZE <= SlotStart(k)
    ensures SlotStart(k) + ENTRY_SIZE < 1024 && INDEX + k / 8 < 15
  {
  }

  lemma PutSlotBytes(r: Region, k: nat, e: Record, j: nat)
    requires k < MAX_ENTRIES && j < MAX_ENTRIES
    ensures SlotBytes(PutSlot(r, k, e), j) == if j == k then e else SlotBytes(r, j)
    ensures Used(PutSlot(r, k, e), j) == Used(r, j) && PutSlot(r, k, e)[COUNT] == r[COUNT]
  {
    if j < k { SlotsApart(j, k); } else if k < j { SlotsApart(k, j); }
  }

  lemma PutSlotSlots(r: Region, k: nat, e: Record)
    requires k < MAX_ENTRIES
    ensures SlotsOf(PutSlot(r, k, e)) == if Used(r, k) then SlotsOf(r)[k := Some(e)] else SlotsOf(r)
    ensures PutSlot(r, k, e)[COUNT] == r[COUNT] && SlotBytes(PutSlot(r, k, e), k) == e &&
      Used(PutSlot(r, k, e), k) == Used(r, k)
  {
    hide Used, SlotBytes, PutSlot;
    PutSlotBytes(r, k, e, k);
    forall j | 0 <= j < MAX_ENTRIES
      ensures SlotsOf(PutSlot(r, k, e))[j] == if j == k && Used(r, k) then Some(e) else SlotsOf(r)[j]
    {
      PutSlotBytes(r, k, e, j);
    }
  }

  lemma MarkedUsed(r: Region, k: nat, j: nat)
    requires k < MAX_ENTRIES && j < MAX_ENTRIES
    ensures Used(Marked(r, k), j) == (j == k || Used(r, j)) && SlotBytes(Marked(r, k), j) == SlotBytes(r, j)
    ensures Used(Unmarked(r, k), j) == (j != k && Used(r, j)) && SlotBytes(Unmarked(r, k), j) == SlotBytes(r, j)
  {
    hide TestBit, SetBit, ClearBit;
    if j / 8 == k / 8 {
      BitSet(r[INDEX + k / 8], k % 8, j % 8);
      BitCleared(r[INDEX + k / 8], k % 8, j % 8);
    }
  }

  lemma MarkedSlots(r: Region, k: nat)
    requires k < MAX_ENTRIES
    ensures SlotsOf(Marked(r, k)) == SlotsOf(r)[k := Some(SlotBytes(r, k))]
    ensures SlotsOf(Unmarked(r, k)) == SlotsOf(r)[k := None]
  {
    hide Used, SlotBytes, Marked, Unmarked;
    forall j | 0 <= j < MAX_ENTRIES
      ensures SlotsOf(Marked(r, k))[j] == SlotsOf(r)[k := Some(SlotBytes(r, k))][j]
      ensures SlotsOf(Unmarked(r, k))[j] == SlotsOf(r)[k := None][j]
    {
      MarkedUsed(r, k, j);
    }
  }

  // ---- what the header alone shows ----

  lemma HeaderBit(r: Region, header: seq<byte>, i: nat, bit: nat)
    requires header == r[..HEADER_SIZE] && i < 10 && bit < 8
    ensures TestBit(header[INDEX + i], bit) == SlotsOf(r)[i * 8 + bit].Some?
  {
    hide TestBit, SlotBytes;
    assert (i * 8 + bit) / 8 == i && (i * 8 + bit) % 8 == bit;
  }

  lemma HeaderSigned(r: Region, header: seq<byte>)
    requires header == r[..HEADER_SIZE]
    ensures Signed(r) <==> header[..3] == SIGNATURE && header[3] == 0x0C
  {
    assert header[..3] == r[..3];
  }

  // ---- what the operations mean ----

  /** The counter is the number of set bits. */
  ghost predicate Inv(r: Region) { r[COUNT] as nat == |View(r)| }

  lemma {:induction false} NoEntries(s: Slots)
    requires forall k | 0 <= k < |s| :: s[k].None?
    ensures Entries(s) == []
    decreases |s|
  {
    if s != [] { NoEntries(s[1..]); }
  }

  lemma FormatView(r: Region)
    ensures Inv(Format(r)) && View(Format(r)) == [] && Signed(Format(r))
  {
    var f := Format(r);
    forall k | 0 <= k < MAX_ENTRIES ensures !Used(f, k) {
      assert f[INDEX + k / 8] == 0;
    }
    NoEntries(SlotsOf(f));
  }

  /** An append puts the entry into the first free slot, in front of the entries in later slots, and fails
      only when all slots are used. */
  lemma AppendView(r: Region, e: Record)
    requires Inv(r)
    ensures FirstFree(SlotsOf(r), 0) <= |View(r)|
    ensures var (ok, r'), s := Append(r, e), SlotsOf(r);
      var k := FirstFree(s, 0);
      Inv(r') && ok == (|View(r)| < 80) &&
      View(r') == (if ok then View(r)[..k] + [e] + View(r)[k..] else View(r)) &&
      (ok ==> SlotsOf(r') == s[k := Some(e)])
  {
    hide Used, SlotBytes, PutSlot, Entries, TestBit, SlotsOf, Marked;
    var s := SlotsOf(r);
    var k := FirstFree(s, 0);
    AllUsed(s);
    if k < MAX_ENTRIES {
      PutSlotSlots(r, k, e);
      FreeUsed(r, k);
      MarkedSlots(PutSlot(r, k, e), k);
      MarkedCount(PutSlot(r, k, e), k);
      EntriesSplit(s, k);
      EntriesReplace(s, k, Some(e));
      AllUsed(s[..k]);
      assert Entries(s[..k]) == View(r)[..k] && Entries(s[k + 1..]) == View(r)[k..];
      NotAllUsed(s, k);
    }
  }

  lemma FreeUsed(r: Region, k: nat)
    requires k < MAX_ENTRIES
    ensures Used(r, k) == SlotsOf(r)[k].Some?
  {
  }

  lemma MarkedCount(r: Region, k: nat)
    requires k < MAX_ENTRIES
    ensures r[COUNT] < 255 ==> Marked(r, k)[COUNT] as nat == r[COUNT] as nat + 1
    ensures r[COUNT] > 0 ==> Unmarked(r, k)[COUNT] as nat == r[COUNT] as nat - 1
  {
  }

  lemma NotAllUsed(s: Slots, k: nat)
    requires k < |s| && s[k].None?
    ensures |Entries(s)| < |s|
  {
    AllUsed(s);
  }

  /** Relative number `n` is entry `n`, and there is no other. */
  lemma FindIs(r: Region, n: nat)
    requires Inv(r)
    ensures var k := Find(r, n);
      (k < MAX_ENTRIES <==> n < |View(r)|) &&
      (k < MAX_ENTRIES ==>
         Rank(SlotsOf(r), k) == n && SlotsOf(r)[k] == Some(View(r)[n]) && SlotBytes(r, k) == View(r)[n] && Used(r, k))
  {
    hide Used, SlotBytes, Entries;
    assert SlotsOf(r)[..0] == [];
    EmptyRank(SlotsOf(r));
    SeekFinds(SlotsOf(r), 0, n);
  }

  lemma EmptyRank(s: Slots)
    ensures Rank(s, 0) == 0
  {
  }

  lemma GetView(r: Region, n: nat)
    requires Inv(r)
    ensures Get(r, n) == if n < |View(r)| then Some(View(r)[n]) else None
  {
    hide Used, SlotBytes, View, Find;
    FindIs(r, n);
  }

  /** Splitting the entries around the one of number `n`. */
  lemma AroundEntry(s: Slots, k: nat)
    requires k < |s| && s[k].Some?
    ensures var n := Rank(s, k);
      n < |Entries(s)| && Entries(s[..k]) == Entries(s)[..n] && Entries(s[k + 1..]) == Entries(s)[n + 1..]
  {
    EntriesSplit(s, k);
  }

  lemma SetView(r: Region, n: nat, e: Record)
    requires Inv(r)
    ensures var (ok, r') := Set(r, n, e);
      Inv(r') && ok == (n < |View(r)|) && View(r') == if ok then View(r)[n := e] else View(r)
  {
    hide Used, SlotBytes, PutSlot, Entries, SlotsOf, Find;
    FindIs(r, n);
    var k := Find(r, n);
    if k < MAX_ENTRIES {
      PutSlotSlots(r, k, e);
      AroundEntry(SlotsOf(r), k);
      EntriesReplace(SlotsOf(r), k, Some(e));
    }
  }

  lemma DelView(r: Region, n: nat)
    requires Inv(r)
    ensures var (ok, r') := Del(r, n);
      Inv(r') && ok == (n < |View(r)|) && View(r') == if ok then View(r)[..n] + View(r)[n + 1..] else View(r)
  {
    hide Used, SlotBytes, Entries, SlotsOf, Unmarked, Find;
    FindIs(r, n);
    var k := Find(r, n);
    if k < MAX_ENTRIES {
      MarkedSlots(r, k);
      MarkedCount(r, k);
      AroundEntry(SlotsOf(r), k);
      EntriesReplace(SlotsOf(r), k, None);
    }
  }

  // ---- runs ----

  datatype Event = FormatAll | AppendEntry(entry: Record) | SetEntry(number: nat, entry: Record) | DelEntry(number: nat)

  function Step(r: Region, e: Event): Region {
    match e
    case FormatAll => Format(r)
    case AppendEntry(entry) => Append(r, entry).1
    case SetEntry(n, entry) => Set(r, n, entry).1
    case DelEntry(n) => Del(r, n).1
  }

  function Run(r: Region, events: seq<Event>): Region
    decreases |events|
  {
    if events == [] then r else Run(Step(r, events[0]), events[1..])
  }

  /** Over every run on a formatted store the counter agrees with the bitmap and the signature stays. */
  lemma {:induction false} RunInv(r: Region, events: seq<Event>)
    requires Inv(r) && Signed(r)
    ensures Inv(Run(r, events)) && Signed(Run(r, events)) && Init(Run(r, events)) == Run(r, events)
    decreases |events|
  {
    hide Inv, Signed, Step;
    if events != [] {
      StepInv(r, events[0]);
      RunInv(Step(r, events[0]), events[1..]);
    }
  }

  lemma StepInv(r: Region, e: Event)
    requires Inv(r) && Signed(r)
    ensures Inv(Step(r, e)) && Signed(Step(r, e))
  {
    hide Inv, View, SlotsOf, FirstFree, Find;
    match e
    case FormatAll => FormatView(r);
    case AppendEntry(entry) => AppendView(r, entry);
    case SetEntry(n, entry) => SetView(r, n, entry);
    case DelEntry(n) => DelView(r, n);
  }

  /** A store is taken over as it is exactly if it begins with the signature and the size of an entry; any other
      memory becomes an empty store. */
  lemma InitView(r: Region)
    ensures Signed(Init(r)) && Init(Init(r)) == Init(r)
    ensures if r[..4] == [0x6D, 0x61, 0x6B, 12] then Init(r) == r
            else Init(r) == [0x6D, 0x61, 0x6B, 12] + [0, 0, 0, 0, 0, 0, 0, 0, 0, 0, 0] + r[15..] && View(Init(r)) == []
  {
    assert r[..4][..3] == r[..3] && r[..4][3] == r[3];
    assert r[..4] == r[..3] + [r[3]];
    FormatView(r);
    hide View;
    assert EMPTY_HEADER == [0x6D, 0x61, 0x6B, 12] + [0, 0, 0, 0, 0, 0, 0, 0, 0, 0, 0];
  }

  /** The bytes of a store with one entry. */
  lemma FirstEntry(r: Region, e: Record)
    ensures var (ok, t) := Append(Format(r), e);
      ok && t == [0x6D, 0x61, 0x6B, 12, 1, 1, 0, 0, 0, 0, 0, 0, 0, 0, 0] + e + r[27..]
  {
    hide TestBit, SetBit;
    var f := Format(r);
    NoBits();
    assert f == EMPTY_HEADER + r[15..];
    assert !Used(f, 0);
    assert FirstFree(SlotsOf(f), 0) == 0;
    var p := PutSlot(f, 0, e);
    assert p == EMPTY_HEADER + e + r[27..];
    assert EMPTY_HEADER[5 := 1][4 := 1] == [0x6D, 0x61, 0x6B, 12, 1, 1, 0, 0, 0, 0, 0, 0, 0, 0, 0];
  }

  lemma NoBits()
    ensures !TestBit(0, 0) && SetBit(0, 0) == 1
  {
  }

  // ---- iterator ----

  /** `slot` is the pair of sector and bit, `count` the entries passed, `entry` the number asked for next. */
  datatype Iterator = Iterator(slot: nat, count: nat, entry: nat)

  const BEGIN: Iterator := Iterator(0, 0, 0)

  function Next(r: Region, it: Iterator): (Option<Record>, Iterator)
    requires it.slot <= MAX_ENTRIES
  {
    var entry := (it.entry + 1) % 256;
    if it.entry >= r[COUNT] as nat then (None, it.(entry := entry))
    else
      var (k, count) := Seek(SlotsOf(r), it.slot, it.count, it.entry);
      (if k == MAX_ENTRIES then None else Some(SlotBytes(r, k)), Iterator(k, count, entry))
  }

  /** The iterator after `k` calls. */
  function After(r: Region, k: nat): (it: Iterator)
    ensures it.slot <= MAX_ENTRIES
  {
    if k == 0 then BEGIN else Next(r, After(r, k - 1)).1
  }

  /** Between calls the iterator rests on the last entry it returned. */
  ghost predicate Resting(r: Region, it: Iterator, k: nat) {
    it.slot <= MAX_ENTRIES && it.entry == k % 256 &&
    (if k == 0 then it == BEGIN
     else
       var last := if k < |View(r)| then k - 1 else |View(r)| - 1;
       if last < 0 then it.slot == 0 && it.count == 0
       else it.slot < MAX_ENTRIES && Used(r, it.slot) && Rank(SlotsOf(r), it.slot) == it.count == last)
  }

  /** Up to 256 calls the resumed search gives what a search from the start gives. */
  lemma {:induction false} IteratorIsGet(r: Region, k: nat)
    requires Inv(r) && k < 256
    ensures Resting(r, After(r, k), k) && Next(r, After(r, k)).0 == Get(r, k)
    decreases k
  {
    hide Used, SlotBytes, Inv, View, Resting;
    if k > 0 {
      IteratorIsGet(r, k - 1);
      NextRests(r, After(r, k - 1), k - 1);
    } else {
      BeginRests(r);
    }
    NextIsGet(r, After(r, k), k);
  }

  lemma BeginRests(r: Region)
    ensures Resting(r, BEGIN, 0)
  {
  }

  lemma RestingSeek(r: Region, it: Iterator, k: nat)
    requires Inv(r) && k < |View(r)| && Resting(r, it, k)
    ensures Rank(SlotsOf(r), it.slot) == it.count <= k
  {
    hide SlotsOf;
    EmptyRank(SlotsOf(r));
  }

  lemma NextIsGet(r: Region, it: Iterator, k: nat)
    requires Inv(r) && k < 256 && Resting(r, it, k)
    ensures Next(r, it).0 == Get(r, k)
  {
    hide Used, SlotBytes, Find;
    GetView(r, k);
    if k < |View(r)| {
      RestingSeek(r, it, k);
      SeekFinds(SlotsOf(r), it.slot, k);
    }
  }

  lemma NextRests(r: Region, it: Iterator, k: nat)
    requires Inv(r) && k < 256 && Resting(r, it, k)
    ensures Resting(r, Next(r, it).1, k + 1)
  {
    hide SlotBytes, Find, Used;
    if k < |View(r)| {
      RestingSeek(r, it, k);
      SeekFinds(SlotsOf(r), it.slot, k);
      var at := Next(r, it).1.slot;
      FreeUsed(r, at);
    }
  }

  /** The entry number is one byte: call 257 asks for entry 0 again and finds it only if there is no second one. */
  lemma IteratorWraps(r: Region)
    requires Inv(r)
    ensures Next(r, After(r, 256)).0 == Get(r, 0) <==> |View(r)| <= 1
  {
    hide SlotBytes, Find;
    IteratorIsGet(r, 255);
    NextRests(r, After(r, 255), 255);
    var it := After(r, 256);
    GetView(r, 0);
    if |View(r)| == 1 {
      EmptyRank(SlotsOf(r));
      SeekFinds(SlotsOf(r), it.slot, 0);
    } else if |View(r)| > 1 {
      SeekPast(SlotsOf(r), it.slot, it.count, 0);
    }
  }

  /** With at most one entry the search always stands in front of it. */
  lemma {:induction false} SmallStore(r: Region, k: nat)
    requires Inv(r) && |View(r)| <= 1
    ensures var it := After(r, k);
      it.entry == k % 256 && Rank(SlotsOf(r), it.slot) == it.count == 0 && Next(r, it).0 == Get(r, k % 256)
    decreases k
  {
    hide SlotBytes, SlotsOf, Find, Used, Next, Rank, Get, View, Inv;
    if k > 0 {
      SmallStore(r, k - 1);
      SmallNext(r, After(r, k - 1));
      ByteNext(k - 1);
    } else {
      EmptyRank(SlotsOf(r));
    }
    SmallNext(r, After(r, k));
  }

  lemma ByteNext(k: nat)
    ensures (k % 256 + 1) % 256 == (k + 1) % 256
  {
  }

  lemma SmallNext(r: Region, it: Iterator)
    requires Inv(r) && |View(r)| <= 1 && it.slot <= MAX_ENTRIES && Rank(SlotsOf(r), it.slot) == it.count == 0
    ensures var (e, next) := Next(r, it);
      e == Get(r, it.entry) && next.entry == (it.entry + 1) % 256 && Rank(SlotsOf(r), next.slot) == next.count == 0
  {
    hide SlotBytes, SlotsOf, Find, Used;
    GetView(r, it.entry);
    if it.entry < |View(r)| {
      SeekFinds(SlotsOf(r), it.slot, 0);
      SlotIs(r, Seek(SlotsOf(r), it.slot, 0, 0).0);
    }
  }

  lemma SlotIs(r: Region, k: nat)
    requires k < MAX_ENTRIES && SlotsOf(r)[k].Some?
    ensures SlotsOf(r)[k] == Some(SlotBytes(r, k))
  {
  }

  /** The iterator agrees with reading by number, the number taken as a byte, for good exactly if there is at
      most one entry. */
  lemma IteratorAgreesIff(r: Region)
    requires Inv(r)
    ensures (forall k: nat :: Next(r, After(r, k)).0 == Get(r, k % 256)) <==> |View(r)| <= 1
  {
    hide View, Next, After, Get;
    if |View(r)| <= 1 {
      forall k: nat ensures Next(r, After(r, k)).0 == Get(r, k % 256) { SmallStore(r, k); }
    } else {
      IteratorWraps(r);
      assert Next(r, After(r, 256)).0 != Get(r, 256 % 256);
    }
  }

  /** A count that is past the number never meets it. */
  lemma {:induction false} SeekPast(s: Slots, k: nat, count: nat, n: nat)
    requires k <= |s| && n < count
    ensures Seek(s, k, count, n).0 == |s|
    decreases |s| - k
  {
    if k < |s| { SeekPast(s, k + 1, if s[k].Some? then count + 1 else count, n); }
  }

  // ---- events ----

  datatype Action = Action(action: byte, param: byte, hasParam: bool)

  function EventOf(e: Record): byte { e[1] }
  function AddressOf(e: Record): seq<byte> { e[2..10] }
  function HasParamOf(e: Record): bool { e[0] & 1 != 0 }

  /** The parameter of the event overrides the stored one. */
  function ActionOf(e: Record, param: byte, hasParam: bool): Action {
    if hasParam then Action(e[10], param, hasParam) else Action(e[10], e[11], HasParamOf(e))
  }

  function TriggeredBy(e: Record, address: seq<byte>, event: byte, param: byte, hasParam: bool): seq<Action> {
    if EventOf(e) == event && AddressOf(e) == address then [ActionOf(e, param, hasParam)] else []
  }

  /** The actions of the entries that match, in order. */
  function Matching(es: seq<Record>, address: seq<byte>, event: byte, param: byte, hasParam: bool): seq<Action> {
    if es == [] then []
    else
      Matching(es[..|es| - 1], address, event, param, hasParam) +
      TriggeredBy(es[|es| - 1], address, event, param, hasParam)
  }

  lemma MatchingNext(es: seq<Record>, i: nat, address: seq<byte>, event: byte, param: byte, hasParam: bool)
    requires i < |es|
    ensures Matching(es[..i + 1], address, event, param, hasParam) ==
      Matching(es[..i], address, event, param, hasParam) + TriggeredBy(es[i], address, event, param, hasParam)
  {
    hide TriggeredBy;
    assert es[..i + 1][..i] == es[..i];
  }

  /** A stored entry answers an event of its own number from its own address: with the parameter of the event if there
      is one, its own otherwise. */
  lemma Answers(e: Record, address: seq<byte>, event: byte, param: byte, hasParam: bool)
    ensures TriggeredBy(e, address, event, param, hasParam) ==
      if e[1] == event && e[2..10] == address
      then [Action(e[10], if hasParam then param else e[11], hasParam || e[0] & 1 != 0)] else []
  {
  }

  /** The actions of a list of entries are those of its parts. */
  lemma {:induction false} MatchingAppend(a: seq<Record>, b: seq<Record>,
                                          address: seq<byte>, event: byte, param: byte, hasParam: bool)
    ensures Matching(a + b, address, event, param, hasParam) ==
      Matching(a, address, event, param, hasParam) + Matching(b, address, event, param, hasParam)
    decreases |b|
  {
    hide TriggeredBy;
    if b == [] {
      assert a + b == a;
    } else {
      assert (a + b)[..|a + b| - 1] == a + b[..|b| - 1];
      MatchingAppend(a, b[..|b| - 1], address, event, param, hasParam);
    }
  }

  lemma EmptyStart(r: Region, address: seq<byte>, event: byte, param: byte, hasParam: bool)
    ensures Matching(View(r)[..0], address, event, param, hasParam) == [] && After(r, 0) == BEGIN
  {
  }

  lemma CountIs(r: Region)
    requires Inv(r)
    ensures r[COUNT] as nat == |View(r)| <= MAX_ENTRIES
  {
  }

  /** Call `i` of the iterator returns the entry whose actions come next. */
  lemma NextMatches(r: Region, i: nat, address: seq<byte>, event: byte, param: byte, hasParam: bool)
    requires Inv(r) && i < r[COUNT] as nat
    ensures i < |View(r)| && Next(r, After(r, i)).0 == Some(View(r)[i])
    ensures Matching(View(r)[..i + 1], address, event, param, hasParam) ==
      Matching(View(r)[..i], address, event, param, hasParam) + TriggeredBy(View(r)[i], address, event, param, hasParam)
  {
    CountIs(r);
    hide View, Inv, Next, After, Matching, TriggeredBy, SlotsOf;
    IteratorIsGet(r, i);
    GetView(r, i);
    MatchingNext(View(r), i, address, event, param, hasParam);
  }

  /** The counter of a store in order covers all its entries. */
  lemma AllMatching(r: Region, address: seq<byte>, event: byte, param: byte, hasParam: bool)
    requires Inv(r)
    ensures r[COUNT] as nat == |View(r)| <= MAX_ENTRIES
    ensures Matching(View(r)[..|View(r)|], address, event, param, hasParam) ==
      Matching(View(r), address, event, param, hasParam)
  {
    CountIs(r);
    assert View(r)[..|View(r)|] == View(r);
  }
}
