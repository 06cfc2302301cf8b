/** The store as it runs: `Persist` regions over the EEPROM, and `ProtocolDB` on one of them. */
module ProtocolDB {
  import opened Wrappers
  import opened StoreModel

  class Eeprom {
    const cells: array<byte>
    var lastAllocatedAddress: nat

    constructor (size: nat)
      ensures fresh(cells) && cells.Length == size && lastAllocatedAddress == 0
    {
      cells := new byte[size];
      lastAllocatedAddress := 0;
    }
  }

  class Persist {
    const eeprom: Eeprom
    var start: nat
    var size: nat
    var initialized: bool

    constructor (eeprom: Eeprom)
      ensures this.eeprom == eeprom && !initialized
    {
      this.eeprom := eeprom;
      initialized, start, size := false, 0, 0;
    }

    /** The region lies inside the memory. */
    ghost predicate Inside()
      reads this
    {
      initialized ==> start + size <= eeprom.cells.Length
    }

    /** Regions are handed out one behind the other, until one does not fit. */
    method Init(size: nat) returns (ok: bool)
      modifies this`start, this`size, this`initialized, eeprom`lastAllocatedAddress
      ensures ok == initialized == (old(eeprom.lastAllocatedAddress) + size <= eeprom.cells.Length)
      ensures ok ==> Inside() && start == old(eeprom.lastAllocatedAddress) && this.size == size
      ensures ok ==> eeprom.lastAllocatedAddress == start + size
      ensures !ok ==> eeprom.lastAllocatedAddress == old(eeprom.lastAllocatedAddress)
    {
      initialized := false;
      if eeprom.lastAllocatedAddress + size <= eeprom.cells.Length {
        start := eeprom.lastAllocatedAddress;
        this.size := size;
        initialized := true;
        eeprom.lastAllocatedAddress := eeprom.lastAllocatedAddress + size;
        return true;
      }
      return false;
    }

    /** A block must end strictly inside the region; nothing is read otherwise. */
    method ReadBlock(address: nat, n: nat) returns (ok: bool, dest: seq<byte>)
      requires Inside()
      ensures ok == (initialized && address + n < size)
      ensures dest == if ok then eeprom.cells[start + address..start + address + n] else []
    {
      if !initialized || address >= size || address + n >= size { return false, []; }
      return true, eeprom.cells[start + address..start + address + n];
    }

    method WriteBlock(src: seq<byte>, address: nat) returns (ok: bool)
      requires Inside()
      modifies eeprom.cells
      ensures ok == (initialized && address < size && address + |src| < size)
      ensures eeprom.cells[..] ==
        if ok then old(eeprom.cells[..])[..start + address] + src + old(eeprom.cells[..])[start + address + |src|..]
        else old(eeprom.cells[..])
    {
      if !initialized || address >= size || address + |src| >= size { return false; }
      var k := 0;
      while k < |src|
        invariant k <= |src|
        invariant forall j | 0 <= j < k :: eeprom.cells[start + address + j] == src[j]
        invariant forall j | 0 <= j < start + address :: eeprom.cells[j] == old(eeprom.cells[..])[j]
        invariant forall j | start + address + k <= j < eeprom.cells.Length ::
          eeprom.cells[j] == old(eeprom.cells[..])[j]
      {
        eeprom.cells[start + address + k] := src[k];
        k := k + 1;
      }
      return true;
    }
  }

  datatype Request = GET | SET(entry: Record) | DEL

  class Store {
    const persist: Persist
    var currentSector: nat
    var currentBit: nat
    var currentCount: nat
    var currentEntry: nat

    ghost predicate Valid()
      reads this, persist
    {
      persist.initialized && persist.Inside() && persist.size == REGION_SIZE &&
      currentBit < 8 && currentSector * 8 + currentBit <= MAX_ENTRIES
    }

    ghost function Data(): Region
      reads this, persist, persist.eeprom.cells
      requires Valid()
    {
      persist.eeprom.cells[persist.start..persist.start + REGION_SIZE]
    }

    /** Everything outside the region. */
    ghost function Around(): (seq<byte>, seq<byte>)
      reads this, persist, persist.eeprom.cells
      requires Valid()
    {
      (persist.eeprom.cells[..persist.start], persist.eeprom.cells[persist.start + REGION_SIZE..])
    }

    ghost function Position(): Iterator
      reads this
    {
      Iterator(currentSector * 8 + currentBit, currentCount, currentEntry)
    }

    constructor (persist: Persist)
      requires persist.initialized && persist.Inside() && persist.size == REGION_SIZE
      ensures Valid() && this.persist == persist && Position() == BEGIN
    {
      this.persist := persist;
      currentSector, currentBit, currentCount, currentEntry := 0, 0, 0, 0;
    }

    method ReadHeader() returns (header: seq<byte>)
      requires Valid()
      ensures header == Data()[..HEADER_SIZE]
    {
      var ok, h := persist.ReadBlock(0, HEADER_SIZE);
      header := h;
      assert header == Data()[..HEADER_SIZE];
    }

    method WriteBytes(src: seq<byte>, address: nat)
      requires Valid() && address + |src| < REGION_SIZE
      modifies persist.eeprom.cells
      ensures Valid() && Around() == old(Around())
      ensures Data() == old(Data())[..address] + src + old(Data())[address + |src|..]
    {
      ghost var was := persist.eeprom.cells[..];
      ghost var start := persist.start;
      var ok := persist.WriteBlock(src, address);
      ghost var now := persist.eeprom.cells[..];
      Within(was, now, start, REGION_SIZE, address, src);
      assert Data() == now[start..start + REGION_SIZE];
      assert old(Data()) == was[start..start + REGION_SIZE];
      assert Around() == (now[..start], now[start + REGION_SIZE..]);
      assert old(Around()) == (was[..start], was[start + REGION_SIZE..]);
    }

    method WriteHeader(header: seq<byte>)
      requires Valid() && |header| == HEADER_SIZE
      modifies persist.eeprom.cells
      ensures Valid() && Around() == old(Around()) && Data() == PutHeader(old(Data()), header)
    {
      WriteBytes(header, 0);
    }

    method WriteEntry(entry: Record, absEntry: nat)
      requires Valid() && absEntry < MAX_ENTRIES
      modifies persist.eeprom.cells
      ensures Valid() && Around() == old(Around()) && Data() == PutSlot(old(Data()), absEntry, entry)
    {
      WriteBytes(entry, HEADER_SIZE + ENTRY_SIZE * absEntry);
    }

    method ReadEntry(absEntry: nat) returns (entry: Record)
      requires Valid() && absEntry < MAX_ENTRIES
      ensures entry == SlotBytes(Data(), absEntry)
    {
      var address := HEADER_SIZE + ENTRY_SIZE * absEntry;
      var ok, bytes := persist.ReadBlock(address, ENTRY_SIZE);
      assert bytes == Data()[address..address + ENTRY_SIZE];
      entry := bytes;
    }

    /** `PDB_format`. */
    method Format()
      requires Valid()
      modifies persist.eeprom.cells
      ensures Valid() && Around() == old(Around()) && Data() == StoreModel.Format(old(Data()))
    {
      var header := SIGNATURE + [ENTRY_SIZE as byte, 0];
      var i := 0;
      while i < 10
        invariant i <= 10 && |header| == 5 + i && header == EMPTY_HEADER[..5 + i]
      {
        header := header + [0];
        i := i + 1;
      }
      WriteHeader(header);
    }

    /** The rest of `PDB_init`, once the region is allocated. */
    method Init() returns (formatted: bool)
      requires Valid()
      modifies persist.eeprom.cells
      ensures Valid() && Around() == old(Around()) && Data() == StoreModel.Init(old(Data()))
      ensures formatted == !Signed(old(Data()))
    {
      hide Signed, StoreModel.Format;
      var header := ReadHeader();
      HeaderSigned(Data(), header);
      formatted := header[..3] != SIGNATURE || header[3] != ENTRY_SIZE as byte;
      if formatted { Format(); }
    }

    /** Writes an entry and marks its slot as used. */
    method Claim(entry: Record, header: seq<byte>, i: nat, bit: nat)
      requires Valid() && header == Data()[..HEADER_SIZE] && i < 10 && bit < 8
      modifies persist.eeprom.cells
      ensures Valid() && Around() == old(Around())
      ensures Data() == Marked(PutSlot(old(Data()), i * 8 + bit, entry), i * 8 + bit)
    {
      hide SetBit, PutSlot, Marked;
      ghost var r := Data();
      WriteEntry(entry, i * 8 + bit);
      var marked := header[INDEX + i := SetBit(header[INDEX + i], bit)];
      marked := marked[COUNT := marked[COUNT] + 1];
      AppendHeader(r, i * 8 + bit, entry, marked);
      WriteHeader(marked);
    }

    /** Marks a slot as free. */
    method Release(header: seq<byte>, i: nat, bit: nat)
      requires Valid() && header == Data()[..HEADER_SIZE] && i < 10 && bit < 8
      modifies persist.eeprom.cells
      ensures Valid() && Around() == old(Around()) && Data() == Unmarked(old(Data()), i * 8 + bit)
    {
      hide ClearBit, Unmarked;
      var cleared := header[INDEX + i := ClearBit(header[INDEX + i], bit)];
      cleared := cleared[COUNT := cleared[COUNT] - 1];
      DeleteHeader(Data(), i * 8 + bit, cleared);
      WriteHeader(cleared);
    }

    /** The loops of `PDB_appendEntry`: the first clear bit. */
    method FreeSlot(header: seq<byte>) returns (i: nat, bit: nat)
      requires Valid() && header == Data()[..HEADER_SIZE]
      ensures bit < 8 && i * 8 + bit == FirstFree(SlotsOf(Data()), 0)
    {
      hide TestBit, SlotsOf, FirstFree;
      ghost var s := SlotsOf(Data());
      i, bit := 0, 0;
      while i < 10
        invariant i <= 10 && bit == 0 && FirstFree(s, i * 8) == FirstFree(s, 0)
      {
        while bit < 8
          invariant bit <= 8 && FirstFree(s, i * 8 + bit) == FirstFree(s, 0)
        {
          FreeTurn(s, i * 8 + bit);
          HeaderBit(Data(), header, i, bit);
          if !TestBit(header[INDEX + i], bit) { return; }
          bit := bit + 1;
        }
        i, bit := i + 1, 0;
      }
      FreeTurn(s, 0);
    }

    /** `PDB_appendEntry`. */
    method AppendEntry(entry: Record) returns (ok: bool)
      requires Valid()
      modifies persist.eeprom.cells
      ensures Valid() && Around() == old(Around()) && (ok, Data()) == Append(old(Data()), entry)
    {
      hide FirstFree, SlotsOf, Marked, PutSlot;
      var header := ReadHeader();
      if header[COUNT] as nat >= MAX_ENTRIES { return false; }
      var i, bit := FreeSlot(header);
      if i == 10 { return false; }
      Claim(entry, header, i, bit);
      return true;
    }

    /** The loops of `PDB__getSetDelEntry`: the set bit of relative number `nEntry`, resumed where the
        counters say. */
    method SeekEntry(header: seq<byte>, nEntry: nat, startSector: nat, startBit: nat, startCount: nat)
      returns (i: nat, bit: nat, count: nat)
      requires Valid() && header == Data()[..HEADER_SIZE] && startBit < 8 && startSector * 8 + startBit <= MAX_ENTRIES
      ensures bit < 8 && i * 8 + bit <= MAX_ENTRIES
      ensures (i * 8 + bit, count) == Seek(SlotsOf(Data()), startSector * 8 + startBit, startCount, nEntry)
    {
      hide TestBit, SlotsOf, Seek, Used, SlotBytes;
      ghost var r := Data();
      ghost var s := SlotsOf(r);
      ghost var goal := Seek(s, startSector * 8 + startBit, startCount, nEntry);
      i, bit, count := startSector, startBit, startCount;
      while i < 10
        invariant i <= 10 && bit < 8 && i * 8 + bit <= MAX_ENTRIES
        invariant Seek(s, i * 8 + bit, count, nEntry) == goal
      {
        while bit < 8
          invariant bit <= 8
          invariant Seek(s, i * 8 + bit, count, nEntry) == goal
        {
          SeekTurn(s, i * 8 + bit, count, nEntry);
          HeaderBit(r, header, i, bit);
          if TestBit(header[INDEX + i], bit) {
            if count == nEntry { return; }
            count := count + 1;
          }
          bit := bit + 1;
        }
        i, bit := i + 1, 0;
      }
      SeekEnd(s, count, nEntry);
    }

    /** `PDB__getSetDelEntry`. The last three parameters are passed by reference in the source. */
    method GetSetDelEntry(nEntry: nat, action: Request, startSector: nat, startBit: nat, startCount: nat)
      returns (ok: bool, entry: Option<Record>, i: nat, bit: nat, count: nat)
      requires Valid() && startBit < 8 && startSector * 8 + startBit <= MAX_ENTRIES
      modifies persist.eeprom.cells
      ensures Valid() && Around() == old(Around()) && bit < 8 && i * 8 + bit <= MAX_ENTRIES
      ensures Searched(old(Data()), nEntry, action, startSector * 8 + startBit, startCount,
                       ok, entry, i * 8 + bit, count, Data())
      ensures action.GET? ==> unchanged(persist.eeprom.cells)
    {
      hide Seek, SlotsOf, SlotBytes, PutSlot, Unmarked;
      i, bit, count, entry := startSector, startBit, startCount, None;
      var header := ReadHeader();
      if nEntry >= header[COUNT] as nat { return false, None, i, bit, count; }
      i, bit, count := SeekEntry(header, nEntry, startSector, startBit, startCount);
      ok := i < 10;
      if ok {
        match action {
          case GET =>
            var e := ReadEntry(i * 8 + bit);
            entry := Some(e);
          case SET(e) => WriteEntry(e, i * 8 + bit);
          case DEL => Release(header, i, bit);
        }
      }
    }

    method GetEntry(nEntry: nat) returns (entry: Option<Record>)
      requires Valid()
      modifies persist.eeprom.cells
      ensures unchanged(persist.eeprom.cells) && entry == Get(Data(), nEntry)
    {
      hide Seek, SlotsOf, SlotBytes;
      var ok, e, _, _, _ := GetSetDelEntry(nEntry, GET, 0, 0, 0);
      entry := e;
    }

    method SetEntry(nEntry: nat, entry: Record) returns (ok: bool)
      requires Valid()
      modifies persist.eeprom.cells
      ensures Valid() && Around() == old(Around()) && (ok, Data()) == Set(old(Data()), nEntry, entry)
    {
      hide Seek, SlotsOf, SlotBytes, PutSlot;
      var found, _, _, _, _ := GetSetDelEntry(nEntry, SET(entry), 0, 0, 0);
      ok := found;
    }

    method DelEntry(nEntry: nat) returns (ok: bool)
      requires Valid()
      modifies persist.eeprom.cells
      ensures Valid() && Around() == old(Around()) && (ok, Data()) == Del(old(Data()), nEntry)
    {
      hide Seek, SlotsOf, SlotBytes, Unmarked;
      var found, _, _, _, _ := GetSetDelEntry(nEntry, DEL, 0, 0, 0);
      ok := found;
    }

    method IteratorBegin()
      requires Valid()
      modifies this
      ensures Valid() && Position() == BEGIN
    {
      currentSector, currentBit, currentCount, currentEntry := 0, 0, 0, 0;
    }

    /** The entry number is a byte. */
    method IteratorGetNextEntry() returns (entry: Option<Record>)
      requires Valid()
      modifies this, persist.eeprom.cells
      ensures Valid() && unchanged(persist.eeprom.cells) && (entry, Position()) == Next(Data(), old(Position()))
    {
      hide Seek, SlotsOf, SlotBytes;
      var ok, e, sector, bit, count := GetSetDelEntry(currentEntry, GET, currentSector, currentBit, currentCount);
      currentSector, currentBit, currentCount := sector, bit, count;
      currentEntry := (currentEntry + 1) % 256;
      entry := e;
    }
  }

  /** The part of `AquilaProtocol` that runs the stored actions of an event. */
  class Dispatcher {
    const store: Store
    ghost var actions: seq<Action>   // what `doAction` was given

    constructor (store: Store)
      ensures this.store == store && actions == []
    {
      this.store := store;
      actions := [];
    }

    method DoAction(action: byte, param: byte, hasParam: bool)
      modifies this`actions
      ensures actions == old(actions) + [Action(action, param, hasParam)]
    {
      actions := actions + [Action(action, param, hasParam)];
    }

    /** What `checkEvent` does with one entry. */
    method Trigger(entry: Record, address: seq<byte>, event: byte, param: byte, hasParam: bool)
      modifies this`actions
      ensures actions == old(actions) + TriggeredBy(entry, address, event, param, hasParam)
    {
      if EventOf(entry) == event {
        if address == AddressOf(entry) {
          if hasParam {
            DoAction(entry[10], param, hasParam);
          } else {
            DoAction(entry[10], entry[11], HasParamOf(entry));
          }
        }
      }
    }

    /** The body of the loop of `checkEvent`. */
    method CheckNext(ghost i: nat, address: seq<byte>, event: byte, param: byte, hasParam: bool)
      requires store.Valid() && store.Position() == After(store.Data(), i) && i < store.Data()[COUNT] as nat
      modifies this`actions, store, store.persist.eeprom.cells
      ensures store.Valid() && unchanged(store.persist.eeprom.cells) && store.Position() == After(store.Data(), i + 1)
      ensures Inv(store.Data()) ==> i < |View(store.Data())|
      ensures Inv(store.Data()) ==>
        actions == old(actions) + TriggeredBy(View(store.Data())[i], address, event, param, hasParam)
    {
      hide Inv, View, Next, SlotsOf, TriggeredBy, Matching;
      ghost var r := store.Data();
      var entry := store.IteratorGetNextEntry();
      assert store.Data() == r;
      if Inv(r) { NextMatches(r, i, address, event, param, hasParam); }
      if entry.Some? { Trigger(entry.value, address, event, param, hasParam); }
    }

    /** The loop of `checkEvent`. */
    method CheckEntries(nEntries: nat, address: seq<byte>, event: byte, param: byte, hasParam: bool)
      requires store.Valid() && store.Position() == BEGIN && nEntries <= store.Data()[COUNT] as nat
      modifies this`actions, store, store.persist.eeprom.cells
      ensures store.Valid() && unchanged(store.persist.eeprom.cells)
      ensures Inv(store.Data()) ==> nEntries <= |View(store.Data())|
      ensures Inv(store.Data()) ==>
        actions == old(actions) + Matching(View(store.Data())[..nEntries], address, event, param, hasParam)
      ensures nEntries == 0 ==> actions == old(actions)
    {
      hide Inv, View, After, SlotsOf, TriggeredBy, Matching;
      ghost var r := store.Data();
      EmptyStart(r, address, event, param, hasParam);
      var i := 0;
      while i < nEntries
        invariant i <= nEntries && store.Valid() && unchanged(store.persist.eeprom.cells)
        invariant store.Data() == r && store.Position() == After(r, i) && (i == 0 ==> actions == old(actions))
        invariant Inv(r) ==> i <= |View(r)|
        invariant Inv(r) ==> actions == old(actions) + Matching(View(r)[..i], address, event, param, hasParam)
      {
        CheckNext(i, address, event, param, hasParam);
        assert store.Data() == r;
        if Inv(r) { MatchingNext(View(r), i, address, event, param, hasParam); }
        i := i + 1;
      }
    }

    /** A counter that cannot be right is taken for an empty store. */
    method CountEntries() returns (nEntries: nat)
      requires store.Valid()
      ensures var count := store.Data()[COUNT] as nat; nEntries == if count > MAX_ENTRIES then 0 else count
    {
      var header := store.ReadHeader();
      nEntries := header[COUNT] as nat;
      if nEntries > MAX_ENTRIES { nEntries := 0; }
    }

    /** `checkEvent` after the local subscriptions. */
    method CheckEvent(address: seq<byte>, event: byte, param: byte, hasParam: bool)
      requires store.Valid()
      modifies this`actions, store, store.persist.eeprom.cells
      ensures store.Valid() && unchanged(store.persist.eeprom.cells)
      ensures Inv(store.Data()) ==>
        actions == old(actions) + Matching(View(store.Data()), address, event, param, hasParam)
      ensures store.Data()[COUNT] as nat > MAX_ENTRIES ==> actions == old(actions)
    {
      hide Inv, View, After, SlotsOf, TriggeredBy, Matching;
      ghost var r := store.Data();
      if Inv(r) { AllMatching(r, address, event, param, hasParam); }
      var nEntries := CountEntries();
      store.IteratorBegin();
      assert store.Data() == r;
      CheckEntries(nEntries, address, event, param, hasParam);
      assert store.Data() == r;
    }
  }

  /** Writing inside a part of a memory changes that part only. */
  lemma Within(was: seq<byte>, now: seq<byte>, start: nat, size: nat, address: nat, src: seq<byte>)
    requires start + size <= |was| && address + |src| <= size
    requires now == was[..start + address] + src + was[start + address + |src|..]
    ensures |now| == |was| && now[..start] == was[..start] && now[start + size..] == was[start + size..]
    ensures var part := was[start..start + size];
      now[start..start + size] == part[..address] + src + part[address + |src|..]
  {
    var end := address + |src|;
    assert |now| == |was|;
    assert forall k | 0 <= k < |was| ::
      now[k] == if start + address <= k < start + end then src[k - start - address] else was[k];
    var part, part' := was[start..start + size], now[start..start + size];
    var goal := part[..address] + src + part[end..];
    assert |goal| == size;
    forall k | 0 <= k < size ensures part'[k] == goal[k] {
      assert part'[k] == now[start + k] && part[k] == was[start + k];
    }
  }

  lemma AppendHeader(r: Region, k: nat, e: Record, header: seq<byte>)
    requires k < MAX_ENTRIES
    requires header == r[..HEADER_SIZE][INDEX + k / 8 := SetBit(r[INDEX + k / 8], k % 8)][COUNT := r[COUNT] + 1]
    ensures PutHeader(PutSlot(r, k, e), header) == Marked(PutSlot(r, k, e), k)
  {
  }

  lemma DeleteHeader(r: Region, k: nat, header: seq<byte>)
    requires k < MAX_ENTRIES
    requires header == r[..HEADER_SIZE][INDEX + k / 8 := ClearBit(r[INDEX + k / 8], k % 8)][COUNT := r[COUNT] - 1]
    ensures PutHeader(r, header) == Unmarked(r, k)
  {
  }

  /** What one pass of the search does: where it stops, what it returns and what it changes. */
  ghost predicate Searched(r: Region, n: nat, action: Request, start: nat, startCount: nat,
                           ok: bool, entry: Option<Record>, stop: nat, count: nat, after: Region)
    requires start <= MAX_ENTRIES
  {
    if n >= r[COUNT] as nat then !ok && entry.None? && stop == start && count == startCount && after == r
    else
      var (k, c) := Seek(SlotsOf(r), start, startCount, n);
      stop == k && count == c && ok == (k < MAX_ENTRIES) &&
      entry == (if ok && action.GET? then Some(SlotBytes(r, k)) else None) &&
      after == if !ok || action.GET? then r else if action.DEL? then Unmarked(r, k) else PutSlot(r, k, action.entry)
  }
}
