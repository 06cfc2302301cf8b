/** The route table as it is in memory: entries in a fixed array, changed in place by loops. */
module RouteTable {
  import opened RouteModel

  class Routes {
    const table: array<Entry>

    /** `nwkRouteInit`; the other fields of the entries are whatever the memory held. */
    constructor Init(table: array<Entry>)
      requires table.Length > 0
      ensures this.table == table && fresh(this) && |table[..]| > 0
      ensures forall i | 0 <= i < table.Length ::
        table[i] == old(table[i]).(dst := ROUTE_UNKNOWN, fixed := false, rank := 0)
      modifies table
    {
      this.table := table;
      new;
      var i := 0;
      while i < table.Length
        invariant i <= table.Length
        invariant forall j | 0 <= j < i :: table[j] == old(table[j]).(dst := ROUTE_UNKNOWN, fixed := false, rank := 0)
        invariant forall j | i <= j < table.Length :: table[j] == old(table[j])
      {
        table[i] := table[i].(dst := ROUTE_UNKNOWN, fixed := false, rank := 0);
        i := i + 1;
      }
    }

    /** `NWK_RouteFindEntry`; the length of the table stands for the null pointer. */
    method FindEntry(dst: nat, multicast: bool) returns (i: nat)
      ensures i == Find(table[..], dst, multicast)
    {
      i := 0;
      while i < table.Length
        invariant i <= table.Length && FindFrom(table[..], dst, multicast, i) == Find(table[..], dst, multicast)
      {
        if table[i].dst == dst && table[i].multicast == multicast { return; }
        i := i + 1;
      }
    }

    /** `NWK_RouteNewEntry`. */
    method NewEntry() returns (entry: nat)
      requires HasRoom(table[..])
      modifies table
      ensures entry == Victim(old(table[..])) && entry < table.Length
      ensures table[..] == old(table[..])[entry := Renewed(old(table[..])[entry])]
    {
      VictimIsLeast(table[..]);
      entry := table.Length;
      var i := 0;
      while i < table.Length
        invariant i <= table.Length && (entry < i || entry == table.Length) && table[..] == old(table[..])
        invariant VictimFrom(table[..], i, entry) == Victim(table[..])
      {
        if !table[i].fixed {
          if table[i].rank == 0 {
            entry := i;
            break;
          }
          if entry == table.Length || table[i].rank < table[entry].rank { entry := i; }
        }
        i := i + 1;
      }
      table[entry] := table[entry].(multicast := false);
      table[entry] := table[entry].(score := DEFAULT_SCORE);
      table[entry] := table[entry].(rank := DEFAULT_RANK);
    }

    method FreeEntry(entry: nat)
      requires entry < table.Length
      modifies table
      ensures table[..] == Freed(old(table[..]), entry)
    {
      if table[entry].fixed { return; }
      table[entry] := table[entry].(dst := ROUTE_UNKNOWN);
      table[entry] := table[entry].(rank := 0);
    }

    method NextHop(dst: nat, multicast: bool) returns (hop: nat)
      ensures hop == RouteModel.NextHop(table[..], dst, multicast)
    {
      var entry := FindEntry(dst, multicast);
      if entry < table.Length { return table[entry].nextHop; }
      return ROUTE_UNKNOWN;
    }

    method UpdateEntry(dst: nat, multicast: bool, nextHop: nat, lqi: nat)
      requires HasRoom(table[..])
      modifies table
      ensures table[..] == Update(old(table[..]), dst, multicast, nextHop, lqi)
    {
      var entry := FindEntry(dst, multicast);
      if entry == table.Length { entry := NewEntry(); }
      table[entry] := table[entry].(dst := dst);
      table[entry] := table[entry].(nextHop := nextHop);
      table[entry] := table[entry].(multicast := multicast);
      table[entry] := table[entry].(score := DEFAULT_SCORE);
      table[entry] := table[entry].(rank := DEFAULT_RANK);
      table[entry] := table[entry].(lqi := lqi);
    }

    method RemoveEntry(dst: nat, multicast: bool)
      modifies table
      ensures table[..] == Remove(old(table[..]), dst, multicast)
    {
      var entry := FindEntry(dst, multicast);
      if entry < table.Length { FreeEntry(entry); }
    }

    /** `nwkRouteFrameReceived`. */
    method FrameReceived(addr: nat, f: RxFrame)
      requires HasRoom(table[..])
      modifies table
      ensures table[..] == Received(old(table[..]), addr, f)
    {
      if f.macSrc / NON_ROUTING % 2 == 1 && f.macSrc != f.nwkSrc { return; }
      if f.macDstPan == BROADCAST_PANID { return; }
      var entry := FindEntry(f.nwkSrc, false);
      if entry < table.Length {
        var e := table[entry];
        var discovery := f.macDst == BROADCAST_ADDR && addr == f.nwkDst;
        if (e.nextHop != f.macSrc && f.lqi > e.lqi) || discovery {
          table[entry] := table[entry].(nextHop := f.macSrc);
          table[entry] := table[entry].(score := DEFAULT_SCORE);
        }
      } else {
        entry := NewEntry();
        table[entry] := table[entry].(dst := f.nwkSrc);
        table[entry] := table[entry].(nextHop := f.macSrc);
      }
      table[entry] := table[entry].(lqi := f.lqi);
    }

    /** `nwkRouteFrameSent`. */
    method FrameSent(dst: nat, multicast: bool, success: bool)
      modifies table
      ensures table[..] == Sent(old(table[..]), dst, multicast, success)
    {
      if dst == BROADCAST_ADDR { return; }
      var entry := FindEntry(dst, multicast);
      if entry == table.Length || table[entry].fixed { return; }
      if success {
        table[entry] := table[entry].(score := DEFAULT_SCORE);
        table[entry] := table[entry].(rank := (table[entry].rank + 1) % 256);
        if table[entry].rank == MAX_RANK { NormalizeRanks(); }
      } else {
        table[entry] := table[entry].(score := (table[entry].score + 15) % 16);
        if table[entry].score == 0 { FreeEntry(entry); }
      }
    }

    method NormalizeRanks()
      modifies table
      ensures table[..] == Normalized(old(table[..]))
    {
      var i := 0;
      while i < table.Length
        invariant i <= table.Length
        invariant forall j | 0 <= j < i :: table[j] == Normalized(old(table[..]))[j]
        invariant forall j | i <= j < table.Length :: table[j] == old(table[..])[j]
      {
        table[i] := table[i].(rank := table[i].rank / 2 + 1);
        i := i + 1;
      }
    }
  }
}
