/** Checksum and framing together: what the other end of the serial line gets to see. */
module BridgeModel {
  import opened SlipModel
  import opened CrcModel

  /** The payloads `onData` passes on, out of the frames the receiver delivered. */
  function Commands(log: seq<seq<byte>>): seq<seq<byte>> {
    if log == [] then []
    else
      var f := log[0];
      (if |f| >= 2 && Checks(f) then [f[..|f| - 2]] else []) + Commands(log[1..])
  }

  /** What `sendComBuffer` writes for these payloads. */
  function Wire(ps: seq<seq<byte>>): seq<byte> { if ps == [] then [] else Frame(WithCrc(ps[0])) + Wire(ps[1..]) }

  predicate Short(p: seq<byte>) { |Escaped(WithCrc(p))| <= MAX_SIZE - 2 }

  function ShortOnes(ps: seq<seq<byte>>): seq<seq<byte>> {
    if ps == [] then [] else (if Short(ps[0]) then [ps[0]] else []) + ShortOnes(ps[1..])
  }

  lemma {:induction false} CommandsAppend(a: seq<seq<byte>>, b: seq<seq<byte>>)
    ensures Commands(a + b) == Commands(a) + Commands(b)
    decreases |a|
  {
    hide Checks;
    if a == [] {
      assert a + b == b;
    } else {
      assert (a + b)[1..] == a[1..] + b;
      CommandsAppend(a[1..], b);
    }
  }

  lemma CommandsOne(p: seq<byte>)
    ensures Commands([WithCrc(p)]) == [p]
  {
    hide Crc, Checks;
    AppendChecks(p);
    assert [WithCrc(p)][1..] == [];
  }

  lemma OneDelivered(rx: Rx, p: seq<byte>)
    requires Ready(rx)
    ensures var r := FeedAll(rx, Frame(WithCrc(p)));
      Ready(r) && Commands(r.log) == Commands(rx.log) + (if Short(p) then [p] else [])
  {
    hide Crc, Commands, Escaped, Frame, FeedAll, Ready;
    var f := WithCrc(p);
    EscapedIs(f);
    FrameDelivered(rx, f);
    CommandsOne(p);
    CommandsAppend(rx.log, [f]);
    assert rx.log + [] == rx.log;
  }

  /** Every payload whose checked and escaped form fits the receiver reaches the other end unchanged and in
      order; the others are dropped without harm. */
  lemma {:induction false} BridgeDelivery(rx: Rx, ps: seq<seq<byte>>)
    requires Ready(rx)
    ensures var r := FeedAll(rx, Wire(ps)); Ready(r) && Commands(r.log) == Commands(rx.log) + ShortOnes(ps)
    decreases |ps|
  {
    hide WithCrc, Commands, Frame, Short, Ready;
    if ps != [] {
      var f := Frame(WithCrc(ps[0]));
      ReadyValid(rx);
      FeedAppend(rx, f, Wire(ps[1..]));
      OneDelivered(rx, ps[0]);
      BridgeDelivery(FeedAll(rx, f), ps[1..]);
    }
  }

  /** From any other state the receiver may misread what it had begun; only the first payload is lost. */
  lemma BridgeResynchronised(rx: Rx, ps: seq<seq<byte>>)
    requires Valid(rx) && !Ready(rx) && ps != []
    ensures Ready(FeedAll(rx, Wire(ps)))
    ensures var got := Commands(FeedAll(rx, Wire(ps)).log);
      exists junk :: |junk| <= 1 && got == Commands(rx.log) + Commands(junk) + ShortOnes(ps[1..])
  {
    hide WithCrc, Frame, Short, FeedAll, Commands, ShortOnes;
    var f := WithCrc(ps[0]);
    FeedAppend(rx, Frame(f), Wire(ps[1..]));
    FrameLost(rx, f);
    var mid := FeedAll(rx, Frame(f));
    BridgeDelivery(mid, ps[1..]);
    var junk := mid.log[|rx.log|..];
    assert mid.log == rx.log + junk;
    CommandsAppend(rx.log, junk);
  }

  // ---- bad frames ----

  /** A delivered frame is passed on as payload `m` exactly if it is what is sent for `m`; any other is kept from the
      command parser. */
  lemma CommandIff(f: seq<byte>, m: seq<byte>)
    ensures Commands([f]) == [m] <==> f == WithCrc(m)
    ensures Commands([f]) == [] <==> forall p :: f != WithCrc(p)
  {
    hide Crc, Checks;
    assert [f][1..] == [];
    if |f| >= 2 {
      ChecksIff(f);
      CommandsOne(f[..|f| - 2]);
    }
    if p :| f == WithCrc(p) { CommandsOne(p); }
  }

  /** A frame damaged in two adjacent bytes is kept from the command parser, but for the one case that the checksum
      does not see. */
  lemma DamageDropped(m: seq<byte>, g: seq<byte>, k: nat)
    requires SameBut(WithCrc(m), g, k)
    ensures Commands([g]) == if Unseen(WithCrc(m), g, k) then [g[..|m|]] else []
  {
    hide Crc, Checks;
    AppendChecks(m);
    FrameChangeDetected(WithCrc(m), g, k);
    assert [g][1..] == [];
  }

  /** A frame of any content. */
  lemma AnyFrame(rx: Rx, g: seq<byte>)
    requires Ready(rx)
    ensures var r := FeedAll(rx, Frame(g));
      Ready(r) && Commands(r.log) == Commands(rx.log) + (if Fits(g) then Commands([g]) else [])
  {
    hide Commands, Frame, FeedAll, Ready, Fits;
    FrameDelivered(rx, g);
    CommandsAppend(rx.log, [g]);
    assert rx.log + [] == rx.log;
  }

  /** One damaged frame among others costs its own payload and nothing else. */
  lemma OneDamaged(rx: Rx, before: seq<seq<byte>>, m: seq<byte>, g: seq<byte>, k: nat, after: seq<seq<byte>>)
    requires Ready(rx) && SameBut(WithCrc(m), g, k) && !Unseen(WithCrc(m), g, k)
    ensures var r := FeedAll(rx, Wire(before) + Frame(g) + Wire(after));
      Ready(r) && Commands(r.log) == Commands(rx.log) + ShortOnes(before) + ShortOnes(after)
  {
    hide WithCrc, Commands, Frame, FeedAll, Ready, ShortOnes, Wire, Unseen, SameBut;
    ReadyValid(rx);
    FeedAppend(rx, Wire(before) + Frame(g), Wire(after));
    FeedAppend(rx, Wire(before), Frame(g));
    BridgeDelivery(rx, before);
    var mid := FeedAll(rx, Wire(before));
    AnyFrame(mid, g);
    DamageDropped(m, g, k);
    BridgeDelivery(FeedAll(mid, Frame(g)), after);
    assert Commands(mid.log) + [] == Commands(mid.log);
  }

  lemma {:induction false} WireAppend(ps: seq<seq<byte>>, p: seq<byte>)
    ensures Wire(ps + [p]) == Wire(ps) + Frame(WithCrc(p))
    decreases |ps|
  {
    hide WithCrc, Frame;
    if ps == [] {
      assert [p][1..] == [] && ps + [p] == [p];
    } else {
      assert (ps + [p])[1..] == ps[1..] + [p];
      WireAppend(ps[1..], p);
    }
  }
}
