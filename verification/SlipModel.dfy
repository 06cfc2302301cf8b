/** The byte-at-a-time receiver and the sender of the serial bridge, on values. */
module SlipModel {
  type byte = bv8

  const END: byte := 0xC0
  const ESC: byte := 0xDB
  const ESC_END: byte := 0xDC
  const ESC_ESC: byte := 0xDD
  const MAX_SIZE: nat := 255

  // ---- sender ----

  function EscapedByte(b: byte): seq<byte> {
    if b == END then [ESC, ESC_END] else if b == ESC then [ESC, ESC_ESC] else [b]
  }

  function Escaped(p: seq<byte>): seq<byte> { if p == [] then [] else EscapedByte(p[0]) + Escaped(p[1..]) }

  /** What `send` writes for one payload. */
  function Frame(p: seq<byte>): seq<byte> { [END] + Escaped(p) + [END] }

  function Frames(ps: seq<seq<byte>>): seq<byte> { if ps == [] then [] else Frame(ps[0]) + Frames(ps[1..]) }

  // ---- receiver ----

  /** `copy` is the static buffer of `parseEscapes`, `log` the payloads passed to the callback. */
  datatype Rx = Rx(buffer: seq<byte>, copy: seq<byte>, index: nat, receiving: bool, log: seq<seq<byte>>)

  function Decode(b: byte): byte { if b == ESC_END then END else if b == ESC_ESC then ESC else b }

  /** The loop of `parseEscapes` from `i` on. An escape in the last byte reads one byte further. */
  function Parse(copy: seq<byte>, i: nat, size: nat): (r: seq<byte>)
    requires size < |copy|
    ensures i < size ==> 1 <= |r| <= size - i
    ensures i >= size ==> r == []
    decreases size - i
  {
    if i >= size then []
    else if copy[i] == ESC then [Decode(copy[i + 1])] + Parse(copy, i + 2, size)
    else [copy[i]] + Parse(copy, i + 1, size)
  }

  lemma ParseTurn(copy: seq<byte>, i: nat, size: nat)
    requires i < size < |copy|
    ensures Parse(copy, i, size)[0] == if copy[i] == ESC then Decode(copy[i + 1]) else copy[i]
    ensures Parse(copy, i, size)[1..] == Parse(copy, if copy[i] == ESC then i + 2 else i + 1, size)
  {
  }

  ghost predicate Valid(rx: Rx) { |rx.buffer| == MAX_SIZE && |rx.copy| == MAX_SIZE && rx.index < MAX_SIZE }

  /** End of a frame: the escapes are undone over one byte more than was received, and one byte less is delivered. */
  function Deliver(rx: Rx): Rx
    requires Valid(rx) && rx.index < MAX_SIZE - 1
  {
    var size := rx.index + 1;
    var copy := rx.buffer[..size] + rx.copy[size..];
    var out := Parse(copy, 0, size);
    Rx(out + rx.buffer[|out|..], copy, |out|, false, rx.log + [out[..|out| - 1]])
  }

  function Feed(rx: Rx, recv: byte): (r: Rx)
    requires Valid(rx)
    ensures Valid(r)
  {
    var s := if !rx.receiving && recv == END then rx.(index := 0, receiving := true) else rx;
    if !s.receiving then s
    else if s.index >= MAX_SIZE - 1 then s.(receiving := false)
    else if recv == END then (if s.index == 0 then s else Deliver(s))
    else s.(buffer := s.buffer[s.index := recv], index := s.index + 1)
  }

  function FeedAll(rx: Rx, bytes: seq<byte>): (r: Rx)
    requires Valid(rx)
    ensures Valid(r)
    decreases |bytes|
  {
    if bytes == [] then rx else FeedAll(Feed(rx, bytes[0]), bytes[1..])
  }

  lemma {:induction false} FeedAppend(rx: Rx, a: seq<byte>, b: seq<byte>)
    requires Valid(rx)
    ensures FeedAll(rx, a + b) == FeedAll(FeedAll(rx, a), b)
    decreases |a|
  {
    if a == [] {
      assert a + b == b;
    } else {
      assert (a + b)[1..] == a[1..] + b;
      FeedAppend(Feed(rx, a[0]), a[1..], b);
    }
  }

  // ---- escaping ----

  predicate NoEnd(d: seq<byte>) { forall i | 0 <= i < |d| :: d[i] != END }

  /** Number of bytes that need escaping. */
  function Specials(p: seq<byte>): nat {
    if p == [] then 0 else (if p[0] == END || p[0] == ESC then 1 else 0) + Specials(p[1..])
  }

  lemma {:induction false} EscapedIs(p: seq<byte>)
    ensures NoEnd(Escaped(p)) && |Escaped(p)| == |p| + Specials(p)
    ensures Escaped(p) == [] <==> p == []
  {
    if p != [] { EscapedIs(p[1..]); }
  }

  lemma EscapedTurn(p: seq<byte>)
    requires p != []
    ensures Escaped(p) != []
    ensures var d := Escaped(p);
      if d[0] == ESC then |d| >= 2 && Decode(d[1]) == p[0] && d[2..] == Escaped(p[1..])
      else d[0] == p[0] && d[1..] == Escaped(p[1..])
  {
  }

  /** The bytes on the line, as RFC 1055 has them. */
  lemma SlipBytes(b: byte)
    ensures EscapedByte(0xC0) == [0xDB, 0xDC] && EscapedByte(0xDB) == [0xDB, 0xDD]
    ensures b != 0xC0 && b != 0xDB ==> EscapedByte(b) == [b]
    ensures Frame([]) == [0xC0, 0xC0]
    ensures Decode(0xDC) == 0xC0 && Decode(0xDD) == 0xDB && (b != 0xDC && b != 0xDD ==> Decode(b) == b)
  {
  }

  /** Undoing the escapes of a whole payload and one stale byte gives the payload and one more byte. */
  lemma {:induction false} ParseEscaped(copy: seq<byte>, i: nat, size: nat, p: seq<byte>)
    requires size < |copy| && i + |Escaped(p)| + 1 == size && copy[i..size - 1] == Escaped(p)
    ensures var r := Parse(copy, i, size); |r| == |p| + 1 && r[..|p|] == p
    decreases |p|
  {
    hide Parse, Escaped, Decode;
    ParseTurn(copy, i, size);
    if p == [] {
      EscapedIs(p);
      ParseEnd(copy, i, size);
    } else {
      EscapedTurn(p);
      var n := if copy[i] == ESC then 2 else 1;
      var d := copy[i..size - 1];
      assert copy[i] == d[0] && (n == 2 ==> copy[i + 1] == d[1]);
      assert copy[i + n..size - 1] == d[n..];
      ParseEscaped(copy, i + n, size, p[1..]);
      var r := Parse(copy, i, size);
      assert r == [p[0]] + r[1..] && p == [p[0]] + p[1..];
    }
  }

  lemma ParseEnd(copy: seq<byte>, i: nat, size: nat)
    requires i + 1 == size < |copy|
    ensures |Parse(copy, i, size)| == 1
  {
  }

  // ---- one frame ----

  /** Between frames: waiting for a frame, or in one that has no byte yet. */
  ghost predicate Ready(rx: Rx) { Valid(rx) && (rx.receiving ==> rx.index == 0) }

  lemma ReadyValid(rx: Rx)
    requires Ready(rx)
    ensures Valid(rx)
  {
  }

  lemma {:induction false} FeedIdle(rx: Rx, d: seq<byte>)
    requires Valid(rx) && !rx.receiving && NoEnd(d)
    ensures FeedAll(rx, d) == rx
    decreases |d|
  {
    if d != [] { FeedIdle(rx, d[1..]); }
  }

  /** Bytes of a frame are stored while they fit. */
  lemma {:induction false} FeedFits(rx: Rx, d: seq<byte>)
    requires Valid(rx) && rx.receiving && NoEnd(d) && rx.index + |d| < MAX_SIZE
    ensures FeedAll(rx, d) == rx.(index := rx.index + |d|,
                                  buffer := rx.buffer[..rx.index] + d + rx.buffer[rx.index + |d|..])
    decreases |d|
  {
    if d != [] {
      FeedFits(Feed(rx, d[0]), d[1..]);
    }
  }

  /** A frame that does not fit puts the receiver back to waiting. */
  lemma FeedTooLong(rx: Rx, d: seq<byte>)
    requires Valid(rx) && rx.receiving && NoEnd(d) && rx.index + |d| >= MAX_SIZE
    ensures var r := FeedAll(rx, d); Valid(r) && !r.receiving && r.log == rx.log
  {
    var n := MAX_SIZE - 1 - rx.index;
    assert d == d[..n] + ([d[n]] + d[n + 1..]);
    FeedAppend(rx, d[..n], [d[n]] + d[n + 1..]);
    FeedFits(rx, d[..n]);
    var full := FeedAll(rx, d[..n]);
    assert FeedAll(full, [d[n]] + d[n + 1..]) == FeedAll(Feed(full, d[n]), d[n + 1..]);
    FeedIdle(Feed(full, d[n]), d[n + 1..]);
  }

  predicate Fits(p: seq<byte>) { 1 <= |Escaped(p)| <= MAX_SIZE - 2 }

  lemma FitsIs(p: seq<byte>)
    ensures Fits(p) <==> p != [] && |p| + Specials(p) <= 253
  {
    EscapedIs(p);
  }

  lemma FeedOne(rx: Rx, b: byte)
    requires Valid(rx)
    ensures FeedAll(rx, [b]) == Feed(rx, b)
  {
    assert [b][1..] == [];
  }

  lemma FeedFrame(rx: Rx, p: seq<byte>)
    requires Valid(rx)
    ensures FeedAll(rx, Frame(p)) == Feed(FeedAll(Feed(rx, END), Escaped(p)), END)
  {
    var mid := Feed(rx, END);
    assert Frame(p) == [END] + (Escaped(p) + [END]);
    FeedAppend(rx, [END], Escaped(p) + [END]);
    FeedOne(rx, END);
    FeedAppend(mid, Escaped(p), [END]);
    FeedOne(FeedAll(mid, Escaped(p)), END);
  }

  lemma EndOfFrame(full: Rx, p: seq<byte>)
    requires Valid(full) && full.receiving && Fits(p) && full.index == |Escaped(p)| &&
      full.buffer[..full.index] == Escaped(p)
    ensures var r := Feed(full, END); Ready(r) && r.log == full.log + [p]
  {
    hide Parse, Escaped;
    var size := full.index + 1;
    var copy := full.buffer[..size] + full.copy[size..];
    assert copy[0..size - 1] == full.buffer[..size - 1];
    ParseEscaped(copy, 0, size, p);
  }

  /** Whatever stale bytes the buffers hold, a frame that fits is delivered and one that does not is dropped. */
  lemma FrameDelivered(rx: Rx, p: seq<byte>)
    requires Ready(rx)
    ensures var r := FeedAll(rx, Frame(p)); Ready(r) && r.log == rx.log + (if Fits(p) then [p] else [])
  {
    hide Escaped, FeedAll, Frame, Deliver, NoEnd;
    FeedFrame(rx, p);
    EscapedIs(p);
    var start := Feed(rx, END);
    var d := Escaped(p);
    if |d| < MAX_SIZE {
      FeedFits(start, d);
      var full := FeedAll(start, d);
      assert full.buffer[..|d|] == d;
      if Fits(p) { EndOfFrame(full, p); }
    } else {
      FeedTooLong(start, d);
    }
  }

  /** In the middle of something else, the first frame is lost and at most one piece of junk delivered. */
  lemma FrameLost(rx: Rx, p: seq<byte>)
    requires Valid(rx) && !Ready(rx)
    ensures var r := FeedAll(rx, Frame(p)); Ready(r) && rx.log <= r.log && |r.log| <= |rx.log| + 1
  {
    FeedFrame(rx, p);
    EscapedIs(p);
    FeedIdle(Feed(rx, END), Escaped(p));
  }

  // ---- runs of frames ----

  function Fitting(ps: seq<seq<byte>>): seq<seq<byte>> {
    if ps == [] then [] else (if Fits(ps[0]) then [ps[0]] else []) + Fitting(ps[1..])
  }

  /** Any concatenation of sent frames is delivered in order, without those that are too long or empty. */
  lemma {:induction false} Delivery(rx: Rx, ps: seq<seq<byte>>)
    requires Ready(rx)
    ensures var r := FeedAll(rx, Frames(ps)); Ready(r) && r.log == rx.log + Fitting(ps)
    decreases |ps|
  {
    hide Frame, Fits, Ready;
    if ps != [] {
      ReadyValid(rx);
      FeedAppend(rx, Frame(ps[0]), Frames(ps[1..]));
      FrameDelivered(rx, ps[0]);
      Delivery(FeedAll(rx, Frame(ps[0])), ps[1..]);
    }
  }

  /** From any other state the first frame is the price of finding the frame boundaries again. */
  lemma Resynchronised(rx: Rx, ps: seq<seq<byte>>)
    requires Valid(rx) && !Ready(rx) && ps != []
    ensures Ready(FeedAll(rx, Frames(ps)))
    ensures exists junk :: |junk| <= 1 && FeedAll(rx, Frames(ps)).log == rx.log + junk + Fitting(ps[1..])
  {
    hide Frame, FeedAll, Fitting;
    FeedAppend(rx, Frame(ps[0]), Frames(ps[1..]));
    FrameLost(rx, ps[0]);
    var mid := FeedAll(rx, Frame(ps[0]));
    Delivery(mid, ps[1..]);
    var junk := mid.log[|rx.log|..];
    assert mid.log == rx.log + junk;
  }
}
