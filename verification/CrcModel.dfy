/** The 16-bit checksum of the serial bridge, polynomial 0x1021, on values. */
module CrcModel {
  import opened SlipModel

  function BitStep(crc: bv16): bv16 { if crc & 0x8000 != 0 then (crc << 1) ^ 0x1021 else crc << 1 }

  function Bits(crc: bv16, n: nat): bv16
    decreases n
  { if n == 0 then crc else Bits(BitStep(crc), n - 1) }

  /** A byte in the upper half of the register. */
  function High(b: byte): bv16 { (b as bv16) << 8 }

  function ByteStep(crc: bv16, b: byte): bv16 { Bits(crc ^ High(b), 8) }

  function CrcFrom(crc: bv16, m: seq<byte>): bv16
    decreases |m|
  {
    if m == [] then crc else CrcFrom(ByteStep(crc, m[0]), m[1..])
  }

  function Crc(m: seq<byte>): bv16 { CrcFrom(0, m) }

  function LowByte(crc: bv16): byte { (crc & 0xff) as byte }

  function HighByte(crc: bv16): byte { (crc >> 8) as byte }

  /** What `appendCrc` makes of a payload: the low byte of the checksum first. */
  function WithCrc(m: seq<byte>): seq<byte> { m + [LowByte(Crc(m)), HighByte(Crc(m))] }

  /** What `checkCrc` tests. */
  predicate Checks(f: seq<byte>)
    requires |f| >= 2
  {
    Joined(f[|f| - 2], f[|f| - 1]) == Crc(f[..|f| - 2])
  }

  // ---- one step is linear and loses nothing ----

  lemma ShiftXor(a: bv16, b: bv16)
    ensures (a ^ b) << 1 == (a << 1) ^ (b << 1)
  {
  }

  lemma TopXor(a: bv16, b: bv16)
    ensures (a ^ b) & 0x8000 == (a & 0x8000) ^ (b & 0x8000)
    ensures a & 0x8000 == 0 || a & 0x8000 == 0x8000
  {
  }

  lemma XorTwice(a: bv16, b: bv16, p: bv16)
    ensures (a ^ p) ^ (b ^ p) == a ^ b
    ensures (a ^ b) ^ p == (a ^ p) ^ b
    ensures (a ^ b) ^ p == a ^ (b ^ p)
  {
  }

  /** Exclusive or, named so that proofs about whole messages need not look inside. */
  function Xor(a: bv16, b: bv16): bv16 { a ^ b }

  lemma BitLinear(a: bv16, b: bv16)
    ensures BitStep(Xor(a, b)) == Xor(BitStep(a), BitStep(b))
  {
    ShiftXor(a, b);
    TopXor(a, b);
    TopXor(b, a);
    XorTwice(a << 1, b << 1, 0x1021);
  }

  lemma BitKernel(a: bv16)
    ensures BitStep(a) == 0 <==> a == 0
  {
  }

  lemma {:induction false} BitsLinear(a: bv16, b: bv16, n: nat)
    ensures Bits(Xor(a, b), n) == Xor(Bits(a, n), Bits(b, n))
    decreases n
  {
    hide BitStep, Xor;
    if n > 0 {
      BitLinear(a, b);
      BitsLinear(BitStep(a), BitStep(b), n - 1);
    }
  }

  lemma {:induction false} BitsKernel(a: bv16, n: nat)
    ensures Bits(a, n) == 0 <==> a == 0
    decreases n
  {
    hide BitStep;
    if n > 0 {
      BitKernel(a);
      BitsKernel(BitStep(a), n - 1);
    }
  }

  lemma Bits8(a: bv16)
    ensures Bits(a, 8) == BitStep(BitStep(BitStep(BitStep(BitStep(BitStep(BitStep(BitStep(a))))))))
  {
    hide BitStep;
  }

  lemma TableLow(d: byte, e: byte)
    ensures Bits(High(d), 8) == High(e) <==> d == 0 && e == 0
  {
    Bits8(High(d));
  }

  lemma TableHigh(d: byte, e: byte)
    ensures Bits(High(d), 8) == e as bv16 <==> (d == 0 && e == 0) || (d == 0x89 && e == 0xA1)
  {
    Bits8(High(d));
  }

  // ---- what a change does to the checksum ----

  lemma XorNull(a: bv16, b: bv16)
    ensures Xor(a, b) == 0 <==> a == b
  {
    hide Xor;
    XorSelf(a);
    if Xor(a, b) == 0 { XorOther(a, b); }
  }

  lemma XorSelf(a: bv16)
    ensures Xor(a, a) == 0
  {
  }

  lemma XorOther(a: bv16, b: bv16)
    requires Xor(a, b) == 0
    ensures a == b
  {
  }

  /** The same for bytes. */
  function Diff(a: byte, b: byte): byte { a ^ b }

  lemma HighXor(a: byte, b: byte)
    ensures High(Diff(a, b)) == Xor(High(a), High(b))
  {
  }

  lemma StepDifference(c: bv16, d: bv16, a: byte, b: byte)
    ensures Xor(ByteStep(c, a), ByteStep(d, b)) == Bits(Xor(Xor(c, d), High(Diff(a, b))), 8)
  {
    hide Bits, High, Xor, Diff;
    HighXor(a, b);
    BitsLinear(c ^ High(a), d ^ High(b), 8);
    XorSwap(c, d, High(a), High(b));
  }

  lemma XorSwap(c: bv16, d: bv16, a: bv16, b: bv16)
    ensures Xor(c ^ a, d ^ b) == Xor(Xor(c, d), Xor(a, b))
  {
  }

  /** Whatever follows, a difference in the register stays a difference. */
  lemma {:induction false} CrcKernel(c: bv16, d: bv16, m: seq<byte>)
    ensures CrcFrom(c, m) == CrcFrom(d, m) <==> c == d
    decreases |m|
  {
    hide ByteStep;
    if m != [] {
      ByteKernel(c, d, m[0]);
      CrcKernel(ByteStep(c, m[0]), ByteStep(d, m[0]), m[1..]);
    }
  }

  lemma ByteKernel(c: bv16, d: bv16, b: byte)
    ensures ByteStep(c, b) == ByteStep(d, b) <==> c == d
  {
    hide Bits, High, Xor, ByteStep, Diff;
    StepDifference(c, d, b, b);
    SelfXor(b);
    XorZero(Xor(c, d));
    BitsKernel(Xor(c, d), 8);
    XorNull(c, d);
    XorNull(ByteStep(c, b), ByteStep(d, b));
  }

  lemma SelfXor(b: byte)
    ensures High(Diff(b, b)) == 0
  {
  }

  lemma XorZero(a: bv16)
    ensures Xor(a, 0) == a && Xor(0, a) == a
  {
  }

  lemma {:induction false} CrcAppend(c: bv16, a: seq<byte>, b: seq<byte>)
    ensures CrcFrom(c, a + b) == CrcFrom(CrcFrom(c, a), b)
    decreases |a|
  {
    hide ByteStep;
    if a == [] {
      assert a + b == b;
    } else {
      assert (a + b)[1..] == a[1..] + b;
      CrcAppend(ByteStep(c, a[0]), a[1..], b);
    }
  }

  lemma CrcTwo(c: bv16, a: byte, b: byte)
    ensures CrcFrom(c, [a, b]) == ByteStep(ByteStep(c, a), b)
  {
    hide ByteStep;
    assert [a, b][1..] == [b] && [b][1..] == [];
    assert CrcFrom(c, [a, b]) == CrcFrom(ByteStep(c, a), [b]);
  }

  /** Two different pairs of bytes never lead to the same register. */
  lemma PairDiffers(c: bv16, a: byte, b: byte, a': byte, b': byte)
    ensures ByteStep(ByteStep(c, a), b) == ByteStep(ByteStep(c, a'), b') <==> a == a' && b == b'
  {
    hide Bits, High, Xor, ByteStep, Diff;
    var x, y := ByteStep(c, a), ByteStep(c, a');
    StepDifference(c, c, a, a');
    XorNull(c, c);
    XorZero(High(Diff(a, a')));
    StepDifference(x, y, b, b');
    BitsKernel(Xor(Xor(x, y), High(Diff(b, b'))), 8);
    XorNull(Xor(x, y), High(Diff(b, b')));
    XorNull(ByteStep(x, b), ByteStep(y, b'));
    TableLow(Diff(a, a'), Diff(b, b'));
    DiffNull(a, a');
    DiffNull(b, b');
  }

  lemma DiffNull(a: byte, b: byte)
    ensures Diff(a, b) == 0 <==> a == b
  {
  }

  /** The checksum detects every change confined to two adjacent bytes, in a payload of any length. */
  lemma PairDetected(before: seq<byte>, a: byte, b: byte, a': byte, b': byte, after: seq<byte>)
    ensures Crc(before + [a, b] + after) == Crc(before + [a', b'] + after) <==> a == a' && b == b'
  {
    hide CrcFrom, ByteStep;
    var c := CrcFrom(0, before);
    CrcAppend(0, before + [a, b], after);
    CrcAppend(0, before + [a', b'], after);
    CrcAppend(0, before, [a, b]);
    CrcAppend(0, before, [a', b']);
    CrcTwo(c, a, b);
    CrcTwo(c, a', b');
    CrcKernel(CrcFrom(0, before + [a, b]), CrcFrom(0, before + [a', b']), after);
    PairDiffers(c, a, b, a', b');
  }

  // ---- which checksum it is ----

  /** Leading zero bytes go unseen, because the register starts at zero. */
  lemma LeadingZero(m: seq<byte>)
    ensures Crc([0] + m) == Crc(m)
  {
    hide ByteStep;
    assert ([0] + m)[1..] == m;
    BitsKernel(0, 8);
    ZeroByte();
  }

  lemma ZeroByte()
    ensures ByteStep(0, 0) == Bits(0, 8)
  {
    hide Bits;
  }

  /** One byte of value 1 leaves the polynomial in the register. */
  lemma UnitByte()
    ensures Crc([1]) == 0x1021
  {
    assert [1][1..] == [];
    Bits8(High(1));
  }

  /** Bytewise exclusive or. */
  function XorAll(a: seq<byte>, b: seq<byte>): (r: seq<byte>)
    requires |a| == |b|
    ensures |r| == |a| && forall i | 0 <= i < |a| :: r[i] == Diff(a[i], b[i])
  {
    seq(|a|, i requires 0 <= i < |a| => Diff(a[i], b[i]))
  }

  /** The checksum is linear over messages of one length. */
  lemma {:induction false} CrcLinear(c: bv16, d: bv16, a: seq<byte>, b: seq<byte>)
    requires |a| == |b|
    ensures CrcFrom(Xor(c, d), XorAll(a, b)) == Xor(CrcFrom(c, a), CrcFrom(d, b))
    decreases |a|
  {
    hide ByteStep, Xor, Diff;
    if a != [] {
      StepLinear(c, d, a[0], b[0]);
      assert XorAll(a, b)[1..] == XorAll(a[1..], b[1..]);
      CrcLinear(ByteStep(c, a[0]), ByteStep(d, b[0]), a[1..], b[1..]);
    }
  }

  lemma StepLinear(c: bv16, d: bv16, a: byte, b: byte)
    ensures ByteStep(Xor(c, d), Diff(a, b)) == Xor(ByteStep(c, a), ByteStep(d, b))
  {
    hide Bits, High, Xor, Diff, ByteStep;
    StepDifference(c, d, a, b);
    StepIs(Xor(c, d), Diff(a, b));
  }

  lemma StepIs(c: bv16, b: byte)
    ensures ByteStep(c, b) == Bits(Xor(c, High(b)), 8)
  {
    hide Bits;
  }

  // ---- frames ----

  function Joined(lo: byte, hi: byte): bv16 { High(hi) | (lo as bv16) }

  lemma SplitJoined(crc: bv16)
    ensures Joined(LowByte(crc), HighByte(crc)) == crc
  {
  }

  lemma JoinedLow(lo: byte, hi: byte)
    ensures LowByte(Joined(lo, hi)) == lo
  {
  }

  lemma JoinedHigh(lo: byte, hi: byte)
    ensures HighByte(Joined(lo, hi)) == hi
  {
  }

  lemma JoinBytes(crc: bv16, lo: byte, hi: byte)
    ensures Joined(lo, hi) == crc <==> lo == LowByte(crc) && hi == HighByte(crc)
  {
    hide Joined, LowByte, HighByte;
    SplitJoined(crc);
    JoinedLow(lo, hi);
    JoinedHigh(lo, hi);
  }

  /** `checkCrc` accepts exactly what `appendCrc` makes. */
  lemma ChecksIff(f: seq<byte>)
    requires |f| >= 2
    ensures Checks(f) <==> f == WithCrc(f[..|f| - 2])
  {
    hide Crc, Joined, LowByte, HighByte;
    var m := f[..|f| - 2];
    JoinBytes(Crc(m), f[|f| - 2], f[|f| - 1]);
    assert f == m + [f[|f| - 2], f[|f| - 1]];
  }

  lemma AppendChecks(m: seq<byte>)
    ensures Checks(WithCrc(m)) && WithCrc(m)[..|m|] == m
  {
    assert WithCrc(m)[..|m|] == m;
    ChecksIff(WithCrc(m));
  }

  /** In a whole frame one change of two adjacent bytes goes unseen, and only one: it falls on the last byte
      of the payload and the byte behind it, the low half of the checksum. */
  predicate Unseen(f: seq<byte>, g: seq<byte>, k: nat)
    requires k + 1 < |f| == |g|
  {
    k + 3 == |f| && Diff(f[k], g[k]) == 0x89 && Diff(f[k + 1], g[k + 1]) == 0xA1
  }

  lemma LastByte(c: bv16, a: byte, a': byte, lo: byte, lo': byte)
    requires LowByte(ByteStep(c, a)) == lo
    ensures (LowByte(ByteStep(c, a')) == lo' && HighByte(ByteStep(c, a')) == HighByte(ByteStep(c, a))) <==>
      (a == a' && lo == lo') || (Diff(a, a') == 0x89 && Diff(lo, lo') == 0xA1)
  {
    hide Bits, High, Xor, ByteStep, Diff, LowByte, HighByte;
    var x, y := ByteStep(c, a), ByteStep(c, a');
    StepDifference(c, c, a, a');
    XorNull(c, c);
    XorZero(High(Diff(a, a')));
    SameHigh(x, y, Diff(lo, lo'));
    TableHigh(Diff(a, a'), Diff(lo, lo'));
    DiffNull(a, a');
    DiffNull(lo, lo');
    DiffCancel(lo, LowByte(y), lo');
  }

  lemma SameHigh(x: bv16, y: bv16, e: byte)
    ensures Xor(x, y) == e as bv16 <==> HighByte(x) == HighByte(y) && Diff(LowByte(x), LowByte(y)) == e
  {
    hide Xor, Diff, LowByte, HighByte;
    if Xor(x, y) == e as bv16 {
      XorHigh(x, y, e);
      XorLow(x, y, e);
    } else if HighByte(x) == HighByte(y) && Diff(LowByte(x), LowByte(y)) == e {
      LowXor(x, y, e);
    }
  }

  lemma XorHigh(x: bv16, y: bv16, e: byte)
    requires Xor(x, y) == e as bv16
    ensures HighByte(x) == HighByte(y)
  {
  }

  lemma XorLow(x: bv16, y: bv16, e: byte)
    requires Xor(x, y) == e as bv16
    ensures Diff(LowByte(x), LowByte(y)) == e
  {
  }

  lemma LowXor(x: bv16, y: bv16, e: byte)
    requires HighByte(x) == HighByte(y) && Diff(LowByte(x), LowByte(y)) == e
    ensures Xor(x, y) == e as bv16
  {
  }

  lemma DiffCancel(a: byte, b: byte, c: byte)
    ensures Diff(a, b) == Diff(a, c) <==> b == c
  {
  }

  /** `g` is `f` but for the bytes at `k` and `k + 1`. */
  ghost predicate SameBut(f: seq<byte>, g: seq<byte>, k: nat) {
    k + 1 < |f| == |g| && f != g && f[..k] == g[..k] && f[k + 2..] == g[k + 2..]
  }

  /** A change of a frame is a change of one of the two bytes. */
  lemma ByteChanged(f: seq<byte>, g: seq<byte>, k: nat)
    requires SameBut(f, g, k)
    ensures f[k] != g[k] || f[k + 1] != g[k + 1]
  {
    assert f == f[..k] + [f[k], f[k + 1]] + f[k + 2..];
    assert g == g[..k] + [g[k], g[k + 1]] + g[k + 2..];
  }

  lemma PayloadChange(f: seq<byte>, g: seq<byte>, k: nat)
    requires k + 4 <= |f| && Checks(f) && SameBut(f, g, k)
    ensures !Checks(g)
  {
    hide Crc, Joined;
    var n := |f| - 2;
    ByteChanged(f, g, k);
    assert f[n] == f[k + 2..][n - k - 2] == g[n] && f[n + 1] == f[k + 2..][n - k - 1] == g[n + 1];
    var after := f[k + 2..n];
    assert f[..n] == f[..k] + [f[k], f[k + 1]] + after;
    assert g[k + 2..n] == g[k + 2..][..n - k - 2] == after;
    assert g[..n] == f[..k] + [g[k], g[k + 1]] + after;
    PairDetected(f[..k], f[k], f[k + 1], g[k], g[k + 1], after);
  }

  lemma ChecksumChange(f: seq<byte>, g: seq<byte>)
    requires |f| >= 2 && Checks(f) && SameBut(f, g, |f| - 2)
    ensures !Checks(g)
  {
    hide Crc, Checks;
    ChecksIff(f);
    ChecksIff(g);
  }

  lemma CrcLast(m: seq<byte>, a: byte)
    ensures Crc(m + [a]) == ByteStep(CrcFrom(0, m), a)
  {
    hide ByteStep;
    CrcAppend(0, m, [a]);
    assert [a][1..] == [];
  }

  lemma BoundaryChange(f: seq<byte>, g: seq<byte>)
    requires |f| >= 3 && Checks(f) && SameBut(f, g, |f| - 3)
    ensures Checks(g) <==> Unseen(f, g, |f| - 3)
  {
    hide Crc, CrcFrom, ByteStep, Joined, LowByte, HighByte, Diff;
    var n := |f| - 2;
    ByteChanged(f, g, n - 1);
    assert f[..n] == f[..n - 1] + [f[n - 1]] && g[..n] == f[..n - 1] + [g[n - 1]];
    CrcLast(f[..n - 1], f[n - 1]);
    CrcLast(f[..n - 1], g[n - 1]);
    assert g[n + 1] == g[n - 1 + 2..][0] == f[n + 1];
    JoinBytes(Crc(f[..n]), f[n], f[n + 1]);
    JoinBytes(Crc(g[..n]), g[n], g[n + 1]);
    LastByte(CrcFrom(0, f[..n - 1]), f[n - 1], g[n - 1], f[n], g[n]);
  }

  /** A frame with a change confined to two adjacent bytes, anywhere, is accepted only in that one case. */
  lemma FrameChangeDetected(f: seq<byte>, g: seq<byte>, k: nat)
    requires |f| >= 2 && Checks(f) && SameBut(f, g, k)
    ensures Checks(g) <==> Unseen(f, g, k)
  {
    hide Checks;
    if k + 4 <= |f| {
      PayloadChange(f, g, k);
    } else if k + 3 == |f| {
      BoundaryChange(f, g);
    } else {
      ChecksumChange(f, g);
    }
  }

  /** That case exists for every payload: the frame is accepted with another payload. */
  lemma BoundaryUnseen(m: seq<byte>, g: seq<byte>)
    requires m != []
    requires g == WithCrc(m)[|m| - 1 := Diff(m[|m| - 1], 0x89)][|m| := Diff(WithCrc(m)[|m|], 0xA1)]
    ensures Checks(g) && g[..|m|] != m
  {
    hide Crc, Checks;
    var f := WithCrc(m);
    AppendChecks(m);
    assert g[|m| - 1] != m[|m| - 1] && f[|m| + 1..] == g[|m| + 1..] && f[..|m| - 1] == g[..|m| - 1];
    DiffTwice(f[|m| - 1], 0x89);
    DiffTwice(f[|m|], 0xA1);
    FrameChangeDetected(f, g, |m| - 1);
  }

  lemma DiffTwice(a: byte, b: byte)
    ensures Diff(a, Diff(a, b)) == b
  {
  }
}
