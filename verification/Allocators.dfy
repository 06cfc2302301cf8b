/** The two bump allocators behind a `JsonBuffer`. Memory is an offset into a block; `word` is the size of a
    pointer where alignment is enabled and 1 elsewhere. The fit test uses the size as it was asked for. */
module Allocators {
  import opened Wrappers

  /** `length` bytes were asked for, from offset `start` on. */
  datatype Region = Region(start: nat, length: nat)

  function RoundSizeUp(bytes: nat, word: nat): (r: nat)
    requires word > 0
  {
    (bytes + word - 1) / word * word
  }

  lemma RoundingIs(bytes: nat, word: nat)
    requires word > 0
    ensures bytes <= RoundSizeUp(bytes, word) < bytes + word && RoundSizeUp(bytes, word) % word == 0
  {
    var q := (bytes + word - 1) / word;
    assert bytes + word - 1 == q * word + (bytes + word - 1) % word;
    Multiple(q, word);
  }

  lemma Multiple(q: nat, word: nat)
    requires word > 0
    ensures q * word % word == 0
  {
    MultipleFrom(0, q, word);
  }

  lemma {:induction false} MultipleFrom(x: nat, q: nat, word: nat)
    requires word > 0
    ensures (x + q * word) % word == x % word
    decreases q
  {
    if q > 0 {
      MultipleFrom(x, q - 1, word);
      var y := x + (q - 1) * word;
      assert y + word == x + q * word;
      OneMore(y, word);
    }
  }

  lemma OneMore(y: nat, word: nat)
    requires word > 0
    ensures (y + word) % word == y % word
  {
    var q, r := y / word, y % word;
    assert y + word == (q + 1) * word + r;
    Unique(y + word, q + 1, r, word);
  }

  lemma Unique(x: nat, q: nat, r: nat, word: nat)
    requires x == q * word + r && r < word
    ensures x % word == r
  {
    var p := x / word;
    assert x == p * word + x % word;
    if p < q { Longer(p + 1, q, word); } else if p > q { Longer(q + 1, p, word); }
  }

  lemma Longer(p: nat, q: nat, word: nat)
    requires p <= q
    ensures p * word <= q * word
  {
  }

  lemma AlignedSum(a: nat, b: nat, word: nat)
    requires word > 0 && a % word == 0 && b % word == 0
    ensures (a + b) % word == 0
  {
    var q := b / word;
    assert b == q * word;
    MultipleFrom(a, q, word);
  }

  /** Offset `size` is the next one to be handed out; it may lie past the end, by less than a word. */
  ghost predicate Packed(regions: seq<Region>, size: nat, capacity: nat, word: nat) {
    word > 0 && size % word == 0 && size < capacity + word &&
    (forall i | 0 <= i < |regions| :: InBlock(regions[i], capacity, word)) &&
    (forall i | 0 <= i < |regions| :: regions[i].start + regions[i].length <= size) &&
    (forall i, j | 0 <= i < j < |regions| :: Before(regions[i], regions[j]))
  }

  /** Inside the block and at an aligned offset. */
  predicate InBlock(r: Region, capacity: nat, word: nat)
    requires word > 0
  {
    r.start + r.length <= capacity && r.start % word == 0
  }

  /** Earlier regions end before later ones begin. */
  predicate Before(r: Region, s: Region) { r.start + r.length <= s.start }

  predicate Covers(r: Region, a: int) { r.start <= a < r.start + r.length }

  ghost predicate Disjoint(r: Region, s: Region) { forall a :: !(Covers(r, a) && Covers(s, a)) }

  /** One more region, if the unrounded size fits. */
  lemma PackedNext(regions: seq<Region>, size: nat, capacity: nat, word: nat, bytes: nat)
    requires Packed(regions, size, capacity, word) && size + bytes <= capacity
    ensures Packed(regions + [Region(size, bytes)], size + RoundSizeUp(bytes, word), capacity, word)
  {
    RoundingIs(bytes, word);
    AlignedSum(size, RoundSizeUp(bytes, word), word);
    hide RoundSizeUp;
  }

  lemma EmptyPacked(capacity: nat, word: nat)
    requires word > 0
    ensures Packed([], 0, capacity, word)
  {
  }

  /** What the invariant says about any two regions. */
  lemma PackedDisjoint(regions: seq<Region>, size: nat, capacity: nat, word: nat, i: nat, j: nat)
    requires Packed(regions, size, capacity, word) && i < |regions| && j < |regions| && i != j
    ensures Disjoint(regions[i], regions[j])
  {
    if i < j { assert Before(regions[i], regions[j]); } else { assert Before(regions[j], regions[i]); }
  }

  class StaticJsonBuffer {
    const capacity: nat
    const word: nat
    var size: nat
    ghost var regions: seq<Region>

    ghost predicate Valid()
      reads this
    {
      Packed(regions, size, capacity, word)
    }

    constructor (capacity: nat, word: nat)
      requires word > 0
      ensures Valid() && this.capacity == capacity && this.word == word && size == 0 && regions == []
    {
      this.capacity, this.word := capacity, word;
      size, regions := 0, [];
    }

    /** The fit test uses the size as asked for, the next offset the rounded one. */
    method Alloc(bytes: nat) returns (p: Option<nat>)
      requires Valid()
      modifies this
      ensures Valid() && p == (if old(size) + bytes > capacity then None else Some(old(size)))
      ensures regions == old(regions) + if p.Some? then [Region(p.value, bytes)] else []
      ensures size == old(size) + if p.Some? then RoundSizeUp(bytes, word) else 0
    {
      hide Packed, RoundSizeUp;
      if size + bytes > capacity { return None; }
      PackedNext(regions, size, capacity, word, bytes);
      WordPositive();
      p := Some(size);
      size := size + RoundSizeUp(bytes, word);
      regions := regions + [Region(p.value, bytes)];
    }

    lemma WordPositive()
      requires Valid()
      ensures word > 0
    {
    }
  }

  class Block {
    const next: Block?
    const capacity: nat
    var size: nat
    ghost var regions: seq<Region>

    constructor (capacity: nat, next: Block?)
      ensures this.capacity == capacity && this.next == next && size == 0 && regions == []
    {
      this.capacity, this.next := capacity, next;
      size, regions := 0, [];
    }
  }

  ghost function At(blocks: seq<Block>, i: nat): Block? { if i < |blocks| then blocks[i] else null }

  /** Each block points to the one behind it, the last to none. */
  ghost predicate Linked(blocks: seq<Block>) {
    forall i | 0 <= i < |blocks| :: blocks[i].next == At(blocks, i + 1)
  }

  ghost predicate Distinct(blocks: seq<Block>) { forall i, j | 0 <= i < j < |blocks| :: blocks[i] != blocks[j] }

  lemma LinkFirst(block: Block, blocks: seq<Block>)
    requires Linked(blocks) && Distinct(blocks) && block.next == At(blocks, 0) && block !in blocks
    ensures Linked([block] + blocks) && Distinct([block] + blocks)
  {
    var all := [block] + blocks;
    forall i | 0 <= i < |all| ensures all[i].next == At(all, i + 1) {
      if i > 0 { assert all[i] == blocks[i - 1] && blocks[i - 1].next == At(blocks, i); }
    }
  }

  class BlockJsonBuffer {
    const word: nat
    var head: Block?
    var nextBlockSize: nat
    ghost var blocks: seq<Block>   // the chain from the head on

    ghost predicate Chained()
      reads this`head, this`blocks
    {
      head == At(blocks, 0) && Linked(blocks) && Distinct(blocks)
    }

    ghost predicate Valid()
      reads this`head, this`blocks, blocks
    {
      word > 0 && Chained() && forall b | b in blocks :: Packed(b.regions, b.size, b.capacity, word)
    }

    constructor (initialSize: nat, word: nat)
      requires word > 0
      ensures Valid() && blocks == [] && nextBlockSize == initialSize
    {
      this.word := word;
      head, nextBlockSize, blocks := null, initialSize, [];
    }

    method AllocInHead(bytes: nat) returns (p: nat)
      requires Valid() && blocks != [] && blocks[0].size + bytes <= blocks[0].capacity
      modifies blocks[0]
      ensures Valid() && p == old(blocks[0].size) && blocks[0].regions == old(blocks[0].regions) + [Region(p, bytes)]
      ensures blocks[0].size == p + RoundSizeUp(bytes, word)
      ensures unchanged(set b | b in blocks && b != blocks[0])
    {
      hide Packed, RoundSizeUp;
      PackedNext(head.regions, head.size, head.capacity, word, bytes);
      p := head.size;
      head.size := head.size + RoundSizeUp(bytes, word);
      head.regions := head.regions + [Region(p, bytes)];
    }

    /** `granted` says whether the system has memory for another block. */
    method AddNewBlock(capacity: nat, granted: bool) returns (ok: bool)
      requires Valid()
      modifies this`head, this`blocks
      ensures Valid() && ok == granted && unchanged(old(blocks)) && (!ok ==> blocks == old(blocks) && head == old(head))
      ensures ok ==> |blocks| > 0 && fresh(blocks[0]) && blocks[1..] == old(blocks)
      ensures ok ==> blocks[0].capacity == capacity && blocks[0].size == 0 && blocks[0].regions == []
    {
      if !granted { return false; }
      hide Packed, Linked, Distinct;
      EmptyPacked(capacity, word);
      var block := new Block(capacity, head);
      LinkFirst(block, blocks);
      head := block;
      blocks := [block] + blocks;
      assert blocks[1..] == old(blocks);
      return true;
    }

    ghost predicate FitsHead(bytes: nat)
      reads this`blocks, blocks
    {
      blocks != [] && blocks[0].size + bytes <= blocks[0].capacity
    }

    method CanAllocInHead(bytes: nat) returns (r: bool)
      requires Valid()
      ensures r == FitsHead(bytes)
    {
      r := head != null && head.size + bytes <= head.capacity;
    }

    /** `alloc`: the result is a block and an offset. */
    method Alloc(bytes: nat, granted: bool) returns (block: Block?, p: nat)
      requires Valid()
      modifies this`head, this`blocks, this`nextBlockSize, blocks
      ensures Valid()
      ensures block == null <==> !old(FitsHead(bytes)) && !granted
      ensures block == null ==> blocks == old(blocks) && unchanged(old(blocks))
      ensures block != null ==> blocks != [] && block == blocks[0] && block.size == p + RoundSizeUp(bytes, word)
      ensures old(FitsHead(bytes)) ==> blocks == old(blocks) && p == old(blocks[0].size)
      ensures block != null && !old(FitsHead(bytes)) ==>
        |blocks| == |old(blocks)| + 1 && p == 0 &&
        block.capacity == (if bytes > old(nextBlockSize) then bytes else old(nextBlockSize))
      ensures nextBlockSize == old(nextBlockSize) * (if block != null && !old(FitsHead(bytes)) then 2 else 1)
      ensures block != null && blocks == old(blocks) ==> block.regions == old(blocks[0].regions) + [Region(p, bytes)]
      ensures block != null && blocks == old(blocks) ==> unchanged(set b | b in blocks && b != block)
      ensures block != null && blocks != old(blocks) ==> fresh(block) && blocks[1..] == old(blocks)
      ensures block != null && blocks != old(blocks) ==> unchanged(old(blocks))
      ensures block != null && blocks != old(blocks) ==> block.regions == [Region(p, bytes)]
    {
      hide Packed;
      var fits := CanAllocInHead(bytes);
      if fits {
        p := AllocInHead(bytes);
        return head, p;
      }
      var capacity := nextBlockSize;
      if bytes > capacity { capacity := bytes; }
      var ok := AddNewBlock(capacity, granted);
      if !ok { return null, 0; }
      nextBlockSize := nextBlockSize * 2;
      p := AllocInHead(bytes);
      return head, p;
    }
  }
}
