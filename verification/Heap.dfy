/**
 The kernel heap: a first-fit list of chunks whose headers lie in the memory they manage. A header is
 three words, (payload pointer, payload size, next header), directly in front of its payload.
 */
module Heap {
  import opened Words
  import opened Splices
  import opened MemMove

  /** sizeof(struct Chunk) on the 32-bit target, and the offsets of its fields. */
  const HEADER: nat := 12
  const SIZE_FIELD: nat := 4
  const NEXT_FIELD: nat := 8

  // ----- Rounding

  /** align_size, in 32-bit arithmetic. */
  function AlignSize(size: uint32): uint32 {
    var proposed := ToU32(size - size % 4 + 4);
    if proposed <= 8 then 8 else proposed
  }

  /** align_ptr */
  function AlignPtr(ptr: uint32): uint32 {
    if ptr % 4 == 0 then ptr else ToU32(ptr / 4 * 4 + 4)
  }

  /** Rounding gives a multiple of four of at least 8; it covers the request exactly when the request
      is not one of the four largest 32-bit numbers, which round to 8. */
  lemma AlignSizeCovers(size: uint32)
    ensures AlignSize(size) % 4 == 0 && AlignSize(size) >= 8
    ensures AlignSize(size) >= size <==> size < 0xffff_fffc
    ensures size < 0xffff_fffc ==> AlignSize(size) <= size + 8
    ensures size < 0xffff_fffc ==> AlignSize(size) > size && (AlignSize(size) == 8 || AlignSize(size) <= size + 4)
    ensures size >= 0xffff_fffc ==> AlignSize(size) == 8
  {
  }

  /** A pointer goes up to the next multiple of four, or stays; the three largest go round to 0. */
  lemma AlignPtrRounds(ptr: uint32)
    ensures AlignPtr(ptr) % 4 == 0
    ensures ptr <= 0xffff_fffc ==> ptr <= AlignPtr(ptr) < ptr + 4
    ensures ptr > 0xffff_fffc ==> AlignPtr(ptr) == 0
  {
  }

  // ----- The list of live chunks as a value

  datatype Block = Block(addr: nat, size: nat) {
    function Ptr(): nat { addr + HEADER }
    function End(): nat { addr + HEADER + size }
  }

  ghost predicate BlockOk(b: Block, start: nat) {
    start <= b.addr && b.addr % 4 == 0 && b.size % 4 == 0 && b.size >= 8 && b.End() < TWO32
  }

  /** Aligned, in address order, and without overlap, headers included. */
  ghost predicate Layout(blocks: seq<Block>, start: nat) {
    blocks == [] || (BlockOk(blocks[0], start) && Layout(blocks[1..], blocks[0].End()))
  }

  lemma {:induction false} LayoutAt(blocks: seq<Block>, start: nat, i: nat)
    requires Layout(blocks, start) && i < |blocks|
    ensures BlockOk(blocks[i], start)
  {
    if i > 0 { LayoutAt(blocks[1..], blocks[0].End(), i - 1); }
  }

  lemma AlignedEnd(b: Block, start: nat)
    requires BlockOk(b, start)
    ensures b.End() < TWO32 && AlignPtr(b.End()) == b.End()
  {
  }

  /** Two chunks never overlap, headers included. */
  lemma {:induction false} LayoutApart(blocks: seq<Block>, start: nat, i: nat, j: nat)
    requires Layout(blocks, start) && i < j < |blocks|
    ensures blocks[i].End() <= blocks[j].addr
  {
    if i == 0 {
      LayoutAt(blocks[1..], blocks[0].End(), j - 1);
    } else {
      LayoutApart(blocks[1..], blocks[0].End(), i - 1, j - 1);
    }
  }

  function SumSizes(blocks: seq<Block>): nat {
    if blocks == [] then 0 else blocks[0].size + SumSizes(blocks[1..])
  }

  /** The chunks with their headers fit in front of the end of memory. */
  lemma {:induction false} SumFits(blocks: seq<Block>, start: nat)
    requires Layout(blocks, start) && start < TWO32
    ensures start + SumSizes(blocks) + HEADER * |blocks| < TWO32
  {
    if blocks != [] { SumFits(blocks[1..], blocks[0].End()); }
  }

  /** Whether the gap behind the first chunk of a list holds `need` bytes. */
  predicate GapFits(blocks: seq<Block>, need: nat)
    requires |blocks| > 1
  {
    blocks[1].addr - blocks[0].End() >= need
  }

  /** The chunk behind which a new one goes: the first with a large enough gap behind it, or the last. */
  function Pred(blocks: seq<Block>, need: nat): (b: Block)
    requires blocks != []
    ensures b in blocks
  {
    if |blocks| == 1 || GapFits(blocks, need) then blocks[0] else Pred(blocks[1..], need)
  }

  /** The address of the chunk that follows that place, 0 when it is the tail. */
  function Succ(blocks: seq<Block>, need: nat): nat
    requires blocks != []
  {
    if |blocks| == 1 then 0 else if GapFits(blocks, need) then blocks[1].addr else Succ(blocks[1..], need)
  }

  /** Its position in the list. */
  function FirstFit(blocks: seq<Block>, need: nat): (i: nat)
    requires blocks != []
    ensures i < |blocks|
  {
    if |blocks| == 1 || GapFits(blocks, need) then 0 else 1 + FirstFit(blocks[1..], need)
  }

  /** First fit: every gap before the chosen place is too small, and the place is a gap that is large
      enough, or the tail. */
  lemma {:induction false} FirstFitIsLowest(blocks: seq<Block>, need: nat)
    requires blocks != []
    ensures var i := FirstFit(blocks, need);
            && Pred(blocks, need) == blocks[i]
            && Succ(blocks, need) == (if i + 1 < |blocks| then blocks[i + 1].addr else 0)
            && (forall j | 0 <= j < i :: blocks[j + 1].addr - blocks[j].End() < need)
            && (i + 1 < |blocks| ==> blocks[i + 1].addr - blocks[i].End() >= need)
    decreases |blocks|
  {
    if |blocks| > 1 && !GapFits(blocks, need) {
      FirstFitIsLowest(blocks[1..], need);
      forall j | 0 <= j < FirstFit(blocks, need) ensures blocks[j + 1].addr - blocks[j].End() < need {
        if j > 0 { assert blocks[1..][j - 1 + 1] == blocks[j + 1] && blocks[1..][j - 1] == blocks[j]; }
      }
    }
  }

  /** Where the header of a new chunk goes. */
  function NewAddr(blocks: seq<Block>, start: nat, size: nat): nat {
    if blocks == [] then start else Pred(blocks, size + HEADER).End()
  }

  /** The gap that kmalloc looks for: the chunk with its header, in 32-bit arithmetic. */
  function Need(size: uint32): uint32 {
    ToU32(size as int + HEADER)
  }

  /** Where kmalloc puts the header: the place above, as long as the sum does not wrap. */
  function HeaderPlace(blocks: seq<Block>, start: nat, size: uint32): nat {
    if blocks == [] then start else Pred(blocks, Need(size)).End()
  }

  /** The new chunk ends below the top of the address space. */
  predicate Fits(blocks: seq<Block>, start: nat, size: nat) {
    NewAddr(blocks, start, size) + HEADER + size < TWO32
  }

  /** The list with the new chunk behind its predecessor. */
  function Inserted(blocks: seq<Block>, start: nat, size: nat): seq<Block> {
    if blocks == [] then [Block(start, size)]
    else if |blocks| == 1 || GapFits(blocks, size + HEADER) then
      [blocks[0], Block(blocks[0].End(), size)] + blocks[1..]
    else [blocks[0]] + Inserted(blocks[1..], start, size)
  }

  function Removed(blocks: seq<Block>, i: nat): seq<Block>
    requires i < |blocks|
  {
    if i == 0 then blocks[1..] else [blocks[0]] + Removed(blocks[1..], i - 1)
  }

  /** In terms of positions. */
  lemma {:induction false} InsertedIs(blocks: seq<Block>, start: nat, size: nat)
    requires blocks != []
    ensures var i := FirstFit(blocks, size + HEADER);
            Inserted(blocks, start, size) == blocks[..i + 1] + [Block(blocks[i].End(), size)] + blocks[i + 1..]
  {
    if |blocks| > 1 && !GapFits(blocks, size + HEADER) {
      InsertedIs(blocks[1..], start, size);
    }
  }

  lemma {:induction false} RemovedIs(blocks: seq<Block>, i: nat)
    requires i < |blocks|
    ensures Removed(blocks, i) == blocks[..i] + blocks[i + 1..]
  {
    if i > 0 { RemovedIs(blocks[1..], i - 1); }
  }

  /** The first gap of so many bytes is behind the chunk in place `i`, or this is the last chunk and there is none. */
  ghost predicate FirstGap(blocks: seq<Block>, i: nat, need: int) {
    && i < |blocks|
    && (forall j | 0 <= j < i :: blocks[j + 1].addr - (blocks[j].addr + 12 + blocks[j].size) < need)
    && (i + 1 < |blocks| ==> blocks[i + 1].addr - (blocks[i].addr + 12 + blocks[i].size) >= need)
  }

  lemma FirstFitGap(blocks: seq<Block>, need: nat)
    requires blocks != []
    ensures FirstGap(blocks, FirstFit(blocks, need), need)
  {
    hide FirstFit, Pred, Succ;
    FirstFitIsLowest(blocks, need);
  }

  /** A chunk of `size` bytes right behind the one in place `i`, whose header takes 12 bytes. */
  ghost predicate PutBehind(r: seq<Block>, blocks: seq<Block>, i: nat, size: nat) {
    i < |blocks| && r == blocks[..i + 1] + [Block(blocks[i].addr + 12 + blocks[i].size, size)] + blocks[i + 1..]
  }

  /** First fit in bytes: a chunk of `size` bytes needs 12 more, and goes behind the one in front of the first gap of
      that size. */
  lemma InsertsFirstFit(blocks: seq<Block>, start: nat, size: nat)
    ensures blocks == [] ==> Inserted(blocks, start, size) == [Block(start, size)]
    ensures blocks != [] ==>
              exists i: nat ::
                FirstGap(blocks, i, size + 12) && PutBehind(Inserted(blocks, start, size), blocks, i, size)
  {
    if blocks != [] {
      hide Inserted, FirstFit, FirstGap;
      FirstFitGap(blocks, size + HEADER);
      InsertedIs(blocks, start, size);
      assert PutBehind(Inserted(blocks, start, size), blocks, FirstFit(blocks, size + HEADER), size);
    }
  }

  lemma {:induction false} InsertedLayout(blocks: seq<Block>, start: nat, base: nat, size: nat)
    requires Layout(blocks, base) && size % 4 == 0 && size >= 8
    requires blocks == [] ==> base <= start && start % 4 == 0
    requires Fits(blocks, start, size)
    ensures Layout(Inserted(blocks, start, size), base)
    ensures SumSizes(Inserted(blocks, start, size)) == SumSizes(blocks) + size
    ensures |Inserted(blocks, start, size)| == |blocks| + 1
    decreases |blocks|
  {
    var r := Inserted(blocks, start, size);
    if blocks == [] {
      assert r[1..] == [];
    } else if |blocks| == 1 || GapFits(blocks, size + HEADER) {
      assert r[1..] == [Block(blocks[0].End(), size)] + blocks[1..] && r[1..][1..] == blocks[1..];
    } else {
      assert r[1..] == Inserted(blocks[1..], start, size);
      InsertedLayout(blocks[1..], start, blocks[0].End(), size);
    }
  }

  lemma {:induction false} RemovedLayout(blocks: seq<Block>, start: nat, i: nat)
    requires Layout(blocks, start) && i < |blocks|
    ensures Layout(Removed(blocks, i), start)
    ensures SumSizes(Removed(blocks, i)) == SumSizes(blocks) - blocks[i].size
    ensures |Removed(blocks, i)| == |blocks| - 1
    decreases |blocks|
  {
    if i > 0 {
      RemovedLayout(blocks[1..], blocks[0].End(), i - 1);
      assert Removed(blocks, i)[1..] == Removed(blocks[1..], i - 1);
    } else if |blocks| > 1 {
      assert BlockOk(blocks[1..][0], blocks[0].End());
    }
  }

  /** Where the new chunk stands in the list. */
  function Place(blocks: seq<Block>, size: nat): nat {
    if blocks == [] then 0 else FirstFit(blocks, size + HEADER) + 1
  }

  /** Freeing the chunk just allocated restores the list. */
  lemma {:induction false} InsertThenRemove(blocks: seq<Block>, start: nat, size: nat)
    ensures Place(blocks, size) < |Inserted(blocks, start, size)|
    ensures Inserted(blocks, start, size)[Place(blocks, size)] == Block(NewAddr(blocks, start, size), size)
    ensures Removed(Inserted(blocks, start, size), Place(blocks, size)) == blocks
    decreases |blocks|
  {
    hide GapFits;
    var r := Inserted(blocks, start, size);
    if blocks != [] {
      if |blocks| == 1 || GapFits(blocks, size + HEADER) {
        assert r[1..] == [Block(blocks[0].End(), size)] + blocks[1..];
        assert Removed(r[1..], 0) == blocks[1..];
      } else {
        assert r[1..] == Inserted(blocks[1..], start, size);
        InsertThenRemove(blocks[1..], start, size);
      }
    }
  }

  /** The position of the chunk with a payload pointer; the length of the list when there is none. */
  function IndexOf(blocks: seq<Block>, ptr: nat): (i: nat)
    ensures i <= |blocks| && (i < |blocks| ==> blocks[i].Ptr() == ptr)
  {
    if blocks == [] then 0 else if blocks[0].Ptr() == ptr then 0 else 1 + IndexOf(blocks[1..], ptr)
  }

  /** Payload pointers are unique. */
  lemma {:induction false} IndexOfIs(blocks: seq<Block>, start: nat, i: nat)
    requires Layout(blocks, start) && i < |blocks|
    ensures IndexOf(blocks, blocks[i].Ptr()) == i
    decreases |blocks|
  {
    if i > 0 {
      LayoutApart(blocks, start, 0, i);
      IndexOfIs(blocks[1..], blocks[0].End(), i - 1);
    }
  }

  /** The bytes in use, headers included. */
  function Volume(blocks: seq<Block>): nat {
    SumSizes(blocks) + HEADER * |blocks|
  }

  /** The volume test, on the list. */
  predicate Admits(blocks: seq<Block>, size: nat, capacity: nat) {
    Volume(blocks) + size + HEADER < capacity
  }

  lemma {:induction false} VolumeInFours(blocks: seq<Block>, start: nat)
    requires Layout(blocks, start)
    ensures SumSizes(blocks) % 4 == 0
  {
    if blocks != [] { VolumeInFours(blocks[1..], blocks[0].End()); }
  }

  /** Whether every chunk lies in front of the heap's end. */
  ghost predicate Inside(blocks: seq<Block>, end: nat) {
    forall b | b in blocks :: b.End() <= end
  }

  /** The allocator tests the volume in use, not addresses: the chunks stay inside the heap exactly
      when the new one's end does. */
  lemma InsideAfterInsert(blocks: seq<Block>, start: nat, size: nat, end: nat)
    requires Inside(blocks, end)
    ensures Inside(Inserted(blocks, start, size), end) <==> NewAddr(blocks, start, size) + HEADER + size <= end
  {
    var newBlock, r := Block(NewAddr(blocks, start, size), size), Inserted(blocks, start, size);
    InsertThenRemove(blocks, start, size);
    assert newBlock in r;
    if blocks != [] {
      InsertedIs(blocks, start, size);
      FirstFitIsLowest(blocks, size + HEADER);
    }
    forall b | b in r ensures b == newBlock || b in blocks {
    }
  }

  /** The bytes of the gaps between the heap's start and the end of its last chunk. */
  function Holes(blocks: seq<Block>, start: nat): int {
    if blocks == [] then 0 else blocks[0].addr - start + Holes(blocks[1..], blocks[0].End())
  }

  /** The last chunk ends behind everything in use and the gaps in between. */
  lemma {:induction false} TailEnd(blocks: seq<Block>, start: nat)
    requires Layout(blocks, start) && blocks != []
    ensures blocks[|blocks| - 1].End() == start + Volume(blocks) + Holes(blocks, start)
    decreases |blocks|
  {
    if |blocks| > 1 {
      TailEnd(blocks[1..], blocks[0].End());
    } else {
      assert blocks[1..] == [] && SumSizes(blocks) == blocks[0].size + SumSizes(blocks[1..]);
    }
  }

  /** Without a gap that is large enough the new chunk goes behind the last one. */
  lemma {:induction false} NoGapMeansTail(blocks: seq<Block>, start: nat, need: nat)
    requires blocks != [] && Layout(blocks, start) && Succ(blocks, need) == 0
    ensures Pred(blocks, need) == blocks[|blocks| - 1]
    decreases |blocks|
  {
    if |blocks| > 1 { NoGapMeansTail(blocks[1..], blocks[0].End(), need); }
  }

  /** When the volume test is right: what is inserted stays in the heap exactly when it goes into a gap, or when the
      gaps in front of the tail leave room for it beside what is in use, which the test does not count. */
  lemma InsideIff(blocks: seq<Block>, start: nat, size: nat, capacity: nat)
    requires Layout(blocks, start) && Inside(blocks, start + capacity)
    ensures Inside(Inserted(blocks, start, size), start + capacity)
            <==> SuccOf(blocks, size) != 0
                 || Volume(blocks) + Holes(blocks, start) + HEADER + size <= capacity
  {
    InsideAfterInsert(blocks, start, size, start + capacity);
    if blocks != [] && SuccOf(blocks, size) == 0 {
      NoGapMeansTail(blocks, start, size + HEADER);
      TailEnd(blocks, start);
    } else if blocks != [] {
      var i := FirstFit(blocks, size + HEADER);
      FirstFitIsLowest(blocks, size + HEADER);
      assert blocks[i + 1] in blocks;
    }
  }

  /** A list without gaps stays one, and for it the volume test keeps every chunk inside. */
  lemma NoHoles(blocks: seq<Block>, start: nat, size: nat)
    requires Layout(blocks, start) && Holes(blocks, start) == 0
    ensures Holes(Inserted(blocks, start, size), start) == 0
    ensures forall capacity | Inside(blocks, start + capacity) && Admits(blocks, size, capacity) ::
              Inside(Inserted(blocks, start, size), start + capacity)
  {
    NoHolesStay(blocks, start, start, size);
    forall capacity | Inside(blocks, start + capacity) && Admits(blocks, size, capacity)
      ensures Inside(Inserted(blocks, start, size), start + capacity)
    {
      InsideIff(blocks, start, size, capacity);
    }
  }

  lemma {:induction false} HolesAreGaps(blocks: seq<Block>, start: nat)
    requires Layout(blocks, start)
    ensures Holes(blocks, start) >= 0
    decreases |blocks|
  {
    if blocks != [] { HolesAreGaps(blocks[1..], blocks[0].End()); }
  }

  lemma {:induction false} NoHolesStay(blocks: seq<Block>, start: nat, base: nat, size: nat)
    requires Layout(blocks, base) && Holes(blocks, base) == 0 && (blocks == [] ==> base == start)
    ensures Holes(Inserted(blocks, start, size), base) == 0
    decreases |blocks|
  {
    var r := Inserted(blocks, start, size);
    if blocks == [] {
      assert r[1..] == [];
    } else {
      var end := blocks[0].End();
      HolesAreGaps(blocks[1..], end);
      assert blocks[0].addr == base && Holes(blocks[1..], end) == 0;
      if |blocks| == 1 {
        assert r[1..] == [Block(end, size)] && r[1..][1..] == [];
        assert Holes(r[1..], end) == 0;
      } else {
        HolesAreGaps(blocks[1..][1..], blocks[1].End());
        assert !GapFits(blocks, size + HEADER);
        assert r[1..] == Inserted(blocks[1..], start, size);
        NoHolesStay(blocks[1..], start, end, size);
      }
    }
  }

  /** The list after `rounds` rounds of: allocate `size` bytes, free the older of the two chunks. */
  function QueueRounds(start: nat, size: nat, rounds: nat): seq<Block> {
    if rounds == 0 then [Block(start, size)]
    else
      var blocks := Inserted(QueueRounds(start, size, rounds - 1), start, size);
      if |blocks| == 0 then blocks else Removed(blocks, 0)
  }

  /** With at most two chunks in use, such a run moves the live chunk past any bound. When the heap holds two
      chunks with their headers, the volume test admits every round of it, and after as many rounds as chunks
      fit into the heap the live chunk lies outside. */
  lemma {:induction false} QueueDrifts(start: nat, size: nat, rounds: nat, capacity: nat)
    ensures QueueRounds(start, size, rounds) == [Block(start + rounds * (HEADER + size), size)]
    ensures 2 * (HEADER + size) < capacity ==> Admits(QueueRounds(start, size, rounds), size, capacity)
    ensures rounds * (HEADER + size) >= capacity ==> !Inside(QueueRounds(start, size, rounds), start + capacity)
    decreases rounds
  {
    var live := Block(start + rounds * (HEADER + size), size);
    if rounds > 0 {
      QueueDrifts(start, size, rounds - 1, capacity);
      assert rounds * (HEADER + size) == (rounds - 1) * (HEADER + size) + (HEADER + size);
      var b := Block(start + (rounds - 1) * (HEADER + size), size);
      assert Inserted([b], start, size) == [b, Block(b.End(), size)];
    }
    assert SumSizes([live]) == size + SumSizes([]);
    assert live in [live];
  }

  // ----- The list in memory

  /** Cell `a` holds the byte at address `a` or, where a header field starts, the whole field. */
  type Memory = seq<uint32>

  /** The address of the first chunk of a list, 0 when there is none. */
  function FirstAddr(blocks: seq<Block>): nat {
    if blocks == [] then 0 else blocks[0].addr
  }

  ghost predicate HeaderAt(m: Memory, b: Block, next: nat) {
    b.End() < |m| && m[b.addr] == b.Ptr() && m[b.addr + SIZE_FIELD] == b.size && m[b.addr + NEXT_FIELD] == next
  }

  /** A header is three words of four bytes: the payload's address and size, and the next header's address. */
  lemma HeaderWords(m: Memory, b: Block, next: nat)
    ensures HeaderAt(m, b, next) <==>
              && b.addr + 12 + b.size < |m|
              && m[b.addr] == b.addr + 12 && m[b.addr + 4] == b.size && m[b.addr + 8] == next
  {
  }

  /** Every chunk of the list has its header in front of its payload, linked to the next one's. */
  ghost predicate Linked(m: Memory, blocks: seq<Block>) {
    blocks == [] || (HeaderAt(m, blocks[0], FirstAddr(blocks[1..])) && Linked(m, blocks[1..]))
  }

  /** The list in memory is the one described, and head and counters go with it. */
  ghost predicate InOrder(m: Memory, blocks: seq<Block>, start: nat, head: nat, size: nat, count: nat) {
    && Layout(blocks, start) && Linked(m, blocks)
    && head == FirstAddr(blocks) && size == SumSizes(blocks) && count == |blocks|
  }

  /** Memory changed only in front of a list leaves it linked. */
  lemma {:induction false} LinkedElsewhere(m: Memory, m': Memory, blocks: seq<Block>, start: nat)
    requires Layout(blocks, start) && Linked(m, blocks) && |m'| == |m|
    requires forall a | start <= a < |m| :: m'[a] == m[a]
    ensures Linked(m', blocks)
    decreases |blocks|
  {
    if blocks != [] { LinkedElsewhere(m, m', blocks[1..], blocks[0].End()); }
  }

  /** The header cells of a new chunk and the link of its predecessor: all that allocating writes. */
  ghost predicate TouchedByAlloc(blocks: seq<Block>, start: nat, size: nat, a: nat) {
    || NewAddr(blocks, start, size) <= a < NewAddr(blocks, start, size) + HEADER
    || (blocks != [] && a == Pred(blocks, size + HEADER).addr + NEXT_FIELD)
  }

  /** Nothing else was written. */
  ghost predicate AllocFrame(m: Memory, m': Memory, blocks: seq<Block>, start: nat, size: nat) {
    |m'| == |m| && forall a | 0 <= a < |m| && !TouchedByAlloc(blocks, start, size, a) :: m'[a] == m[a]
  }

  lemma {:induction false} PredIsBehind(blocks: seq<Block>, start: nat, need: nat)
    requires blocks != [] && Layout(blocks, start)
    ensures BlockOk(Pred(blocks, need), start)
    ensures Succ(blocks, need) != 0 ==> Pred(blocks, need).End() + need <= Succ(blocks, need)
    decreases |blocks|
  {
    if |blocks| > 1 && !GapFits(blocks, need) { PredIsBehind(blocks[1..], blocks[0].End(), need); }
  }

  /** The header of a new chunk written, and its predecessor linked to it. */
  ghost predicate Added(m: Memory, m': Memory, blocks: seq<Block>, start: nat, size: nat) {
    && AllocFrame(m, m', blocks, start, size)
    && HeaderAt(m', Block(NewAddr(blocks, start, size), size), SuccOf(blocks, size))
    && (blocks != [] ==>
          var link := Pred(blocks, size + HEADER).addr + NEXT_FIELD;
          link < |m| && m'[link] == NewAddr(blocks, start, size))
  }

  /** The longer list is linked when the new chunk goes behind the first one. */
  lemma AddedHere(m: Memory, m': Memory, blocks: seq<Block>, start: nat, base: nat, size: nat)
    requires blocks != [] && (|blocks| == 1 || GapFits(blocks, size + HEADER))
    requires Layout(blocks, base) && Linked(m, blocks) && Added(m, m', blocks, start, size)
    ensures Linked(m', Inserted(blocks, start, size))
  {
    var r, rest, b := Inserted(blocks, start, size), blocks[1..], Block(blocks[0].End(), size);
    assert r[1..] == [b] + rest && r[1..][1..] == rest;
    if rest != [] { LinkedElsewhere(m, m', rest, rest[0].addr); }
    assert Linked(m', rest);
    assert Linked(m', [b] + rest);
  }

  /** When it goes further behind, the first header stays. */
  lemma AddedBehind(m: Memory, m': Memory, blocks: seq<Block>, start: nat, base: nat, size: nat)
    requires |blocks| > 1 && !GapFits(blocks, size + HEADER)
    requires Layout(blocks, base) && Linked(m, blocks) && Added(m, m', blocks, start, size)
    ensures Added(m, m', blocks[1..], start, size) && HeaderAt(m', blocks[0], FirstAddr(blocks[1..]))
  {
    PredIsBehind(blocks[1..], blocks[0].End(), size + HEADER);
  }

  /** In every case the longer list is linked. */
  lemma {:induction false} AddedIsLinked(m: Memory, m': Memory, blocks: seq<Block>, start: nat, base: nat, size: nat)
    requires Layout(blocks, base) && Linked(m, blocks) && Added(m, m', blocks, start, size)
    ensures Linked(m', Inserted(blocks, start, size))
    decreases |blocks|
  {
    var r := Inserted(blocks, start, size);
    if blocks == [] {
      assert r[1..] == [];
    } else if |blocks| == 1 || GapFits(blocks, size + HEADER) {
      AddedHere(m, m', blocks, start, base, size);
    } else {
      assert r[1..] == Inserted(blocks[1..], start, size) && FirstAddr(r[1..]) == FirstAddr(blocks[1..]);
      AddedBehind(m, m', blocks, start, base, size);
      AddedIsLinked(m, m', blocks[1..], start, blocks[0].End(), size);
    }
  }

  /** What the new chunk is linked to. */
  function SuccOf(blocks: seq<Block>, size: nat): nat {
    if blocks == [] then 0 else Succ(blocks, size + HEADER)
  }

  lemma {:induction false} LinkedAtPred(m: Memory, blocks: seq<Block>, need: nat)
    requires blocks != [] && Linked(m, blocks)
    ensures HeaderAt(m, Pred(blocks, need), Succ(blocks, need))
    decreases |blocks|
  {
    if |blocks| > 1 && !GapFits(blocks, need) { LinkedAtPred(m, blocks[1..], need); }
  }

  /** The next chunk begins right where the predecessor ends, so that the link written is the old one; this
      takes a gap of no size at all to look for. */
  predicate LinkStays(blocks: seq<Block>, need: nat) {
    blocks != [] && Pred(blocks, need).End() == Succ(blocks, need)
  }

  /** The predecessor linked to a header that is not written yet: the list is no longer in order, unless the
      link stays what it was. */
  lemma LinkBreaksList(m: Memory, blocks: seq<Block>, base: nat, need: nat)
    requires blocks != [] && Layout(blocks, base) && Linked(m, blocks)
    ensures Pred(blocks, need).End() < TWO32 && Pred(blocks, need).addr + NEXT_FIELD < |m|
    ensures var link := Pred(blocks, need).addr + NEXT_FIELD;
            Linked(m[link := Pred(blocks, need).End()], blocks) <==> LinkStays(blocks, need)
    ensures need > 0 ==> !LinkStays(blocks, need)
  {
    LinkedAtPred(m, blocks, need);
    PredIsBehind(blocks, base, need);
    var m' := m[Pred(blocks, need).addr + NEXT_FIELD := Pred(blocks, need).End()];
    if LinkStays(blocks, need) {
      assert m' == m;
    } else if Linked(m', blocks) {
      LinkedAtPred(m', blocks, need);
      assert false;
    }
  }

  /** The link that freeing chunk `i` rewrites, if there is a chunk in front of it. */
  ghost predicate TouchedByFree(blocks: seq<Block>, i: nat, a: nat)
    requires i < |blocks|
  {
    i > 0 && a == blocks[i - 1].addr + NEXT_FIELD
  }

  /** Nothing else was written. */
  ghost predicate FreeFrame(m: Memory, m': Memory, blocks: seq<Block>, i: nat)
    requires i < |blocks|
  {
    |m'| == |m| && forall a | 0 <= a < |m| && !TouchedByFree(blocks, i, a) :: m'[a] == m[a]
  }

  lemma {:induction false} RemovedIsLinked(m: Memory, m': Memory, blocks: seq<Block>, start: nat, i: nat)
    requires Layout(blocks, start) && Linked(m, blocks) && i < |blocks| && FreeFrame(m, m', blocks, i)
    requires i > 0 ==> blocks[i - 1].End() < |m| && m'[blocks[i - 1].addr + NEXT_FIELD] == FirstAddr(blocks[i + 1..])
    ensures Linked(m', Removed(blocks, i))
    decreases |blocks|
  {
    var r, rest := Removed(blocks, i), blocks[1..];
    if i == 0 {
      LinkedElsewhere(m, m', rest, blocks[0].End());
    } else if i == 1 {
      RemovedSecond(m, m', blocks, start);
    } else {
      assert r[1..] == Removed(rest, i - 1) && rest[i..] == blocks[i + 1..];
      RemovedBehind(m, m', blocks, start, i);
      RemovedIsLinked(m, m', rest, blocks[0].End(), i - 1);
      assert FirstAddr(r[1..]) == FirstAddr(rest);
    }
  }

  lemma RemovedSecond(m: Memory, m': Memory, blocks: seq<Block>, start: nat)
    requires |blocks| > 1 && Layout(blocks, start) && Linked(m, blocks) && FreeFrame(m, m', blocks, 1)
    requires blocks[0].End() < |m| && m'[blocks[0].addr + NEXT_FIELD] == FirstAddr(blocks[2..])
    ensures Linked(m', Removed(blocks, 1))
  {
    var r, rest := Removed(blocks, 1), blocks[1..];
    assert r == [blocks[0]] + Removed(rest, 0) && Removed(rest, 0) == rest[1..];
    assert rest[1..] == blocks[2..];
    assert r[1..] == rest[1..];
    LinkedElsewhere(m, m', rest[1..], rest[0].End());
  }

  /** A chunk further behind is removed from the rest of the list, and the first header stays. */
  lemma RemovedBehind(m: Memory, m': Memory, blocks: seq<Block>, start: nat, i: nat)
    requires 1 < i < |blocks| && Layout(blocks, start) && Linked(m, blocks) && FreeFrame(m, m', blocks, i)
    ensures FreeFrame(m, m', blocks[1..], i - 1) && HeaderAt(m', blocks[0], FirstAddr(blocks[1..]))
  {
    LayoutApart(blocks, start, 0, i - 1);
    forall a | 0 <= a < |m| && !TouchedByFree(blocks[1..], i - 1, a) ensures m'[a] == m[a] {
      assert !TouchedByFree(blocks, i, a);
    }
  }

  /** The list without chunk `k`, once the one in front of it is linked to the one behind. */
  lemma RemovedInOrder(m: Memory, blocks: seq<Block>, start: nat, k: nat)
    requires Layout(blocks, start) && Linked(m, blocks) && 0 < k < |blocks| && |m| == TWO32
    requires HeaderAt(m, blocks[k - 1], blocks[k].addr)
    ensures var link, next := blocks[k - 1].addr + NEXT_FIELD, FirstAddr(blocks[k + 1..]);
            && link < |m| && next < TWO32 && SumSizes(blocks) >= blocks[k].size
            && InOrder(m[link := next], Removed(blocks, k), start, FirstAddr(blocks),
                       SumSizes(blocks) - blocks[k].size, |blocks| - 1)
            && FreeFrame(m, m[link := next], blocks, k)
  {
    RemovedLayout(blocks, start, k);
    if k + 1 < |blocks| { LayoutAt(blocks, start, k + 1); }
    var m' := m[blocks[k - 1].addr + NEXT_FIELD := FirstAddr(blocks[k + 1..])];
    RemovedIsLinked(m, m', blocks, start, k);
    RemovedIs(blocks, k);
  }

  /** The list with its last chunk resized. */
  function Resized(blocks: seq<Block>, size: nat): seq<Block>
    requires blocks != []
  {
    blocks[|blocks| - 1 := Block(blocks[|blocks| - 1].addr, size)]
  }

  /** The tail grows without any test: the chunks stay inside the heap exactly when its new end does. */
  lemma InsideAfterResize(blocks: seq<Block>, size: nat, end: nat)
    requires blocks != [] && Inside(blocks, end)
    ensures Inside(Resized(blocks, size), end) <==> blocks[|blocks| - 1].Ptr() + size <= end
  {
    var r, n := Resized(blocks, size), |blocks|;
    assert r[n - 1] in r;
    forall b | b in r ensures b == r[n - 1] || b in blocks {
    }
  }

  lemma {:induction false} ResizedIsLinked(m: Memory, m': Memory, blocks: seq<Block>, start: nat, size: nat)
    requires blocks != [] && Layout(blocks, start) && Linked(m, blocks) && size % 4 == 0 && size >= 8
    requires var last := blocks[|blocks| - 1];
             && last.Ptr() + size < |m| == TWO32
             && m' == m[last.addr + SIZE_FIELD := size]
    ensures Layout(Resized(blocks, size), start) && Linked(m', Resized(blocks, size))
    ensures SumSizes(Resized(blocks, size)) == SumSizes(blocks) - blocks[|blocks| - 1].size + size
    decreases |blocks|
  {
    var r := Resized(blocks, size);
    if |blocks| == 1 {
      assert r[1..] == [] && blocks[1..] == [];
    } else {
      assert r[1..] == Resized(blocks[1..], size);
      LayoutApart(blocks, start, 0, |blocks| - 1);
      ResizedIsLinked(m, m', blocks[1..], blocks[0].End(), size);
    }
  }

  lemma ResizedInOrder(m: Memory, blocks: seq<Block>, start: nat, head: nat, count: nat, size: uint32)
    requires blocks != [] && Layout(blocks, start) && Linked(m, blocks) && size % 4 == 0 && size >= 8
    requires blocks[|blocks| - 1].Ptr() + size < |m| == TWO32 && start < TWO32
    requires head == FirstAddr(blocks) && count == |blocks|
    ensures var at := blocks[|blocks| - 1].addr + SIZE_FIELD;
            at < |m|
            && InOrder(m[at := size], Resized(blocks, size), start, head, SumSizes(Resized(blocks, size)), count)
    ensures SumSizes(Resized(blocks, size)) == SumSizes(blocks) - blocks[|blocks| - 1].size + size < TWO32
    ensures HeaderAt(m, blocks[|blocks| - 1], 0)
  {
    LinkedLast(m, blocks);
    ResizedIsLinked(m, m[blocks[|blocks| - 1].addr + SIZE_FIELD := size], blocks, start, size);
    SumFits(Resized(blocks, size), start);
  }

  /** Whether an address lies in the payload of a chunk of the list. */
  ghost predicate InPayload(blocks: seq<Block>, a: nat) {
    exists i | 0 <= i < |blocks| :: blocks[i].Ptr() <= a < blocks[i].End()
  }

  lemma HeaderIsNoPayload(blocks: seq<Block>, start: nat, i: nat, a: nat)
    requires Layout(blocks, start) && i < |blocks| && blocks[i].addr <= a < blocks[i].Ptr()
    ensures !InPayload(blocks, a)
  {
    forall j | 0 <= j < |blocks| ensures !(blocks[j].Ptr() <= a < blocks[j].End()) {
      if i < j { LayoutApart(blocks, start, i, j); }
      if j < i { LayoutApart(blocks, start, j, i); }
    }
  }

  /** Whatever clients write into payloads, the list stays in order. */
  lemma PayloadWriteKeepsLinks(m: Memory, m': Memory, blocks: seq<Block>, start: nat)
    requires Layout(blocks, start) && Linked(m, blocks) && |m'| == |m|
    requires forall a | 0 <= a < |m| && !InPayload(blocks, a) :: m'[a] == m[a]
    ensures Linked(m', blocks)
  {
    forall i, a | 0 <= i < |blocks| && blocks[i].addr <= a < blocks[i].Ptr() ensures !InPayload(blocks, a) {
      HeaderIsNoPayload(blocks, start, i, a);
    }
    HeadersKept(m, m', blocks);
  }

  lemma {:induction false} HeadersKept(m: Memory, m': Memory, blocks: seq<Block>)
    requires Linked(m, blocks) && |m'| == |m|
    requires forall i, a | 0 <= i < |blocks| && blocks[i].addr <= a < blocks[i].Ptr() && a < |m| :: m'[a] == m[a]
    ensures Linked(m', blocks)
    decreases |blocks|
  {
    if blocks != [] {
      assert forall i | 0 <= i < |blocks[1..]| :: blocks[1..][i] == blocks[i + 1];
      HeadersKept(m, m', blocks[1..]);
    }
  }

  /** The payload of a chunk holds the same in both memories. */
  ghost predicate SamePayload(m: Memory, m': Memory, b: Block) {
    b.End() <= |m| == |m'| && forall a | b.Ptr() <= a < b.End() :: m'[a] == m[a]
  }

  /** The payload of a chunk avoids every other chunk, header included. */
  lemma PayloadsApart(blocks: seq<Block>, start: nat, b: Block, c: Block, a: nat)
    requires Layout(blocks, start) && b in blocks && c in blocks && b != c && b.Ptr() <= a < b.End()
    ensures !(c.addr <= a < c.End())
  {
    var i, j :| 0 <= i < |blocks| && 0 <= j < |blocks| && blocks[i] == b && blocks[j] == c;
    if i < j { LayoutApart(blocks, start, i, j); } else { LayoutApart(blocks, start, j, i); }
  }

  /** Freeing writes into no live payload. */
  lemma FreeSparesPayloads(m: Memory, m': Memory, blocks: seq<Block>, start: nat, i: nat, b: Block)
    requires Layout(blocks, start) && i < |blocks| && b in blocks && b.End() <= |m|
    requires FreeFrame(m, m', blocks, i)
    ensures SamePayload(m, m', b)
  {
    forall a | b.Ptr() <= a < b.End() ensures m'[a] == m[a] {
      if i > 0 && blocks[i - 1] != b { PayloadsApart(blocks, start, b, blocks[i - 1], a); }
      assert !TouchedByFree(blocks, i, a);
    }
  }

  ghost predicate SamePayloads(m: Memory, m': Memory, blocks: seq<Block>) {
    forall b | b in blocks :: SamePayload(m, m', b)
  }

  lemma FreeSparesAll(m: Memory, m': Memory, blocks: seq<Block>, start: nat, i: nat)
    requires Layout(blocks, start) && i < |blocks| && |m| == TWO32 && FreeFrame(m, m', blocks, i)
    ensures SamePayloads(m, m', blocks)
  {
    forall b | b in blocks ensures SamePayload(m, m', b) {
      LayoutHas(blocks, start, b);
      FreeSparesPayloads(m, m', blocks, start, i, b);
    }
  }

  lemma LayoutHas(blocks: seq<Block>, start: nat, b: Block)
    requires Layout(blocks, start) && b in blocks
    ensures BlockOk(b, start) && IndexOf(blocks, b.Ptr()) < |blocks| && blocks[IndexOf(blocks, b.Ptr())] == b
  {
    var i :| 0 <= i < |blocks| && blocks[i] == b;
    LayoutAt(blocks, start, i);
    IndexOfIs(blocks, start, i);
  }

  lemma RemovedHas(blocks: seq<Block>, start: nat, i: nat)
    requires Layout(blocks, start) && i < |blocks|
    ensures blocks[i] !in Removed(blocks, i)
    ensures forall c | c in Removed(blocks, i) :: c in blocks
    ensures forall c | c in blocks && c != blocks[i] :: c in Removed(blocks, i)
  {
    RemovedIs(blocks, i);
    forall j | 0 <= j < |blocks| && j != i ensures blocks[j] != blocks[i] {
      LayoutApart(blocks, start, if i < j then i else j, if i < j then j else i);
    }
    forall c | c in blocks && c != blocks[i] ensures c in Removed(blocks, i) {
      var j :| 0 <= j < |blocks| && blocks[j] == c;
      assert if j < i then c in blocks[..i] else c in blocks[i + 1..];
    }
  }

  /** A list that a new chunk joined. */
  ghost predicate NewAmong(before: seq<Block>, after: seq<Block>, c: Block) {
    c in after && c !in before && forall b | b in before :: b in after
  }

  /** The new chunk joins the old ones and is none of them. */
  lemma InsertedHas(blocks: seq<Block>, start: nat, size: nat)
    requires Layout(Inserted(blocks, start, size), start)
    ensures NewAmong(blocks, Inserted(blocks, start, size), Block(NewAddr(blocks, start, size), size))
  {
    InsertThenRemove(blocks, start, size);
    RemovedHas(Inserted(blocks, start, size), start, Place(blocks, size));
  }

  /** Allocating writes into no live payload. */
  lemma AllocSparesPayloads(m: Memory, m': Memory, blocks: seq<Block>, start: nat, size: nat, b: Block)
    requires Layout(blocks, start) && Layout(Inserted(blocks, start, size), start) && b in blocks
    requires |m| == TWO32 && AllocFrame(m, m', blocks, start, size)
    ensures SamePayload(m, m', b)
  {
    var p, c := Pred(blocks, size + HEADER), Block(NewAddr(blocks, start, size), size);
    LayoutHas(blocks, start, b);
    InsertedHas(blocks, start, size);
    forall a | b.Ptr() <= a < b.End() ensures m'[a] == m[a] {
      if b != p { PayloadsApart(blocks, start, b, p, a); }
      PayloadsApart(Inserted(blocks, start, size), start, b, c, a);
      assert !TouchedByAlloc(blocks, start, size, a);
    }
  }

  lemma AllocSparesAll(m: Memory, m': Memory, blocks: seq<Block>, start: nat, size: nat)
    requires Layout(blocks, start) && Layout(Inserted(blocks, start, size), start)
    requires |m| == TWO32 && AllocFrame(m, m', blocks, start, size)
    ensures SamePayloads(m, m', blocks)
  {
    forall b | b in blocks ensures SamePayload(m, m', b) {
      AllocSparesPayloads(m, m', blocks, start, size, b);
    }
  }

  /** The first `n` cells of a chunk's payload, and those behind it if there are not as many, avoid every other
      chunk, header included. */
  ghost predicate RoomFor(blocks: seq<Block>, c: Block, n: nat) {
    c.Ptr() + n <= TWO32 && forall d | d in blocks && d != c :: d.End() <= c.addr || c.Ptr() + n <= d.addr
  }

  /** The other chunks survive that so many cells are written from a chunk's payload on. */
  ghost predicate OthersSurvive(m: Memory, m': Memory, blocks: seq<Block>, c: Block) {
    Linked(m', blocks) && forall b | b in blocks && b != c :: SamePayload(m, m', b)
  }

  /** Copying where there is room leaves every other chunk alone. */
  lemma CopySparesPayloads(m: Memory, blocks: seq<Block>, start: nat, c: Block, patch: seq<uint32>)
    requires Layout(blocks, start) && Linked(m, blocks) && c in blocks && RoomFor(blocks, c, |patch|) && |m| == TWO32
    ensures OthersSurvive(m, Splice(m, c.Ptr(), patch), blocks, c)
  {
    var m' := Splice(m, c.Ptr(), patch);
    SpliceAt(m, c.Ptr(), patch);
    forall i, a | 0 <= i < |blocks| && blocks[i].addr <= a < blocks[i].Ptr() && a < |m| ensures m'[a] == m[a] {
      if blocks[i] != c { LayoutHas(blocks, start, blocks[i]); }
    }
    HeadersKept(m, m', blocks);
    forall b | b in blocks && b != c ensures SamePayload(m, m', b) {
      LayoutHas(blocks, start, b);
    }
  }

  lemma {:induction false} HeaderIn(m: Memory, blocks: seq<Block>, b: Block)
    requires Linked(m, blocks) && b in blocks
    ensures b.End() < |m| && m[b.addr] == b.Ptr() && m[b.addr + SIZE_FIELD] == b.size
    decreases |blocks|
  {
    if b != blocks[0] { HeaderIn(m, blocks[1..], b); }
  }

  /** Where there is no room, the copy can destroy the header of another chunk. */
  lemma NoRoomBreaks(m: Memory, blocks: seq<Block>, start: nat, c: Block, n: nat) returns (patch: seq<uint32>)
    requires Layout(blocks, start) && Linked(m, blocks) && c in blocks && |m| == TWO32
    requires c.Ptr() + n <= TWO32 && !RoomFor(blocks, c, n)
    ensures |patch| == n && !Linked(Splice(m, c.Ptr(), patch), blocks)
  {
    var d :| d in blocks && d != c && !(d.End() <= c.addr || c.Ptr() + n <= d.addr);
    LayoutHas(blocks, start, c);
    LayoutHas(blocks, start, d);
    var i, j := IndexOf(blocks, c.Ptr()), IndexOf(blocks, d.Ptr());
    if j < i { LayoutApart(blocks, start, j, i); } else { LayoutApart(blocks, start, i, j); }
    patch := seq(n, _ => 0);
    SpliceAt(m, c.Ptr(), patch);
    if Linked(Splice(m, c.Ptr(), patch), blocks) { HeaderIn(Splice(m, c.Ptr(), patch), blocks, d); }
  }

  /** The other chunks survive every copy of `n` cells into a chunk exactly when there is room for it. */
  lemma RoomIff(m: Memory, blocks: seq<Block>, start: nat, c: Block, n: nat)
    requires Layout(blocks, start) && Linked(m, blocks) && c in blocks && |m| == TWO32 && c.Ptr() + n <= TWO32
    ensures RoomFor(blocks, c, n) <==>
              forall patch: seq<uint32> | |patch| == n :: OthersSurvive(m, Splice(m, c.Ptr(), patch), blocks, c)
  {
    if RoomFor(blocks, c, n) {
      forall patch: seq<uint32> | |patch| == n ensures OthersSurvive(m, Splice(m, c.Ptr(), patch), blocks, c) {
        CopySparesPayloads(m, blocks, start, c, patch);
      }
    } else {
      var patch := NoRoomBreaks(m, blocks, start, c, n);
      assert !OthersSurvive(m, Splice(m, c.Ptr(), patch), blocks, c);
    }
  }

  /** A chunk just allocated has room for its own size, and for more exactly when it is the tail or the next
      chunk begins far enough behind it. */
  lemma RoomForNew(blocks: seq<Block>, start: nat, size: nat, n: nat)
    requires Layout(blocks, start) && start % 4 == 0 && size % 4 == 0 && size >= 8 && Fits(blocks, start, size)
    ensures RoomFor(Inserted(blocks, start, size), Block(NewAddr(blocks, start, size), size), n)
       <==> n <= size || MoreRoom(blocks, NewAddr(blocks, start, size) + HEADER, SuccOf(blocks, size), n)
  {
    var r, c, i := Inserted(blocks, start, size), Block(NewAddr(blocks, start, size), size), Place(blocks, size);
    InsertedLayout(blocks, start, start, size);
    InsertThenRemove(blocks, start, size);
    NextOfNew(blocks, start, size);
    if i + 1 < |r| { LayoutApart(r, start, i, i + 1); }
    forall d | d in r && d != c ensures d.End() <= c.addr || (i + 1 < |r| && c.End() <= r[i + 1].addr <= d.addr) {
      InFrontOrBehind(r, start, i, d);
    }
    if i + 1 < |r| { assert r[i + 1] in r; }
  }

  /** The other chunks end in front of a chunk, or begin with the next one or behind it. */
  lemma InFrontOrBehind(blocks: seq<Block>, start: nat, i: nat, d: Block)
    requires Layout(blocks, start) && i < |blocks| && d in blocks && d != blocks[i]
    ensures d.End() <= blocks[i].addr || (i + 1 < |blocks| && blocks[i].End() <= blocks[i + 1].addr <= d.addr)
  {
    var j :| 0 <= j < |blocks| && blocks[j] == d;
    if j < i { LayoutApart(blocks, start, j, i); } else { LayoutApart(blocks, start, i, i + 1); }
    if i + 1 < j { LayoutApart(blocks, start, i + 1, j); }
  }

  /** The payload at `at` is the last one, or `n` cells from there end in front of the next chunk. */
  predicate MoreRoom(blocks: seq<Block>, at: nat, next: nat, n: nat) {
    at + n <= TWO32 && (next == 0 || at + n <= next)
  }

  /** The chunk behind the new one. */
  lemma {:induction false} NextOfNew(blocks: seq<Block>, start: nat, size: nat)
    requires Layout(blocks, start)
    ensures var r, i := Inserted(blocks, start, size), Place(blocks, size);
            && i < |r| && (i + 1 < |r| ==> r[i + 1].addr == SuccOf(blocks, size) > 0)
            && (i + 1 == |r| ==> SuccOf(blocks, size) == 0)
  {
    if blocks != [] {
      InsertedIs(blocks, start, size);
      FirstFitIsLowest(blocks, size + HEADER);
      var i := FirstFit(blocks, size + HEADER);
      if i + 1 < |blocks| { LayoutApart(blocks, start, i, i + 1); }
    }
  }

  /** The list without the chunk of a payload pointer. */
  function Without(blocks: seq<Block>, ptr: nat): seq<Block> {
    var i := IndexOf(blocks, ptr);
    if i < |blocks| then Removed(blocks, i) else blocks
  }

  predicate IsTail(blocks: seq<Block>, ptr: nat) {
    blocks != [] && blocks[|blocks| - 1].Ptr() == ptr
  }

  /** A chunk can move to a new one of this size: there is memory for it, and for what is copied, which is the
      old size even when this is the larger one. */
  predicate MoveFits(blocks: seq<Block>, start: nat, ptr: nat, size: nat) {
    && Fits(blocks, start, size)
    && (SizeOf(blocks, ptr) <= size
        || MoreRoom(blocks, NewAddr(blocks, start, size) + HEADER, SuccOf(blocks, size), SizeOf(blocks, ptr)))
  }

  /** The size of the chunk with a payload pointer. */
  function SizeOf(blocks: seq<Block>, ptr: nat): nat {
    var i := IndexOf(blocks, ptr);
    if i < |blocks| then blocks[i].size else 0
  }

  /** What a caller of krealloc owes: memory up to the end of the resized chunk and, when the chunk moves, room
      for the copy. */
  predicate ResizeFits(blocks: seq<Block>, start: nat, ptr: nat, size: uint32) {
    if IsTail(blocks, ptr) then ptr + AlignSize(size) < TWO32
    else MoveFits(blocks, start, ptr, AlignSize(AlignSize(size)))
  }

  /** How many cells of the old payload are in the new one. */
  function KeptSize(blocks: seq<Block>, ptr: nat, size: nat): nat {
    if SizeOf(blocks, ptr) <= size then SizeOf(blocks, ptr) else size
  }

  /** The chunk list after krealloc. */
  function Reallocated(blocks: seq<Block>, start: nat, ptr: nat, size: uint32): seq<Block> {
    if IsTail(blocks, ptr) then Resized(blocks, AlignSize(size))
    else Without(Inserted(blocks, start, AlignSize(AlignSize(size))), ptr)
  }

  /** A chunk that krealloc moves becomes four bytes larger than one that kmalloc makes for the same request. */
  lemma RoundedTwice(blocks: seq<Block>, start: nat, ptr: nat, size: uint32)
    requires size < 0xffff_fff8
    ensures !IsTail(blocks, ptr) ==>
              Reallocated(blocks, start, ptr, size) == Without(Inserted(blocks, start, AlignSize(size) + 4), ptr)
    ensures IsTail(blocks, ptr) ==> Reallocated(blocks, start, ptr, size) == Resized(blocks, AlignSize(size))
  {
    hide AlignSize, Inserted, Without, Resized;
    AlignSizeCovers(size);
    RoundAgain(AlignSize(size));
  }

  lemma RoundAgain(size: uint32)
    requires size % 4 == 0 && 8 <= size < 0xffff_fffc
    ensures AlignSize(size) == size + 4
  {
  }

  /** Walking along the links: what is left of the list, and the chunk it begins with. */
  ghost predicate WalkAt(m: Memory, rest: seq<Block>, chunk: nat) {
    rest != [] && chunk == rest[0].addr && 0 < chunk && |m| == TWO32 && Layout(rest, chunk) && Linked(m, rest)
  }

  lemma WalkBegins(m: Memory, blocks: seq<Block>, start: nat, chunk: nat)
    requires blocks != [] && Layout(blocks, start) && Linked(m, blocks) && start > 0 && |m| == TWO32
    requires chunk == FirstAddr(blocks)
    ensures WalkAt(m, blocks, chunk)
  {
  }

  ghost predicate WalkRead(m: Memory, rest: seq<Block>) {
    && rest != [] && HeaderAt(m, rest[0], if |rest| == 1 then 0 else rest[1].addr)
    && rest[0].End() < TWO32 && rest[0].End() % 4 == 0
    && (|rest| > 1 ==> 0 < rest[0].End() <= rest[1].addr < TWO32)
  }

  /** The predecessor of a new chunk linked to the place behind it, and nothing else written. */
  ghost predicate LinkedTo(m: Memory, m': Memory, blocks: seq<Block>, need: nat) {
    && blocks != []
    && var p := Pred(blocks, need);
       p.addr + NEXT_FIELD < |m| && p.End() < TWO32 && m' == m[p.addr + NEXT_FIELD := p.End()]
  }

  /** Nothing wraps when the chunk ends below the top of the address space. */
  lemma FitsPlainly(blocks: seq<Block>, start: nat, size: uint32)
    requires Fits(blocks, start, size)
    ensures Need(size) == size + HEADER && HeaderPlace(blocks, start, size) == NewAddr(blocks, start, size)
    ensures ToU32(HeaderPlace(blocks, start, size) + HEADER) == NewAddr(blocks, start, size) + HEADER
  {
  }

  /** What kmalloc has linked, in a memory `m`, before it makes its test. */
  ghost predicate LinkedIn(m: Memory, m': Memory, blocks: seq<Block>, size: uint32) {
    if blocks == [] then m' == m else LinkedTo(m, m', blocks, Need(size))
  }

  lemma LinkIsFrame(m: Memory, m': Memory, blocks: seq<Block>, start: nat, size: uint32)
    requires LinkedIn(m, m', blocks, size)
    ensures Fits(blocks, start, size) ==> AllocFrame(m, m', blocks, start, size)
  {
    if Fits(blocks, start, size) { FitsPlainly(blocks, start, size); }
  }

  /** The header of a chunk written, and nothing else. */
  ghost predicate HeaderWritten(m: Memory, m': Memory, b: Block, next: nat) {
    && |m'| == |m| && HeaderAt(m', b, next)
    && forall a | 0 <= a < |m| && !(b.addr <= a < b.Ptr()) :: m'[a] == m[a]
  }

  /** Kmalloc has added its chunk: first fit, and without a write into a payload. */
  ghost predicate Allocated(m: Memory, m': Memory, blocks: seq<Block>, blocks': seq<Block>, start: nat, size: nat) {
    && blocks' == Inserted(blocks, start, size)
    && AllocFrame(m, m', blocks, start, size) && SamePayloads(m, m', blocks)
  }

  /** The list in memory after the two writes of kmalloc. */
  lemma ChunkAdded(m: Memory, m1: Memory, m': Memory, blocks: seq<Block>, start: nat, size: uint32)
    requires Layout(blocks, start) && Linked(m, blocks) && |m| == TWO32
    requires start % 4 == 0 && size % 4 == 0 && size >= 8 && Fits(blocks, start, size) && start < TWO32
    requires LinkedIn(m, m1, blocks, size)
    requires HeaderWritten(m1, m', Block(NewAddr(blocks, start, size), size), SuccOf(blocks, size))
    ensures Allocated(m, m', blocks, Inserted(blocks, start, size), start, size)
    ensures SumSizes(blocks) + size < TWO32 && |blocks| + 1 < TWO32
    ensures InOrder(m', Inserted(blocks, start, size), start, if blocks == [] then start else FirstAddr(blocks),
                    SumSizes(blocks) + size, |blocks| + 1)
  {
    InsertedLayout(blocks, start, start, size);
    SumFits(Inserted(blocks, start, size), start);
    HeaderIsFrame(m, m1, m', blocks, start, size);
    AddedIsLinked(m, m', blocks, start, start, size);
    AllocSparesAll(m, m', blocks, start, size);
  }

  /** The two writes together are what `AddedIsLinked` asks for. */
  lemma HeaderIsFrame(m: Memory, m1: Memory, m': Memory, blocks: seq<Block>, start: nat, size: uint32)
    requires LinkedIn(m, m1, blocks, size) && Fits(blocks, start, size) && Layout(blocks, start)
    requires HeaderWritten(m1, m', Block(NewAddr(blocks, start, size), size), SuccOf(blocks, size))
    ensures Added(m, m', blocks, start, size)
  {
    FitsPlainly(blocks, start, size);
    if blocks != [] { PredIsBehind(blocks, start, size + HEADER); }
  }

  /** What a round of the walk reads, and how it goes on. */
  lemma WalkReads(m: Memory, rest: seq<Block>, chunk: nat)
    requires WalkAt(m, rest, chunk)
    ensures WalkRead(m, rest)
    ensures |rest| > 1 ==> WalkAt(m, rest[1..], rest[1].addr)
  {
    if |rest| > 1 {
      assert Layout(rest[1..], rest[0].End());
      LayoutAt(rest[1..], rest[0].End(), 0);
    }
  }

  /** First fit in what is left of a list finds what it finds in the whole. */
  predicate SameFit(blocks: seq<Block>, rest: seq<Block>, need: nat) {
    && blocks != [] && rest != []
    && Pred(blocks, need) == Pred(rest, need) && Succ(blocks, need) == Succ(rest, need)
  }

  lemma FitBehind(blocks: seq<Block>, rest: seq<Block>, need: nat)
    requires SameFit(blocks, rest, need) && |rest| > 1 && !GapFits(rest, need)
    ensures SameFit(blocks, rest[1..], need)
  {
  }

  lemma FitHere(m: Memory, blocks: seq<Block>, rest: seq<Block>, need: nat)
    requires SameFit(blocks, rest, need) && WalkRead(m, rest) && (|rest| == 1 || GapFits(rest, need))
    ensures Pred(blocks, need) == rest[0] && HeaderAt(m, Pred(blocks, need), Succ(blocks, need))
  {
  }

  class Allocator {
    const heapStart: uint32
    const heapEnd: uint32
    const mem: array<uint32>
    var head: uint32
    var allocatedSize: uint32
    var allocatedChunks: uint32
    ghost var blocks: seq<Block>

    ghost predicate Valid()
      reads this, mem
    {
      && mem.Length == TWO32 && heapStart % 4 == 0 && 0 < heapStart <= heapEnd
      && InOrder(mem[..], blocks, heapStart, head, allocatedSize, allocatedChunks)
    }

    constructor (heapStart: uint32, heapEnd: uint32, mem: array<uint32>)
      requires mem.Length == TWO32 && heapStart % 4 == 0 && 0 < heapStart <= heapEnd
      ensures Valid() && blocks == [] && this.mem == mem && this.heapStart == heapStart && this.heapEnd == heapEnd
    {
      this.heapStart, this.heapEnd, this.mem := heapStart, heapEnd, mem;
      head, allocatedSize, allocatedChunks := 0, 0, 0;
      blocks := [];
    }

    /** get_current_heap_size */
    function CurrentHeapSize(): uint32
      reads this
    {
      ToU32(allocatedSize + allocatedChunks * HEADER)
    }

    /** The counters never wrap while the list is in order. */
    lemma HeapSizeExact()
      requires Valid()
      ensures CurrentHeapSize() == SumSizes(blocks) + HEADER * |blocks|
    {
      SumFits(blocks, heapStart);
    }

    /** One cell written. */
    method Write(at: uint32, value: uint32)
      requires mem.Length == TWO32
      modifies mem
      ensures mem[..] == old(mem[..])[at := value]
    {
      mem[at] := value;
    }

    /** find_free_chunk_predecessor */
    method FindFreeChunkPredecessor(size: uint32) returns (chunk: uint32)
      requires Valid() && blocks != []
      ensures chunk == Pred(blocks, Need(size)).addr
      ensures HeaderAt(mem[..], Pred(blocks, Need(size)), Succ(blocks, Need(size)))
    {
      hide Layout, Linked, SumSizes, Pred, Succ;
      chunk := head;
      ghost var rest := blocks;
      WalkBegins(mem[..], blocks, heapStart, chunk);
      WalkReads(mem[..], rest, chunk);
      while mem[chunk + NEXT_FIELD] != 0
        invariant WalkAt(mem[..], rest, chunk) && WalkRead(mem[..], rest)
        invariant SameFit(blocks, rest, Need(size))
        decreases |rest|
      {
        WalkReads(mem[..], rest, chunk);
        if Space(chunk) >= Need(size) {
          FitHere(mem[..], blocks, rest, Need(size));
          return;
        }
        FitBehind(blocks, rest, Need(size));
        chunk := mem[chunk + NEXT_FIELD];
        rest := rest[1..];
        WalkReads(mem[..], rest, chunk);
      }
      FitHere(mem[..], blocks, rest, Need(size));
    }

    /** The space between a chunk and the next one. */
    function Space(chunk: uint32): (space: uint32)
      requires mem.Length == TWO32 && chunk + HEADER <= TWO32 && mem[chunk] + mem[chunk + SIZE_FIELD] < TWO32
      reads mem
    {
      ToU32(mem[chunk + NEXT_FIELD] as int - AlignPtr(mem[chunk] as int + mem[chunk + SIZE_FIELD]))
    }

    /** Whether the volume test of kmalloc admits a chunk of this (rounded) size. */
    predicate WithinCapacity(size: uint32)
      reads this
      requires heapStart <= heapEnd
    {
      ToU32(CurrentHeapSize() + size + HEADER) < heapEnd - heapStart
    }

    /** kmalloc when there are chunks: the first fitting predecessor gets linked to the place behind it. */
    method LinkBehind(size: uint32) returns (ptr: uint32, next: uint32)
      requires Valid() && blocks != []
      modifies mem
      ensures ptr == ToU32(HeaderPlace(blocks, heapStart, size) + HEADER) && next == Succ(blocks, Need(size))
      ensures LinkedTo(old(mem[..]), mem[..], blocks, Need(size))
    {
      PredIsBehind(blocks, heapStart, Need(size));
      var previous := FindFreeChunkPredecessor(size);
      ghost var p, m := Pred(blocks, Need(size)), mem[..];
      next := mem[previous + NEXT_FIELD];
      AlignedEnd(p, heapStart);
      var end: uint32 := mem[previous] as int + mem[previous + SIZE_FIELD];
      mem[previous + NEXT_FIELD] := AlignPtr(end);
      assert mem[..] == m[previous + NEXT_FIELD := end];
      ptr := ToU32(mem[previous + NEXT_FIELD] as int + HEADER);
    }

    /** kmalloc up to the volume test: the new header's place is linked in before the test is made. */
    method LinkNew(size: uint32) returns (ptr: uint32, next: uint32)
      requires Valid()
      modifies this`head, mem
      ensures ptr == ToU32(HeaderPlace(blocks, heapStart, size) + HEADER)
      ensures head == if blocks == [] then heapStart else old(head)
      ensures next == if blocks == [] then 0 else Succ(blocks, Need(size))
      ensures LinkedIn(old(mem[..]), mem[..], blocks, size)
    {
      if head == 0 {
        ptr := ToU32(heapStart as int + HEADER);
        next := 0;
        head := heapStart;
      } else {
        ptr, next := LinkBehind(size);
      }
    }

    /** The end of kmalloc: the header of the new chunk. */
    method WriteHeader(ptr: uint32, size: uint32, next: uint32)
      requires mem.Length == TWO32
      modifies mem
      ensures HEADER <= ptr && ptr + size < TWO32 ==>
                HeaderWritten(old(mem[..]), mem[..], Block(ptr - HEADER, size), next)
    {
      var header := ToU32(ptr as int - HEADER);
      Write(header, ptr);
      Write(ToU32(header as int + SIZE_FIELD), size);
      Write(ToU32(header as int + NEXT_FIELD), next);
    }

    /** Whether a pointer is one that kmalloc returned and nobody freed. */
    ghost predicate Live(ptr: nat)
      reads this
    {
      IndexOf(blocks, ptr) < |blocks|
    }

    /**
     kmalloc. The volume test alone decides: when it fails, null is returned, but the place of the header has
     been linked in already, and the chunks in use are no longer in order (`LinkBreaksList`). When it admits a
     chunk that ends below the top of the address space, the list has the new chunk, first fit, and only its
     header and its predecessor's link were written. It also admits some chunks that do not (`WrongGrantIff`).
     */
    method Kmalloc(size: uint32) returns (ptr: uint32)
      requires Valid()
      modifies this, mem
      ensures ptr == if old(WithinCapacity(AlignSize(size)))
                     then ToU32(HeaderPlace(old(blocks), heapStart, AlignSize(size)) + HEADER) else 0
      ensures !old(WithinCapacity(AlignSize(size))) ==>
                && (Valid() <==> LinkStays(blocks, Need(AlignSize(size)))) && blocks == old(blocks)
                && allocatedSize == old(allocatedSize) && allocatedChunks == old(allocatedChunks)
      ensures old(WithinCapacity(AlignSize(size))) ==>
                && allocatedSize == ToU32(old(allocatedSize) as int + AlignSize(size))
                && allocatedChunks == ToU32(old(allocatedChunks) as int + 1)
      ensures old(Fits(blocks, heapStart, AlignSize(size))) ==>
                && (ptr != 0 <==> old(WithinCapacity(AlignSize(size)))) && (Valid() <==> ptr != 0)
                && AllocFrame(old(mem[..]), mem[..], old(blocks), heapStart, AlignSize(size))
                && (ptr != 0 ==>
                      && ptr == NewAddr(old(blocks), heapStart, AlignSize(size)) + HEADER
                      && Allocated(old(mem[..]), mem[..], old(blocks), blocks, heapStart, AlignSize(size)))
    {
      AlignSizeCovers(size);
      ptr := Allocate(AlignSize(size));
    }

    /** kmalloc of a size that is rounded already. */
    method Allocate(size: uint32) returns (ptr: uint32)
      requires Valid() && size % 4 == 0 && size >= 8
      modifies this, mem
      ensures ptr == if old(WithinCapacity(size)) then ToU32(HeaderPlace(old(blocks), heapStart, size) + HEADER) else 0
      ensures !old(WithinCapacity(size)) ==>
                && (Valid() <==> LinkStays(blocks, Need(size))) && blocks == old(blocks)
                && allocatedSize == old(allocatedSize) && allocatedChunks == old(allocatedChunks)
                && (Fits(blocks, heapStart, size) ==>
                      !Valid() && AllocFrame(old(mem[..]), mem[..], blocks, heapStart, size))
      ensures old(WithinCapacity(size)) ==>
                && allocatedSize == ToU32(old(allocatedSize) as int + size)
                && allocatedChunks == ToU32(old(allocatedChunks) as int + 1)
                && (Fits(old(blocks), heapStart, size) ==>
                      && Valid() && ptr == NewAddr(old(blocks), heapStart, size) + HEADER
                      && Allocated(old(mem[..]), mem[..], old(blocks), blocks, heapStart, size))
    {
      hide Layout, Linked, SumSizes, Inserted, Removed, AllocFrame, FreeFrame, SamePayloads;
      ghost var m := mem[..];
      var p, next := LinkNew(size);
      var heapSizeAfter := ToU32(CurrentHeapSize() as int + size + HEADER);
      if heapSizeAfter >= heapEnd - heapStart {
        if blocks != [] { LinkBreaksList(m, blocks, heapStart, Need(size)); }
        LinkIsFrame(m, mem[..], blocks, heapStart, size);
        return 0;
      }
      AddChunk(p, size, next, m);
      ptr := p;
    }

    /** The end of kmalloc: the counters and the header of the new chunk. */
    method AddChunk(ptr: uint32, size: uint32, next: uint32, ghost m: Memory)
      requires mem.Length == TWO32 == |m| && heapStart % 4 == 0 && 0 < heapStart <= heapEnd
      requires Layout(blocks, heapStart) && Linked(m, blocks) && size % 4 == 0 && size >= 8
      requires ptr == ToU32(HeaderPlace(blocks, heapStart, size) + HEADER)
      requires next == if blocks == [] then 0 else Succ(blocks, Need(size))
      requires head == if blocks == [] then heapStart else FirstAddr(blocks)
      requires allocatedSize == SumSizes(blocks) && allocatedChunks == |blocks|
      requires LinkedIn(m, mem[..], blocks, size)
      modifies this, mem
      ensures allocatedSize == ToU32(old(allocatedSize) as int + size)
      ensures allocatedChunks == ToU32(old(allocatedChunks) as int + 1)
      ensures Fits(old(blocks), heapStart, size) ==>
                && Valid() && ptr == NewAddr(old(blocks), heapStart, size) + HEADER
                && Allocated(m, mem[..], old(blocks), blocks, heapStart, size)
    {
      hide Layout, Linked, SumSizes, Inserted, Removed, AllocFrame, FreeFrame, SamePayloads;
      ghost var m1 := mem[..];
      allocatedSize := ToU32(allocatedSize as int + size);
      allocatedChunks := ToU32(allocatedChunks as int + 1);
      WriteHeader(ptr, size, next);
      if Fits(blocks, heapStart, size) {
        FitsPlainly(blocks, heapStart, size);
        ChunkAdded(m, m1, mem[..], blocks, heapStart, size);
        blocks := Inserted(blocks, heapStart, size);
      }
    }

    /** find_chunk_by_ptr: the header of a live chunk, or 0. */
    method FindChunkByPtr(ptr: uint32) returns (chunk: uint32)
      requires Valid()
      ensures chunk == if ptr != 0 && Live(ptr) then blocks[IndexOf(blocks, ptr)].addr else 0
      ensures chunk != 0 ==>
                HeaderAt(mem[..], blocks[IndexOf(blocks, ptr)], FirstAddr(blocks[IndexOf(blocks, ptr) + 1..]))
    {
      if ptr == 0 || head == 0 {
        return 0;
      }
      var temp := head;
      ghost var i, start := 0, heapStart as nat;
      while mem[temp] != ptr && mem[temp + NEXT_FIELD] != 0
        invariant 0 <= i < |blocks| && temp == blocks[i].addr && start > 0
        invariant Layout(blocks[i..], start) && Linked(mem[..], blocks[i..]) && temp + HEADER < TWO32
        invariant IndexOf(blocks, ptr) == i + IndexOf(blocks[i..], ptr)
        decreases |blocks| - i
      {
        assert blocks[i..][1..] == blocks[i + 1..];
        temp := mem[temp + NEXT_FIELD];
        start := blocks[i].End();
        i := i + 1;
      }
      assert blocks[i..][1..] == blocks[i + 1..];
      chunk := if mem[temp] != ptr then 0 else temp;
    }

    /** The loop of kfree: the chunk in front of the one to free. */
    method FindInFrontOf(ptr: uint32) returns (temp: uint32)
      requires Valid() && Live(ptr) && IndexOf(blocks, ptr) > 0
      ensures var k := IndexOf(blocks, ptr);
              && temp == blocks[k - 1].addr
              && HeaderAt(mem[..], blocks[k - 1], blocks[k].addr)
              && HeaderAt(mem[..], blocks[k], FirstAddr(blocks[k + 1..]))
    {
      temp := head;
      ghost var i, k, start := 0, IndexOf(blocks, ptr), heapStart as nat;
      while mem[temp + NEXT_FIELD] != 0 && mem[mem[temp + NEXT_FIELD]] != ptr
        invariant 0 <= i < k && temp == blocks[i].addr && start > 0
        invariant Layout(blocks[i..], start) && Linked(mem[..], blocks[i..])
        invariant k == i + IndexOf(blocks[i..], ptr) && temp + HEADER < TWO32
        decreases k - i
      {
        assert blocks[i..][1..] == blocks[i + 1..] && blocks[i + 1..][1..] == blocks[i + 2..];
        temp := mem[temp + NEXT_FIELD];
        start := blocks[i].End();
        i := i + 1;
      }
      assert blocks[i..][1..] == blocks[i + 1..] && blocks[i + 1..][1..] == blocks[i + 2..];
    }

    /** kfree of the first chunk. */
    method FreeHead()
      requires Valid() && blocks != []
      modifies this
      ensures Valid() && blocks == Removed(old(blocks), 0)
    {
      RemovedLayout(blocks, heapStart, 0);
      RemovedIsLinked(mem[..], mem[..], blocks, heapStart, 0);
      SumFits(blocks, heapStart);
      allocatedChunks := allocatedChunks - 1;
      allocatedSize := allocatedSize - mem[head + SIZE_FIELD];
      head := mem[head + NEXT_FIELD];
      blocks := Removed(blocks, 0);
    }

    /** kfree of a chunk that has another one in front of it. */
    method FreeBehind(ptr: uint32)
      requires Valid() && Live(ptr) && IndexOf(blocks, ptr) > 0
      modifies this, mem
      ensures Valid() && blocks == Removed(old(blocks), IndexOf(old(blocks), ptr))
      ensures FreeFrame(old(mem[..]), mem[..], old(blocks), IndexOf(old(blocks), ptr))
    {
      hide Layout, Linked, SumSizes, Inserted, Removed, AllocFrame, FreeFrame, SamePayloads;
      ghost var k, m := IndexOf(blocks, ptr), mem[..];
      SumFits(blocks, heapStart);
      var temp := FindInFrontOf(ptr);
      RemovedInOrder(m, blocks, heapStart, k);
      var found := mem[temp + NEXT_FIELD];
      var foundSize := mem[found + SIZE_FIELD];
      var next := mem[found + NEXT_FIELD];
      Write(temp + NEXT_FIELD, next);
      allocatedChunks := allocatedChunks - 1;
      allocatedSize := allocatedSize - foundSize;
      blocks := Removed(blocks, k);
    }

    /** kfree of a live pointer or null: the chunk leaves the list, only one link is rewritten, and every
        payload keeps its contents. */
    method Kfree(ptr: uint32)
      requires Valid() && (ptr == 0 || Live(ptr))
      modifies this, mem
      ensures Valid()
      ensures ptr == 0 ==> blocks == old(blocks) && mem[..] == old(mem[..])
      ensures ptr != 0 ==>
                var i := IndexOf(old(blocks), ptr);
                blocks == Removed(old(blocks), i) && FreeFrame(old(mem[..]), mem[..], old(blocks), i)
      ensures SamePayloads(old(mem[..]), mem[..], old(blocks))
    {
      EndsBelow(blocks, heapStart);
      if ptr == 0 {
        return;
      }
      ghost var m, before := mem[..], blocks;
      if mem[head] == ptr {
        FreeHead();
      } else {
        FreeBehind(ptr);
      }
      FreeSparesAll(m, mem[..], before, heapStart, IndexOf(before, ptr));
    }

    /** The tail branch of krealloc: the last chunk changes its size in place, without any test. */
    method ResizeTail(chunk: uint32, newSize: uint32)
      requires Valid() && blocks != [] && chunk == blocks[|blocks| - 1].addr
      requires newSize % 4 == 0 && newSize >= 8 && chunk + HEADER + newSize < TWO32
      modifies this, mem
      ensures Valid() && blocks == Resized(old(blocks), newSize)
      ensures mem.Length == TWO32 && mem[..] == old(mem[..])[chunk + SIZE_FIELD := newSize]
    {
      hide Layout, Linked;
      ghost var m := mem[..];
      ResizedInOrder(m, blocks, heapStart, head, allocatedChunks, newSize);
      var addend := ToU32(newSize - mem[chunk + SIZE_FIELD]);
      Addend(mem[chunk + SIZE_FIELD], newSize, mem[chunk + SIZE_FIELD], newSize);
      Addend(mem[chunk + SIZE_FIELD], newSize, allocatedSize, SumSizes(Resized(blocks, newSize)));
      mem[chunk + SIZE_FIELD] := ToU32(mem[chunk + SIZE_FIELD] as int + addend);
      allocatedSize := ToU32(allocatedSize as int + addend);
      assert mem[..] == m[chunk + SIZE_FIELD := newSize];
      blocks := Resized(blocks, newSize);
    }

    /** The memmove of krealloc, into another chunk with room for it. */
    method CopyPayload(to: uint32, from: uint32, size: uint32, ghost b: Block, ghost c: Block)
      requires Valid() && b in blocks && c in blocks && b != c && RoomFor(blocks, c, b.size)
      requires from == b.Ptr() && to == c.Ptr() && size == b.size
      modifies mem
      ensures Valid() && mem.Length == TWO32
      ensures forall d | d in blocks && d != c :: SamePayload(old(mem[..]), mem[..], d)
      ensures PayloadMoved(old(mem[..]), mem[..], from, to, size)
    {
      ghost var m := mem[..];
      LayoutHas(blocks, heapStart, b);
      LayoutHas(blocks, heapStart, c);
      RoomIsShort(blocks, heapStart, b, c);
      ShortMovesAreSafe(to, from, size);
      CopySparesPayloads(m, blocks, heapStart, c, m[from..from + size]);
      Memmove(mem, to, from, size);
      SpliceSelf(m, to, m[from..from + size]);
    }

    /** The copy that krealloc makes when there is a chunk to move. */
    method CopyCurrent(to: uint32, ptr: uint32, current: uint32, ghost before: seq<Block>, ghost m0: Memory,
        ghost c: Block)
      requires Valid() && to == c.Ptr() && NewAmong(before, blocks, c)
      requires CurrentIs(before, ptr, current) && RoomFor(blocks, c, SizeOf(before, ptr))
      requires SamePayloads(m0, mem[..], before)
      modifies mem
      ensures Valid() && SamePayloads(m0, mem[..], before)
      ensures ptr != 0 ==> PayloadMoved(m0, mem[..], ptr, to, SizeOf(before, ptr))
    {
      if current != 0 {
        ghost var b, m1 := before[IndexOf(before, ptr)], mem[..];
        assert b in before && b in blocks;
        LayoutHas(blocks, heapStart, b);
        HeaderIn(m1, blocks, b);
        CopyPayload(to, ptr, mem[current + SIZE_FIELD], b, c);
        SamePayloadsTrans(m0, m1, mem[..], before, blocks, c);
        SamePayloadMoved(m0, m1, mem[..], b, to);
      }
    }

    /** krealloc up to the release of the old chunk. */
    method AllocateCopy(ptr: uint32, current: uint32, size: uint32) returns (newPtr: uint32, ghost c: Block)
      requires Valid() && MoveFits(blocks, heapStart, ptr, AlignSize(size)) && CurrentIs(blocks, ptr, current)
      modifies this, mem
      ensures newPtr != 0 <==> old(WithinCapacity(AlignSize(size)))
      ensures Valid() <==> newPtr != 0
      ensures newPtr != 0 ==>
                && newPtr == NewAddr(old(blocks), heapStart, AlignSize(size)) + HEADER
                && blocks == Inserted(old(blocks), heapStart, AlignSize(size))
                && c == Block(newPtr - HEADER, AlignSize(size)) && NewAmong(old(blocks), blocks, c)
                && SamePayloads(old(mem[..]), mem[..], old(blocks))
                && (ptr != 0 ==> PayloadMoved(old(mem[..]), mem[..], ptr, newPtr, old(SizeOf(blocks, ptr))))
    {
      hide Layout, Linked, SumSizes, Inserted, AllocFrame, SamePayloads, AlignSize;
      ghost var before, m0 := blocks, mem[..];
      c := Block(0, 0);
      newPtr := Kmalloc(size);
      if newPtr == 0 {
        return;
      }
      c := Block(newPtr - HEADER, AlignSize(size));
      InsertedHas(before, heapStart, AlignSize(size));
      AlignSizeCovers(size);
      RoomForNew(before, heapStart, AlignSize(size), SizeOf(before, ptr));
      CopyCurrent(newPtr, ptr, current, before, m0, c);
    }

    /**
     krealloc. The tail changes its size in place, without a capacity test. Any other chunk, and null,
     gets a new chunk, first fit, whose first cells are the old contents, as many as it holds; the old chunk is
     freed. Every other payload is kept. The request is rounded once for the tail and twice for a move. As many
     cells as the old chunk has are copied even into a smaller one: `RoomForNew` and `RoomIff` say when the
     other chunks survive that.
     */
    method Krealloc(ptr: uint32, size: uint32) returns (newPtr: uint32)
      requires Valid() && (ptr == 0 || Live(ptr)) && ResizeFits(blocks, heapStart, ptr, size)
      modifies this, mem
      ensures newPtr != 0 <==> old(IsTail(blocks, ptr) || WithinCapacity(AlignSize(AlignSize(size))))
      ensures Valid() <==> newPtr != 0
      ensures newPtr != 0 ==>
                && newPtr == (if IsTail(old(blocks), ptr) then ptr as int
                              else NewAddr(old(blocks), heapStart, AlignSize(AlignSize(size))) + HEADER)
                && blocks == Reallocated(old(blocks), heapStart, ptr, size)
                && OthersKept(old(mem[..]), mem[..], old(blocks), ptr)
                && (ptr != 0 && IsTail(old(blocks), ptr) ==>
                      PayloadMoved(old(mem[..]), mem[..], ptr, newPtr, old(SizeOf(blocks, ptr))))
                && (ptr != 0 && !IsTail(old(blocks), ptr) ==>
                      PayloadMoved(old(mem[..]), mem[..], ptr, newPtr,
                                   KeptSize(old(blocks), ptr, AlignSize(AlignSize(size)))))
    {
      var newSize := AlignSize(size);
      ghost var before, m0 := blocks, mem[..];
      var current := FindChunkByPtr(ptr);
      if ptr != 0 { LiveIs(blocks, heapStart, ptr); }
      if current != 0 && mem[current + NEXT_FIELD] == 0 {
        ResizeTail(current, newSize);
        TailKeepsPayloads(m0, before, heapStart, ptr, newSize);
        return ptr;
      }
      newPtr := MoveChunk(ptr, current, newSize);
    }

    /** The part of krealloc that moves a chunk. */
    method MoveChunk(ptr: uint32, current: uint32, size: uint32) returns (newPtr: uint32)
      requires Valid() && MoveFits(blocks, heapStart, ptr, AlignSize(size)) && CurrentIs(blocks, ptr, current)
      modifies this, mem
      ensures newPtr != 0 <==> old(WithinCapacity(AlignSize(size)))
      ensures Valid() <==> newPtr != 0
      ensures newPtr != 0 ==>
                && newPtr == NewAddr(old(blocks), heapStart, AlignSize(size)) + HEADER
                && blocks == Without(Inserted(old(blocks), heapStart, AlignSize(size)), ptr)
                && ContentsMoved(old(mem[..]), mem[..], old(blocks), ptr, newPtr, AlignSize(size))
    {
      hide InOrder, Inserted, Without, ContentsMoved, PayloadMoved, SamePayloads, IndexOf;
      ghost var before, m0 := blocks, mem[..];
      ghost var c: Block;
      newPtr, c := AllocateCopy(ptr, current, size);
      if newPtr == 0 {
        return;
      }
      Release(ptr, before, m0, c);
      assert newPtr == c.Ptr();
    }

    /** The end of krealloc: the old chunk is freed, its contents being in the new one. */
    method Release(ptr: uint32, ghost before: seq<Block>, ghost m0: Memory, ghost c: Block)
      requires Valid() && NewAmong(before, blocks, c) && SamePayloads(m0, mem[..], before)
      requires ptr == 0 || IndexOf(before, ptr) < |before|
      requires ptr != 0 ==> PayloadMoved(m0, mem[..], ptr, c.Ptr(), SizeOf(before, ptr))
      modifies this, mem
      ensures Valid() && blocks == Without(old(blocks), ptr)
      ensures ContentsMoved(m0, mem[..], before, ptr, c.Ptr(), c.size)
    {
      ghost var m2, between := mem[..], blocks;
      StaysLive(before, between, heapStart, ptr, c);
      Kfree(ptr);
      ReleaseKeepsPayloads(m0, m2, mem[..], before, between, ptr, c);
    }

    /** A client's write into a payload. */
    method Store(at: uint32, value: uint32)
      requires Valid() && InPayload(blocks, at)
      modifies mem
      ensures Valid() && mem.Length == TWO32 && mem[..] == old(mem[..])[at := value]
    {
      ghost var m := mem[..];
      Write(at, value);
      PayloadWriteKeepsLinks(m, mem[..], blocks, heapStart);
    }

    /** A chunk allocated and freed again: the list and both counters are what they were. */
    method AllocateThenFree(size: uint32)
      requires Valid() && Fits(blocks, heapStart, AlignSize(size))
      requires WithinCapacity(AlignSize(size))
      modifies this, mem
      ensures Valid() && blocks == old(blocks)
      ensures allocatedSize == old(allocatedSize) && allocatedChunks == old(allocatedChunks)
    {
      ghost var before := blocks;
      InsertThenRemove(before, heapStart, AlignSize(size));
      var ptr := Kmalloc(size);
      IndexOfIs(blocks, heapStart, Place(before, AlignSize(size)));
      Kfree(ptr);
    }

    /** The test is made in 32-bit arithmetic: it also admits what makes the volume reach 2^32, and wrap to less
        than the heap holds. */
    lemma WrongGrantIff(size: uint32)
      requires Valid()
      ensures WithinCapacity(size) <==>
                || Admits(blocks, size, heapEnd - heapStart)
                || TWO32 <= Volume(blocks) + size + HEADER < TWO32 + heapEnd - heapStart
                || 2 * TWO32 <= Volume(blocks) + size + HEADER < 2 * TWO32 + heapEnd - heapStart
    {
      HeapSizeExact();
      SumFits(blocks, heapStart);
    }

    /** There is such a request whatever is in use, 0xfffffff0 bytes when nothing is. */
    lemma WrongGrant()
      requires Valid() && heapStart < heapEnd && Volume(blocks) + 24 <= TWO32
      ensures var size := TWO32 - Volume(blocks) - 16;
              && WithinCapacity(AlignSize(size)) && !Admits(blocks, AlignSize(size), heapEnd - heapStart)
              && (blocks == [] ==> size == 0xffff_fff0)
    {
      VolumeInFours(blocks, heapStart);
      var size := TWO32 - Volume(blocks) - 16;
      assert size % 4 == 0 && AlignSize(size) == size + 4;
      WrongGrantIff(AlignSize(size));
    }

    /** The volume test in terms of the list. */
    lemma CapacityIs(size: uint32)
      requires Valid() && Fits(blocks, heapStart, size) && size % 4 == 0 && size >= 8
      ensures WithinCapacity(size) <==> Admits(blocks, size, heapEnd - heapStart)
    {
      HeapSizeExact();
      InsertedLayout(blocks, heapStart, heapStart, size);
      SumFits(Inserted(blocks, heapStart, size), heapStart);
    }

    method ReallocStep(ptr: uint32, size: uint32)
      requires Valid() && Allowed(blocks, heapStart, heapEnd - heapStart, Realloc(ptr, size))
      modifies this, mem
      ensures Valid() && blocks == Reallocated(old(blocks), heapStart, ptr, size)
      ensures OthersKept(old(mem[..]), mem[..], old(blocks), ptr)
    {
      hide Layout, Linked, SumSizes, Inserted, SamePayload, PayloadMoved;
      if !IsTail(blocks, ptr) { CapacityIs(AlignSize(AlignSize(size))); }
      var newPtr := Krealloc(ptr, size);
    }

    /** One call by a client, or one write into a payload. */
    method Step(op: Op)
      requires Valid() && Allowed(blocks, heapStart, heapEnd - heapStart, op)
      modifies this, mem
      ensures Valid() && blocks == After(old(blocks), heapStart, op)
      ensures UndisturbedKept(old(mem[..]), mem[..], old(blocks), op)
    {
      ghost var before, m := blocks, mem[..];
      match op
      case Malloc(size) =>
        CapacityIs(AlignSize(size));
        var ptr := Kmalloc(size);
      case Free(ptr) =>
        Kfree(ptr);
      case Realloc(ptr, size) =>
        ReallocStep(ptr, size);
      case Store(at, value) =>
        Store(at, value);
        EndsBelow(before, heapStart);
    }

    /**
     Any run of successful calls and payload writes: the list in memory stays in order, it is the list
     that the calls describe, and a chunk that no call frees, moves or writes to keeps its contents.
     */
    method Run(ops: seq<Op>)
      requires Valid() && RunAllowed(blocks, heapStart, heapEnd - heapStart, ops)
      modifies this, mem
      ensures Valid() && blocks == AfterRun(old(blocks), heapStart, ops)
      ensures forall b | b in old(blocks) && AllUndisturbed(b, ops) ::
                b in blocks && SamePayload(old(mem[..]), mem[..], b)
    {
      var i := 0;
      EndsBelow(blocks, heapStart);
      while i < |ops|
        invariant 0 <= i <= |ops| && Valid()
        invariant RunAllowed(blocks, heapStart, heapEnd - heapStart, ops[i..])
        invariant AfterRun(blocks, heapStart, ops[i..]) == AfterRun(old(blocks), heapStart, ops)
        invariant forall b | b in old(blocks) && AllUndisturbed(b, ops[..i]) ::
                    b in blocks && SamePayload(old(mem[..]), mem[..], b)
      {
        ghost var before, m := blocks, mem[..];
        assert ops[i..][1..] == ops[i + 1..];
        Step(ops[i]);
        KeptOnceMore(old(mem[..]), m, mem[..], old(blocks), before, blocks, heapStart, heapEnd - heapStart, ops, i);
        i := i + 1;
      }
      assert ops[..i] == ops;
    }
  }

  // ----- Runs

  /** A call of a client, or a write into a payload. */
  datatype Op = Malloc(size: uint32) | Free(ptr: uint32) | Realloc(ptr: uint32, size: uint32)
              | Store(at: uint32, value: uint32)

  /** The calls that meet their obligations and succeed. */
  ghost predicate Allowed(blocks: seq<Block>, start: nat, capacity: nat, op: Op) {
    match op
    case Malloc(size) =>
      && Fits(blocks, start, AlignSize(size))
      && Admits(blocks, AlignSize(size), capacity)
    case Free(ptr) => ptr == 0 || IndexOf(blocks, ptr) < |blocks|
    case Realloc(ptr, size) =>
      && (ptr == 0 || IndexOf(blocks, ptr) < |blocks|) && ResizeFits(blocks, start, ptr, size)
      && (IsTail(blocks, ptr) || Admits(blocks, AlignSize(AlignSize(size)), capacity))
    case Store(at, _) => InPayload(blocks, at)
  }

  function After(blocks: seq<Block>, start: nat, op: Op): seq<Block> {
    match op
    case Malloc(size) => Inserted(blocks, start, AlignSize(size))
    case Free(ptr) => Without(blocks, ptr)
    case Realloc(ptr, size) => Reallocated(blocks, start, ptr, size)
    case Store(_, _) => blocks
  }

  ghost predicate RunAllowed(blocks: seq<Block>, start: nat, capacity: nat, ops: seq<Op>)
    decreases |ops|
  {
    ops == [] ||
    (Allowed(blocks, start, capacity, ops[0]) && RunAllowed(After(blocks, start, ops[0]), start, capacity, ops[1..]))
  }

  function AfterRun(blocks: seq<Block>, start: nat, ops: seq<Op>): seq<Block>
    decreases |ops|
  {
    if ops == [] then blocks else AfterRun(After(blocks, start, ops[0]), start, ops[1..])
  }

  /** Whether a call leaves a chunk alone. */
  predicate Undisturbed(b: Block, op: Op) {
    match op
    case Malloc(_) => true
    case Free(ptr) => ptr != b.Ptr()
    case Realloc(ptr, _) => ptr != b.Ptr()
    case Store(at, _) => !(b.Ptr() <= at < b.End())
  }

  ghost predicate AllUndisturbed(b: Block, ops: seq<Op>) {
    forall op | op in ops :: Undisturbed(b, op)
  }

  ghost predicate UndisturbedKept(m: Memory, m': Memory, blocks: seq<Block>, op: Op) {
    forall b | b in blocks && Undisturbed(b, op) :: SamePayload(m, m', b)
  }

  lemma EndsBelow(blocks: seq<Block>, start: nat)
    requires Layout(blocks, start)
    ensures forall b | b in blocks :: b.End() < TWO32
  {
    forall b | b in blocks ensures b.End() < TWO32 {
      LayoutHas(blocks, start, b);
    }
  }

  /** A chunk that a call leaves alone stays in the list. */
  lemma UndisturbedStays(blocks: seq<Block>, start: nat, capacity: nat, op: Op, b: Block)
    requires Layout(blocks, start) && b in blocks && Undisturbed(b, op) && start % 4 == 0
    requires Allowed(blocks, start, capacity, op)
    ensures b in After(blocks, start, op)
  {
    match op
    case Malloc(size) =>
      InsertedLayout(blocks, start, start, AlignSize(size));
      InsertedHas(blocks, start, AlignSize(size));
    case Free(ptr) => WithoutHas(blocks, start, ptr, b);
    case Realloc(ptr, size) => ReallocatedHas(blocks, start, ptr, size, b);
    case Store(_, _) =>
  }

  lemma ReallocatedHas(blocks: seq<Block>, start: nat, ptr: nat, size: uint32, b: Block)
    requires Layout(blocks, start) && b in blocks && b.Ptr() != ptr
    requires start % 4 == 0 && ResizeFits(blocks, start, ptr, size)
    ensures b in Reallocated(blocks, start, ptr, size)
  {
    hide SumSizes, Removed, Inserted, Without, Resized, MoreRoom, AlignSize;
    AlignSizeCovers(AlignSize(size));
    if IsTail(blocks, ptr) {
      ResizedHas(blocks, AlignSize(size), b);
    } else {
      var moved := AlignSize(AlignSize(size));
      InsertedLayout(blocks, start, start, moved);
      InsertedHas(blocks, start, moved);
      WithoutHas(Inserted(blocks, start, moved), start, ptr, b);
    }
  }

  lemma ResizedHas(blocks: seq<Block>, size: nat, b: Block)
    requires b in blocks && b != blocks[|blocks| - 1]
    ensures b in Resized(blocks, size)
  {
    var i :| 0 <= i < |blocks| && blocks[i] == b;
    assert Resized(blocks, size)[i] == b;
  }

  lemma WithoutHas(blocks: seq<Block>, start: nat, ptr: nat, b: Block)
    requires Layout(blocks, start) && b in blocks && b.Ptr() != ptr
    ensures b in Without(blocks, ptr)
  {
    if IndexOf(blocks, ptr) < |blocks| { RemovedHas(blocks, start, IndexOf(blocks, ptr)); }
  }

  lemma KeptOnceMore(m0: Memory, m: Memory, m': Memory, first: seq<Block>, before: seq<Block>, after: seq<Block>,
      start: nat, capacity: nat, ops: seq<Op>, i: nat)
    requires i < |ops| && Layout(before, start) && after == After(before, start, ops[i])
    requires Allowed(before, start, capacity, ops[i]) && start % 4 == 0
    requires UndisturbedKept(m, m', before, ops[i])
    requires forall b | b in first && AllUndisturbed(b, ops[..i]) :: b in before && SamePayload(m0, m, b)
    ensures forall b | b in first && AllUndisturbed(b, ops[..i + 1]) :: b in after && SamePayload(m0, m', b)
  {
    forall b | b in first && AllUndisturbed(b, ops[..i + 1]) ensures b in after && SamePayload(m0, m', b) {
      assert ops[i] in ops[..i + 1] && forall op | op in ops[..i] :: op in ops[..i + 1];
      assert AllUndisturbed(b, ops[..i]) && SamePayload(m, m', b);
      UndisturbedStays(before, start, capacity, ops[i], b);
    }
  }

  lemma StaysLive(before: seq<Block>, after: seq<Block>, start: nat, ptr: nat, c: Block)
    requires Layout(after, start) && NewAmong(before, after, c)
    requires ptr == 0 || IndexOf(before, ptr) < |before|
    ensures ptr == 0 ==> Without(after, ptr) == after
    ensures ptr != 0 ==>
              IndexOf(after, ptr) < |after| && Without(after, ptr) == Removed(after, IndexOf(after, ptr))
  {
    if ptr != 0 {
      var b := before[IndexOf(before, ptr)];
      assert b in before;
      LayoutHas(after, start, b);
    }
  }

  lemma ReleaseKeepsPayloads(m: Memory, m': Memory, m'': Memory, before: seq<Block>, after: seq<Block>, ptr: nat,
                             c: Block)
    requires NewAmong(before, after, c)
    requires SamePayloads(m, m', before) && SamePayloads(m', m'', after)
    requires ptr != 0 ==> PayloadMoved(m, m', ptr, c.Ptr(), SizeOf(before, ptr))
    ensures ContentsMoved(m, m'', before, ptr, c.Ptr(), c.size)
  {
    forall b | b in before ensures SamePayload(m, m'', b) {
      assert SamePayload(m, m', b) && SamePayload(m', m'', b);
    }
    if ptr != 0 {
      var to, size, kept := c.Ptr(), SizeOf(before, ptr), KeptSize(before, ptr, c.size);
      assert SamePayload(m', m'', c);
      assert m''[to..to + kept] == m'[to..to + kept];
      assert m'[to..to + kept] == m'[to..to + size][..kept] && m[ptr..ptr + kept] == m[ptr..ptr + size][..kept];
    }
  }

  lemma TailKeepsPayloads(m: Memory, blocks: seq<Block>, start: nat, ptr: nat, size: uint32)
    requires Layout(blocks, start) && IsTail(blocks, ptr) && IndexOf(blocks, ptr) == |blocks| - 1 && |m| == TWO32
    ensures var at := blocks[|blocks| - 1].addr + SIZE_FIELD;
            && at < |m|
            && OthersKept(m, m[at := size], blocks, ptr)
            && PayloadMoved(m, m[at := size], ptr, ptr, SizeOf(blocks, ptr))
  {
    var c := blocks[|blocks| - 1];
    LayoutHas(blocks, start, c);
    var m' := m[c.addr + SIZE_FIELD := size];
    forall b | b in blocks ensures SamePayload(m, m', b) {
      LayoutHas(blocks, start, b);
      if b != c { SizeApart(blocks, start, b, c); }
    }
    assert m'[ptr..ptr + c.size] == m[ptr..ptr + c.size];
  }

  lemma SizeApart(blocks: seq<Block>, start: nat, b: Block, c: Block)
    requires Layout(blocks, start) && b in blocks && c in blocks && b != c
    ensures !(b.Ptr() <= c.addr + SIZE_FIELD < b.End())
  {
    if b.Ptr() <= c.addr + SIZE_FIELD < b.End() {
      PayloadsApart(blocks, start, b, c, c.addr + SIZE_FIELD);
      assert false;
    }
  }

  /** Every payload but one is kept. */
  ghost predicate OthersKept(m: Memory, m': Memory, blocks: seq<Block>, ptr: nat) {
    forall b | b in blocks && b.Ptr() != ptr :: SamePayload(m, m', b)
  }

  /** The contents of a chunk are in another one now, as many as this holds, and every other payload is kept. */
  ghost predicate ContentsMoved(m: Memory, m': Memory, blocks: seq<Block>, ptr: nat, to: nat, size: nat) {
    && OthersKept(m, m', blocks, ptr)
    && (ptr != 0 ==> PayloadMoved(m, m', ptr, to, KeptSize(blocks, ptr, size)))
  }

  lemma LiveIs(blocks: seq<Block>, start: nat, ptr: nat)
    requires Layout(blocks, start) && IndexOf(blocks, ptr) < |blocks| && start > 0
    ensures ptr >= start + HEADER
    ensures FirstAddr(blocks[IndexOf(blocks, ptr) + 1..]) == 0 <==> IsTail(blocks, ptr)
    ensures IsTail(blocks, ptr) <==> IndexOf(blocks, ptr) == |blocks| - 1
  {
    var i := IndexOf(blocks, ptr);
    LayoutHas(blocks, start, blocks[i]);
    if i + 1 < |blocks| {
      LayoutAt(blocks, start, i + 1);
      LayoutApart(blocks, start, i, |blocks| - 1);
    }
  }

  /** The chunk found for a pointer that krealloc gets. */
  ghost predicate CurrentIs(blocks: seq<Block>, ptr: nat, current: nat) {
    if ptr == 0 then current == 0 else
      var i := IndexOf(blocks, ptr);
      i < |blocks| && 0 < current == blocks[i].addr
  }

  lemma SamePayloadsTrans(m: Memory, m': Memory, m'': Memory, blocks: seq<Block>, more: seq<Block>, c: Block)
    requires SamePayloads(m, m', blocks) && NewAmong(blocks, more, c)
    requires forall b | b in more && b != c :: SamePayload(m', m'', b)
    ensures SamePayloads(m, m'', blocks)
  {
    forall b | b in blocks ensures SamePayload(m, m'', b) {
      assert b in more && SamePayload(m, m', b);
    }
  }

  lemma SamePayloadMoved(m: Memory, m': Memory, m'': Memory, b: Block, to: nat)
    requires SamePayload(m, m', b) && PayloadMoved(m', m'', b.Ptr(), to, b.size)
    ensures PayloadMoved(m, m'', b.Ptr(), to, b.size)
  {
    var from := b.Ptr();
    assert m[from..from + b.size] == m'[from..from + b.size];
  }

  /** The first `size` cells at `from` are found at `to` afterwards. */
  ghost predicate PayloadMoved(m: Memory, m': Memory, from: nat, to: nat, size: nat) {
    from + size <= |m| && to + size <= |m'| && m'[to..to + size] == m[from..from + size]
  }

  lemma RoomIsShort(blocks: seq<Block>, start: nat, b: Block, c: Block)
    requires Layout(blocks, start) && b in blocks && c in blocks && b != c && RoomFor(blocks, c, b.size)
    ensures b.size <= 0x8000_0000
  {
    LayoutHas(blocks, start, b);
  }

  /** Adding a 32-bit difference gives the new value, whether it grows or shrinks. */
  lemma Addend(z: uint32, w: uint32, x: uint32, y: uint32)
    requires w - z == y - x
    ensures ToU32(x + ToU32(w - z)) == y
  {
    WrapOnce(w - z);
  }

  lemma {:induction false} LinkedLast(m: Memory, blocks: seq<Block>)
    requires blocks != [] && Linked(m, blocks)
    ensures HeaderAt(m, blocks[|blocks| - 1], 0)
    decreases |blocks|
  {
    if |blocks| > 1 { LinkedLast(m, blocks[1..]); }
  }
}
