/**
 The socket buffers of the network chip: rings of 2 KB in chip memory, addressed by 16-bit pointers that
 run freely and wrap.
 */
module SocketRing {
  import opened Words
  import opened Splices

  const MEMORY: nat := 0x1_0000
  const RING: nat := 2048
  const S0_TX_BASE: nat := 0x4000
  const S0_RX_BASE: nat := 0x6000

  function TxBase(socket: nat): nat { S0_TX_BASE + socket * RING }
  function RxBase(socket: nat): nat { S0_RX_BASE + socket * RING }

  /** SN_TX_WR, SN_RX_RSR and SN_RX_RD */
  function TxWr(socket: nat): nat { 0x0024 + 0x0100 * (socket + 4) }
  function RxRsr(socket: nat): nat { 0x0026 + 0x0100 * (socket + 4) }
  function RxRd(socket: nat): nat { 0x0028 + 0x0100 * (socket + 4) }

  /** A register pair, high byte first. */
  function RegisterAt(m: seq<byte>, reg: nat): uint16
    requires reg + 2 <= |m|
  {
    m[reg] as int * 0x100 + m[reg + 1]
  }

  // ----- Rings as byte streams

  /** The cell of a stream position. */
  /** Registers lie in the chip with the highest byte first. */
  lemma RegisterIsBigEndian(m: seq<byte>, reg: nat)
    requires reg + 2 <= |m|
    ensures RegisterAt(m, reg) == BigEndian(m[reg..reg + 2])
  {
    TwoBytes(m[reg..reg + 2]);
  }

  /** Where the registers and buffers of a socket are: the registers 0x24, 0x26 and 0x28 of its block of 256, whose
      first one begins at 0x400, and its 2048 bytes of 8192 for sending and of 8192 for receiving. */
  lemma SocketMap(socket: nat)
    requires socket < 4
    ensures TxWr(socket) == 0x0424 + 256 * socket
    ensures RxRsr(socket) == TxWr(socket) + 2 && RxRd(socket) == TxWr(socket) + 4
    ensures TxBase(socket) == 0x4000 + 2048 * socket && RxBase(socket) == TxBase(socket) + 8192
    ensures TxBase(socket) + RING <= 0x6000 && RxBase(socket) + RING <= 0x8000 && RING == 2048
  {
  }

  function Cell(base: nat, position: nat): nat {
    base + position % RING
  }

  /** The stream bytes from `first` on lie in their cells. The stream began at position `origin`, where the
      pointer stood then. */
  ghost predicate Holds(m: seq<byte>, base: nat, stream: seq<byte>, origin: nat, first: int) {
    && base + RING <= |m|
    && forall p | 0 <= p < |stream| && first <= p :: m[Cell(base, origin + p)] == stream[p]
  }

  /** The transmit ring of a socket: its write pointer is the stream's end modulo 2^16, and the last 2048
      bytes of the stream are in place. */
  ghost predicate TxRing(m: seq<byte>, socket: nat, stream: seq<byte>, origin: nat) {
    && |m| == MEMORY && socket < 4
    && RegisterAt(m, TxWr(socket)) == ToU16(origin + |stream|)
    && Holds(m, TxBase(socket), stream, origin, |stream| - RING)
  }

  /** The receive ring: the read pointer is the position of the first unread byte modulo 2^16, and all unread
      bytes, at most 2048, are in place. */
  ghost predicate RxRing(m: seq<byte>, socket: nat, stream: seq<byte>, origin: nat, taken: nat) {
    && |m| == MEMORY && socket < 4 && taken <= |stream| <= taken + RING
    && RegisterAt(m, RxRd(socket)) == ToU16(origin + taken)
    && Holds(m, RxBase(socket), stream, origin, taken)
  }

  /** Nothing changed but a socket's transmit region and its write pointer. */
  ghost predicate OnlyTx(m: seq<byte>, m': seq<byte>, socket: nat) {
    && |m'| == |m|
    && forall a | 0 <= a < |m| && !(TxBase(socket) <= a < TxBase(socket) + RING)
                && !(TxWr(socket) <= a < TxWr(socket) + 2) :: m'[a] == m[a]
  }

  /** Nothing changed but a register pair. */
  ghost predicate OnlyRegister(m: seq<byte>, m': seq<byte>, reg: nat) {
    |m'| == |m| && forall a | 0 <= a < |m| && !(reg <= a < reg + 2) :: m'[a] == m[a]
  }

  /** Sending through one socket leaves every other ring, sending or receiving, as it was. */
  lemma OthersUnchanged(m: seq<byte>, m': seq<byte>, socket: nat, other: nat, stream: seq<byte>, origin: nat,
                        taken: nat)
    requires socket < 4 && OnlyTx(m, m', socket)
    ensures other != socket && TxRing(m, other, stream, origin) ==> TxRing(m', other, stream, origin)
    ensures RxRing(m, other, stream, origin, taken) ==> RxRing(m', other, stream, origin, taken)
  {
  }

  /** How far behind a position's cell, along the ring, an address of the ring lies. */
  function Behind(base: nat, position: nat, a: int): nat {
    (a - (base + position % RING) as int) % RING
  }

  lemma BehindIs(base: nat, position: nat, d: int)
    requires 0 <= RING + d < 2 * RING && position as int + d >= 0
    ensures Behind(base, position, Cell(base, position + d)) == if d >= 0 then d else d + RING
  {
  }

  /** A frame written from a position on: these cells have its bytes, and no other cell changed. */
  ghost predicate Written(m: seq<byte>, m': seq<byte>, base: nat, position: nat, frame: seq<byte>) {
    && |m'| == |m| && base + RING <= |m| && |frame| <= RING
    && forall a | 0 <= a < |m| ::
         m'[a] == if base <= a < base + RING && Behind(base, position, a) < |frame|
                  then frame[Behind(base, position, a)] else m[a]
  }

  /** Unread bytes survive: after the write the last 2048 bytes of the longer stream are in place. */
  lemma WrittenHolds(m: seq<byte>, m': seq<byte>, base: nat, stream: seq<byte>, origin: nat, frame: seq<byte>)
    requires Holds(m, base, stream, origin, |stream| - RING) && Written(m, m', base, origin + |stream|, frame)
    ensures Holds(m', base, stream + frame, origin, |stream| + |frame| - RING)
  {
    forall p | 0 <= p < |stream + frame| && |stream| + |frame| - RING <= p
      ensures m'[Cell(base, origin + p)] == (stream + frame)[p]
    {
      BehindIs(base, origin + |stream|, p - |stream|);
      assert origin + |stream| + (p - |stream|) == origin + p;
    }
  }

  /** The write in one piece, when the frame ends in front of the ring's end. */
  lemma OnePiece(m: seq<byte>, base: nat, position: nat, frame: seq<byte>)
    requires base + RING <= |m| && position % RING + |frame| <= RING
    ensures Written(m, Splice(m, base + position % RING, frame), base, position, frame)
  {
    SpliceAt(m, base + position % RING, frame);
  }

  /** The write in two pieces, up to the ring's end and from its start. */
  lemma TwoPieces(m: seq<byte>, base: nat, position: nat, frame: seq<byte>)
    requires base + RING <= |m| && position % RING + |frame| > RING && |frame| <= RING
    ensures var rest := RING - position % RING;
            Written(m, Splice(Splice(m, base + position % RING, frame[..rest]), base, frame[rest..]),
                    base, position, frame)
  {
    var rest := RING - position % RING;
    SpliceAt(m, base + position % RING, frame[..rest]);
    SpliceAt(Splice(m, base + position % RING, frame[..rest]), base, frame[rest..]);
  }

  /** The `n` cells of a ring from `offset` on, in one piece or in two. */
  function CellsFrom(m: seq<byte>, base: nat, offset: nat, n: nat): (s: seq<byte>)
    requires base + RING <= |m| && offset < RING && n <= RING
    ensures |s| == n
  {
    if offset + n <= RING then m[base + offset..base + offset + n]
    else m[base + offset..base + RING] + m[base..base + n - (RING - offset)]
  }

  /** Reading unread bytes in one piece or in two gives the stream's bytes. */
  lemma ReadPieces(m: seq<byte>, base: nat, stream: seq<byte>, origin: nat, taken: nat, n: nat)
    requires Holds(m, base, stream, origin, taken) && taken + n <= |stream| && n <= RING
    ensures CellsFrom(m, base, (origin + taken) % RING, n) == stream[taken..taken + n]
  {
    var offset := (origin + taken) % RING;
    forall k | 0 <= k < n ensures stream[taken + k] == m[Wrapped(base, offset, k)] {
      ReadPiece(m, base, stream, origin, taken, k);
    }
    CellsAre(m, base, offset, stream[taken..taken + n]);
  }

  /** The cell `k` places behind `offset`. */
  function Wrapped(base: nat, offset: nat, k: nat): (a: nat)
    requires offset < RING && k < RING
    ensures base <= a < base + RING
  {
    if offset + k < RING then base + offset + k else base + offset + k - RING
  }

  lemma ReadPiece(m: seq<byte>, base: nat, stream: seq<byte>, origin: nat, taken: nat, k: nat)
    requires Holds(m, base, stream, origin, taken) && taken + k < |stream| && k < RING
    ensures stream[taken + k] == m[Wrapped(base, (origin + taken) % RING, k)]
  {
    var p := taken + k;
    assert m[Cell(base, origin + p)] == stream[p];
    assert origin + p == origin + taken + k;
    CellFrom(base, origin + taken, k);
  }

  lemma CellsAre(m: seq<byte>, base: nat, offset: nat, part: seq<byte>)
    requires base + RING <= |m| && offset < RING && |part| <= RING
    requires forall k | 0 <= k < |part| :: part[k] == m[Wrapped(base, offset, k)]
    ensures CellsFrom(m, base, offset, |part|) == part
  {
  }

  lemma CellFrom(base: nat, position: nat, k: nat)
    requires k <= RING
    ensures position % RING + k < RING ==> Cell(base, position + k) == base + position % RING + k
    ensures RING <= position % RING + k < 2 * RING ==> Cell(base, position + k) == base + position % RING + k - RING
  {
  }

  /** Masking a 16-bit pointer gives the position's place in the ring, however often the pointer wrapped. */
  lemma MaskedPointer(position: nat)
    ensures ToU16(position) % RING == position % RING
  {
  }

  // ----- The chip

  class Chip {
    const memory: array<byte>

    ghost predicate Valid() {
      memory.Length == MEMORY
    }

    constructor (memory: array<byte>)
      requires memory.Length == MEMORY
      ensures this.memory == memory
    {
      this.memory := memory;
    }

    /** eth_write_mem, inside the memory. */
    method WriteMem(reg: nat, data: seq<byte>)
      requires Valid() && reg + |data| <= MEMORY
      modifies memory
      ensures memory[..] == Splice(old(memory[..]), reg, data)
    {
      ghost var m := memory[..];
      for i := 0 to |data|
        invariant memory[..] == Splice(m, reg, data[..i])
      {
        assert data[..i + 1] == data[..i] + [data[i]];
        SpliceAppend(m, reg, data[..i], [data[i]]);
        memory[reg + i] := data[i];
      }
      assert data[..|data|] == data;
    }

    /** eth_read_mem into a buffer, from one of its places on. */
    method ReadMem(reg: nat, buffer: array<byte>, at: nat, len: nat)
      requires Valid() && reg + len <= MEMORY && at + len <= buffer.Length && buffer != memory
      modifies buffer
      ensures buffer[..] == Splice(old(buffer[..]), at, memory[reg..reg + len])
    {
      ghost var b := buffer[..];
      for i := 0 to len
        invariant buffer[..] == Splice(b, at, memory[reg..reg + i])
        invariant memory[..] == old(memory[..])
      {
        assert memory[reg..reg + i + 1] == memory[reg..reg + i] + [memory[reg + i]];
        SpliceAppend(b, at, memory[reg..reg + i], [memory[reg + i]]);
        buffer[at + i] := memory[reg + i];
      }
    }

    /** A register pair read into two bytes and joined. */
    method ReadRegister(reg: nat) returns (value: uint16)
      requires Valid() && reg + 2 <= MEMORY
      ensures value == RegisterAt(memory[..], reg)
    {
      var bytes := new byte[2];
      ghost var b := bytes[..];
      ReadMem(reg, bytes, 0, 2);
      SpliceAll(b, memory[reg..reg + 2]);
      assert bytes[..] == memory[reg..reg + 2];
      value := bytes[0] as int * 0x100 + bytes[1];
    }

    /** add_to_socket_pointer_reg */
    method AddToPointer(reg: nat, appended: nat)
      requires Valid() && reg + 2 <= MEMORY
      modifies memory
      ensures RegisterAt(memory[..], reg) == ToU16(old(RegisterAt(memory[..], reg)) + appended)
      ensures BigEndian(memory[reg..reg + 2]) == (old(BigEndian(memory[reg..reg + 2])) + appended) % 0x1_0000
      ensures OnlyRegister(old(memory[..]), memory[..], reg)
    {
      ghost var m := memory[..];
      var pointer := ReadRegister(reg);
      var newOffset := ToU16(pointer + appended);
      var bytes: seq<byte> := [newOffset / 0x100, newOffset % 0x100];
      WriteMem(reg, bytes);
      SpliceAt(m, reg, bytes);
      assert memory[..][reg] == bytes[0] && memory[..][reg + 1] == bytes[1];
      RegisterIsBigEndian(m, reg);
      RegisterIsBigEndian(memory[..], reg);
      assert m[reg..reg + 2] == old(memory[reg..reg + 2]) && memory[..][reg..reg + 2] == memory[reg..reg + 2];
    }

    /** write_txbuf, of at most a ring's bytes, as much as the chip ever reports free. */
    method WriteTxbuf(socket: nat, frame: seq<byte>, ghost position: nat)
      requires Valid() && socket < 4 && |frame| <= RING && RegisterAt(memory[..], TxWr(socket)) == ToU16(position)
      modifies memory
      ensures Written(old(memory[..]), memory[..], TxBase(socket), position, frame)
    {
      ghost var m := memory[..];
      var pointer := ReadRegister(TxWr(socket));
      var offset := pointer % RING;
      MaskedPointer(position);
      if offset + |frame| > RING {
        var rest := RING - offset;
        TwoPieces(m, TxBase(socket), position, frame);
        WriteMem(TxBase(socket) + offset, frame[..rest]);
        WriteMem(TxBase(socket), frame[rest..]);
      } else {
        OnePiece(m, TxBase(socket), position, frame);
        WriteMem(TxBase(socket) + offset, frame);
      }
    }

    /** The part of tx_frame that appends a piece: its bytes extend the stream, wherever the ring or the
        pointer wraps. */
    method Append(socket: nat, frame: seq<byte>, ghost stream: seq<byte>, ghost origin: nat)
      requires Valid() && TxRing(memory[..], socket, stream, origin) && |frame| <= RING
      modifies memory
      ensures TxRing(memory[..], socket, stream + frame, origin)
      ensures OnlyTx(old(memory[..]), memory[..], socket)
    {
      ghost var m := memory[..];
      WriteTxbuf(socket, frame, origin + |stream|);
      ghost var m1 := memory[..];
      WrittenHolds(m, m1, TxBase(socket), stream, origin, frame);
      AddToPointer(TxWr(socket), |frame|);
      PointerMoved(m, m1, memory[..], socket, stream, origin, frame);
    }

    /**
     tx_frame of the first `size` bytes at a place in memory. `free` are the values that the free-space
     register has, one for each round, and their end counts as no free space; every send completes. What is
     appended to the stream are the bytes that lie at that place, as many as Sent says.
     */
    method TxFrame(socket: nat, source: seq<byte>, size: nat, free: seq<nat>, ghost stream: seq<byte>,
        ghost origin: nat)
      returns (sent: nat)
      requires Valid() && TxRing(memory[..], socket, stream, origin)
      requires size > 0 ==> free != []
      requires (forall k | 0 <= k < |free| :: free[k] <= RING) && Sent(free, size) <= |source|
      modifies memory
      ensures sent == Sent(free, size)
      ensures TxRing(memory[..], socket, stream + source[..sent], origin)
      ensures OnlyTx(old(memory[..]), memory[..], socket)
    {
      sent := 0;
      assert stream + source[..0] == stream;
      if size == 0 {
        return;
      }
      if free[0] >= size {
        Append(socket, source[..size], stream, origin);
        return size;
      }
      var k := 1;
      while sent < size && k < |free| && free[k] != 0
        invariant 1 <= k <= |free| && sent <= |source|
        invariant sent + Total(free[k..], size - sent) == Total(free[1..], size)
        invariant TxRing(memory[..], socket, stream + source[..sent], origin)
        invariant OnlyTx(old(memory[..]), memory[..], socket)
        decreases |free| - k
      {
        assert free[k..][1..] == free[k + 1..];
        var piece := source[sent..sent + free[k]];
        Append(socket, piece, stream + source[..sent], origin);
        assert stream + source[..sent] + piece == stream + source[..sent + free[k]];
        sent := sent + free[k];
        k := k + 1;
      }
    }

    /** The one or two reads of read_rxbuf. */
    method ReadCells(base: nat, offset: nat, buffer: array<byte>, n: nat)
      requires Valid() && base + RING <= MEMORY && offset < RING && n <= RING
      requires n <= buffer.Length && buffer != memory
      modifies buffer
      ensures buffer[..] == Splice(old(buffer[..]), 0, CellsFrom(memory[..], base, offset, n))
    {
      ghost var b := buffer[..];
      if offset + n > RING {
        var rest := RING - offset;
        ReadMem(base + offset, buffer, 0, rest);
        ReadMem(base, buffer, rest, n - rest);
        SpliceAppend(b, 0, memory[base + offset..base + RING], memory[base..base + n - rest]);
      } else {
        ReadMem(base + offset, buffer, 0, n);
      }
    }

    /** read_rxbuf, with the chip's count of unread bytes: they come in the order of the stream. */
    method ReadRxbuf(socket: nat, buffer: array<byte>, length: uint16, ghost stream: seq<byte>, ghost origin: nat,
        ghost taken: nat)
      returns (n: nat)
      requires Valid() && RxRing(memory[..], socket, stream, origin, taken)
      requires RegisterAt(memory[..], RxRsr(socket)) == |stream| - taken
      requires length <= buffer.Length && buffer != memory
      modifies buffer
      ensures n == (if |stream| - taken > length then length else |stream| - taken) && n <= buffer.Length
      ensures buffer[..n] == stream[taken..taken + n] && buffer[n..] == old(buffer[n..])
    {
      var pointer := ReadRegister(RxRd(socket));
      var offset := pointer % RING;
      MaskedPointer(origin + taken);
      var received := ReadRegister(RxRsr(socket));
      n := if received > length then length else received;
      ReadPieces(memory[..], RxBase(socket), stream, origin, taken, n);
      ghost var b := buffer[..];
      ReadCells(RxBase(socket), offset, buffer, n);
      assert CellsFrom(memory[..], RxBase(socket), offset, n) == stream[taken..taken + n];
      SpliceIs(b, 0, stream[taken..taken + n]);
    }

    /** rx_frame after the interrupt: `count` is cut to 16 bits; the pointer moves behind the bytes read. */
    method RxFrame(socket: nat, buffer: array<byte>, count: nat, ghost stream: seq<byte>, ghost origin: nat,
        ghost taken: nat)
      returns (n: nat)
      requires Valid() && RxRing(memory[..], socket, stream, origin, taken)
      requires RegisterAt(memory[..], RxRsr(socket)) == |stream| - taken
      requires count <= buffer.Length && buffer != memory
      modifies buffer, memory
      ensures n == (if |stream| - taken > ToU16(count) then ToU16(count) else |stream| - taken) && n <= buffer.Length
      ensures buffer[..n] == stream[taken..taken + n] && buffer[n..] == old(buffer[n..])
      ensures RxRing(memory[..], socket, stream, origin, taken + n)
      ensures OnlyRegister(old(memory[..]), memory[..], RxRd(socket))
    {
      n := ReadRxbuf(socket, buffer, ToU16(count), stream, origin, taken);
      ghost var m := memory[..];
      AddToPointer(RxRd(socket), n);
      ReadMoved(m, memory[..], socket, stream, origin, taken, n);
    }
  }

  lemma PointerMoved(m: seq<byte>, m1: seq<byte>, m2: seq<byte>, socket: nat, stream: seq<byte>, origin: nat,
      frame: seq<byte>)
    requires TxRing(m, socket, stream, origin) && Written(m, m1, TxBase(socket), origin + |stream|, frame)
    requires Holds(m1, TxBase(socket), stream + frame, origin, |stream| + |frame| - RING)
    requires OnlyRegister(m1, m2, TxWr(socket))
    requires RegisterAt(m2, TxWr(socket)) == ToU16(RegisterAt(m1, TxWr(socket)) + |frame|)
    ensures TxRing(m2, socket, stream + frame, origin) && OnlyTx(m, m2, socket)
  {
    assert m1[TxWr(socket)] == m[TxWr(socket)] && m1[TxWr(socket) + 1] == m[TxWr(socket) + 1];
    PointerAdds(origin + |stream|, |frame|);
    HoldsOn(m1, m2, TxBase(socket), stream + frame, origin, |stream| + |frame| - RING, |stream| + |frame| - RING);
  }

  lemma ReadMoved(m: seq<byte>, m': seq<byte>, socket: nat, stream: seq<byte>, origin: nat, taken: nat, n: nat)
    requires RxRing(m, socket, stream, origin, taken) && taken + n <= |stream|
    requires OnlyRegister(m, m', RxRd(socket))
    requires RegisterAt(m', RxRd(socket)) == ToU16(RegisterAt(m, RxRd(socket)) + n)
    ensures RxRing(m', socket, stream, origin, taken + n)
  {
    PointerAdds(origin + taken, n);
    HoldsOn(m, m', RxBase(socket), stream, origin, taken, taken + n);
  }

  /** Adding to a pointer modulo 2^16 is adding to the position. */
  lemma PointerAdds(position: nat, n: nat)
    ensures ToU16(ToU16(position) + n) == ToU16(position + n)
  {
  }

  /** What lies in the ring's own cells stays when only others change. */
  lemma HoldsOn(m: seq<byte>, m': seq<byte>, base: nat, stream: seq<byte>, origin: nat, first: int, first': int)
    requires Holds(m, base, stream, origin, first) && first <= first' && |m'| == |m|
    requires forall a | base <= a < base + RING :: m'[a] == m[a]
    ensures Holds(m', base, stream, origin, first')
  {
    forall p | 0 <= p < |stream| && first' <= p ensures m'[Cell(base, origin + p)] == stream[p] {
      CellInRing(base, origin + p);
    }
  }

  lemma CellInRing(base: nat, position: nat)
    ensures base <= Cell(base, position) < base + RING
  {
  }

  // ----- How much tx_frame sends

  /** The loop of tx_frame: each piece is as large as the free space, until nothing is left or no space is
      free. */
  function Total(free: seq<nat>, left: int): nat
    decreases |free|
  {
    if left <= 0 || free == [] || free[0] == 0 then 0 else free[0] + Total(free[1..], left - free[0])
  }

  function Sent(free: seq<nat>, size: nat): nat
    requires size > 0 ==> free != []
  {
    if size == 0 then 0 else if free[0] >= size then size else Total(free[1..], size)
  }

  function Sum(free: seq<nat>, k: nat): nat
    requires k <= |free|
  {
    if k == 0 then 0 else Sum(free, k - 1) + free[k - 1]
  }

  /** Piece `k` crosses the end of the frame: the pieces before it are positive and end in front of it. */
  ghost predicate Crosses(free: seq<nat>, size: nat, k: nat)
    requires k < |free|
  {
    Sum(free, k) < size < Sum(free, k + 1) && forall j | 0 <= j < k :: free[j] > 0
  }

  lemma {:induction false} SumTail(free: seq<nat>, k: nat)
    requires 0 < k <= |free|
    ensures Sum(free, k) == free[0] + Sum(free[1..], k - 1)
  {
    if k > 1 { SumTail(free, k - 1); } else { assert Sum(free, 1) == Sum(free, 0) + free[0]; }
  }

  lemma CrossesTail(free: seq<nat>, size: nat, k: nat)
    requires k + 1 < |free| && 0 < free[0] <= size
    ensures Crosses(free[1..], size - free[0], k) <==> Crosses(free, size, k + 1)
  {
    SumTail(free, k + 1);
    SumTail(free, k + 2);
    if Crosses(free[1..], size - free[0], k) {
      assert forall j | 0 < j < k + 1 :: free[j] == free[1..][j - 1];
    }
    if Crosses(free, size, k + 1) {
      assert forall j | 0 <= j < k :: free[1..][j] == free[j + 1];
    }
  }

  /** The loop alone sends more than it should exactly when some piece crosses the end. */
  lemma {:induction false} LoopOverruns(free: seq<nat>, size: nat)
    ensures Total(free, size) > size <==> exists k :: 0 <= k < |free| && Crosses(free, size, k)
    decreases |free|
  {
    if free != [] {
      assert Sum(free, 1) == Sum(free, 0) + free[0];
      if size > 0 && free[0] > size {
        assert Crosses(free, size, 0);
      } else if size > 0 && free[0] > 0 {
        var rest, left := free[1..], size - free[0];
        LoopOverruns(rest, left);
        if k :| 0 <= k < |rest| && Crosses(rest, left, k) {
          CrossesTail(free, size, k);
        }
        if k :| 0 <= k < |free| && Crosses(free, size, k) {
          CrossesTail(free, size, k - 1);
        }
      }
    }
  }

  /** Since a piece is sized by the free space alone, tx_frame sends bytes from behind the frame exactly when
      there is not room for the whole frame at first, and some piece of the loop crosses the frame's end. */
  lemma Overruns(free: seq<nat>, size: nat)
    requires size > 0 ==> free != []
    ensures Sent(free, size) > size <==>
              size > 0 && free[0] < size && exists k :: 0 <= k < |free[1..]| && Crosses(free[1..], size, k)
  {
    if size > 0 { LoopOverruns(free[1..], size); }
  }

  /** 3000 bytes through a ring that is always empty: 4096 bytes are sent, 1096 of them not the frame's. */
  /** What is sent: the frame in one piece when there is room for it at the first look, and otherwise whole free spaces,
      one at each look, until they make up the frame, there is no space, or there are no more looks. */
  lemma SentIs(free: seq<nat>, size: nat)
    requires size > 0 && free != []
    ensures free[0] >= size ==> Sent(free, size) == size
    ensures free[0] < size ==>
              exists k :: 0 <= k < |free| && Sent(free, size) == Sum(free[1..], k) && LooksEnd(free[1..], size, k)
  {
    var k := Looks(free[1..], size);
    LooksAre(free[1..], size);
  }

  /** After `k` looks the loop is over, and before it was not. */
  ghost predicate LooksEnd(free: seq<nat>, size: int, k: nat)
    requires k <= |free|
  {
    && (forall j | 0 <= j < k :: free[j] > 0 && Sum(free, j) < size)
    && (k == |free| || free[k] == 0 || Sum(free, k) >= size)
  }

  function Looks(free: seq<nat>, left: int): (k: nat)
    ensures k <= |free|
    decreases |free|
  {
    if left <= 0 || free == [] || free[0] == 0 then 0 else 1 + Looks(free[1..], left - free[0])
  }

  lemma {:induction false} LooksAre(free: seq<nat>, size: int)
    ensures Total(free, size) == Sum(free, Looks(free, size)) && LooksEnd(free, size, Looks(free, size))
    decreases |free|
  {
    if !(size <= 0 || free == [] || free[0] == 0) {
      var rest, k := free[1..], Looks(free[1..], size - free[0]);
      LooksAre(rest, size - free[0]);
      SumTail(free, k + 1);
      OneLookMore(free, size, k);
    }
  }

  lemma OneLookMore(free: seq<nat>, size: int, k: nat)
    requires 0 < size && free != [] && free[0] > 0 && k + 1 <= |free| && LooksEnd(free[1..], size - free[0], k)
    ensures LooksEnd(free, size, k + 1)
  {
    hide Sum;
    var rest := free[1..];
    assert Sum(free, 0) == 0 && Sum(rest, 0) == 0 by { SumOfNone(free); SumOfNone(rest); }
    SumTail(free, k + 1);
    forall j | 0 <= j < k + 1 ensures free[j] > 0 && Sum(free, j) < size {
      if j > 0 {
        SumTail(free, j);
        assert free[j] == rest[j - 1];
        assert rest[j - 1] > 0 && Sum(rest, j - 1) < size - free[0];
      }
    }
  }

  lemma SumOfNone(free: seq<nat>)
    ensures Sum(free, 0) == 0
  {
  }

  lemma OverrunHappens()
    ensures Sent([RING, RING, RING], 3000) == 4096
  {
    var free := [RING, RING];
    assert [RING, RING, RING][1..] == free && free[1..] == [RING];
    assert Total([RING], 3000 - RING) == RING;
  }
}
