/** memcpy and memmove over one memory, in which pointers are 32-bit indices. */
module MemMove {
  import opened Words
  import opened Splices

  ghost predicate RangesDisjoint(d: nat, s: nat, len: nat) {
    d + len <= s || s + len <= d
  }

  /** The comparison by which memmove recognises disjoint ranges, in 32-bit modular arithmetic. */
  predicate LooksDisjoint(d: uint32, s: uint32, len: uint32) {
    ToU32(s - d - len) <= ToU32(-2 * len)
  }

  /** For ranges of up to 2^31 bytes that do not wrap the comparison is exact. */
  lemma LooksDisjointExact(d: uint32, s: uint32, len: uint32)
    requires 0 < len <= 0x8000_0000 && d + len <= TWO32 && s + len <= TWO32
    ensures LooksDisjoint(d, s, len) <==> RangesDisjoint(d, s, len)
  {
    WrapOnce(s - d - len);
    WrapOnce(-2 * len);
  }

  /** Longer ranges always overlap, and the comparison never says so. */
  lemma LooksDisjointWrongBeyond(d: uint32, s: uint32, len: uint32)
    requires len > 0x8000_0000 && d + len <= TWO32 && s + len <= TWO32
    ensures LooksDisjoint(d, s, len) && !RangesDisjoint(d, s, len)
  {
    WrapOnce(s - d - len);
    WrapOnce(-2 * len + TWO32);
  }

  lemma WrapOnce(x: int)
    requires -TWO32 <= x < TWO32
    ensures ToU32(x) == if x < 0 then x + TWO32 else x
  {
  }

  /** Memory after copying `n` cells one by one in ascending order. */
  function CopyUp<T>(m: seq<T>, d: nat, s: nat, n: nat): (r: seq<T>)
    requires d + n <= |m| && s + n <= |m|
    ensures |r| == |m|
    decreases n
  {
    if n == 0 then m else CopyUp(m[d := m[s]], d + 1, s + 1, n - 1)
  }

  /** Memory after copying `n` cells one by one in descending order. */
  function CopyDown<T>(m: seq<T>, d: nat, s: nat, n: nat): (r: seq<T>)
    requires d + n <= |m| && s + n <= |m|
    ensures |r| == |m|
    decreases n
  {
    if n == 0 then m else CopyDown(m[d + n - 1 := m[s + n - 1]], d, s, n - 1)
  }

  /** Ascending order is right unless the destination starts inside the source. */
  lemma {:induction false} CopyUpRight<T>(m: seq<T>, d: nat, s: nat, n: nat)
    requires d + n <= |m| && s + n <= |m| && (d <= s || s + n <= d)
    ensures CopyUp(m, d, s, n) == Splice(m, d, m[s..s + n])
    decreases n
  {
    if n > 0 {
      var m' := m[d := m[s]];
      CopyUpRight(m', d + 1, s + 1, n - 1);
      assert m'[s + 1..s + n] == m[s + 1..s + n] == m[s..s + n][1..];
    }
  }

  /** Descending order is right unless the source starts inside the destination. */
  lemma {:induction false} CopyDownRight<T>(m: seq<T>, d: nat, s: nat, n: nat)
    requires d + n <= |m| && s + n <= |m| && (s <= d || d + n <= s)
    ensures CopyDown(m, d, s, n) == Splice(m, d, m[s..s + n])
    decreases n
  {
    if n > 0 {
      var m' := m[d + n - 1 := m[s + n - 1]];
      CopyDownRight(m', d, s, n - 1);
      SpliceAt(m', d, m'[s..s + n - 1]);
      SpliceAt(m, d, m[s..s + n]);
    }
  }

  /** Ascending order into an overlapping higher range repeats the cells before the overlap. */
  lemma {:induction false} CopyUpRepeats<T>(m: seq<T>, d: nat, s: nat, n: nat)
    requires d + n <= |m| && s < d
    ensures var r := CopyUp(m, d, s, n);
            && (forall k | 0 <= k < d :: r[k] == m[k])
            && (forall j | d <= j < d + n :: r[j] == r[j - (d - s)])
    decreases n
  {
    if n > 0 { CopyUpRepeats(m[d := m[s]], d + 1, s + 1, n - 1); }
  }

  /** memcpy */
  method Memcpy<T>(mem: array<T>, d: nat, s: nat, count: nat)
    requires d + count <= mem.Length && s + count <= mem.Length
    modifies mem
    ensures mem[..] == CopyUp(old(mem[..]), d, s, count)
  {
    var i := 0;
    while i < count
      invariant 0 <= i <= count
      invariant CopyUp(old(mem[..]), d, s, count) == CopyUp(mem[..], d + i, s + i, count - i)
    {
      ghost var before := mem[..];
      mem[d + i] := mem[s + i];
      assert mem[..] == before[d + i := before[s + i]];
      i := i + 1;
    }
  }

  /** Whether memmove picks an order that works: it fails exactly when it takes a destination that starts
      inside the source for a disjoint one. */
  predicate MoveIsSafe(d: uint32, s: uint32, len: uint32) {
    d == s || !LooksDisjoint(d, s, len) || d < s || s + len <= d
  }

  /** Every move of up to 2^31 bytes is safe. */
  lemma ShortMovesAreSafe(d: uint32, s: uint32, len: uint32)
    requires len <= 0x8000_0000 && d + len <= TWO32 && s + len <= TWO32
    ensures MoveIsSafe(d, s, len)
  {
    if len > 0 { LooksDisjointExact(d, s, len); }
  }

  /** Of the longer moves exactly those are that do not go upwards. */
  lemma MoveIsSafeIff(d: uint32, s: uint32, len: uint32)
    requires d + len <= TWO32 && s + len <= TWO32
    ensures MoveIsSafe(d, s, len) <==> len <= 0x8000_0000 || d <= s
  {
    if len <= 0x8000_0000 {
      ShortMovesAreSafe(d, s, len);
    } else {
      LooksDisjointWrongBeyond(d, s, len);
    }
  }

  /** memmove: exactly in the safe cases the destination ends up with the old source cells and nothing
      else changes, whatever the memory holds. */
  method Memmove<T>(mem: array<T>, dst: uint32, src: uint32, count: uint32)
    requires dst + count <= mem.Length <= TWO32 && src + count <= mem.Length
    modifies mem
    ensures MoveIsSafe(dst, src, count) ==> mem[..] == Splice(old(mem[..]), dst, old(mem[src..src + count]))
    ensures !MoveIsSafe(dst, src, count) ==> mem[..] == CopyUp(old(mem[..]), dst, src, count)
  {
    ghost var m := mem[..];
    if dst == src {
      CopyUpRight(m, dst, src, count);
      CopyOntoItself(m, dst, count);
    } else if LooksDisjoint(dst, src, count) {
      Memcpy(mem, dst, src, count);
      if MoveIsSafe(dst, src, count) { CopyUpRight(m, dst, src, count); }
    } else if dst < src {
      CopyUpRight(m, dst, src, count);
      MoveUp(mem, dst, src, count);
    } else {
      CopyDownRight(m, dst, src, count);
      MoveDown(mem, dst, src, count);
    }
  }

  /** The ascending loop, which advances both pointers. */
  method MoveUp<T>(mem: array<T>, dst: nat, src: nat, count: nat)
    requires dst + count <= mem.Length && src + count <= mem.Length
    modifies mem
    ensures mem[..] == CopyUp(old(mem[..]), dst, src, count)
  {
    var d, s, len := dst, src, count;
    while len != 0
      invariant 0 <= len <= count && d == dst + (count - len) && s == src + (count - len)
      invariant CopyUp(old(mem[..]), dst, src, count) == CopyUp(mem[..], d, s, len)
      decreases len
    {
      ghost var before := mem[..];
      mem[d] := mem[s];
      assert mem[..] == before[d := before[s]];
      d, s, len := d + 1, s + 1, len - 1;
    }
  }

  /** The descending loop, which counts down. */
  method MoveDown<T>(mem: array<T>, d: nat, s: nat, count: nat)
    requires d + count <= mem.Length && s + count <= mem.Length
    modifies mem
    ensures mem[..] == CopyDown(old(mem[..]), d, s, count)
  {
    var len := count;
    while len != 0
      invariant 0 <= len <= count
      invariant CopyDown(old(mem[..]), d, s, count) == CopyDown(mem[..], d, s, len)
      decreases len
    {
      ghost var before := mem[..];
      len := len - 1;
      mem[d + len] := mem[s + len];
      assert mem[..] == before[d + len := before[s + len]];
    }
  }

  lemma {:induction false} CopyOntoItself<T>(m: seq<T>, d: nat, n: nat)
    requires d + n <= |m|
    ensures CopyUp(m, d, d, n) == m
    decreases n
  {
    if n > 0 {
      assert m[d := m[d]] == m;
      CopyOntoItself(m, d + 1, n - 1);
    }
  }

  /** An unsafe move is wrong for every memory whose first source and destination cells differ. */
  lemma UnsafeMovesGoWrong<T>(m: seq<T>, d: uint32, s: uint32, len: uint32)
    requires d + len <= |m| <= TWO32 && s + len <= |m| && !MoveIsSafe(d, s, len) && m[s] != m[d]
    ensures CopyUp(m, d, s, len) != Splice(m, d, m[s..s + len])
  {
    var r, gap := CopyUp(m, d, s, len), d - s;
    CopyUpRepeats(m, d, s, len);
    SpliceAt(m, d, m[s..s + len]);
    assert r[d + gap] == r[d] == r[s] == m[s];
    assert Splice(m, d, m[s..s + len])[d + gap] == m[s..s + len][gap] == m[d];
  }
}
