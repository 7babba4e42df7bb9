/** Fixed-width unsigned integers of the target, and the little-endian pairs a disk is made of. */
module Words {
  type byte = b: int | 0 <= b < 0x100
  type uint16 = w: int | 0 <= w < 0x1_0000
  type uint32 = w: int | 0 <= w < 0x1_0000_0000

  const TWO32: int := 0x1_0000_0000

  /** Conversion to `uint16_t`: C reduces modulo 2^16. */
  function ToU16(x: int): uint16 {
    x % 0x1_0000
  }

  /** Conversion to a 32-bit unsigned type: C reduces modulo 2^32. */
  function ToU32(x: int): uint32 {
    x % 0x1_0000_0000
  }

  /** The 16-bit word stored low byte first at `at`. */
  function Word16At(bytes: seq<byte>, at: nat): uint16
    requires at + 2 <= |bytes|
  {
    bytes[at] as int + 0x100 * (bytes[at + 1] as int)
  }

  function Bytes16(w: uint16): seq<byte> {
    [w % 0x100, w / 0x100]
  }

  /** Splitting the word found at `at` gives back its two bytes. */
  lemma Word16Split(bytes: seq<byte>, at: nat)
    requires at + 2 <= |bytes|
    ensures Bytes16(Word16At(bytes, at)) == [bytes[at], bytes[at + 1]]
  {
  }

  /** The 32-bit word stored low byte first at `at`. */
  function Word32At(bytes: seq<byte>, at: nat): uint32
    requires at + 4 <= |bytes|
  {
    Word16At(bytes, at) as int + 0x1_0000 * (Word16At(bytes, at + 2) as int)
  }

  function Bytes32(w: uint32): seq<byte> {
    Bytes16(w % 0x1_0000) + Bytes16(w / 0x1_0000)
  }

  /** The number that bytes stand for when the first one is the lowest, and when it is the highest. */
  function LittleEndian(bytes: seq<byte>): nat {
    if bytes == [] then 0 else bytes[0] + 256 * LittleEndian(bytes[1..])
  }

  function BigEndian(bytes: seq<byte>): nat {
    if bytes == [] then 0 else BigEndian(bytes[..|bytes| - 1]) * 256 + bytes[|bytes| - 1]
  }

  lemma TwoBytes(s: seq<byte>)
    requires |s| == 2
    ensures LittleEndian(s) == s[0] as int + 256 * (s[1] as int) && BigEndian(s) == s[0] as int * 256 + s[1]
  {
    assert LittleEndian(s[1..]) == s[1] as int + 256 * LittleEndian(s[1..][1..]) && s[1..][1..] == [];
    assert BigEndian(s[..1]) == BigEndian(s[..1][..0]) * 256 + s[0] as int && s[..1][..0] == [];
  }

  /** Words lie in memory with their lowest byte first. */
  lemma WordsAreLittleEndian(bytes: seq<byte>, at: nat)
    ensures at + 2 <= |bytes| ==> Word16At(bytes, at) == LittleEndian(bytes[at..at + 2])
    ensures at + 4 <= |bytes| ==> Word32At(bytes, at) == LittleEndian(bytes[at..at + 4])
  {
    if at + 2 <= |bytes| { TwoBytes(bytes[at..at + 2]); }
    if at + 4 <= |bytes| {
      var s := bytes[at..at + 4];
      assert s[1..][1..] == bytes[at + 2..at + 4];
      assert LittleEndian(s) == s[0] as int + 256 * (s[1] as int + 256 * LittleEndian(s[1..][1..]));
      TwoBytes(bytes[at + 2..at + 4]);
    }
  }
}

/** Overwriting a stretch of a sequence. */
module Splices {
  /** `s` with the `|patch|` elements from `at` on overwritten, one after the other, by `patch`. */
  function Splice<T>(s: seq<T>, at: nat, patch: seq<T>): (r: seq<T>)
    requires at + |patch| <= |s|
    ensures |r| == |s|
    decreases |patch|
  {
    if patch == [] then s else Splice(s[at := patch[0]], at + 1, patch[1..])
  }

  /** The same as three pieces. */
  lemma {:induction false} SpliceIs<T>(s: seq<T>, at: nat, patch: seq<T>)
    requires at + |patch| <= |s|
    ensures Splice(s, at, patch) == s[..at] + patch + s[at + |patch|..]
    decreases |patch|
  {
    if patch != [] {
      SpliceIs(s[at := patch[0]], at + 1, patch[1..]);
    }
  }

  lemma SpliceAt<T>(s: seq<T>, at: nat, patch: seq<T>)
    requires at + |patch| <= |s|
    ensures forall k | 0 <= k < |s| ::
              Splice(s, at, patch)[k] == if at <= k < at + |patch| then patch[k - at] else s[k]
  {
    SpliceIs(s, at, patch);
  }

  /** Sequences that agree on a stretch agree on every part of it. */
  lemma SameInside<T>(s: seq<T>, t: seq<T>, from: nat, to: nat, a: nat, b: nat)
    requires from <= a <= b <= to <= |s| && to <= |t| && s[from..to] == t[from..to]
    ensures s[a..b] == t[a..b]
  {
    forall k | a <= k < b ensures s[k] == t[k] {
      assert s[from..to][k - from] == t[from..to][k - from];
    }
  }

  lemma SpliceAppend<T>(s: seq<T>, at: nat, a: seq<T>, b: seq<T>)
    requires at + |a| + |b| <= |s|
    ensures Splice(Splice(s, at, a), at + |a|, b) == Splice(s, at, a + b)
  {
    SpliceAt(s, at, a);
    SpliceAt(Splice(s, at, a), at + |a|, b);
    SpliceAt(s, at, a + b);
  }

  /** Patching a part and putting it back patches the whole. */
  lemma SplicePart<T>(s: seq<T>, part: seq<T>, from: nat, at: nat, patch: seq<T>)
    requires from + |part| <= |s| && s[from..from + |part|] == part && at + |patch| <= |part|
    ensures Splice(s, from, Splice(part, at, patch)) == Splice(s, from + at, patch)
  {
    SpliceAt(part, at, patch);
    SpliceAt(s, from, Splice(part, at, patch));
    SpliceAt(s, from + at, patch);
    assert forall k | 0 <= k < |part| :: part[k] == s[from + k];
  }

  lemma SlicePart<T>(s: seq<T>, part: seq<T>, from: nat, skip: nat, n: nat)
    requires from + |part| <= |s| && s[from..from + |part|] == part && skip + n <= |part|
    ensures part[skip..skip + n] == s[from + skip..from + skip + n]
  {
    var left, right := part[skip..skip + n], s[from + skip..from + skip + n];
    assert forall k | 0 <= k < n :: left[k] == s[from..from + |part|][skip + k] == right[k];
  }

  lemma SpliceAll<T>(s: seq<T>, patch: seq<T>)
    requires |patch| == |s|
    ensures Splice(s, 0, patch) == patch
  {
    SpliceIs(s, 0, patch);
  }

  /** A stretch that avoids the patch is unchanged. */
  lemma SpliceApart<T>(s: seq<T>, at: nat, patch: seq<T>, from: nat, to: nat)
    requires at + |patch| <= |s| && from <= to <= |s| && (to <= at || at + |patch| <= from)
    ensures Splice(s, at, patch)[from..to] == s[from..to]
  {
    SpliceAt(s, at, patch);
  }

  /** The patched stretch is the patch. */
  lemma SpliceSelf<T>(s: seq<T>, at: nat, patch: seq<T>)
    requires at + |patch| <= |s|
    ensures Splice(s, at, patch)[at..at + |patch|] == patch
  {
    SpliceAt(s, at, patch);
  }

  lemma SpliceHead<T>(a: seq<T>, s: seq<T>, at: nat, patch: seq<T>)
    requires at + |patch| <= |a|
    ensures Splice(a + s, at, patch) == Splice(a, at, patch) + s
  {
    SpliceAt(a + s, at, patch);
    SpliceAt(a, at, patch);
  }

  lemma SpliceTail<T>(a: seq<T>, s: seq<T>, at: nat, patch: seq<T>)
    requires at + |patch| <= |s|
    ensures Splice(a + s, |a| + at, patch) == a + Splice(s, at, patch)
  {
    SpliceAt(a + s, |a| + at, patch);
    SpliceAt(s, at, patch);
  }
}
