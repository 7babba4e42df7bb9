/** strstr: the shift-or automaton in one 64-bit word. A C string is its bytes in front of the terminator. */
module StrStr {
  import opened Words

  // ----- Words as bits

  /** A `uint64_t` by its bits, the lowest first. */
  type bits64 = w: seq<bool> | |w| == 64 witness seq(64, _ => false)

  function Or(x: bits64, y: bits64): bits64 {
    seq(64, j requires 0 <= j < 64 => x[j] || y[j])
  }

  function And(x: bits64, y: bits64): bits64 {
    seq(64, j requires 0 <= j < 64 => x[j] && y[j])
  }

  /** `x << 1` */
  function ShiftedUp(x: bits64): bits64 {
    [false] + x[..63]
  }

  /** `1UL << i`, for a shift that `unsigned long` allows. */
  function OneShifted(i: nat): bits64
    requires i < 64
  {
    seq(64, j => j == i)
  }

  /** `~(1UL << i)` in an `unsigned long` of the given width, widened with zeros to 64 bits. */
  function AllBut(i: nat, longBits: nat): bits64 {
    seq(64, j => j < longBits && j != i)
  }

  const ALL_ONES: bits64 := seq(64, _ => true)
  const ALL_ZEROS: bits64 := seq(64, _ => false)

  lemma BitTest(x: bits64, m: nat)
    requires m < 64
    ensures And(x, OneShifted(m)) == ALL_ZEROS <==> !x[m]
  {
    var masked := And(x, OneShifted(m));
    assert masked[m] == x[m];
    if !x[m] {
      assert forall j | 0 <= j < 64 :: masked[j] == ALL_ZEROS[j];
    }
  }

  // ----- Occurrences

  ghost predicate OccursAt(text: seq<byte>, needle: seq<byte>, p: int) {
    0 <= p && p + |needle| <= |text| && text[p..p + |needle|] == needle
  }

  /** The first `j` characters of the needle end the first `i` characters of the text. */
  ghost predicate Ends(text: seq<byte>, i: nat, needle: seq<byte>, j: nat)
    requires i <= |text| && j <= |needle|
  {
    j <= i && text[i - j..i] == needle[..j]
  }

  lemma EndsStep(text: seq<byte>, i: nat, needle: seq<byte>, j: nat)
    requires i < |text| && j < |needle|
    ensures Ends(text, i + 1, needle, j + 1) <==> Ends(text, i, needle, j) && text[i] == needle[j]
  {
    if j <= i {
      assert text[i - j..i + 1] == text[i - j..i] + [text[i]];
      assert needle[..j + 1] == needle[..j] + [needle[j]];
    }
  }

  /** Bit j of the automaton is 0 exactly when the needle's first j characters end the scanned text. */
  ghost predicate Tracks(R: bits64, text: seq<byte>, i: nat, needle: seq<byte>)
    requires i <= |text| && |needle| < 64
  {
    forall j | 0 <= j <= |needle| :: R[j] <==> !Ends(text, i, needle, j)
  }

  /** Bit j of a character's mask is 0 exactly when the needle has that character in place j. */
  ghost predicate MaskOf(mask: bits64, c: int, needle: seq<byte>, upTo: nat)
    requires upTo <= |needle| < 64
  {
    forall j | 0 <= j < |needle| :: mask[j] <==> !(j < upTo && needle[j] == c)
  }

  /** One character scanned. */
  lemma TracksStep(R: bits64, mask: bits64, text: seq<byte>, i: nat, needle: seq<byte>)
    requires i < |text| && |needle| < 64 && Tracks(R, text, i, needle)
    requires MaskOf(mask, text[i], needle, |needle|)
    ensures Tracks(ShiftedUp(Or(R, mask)), text, i + 1, needle)
  {
    var next := ShiftedUp(Or(R, mask));
    forall j | 0 <= j <= |needle| ensures next[j] <==> !Ends(text, i + 1, needle, j) {
      if j > 0 {
        assert next[j] == Or(R, mask)[j - 1];
        EndsStep(text, i, needle, j - 1);
      }
    }
  }

  lemma MaskStep(mask: bits64, c: int, needle: seq<byte>, i: nat, longBits: nat)
    requires i < |needle| < longBits && |needle| < 64 && MaskOf(mask, c, needle, i)
    ensures MaskOf(if needle[i] == c then And(mask, AllBut(i, longBits)) else mask, c, needle, i + 1)
  {
  }

  /** The first loops of strstr: one mask for each character. */
  method PatternMasks(needle: seq<byte>, longBits: nat) returns (patternMask: array<bits64>)
    requires |needle| < longBits && |needle| < 64
    ensures fresh(patternMask) && patternMask.Length == 256
    ensures forall c: byte :: MaskOf(patternMask[c], c, needle, |needle|)
  {
    patternMask := new bits64[256](_ => ALL_ONES);
    for i := 0 to |needle|
      invariant forall c: byte :: MaskOf(patternMask[c], c, needle, i)
    {
      forall c: byte
        ensures MaskOf(if needle[i] == c then And(patternMask[c], AllBut(i, longBits)) else patternMask[c],
                       c, needle, i + 1)
      {
        MaskStep(patternMask[c], c, needle, i, longBits);
      }
      patternMask[needle[i]] := And(patternMask[needle[i]], AllBut(i, longBits));
    }
  }

  /**
   strstr, with an `unsigned long` of 32 bits as on the target or of 64 bits; -1 stands for the null
   pointer. A shift by its width or more is undefined, so needles of 32 to 63 characters need the wider
   one. The result is the first occurrence, and null exactly when there is none or the needle is too long.
   */
  method StrStr(haystack: seq<byte>, needle: seq<byte>, longBits: nat) returns (found: int)
    requires longBits == 32 || longBits == 64
    requires |needle| < longBits || |needle| > 63
    ensures found == -1 <==> |needle| > 63 || forall p :: !OccursAt(haystack, needle, p)
    ensures found != -1 ==> OccursAt(haystack, needle, found) && forall p | p < found :: !OccursAt(haystack, needle, p)
  {
    var m := |needle|;
    if m == 0 {
      assert OccursAt(haystack, needle, 0);
      return 0;
    }
    if m > 63 {
      return -1;
    }
    var R := AllBut(0, 64);
    var patternMask := PatternMasks(needle, longBits);
    for i := 0 to |haystack|
      invariant Tracks(R, haystack, i, needle)
      invariant forall c: byte :: MaskOf(patternMask[c], c, needle, m)
      invariant forall p | p + m <= i :: !OccursAt(haystack, needle, p)
    {
      TracksStep(R, patternMask[haystack[i]], haystack, i, needle);
      R := Or(R, patternMask[haystack[i]]);
      R := ShiftedUp(R);
      assert Ends(haystack, i + 1, needle, m) <==> OccursAt(haystack, needle, i - m + 1);
      BitTest(R, m);
      if And(R, OneShifted(m)) == ALL_ZEROS {
        return i - m + 1;
      }
    }
    found := -1;
  }
}
