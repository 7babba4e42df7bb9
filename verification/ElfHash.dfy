/** Symbol lookup by the hash table of an ELF file: System V gABI, chapter 5, section "Hash Table". */
module ElfHash {
  import opened Bits
  import opened Words
  import opened Numbers

  const STN_UNDEF: nat := 0

  // ----- The hash

  /** One round of elf_hash, on the 32-bit `unsigned long` of the target; shifts are products and quotients. */
  function HashStep(h: uint32, c: byte): uint32 {
    var sum := ToU32(ToU32(h * 16) + c);
    var g := And(sum, 0xf000_0000);
    And(if g != 0 then ToU32(Xor(sum, g / 0x100_0000)) else sum, 0xffff_ffff - g)
  }

  function Hash(name: seq<byte>): uint32 {
    if name == [] then 0 else HashStep(Hash(name[..|name| - 1]), name[|name| - 1])
  }

  lemma Powers()
    ensures Pow2(4) == 16 && Pow2(8) == 256 && Pow2(28) == 0x1000_0000
  {
    assert Pow2(4) == 16 && Pow2(8) == 256;
    assert Pow2(16) == 0x1_0000;
    assert Pow2(24) == 0x100_0000;
  }

  lemma TopNibble(sum: uint32, hi: nat, lo: nat)
    requires sum == hi * 0x1000_0000 + lo && hi < 16 && lo < 0x1000_0000
    ensures And(sum, 0xf000_0000) == hi * 0x1000_0000
  {
    hide And;
    Powers();
    Split(hi, lo, 15, 0, 28);
    AndAll(hi, 4);
    AndAll(lo, 28);
  }

  lemma XorSecondNibble(m: nat, n: nat, l: nat, hi: nat)
    requires n < 16 && l < 16 && hi < 16
    ensures Xor(m * 256 + n * 16 + l, hi * 16) == m * 256 + Xor(n, hi) * 16 + l && Xor(n, hi) < 16
  {
    hide Xor;
    Powers();
    Split(m, n * 16 + l, 0, hi * 16, 8);
    Split(n, l, hi, 0, 4);
    XorNone(m);
    XorNone(l);
    XorShort(n, hi, 4);
  }

  lemma TopNibbleCleared(hi: nat, y: nat)
    requires hi < 16 && y < 0x1000_0000
    ensures And(hi * 0x1000_0000 + y, 0xffff_ffff - hi * 0x1000_0000) == y
  {
    hide And;
    Powers();
    Split(hi, y, 15 - hi, 0x0fff_ffff, 28);
    AndRest(hi, 4);
    AndAll(y, 28);
  }

  /** The four parts of a 32-bit number that a round tells apart: the top nibble, 20 bits, and the two last nibbles. */
  ghost predicate PartsAre(sum: int, hi: nat, m: nat, n: nat, l: nat) {
    hi < 16 && m < 0x10_0000 && n < 16 && l < 16 && sum == hi * 0x1000_0000 + m * 256 + n * 16 + l
  }

  lemma PartsOf(sum: uint32) returns (hi: nat, m: nat, n: nat, l: nat)
    ensures PartsAre(sum, hi, m, n, l)
  {
    var front := sum / 16;
    var middle := front / 16;
    hi, m, n, l := middle / 0x10_0000, middle % 0x10_0000, front % 16, sum % 16;
  }

  lemma Mixed(sum: uint32, hi: nat, m: nat, n: nat, l: nat)
    requires PartsAre(sum, hi, m, n, l)
    ensures var g := And(sum, 0xf000_0000);
            And(if g != 0 then ToU32(Xor(sum, g / 0x100_0000)) else sum, 0xffff_ffff - g)
            == m * 256 + Xor(n, hi) * 16 + l < 0x1000_0000
  {
    hide And, Xor;
    TopNibble(sum, hi, m * 256 + n * 16 + l);
    XorSecondNibble(hi * 0x10_0000 + m, n, l, hi);
    if hi == 0 { XorNone(n); }
    TopNibbleCleared(hi, m * 256 + Xor(n, hi) * 16 + l);
  }

  /** A round in arithmetic: of the sum of 16 times the hash and the character, modulo 2^32, the top nibble goes, and
      its bits are put into the second nibble from below by exclusive disjunction. */
  lemma HashStepIs(h: uint32, c: byte, hi: nat, m: nat, n: nat, l: nat)
    requires PartsAre((16 * h + c) % 0x1_0000_0000, hi, m, n, l)
    ensures HashStep(h, c) == m * 256 + Xor(n, hi) * 16 + l < 0x1000_0000
  {
    hide And, Xor;
    Mixed((16 * h + c) % 0x1_0000_0000, hi, m, n, l);
    SumWraps(h, c);
  }

  lemma SumWraps(h: uint32, c: byte)
    ensures ToU32(ToU32(h * 16) + c) == (16 * h + c) % 0x1_0000_0000
  {
    hide ToU32;
    AddMod(h * 16, c);
    assert ToU32(c) == c && ToU32(16 * h + c) == (16 * h + c) % 0x1_0000_0000 by {
      PlainWord(c);
      WordOf(16 * h + c);
    }
  }

  lemma PlainWord(c: byte)
    ensures ToU32(c) == c
  {
  }

  lemma WordOf(x: nat)
    ensures ToU32(x) == x % 0x1_0000_0000
  {
  }

  lemma PlainSum(s: nat)
    requires s < 0x1000_0000
    ensures s % 0x1_0000_0000 == s
  {
  }

  /** Sums below 2^28 are the new hash. */
  lemma PlainStep(h: uint32, c: byte)
    requires 16 * h + c < 0x1000_0000
    ensures HashStep(h, c) == 16 * h + c
  {
    hide HashStep, Xor;
    var hi, m, n, l := PartsOf(16 * h + c);
    XorNone(n);
    PlainSum(16 * h + c);
    HashStepIs(h, c, hi, m, n, l);
  }

  /** The hash has 28 bits, whatever the name. */
  lemma HashIsShort(name: seq<byte>)
    ensures Hash(name) < 0x1000_0000
  {
    hide HashStep, Xor;
    if name != [] {
      var h, c := Hash(name[..|name| - 1]), name[|name| - 1];
      var hi, m, n, l := PartsOf((16 * h + c) % 0x1_0000_0000);
      HashStepIs(h, c, hi, m, n, l);
    }
  }

  /** The characters of a name as digits of base 16, the first one highest. */
  function Base16(name: seq<byte>): nat {
    if name == [] then 0 else Base16(name[..|name| - 1]) * 16 + name[|name| - 1]
  }

  /** What the numbers of names with `n` characters stay below. */
  function Limit(n: nat): nat {
    if n == 0 then 1 else 16 * Limit(n - 1) + 240
  }

  lemma LimitGrows(n: nat)
    requires n <= 5
    ensures Limit(n) <= 0x1000_0000
  {
    assert Limit(2) == 0x10f0;
    assert Limit(4) == 16 * Limit(3) + 240 && Limit(3) == 16 * Limit(2) + 240;
  }

  /** Names of up to five characters are their own hash. */
  lemma {:induction false} ShortNames(name: seq<byte>)
    requires |name| <= 5
    ensures Hash(name) == Base16(name) < Limit(|name|)
    decreases |name|
  {
    hide HashStep;
    if name != [] {
      ShortNames(name[..|name| - 1]);
      LimitGrows(|name|);
      PlainStep(Hash(name[..|name| - 1]), name[|name| - 1]);
    }
  }

  /** elf_hash of a C string, given by its bytes in front of the terminator. */
  method ElfHash(name: seq<byte>) returns (h: uint32)
    ensures h == Hash(name) && h < 0x1000_0000
    ensures |name| <= 5 ==> h == Base16(name)
  {
    hide HashStep;
    h := 0;
    for i := 0 to |name|
      invariant h == Hash(name[..i])
    {
      assert name[..i + 1][..i] == name[..i];
      h := HashStep(h, name[i]);
    }
    assert name[..|name|] == name;
    HashIsShort(name);
    if |name| <= 5 { ShortNames(name); }
  }

  // ----- The tables

  datatype Symbol = Symbol(name: nat, value: uint32)

  /** The sections .hash, .dynsym and .dynstr. */
  datatype Tables = Tables(hash: seq<uint32>, dynsym: seq<Symbol>, dynstr: seq<byte>)

  /** A C string begins at `at` and ends inside the table. */
  predicate Terminated(strings: seq<byte>, at: nat) {
    at < |strings| && 0 in strings[at..]
  }

  /** The sizes agree, every index is one of the symbol table, and every name ends. */
  predicate Sized(t: Tables) {
    && |t.hash| >= 2 && t.hash[0] > 0 && t.hash[1] == |t.dynsym| > 0
    && |t.hash| == 2 + t.hash[0] as int + t.hash[1]
    && (forall j | 2 <= j < |t.hash| :: t.hash[j] < |t.dynsym|)
    && forall i | 0 <= i < |t.dynsym| :: Terminated(t.dynstr, t.dynsym[i].name)
  }

  function NameOf(t: Tables, i: nat): seq<byte>
    requires Sized(t) && i < |t.dynsym|
  {
    Text(t.dynstr[t.dynsym[i].name..])
  }

  function Chain(t: Tables, i: nat): nat
    requires Sized(t) && i < |t.dynsym|
  {
    t.hash[2 + t.hash[0] + i]
  }

  /** The first symbol of the bucket of a hash value. */
  function Bucket(t: Tables, h: uint32): (i: nat)
    requires Sized(t)
    ensures i < |t.dynsym|
  {
    t.hash[2 + h % t.hash[0]]
  }

  /** The symbols along a chain, at most `n` of them. */
  function Walk(t: Tables, i: nat, n: nat): (w: seq<nat>)
    requires Sized(t) && i < |t.dynsym|
    decreases n
  {
    if i == STN_UNDEF || n == 0 then [] else [i] + Walk(t, Chain(t, i), n - 1)
  }

  /** A chain comes to its end within `n` symbols. */
  predicate ChainEnds(t: Tables, i: nat, n: nat)
    requires Sized(t) && i < |t.dynsym|
    decreases n
  {
    i == STN_UNDEF || (n > 0 && ChainEnds(t, Chain(t, i), n - 1))
  }

  /** No chain has a cycle: each ends within as many symbols as there are. */
  predicate Acyclic(t: Tables)
    requires Sized(t)
  {
    forall i | 0 <= i < |t.dynsym| :: ChainEnds(t, i, |t.dynsym|)
  }

  /** Whether a symbol is chained under the bucket of its name's hash. */
  predicate IsIndexed(t: Tables, i: nat)
    requires Sized(t) && i < |t.dynsym|
  {
    i in Walk(t, Bucket(t, Hash(NameOf(t, i))), |t.dynsym|)
  }

  /** At most one symbol has the name. */
  predicate UniqueName(t: Tables, name: seq<byte>)
    requires Sized(t)
  {
    forall i, j | 1 <= i < j < |t.dynsym| :: NameOf(t, i) != name || NameOf(t, j) != name
  }

  /** The symbols with that name that have a value are indexed. */
  predicate NameIndexed(t: Tables, name: seq<byte>)
    requires Sized(t)
  {
    forall i | 1 <= i < |t.dynsym| && NameOf(t, i) == name && t.dynsym[i].value != 0 :: IsIndexed(t, i)
  }

  // ----- Two searches

  /** The plain search: the value of the first symbol of that name in the table, 0 when there is none. */
  function Linear(t: Tables, name: seq<byte>, i: nat): uint32
    requires Sized(t) && i <= |t.dynsym|
    decreases |t.dynsym| - i
  {
    if i == |t.dynsym| then 0 else if NameOf(t, i) == name then t.dynsym[i].value else Linear(t, name, i + 1)
  }

  /** The search along a chain. */
  function Along(t: Tables, name: seq<byte>, i: nat, n: nat): uint32
    requires Sized(t) && i < |t.dynsym|
    decreases n
  {
    if i == STN_UNDEF || n == 0 then 0
    else if NameOf(t, i) == name then t.dynsym[i].value
    else Along(t, name, Chain(t, i), n - 1)
  }

  lemma {:induction false} LinearFinds(t: Tables, name: seq<byte>, from: nat, i: nat)
    requires Sized(t) && UniqueName(t, name) && 1 <= from <= i < |t.dynsym| && NameOf(t, i) == name
    ensures Linear(t, name, from) == t.dynsym[i].value
    decreases i - from
  {
    hide NameOf;
    if from < i {
      assert NameOf(t, from) != name;
      LinearFinds(t, name, from + 1, i);
    }
  }

  lemma {:induction false} LinearMisses(t: Tables, name: seq<byte>, from: nat)
    requires Sized(t) && from <= |t.dynsym| && forall i | from <= i < |t.dynsym| :: NameOf(t, i) != name
    ensures Linear(t, name, from) == 0
    decreases |t.dynsym| - from
  {
    if from < |t.dynsym| { LinearMisses(t, name, from + 1); }
  }

  lemma {:induction false} AlongFinds(t: Tables, name: seq<byte>, start: nat, n: nat, i: nat)
    requires Sized(t) && UniqueName(t, name) && start < |t.dynsym| && 1 <= i < |t.dynsym| && NameOf(t, i) == name
    ensures Along(t, name, start, n) == if i in Walk(t, start, n) then t.dynsym[i].value else 0
    decreases n
  {
    if start != STN_UNDEF && n > 0 {
      AlongFinds(t, name, Chain(t, start), n - 1, i);
      if start != i { assert NameOf(t, start) != name; }
    }
  }

  lemma {:induction false} AlongMisses(t: Tables, name: seq<byte>, start: nat, n: nat)
    requires Sized(t) && start < |t.dynsym| && forall i | 1 <= i < |t.dynsym| :: NameOf(t, i) != name
    ensures Along(t, name, start, n) == 0
    decreases n
  {
    if start != STN_UNDEF && n > 0 { AlongMisses(t, name, Chain(t, start), n - 1); }
  }

  /** The search that get_dyn makes. */
  function Lookup(t: Tables, name: seq<byte>): uint32
    requires Sized(t)
  {
    Along(t, name, Bucket(t, Hash(name)), |t.dynsym|)
  }

  /** For a name that no two symbols share, the indexed search agrees with the plain search exactly when the symbol of
      that name, if it has a value, is chained under the bucket of the name's hash. */
  lemma LookupIsLinear(t: Tables, name: seq<byte>)
    requires Sized(t) && UniqueName(t, name)
    ensures Lookup(t, name) == Linear(t, name, 1) <==> NameIndexed(t, name)
  {
    if i :| 1 <= i < |t.dynsym| && NameOf(t, i) == name {
      LinearFinds(t, name, 1, i);
      AlongFinds(t, name, Bucket(t, Hash(name)), |t.dynsym|, i);
      assert forall j | 1 <= j < |t.dynsym| && NameOf(t, j) == name :: j == i;
    } else {
      LinearMisses(t, name, 1);
      AlongMisses(t, name, Bucket(t, Hash(name)), |t.dynsym|);
    }
  }

  // ----- Tables as a link editor makes them

  /** Buckets and chains over the first symbols of a table. */
  datatype Index = Index(buckets: seq<nat>, chains: seq<nat>)

  /** Symbols 1 to `k - 1` put in one after the other: each becomes the first of the bucket of its name's hash, and is
      chained to the one that was. */
  function IndexTo(names: seq<seq<byte>>, n: nat, k: nat): (x: Index)
    requires n > 0 && k <= |names|
    ensures |x.buckets| == n && |x.chains| == |names|
    ensures forall b | 0 <= b < n :: x.buckets[b] == 0 || x.buckets[b] < k
    ensures forall i | 0 <= i < |names| :: x.chains[i] == 0 || x.chains[i] < i
  {
    if k <= 1 then Index(seq(n, _ => 0), seq(|names|, _ => 0))
    else
      var x, b := IndexTo(names, n, k - 1), Hash(names[k - 1]) % n;
      Index(x.buckets[b := k - 1], x.chains[k - 1 := x.buckets[b]])
  }

  /** A symbol that its bucket's chain comes to, over the links alone. */
  predicate Reached(chains: seq<nat>, start: nat, i: nat)
    decreases start
  {
    start != 0 && (start == i || (start < |chains| && chains[start] < start && Reached(chains, chains[start], i)))
  }

  /** A link at `k` does not matter below `k`. */
  lemma {:induction false} ReachedStill(chains: seq<nat>, start: nat, i: nat, k: nat, link: nat)
    requires start < k < |chains| && Reached(chains, start, i)
    ensures Reached(chains[k := link], start, i)
    decreases start
  {
    if start != i { ReachedStill(chains, chains[start], i, k, link); }
  }

  lemma {:induction false} AllReached(names: seq<seq<byte>>, n: nat, k: nat, i: nat)
    requires n > 0 && 1 <= i < k <= |names|
    ensures Reached(IndexTo(names, n, k).chains, IndexTo(names, n, k).buckets[Hash(names[i]) % n], i)
    decreases k
  {
    hide Hash;
    var x, b := IndexTo(names, n, k - 1), Hash(names[k - 1]) % n;
    if i < k - 1 {
      AllReached(names, n, k - 1, i);
      ReachedStill(x.chains, x.buckets[Hash(names[i]) % n], i, k - 1, x.buckets[b]);
    }
  }

  /** The hash section is that of the table's names, with so many buckets. */
  ghost predicate MadeFrom(t: Tables, names: seq<seq<byte>>, n: nat)
    requires Sized(t)
  {
    && n > 0 && |names| == |t.dynsym| && (forall i | 0 <= i < |names| :: NameOf(t, i) == names[i])
    && var x := IndexTo(names, n, |names|);
       |t.hash| == 2 + n + |names| && t.hash[0] == n && t.hash[2..2 + n] == x.buckets && t.hash[2 + n..] == x.chains
  }

  lemma {:induction false} WalkReaches(t: Tables, chains: seq<nat>, start: nat, i: nat, n: nat)
    requires Sized(t) && |chains| == |t.dynsym| && start < |t.dynsym| && start <= n
    requires forall j | 0 <= j < |chains| :: Chain(t, j) == chains[j]
    requires Reached(chains, start, i)
    ensures i in Walk(t, start, n)
    decreases n
  {
    if start != i { WalkReaches(t, chains, chains[start], i, n - 1); }
  }

  lemma {:induction false} ChainsEnd(t: Tables, start: nat, n: nat)
    requires Sized(t) && start < |t.dynsym| && start <= n
    requires forall j | 0 <= j < |t.dynsym| :: Chain(t, j) == 0 || Chain(t, j) < j
    ensures ChainEnds(t, start, n)
    decreases n
  {
    if start != STN_UNDEF { ChainsEnd(t, Chain(t, start), n - 1); }
  }

  lemma LinksAre(t: Tables, names: seq<seq<byte>>, n: nat)
    requires Sized(t) && MadeFrom(t, names, n)
    ensures forall j | 0 <= j < |names| :: Chain(t, j) == IndexTo(names, n, |names|).chains[j]
    ensures forall b | 0 <= b < n :: t.hash[2 + b] == IndexTo(names, n, |names|).buckets[b]
  {
    hide IndexTo, Hash, NameOf;
    forall j | 0 <= j < |names| ensures Chain(t, j) == IndexTo(names, n, |names|).chains[j] {
      assert t.hash[2 + n..][j] == t.hash[2 + n + j];
    }
    forall b | 0 <= b < n ensures t.hash[2 + b] == IndexTo(names, n, |names|).buckets[b] {
      assert t.hash[2..2 + n][b] == t.hash[2 + b];
    }
  }

  lemma AllIndexed(t: Tables, names: seq<seq<byte>>, n: nat, i: nat)
    requires Sized(t) && MadeFrom(t, names, n) && 1 <= i < |names|
    ensures IsIndexed(t, i)
  {
    hide Hash, NameOf, Chain, Walk, Reached;
    var x, b := IndexTo(names, n, |names|), Hash(names[i]) % n;
    LinksAre(t, names, n);
    AllReached(names, n, |names|, i);
    WalkReaches(t, x.chains, x.buckets[b], i, |names|);
  }

  /** In such a table no chain has a cycle, and the search finds what the plain search finds, for every name that no
      two symbols share. */
  lemma MadeTablesServe(t: Tables, names: seq<seq<byte>>, n: nat)
    requires Sized(t) && MadeFrom(t, names, n)
    ensures Acyclic(t)
    ensures forall name | UniqueName(t, name) :: Lookup(t, name) == Linear(t, name, 1)
  {
    hide Hash, NameOf, UniqueName, Lookup, Linear;
    LinksAre(t, names, n);
    forall j | 0 <= j < |names| ensures ChainEnds(t, j, |names|) {
      ChainsEnd(t, j, |names|);
    }
    forall name | UniqueName(t, name) ensures Lookup(t, name) == Linear(t, name, 1) {
      forall i | 1 <= i < |names| ensures IsIndexed(t, i) {
        AllIndexed(t, names, n, i);
      }
      LookupIsLinear(t, name);
    }
  }

  /** A table of one symbol "ab" with value 0x100 and three buckets. */
  const AB: seq<byte> := [0x61, 0x62]
  const AB_TABLE: Tables := Tables([3, 2, 1, 0, 0, 0, 0], [Symbol(0, 0), Symbol(1, 0x100)], [0, 0x61, 0x62, 0])

  lemma NamedAb()
    ensures Sized(AB_TABLE) && NameOf(AB_TABLE, 1) == AB
  {
    var strings := AB_TABLE.dynstr;
    assert strings[0..][0] == 0 && strings[1..][2] == 0 && strings[1..][..2] == AB;
    TextIs(strings[1..], 2);
  }

  lemma HashOfAb()
    ensures Hash(AB) == 1650
  {
    hide HashStep;
    ShortNames(AB);
    assert AB[..1] == [0x61] && AB[..1][..0] == [] && Base16(AB[..1]) == 0x61;
  }

  /** The hash of its name is 1650, so the symbol is chained under the first bucket, and found there. */
  lemma OneSymbol()
    ensures Sized(AB_TABLE) && Hash(AB) == 1650 && Lookup(AB_TABLE, AB) == 0x100
  {
    hide Hash, NameOf, Sized;
    NamedAb();
    HashOfAb();
    assert Bucket(AB_TABLE, 1650) == 1;
  }

  // ----- get_dyn

  /** strcmp of a name in the string table with a C string, as far as equality goes. */
  method SameName(strings: seq<byte>, at: nat, name: seq<byte>) returns (same: bool)
    requires Terminated(strings, at) && 0 !in name
    ensures same <==> Text(strings[at..]) == name
  {
    var i := 0;
    ghost var s := strings[at..];
    ghost var end :| 0 <= end < |s| && s[end] == 0;
    while strings[at + i] != 0 && i < |name| && strings[at + i] == name[i]
      invariant i <= end && i <= |name| && s[..i] == name[..i] && 0 !in s[..i]
      decreases |name| - i
    {
      i := i + 1;
    }
    same := strings[at + i] == (if i < |name| then name[i] else 0);
    TextIs(s, i);
    if s[i] != 0 {
      assert s[..i + 1] == s[..i] + [s[i]];
      TextIs(s, i + 1);
      assert Text(s)[i] == s[i];
    }
  }

  /** The loop of get_dyn: it comes to an end when the chain does. */
  method Follow(t: Tables, name: seq<byte>, start: nat) returns (value: uint32)
    requires Sized(t) && 0 !in name && start < |t.dynsym| && ChainEnds(t, start, |t.dynsym|)
    ensures value == Along(t, name, start, |t.dynsym|)
  {
    var index: nat := start;
    ghost var n: nat := |t.dynsym|;
    while index != STN_UNDEF
      invariant index < |t.dynsym| && ChainEnds(t, index, n)
      invariant Along(t, name, index, n) == Along(t, name, start, |t.dynsym|)
      decreases n
    {
      var same := SameName(t.dynstr, t.dynsym[index].name, name);
      if same {
        return t.dynsym[index].value;
      }
      index := Chain(t, index);
      n := n - 1;
    }
    value := 0;
  }

  /** get_dyn: it comes to an end on chains without cycles, and for a name that no two symbols share it agrees with the
      plain search exactly when the symbol is indexed. */
  method GetDyn(t: Tables, name: seq<byte>) returns (value: uint32)
    requires Sized(t) && Acyclic(t) && 0 !in name
    ensures value == Lookup(t, name)
    ensures UniqueName(t, name) ==> (value == Linear(t, name, 1) <==> NameIndexed(t, name))
  {
    var symbolHash := ElfHash(name);
    value := Follow(t, name, Bucket(t, symbolHash));
    if UniqueName(t, name) { LookupIsLinear(t, name); }
  }
}
