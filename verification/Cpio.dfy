/** The loader of the initial file system: a parser of newc cpio archives. */
module Cpio {
  import opened Words
  import opened Splices
  import opened Numbers

  const HEADER_LEN: nat := 110
  const MODE_FIELD: nat := 1
  const FILESIZE_FIELD: nat := 6
  const NAMESIZE_FIELD: nat := 11

  /** "070701" and "TRAILER!!!" */
  const MAGIC: seq<byte> := [0x30, 0x37, 0x30, 0x37, 0x30, 0x31]
  const TRAILER: seq<byte> := [0x54, 0x52, 0x41, 0x49, 0x4c, 0x45, 0x52, 0x21, 0x21, 0x21]

  /** What the loader creates. */
  datatype Entry = Directory(name: seq<byte>) | File(name: seq<byte>, contents: seq<byte>)

  /** Why it stops. */
  datatype End = AtTrailer | BadMagic | PathTooLong | ShortHeader

  datatype Unpacked = Unpacked(entries: seq<Entry>, end: End)

  // ----- The parser as a function

  /** The bytes that a read of up to `n` bytes gives. */
  function Bytes(archive: seq<byte>, pos: nat, n: nat): (r: seq<byte>)
    ensures |r| <= n && (pos + n <= |archive| ==> r == archive[pos..pos + n])
  {
    if pos >= |archive| then [] else if pos + n <= |archive| then archive[pos..pos + n] else archive[pos..]
  }

  /** strtoul of some characters, terminated behind them. */
  function Number(characters: seq<byte>): uint32 {
    var text := Text(characters + [0]);
    if AllDigits(text, 16) then ToU32(Horner(text, 16)) else 0
  }

  /** strtoul of an eight-byte field. */
  function Field(header: seq<byte>, i: nat): uint32
    requires |header| == HEADER_LEN && i < 13
  {
    Number(header[6 + 8 * i..14 + 8 * i])
  }

  /** The next multiple of four, as the loader's padding computes it. */
  function AlignUp(pos: nat): (r: nat)
    ensures r % 4 == 0 && pos <= r < pos + 4
  {
    pos + (4 - pos % 4) % 4
  }

  predicate IsDirectory(mode: uint32) {
    mode / 0x1000 % 0x10 == 4
  }

  /** The name buffer after the name was read over the last field, and the C string in it. */
  function NameIn(header: seq<byte>, bytes: seq<byte>): seq<byte>
    requires |header| == HEADER_LEN && |bytes| <= 128
  {
    Text(Splice(Splice(seq(128, _ => 0), 0, header[6 + 8 * FILESIZE_FIELD..14 + 8 * FILESIZE_FIELD]), 0, bytes))
  }

  /** One round of the loader: it stops, or creates something and goes on at another position. */
  datatype Round = Stop(end: End) | Made(entry: Entry, next: nat)

  function RoundAt(archive: seq<byte>, pos: nat): (r: Round)
    ensures r.Made? ==> pos < r.next && pos < |archive| && r.next % 4 == 0
  {
    var header := Bytes(archive, pos, HEADER_LEN);
    if |header| < HEADER_LEN then Stop(ShortHeader)
    else if header[..6] != MAGIC then Stop(BadMagic)
    else if Bytes(archive, pos + HEADER_LEN, 10) == TRAILER then Stop(AtTrailer)
    else if Field(header, NAMESIZE_FIELD) > 128 then Stop(PathTooLong)
    else
      var nameBytes := Bytes(archive, pos + HEADER_LEN, Field(header, NAMESIZE_FIELD));
      var name := NameIn(header, nameBytes);
      var afterName := AlignUp(pos + HEADER_LEN + |nameBytes|);
      if IsDirectory(Field(header, MODE_FIELD)) then Made(Directory(name), afterName)
      else
        var contents := Bytes(archive, afterName, Field(header, FILESIZE_FIELD));
        Made(File(name, contents), AlignUp(afterName + |contents|))
  }

  /** The two texts, letter by letter. */
  lemma Spelled()
    ensures |MAGIC| == 6 && forall k | 0 <= k < 6 :: MAGIC[k] == "070701"[k] as int
    ensures |TRAILER| == 10 && forall k | 0 <= k < 10 :: TRAILER[k] == "TRAILER!!!"[k] as int
  {
  }

  /** Where the name's size is in a header, as strtoul reads it. */
  function NameSizeAt(archive: seq<byte>, pos: nat): uint32
    requires pos + 110 <= |archive|
  {
    Number(archive[pos + 94..pos + 102])
  }

  /** Why a round stops: by what is left of the archive, the first six bytes, the ten behind the header, and the name's
      size, in this order. */
  lemma WhyItStops(archive: seq<byte>, pos: nat)
    ensures RoundAt(archive, pos) == Stop(ShortHeader) <==> pos + 110 > |archive|
    ensures pos + 110 <= |archive| ==>
              && (RoundAt(archive, pos) == Stop(BadMagic) <==> archive[pos..pos + 6] != MAGIC)
              && (RoundAt(archive, pos) == Stop(AtTrailer) <==>
                    archive[pos..pos + 6] == MAGIC && Bytes(archive, pos + 110, 10) == TRAILER)
              && (RoundAt(archive, pos) == Stop(PathTooLong) <==>
                    && archive[pos..pos + 6] == MAGIC && Bytes(archive, pos + 110, 10) != TRAILER
                    && NameSizeAt(archive, pos) > 128)
  {
    if pos + 110 <= |archive| {
      var header := archive[pos..pos + 110];
      assert header[..6] == archive[pos..pos + 6];
      assert forall k | 0 <= k < 8 :: header[94..102][k] == archive[pos + 94..pos + 102][k];
      assert header[94..102] == archive[pos + 94..pos + 102];
    }
  }

  /** A name that is not terminated and shorter than eight bytes goes on with the digits of the file's size, which are
      in the buffer that it is read into. */
  lemma NameGoesOn(header: seq<byte>, bytes: seq<byte>)
    requires |header| == HEADER_LEN && |bytes| < 8 && 0 !in bytes && 0 !in header[54..62]
    ensures NameIn(header, bytes) == bytes + header[54 + |bytes|..62]
  {
    var size := header[54..62];
    var first := Splice(seq(128, _ => 0), 0, size);
    var buffer := Splice(first, 0, bytes);
    SpliceAt(seq(128, _ => 0), 0, size);
    SpliceAt(first, 0, bytes);
    assert buffer[..8] == bytes + header[54 + |bytes|..62];
    TextIs(buffer, 8);
  }

  /** The loader from a position on. */
  function Unpack(archive: seq<byte>, pos: nat): Unpacked
    decreases |archive| - pos
  {
    match RoundAt(archive, pos)
    case Stop(end) => Unpacked([], end)
    case Made(entry, next) =>
      var rest := Unpack(archive, next);
      Unpacked([entry] + rest.entries, rest.end)
  }

  // ----- The loader

  /** What was created so far and what is left make up the whole. */
  ghost predicate Completes(whole: Unpacked, made: seq<Entry>, left: Unpacked) {
    whole == Unpacked(made + left.entries, left.end)
  }

  lemma CompletesStep(whole: Unpacked, made: seq<Entry>, entry: Entry, rest: Unpacked)
    requires Completes(whole, made, Unpacked([entry] + rest.entries, rest.end))
    ensures Completes(whole, made + [entry], rest)
  {
    assert made + ([entry] + rest.entries) == made + [entry] + rest.entries;
  }

  lemma CompletesEnd(whole: Unpacked, made: seq<Entry>, end: End)
    requires Completes(whole, made, Unpacked([], end))
    ensures whole == Unpacked(made, end)
  {
    assert made + [] == made;
  }

  lemma CompletesStart(whole: Unpacked)
    ensures Completes(whole, [], whole)
  {
    assert [] + whole.entries == whole.entries;
  }

  /** load_initramfs, over the bytes of the archive: what it creates, in order, and why it stops. */
  method LoadInitramfs(archive: seq<byte>) returns (entries: seq<Entry>, end: End)
    ensures Unpacked(entries, end) == Unpack(archive, 0)
  {
    entries := [];
    var pos := 0;
    ghost var whole := Unpack(archive, 0);
    CompletesStart(whole);
    while true
      invariant Completes(whole, entries, Unpack(archive, pos))
      decreases |archive| - pos
    {
      var round := LoadNext(archive, pos);
      if round.Stop? {
        CompletesEnd(whole, entries, round.end);
        return entries, round.end;
      }
      CompletesStep(whole, entries, round.entry, Unpack(archive, round.next));
      entries, pos := entries + [round.entry], round.next;
    }
  }

  /** The body of the loop: a header, a name and, for a file, its contents are read. */
  method LoadNext(archive: seq<byte>, start: nat) returns (round: Round)
    ensures round == RoundAt(archive, start)
  {
    var pos := start;
    var header := Bytes(archive, pos, HEADER_LEN);
    if |header| < HEADER_LEN {
      return Stop(ShortHeader);
    }
    pos := pos + HEADER_LEN;
    if header[..6] != MAGIC {
      return Stop(BadMagic);
    }
    if Bytes(archive, pos, 10) == TRAILER {
      return Stop(AtTrailer);
    }
    var mode, nameSize, fileSize := ReadFields(header);
    if nameSize > 128 {
      return Stop(PathTooLong);
    }
    var buffer := Splice(seq(128, _ => 0), 0, header[6 + 8 * FILESIZE_FIELD..14 + 8 * FILESIZE_FIELD]);
    var nameBytes := Bytes(archive, pos, nameSize);
    buffer := Splice(buffer, 0, nameBytes);
    pos := AlignUp(pos + |nameBytes|);
    if IsDirectory(mode) {
      round := Made(Directory(Text(buffer)), pos);
    } else {
      var contents := Bytes(archive, pos, fileSize);
      round := Made(File(Text(buffer), contents), AlignUp(pos + |contents|));
    }
  }

  /** The three numbers that the loader takes out of a header. */
  method ReadFields(header: seq<byte>) returns (mode: uint32, nameSize: uint32, fileSize: uint32)
    requires |header| == HEADER_LEN
    ensures mode == Field(header, MODE_FIELD) && nameSize == Field(header, NAMESIZE_FIELD)
    ensures fileSize == Field(header, FILESIZE_FIELD)
  {
    var end;
    mode, end := Strtoul(Text(header[6 + 8 * MODE_FIELD..14 + 8 * MODE_FIELD] + [0]), 16);
    nameSize, end := Strtoul(Text(header[6 + 8 * NAMESIZE_FIELD..14 + 8 * NAMESIZE_FIELD] + [0]), 16);
    fileSize, end := Strtoul(Text(header[6 + 8 * FILESIZE_FIELD..14 + 8 * FILESIZE_FIELD] + [0]), 16);
  }

  // ----- A printer of archives

  /** `n` hexadecimal digits, leading zeros included. */
  function FixedHex(v: nat, n: nat): (s: seq<byte>)
    ensures |s| == n
  {
    if n == 0 then [] else FixedHex(v / 16, n - 1) + [DigitChar(v % 16)]
  }

  lemma {:induction false} FixedHexReads(v: nat, n: nat)
    requires v < Pow(16, n)
    ensures AllDigits(FixedHex(v, n), 16) && 0 !in FixedHex(v, n) && Horner(FixedHex(v, n), 16) == v
    decreases n
  {
    if n > 0 {
      FixedHexReads(v / 16, n - 1);
      DigitOfChar(v % 16);
      assert FixedHex(v, n)[..n - 1] == FixedHex(v / 16, n - 1);
    }
  }

  /** The fields of a header one after the other. */
  function HexFields(fields: seq<uint32>): (s: seq<byte>)
    ensures |s| == 8 * |fields|
  {
    if fields == [] then [] else FixedHex(fields[0], 8) + HexFields(fields[1..])
  }

  lemma {:induction false} HexFieldAt(fields: seq<uint32>, i: nat)
    requires i < |fields|
    ensures HexFields(fields)[8 * i..8 * i + 8] == FixedHex(fields[i], 8)
    decreases |fields|
  {
    if i > 0 {
      HexFieldAt(fields[1..], i - 1);
      assert HexFields(fields)[8 * i..8 * i + 8] == HexFields(fields[1..])[8 * (i - 1)..8 * (i - 1) + 8];
    }
  }

  /** What a member of an archive is: a directory, or anything else, of which the loader makes a file. */
  datatype Kind = Folder | Other

  /** An archive member: what it is, the numbers of its header apart from the sizes of its name and contents, and
      these. */
  datatype Item = Item(
    kind: Kind,
    ino: uint32, mode: uint32, uid: uint32, gid: uint32, nlink: uint32, mtime: uint32,
    devMajor: uint32, devMinor: uint32, rdevMajor: uint32, rdevMinor: uint32, check: uint32,
    name: seq<byte>, contents: seq<byte>)

  /** The lower 16 bits of a directory's mode are 040000 to 047777 octal, and those of everything else are not. */
  predicate ModeFits(mode: uint32, kind: Kind) {
    var low := mode % 0x1_0000;
    if kind == Folder then 0x4000 <= low < 0x5000 else low < 0x4000 || 0x5000 <= low
  }

  lemma ModeTells(mode: uint32, kind: Kind)
    requires ModeFits(mode, kind)
    ensures IsDirectory(mode) <==> kind == Folder
  {
  }

  /** The name has less than 128 bytes and no zeros, the contents' size fits its field, and a directory has none. */
  predicate Printable(item: Item) {
    && 0 !in item.name && |item.name| < 128 && |item.contents| < TWO32
    && ModeFits(item.mode, item.kind) && (item.kind == Folder ==> item.contents == [])
  }

  /** The thirteen numbers of a header, in the order of the newc format. */
  function FieldsOf(item: Item): (fields: seq<uint32>)
    requires Printable(item)
    ensures |fields| == 13
  {
    [item.ino, item.mode, item.uid, item.gid, item.nlink, item.mtime, |item.contents|,
     item.devMajor, item.devMinor, item.rdevMajor, item.rdevMinor, |item.name| + 1, item.check]
  }

  function HeaderOf(item: Item): (h: seq<byte>)
    requires Printable(item)
    ensures |h| == HEADER_LEN
  {
    MAGIC + HexFields(FieldsOf(item))
  }

  function Zeros(n: nat): (z: seq<byte>)
    ensures |z| == n
  {
    seq(n, _ => 0)
  }

  /** Zeros up to the next multiple of four. */
  function Padded(s: seq<byte>): (r: seq<byte>)
    ensures |r| == AlignUp(|s|) && s <= r
  {
    s + Zeros(AlignUp(|s|) - |s|)
  }

  /** A header and a name, padded, and the contents, padded. */
  function PrintParts(h: seq<byte>, n: seq<byte>, c: seq<byte>): (s: seq<byte>)
    ensures |s| % 4 == 0
  {
    SumAligned(|Padded(h + n)|, |Padded(c)|);
    Padded(h + n) + Padded(c)
  }

  function PrintItem(item: Item): (s: seq<byte>)
    requires Printable(item)
    ensures |s| % 4 == 0
  {
    PrintParts(HeaderOf(item), item.name + [0], item.contents)
  }

  const TRAILER_ITEM: Item := Item(Other, 0, 0, 0, 0, 0, 0, 0, 0, 0, 0, 0, TRAILER, [])

  /** Items that the loader reads to the end: none is named like the trailer. */
  predicate AllPrintable(items: seq<Item>) {
    items == [] || (Printable(items[0]) && AllPrintable(items[1..]))
  }

  predicate NoTrailer(items: seq<Item>) {
    items == [] || (!(TRAILER <= items[0].name) && NoTrailer(items[1..]))
  }

  function PrintItems(items: seq<Item>): (s: seq<byte>)
    requires AllPrintable(items)
    ensures |s| % 4 == 0
  {
    if items == [] then [] else
      SumAligned(|PrintItem(items[0])|, |PrintItems(items[1..])|);
      PrintItem(items[0]) + PrintItems(items[1..])
  }

  lemma SumAligned(a: nat, b: nat)
    requires a % 4 == 0 && b % 4 == 0
    ensures (a + b) % 4 == 0
  {
  }

  /** The printed archive: every header begins at a multiple of four. */
  function PrintAll(items: seq<Item>): (s: seq<byte>)
    requires AllPrintable(items)
  {
    PrintItems(items) + PrintItem(TRAILER_ITEM)
  }

  /** What a member is to become, by its kind. */
  function EntryOf(item: Item): Entry
    requires Printable(item)
  {
    match item.kind
    case Folder => Directory(item.name)
    case Other => File(item.name, item.contents)
  }

  function EntriesOf(items: seq<Item>): seq<Entry>
    requires AllPrintable(items)
  {
    if items == [] then [] else [EntryOf(items[0])] + EntriesOf(items[1..])
  }

  // ----- Round trip

  lemma EightDigits()
    ensures Pow(16, 8) == TWO32
  {
    assert Pow(16, 4) == 0x1_0000;
  }

  lemma NumberIs(characters: seq<byte>, v: uint32)
    requires Text(characters + [0]) == characters && AllDigits(characters, 16) && Horner(characters, 16) == v
    ensures Number(characters) == v
  {
  }

  lemma Terminated(digits: seq<byte>)
    requires 0 !in digits
    ensures Text(digits + [0]) == digits
  {
    assert (digits + [0])[..|digits|] == digits;
    TextIs(digits + [0], |digits|);
  }

  /** The eight digits of a field give its number. */
  lemma FieldText(v: uint32)
    ensures Number(FixedHex(v, 8)) == v
  {
    EightDigits();
    FixedHexReads(v, 8);
    Terminated(FixedHex(v, 8));
    NumberIs(FixedHex(v, 8), v);
  }

  lemma SliceBehind(a: seq<byte>, b: seq<byte>, i: nat, j: nat)
    requires i <= j <= |b|
    ensures (a + b)[|a| + i..|a| + j] == b[i..j]
  {
  }

  lemma FieldOfHeader(item: Item, i: nat)
    requires Printable(item) && i < 13
    ensures Field(HeaderOf(item), i) == FieldsOf(item)[i]
  {
    var fields, h := FieldsOf(item), HeaderOf(item);
    HexFieldAt(fields, i);
    SliceBehind(MAGIC, HexFields(fields), 8 * i, 8 * i + 8);
    assert h[6 + 8 * i..14 + 8 * i] == FixedHex(fields[i], 8);
    FieldText(fields[i]);
  }

  lemma Regroup3<T>(a: seq<T>, b: seq<T>, c: seq<T>)
    ensures a + b + c == a + (b + c)
  {
  }

  /** A padded part of what lies from `pos` on: its bytes, and what follows. */
  lemma PaddedPart(archive: seq<byte>, pos: nat, part: seq<byte>, rest: seq<byte>)
    requires pos <= |archive| && archive[pos..] == Padded(part) + rest && pos % 4 == 0
    ensures Bytes(archive, pos, |part|) == part
    ensures AlignUp(pos + |part|) == pos + |Padded(part)| <= |archive|
    ensures archive[pos + |Padded(part)|..] == rest
  {
    var t := archive[pos..];
    assert t[..|part|] == Padded(part)[..|part|] == part;
    assert t[|Padded(part)|..] == rest;
    AlignedSum(pos, |part|);
    if pos == |archive| { assert part == []; }
  }

  lemma AlignedSum(pos: nat, n: nat)
    requires pos % 4 == 0
    ensures AlignUp(pos + n) == pos + AlignUp(n)
  {
  }

  lemma BytesSplit(archive: seq<byte>, pos: nat, a: seq<byte>, b: seq<byte>)
    requires Bytes(archive, pos, |a| + |b|) == a + b && a != []
    ensures Bytes(archive, pos, |a|) == a && Bytes(archive, pos + |a|, |b|) == b
  {
    var t := a + b;
    assert t[..|a|] == a && t[|a|..] == b;
    assert archive[pos..pos + |a|] == a;
    if pos + |a| == |archive| { assert b == []; }
  }

  /** The parts of a printed item, in their places. */
  lemma PartsAt(archive: seq<byte>, pos: nat, h: seq<byte>, n: seq<byte>, c: seq<byte>, rest: seq<byte>)
    requires pos <= |archive| && archive[pos..] == PrintParts(h, n, c) + rest && pos % 4 == 0 && h != []
    ensures Bytes(archive, pos, |h|) == h && Bytes(archive, pos + |h|, |n|) == n
    ensures Bytes(archive, AlignUp(pos + |h| + |n|), |c|) == c
    ensures AlignUp(AlignUp(pos + |h| + |n|) + |c|) == pos + |PrintParts(h, n, c)|
  {
    FrontAt(archive, pos, h, n, Padded(c), rest);
    var next := pos + |Padded(h + n)|;
    PaddedPart(archive, next, c, rest);
  }

  /** The first two, and where they end. */
  lemma FrontAt(archive: seq<byte>, pos: nat, h: seq<byte>, n: seq<byte>, b: seq<byte>, rest: seq<byte>)
    requires pos <= |archive| && archive[pos..] == Padded(h + n) + b + rest && pos % 4 == 0 && h != []
    ensures Bytes(archive, pos, |h|) == h && Bytes(archive, pos + |h|, |n|) == n
    ensures AlignUp(pos + |h| + |n|) == pos + |Padded(h + n)| <= |archive| && (pos + |Padded(h + n)|) % 4 == 0
    ensures archive[pos + |Padded(h + n)|..] == b + rest
  {
    Regroup3(Padded(h + n), b, rest);
    PaddedPart(archive, pos, h + n, b + rest);
    BytesSplit(archive, pos, h, n);
    SumAligned(pos, |Padded(h + n)|);
  }

  /** The ten bytes behind a header spell the trailer's name exactly when the item's name begins with it. */
  lemma TrailerTest(archive: seq<byte>, pos: nat, item: Item)
    requires 0 !in item.name && Bytes(archive, pos, |item.name| + 1) == item.name + [0]
    ensures Bytes(archive, pos, 10) == TRAILER <==> TRAILER <= item.name
  {
    var t, n := Bytes(archive, pos, 10), item.name + [0];
    if |n| >= 10 {
      assert t == n[..10];
      if |item.name| >= 10 { assert n[..10] == item.name[..10]; } else { assert t[9] == 0; }
    } else if |t| == 10 {
      assert t[|item.name|] == n[|item.name|] == 0;
      assert 0 !in TRAILER;
    }
  }

  /** The C string in the name buffer is the item's name. */
  lemma NameIsRead(item: Item)
    requires Printable(item)
    ensures NameIn(HeaderOf(item), item.name + [0]) == item.name
  {
    var n := item.name + [0];
    var first := Splice(seq(128, _ => 0), 0, HeaderOf(item)[6 + 8 * FILESIZE_FIELD..14 + 8 * FILESIZE_FIELD]);
    var buffer := Splice(first, 0, n);
    SpliceSelf(first, 0, n);
    assert buffer[..|n|] == n;
    assert buffer[..|item.name|] == n[..|item.name|] == item.name;
    assert buffer[|item.name|] == n[|item.name|];
    TextIs(buffer, |item.name|);
  }

  /** A header, a name and contents are there, and the header fits them. */
  ghost predicate Readable(archive: seq<byte>, pos: nat, header: seq<byte>, name: seq<byte>, contents: seq<byte>) {
    && |header| == HEADER_LEN && Bytes(archive, pos, HEADER_LEN) == header && header[..6] == MAGIC
    && Bytes(archive, pos + HEADER_LEN, 10) != TRAILER
    && Field(header, NAMESIZE_FIELD) == |name| <= 128 && Field(header, FILESIZE_FIELD) == |contents|
    && Bytes(archive, pos + HEADER_LEN, |name|) == name
    && Bytes(archive, AlignUp(pos + HEADER_LEN + |name|), |contents|) == contents
    && (IsDirectory(Field(header, MODE_FIELD)) ==> contents == [])
  }

  /** A round of the loader over them. */
  lemma RoundMakes(archive: seq<byte>, pos: nat, header: seq<byte>, name: seq<byte>, contents: seq<byte>, entry: Entry)
    requires Readable(archive, pos, header, name, contents)
    requires entry == if IsDirectory(Field(header, MODE_FIELD)) then Directory(NameIn(header, name))
                      else File(NameIn(header, name), contents)
    ensures RoundAt(archive, pos) == Made(entry, AlignUp(AlignUp(pos + HEADER_LEN + |name|) + |contents|))
  {
  }

  lemma ItemReadable(archive: seq<byte>, pos: nat, item: Item, rest: seq<byte>)
    requires Printable(item) && !(TRAILER <= item.name)
    requires pos <= |archive| && archive[pos..] == PrintItem(item) + rest && pos % 4 == 0
    ensures Readable(archive, pos, HeaderOf(item), item.name + [0], item.contents)
    ensures AlignUp(AlignUp(pos + HEADER_LEN + |item.name + [0]|) + |item.contents|) == pos + |PrintItem(item)|
  {
    PartsAt(archive, pos, HeaderOf(item), item.name + [0], item.contents, rest);
    TrailerTest(archive, pos + HEADER_LEN, item);
    FieldsOfHeader(item);
    ModeTells(item.mode, item.kind);
  }

  lemma EntryIsRead(item: Item)
    requires Printable(item)
    ensures EntryOf(item) ==
              if IsDirectory(Field(HeaderOf(item), MODE_FIELD)) then Directory(NameIn(HeaderOf(item), item.name + [0]))
              else File(NameIn(HeaderOf(item), item.name + [0]), item.contents)
  {
    NameIsRead(item);
    FieldsOfHeader(item);
    ModeTells(item.mode, item.kind);
  }

  lemma FieldsOfHeader(item: Item)
    requires Printable(item)
    ensures HeaderOf(item)[..6] == MAGIC && Field(HeaderOf(item), MODE_FIELD) == item.mode
    ensures Field(HeaderOf(item), FILESIZE_FIELD) == |item.contents|
    ensures Field(HeaderOf(item), NAMESIZE_FIELD) == |item.name| + 1
  {
    FieldOfHeader(item, MODE_FIELD);
    FieldOfHeader(item, FILESIZE_FIELD);
    FieldOfHeader(item, NAMESIZE_FIELD);
    assert HeaderOf(item)[..6] == MAGIC;
  }

  /** One printed item, not named like the trailer, is unpacked as its entry, up to its end. */
  lemma ItemUnpacks(archive: seq<byte>, pos: nat, item: Item, rest: seq<byte>)
    requires Printable(item) && !(TRAILER <= item.name)
    requires pos <= |archive| && archive[pos..] == PrintItem(item) + rest && pos % 4 == 0
    ensures RoundAt(archive, pos) == Made(EntryOf(item), pos + |PrintItem(item)|)
  {
    hide RoundAt, Readable, Field, NameIn, EntryOf, AlignUp, PrintItem;
    ItemReadable(archive, pos, item, rest);
    EntryIsRead(item);
    RoundMakes(archive, pos, HeaderOf(item), item.name + [0], item.contents, EntryOf(item));
  }

  lemma TrailerStops(archive: seq<byte>, pos: nat, item: Item, rest: seq<byte>)
    requires Printable(item) && TRAILER <= item.name && pos % 4 == 0
    requires pos <= |archive| && archive[pos..] == PrintItem(item) + rest
    ensures RoundAt(archive, pos) == Stop(AtTrailer)
  {
    PartsAt(archive, pos, HeaderOf(item), item.name + [0], item.contents, rest);
    TrailerTest(archive, pos + HEADER_LEN, item);
    assert HeaderOf(item)[..6] == MAGIC;
  }

  lemma UnpackMade(archive: seq<byte>, pos: nat, entry: Entry, next: nat, rest: Unpacked)
    requires RoundAt(archive, pos) == Made(entry, next) && Unpack(archive, next) == rest
    ensures Unpack(archive, pos) == Unpacked([entry] + rest.entries, rest.end)
  {
  }

  /** One printed item: what the rest unpacks to gets its entry in front. */
  lemma ItemInFront(archive: seq<byte>, pos: nat, item: Item, rest: seq<byte>, unpacked: Unpacked)
    requires Printable(item) && !(TRAILER <= item.name)
    requires pos <= |archive| && archive[pos..] == PrintItem(item) + rest && pos % 4 == 0
    requires Unpack(archive, pos + |PrintItem(item)|) == unpacked
    ensures Unpack(archive, pos) == Unpacked([EntryOf(item)] + unpacked.entries, unpacked.end)
  {
    ItemUnpacks(archive, pos, item, rest);
    UnpackMade(archive, pos, EntryOf(item), pos + |PrintItem(item)|, unpacked);
  }

  lemma TrailerUnpacks(archive: seq<byte>, pos: nat, item: Item, rest: seq<byte>)
    requires Printable(item) && TRAILER <= item.name && pos % 4 == 0
    requires pos <= |archive| && archive[pos..] == PrintItem(item) + rest
    ensures Unpack(archive, pos) == Unpacked([], AtTrailer)
  {
    TrailerStops(archive, pos, item, rest);
  }

  lemma FrontPart(archive: seq<byte>, pos: nat, a: seq<byte>, b: seq<byte>, rest: seq<byte>)
    requires pos <= |archive| && archive[pos..] == a + b + rest && pos % 4 == 0 && |a| % 4 == 0
    ensures archive[pos..] == a + (b + rest)
    ensures pos + |a| <= |archive| && (pos + |a|) % 4 == 0 && archive[pos + |a|..] == b + rest
  {
    Regroup3(a, b, rest);
    assert archive[pos..][|a|..] == b + rest;
    SumAligned(pos, |a|);
  }

  /** Printed items, one after the other, are unpacked as their entries, in order, in front of what the rest
      unpacks to. */
  lemma {:induction false} ItemsUnpack(archive: seq<byte>, pos: nat, items: seq<Item>, rest: seq<byte>,
                                       unpacked: Unpacked)
    requires AllPrintable(items) && NoTrailer(items) && pos % 4 == 0
    requires pos <= |archive| && archive[pos..] == PrintItems(items) + rest
    requires Unpack(archive, pos + |PrintItems(items)|) == unpacked
    ensures Unpack(archive, pos) == Unpacked(EntriesOf(items) + unpacked.entries, unpacked.end)
    decreases |items|
  {
    if items == [] {
      assert EntriesOf(items) + unpacked.entries == unpacked.entries;
    } else {
      var tail := items[1..];
      FrontPart(archive, pos, PrintItem(items[0]), PrintItems(tail), rest);
      ItemsUnpack(archive, pos + |PrintItem(items[0])|, tail, rest, unpacked);
      ItemAndRest(archive, pos, items[0], EntriesOf(tail), PrintItems(tail) + rest, unpacked);
    }
  }

  lemma ItemAndRest(archive: seq<byte>, pos: nat, item: Item, entries: seq<Entry>, rest: seq<byte>, unpacked: Unpacked)
    requires Printable(item) && !(TRAILER <= item.name) && pos % 4 == 0
    requires pos <= |archive| && archive[pos..] == PrintItem(item) + rest
    requires Unpack(archive, pos + |PrintItem(item)|) == Unpacked(entries + unpacked.entries, unpacked.end)
    ensures Unpack(archive, pos) == Unpacked([EntryOf(item)] + entries + unpacked.entries, unpacked.end)
  {
    ItemInFront(archive, pos, item, rest, Unpacked(entries + unpacked.entries, unpacked.end));
    Regroup3([EntryOf(item)], entries, unpacked.entries);
  }

  /** A name that begins like the trailer's ends the archive early, whatever follows. */
  lemma EarlyTrailer(items: seq<Item>, item: Item, rest: seq<byte>)
    requires AllPrintable(items) && NoTrailer(items) && Printable(item) && TRAILER <= item.name
    ensures Unpack(PrintItems(items) + (PrintItem(item) + rest), 0) == Unpacked(EntriesOf(items), AtTrailer)
  {
    var front, back := PrintItems(items), PrintItem(item) + rest;
    var archive := front + back;
    assert archive[|front|..] == back && archive[0..] == archive;
    TrailerUnpacks(archive, |front|, item, rest);
    ItemsUnpack(archive, 0, items, back, Unpacked([], AtTrailer));
    assert EntriesOf(items) + [] == EntriesOf(items);
  }

  /**
   Round trip: the loader creates exactly the printed directories and files, in order, with their contents,
   and stops at the trailer.
   */
  lemma RoundTrip(items: seq<Item>)
    requires AllPrintable(items) && NoTrailer(items)
    ensures Unpack(PrintAll(items), 0) == Unpacked(EntriesOf(items), AtTrailer)
  {
    EarlyTrailer(items, TRAILER_ITEM, []);
    NothingBehind(PrintItem(TRAILER_ITEM));
  }

  lemma NothingBehind<T>(s: seq<T>)
    ensures s + [] == s
  {
  }
}
