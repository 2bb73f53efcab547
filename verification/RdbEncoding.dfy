/** A specification encoder for the supported part of the RDB format ("Length Encoding",
    "String Encoding") and the proof that the loader of RdbFile inverts it; with the inputs
    of the format on which it does not. */
module RdbEncoding {
  import opened Prelude
  import opened Bytes
  import opened Resp
  import opened RdbFile
  import S = Store

  /** A string object of the format: raw bytes, or a signed integer in one of the three
      widths, which stands for its decimal text. */
  datatype RdbString = Raw(bytes: seq<Byte>) | Int8(n: int) | Int16(n: int) | Int32(n: int)

  datatype Due = Never | Millis(ms: nat) | Seconds(s: nat)

  datatype Entry = Entry(key: RdbString, value: RdbString, due: Due)

  /** A length in its 6-bit or its 14-bit form. */
  datatype Size = Short(n: nat) | Long(n: nat)

  datatype Section =
    | Meta(attribute: RdbString, value: RdbString)
    | Table(index: Size, count: Size, expiring: Size, entries: seq<Entry>)

  /** What the format allows, raw strings up to the 14-bit length. */
  predicate InFormat(s: RdbString) {
    match s
    case Raw(bytes) => |bytes| < 0x4000
    case Int8(n) => -0x80 <= n < 0x80
    case Int16(n) => -0x8000 <= n < 0x8000
    case Int32(n) => -0x8000_0000 <= n < 0x8000_0000
  }

  /** What of it the loader supports. */
  predicate ValidString(s: RdbString) {
    InFormat(s) && if s.Raw? then |s.bytes| < 64 else s.n >= 0
  }

  /** What the format allows: a 64-bit and a 32-bit field. */
  predicate DueInFormat(d: Due) {
    match d
    case Never => true
    case Millis(ms) => ms < 0x1_0000_0000_0000_0000
    case Seconds(s) => s < 0x1_0000_0000
  }

  /** What of it the loader supports: millisecond expiries fit a `long`, second expiries
      survive the 32-bit product, and neither is 0, which the store takes for no expiry. */
  predicate ValidDue(d: Due) {
    match d
    case Never => true
    case Millis(ms) => 0 < ms < 0x8000_0000_0000_0000
    case Seconds(s) => 0 < s <= 4294967
  }

  predicate ValidEntry(e: Entry) { ValidString(e.key) && ValidString(e.value) && ValidDue(e.due) }

  predicate ValidSize(z: Size) { z.n < (if z.Short? then 0x40 else 0x4000) }

  predicate ValidSection(s: Section) {
    match s
    case Meta(a, v) => ValidString(a) && ValidString(v) && Text(a) != "" && Text(v) != ""
    case Table(index, count, expiring, entries) =>
      && ValidSize(index) && ValidSize(count) && ValidSize(expiring)
      && count.n == |entries| <= 255
      && forall i :: 0 <= i < |entries| ==> ValidEntry(entries[i])
  }

  // ---------------------------------------------------------------------------
  // Meaning and encoding.

  function Text(s: RdbString): string { if s.Raw? then AsString(s.bytes) else ToString(s.n) }

  function Expiry(d: Due): int {
    match d
    case Never => 0
    case Millis(ms) => ms
    case Seconds(s) => s * 1000
  }

  function Write(e: Entry): S.Op { S.Write(Text(e.key), Text(e.value), Expiry(e.due)) }

  function Writes(entries: seq<Entry>): seq<S.Op> { seq(|entries|, i requires 0 <= i < |entries| => Write(entries[i])) }

  function SectionWrites(s: Section): seq<S.Op> { if s.Meta? then [] else Writes(s.entries) }

  function AllWrites(sections: seq<Section>): seq<S.Op> {
    if sections == [] then [] else SectionWrites(sections[0]) + AllWrites(sections[1..])
  }

  /** Two's complement. */
  function Stored(n: int, width: nat): nat
    requires -(Pow256(width) as int) <= n
  {
    if n < 0 then n + Pow256(width) else n
  }

  function EncodeString(s: RdbString): seq<Byte>
    requires InFormat(s)
  {
    Powers();
    match s
    case Raw(bytes) => EncodeSize(if |bytes| < 64 then Short(|bytes|) else Long(|bytes|)) + bytes
    case Int8(n) => [0xC0] + ToLE(Stored(n, 1), 1)
    case Int16(n) => [0xC1] + ToLE(Stored(n, 2), 2)
    case Int32(n) => [0xC2] + ToLE(Stored(n, 4), 4)
  }

  function EncodeDue(d: Due): seq<Byte> {
    match d
    case Never => []
    case Millis(ms) => [0xFC] + ToLE(ms, 8)
    case Seconds(s) => [0xFD] + ToLE(s, 4)
  }

  function EncodeEntry(e: Entry): seq<Byte>
    requires ValidEntry(e)
  {
    EncodeDue(e.due) + ([0] + (EncodeString(e.key) + EncodeString(e.value)))
  }

  function EncodeEntries(entries: seq<Entry>): seq<Byte>
    requires forall i :: 0 <= i < |entries| ==> ValidEntry(entries[i])
  {
    if entries == [] then [] else EncodeEntry(entries[0]) + EncodeEntries(entries[1..])
  }

  function EncodeSize(z: Size): seq<Byte>
    requires ValidSize(z)
  {
    if z.Short? then [z.n] else [0x40 + z.n / 256, z.n % 256]
  }

  function EncodeSection(s: Section): seq<Byte>
    requires ValidSection(s)
  {
    match s
    case Meta(a, v) => MetaBytes(EncodeString(a), EncodeString(v))
    case Table(index, count, expiring, entries) =>
      TableBytes(EncodeSize(index), EncodeSize(count), EncodeSize(expiring), EncodeEntries(entries))
  }

  function MetaBytes(attribute: seq<Byte>, value: seq<Byte>): seq<Byte> { [0xFA] + (attribute + value) }

  function TableBytes(index: seq<Byte>, count: seq<Byte>, expiring: seq<Byte>, entries: seq<Byte>): seq<Byte> {
    [0xFE] + (index + ([0xFB] + (count + (expiring + entries))))
  }

  predicate AllValid(sections: seq<Section>) { forall i :: 0 <= i < |sections| ==> ValidSection(sections[i]) }

  function EncodeSections(sections: seq<Section>): seq<Byte>
    requires AllValid(sections)
  {
    if sections == [] then [] else EncodeSection(sections[0]) + EncodeSections(sections[1..])
  }

  /** What follows the sections must not look like one: the end marker and the checksum. */
  predicate Inert(trailer: seq<Byte>) { forall i :: 0 <= i < |trailer| ==> trailer[i] != 0xFA && trailer[i] != 0xFE }

  function EncodeFile(version: seq<Byte>, sections: seq<Section>, trailer: seq<Byte>): File
    requires AllValid(sections)
  {
    MAGIC + version + EncodeSections(sections) + trailer
  }

  // ---------------------------------------------------------------------------
  // Reading back values.

  lemma UnsignedAt(file: File, pos: nat, n: nat, width: nat, end: nat)
    requires n < Pow256(width) && At(file, pos, ToLE(n, width)) && end == pos + width
    ensures ReadUnsigned(file, pos, width) == Parsed(n, end)
  {
    LEBytes(n, width);
    LERoundTrip(n, width);
    AtIsSlice(file, pos, ToLE(n, width));
  }

  lemma Powers()
    ensures Pow256(1) == 0x100 && Pow256(2) == 0x1_0000 && Pow256(4) == 0x1_0000_0000
    ensures Pow256(8) == 0x1_0000_0000_0000_0000
  {
    assert Pow256(2) == 0x1_0000;
    assert Pow256(4) == 0x1_0000_0000;
    assert Pow256(6) == 0x1_0000_0000_0000;
  }

  /** A tag byte and an integer. */
  lemma TaggedAt(file: File, pos: nat, tag: Byte, n: nat, width: nat, end: nat)
    requires n < Pow256(width) && At(file, pos, [tag] + ToLE(n, width)) && end == pos + 1 + width
    ensures pos < |file| && file[pos] == tag && ReadUnsigned(file, pos + 1, width) == Parsed(n, end)
  {
    AtConcat(file, pos, [tag], ToLE(n, width));
    AtStart(file, pos, [tag], 0);
    UnsignedAt(file, pos + 1, n, width, end);
  }

  lemma IntegerStringAt(file: File, pos: nat, tag: Byte, n: nat, width: nat, end: nat)
    requires (tag == 0xC0 && width == 1) || (tag == 0xC1 && width == 2) || (tag == 0xC2 && width == 4)
    requires n < Pow256(width) && At(file, pos, [tag] + ToLE(n, width)) && end == pos + 1 + width
    ensures ReadString(file, pos) == Parsed(Decimal(n), end)
  {
    TaggedAt(file, pos, tag, n, width, end);
  }

  lemma IntegerExactly(file: File, pos: nat, tag: Byte, n: int, width: nat, end: nat)
    requires (tag == 0xC0 && width == 1) || (tag == 0xC1 && width == 2) || (tag == 0xC2 && width == 4)
    requires -(Pow256(width) as int) <= 2 * n < Pow256(width)
    requires At(file, pos, [tag] + ToLE(Stored(n, width), width)) && end == pos + 1 + width
    ensures ReadString(file, pos) == Parsed(ToString(n), end) <==> n >= 0
  {
    IntegerStringAt(file, pos, tag, Stored(n, width), width, end);
    if n < 0 {
      DecimalValue(Stored(n, width));
      assert ToString(n)[0] == '-';
      assert IsDigit(Decimal(Stored(n, width))[0]);
    }
  }

  /** The format's integers are signed; the loader reads them unsigned, so an encoded integer
      comes back as its own decimal text if and only if it is not negative. */
  lemma SignedIntegersExactly(file: File, pos: nat, s: RdbString, end: nat)
    requires InFormat(s) && !s.Raw? && At(file, pos, EncodeString(s)) && end == pos + |EncodeString(s)|
    ensures ReadString(file, pos) == Parsed(Text(s), end) <==> s.n >= 0
  {
    Powers();
    match s
    case Int8(n) => LEBytes(Stored(n, 1), 1); IntegerExactly(file, pos, 0xC0, n, 1, end);
    case Int16(n) => LEBytes(Stored(n, 2), 2); IntegerExactly(file, pos, 0xC1, n, 2, end);
    case Int32(n) => LEBytes(Stored(n, 4), 4); IntegerExactly(file, pos, 0xC2, n, 4, end);
  }

  lemma ShortRawAt(file: File, pos: nat, bytes: seq<Byte>)
    requires |bytes| < 64 && At(file, pos, [|bytes|] + bytes)
    ensures ReadString(file, pos) == Parsed(AsString(bytes), pos + 1 + |bytes|)
  {
    AtConcat(file, pos, [|bytes|], bytes);
    AtStart(file, pos, [|bytes|], 0);
    AtIsSlice(file, pos + 1, bytes);
  }

  /** The first length byte of a long string is 64 or more and below 128: the loader takes it
      for the length of a string that starts right behind it. */
  lemma LongRawAt(file: File, pos: nat, first: Byte, end: nat, text: string)
    requires pos < |file| && file[pos] == first && 0x40 <= first < 0x80
    requires end == pos + 2 + |text| && |text| / 256 == first - 0x40
    ensures ReadString(file, pos) != Parsed(text, end)
  {
  }

  /** Raw strings are read back, and the cursor left behind them, exactly below 64 bytes. */
  lemma RawStringsExactly(file: File, pos: nat, s: RdbString, end: nat)
    requires InFormat(s) && s.Raw? && At(file, pos, EncodeString(s)) && end == pos + |EncodeString(s)|
    ensures ReadString(file, pos) == Parsed(Text(s), end) <==> |s.bytes| < 64
  {
    AtStart(file, pos, EncodeString(s), 0);
    if |s.bytes| < 64 {
      ShortRawAt(file, pos, s.bytes);
    } else {
      LongRawAt(file, pos, 0x40 + |s.bytes| / 256, end, Text(s));
    }
  }

  /** Over all strings of the format: read back exactly when supported. */
  lemma StringExactly(file: File, pos: nat, s: RdbString, end: nat)
    requires InFormat(s) && At(file, pos, EncodeString(s)) && end == pos + |EncodeString(s)|
    ensures ReadString(file, pos) == Parsed(Text(s), end) <==> ValidString(s)
  {
    if s.Raw? {
      RawStringsExactly(file, pos, s, end);
    } else {
      SignedIntegersExactly(file, pos, s, end);
    }
  }

  lemma MillisAt(file: File, pos: nat, ms: nat, end: nat)
    requires DueInFormat(Millis(ms)) && At(file, pos, [0xFC] + ToLE(ms, 8)) && end == pos + 9
    ensures ReadExpiry(file, pos) == Parsed(ToLong(ms), end)
  {
    Powers();
    TaggedAt(file, pos, 0xFC, ms, 8, end);
  }

  lemma SecondsAt(file: File, pos: nat, s: nat, end: nat)
    requires DueInFormat(Seconds(s)) && At(file, pos, [0xFD] + ToLE(s, 4)) && end == pos + 5
    ensures ReadExpiry(file, pos) == Parsed(SecondsToMillis(s), end)
  {
    Powers();
    TaggedAt(file, pos, 0xFD, s, 4, end);
  }

  /** The expiry the loader hands to the store for a due time of the format. */
  function Loaded(d: Due): int {
    match d
    case Never => 0
    case Millis(ms) => ToLong(ms)
    case Seconds(s) => SecondsToMillis(s)
  }

  lemma DueAt(file: File, pos: nat, d: Due, end: nat)
    requires DueInFormat(d) && At(file, pos, EncodeDue(d) + [0]) && end == pos + |EncodeDue(d)|
    ensures ReadExpiry(file, pos) == Parsed(Loaded(d), end)
    ensures end < |file| && file[end] == 0
  {
    AtConcat(file, pos, EncodeDue(d), [0]);
    AtStart(file, end, [0], 0);
    match d
    case Never =>
    case Millis(ms) => LEBytes(ms, 8); MillisAt(file, pos, ms, end);
    case Seconds(s) => LEBytes(s, 4); SecondsAt(file, pos, s, end);
  }

  lemma ValidDueAt(file: File, pos: nat, d: Due, end: nat)
    requires ValidDue(d) && At(file, pos, EncodeDue(d) + [0]) && end == pos + |EncodeDue(d)|
    ensures ReadExpiry(file, pos) == Parsed(Expiry(d), end)
    ensures end < |file| && file[end] == 0
  {
    DueAt(file, pos, d, end);
  }

  /** In the format an entry is served until its due time. */
  predicate Expired(d: Due, now: int) {
    match d
    case Never => false
    case Millis(ms) => ms <= now
    case Seconds(s) => s * 1000 <= now
  }

  /** Exactly which due times keep their meaning: the store serves the loaded entry at just
      the times, after the epoch, that the format does if and only if the due time is valid. */
  lemma DueExactly(d: Due, value: string)
    requires DueInFormat(d)
    ensures (forall now :: now >= 0 ==> (S.Live(S.DBValue(value, Loaded(d)), now) <==> !Expired(d, now)))
       <==> ValidDue(d)
  {
    if !ValidDue(d) {
      var now := if d.Millis? then 0 else if Loaded(d) == 0 then d.s * 1000 else Loaded(d);
      assert S.Live(S.DBValue(value, Loaded(d)), now) <==> Expired(d, now);
    }
  }

  lemma ReadEntrySteps(file: File, pos: nat, expiry: int, typePos: nat, key: string, valuePos: nat, value: string,
                       end: nat)
    requires ReadExpiry(file, pos) == Parsed(expiry, typePos) && typePos < |file| && file[typePos] == 0
    requires ReadString(file, typePos + 1) == Parsed(key, valuePos) && ReadString(file, valuePos) == Parsed(value, end)
    ensures ReadEntry(file, pos) == Parsed(S.Write(key, value, expiry), end)
  {
  }

  lemma EntryParts(file: File, pos: nat, due: seq<Byte>, key: seq<Byte>, value: seq<Byte>)
    requires At(file, pos, due + ([0] + (key + value)))
    ensures At(file, pos, due + [0])
    ensures At(file, pos + |due| + 1, key) && At(file, pos + |due| + 1 + |key|, value)
  {
    assert due + ([0] + (key + value)) == (due + [0]) + (key + value);
    AtConcat(file, pos, due + [0], key + value);
    AtConcat(file, pos + |due| + 1, key, value);
  }

  lemma EntryFieldsAt(file: File, pos: nat, e: Entry, p1: nat, p2: nat, end: nat)
    requires ValidEntry(e)
    requires At(file, pos, EncodeDue(e.due) + [0]) && p1 == pos + |EncodeDue(e.due)|
    requires At(file, p1 + 1, EncodeString(e.key)) && p2 == p1 + 1 + |EncodeString(e.key)|
    requires At(file, p2, EncodeString(e.value)) && end == p2 + |EncodeString(e.value)|
    ensures ReadEntry(file, pos) == Parsed(Write(e), end)
  {
    ValidDueAt(file, pos, e.due, p1);
    StringExactly(file, p1 + 1, e.key, p2);
    StringExactly(file, p2, e.value, end);
    ReadEntrySteps(file, pos, Expiry(e.due), p1, Text(e.key), p2, Text(e.value), end);
  }

  lemma EntryAt(file: File, pos: nat, e: Entry, end: nat)
    requires ValidEntry(e) && At(file, pos, EncodeEntry(e)) && end == pos + |EncodeEntry(e)|
    ensures ReadEntry(file, pos) == Parsed(Write(e), end)
  {
    var p1 := pos + |EncodeDue(e.due)|;
    EntryParts(file, pos, EncodeDue(e.due), EncodeString(e.key), EncodeString(e.value));
    EntryFieldsAt(file, pos, e, p1, p1 + 1 + |EncodeString(e.key)|, end);
  }

  lemma LoadEntriesStep(file: File, pos: nat, count: nat, op: S.Op, next: nat, writes: seq<S.Op>, end: nat)
    requires pos <= |file| && next <= |file| && count > 0 && ReadEntry(file, pos) == Parsed(op, next)
    requires LoadEntries(file, next, count - 1) == Load(writes, end, true)
    ensures LoadEntries(file, pos, count) == Load([op] + writes, end, true)
  {
  }

  lemma WritesFirst(e: Entry, rest: seq<Entry>)
    ensures Writes([e] + rest) == [Write(e)] + Writes(rest)
  {
  }

  /** One entry in front of entries that load. */
  lemma EntryInFront(file: File, pos: nat, e: Entry, rest: seq<Entry>, count: nat, next: nat, end: nat)
    requires ValidEntry(e) && At(file, pos, EncodeEntry(e)) && next == pos + |EncodeEntry(e)|
    requires count > 0 && next <= |file| && LoadEntries(file, next, count - 1) == Load(Writes(rest), end, true)
    ensures LoadEntries(file, pos, count) == Load(Writes([e] + rest), end, true)
  {
    EntryAt(file, pos, e, next);
    LoadEntriesStep(file, pos, count, Write(e), next, Writes(rest), end);
    WritesFirst(e, rest);
  }

  lemma FirstEntryAt(file: File, pos: nat, entries: seq<Entry>, next: nat, end: nat)
    requires entries != [] && forall i :: 0 <= i < |entries| ==> ValidEntry(entries[i])
    requires At(file, pos, EncodeEntries(entries)) && end == pos + |EncodeEntries(entries)|
    requires next == pos + |EncodeEntry(entries[0])|
    ensures At(file, pos, EncodeEntry(entries[0])) && next <= |file|
    ensures At(file, next, EncodeEntries(entries[1..])) && end == next + |EncodeEntries(entries[1..])|
  {
    AtConcat(file, pos, EncodeEntry(entries[0]), EncodeEntries(entries[1..]));
  }

  lemma {:induction false} EntriesAt(file: File, pos: nat, entries: seq<Entry>, count: nat, end: nat)
    requires count == |entries| && forall i :: 0 <= i < |entries| ==> ValidEntry(entries[i])
    requires At(file, pos, EncodeEntries(entries)) && end == pos + |EncodeEntries(entries)|
    ensures LoadEntries(file, pos, count) == Load(Writes(entries), end, true)
    decreases count
  {
    if count > 0 {
      var e, rest, next := entries[0], entries[1..], pos + |EncodeEntry(entries[0])|;
      FirstEntryAt(file, pos, entries, next, end);
      EntriesAt(file, next, rest, count - 1, end);
      EntryInFront(file, pos, e, rest, count, next, end);
      assert [e] + rest == entries;
    }
  }

  lemma SizeAt(file: File, pos: nat, z: Size, end: nat)
    requires ValidSize(z) && At(file, pos, EncodeSize(z)) && end == pos + |EncodeSize(z)|
    ensures ReadSize(file, pos) == Parsed(if z.Short? then z.n else 0x4000 + z.n, end)
  {
    AtStart(file, pos, EncodeSize(z), 0);
    if z.Long? {
      AtStart(file, pos, EncodeSize(z), 1);
    }
  }

  /** An entry count is read back exactly, in either form, if and only if it is below 256:
      narrowing drops the prefix bits of the 14-bit form along with the high bits. */
  lemma CountExactly(file: File, pos: nat, z: Size, end: nat)
    requires ValidSize(z) && At(file, pos, EncodeSize(z)) && end == pos + |EncodeSize(z)|
    ensures ReadCount(file, pos) == Parsed(z.n, end) <==> z.n < 256
    ensures ReadCount(file, pos) == Parsed(z.n % 256, end)
  {
    SizeAt(file, pos, z, end);
    assert (0x4000 + z.n) % 256 == z.n % 256;
  }

  lemma HeaderSteps(file: File, pos: nat, index: nat, markerPos: nat, count: nat, expiryPos: nat, expiring: nat,
                    next: nat)
    requires ReadSize(file, pos) == Parsed(index, markerPos) && ReadByte(file, markerPos) == Parsed(0xFB, markerPos + 1)
    requires ReadCount(file, markerPos + 1) == Parsed(count, expiryPos)
    requires ReadCount(file, expiryPos) == Parsed(expiring, next)
    ensures ReadTableHeader(file, pos) == Parsed(Some(count), next)
  {
  }

  lemma TableSteps(file: File, pos: nat, count: nat, next: nat, writes: seq<S.Op>, end: nat)
    requires pos < |file| && file[pos] == 0xFE && next <= |file|
    requires ReadTableHeader(file, pos + 1) == Parsed(Some(count), next)
    requires LoadEntries(file, next, count) == Load(writes, end, true)
    ensures LoadSection(file, pos) == Load(writes, end, true)
  {
  }

  lemma SomeSizeAt(file: File, pos: nat, z: Size, end: nat) returns (n: nat)
    requires ValidSize(z) && At(file, pos, EncodeSize(z)) && end == pos + |EncodeSize(z)|
    ensures ReadSize(file, pos) == Parsed(n, end)
  {
    SizeAt(file, pos, z, end);
    n := if z.Short? then z.n else 0x4000 + z.n;
  }

  lemma SomeCountAt(file: File, pos: nat, z: Size, end: nat) returns (n: nat)
    requires ValidSize(z) && At(file, pos, EncodeSize(z)) && end == pos + |EncodeSize(z)|
    ensures ReadCount(file, pos) == Parsed(n, end)
    ensures z.n < 256 ==> n == z.n
  {
    CountExactly(file, pos, z, end);
    n := z.n % 256;
  }

  /** Where the parts of an encoded table section stand. */
  lemma TableParts(file: File, pos: nat, index: seq<Byte>, count: seq<Byte>, expiring: seq<Byte>, entries: seq<Byte>,
                   end: nat)
    returns (p1: nat, p2: nat, p3: nat)
    requires At(file, pos, TableBytes(index, count, expiring, entries))
    requires end == pos + |TableBytes(index, count, expiring, entries)|
    ensures pos < |file| && file[pos] == 0xFE
    ensures At(file, pos + 1, index) && p1 == pos + 1 + |index| && p1 < |file| && file[p1] == 0xFB
    ensures At(file, p1 + 1, count) && p2 == p1 + 1 + |count|
    ensures At(file, p2, expiring) && p3 == p2 + |expiring|
    ensures At(file, p3, entries) && end == p3 + |entries|
  {
    p1 := pos + 1 + |index|;
    p2 := p1 + 1 + |count|;
    p3 := p2 + |expiring|;
    AtConcat(file, pos, [0xFE], index + ([0xFB] + (count + (expiring + entries))));
    AtConcat(file, pos + 1, index, [0xFB] + (count + (expiring + entries)));
    AtConcat(file, p1, [0xFB], count + (expiring + entries));
    AtConcat(file, p1 + 1, count, expiring + entries);
    AtConcat(file, p2, expiring, entries);
    AtStart(file, pos, [0xFE], 0);
    AtStart(file, p1, [0xFB], 0);
  }

  lemma HeaderAt(file: File, pos: nat, index: Size, count: Size, expiring: Size, p1: nat, p2: nat, p3: nat)
    requires ValidSize(index) && ValidSize(count) && ValidSize(expiring) && count.n < 256
    requires At(file, pos, EncodeSize(index)) && p1 == pos + |EncodeSize(index)| && p1 < |file| && file[p1] == 0xFB
    requires At(file, p1 + 1, EncodeSize(count)) && p2 == p1 + 1 + |EncodeSize(count)|
    requires At(file, p2, EncodeSize(expiring)) && p3 == p2 + |EncodeSize(expiring)|
    ensures ReadTableHeader(file, pos) == Parsed(Some(count.n), p3)
  {
    var i := SomeSizeAt(file, pos, index, p1);
    var c := SomeCountAt(file, p1 + 1, count, p2);
    var x := SomeCountAt(file, p2, expiring, p3);
    HeaderSteps(file, pos, i, p1, c, p2, x, p3);
  }

  lemma TableBodyAt(file: File, pos: nat, s: Section, p: nat, end: nat)
    requires s.Table? && ValidSection(s)
    requires pos < |file| && file[pos] == 0xFE && ReadTableHeader(file, pos + 1) == Parsed(Some(s.count.n), p)
    requires At(file, p, EncodeEntries(s.entries)) && end == p + |EncodeEntries(s.entries)|
    ensures LoadSection(file, pos) == Load(SectionWrites(s), end, true)
  {
    EntriesAt(file, p, s.entries, s.count.n, end);
    TableSteps(file, pos, s.count.n, p, SectionWrites(s), end);
  }

  lemma TableAt(file: File, pos: nat, s: Section, end: nat)
    requires s.Table? && ValidSection(s) && At(file, pos, EncodeSection(s)) && end == pos + |EncodeSection(s)|
    ensures pos < |file| && LoadSection(file, pos) == Load(SectionWrites(s), end, true)
  {
    var p1, p2, p3 := TableParts(file, pos, EncodeSize(s.index), EncodeSize(s.count), EncodeSize(s.expiring),
                                 EncodeEntries(s.entries), end);
    HeaderAt(file, pos + 1, s.index, s.count, s.expiring, p1, p2, p3);
    TableBodyAt(file, pos, s, p3, end);
  }

  lemma MetaSteps(file: File, pos: nat, attribute: string, valuePos: nat, value: string, end: nat)
    requires pos < |file| && file[pos] == 0xFA
    requires ReadString(file, pos + 1) == Parsed(attribute, valuePos)
    requires ReadString(file, valuePos) == Parsed(value, end)
    requires attribute != "" && value != ""
    ensures LoadSection(file, pos) == Load([], end, true)
  {
  }

  lemma MetaLoads(file: File, pos: nat, attribute: RdbString, value: RdbString, p: nat, end: nat)
    requires ValidString(attribute) && ValidString(value) && Text(attribute) != "" && Text(value) != ""
    requires pos < |file| && file[pos] == 0xFA
    requires At(file, pos + 1, EncodeString(attribute)) && p == pos + 1 + |EncodeString(attribute)|
    requires At(file, p, EncodeString(value)) && end == p + |EncodeString(value)|
    ensures LoadSection(file, pos) == Load([], end, true)
  {
    StringExactly(file, pos + 1, attribute, p);
    StringExactly(file, p, value, end);
    MetaSteps(file, pos, Text(attribute), p, Text(value), end);
  }

  lemma MetaParts(file: File, pos: nat, attribute: seq<Byte>, value: seq<Byte>, end: nat) returns (p: nat)
    requires At(file, pos, MetaBytes(attribute, value)) && end == pos + |MetaBytes(attribute, value)|
    ensures pos < |file| && file[pos] == 0xFA
    ensures At(file, pos + 1, attribute) && p == pos + 1 + |attribute| && At(file, p, value) && end == p + |value|
  {
    p := pos + 1 + |attribute|;
    AtConcat(file, pos, [0xFA], attribute + value);
    AtConcat(file, pos + 1, attribute, value);
    AtStart(file, pos, [0xFA], 0);
  }

  lemma MetaAt(file: File, pos: nat, s: Section, end: nat)
    requires s.Meta? && ValidSection(s) && At(file, pos, EncodeSection(s)) && end == pos + |EncodeSection(s)|
    ensures pos < |file| && LoadSection(file, pos) == Load([], end, true)
  {
    var p := MetaParts(file, pos, EncodeString(s.attribute), EncodeString(s.value), end);
    MetaLoads(file, pos, s.attribute, s.value, p, end);
  }

  lemma SectionAt(file: File, pos: nat, s: Section, end: nat)
    requires ValidSection(s) && At(file, pos, EncodeSection(s)) && end == pos + |EncodeSection(s)|
    ensures pos < |file| && LoadSection(file, pos) == Load(SectionWrites(s), end, true)
  {
    if s.Meta? {
      MetaAt(file, pos, s, end);
    } else {
      TableAt(file, pos, s, end);
    }
  }

  // ---------------------------------------------------------------------------
  // Whole files.

  lemma LoadSectionsStep(file: File, pos: nat, writes: seq<S.Op>, next: nat)
    requires pos < |file| && next <= |file| && LoadSection(file, pos) == Load(writes, next, true)
    ensures LoadSections(file, pos) == After(writes, LoadSections(file, next))
  {
  }

  lemma {:induction false} TrailerLoadsNothing(file: File, pos: nat)
    requires pos <= |file| && Inert(file[pos..])
    ensures LoadSections(file, pos) == Load([], |file|, true)
    decreases |file| - pos
  {
    if pos < |file| {
      assert file[pos] == file[pos..][0];
      assert file[pos + 1..] == file[pos..][1..];
      TrailerLoadsNothing(file, pos + 1);
      LoadSectionsStep(file, pos, [], pos + 1);
    }
  }

  lemma FirstSectionAt(file: File, pos: nat, sections: seq<Section>, next: nat, end: nat)
    requires sections != [] && AllValid(sections)
    requires At(file, pos, EncodeSections(sections)) && end == pos + |EncodeSections(sections)|
    requires next == pos + |EncodeSection(sections[0])|
    ensures pos < |file| && next <= |file| && LoadSection(file, pos) == Load(SectionWrites(sections[0]), next, true)
    ensures At(file, next, EncodeSections(sections[1..])) && end == next + |EncodeSections(sections[1..])|
  {
    AtConcat(file, pos, EncodeSection(sections[0]), EncodeSections(sections[1..]));
    SectionAt(file, pos, sections[0], next);
  }

  lemma {:induction false} SectionsAt(file: File, pos: nat, sections: seq<Section>, end: nat)
    requires AllValid(sections) && At(file, pos, EncodeSections(sections)) && end == pos + |EncodeSections(sections)|
    requires Inert(file[end..])
    ensures LoadSections(file, pos) == Load(AllWrites(sections), |file|, true)
    decreases |sections|
  {
    if sections == [] {
      TrailerLoadsNothing(file, pos);
    } else {
      var next := pos + |EncodeSection(sections[0])|;
      FirstSectionAt(file, pos, sections, next, end);
      SectionsAt(file, next, sections[1..], end);
      LoadSectionsStep(file, pos, SectionWrites(sections[0]), next);
    }
  }

  /** Loading inverts encoding: the loader accepts every encoded file, consumes it to the end
      and performs exactly the writes of all entries of all sections in file order, with
      their expiries.  `RdbParser.Parse` applies them to the database. */
  lemma LoadInvertsEncoding(version: seq<Byte>, sections: seq<Section>, trailer: seq<Byte>)
    requires |version| == 4 && AllValid(sections) && Inert(trailer)
    ensures var file := EncodeFile(version, sections, trailer);
            LoadFile(file) == Load(AllWrites(sections), |file|, true)
  {
    var file, body := EncodeFile(version, sections, trailer), EncodeSections(sections);
    assert file[..5] == MAGIC;
    assert At(file, 9, body) by {
      AtInContext(MAGIC + version, body, trailer);
    }
    assert file[9 + |body|..] == trailer;
    SectionsAt(file, 9, sections, 9 + |body|);
  }

  // ---------------------------------------------------------------------------
  // Where the loader departs from the format.

  /** Second-precision expiries are kept exactly up to 4294967, and no further. */
  lemma SecondsExactly(s: nat)
    requires s < 0x1_0000_0000
    ensures SecondsToMillis(s) == s * 1000 <==> s <= 4294967
  {
  }
}
