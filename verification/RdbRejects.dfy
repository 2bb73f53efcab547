/** When the loader turns a file down: a wider grammar than that of RdbEncoding, with the parts
    the loader stops at, and exactly what it has done by then. */
module RdbRejects {
  import opened Prelude
  import opened Bytes
  import Resp
  import opened RdbFile
  import opened RdbEncoding
  import S = Store

  datatype Part =
    | Good(section: Section)
    | EmptyMeta(attribute: RdbString, value: RdbString)    // one of the two strings is empty
    | NoTable(index: Size, marker: Byte)                   // something other than 0xFB follows the index
    | BadTable(index: Size, count: Size, expiring: Size, entries: seq<Entry>, due: Due, valueType: Byte)

  /** The entry a bad table stops at has a value type other than 0. */
  predicate ValidPart(p: Part) {
    match p
    case Good(section) => ValidSection(section)
    case EmptyMeta(a, v) => ValidString(a) && ValidString(v) && (Text(a) == "" || Text(v) == "")
    case NoTable(index, marker) => ValidSize(index) && marker != 0xFB
    case BadTable(index, count, expiring, entries, due, valueType) =>
      && ValidSize(index) && ValidSize(count) && ValidSize(expiring)
      && |entries| < count.n <= 255 && AllValidEntries(entries)
      && DueInFormat(due) && valueType != 0 && (due.Never? ==> valueType != 0xFC && valueType != 0xFD)
  }

  predicate AllValidEntries(entries: seq<Entry>) { forall i :: 0 <= i < |entries| ==> ValidEntry(entries[i]) }

  function EncodePart(p: Part): seq<Byte>
    requires ValidPart(p)
  {
    match p
    case Good(section) => EncodeSection(section)
    case EmptyMeta(a, v) => MetaBytes(EncodeString(a), EncodeString(v))
    case NoTable(index, marker) => [0xFE] + (EncodeSize(index) + [marker])
    case BadTable(index, count, expiring, entries, due, valueType) =>
      TableBytes(EncodeSize(index), EncodeSize(count), EncodeSize(expiring),
                 EncodeEntries(entries) + (EncodeDue(due) + [valueType]))
  }

  /** What the loader goes on after. */
  predicate Accepted(p: Part) { p.Good? || p.NoTable? }

  function PartWrites(p: Part): seq<S.Op> {
    match p
    case Good(section) => SectionWrites(section)
    case BadTable(_, _, _, entries, _, _) => Writes(entries)
    case _ => []
  }

  predicate AllValidParts(parts: seq<Part>) { forall i :: 0 <= i < |parts| ==> ValidPart(parts[i]) }

  function EncodeParts(parts: seq<Part>): seq<Byte>
    requires AllValidParts(parts)
  {
    if parts == [] then [] else EncodePart(parts[0]) + EncodeParts(parts[1..])
  }

  /** The writes up to and with the first part that is not accepted. */
  function WritesUntil(parts: seq<Part>): seq<S.Op> {
    if parts == [] then [] else PartWrites(parts[0]) + if Accepted(parts[0]) then WritesUntil(parts[1..]) else []
  }

  // ---------------------------------------------------------------------------
  // One part.

  /** The expiry of an entry, whatever value type follows. */
  lemma AnyDueAt(file: File, pos: nat, d: Due, valueType: Byte, end: nat)
    requires DueInFormat(d) && (d.Never? ==> valueType != 0xFC && valueType != 0xFD)
    requires At(file, pos, EncodeDue(d) + [valueType]) && end == pos + |EncodeDue(d)|
    ensures ReadExpiry(file, pos) == Resp.Parsed(Loaded(d), end)
    ensures end < |file| && file[end] == valueType
  {
    AtConcat(file, pos, EncodeDue(d), [valueType]);
    AtStart(file, end, [valueType], 0);
    match d
    case Never =>
    case Millis(ms) => LEBytes(ms, 8); MillisAt(file, pos, ms, end);
    case Seconds(s) => LEBytes(s, 4); SecondsAt(file, pos, s, end);
  }

  /** An entry of another value type stops the load where it begins. */
  lemma BadEntryAt(file: File, pos: nat, d: Due, valueType: Byte, count: nat)
    requires DueInFormat(d) && valueType != 0 && (d.Never? ==> valueType != 0xFC && valueType != 0xFD)
    requires At(file, pos, EncodeDue(d) + [valueType]) && count > 0
    ensures StopsAt(file, pos, count)
  {
    AnyDueAt(file, pos, d, valueType, pos + |EncodeDue(d)|);
  }

  lemma AfterNothing(l: Load)
    ensures After([], l) == l
  {
    assert [] + l.writes == l.writes;
  }

  lemma LoadEntriesGoesOn(file: File, pos: nat, count: nat, op: S.Op, next: nat)
    requires pos <= |file| && next <= |file| && count > 0 && ReadEntry(file, pos) == Resp.Parsed(op, next)
    ensures LoadEntries(file, pos, count) == After([op], LoadEntries(file, next, count - 1))
  {
  }

  lemma FirstLoaded(file: File, pos: nat, count: nat, writes: seq<S.Op>, end: nat)
    returns (op: S.Op, next: nat, rest: seq<S.Op>)
    requires pos <= |file| && count > 0 && LoadEntries(file, pos, count) == Load(writes, end, true)
    ensures next <= |file| && ReadEntry(file, pos) == Resp.Parsed(op, next) && writes == [op] + rest
    ensures LoadEntries(file, next, count - 1) == Load(rest, end, true)
  {
    op, next := ReadEntry(file, pos).value, ReadEntry(file, pos).next;
    rest := LoadEntries(file, next, count - 1).writes;
  }

  /** Loading some entries and then some more. */
  lemma {:induction false} LoadEntriesSplit(file: File, pos: nat, a: nat, b: nat, writes: seq<S.Op>, mid: nat)
    requires pos <= |file| && mid <= |file| && LoadEntries(file, pos, a) == Load(writes, mid, true)
    ensures LoadEntries(file, pos, a + b) == After(writes, LoadEntries(file, mid, b))
    decreases a
  {
    if a == 0 {
      AfterNothing(LoadEntries(file, mid, b));
    } else {
      var op, next, rest := FirstLoaded(file, pos, a, writes, mid);
      LoadEntriesSplit(file, next, a - 1, b, rest, mid);
      LoadEntriesGoesOn(file, pos, a + b, op, next);
      AfterBoth([op], rest, LoadEntries(file, mid, b));
    }
  }

  lemma AfterBoth(a: seq<S.Op>, b: seq<S.Op>, l: Load)
    ensures After(a, After(b, l)) == After(a + b, l)
  {
    assert a + (b + l.writes) == (a + b) + l.writes;
  }

  predicate StopsAt(file: File, at: nat, count: nat) {
    at <= |file| && LoadEntries(file, at, count) == Load([], at, false)
  }

  /** Wherever these bytes stand in the file, they stop the load of `count` entries. */
  ghost predicate Stopper(file: File, bad: seq<Byte>, count: nat) {
    forall at: nat :: At(file, at, bad) ==> StopsAt(file, at, count)
  }

  lemma {:induction false} LoadEntriesStops(file: File, pos: nat, a: nat, b: nat, writes: seq<S.Op>, mid: nat)
    requires pos <= |file| && mid <= |file| && LoadEntries(file, pos, a) == Load(writes, mid, true)
    requires StopsAt(file, mid, b)
    ensures LoadEntries(file, pos, a + b) == Load(writes, mid, false)
  {
    LoadEntriesSplit(file, pos, a, b, writes, mid);
    assert writes + [] == writes;
  }

  lemma SameCount(file: File, pos: nat, n: nat, more: nat, count: nat, l: Load)
    requires pos <= |file| && count == n + more && LoadEntries(file, pos, n + more) == l
    ensures LoadEntries(file, pos, count) == l
  {
  }

  /** Bytes that load, and then bytes that stop the load: the writes before are done. */
  lemma {:induction false} GoodThenBad(file: File, pos: nat, good: seq<Byte>, bad: seq<Byte>, n: nat, more: nat,
                                       count: nat, writes: seq<S.Op>, mid: nat)
    requires At(file, pos, good + bad) && count == n + more && mid == pos + |good|
    requires At(file, pos, good) ==> LoadEntries(file, pos, n) == Load(writes, mid, true)
    requires Stopper(file, bad, more)
    ensures pos <= |file| && LoadEntries(file, pos, count) == Load(writes, mid, false)
  {
    AtConcat(file, pos, good, bad);
    assert StopsAt(file, mid, more);
    LoadEntriesStops(file, pos, n, more, writes, mid);
    SameCount(file, pos, n, more, count, Load(writes, mid, false));
  }

  lemma BadEntryStops(file: File, d: Due, valueType: Byte, count: nat)
    requires DueInFormat(d) && valueType != 0 && (d.Never? ==> valueType != 0xFC && valueType != 0xFD)
    requires count > 0
    ensures Stopper(file, EncodeDue(d) + [valueType], count)
  {
    forall at: nat | At(file, at, EncodeDue(d) + [valueType])
      ensures StopsAt(file, at, count)
    {
      BadEntryAt(file, at, d, valueType, count);
    }
  }

  lemma {:induction false} BadEntriesAt(file: File, pos: nat, entries: seq<Entry>, n: nat, bad: seq<Byte>, more: nat,
                                        count: nat)
    requires n == |entries| && count == n + more && forall i :: 0 <= i < |entries| ==> ValidEntry(entries[i])
    requires At(file, pos, EncodeEntries(entries) + bad) && Stopper(file, bad, more)
    ensures pos <= |file| && !LoadEntries(file, pos, count).ok
    ensures LoadEntries(file, pos, count).writes == Writes(entries)
  {
    var mid := pos + |EncodeEntries(entries)|;
    if At(file, pos, EncodeEntries(entries)) {
      EntriesAt(file, pos, entries, n, mid);
    }
    GoodThenBad(file, pos, EncodeEntries(entries), bad, n, more, count, Writes(entries), mid);
  }

  lemma TableLoads(file: File, pos: nat, count: nat, next: nat)
    requires pos < |file| && file[pos] == 0xFE && next <= |file|
    requires ReadTableHeader(file, pos + 1) == Resp.Parsed(Some(count), next)
    ensures LoadSection(file, pos) == LoadEntries(file, next, count)
  {
  }

  lemma TableOf(file: File, pos: nat, index: Size, count: Size, expiring: Size, body: seq<Byte>)
    returns (next: nat)
    requires ValidSize(index) && ValidSize(count) && ValidSize(expiring) && count.n < 256
    requires At(file, pos, TableBytes(EncodeSize(index), EncodeSize(count), EncodeSize(expiring), body))
    ensures pos < |file| && next <= |file| && At(file, next, body)
    ensures LoadSection(file, pos) == LoadEntries(file, next, count.n)
  {
    var bytes := TableBytes(EncodeSize(index), EncodeSize(count), EncodeSize(expiring), body);
    var p1, p2, p3 := TableParts(file, pos, EncodeSize(index), EncodeSize(count), EncodeSize(expiring), body,
                                 pos + |bytes|);
    HeaderAt(file, pos + 1, index, count, expiring, p1, p2, p3);
    TableLoads(file, pos, count.n, p3);
    next := p3;
  }

  lemma {:induction false} BadTableAt(file: File, pos: nat, p: Part)
    requires p.BadTable? && ValidPart(p) && At(file, pos, EncodePart(p))
    ensures pos < |file| && !LoadSection(file, pos).ok && LoadSection(file, pos).writes == Writes(p.entries)
  {
    var bad := EncodeDue(p.due) + [p.valueType];
    var n := |p.entries|;
    var next := TableOf(file, pos, p.index, p.count, p.expiring, EncodeEntries(p.entries) + bad);
    BadEntryStops(file, p.due, p.valueType, p.count.n - n);
    BadEntriesAt(file, next, p.entries, n, bad, p.count.n - n, p.count.n);
  }

  lemma NoTableSteps(file: File, pos: nat, index: nat, markerPos: nat, marker: Byte)
    requires pos < |file| && file[pos] == 0xFE && ReadSize(file, pos + 1) == Resp.Parsed(index, markerPos)
    requires markerPos < |file| && file[markerPos] == marker && marker != 0xFB
    ensures LoadSection(file, pos) == Load([], markerPos + 1, true)
  {
  }

  lemma NoTableParts(file: File, pos: nat, size: seq<Byte>, marker: Byte) returns (markerPos: nat)
    requires At(file, pos, [0xFE] + (size + [marker]))
    ensures pos < |file| && file[pos] == 0xFE && At(file, pos + 1, size)
    ensures markerPos == pos + 1 + |size| && markerPos < |file| && file[markerPos] == marker
  {
    markerPos := pos + 1 + |size|;
    AtConcat(file, pos, [0xFE], size + [marker]);
    AtStart(file, pos, [0xFE], 0);
    AtConcat(file, pos + 1, size, [marker]);
    AtStart(file, markerPos, [marker], 0);
  }

  lemma NoTableAt(file: File, pos: nat, p: Part, end: nat)
    requires p.NoTable? && ValidPart(p) && At(file, pos, EncodePart(p)) && end == pos + |EncodePart(p)|
    ensures pos < |file| && LoadSection(file, pos) == Load([], end, true)
  {
    var markerPos := NoTableParts(file, pos, EncodeSize(p.index), p.marker);
    var n := SomeSizeAt(file, pos + 1, p.index, markerPos);
    NoTableSteps(file, pos, n, markerPos, p.marker);
  }

  lemma MetaFails(file: File, pos: nat, attribute: string, valuePos: nat, value: string, end: nat)
    requires pos < |file| && file[pos] == 0xFA && (attribute == "" || value == "")
    requires ReadString(file, pos + 1) == Resp.Parsed(attribute, valuePos)
    requires ReadString(file, valuePos) == Resp.Parsed(value, end)
    ensures !LoadSection(file, pos).ok && LoadSection(file, pos).writes == []
  {
  }

  lemma EmptyMetaAt(file: File, pos: nat, p: Part, end: nat)
    requires p.EmptyMeta? && ValidPart(p) && At(file, pos, EncodePart(p)) && end == pos + |EncodePart(p)|
    ensures pos < |file| && !LoadSection(file, pos).ok && LoadSection(file, pos).writes == []
  {
    var v := MetaParts(file, pos, EncodeString(p.attribute), EncodeString(p.value), end);
    StringExactly(file, pos + 1, p.attribute, v);
    StringExactly(file, v, p.value, end);
    MetaFails(file, pos, Text(p.attribute), v, Text(p.value), end);
  }

  /** What the loader makes of one part. */
  predicate LoadsPart(p: Part, l: Load, end: nat) {
    l.ok == Accepted(p) && l.writes == PartWrites(p) && (l.ok ==> l.next == end)
  }

  lemma PartAt(file: File, pos: nat, p: Part, end: nat) returns (l: Load)
    requires ValidPart(p) && At(file, pos, EncodePart(p)) && end == pos + |EncodePart(p)|
    ensures pos < |file| && LoadSection(file, pos) == l && LoadsPart(p, l, end)
  {
    match p {
      case Good(section) => SectionAt(file, pos, section, end);
      case EmptyMeta(_, _) => EmptyMetaAt(file, pos, p, end);
      case NoTable(_, _) => NoTableAt(file, pos, p, end);
      case BadTable(_, _, _, _, _, _) => BadTableAt(file, pos, p);
    }
    l := LoadSection(file, pos);
  }

  // ---------------------------------------------------------------------------
  // Whole files.

  lemma SectionThenMore(file: File, pos: nat, l: Load)
    requires pos < |file| && LoadSection(file, pos) == l
    ensures l.next <= |file|
    ensures LoadSections(file, pos) == if l.ok then After(l.writes, LoadSections(file, l.next)) else l
  {
  }

  lemma PartThenMore(file: File, pos: nat, p: Part, more: seq<Byte>, next: nat)
    requires ValidPart(p) && At(file, pos, EncodePart(p) + more) && next == pos + |EncodePart(p)|
    ensures pos <= |file| && next <= |file| && At(file, next, more)
    ensures if Accepted(p) then LoadSections(file, pos) == After(PartWrites(p), LoadSections(file, next))
            else !LoadSections(file, pos).ok && LoadSections(file, pos).writes == PartWrites(p)
  {
    AtConcat(file, pos, EncodePart(p), more);
    var l := PartAt(file, pos, p, next);
    SectionThenMore(file, pos, l);
  }

  predicate AllAccepted(parts: seq<Part>) { forall i :: 0 <= i < |parts| ==> Accepted(parts[i]) }

  lemma {:induction false} PartsAt(file: File, pos: nat, parts: seq<Part>, end: nat)
    requires AllValidParts(parts) && At(file, pos, EncodeParts(parts)) && end == pos + |EncodeParts(parts)|
    requires Inert(file[end..])
    ensures var l := LoadSections(file, pos); l.ok == AllAccepted(parts) && l.writes == WritesUntil(parts)
    decreases |parts|
  {
    if parts == [] {
      TrailerLoadsNothing(file, pos);
    } else {
      var next := pos + |EncodePart(parts[0])|;
      PartThenMore(file, pos, parts[0], EncodeParts(parts[1..]), next);
      AcceptedFirst(parts);
      if Accepted(parts[0]) {
        PartsAt(file, next, parts[1..], end);
      }
    }
  }

  lemma AcceptedFirst(parts: seq<Part>)
    requires parts != []
    ensures AllAccepted(parts) <==> Accepted(parts[0]) && AllAccepted(parts[1..])
  {
    assert forall i :: 1 <= i < |parts| ==> parts[i] == parts[1..][i - 1];
  }

  /** Exactly when the loader turns a file down: at the first metadata section with an empty
      string, or the first entry whose value type is not 0; a table without its marker is
      skipped.  The writes before that point are done, none after it. */
  lemma {:induction false} RejectsExactly(version: seq<Byte>, parts: seq<Part>, trailer: seq<Byte>)
    requires |version| == 4 && AllValidParts(parts) && Inert(trailer)
    ensures var l := LoadFile(MAGIC + version + EncodeParts(parts) + trailer);
            && (l.ok <==> forall i :: 0 <= i < |parts| ==> !parts[i].EmptyMeta? && !parts[i].BadTable?)
            && l.writes == WritesUntil(parts)
  {
    var body := EncodeParts(parts);
    FileBody(version, body, trailer);
    PartsAt(MAGIC + version + body + trailer, 9, parts, 9 + |body|);
  }

  lemma FileBody(version: seq<Byte>, body: seq<Byte>, trailer: seq<Byte>)
    requires |version| == 4
    ensures var file := MAGIC + version + body + trailer;
            && LoadFile(file) == LoadSections(file, 9)
            && At(file, 9, body) && 9 + |body| <= |file| && file[9 + |body|..] == trailer
  {
    var file := MAGIC + version + body + trailer;
    assert file[..5] == MAGIC;
    AtInContext(MAGIC + version, body, trailer);
  }

  /** And a file that does not start with the magic word, without any write. */
  lemma HeaderRejects(file: File)
    requires |file| < 5 || file[..5] != [0x52, 0x45, 0x44, 0x49, 0x53]
    ensures LoadFile(file).writes == [] && !LoadFile(file).ok
  {
  }
}
