/** The RDB loader of src/read_file.cpp, against an encoder for the part of the format it
    supports.  Reads past the end of the file leave C++ variables undefined: inside a
    section the model stops there without success, and between sections it takes the
    undefined indicator to start no section. */
module RdbFile {
  import opened Prelude
  import opened Bytes
  import opened Resp
  import S = Store

  type File = seq<Byte>

  // ---------------------------------------------------------------------------
  // Reading values.

  function ReadBytes(file: File, pos: nat, n: nat): (r: Parse<seq<Byte>>)
    ensures r.Parsed? ==> pos <= r.next <= |file|
  {
    if pos + n <= |file| then Parsed(file[pos..pos + n], pos + n) else Malformed("end of file")
  }

  function ReadByte(file: File, pos: nat): (r: Parse<Byte>)
    ensures r.Parsed? ==> pos <= r.next <= |file|
  {
    if pos < |file| then Parsed(file[pos], pos + 1) else Malformed("end of file")
  }

  /** A fixed-width unsigned integer, read on a little-endian host. */
  function ReadUnsigned(file: File, pos: nat, width: nat): (r: Parse<nat>)
    ensures r.Parsed? ==> pos <= r.next <= |file|
  {
    match ReadBytes(file, pos, width)
    case Malformed(reason) => Malformed(reason)
    case Parsed(bs, next) => Parsed(FromLE(bs), next)
  }

  /** `readSizeEncoded`: the prefix bits of the 14-bit form stay in the result, and the
      32-bit form reads eight bytes. */
  function ReadSize(file: File, pos: nat): (r: Parse<nat>)
    ensures r.Parsed? ==> pos <= r.next <= |file|
  {
    match ReadByte(file, pos)
    case Malformed(reason) => Malformed(reason)
    case Parsed(first, next) =>
      if first < 0x40 then Parsed(first, next)
      else if first < 0x80 then
        match ReadByte(file, next)
        case Malformed(reason) => Malformed(reason)
        case Parsed(second, end) => Parsed(first * 256 + second, end)
      else if first < 0xC0 then ReadUnsigned(file, next, 8)
      else Parsed(0, next)
  }

  /** The same, narrowed to `uint8_t` as on lines 83 and 86. */
  function ReadCount(file: File, pos: nat): (r: Parse<nat>)
    ensures r.Parsed? ==> pos <= r.next <= |file|
  {
    match ReadSize(file, pos)
    case Malformed(reason) => Malformed(reason)
    case Parsed(n, next) => Parsed(n % 256, next)
  }

  /** `readLengthPrefixedString` with `readEncodedString` and `readIntegerEncodedString`. */
  function ReadString(file: File, pos: nat): (r: Parse<string>)
    ensures r.Parsed? ==> pos <= r.next <= |file|
  {
    match ReadByte(file, pos)
    case Malformed(reason) => Malformed(reason)
    case Parsed(first, next) =>
      if first == 0xC0 then ReadIntegerString(file, next, 1)
      else if first == 0xC1 then ReadIntegerString(file, next, 2)
      else if first == 0xC2 then ReadIntegerString(file, next, 4)
      else if first > 0xC2 then Parsed("", next)
      else
        match ReadBytes(file, next, first)
        case Malformed(reason) => Malformed(reason)
        case Parsed(bs, end) => Parsed(AsString(bs), end)
  }

  function ReadIntegerString(file: File, pos: nat, width: nat): (r: Parse<string>)
    ensures r.Parsed? ==> pos <= r.next <= |file|
  {
    match ReadUnsigned(file, pos, width)
    case Malformed(reason) => Malformed(reason)
    case Parsed(n, next) => Parsed(Decimal(n), next)
  }

  /** The conversion of a `uint64_t` to `long`. */
  function ToLong(n: nat): int { if n < 0x8000_0000_0000_0000 then n else n - 0x1_0000_0000_0000_0000 }

  /** `time_sec * 1000`, computed in 32 bits. */
  function SecondsToMillis(n: nat): nat { (n * 1000) % 0x1_0000_0000 }

  /** The expiry in front of an entry, and the position of the value type. */
  function ReadExpiry(file: File, pos: nat): (r: Parse<int>)
    ensures r.Parsed? ==> pos <= r.next <= |file|
  {
    match ReadByte(file, pos)
    case Malformed(reason) => Malformed(reason)
    case Parsed(first, next) =>
      if first == 0xFC then
        match ReadUnsigned(file, next, 8)
        case Malformed(reason) => Malformed(reason)
        case Parsed(n, end) => Parsed(ToLong(n), end)
      else if first == 0xFD then
        match ReadUnsigned(file, next, 4)
        case Malformed(reason) => Malformed(reason)
        case Parsed(n, end) => Parsed(SecondsToMillis(n), end)
      else Parsed(0, pos)
  }

  /** One turn of the entry loop, lines 92-134: the write it performs. */
  function ReadEntry(file: File, pos: nat): (r: Parse<S.Op>)
    ensures r.Parsed? ==> pos <= r.next <= |file|
  {
    match ReadExpiry(file, pos)
    case Malformed(reason) => Malformed(reason)
    case Parsed(expiry, typePos) =>
      match ReadByte(file, typePos)
      case Malformed(reason) => Malformed(reason)
      case Parsed(valueType, keyPos) =>
        if valueType != 0 then Malformed("value type not handled") else
        match ReadString(file, keyPos)
        case Malformed(reason) => Malformed(reason)
        case Parsed(key, valuePos) =>
          match ReadString(file, valuePos)
          case Malformed(reason) => Malformed(reason)
          case Parsed(value, next) => Parsed(S.Write(key, value, expiry), next)
  }

  // ---------------------------------------------------------------------------
  // Reading sections.  A load that fails keeps the writes it has already done.

  datatype Load = Load(writes: seq<S.Op>, next: nat, ok: bool)

  function After(writes: seq<S.Op>, rest: Load): Load { rest.(writes := writes + rest.writes) }

  function LoadEntries(file: File, pos: nat, count: nat): (r: Load)
    requires pos <= |file|
    ensures pos <= r.next <= |file|
    decreases count
  {
    if count == 0 then Load([], pos, true) else
    match ReadEntry(file, pos)
    case Malformed(_) => Load([], pos, false)
    case Parsed(op, next) => After([op], LoadEntries(file, next, count - 1))
  }

  /** Lines 75-86: the index, the marker and the two table sizes.  Without the marker the
      section is over. */
  function ReadTableHeader(file: File, pos: nat): (r: Parse<Option<nat>>)
    ensures r.Parsed? ==> pos <= r.next <= |file|
  {
    match ReadSize(file, pos)
    case Malformed(reason) => Malformed(reason)
    case Parsed(_, markerPos) =>
      match ReadByte(file, markerPos)
      case Malformed(reason) => Malformed(reason)
      case Parsed(marker, sizePos) =>
        if marker != 0xFB then Parsed(None, sizePos) else
        match ReadCount(file, sizePos)
        case Malformed(reason) => Malformed(reason)
        case Parsed(count, expiryPos) =>
          match ReadCount(file, expiryPos)
          case Malformed(reason) => Malformed(reason)
          case Parsed(_, next) => Parsed(Some(count), next)
  }

  /** `readDatabase`. */
  function LoadDatabase(file: File, pos: nat): (r: Load)
    requires pos <= |file|
    ensures pos <= r.next <= |file|
  {
    match ReadTableHeader(file, pos)
    case Malformed(_) => Load([], pos, false)
    case Parsed(header, next) => if header.None? then Load([], next, true) else LoadEntries(file, next, header.value)
  }

  /** `readMetaData`. */
  function LoadMetaData(file: File, pos: nat): (r: Load)
    requires pos <= |file|
    ensures pos <= r.next <= |file| && r.writes == []
  {
    match ReadString(file, pos)
    case Malformed(_) => Load([], pos, false)
    case Parsed(attribute, valuePos) =>
      match ReadString(file, valuePos)
      case Malformed(_) => Load([], pos, false)
      case Parsed(value, next) => Load([], next, attribute != "" && value != "")
  }

  /** The section that starts with the indicator at `pos`. */
  function LoadSection(file: File, pos: nat): (r: Load)
    requires pos < |file|
    ensures pos < r.next <= |file|
  {
    if file[pos] == 0xFA then LoadMetaData(file, pos + 1)
    else if file[pos] == 0xFE then LoadDatabase(file, pos + 1)
    else Load([], pos + 1, true)
  }

  /** The loop of `parse`. */
  function LoadSections(file: File, pos: nat): Load
    requires pos <= |file|
    decreases |file| - pos
  {
    if pos == |file| then Load([], pos, true) else
    var section := LoadSection(file, pos);
    if !section.ok then section else After(section.writes, LoadSections(file, section.next))
  }

  const MAGIC: seq<Byte> := [0x52, 0x45, 0x44, 0x49, 0x53]

  /** `parse` of a readable file.  A header cut after the magic word leaves the stream failed,
      so no section is read. */
  function LoadFile(file: File): Load {
    if |file| < 5 || file[..5] != MAGIC then Load([], 0, false)
    else if |file| < 9 then Load([], |file|, true)
    else LoadSections(file, 9)
  }

  // ---------------------------------------------------------------------------
  // The code: a cursor over the file and a database updated as entries are read.

  class RdbParser {
    const file: File
    const handler: S.DatabaseHandler
    var pos: nat

    constructor (file: File, handler: S.DatabaseHandler)
      ensures this.file == file && this.handler == handler && pos == 0
    {
      this.file, this.handler, pos := file, handler, 0;
    }

    predicate Valid()
      reads this
    {
      pos <= |file|
    }

    /** `parse`; `readable` is false when the file cannot be opened. */
    method Parse(readable: bool) returns (ok: bool)
      requires pos == 0
      modifies this, handler
      ensures !readable ==> !ok && handler.database == old(handler.database)
      ensures readable ==> ok == LoadFile(file).ok
                           && handler.database == S.After(old(handler.database), LoadFile(file).writes)
    {
      if !readable { return false; }
      if |file| < 5 || file[..5] != MAGIC { return false; }
      if |file| < 9 { return true; }
      pos := 9;
      ok := ParseSections();
    }

    method ParseSections() returns (ok: bool)
      requires Valid()
      modifies `pos, handler
      ensures ok == LoadSections(file, old(pos)).ok
      ensures handler.database == S.After(old(handler.database), LoadSections(file, old(pos)).writes)
    {
      ghost var db0, total := handler.database, LoadSections(file, pos);
      while pos < |file|
        invariant pos <= |file|
        invariant Continues(db0, total, handler.database, LoadSections(file, pos))
        decreases |file| - pos
      {
        SectionContinues(handler.database, file, pos);
        var read := ReadSection();
        if !read { return false; }
      }
      return true;
    }

    /** The indicator and the section it starts. */
    method ReadSection() returns (ok: bool)
      requires pos < |file|
      modifies `pos, handler
      ensures Valid()
      ensures var l := LoadSection(file, old(pos));
              && ok == l.ok && (ok ==> pos == l.next)
              && handler.database == S.After(old(handler.database), l.writes)
    {
      var indicator := file[pos];
      pos := pos + 1;
      ok := true;
      if indicator == 0xFA {
        ok := ReadMetaData();
      } else if indicator == 0xFE {
        ok := ReadDatabase();
      }
    }

    method ReadMetaData() returns (ok: bool)
      requires Valid()
      modifies `pos
      ensures Valid()
      ensures var l := LoadMetaData(file, old(pos));
              ok == l.ok && (ok ==> pos == l.next)
    {
      var attribute := ReadString(file, pos);
      if attribute.Malformed? { return false; }
      var value := ReadString(file, attribute.next);
      if value.Malformed? { return false; }
      if attribute.value == "" || value.value == "" { return false; }
      pos := value.next;
      return true;
    }

    method ReadDatabase() returns (ok: bool)
      requires Valid()
      modifies `pos, handler
      ensures Valid()
      ensures var l := LoadDatabase(file, old(pos));
              && ok == l.ok && (ok ==> pos == l.next)
              && handler.database == S.After(old(handler.database), l.writes)
    {
      var header := ReadTableHeader(file, pos);
      if header.Malformed? { return false; }
      pos := header.next;
      if header.value.None? { return true; }
      ok := ReadEntries(header.value.value);
    }

    /** The loop of lines 91-135. */
    method ReadEntries(count: nat) returns (ok: bool)
      requires Valid()
      modifies `pos, handler
      ensures Valid()
      ensures var l := LoadEntries(file, old(pos), count);
              && ok == l.ok && (ok ==> pos == l.next)
              && handler.database == S.After(old(handler.database), l.writes)
    {
      ghost var db0, total := handler.database, LoadEntries(file, pos, count);
      ghost var rest := total;
      var i := 0;
      ghost var left := count;
      while i < count
        invariant 0 <= i <= count && left == count - i && pos <= |file|
        invariant rest == LoadEntries(file, pos, left)
        invariant Continues(db0, total, handler.database, rest)
      {
        var read;
        read, rest := ReadOneEntry(db0, total, rest, left);
        if !read { return false; }
        i := i + 1;
        left := left - 1;
      }
      return true;
    }

    /** One turn of the loop; `here` is what loading from this position would do. */
    method ReadOneEntry(ghost db0: S.Database, ghost total: Load, ghost here: Load, ghost left: nat)
      returns (ok: bool, ghost rest: Load)
      requires Valid() && left > 0 && here == LoadEntries(file, pos, left)
      requires Continues(db0, total, handler.database, here)
      modifies `pos, handler
      ensures Valid()
      ensures ok ==> rest == LoadEntries(file, pos, left - 1) && Continues(db0, total, handler.database, rest)
      ensures !ok ==> !total.ok && handler.database == S.After(db0, total.writes)
    {
      EntryContinues(db0, total, handler.database, file, pos, left);
      rest := here;
      var entry := ReadEntry(file, pos);
      if entry.Malformed? { return false, rest; }
      handler.Set(entry.value.key, entry.value.value, entry.value.expiryTime);
      pos := entry.next;
      return true, LoadEntries(file, pos, left - 1);
    }
  }

  /** Loading `rest` into `db` ends as loading `total` into `db0` would. */
  ghost predicate Continues(db0: S.Database, total: Load, db: S.Database, rest: Load) {
    total.ok == rest.ok && total.next == rest.next && S.After(db0, total.writes) == S.After(db, rest.writes)
  }

  /** A turn of the entry loop keeps `Continues`; a turn that fails ends the whole load. */
  lemma EntryContinues(db0: S.Database, total: Load, db: S.Database, file: File, pos: nat, left: nat)
    requires pos <= |file| && left > 0 && Continues(db0, total, db, LoadEntries(file, pos, left))
    ensures var entry := ReadEntry(file, pos);
            && (entry.Parsed? ==>
                  Continues(db0, total, S.Apply(db, entry.value).0, LoadEntries(file, entry.next, left - 1)))
            && (entry.Malformed? ==> !total.ok && S.After(db0, total.writes) == db)
  {
    var entry := ReadEntry(file, pos);
    if entry.Parsed? {
      S.AfterFront(db, entry.value, LoadEntries(file, entry.next, left - 1).writes);
    }
  }

  lemma SectionContinues(db: S.Database, file: File, pos: nat)
    requires pos < |file|
    ensures var section := LoadSection(file, pos);
            && (section.ok ==>
                  Continues(db, LoadSections(file, pos), S.After(db, section.writes), LoadSections(file, section.next)))
            && (!section.ok ==> LoadSections(file, pos) == section)
  {
    var section := LoadSection(file, pos);
    if section.ok {
      S.AfterConcat(db, section.writes, LoadSections(file, section.next).writes);
    }
  }
}
