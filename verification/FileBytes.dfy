/** The byte-exact file reader of src/utils.cpp, on a little-endian host.  A `uint64_t` is a
    number below 2^64; `<< 8`, `>> 8` and `& 0xFF` are multiplication by 256 modulo 2^64,
    division by 256 and remainder by 256, and `>> (i * 8)` is `i` shifts by one byte. */
module FileBytes {
  import opened Bytes

  const TWO_TO_THE_64 := 0x1_0000_0000_0000_0000

  lemma PowEight()
    ensures Pow256(8) == TWO_TO_THE_64
  {
    assert Pow256(2) == 0x1_0000;
    assert Pow256(4) == 0x1_0000_0000;
    assert Pow256(6) == 0x1_0000_0000_0000;
  }

  lemma {:induction false} PowMonotone(a: nat, b: nat)
    requires a <= b
    ensures Pow256(a) <= Pow256(b)
  {
    if a < b {
      PowMonotone(a, b - 1);
    }
  }

  lemma {:induction false} FromBESmall(bs: seq<Byte>)
    requires |bs| < 8
    ensures 256 * FromBE(bs) < TWO_TO_THE_64
  {
    FromBEBound(bs);
    PowMonotone(|bs|, 7);
    PowEight();
  }

  /** One turn of the loop: a byte leaves one end and enters the other. */
  lemma ReverseStep(bytes: seq<Byte>, i: nat, reversed: nat, rest: nat)
    requires |bytes| == 8 && i < 8 && reversed == FromBE(bytes[..i]) && rest == FromLE(bytes[i..])
    ensures (reversed * 256) % TWO_TO_THE_64 + rest % 256 == FromBE(bytes[..i + 1])
    ensures rest / 256 == FromLE(bytes[i + 1..])
  {
    FromBESmall(bytes[..i]);
    assert bytes[..i + 1][..i] == bytes[..i];
    assert bytes[i..][1..] == bytes[i + 1..];
  }

  /** `reverseEndianness`: the bytes of the word, read in the other direction. */
  method ReverseEndianness(value: nat) returns (reversed: nat)
    requires value < TWO_TO_THE_64
    ensures reversed < TWO_TO_THE_64
    ensures reversed == FromBE(ToLE(value, 8))
  {
    reversed := 0;
    var rest := value;
    ghost var bytes := ToLE(value, 8);
    LEBytes(value, 8);
    PowEight();
    LERoundTrip(value, 8);
    for i := 0 to 8
      invariant reversed == FromBE(bytes[..i])
      invariant rest == FromLE(bytes[i..])
    {
      ReverseStep(bytes, i, reversed, rest);
      reversed := (reversed * 256) % TWO_TO_THE_64;
      reversed := reversed + rest % 256;
      rest := rest / 256;
    }
    assert bytes[..8] == bytes;
    FromBEBound(bytes);
  }

  /** `v >> (i * 8)`. */
  function ShiftRight(v: nat, i: nat): nat { if i == 0 then v else ShiftRight(v / 256, i - 1) }

  lemma {:induction false} ToBEByte(v: nat, width: nat, i: nat)
    requires i < width
    ensures |ToBE(v, width)| == width
    ensures ToBE(v, width)[width - 1 - i] == ShiftRight(v, i) % 256
  {
    BEBytes(v, width);
    BEBytes(v / 256, width - 1);
    if i > 0 {
      ToBEByte(v / 256, width - 1, i - 1);
    }
  }

  /** `uint64ToString`: byte `i` is the word shifted right by `8 * i`, most significant first. */
  method Uint64ToString(value: nat) returns (result: seq<Byte>)
    requires value < TWO_TO_THE_64
    ensures result == ToBE(value, 8)
  {
    result := [];
    BEBytes(value, 8);
    var i := 7;
    while i >= 0
      invariant -1 <= i <= 7
      invariant result == ToBE(value, 8)[..7 - i]
    {
      ToBEByte(value, 8, i);
      assert ToBE(value, 8)[..7 - i] + [ToBE(value, 8)[7 - i]] == ToBE(value, 8)[..8 - i];
      result := result + [ShiftRight(value, i) % 256];
      i := i - 1;
    }
  }

  /** The two loops cancel on every word: what `read` put into memory comes out unchanged. */
  lemma LoopsCancel(word: seq<Byte>)
    requires |word| == 8
    ensures ToBE(FromBE(ToLE(FromLE(word), 8)), 8) == word
  {
    ToLEOfFromLE(word);
    ToBEOfFromBE(word);
  }

  /** One word of the file through both loops. */
  method CopyWord(word: seq<Byte>) returns (bytes: seq<Byte>)
    requires |word| == 8
    ensures bytes == word
  {
    FromLEBound(word);
    PowEight();
    var reversed := ReverseEndianness(FromLE(word));
    bytes := Uint64ToString(reversed);
    LoopsCancel(word);
  }

  lemma FullWord(file: seq<Byte>, pos: nat)
    requires pos + 8 <= |file|
    ensures file[..pos] + file[pos..pos + 8] == file[..pos + 8]
  {
  }

  lemma LastWord(file: seq<Byte>, pos: nat, stale: seq<Byte>)
    requires pos <= |file| < pos + 8 && pos % 8 == 0 && |stale| == 8
    ensures file[..pos] + (file[pos..] + stale[|file| - pos..]) == file + stale[|file| % 8..]
  {
    assert file[..pos] + file[pos..] == file;
  }

  /** What the reader returns for a file: its bytes, and the part of the last word behind them. */
  function Contents(file: seq<Byte>, stale: seq<Byte>): seq<Byte>
    requires |stale| == 8
  {
    file + stale[|file| % 8..]
  }

  /** `read_rdb_file_binary`.  The last read meets the end of the file and leaves the rest
      of its word as it was: `stale` is what that memory held. */
  method ReadRdbFileBinary(file: seq<Byte>, readable: bool, stale: seq<Byte>) returns (contents: seq<Byte>)
    requires |stale| == 8
    ensures !readable ==> contents == []
    ensures readable ==> contents == Contents(file, stale)
    ensures readable ==> |contents| == 8 * (|file| / 8 + 1)
    ensures readable ==> contents[..|file|] == file && contents[|file|..] == stale[|file| % 8..]
  {
    contents := [];
    var good := readable;
    var pos := 0;
    while good
      invariant 0 <= pos <= |file|
      invariant good ==> pos % 8 == 0 && contents == file[..pos]
      invariant !readable ==> !good && contents == []
      invariant readable && !good ==> contents == file + stale[|file| % 8..]
      decreases |file| - pos, good
    {
      good := |file| - pos >= 8;
      var word := if good then file[pos..pos + 8] else file[pos..] + stale[|file| - pos..];
      if good {
        FullWord(file, pos);
      } else {
        LastWord(file, pos, stale);
      }
      var bytes := CopyWord(word);
      contents := contents + bytes;
      pos := if good then pos + 8 else |file|;
    }
  }
}
