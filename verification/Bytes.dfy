/** Bytes and the integers they spell. */
module Bytes {

  type Byte = n: int | 0 <= n < 256

  /** The unsigned integer the bytes spell, least significant byte first. */
  function FromLE(bs: seq<Byte>): nat { if bs == [] then 0 else bs[0] + 256 * FromLE(bs[1..]) }

  function ToLE(n: nat, width: nat): seq<Byte>
    decreases width, n
  {
    if width == 0 then [] else [n % 256] + ToLE(n / 256, width - 1)
  }

  /** Most significant byte first. */
  function FromBE(bs: seq<Byte>): nat {
    if bs == [] then 0 else 256 * FromBE(bs[..|bs| - 1]) + bs[|bs| - 1]
  }

  function ToBE(n: nat, width: nat): seq<Byte>
    decreases width, n
  {
    if width == 0 then [] else ToBE(n / 256, width - 1) + [n % 256]
  }

  function Pow256(k: nat): nat { if k == 0 then 1 else 256 * Pow256(k - 1) }

  /** The characters of a `std::string` read from a file are its bytes. */
  function AsString(bs: seq<Byte>): string { seq(|bs|, i requires 0 <= i < |bs| => bs[i] as char) }

  lemma {:induction false} LEBytes(n: nat, width: nat)
    ensures |ToLE(n, width)| == width
  {
    if width > 0 {
      LEBytes(n / 256, width - 1);
    }
  }

  lemma {:induction false} BEBytes(n: nat, width: nat)
    ensures |ToBE(n, width)| == width
  {
    if width > 0 {
      BEBytes(n / 256, width - 1);
    }
  }

  lemma {:induction false} LERoundTrip(n: nat, width: nat)
    requires n < Pow256(width)
    ensures FromLE(ToLE(n, width)) == n
  {
    if width > 0 {
      LERoundTrip(n / 256, width - 1);
      assert ToLE(n, width)[1..] == ToLE(n / 256, width - 1);
    }
  }

  lemma {:induction false} ToLEOfFromLE(bs: seq<Byte>)
    ensures ToLE(FromLE(bs), |bs|) == bs
  {
    if bs != [] {
      ToLEOfFromLE(bs[1..]);
    }
  }

  lemma {:induction false} ToBEOfFromBE(bs: seq<Byte>)
    ensures ToBE(FromBE(bs), |bs|) == bs
  {
    if bs != [] {
      ToBEOfFromBE(bs[..|bs| - 1]);
    }
  }

  lemma {:induction false} FromLEBound(bs: seq<Byte>)
    ensures FromLE(bs) < Pow256(|bs|)
  {
    if bs != [] {
      FromLEBound(bs[1..]);
    }
  }

  lemma {:induction false} FromBEBound(bs: seq<Byte>)
    ensures FromBE(bs) < Pow256(|bs|)
  {
    if bs != [] {
      FromBEBound(bs[..|bs| - 1]);
    }
  }
}
