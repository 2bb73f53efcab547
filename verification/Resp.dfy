/** The reply encoders and the bulk-string reader of src/utils.cpp, over the Redis
    serialization protocol's bulk strings and arrays.  A `std::string` is a `string`
    whose characters stand for its bytes. */
module Resp {
  import opened Prelude

  const CRLF := "\r\n"
  const NULL_RESPONSE := "$-1\r\n"
  const INT_MAX := 0x7fff_ffff

  // ---------------------------------------------------------------------------
  // Numbers.

  function Digit(d: nat): char
    requires d < 10
  {
    '0' + d as char
  }

  predicate IsDigit(c: char) { '0' <= c <= '9' }

  predicate IsSpace(c: char) { c == ' ' || 9 <= c as int <= 13 }

  /** `std::to_string` of a non-negative number. */
  function Decimal(n: nat): string {
    if n < 10 then [Digit(n)] else Decimal(n / 10) + [Digit(n % 10)]
  }

  function ToString(n: int): string { if n < 0 then "-" + Decimal(-n) else Decimal(n) }

  /** The value of the digits `s` starts with, after what `acc` already holds. */
  function DigitsValue(s: string, acc: nat): nat {
    if s == "" || !IsDigit(s[0]) then acc
    else DigitsValue(s[1..], acc * 10 + (s[0] as int - '0' as int))
  }

  /** `std::stoi`: blanks, an optional sign, then at least one digit; the rest is ignored. */
  function Stoi(s: string): Result<int>
    decreases |s|
  {
    if s != "" && IsSpace(s[0]) then Stoi(s[1..]) else
    var negative := s != "" && s[0] == '-';
    var digits := if s != "" && (s[0] == '-' || s[0] == '+') then s[1..] else s;
    if digits == "" || !IsDigit(digits[0]) then Err("invalid_argument") else
    var magnitude: int := DigitsValue(digits, 0);
    var value := if negative then -magnitude else magnitude;
    if -INT_MAX - 1 <= value <= INT_MAX then Ok(value) else Err("out_of_range")
  }

  predicate AllDigits(s: string) { forall i :: 0 <= i < |s| ==> IsDigit(s[i]) }

  lemma {:induction false} DigitsValueAppend(s: string, c: char, acc: nat)
    requires AllDigits(s) && IsDigit(c)
    ensures DigitsValue(s + [c], acc) == DigitsValue(s, acc) * 10 + (c as int - '0' as int)
  {
    if s == "" {
      assert (s + [c])[1..] == "";
    } else {
      assert (s + [c])[1..] == s[1..] + [c];
      DigitsValueAppend(s[1..], c, acc * 10 + (s[0] as int - '0' as int));
    }
  }

  lemma {:induction false} DecimalValue(n: nat)
    ensures Decimal(n) != "" && AllDigits(Decimal(n)) && DigitsValue(Decimal(n), 0) == n
  {
    if n < 10 {
      assert Decimal(n)[1..] == "";
    } else {
      DecimalValue(n / 10);
      DigitsValueAppend(Decimal(n / 10), Digit(n % 10), 0);
    }
  }

  /** Printing and parsing agree on every `int`, negative ones too. */
  lemma StoiToString(n: int)
    requires -INT_MAX - 1 <= n <= INT_MAX
    ensures Stoi(ToString(n)) == Ok(n)
  {
    DecimalValue(if n < 0 then -n else n);
    if n < 0 {
      assert ToString(n)[1..] == Decimal(-n);
    }
  }

  // ---------------------------------------------------------------------------
  // Encoding.

  function EncodeString(s: string): string { "$" + Decimal(|s|) + CRLF + s + CRLF }

  function EncodeStrings(arr: seq<string>): string {
    if arr == [] then "" else EncodeString(arr[0]) + EncodeStrings(arr[1..])
  }

  function EncodeArray(arr: seq<string>): string { "*" + Decimal(|arr|) + CRLF + EncodeStrings(arr) }

  lemma {:induction false} EncodeStringsSnoc(arr: seq<string>, s: string)
    ensures EncodeStrings(arr + [s]) == EncodeStrings(arr) + EncodeString(s)
  {
    if arr == [] {
      assert (arr + [s])[1..] == [];
    } else {
      assert (arr + [s])[1..] == arr[1..] + [s];
      EncodeStringsSnoc(arr[1..], s);
    }
  }

  /** `create_array_reponse`. */
  method CreateArrayResponse(arr: seq<string>) returns (r: string)
    ensures r == EncodeArray(arr)
  {
    var response := "";
    for i := 0 to |arr|
      invariant response == EncodeStrings(arr[..i])
    {
      EncodeStringsSnoc(arr[..i], arr[i]);
      assert arr[..i] + [arr[i]] == arr[..i + 1];
      response := response + EncodeString(arr[i]);
    }
    assert arr[..|arr|] == arr;
    r := "*" + Decimal(|arr|) + CRLF + response;
  }

  // ---------------------------------------------------------------------------
  // Decoding.

  /** `input.find("\r\n", pos)`. */
  function FindCrlf(input: string, pos: nat): Option<nat>
    decreases |input| - pos
  {
    if pos + 1 >= |input| then None
    else if input[pos] == '\r' && input[pos + 1] == '\n' then Some(pos)
    else FindCrlf(input, pos + 1)
  }

  /** What a reader returns: a value and the new position, or the reason why the C++ code
      throws or runs past the buffer. */
  datatype Parse<+T> = Parsed(value: T, next: nat) | Malformed(reason: string)

  /** `input[pos] == c`. */
  predicate StartsWith(input: string, pos: nat, c: char) { pos < |input| && input[pos] == c }

  /** The number up to the next line end, and the position after that line end. */
  function ReadNumber(input: string, pos: nat): (r: Parse<int>)
    ensures r.Parsed? ==> pos + 2 <= r.next <= |input|
  {
    FindCrlfBounds(input, pos);
    match FindCrlf(input, pos)
    case None => Malformed("no line end")
    case Some(end) =>
      match Stoi(input[pos..end])
      case Err(reason) => Malformed(reason)
      case Ok(n) => Parsed(n, end + 2)
  }

  lemma {:induction false} FindCrlfBounds(input: string, pos: nat)
    ensures FindCrlf(input, pos).Some? ==>
              pos <= FindCrlf(input, pos).value && FindCrlf(input, pos).value + 2 <= |input|
    decreases |input| - pos
  {
    if pos + 1 < |input| {
      FindCrlfBounds(input, pos + 1);
    }
  }

  /** `parseBulkString`: the new position lies past the buffer when the string is cut short. */
  function ParseBulk(input: string, pos: nat): (r: Parse<string>)
    ensures r.Parsed? ==> pos + 5 <= r.next
  {
    if !StartsWith(input, pos, '$') then Malformed("expected bulk string") else
    match ReadNumber(input, pos + 1)
    case Malformed(reason) => Malformed(reason)
    case Parsed(length, start) =>
      if length < 0 then Malformed("negative length") else
      var end := if start + length <= |input| then start + length else |input|;
      Parsed(input[start..end], start + length + 2)
  }

  function ParseBulks(input: string, pos: nat, count: nat): (r: Parse<seq<string>>)
    ensures r.Parsed? ==> pos + 5 * count <= r.next && |r.value| == count
    decreases count
  {
    if count == 0 then Parsed([], pos) else
    match ParseBulk(input, pos)
    case Malformed(reason) => Malformed(reason)
    case Parsed(s, next) =>
      match ParseBulks(input, next, count - 1)
      case Malformed(reason) => Malformed(reason)
      case Parsed(rest, end) => Parsed([s] + rest, end)
  }

  /** An array header, lines 39-44 of redis_parser.cpp, and as many bulk strings as it says. */
  function ParseArray(input: string, pos: nat): Parse<seq<string>> {
    if !StartsWith(input, pos, '*') then Malformed("expected array") else
    match ReadNumber(input, pos + 1)
    case Malformed(reason) => Malformed(reason)
    case Parsed(count, next) => if count < 0 then Malformed("negative count") else ParseBulks(input, next, count)
  }

  // ---------------------------------------------------------------------------
  // Round trips, in any context.

  lemma {:induction false} FindCrlfAfterDigits(input: string, pos: nat, digits: string)
    requires AllDigits(digits) && At(input, pos, digits + CRLF)
    ensures FindCrlf(input, pos) == Some(pos + |digits|)
    decreases |digits|
  {
    AtStart(input, pos, digits + CRLF, 0);
    AtStart(input, pos, digits + CRLF, 1);
    if digits != "" {
      assert digits + CRLF == [digits[0]] + (digits[1..] + CRLF);
      AtConcat(input, pos, [digits[0]], digits[1..] + CRLF);
      FindCrlfAfterDigits(input, pos + 1, digits[1..]);
    }
  }

  lemma ReadNumberSteps(input: string, pos: nat, end: nat, n: int)
    requires FindCrlf(input, pos) == Some(end) && pos <= end <= |input| && Stoi(input[pos..end]) == Ok(n)
    ensures ReadNumber(input, pos) == Parsed(n, end + 2)
  {
  }

  lemma ReadNumberAt(input: string, pos: nat, n: nat)
    requires n <= INT_MAX && At(input, pos, Decimal(n) + CRLF)
    ensures ReadNumber(input, pos) == Parsed(n, pos + |Decimal(n)| + 2)
  {
    var digits := Decimal(n);
    DecimalValue(n);
    StoiToString(n);
    AtConcat(input, pos, digits, CRLF);
    AtIsSlice(input, pos, digits);
    FindCrlfAfterDigits(input, pos, digits);
    assert input[pos..pos + |digits|] == ToString(n);
    ReadNumberSteps(input, pos, pos + |digits|, n);
  }

  /** Bulk round trip: wherever an encoded string stands, reading it gives the string back
      and stops right after it, line ends inside the string included. */
  lemma BulkRoundTrip(input: string, pos: nat, s: string)
    requires |s| <= INT_MAX && At(input, pos, EncodeString(s))
    ensures ParseBulk(input, pos) == Parsed(s, pos + |EncodeString(s)|)
  {
    var number := Decimal(|s|) + CRLF;
    assert EncodeString(s) == "$" + (number + (s + CRLF));
    AtConcat(input, pos, "$", number + (s + CRLF));
    AtConcat(input, pos + 1, number, s + CRLF);
    AtConcat(input, pos + 1 + |number|, s, CRLF);
    AtIsSlice(input, pos + 1 + |number|, s);
    AtStart(input, pos, "$", 0);
    ReadNumberAt(input, pos + 1, |s|);
  }

  /** The same, spelled out: for every text before and after it. */
  lemma BulkRoundTripInContext(before: string, s: string, after: string)
    requires |s| <= INT_MAX
    ensures ParseBulk(before + EncodeString(s) + after, |before|) == Parsed(s, |before + EncodeString(s)|)
  {
    AtInContext(before, EncodeString(s), after);
    BulkRoundTrip(before + EncodeString(s) + after, |before|, s);
  }

  predicate Fits(arr: seq<string>) {
    |arr| <= INT_MAX && forall i :: 0 <= i < |arr| ==> |arr[i]| <= INT_MAX
  }

  lemma FirstAt(input: string, pos: nat, arr: seq<string>)
    requires arr != [] && At(input, pos, EncodeStrings(arr))
    ensures At(input, pos, EncodeString(arr[0]))
    ensures At(input, pos + |EncodeString(arr[0])|, EncodeStrings(arr[1..]))
    ensures |EncodeStrings(arr)| == |EncodeString(arr[0])| + |EncodeStrings(arr[1..])|
  {
    AtConcat(input, pos, EncodeString(arr[0]), EncodeStrings(arr[1..]));
  }

  lemma ParseBulksStep(input: string, pos: nat, arr: seq<string>, count: nat, next: nat, end: nat)
    requires count == |arr| > 0
    requires ParseBulk(input, pos) == Parsed(arr[0], next)
    requires ParseBulks(input, next, count - 1) == Parsed(arr[1..], end)
    ensures ParseBulks(input, pos, count) == Parsed(arr, end)
  {
    assert [arr[0]] + arr[1..] == arr;
  }

  lemma {:induction false} BulksRoundTrip(input: string, pos: nat, arr: seq<string>, count: nat, end: nat)
    requires Fits(arr) && count == |arr|
    requires At(input, pos, EncodeStrings(arr)) && end == pos + |EncodeStrings(arr)|
    ensures ParseBulks(input, pos, count) == Parsed(arr, end)
    decreases count
  {
    if count > 0 {
      var next := pos + |EncodeString(arr[0])|;
      FirstAt(input, pos, arr);
      BulkRoundTrip(input, pos, arr[0]);
      BulksRoundTrip(input, next, arr[1..], count - 1, end);
      ParseBulksStep(input, pos, arr, count, next, end);
    }
  }

  function HeaderLength(arr: seq<string>): nat { 1 + |Decimal(|arr|)| + 2 }

  lemma HeaderAt(input: string, pos: nat, arr: seq<string>)
    requires Fits(arr) && At(input, pos, EncodeArray(arr))
    ensures StartsWith(input, pos, '*')
    ensures ReadNumber(input, pos + 1) == Parsed(|arr|, pos + HeaderLength(arr))
    ensures At(input, pos + HeaderLength(arr), EncodeStrings(arr))
    ensures |EncodeArray(arr)| == HeaderLength(arr) + |EncodeStrings(arr)|
  {
    var number, body := Decimal(|arr|) + CRLF, EncodeStrings(arr);
    assert EncodeArray(arr) == "*" + (number + body);
    AtConcat(input, pos, "*", number + body);
    AtConcat(input, pos + 1, number, body);
    AtStart(input, pos, "*", 0);
    ReadNumberAt(input, pos + 1, |arr|);
  }

  lemma ParseArraySteps(input: string, pos: nat, arr: seq<string>, start: nat, end: nat)
    requires StartsWith(input, pos, '*') && ReadNumber(input, pos + 1) == Parsed(|arr|, start)
    requires ParseBulks(input, start, |arr|) == Parsed(arr, end)
    ensures ParseArray(input, pos) == Parsed(arr, end)
  {
  }

  /** Array round trip, in any context. */
  lemma ArrayRoundTrip(input: string, pos: nat, arr: seq<string>)
    requires Fits(arr) && At(input, pos, EncodeArray(arr))
    ensures ParseArray(input, pos) == Parsed(arr, pos + |EncodeArray(arr)|)
  {
    var start, end := pos + HeaderLength(arr), pos + |EncodeArray(arr)|;
    HeaderAt(input, pos, arr);
    BulksRoundTrip(input, start, arr, |arr|, end);
    ParseArraySteps(input, pos, arr, start, end);
  }

  /** No encoded array is a proper prefix of another, and encoding is injective. */
  lemma ArrayPrefixFree(a: seq<string>, b: seq<string>)
    requires Fits(a) && Fits(b) && EncodeArray(a) <= EncodeArray(b)
    ensures a == b
  {
    ArrayRoundTrip(EncodeArray(b), 0, a);
    ArrayRoundTrip(EncodeArray(b), 0, b);
  }
}
