/** The Redis serialization protocol ("Bulk strings", "Arrays", "Simple strings"), stated byte
    by byte and without the encoders of the server: what a client sends and what it reads. */
module RespReader {
  import opened Prelude
  import opened Resp

  datatype Value = Simple(text: string) | Bulk(text: string) | Null | Array(items: seq<string>)

  // ---------------------------------------------------------------------------
  // The grammar.

  /** The number a string of digits stands for. */
  function NumberOf(s: string): int { if s == "" then 0 else 10 * NumberOf(s[..|s| - 1]) + (s[|s| - 1] as int - 48) }

  /** Decimal digits without leading zeros. */
  predicate Numeral(s: string, n: nat) {
    && s != "" && (forall i :: 0 <= i < |s| ==> '0' <= s[i] <= '9')
    && (|s| > 1 ==> s[0] != '0')
    && NumberOf(s) == n
  }

  /** A carriage return and a line feed. */
  predicate LineEnd(input: string, pos: nat) { pos + 2 <= |input| && input[pos] == '\r' && input[pos + 1] == '\n' }

  /** A marker, a number of `digits` digits, a line end, up to `next`. */
  predicate Header(input: string, pos: nat, marker: char, n: nat, digits: nat, next: nat) {
    && pos + 1 + digits + 2 == next <= |input|
    && input[pos] == marker
    && Numeral(input[pos + 1..pos + 1 + digits], n)
    && LineEnd(input, pos + 1 + digits)
  }

  ghost predicate CountAt(input: string, pos: nat, marker: char, n: nat, next: nat) {
    exists digits :: Header(input, pos, marker, n, digits, next)
  }

  /** `$`, the length, a line end, exactly that many bytes, a line end. */
  ghost predicate BulkAt(input: string, pos: nat, s: string, end: nat) {
    exists start :: CountAt(input, pos, '$', |s|, start) && BodyAt(input, start, s, end)
  }

  predicate BodyAt(input: string, start: nat, s: string, end: nat) {
    start + |s| + 2 == end <= |input| && input[start..start + |s|] == s && LineEnd(input, start + |s|)
  }

  ghost predicate BulksAt(input: string, pos: nat, items: seq<string>, end: nat)
    decreases |items|
  {
    if items == [] then pos == end
    else exists next :: BulkAt(input, pos, items[0], next) && BulksAt(input, next, items[1..], end)
  }

  /** `*`, the number of elements, a line end, that many bulk strings. */
  ghost predicate ArrayAt(input: string, pos: nat, items: seq<string>, end: nat) {
    exists start :: CountAt(input, pos, '*', |items|, start) && BulksAt(input, start, items, end)
  }

  /** A text without line ends between `+` and a line end. */
  predicate SimpleAt(reply: string, text: string) {
    && |reply| == |text| + 3 && reply[0] == '+' && reply[1..1 + |text|] == text
    && OneLine(text) && LineEnd(reply, |reply| - 2)
  }

  predicate OneLine(text: string) { forall i :: 0 <= i < |text| ==> text[i] != '\r' && text[i] != '\n' }

  /** `$-1` and a line end. */
  predicate NullAt(reply: string) {
    |reply| == 5 && reply[0] == '$' && reply[1] == '-' && reply[2] == '1' && LineEnd(reply, 3)
  }

  /** What a client reads when it gets exactly this reply. */
  ghost predicate Reads(reply: string, v: Value) {
    match v
    case Simple(text) => SimpleAt(reply, text)
    case Bulk(text) => BulkAt(reply, 0, text, |reply|)
    case Null => NullAt(reply)
    case Array(items) => ArrayAt(reply, 0, items, |reply|)
  }

  // ---------------------------------------------------------------------------
  // Numerals are what `std::to_string` prints, and nothing else.

  lemma {:induction false} DecimalIsNumeral(n: nat)
    ensures Numeral(Decimal(n), n) && (n > 0 ==> Decimal(n)[0] != '0')
  {
    if n >= 10 {
      DecimalIsNumeral(n / 10);
      assert Decimal(n)[..|Decimal(n)| - 1] == Decimal(n / 10);
    } else {
      assert Decimal(n)[..0] == "";
    }
  }

  lemma {:induction false} NumeralIsDecimal(s: string, n: nat)
    requires Numeral(s, n)
    ensures s == Decimal(n)
    decreases |s|
  {
    var last := s[|s| - 1] as int - 48;
    var front := s[..|s| - 1];
    assert n == 10 * NumberOf(front) + last && s == front + [Digit(last)];
    if front != "" {
      NumberPositive(front);
      NumeralIsDecimal(front, NumberOf(front));
      assert n / 10 == NumberOf(front) && n % 10 == last;
    }
  }

  lemma {:induction false} NumberPositive(s: string)
    requires s != "" && s[0] != '0' && forall i :: 0 <= i < |s| ==> '0' <= s[i] <= '9'
    ensures NumberOf(s) > 0
  {
    if |s| > 1 {
      NumberPositive(s[..|s| - 1]);
    } else {
      assert s[..0] == "";
    }
  }

  // ---------------------------------------------------------------------------
  // The encoders produce exactly the grammar.

  lemma LineEndAt(input: string, pos: nat)
    ensures LineEnd(input, pos) <==> At(input, pos, CRLF)
  {
    if At(input, pos, CRLF) {
      AtStart(input, pos, CRLF, 0);
      AtStart(input, pos, CRLF, 1);
    }
  }

  /** The three parts of a printed header. */
  lemma {:induction false} HeaderParts(input: string, pos: nat, marker: char, digits: string)
    ensures At(input, pos, [marker] + digits + CRLF) <==>
              At(input, pos, [marker]) && At(input, pos + 1, digits) && At(input, pos + 1 + |digits|, CRLF)
  {
    assert [marker] + digits + CRLF == [marker] + (digits + CRLF);
    AtConcat(input, pos, [marker], digits + CRLF);
    AtConcat(input, pos + 1, digits, CRLF);
  }

  lemma {:induction false} HeaderRead(input: string, pos: nat, marker: char, n: nat, digits: nat, next: nat)
    requires Header(input, pos, marker, n, digits, next)
    ensures At(input, pos, [marker] + Decimal(n) + CRLF) && digits == |Decimal(n)|
  {
    NumeralIsDecimal(input[pos + 1..pos + 1 + digits], n);
    AtIsSlice(input, pos + 1, Decimal(n));
    LineEndAt(input, pos + 1 + digits);
    HeaderParts(input, pos, marker, Decimal(n));
  }

  lemma {:induction false} HeaderWritten(input: string, pos: nat, marker: char, n: nat)
    requires At(input, pos, [marker] + Decimal(n) + CRLF)
    ensures CountAt(input, pos, marker, n, pos + 1 + |Decimal(n)| + 2)
  {
    DecimalIsNumeral(n);
    HeaderParts(input, pos, marker, Decimal(n));
    AtIsSlice(input, pos + 1, Decimal(n));
    LineEndAt(input, pos + 1 + |Decimal(n)|);
    AtStart(input, pos, [marker], 0);
    assert Header(input, pos, marker, n, |Decimal(n)|, pos + 1 + |Decimal(n)| + 2);
  }

  lemma HeaderIsDecimal(input: string, pos: nat, marker: char, n: nat, next: nat)
    ensures CountAt(input, pos, marker, n, next)
       <==> At(input, pos, [marker] + Decimal(n) + CRLF) && next == pos + 1 + |Decimal(n)| + 2
  {
    if CountAt(input, pos, marker, n, next) {
      var digits :| Header(input, pos, marker, n, digits, next);
      HeaderRead(input, pos, marker, n, digits, next);
    }
    if At(input, pos, [marker] + Decimal(n) + CRLF) {
      HeaderWritten(input, pos, marker, n);
    }
  }

  lemma {:induction false} BulkParts(input: string, pos: nat, s: string, start: nat)
    requires start == pos + 1 + |Decimal(|s|)| + 2
    ensures At(input, pos, EncodeString(s)) <==> At(input, pos, "$" + Decimal(|s|) + CRLF) && At(input, start, s + CRLF)
    ensures pos + |EncodeString(s)| == start + |s| + 2
  {
    assert EncodeString(s) == ("$" + Decimal(|s|) + CRLF) + (s + CRLF);
    AtConcat(input, pos, "$" + Decimal(|s|) + CRLF, s + CRLF);
  }

  lemma BodyExactly(input: string, start: nat, s: string, end: nat)
    ensures BodyAt(input, start, s, end) <==> At(input, start, s + CRLF) && end == start + |s| + 2
  {
    AtConcat(input, start, s, CRLF);
    AtIsSlice(input, start, s);
    LineEndAt(input, start + |s|);
  }

  /** `create_string_reponse`, byte for byte, in any surroundings. */
  lemma BulkExactly(input: string, pos: nat, s: string, end: nat)
    ensures BulkAt(input, pos, s, end) <==> At(input, pos, EncodeString(s)) && end == pos + |EncodeString(s)|
  {
    var start := pos + 1 + |Decimal(|s|)| + 2;
    BulkParts(input, pos, s, start);
    HeaderIsDecimal(input, pos, '$', |s|, start);
    BodyExactly(input, start, s, end);
    if BulkAt(input, pos, s, end) {
      var from :| CountAt(input, pos, '$', |s|, from) && BodyAt(input, from, s, end);
      HeaderIsDecimal(input, pos, '$', |s|, from);
    }
  }

  lemma {:induction false} BulksRead(input: string, pos: nat, items: seq<string>, end: nat)
    requires pos <= |input| && BulksAt(input, pos, items, end)
    ensures At(input, pos, EncodeStrings(items)) && end == pos + |EncodeStrings(items)|
    decreases |items|
  {
    if items != [] {
      var next :| BulkAt(input, pos, items[0], next) && BulksAt(input, next, items[1..], end);
      BulkExactly(input, pos, items[0], next);
      BulksRead(input, next, items[1..], end);
      AtConcat(input, pos, EncodeString(items[0]), EncodeStrings(items[1..]));
    }
  }

  lemma {:induction false} BulksWritten(input: string, pos: nat, items: seq<string>, end: nat)
    requires At(input, pos, EncodeStrings(items)) && end == pos + |EncodeStrings(items)|
    ensures BulksAt(input, pos, items, end)
    decreases |items|
  {
    if items != [] {
      var next := pos + |EncodeString(items[0])|;
      AtConcat(input, pos, EncodeString(items[0]), EncodeStrings(items[1..]));
      BulkExactly(input, pos, items[0], next);
      BulksWritten(input, next, items[1..], end);
    }
  }

  lemma {:induction false} ArrayParts(input: string, pos: nat, items: seq<string>, start: nat)
    requires start == pos + 1 + |Decimal(|items|)| + 2
    ensures At(input, pos, EncodeArray(items)) <==>
              At(input, pos, "*" + Decimal(|items|) + CRLF) && At(input, start, EncodeStrings(items))
    ensures pos + |EncodeArray(items)| == start + |EncodeStrings(items)|
  {
    var header := "*" + Decimal(|items|) + CRLF;
    assert |header| == start - pos && EncodeArray(items) == header + EncodeStrings(items);
    AtConcat(input, pos, header, EncodeStrings(items));
  }

  lemma {:induction false} ArrayRead(input: string, pos: nat, items: seq<string>, start: nat, end: nat)
    requires CountAt(input, pos, '*', |items|, start) && BulksAt(input, start, items, end)
    ensures At(input, pos, EncodeArray(items)) && end == pos + |EncodeArray(items)|
  {
    HeaderIsDecimal(input, pos, '*', |items|, start);
    BulksRead(input, start, items, end);
    ArrayParts(input, pos, items, start);
  }

  lemma {:induction false} ArrayWritten(input: string, pos: nat, items: seq<string>, end: nat)
    requires At(input, pos, EncodeArray(items)) && end == pos + |EncodeArray(items)|
    ensures ArrayAt(input, pos, items, end)
  {
    var start := pos + 1 + |Decimal(|items|)| + 2;
    ArrayParts(input, pos, items, start);
    HeaderIsDecimal(input, pos, '*', |items|, start);
    BulksWritten(input, start, items, end);
  }

  /** `create_array_reponse`, byte for byte, in any surroundings. */
  lemma ArrayExactly(input: string, pos: nat, items: seq<string>, end: nat)
    ensures ArrayAt(input, pos, items, end) <==> At(input, pos, EncodeArray(items)) && end == pos + |EncodeArray(items)|
  {
    if ArrayAt(input, pos, items, end) {
      var start :| CountAt(input, pos, '*', |items|, start) && BulksAt(input, start, items, end);
      ArrayRead(input, pos, items, start, end);
    }
    if At(input, pos, EncodeArray(items)) && end == pos + |EncodeArray(items)| {
      ArrayWritten(input, pos, items, end);
    }
  }

  lemma BulkReply(s: string)
    ensures Reads(EncodeString(s), Bulk(s))
  {
    assert At(EncodeString(s), 0, EncodeString(s));
    BulkExactly(EncodeString(s), 0, s, |EncodeString(s)|);
  }

  lemma ArrayReply(items: seq<string>)
    ensures Reads(EncodeArray(items), Array(items))
  {
    assert At(EncodeArray(items), 0, EncodeArray(items));
    ArrayExactly(EncodeArray(items), 0, items, |EncodeArray(items)|);
  }

  // ---------------------------------------------------------------------------
  // A reply means one thing.

  lemma WholeIs(input: string, part: string)
    requires At(input, 0, part) && |input| == |part|
    ensures input == part
  {
  }

  lemma BulkIs(reply: string, s: string)
    requires Reads(reply, Bulk(s))
    ensures reply == EncodeString(s)
  {
    BulkExactly(reply, 0, s, |reply|);
    WholeIs(reply, EncodeString(s));
  }

  lemma ArrayIs(reply: string, items: seq<string>)
    requires Reads(reply, Array(items))
    ensures reply == EncodeArray(items)
  {
    ArrayExactly(reply, 0, items, |reply|);
    WholeIs(reply, EncodeArray(items));
  }

  /** Where the text of a bulk string stands. */
  lemma {:induction false} TextOf(s: string)
    ensures FindCrlf(EncodeString(s), 1) == Some(1 + |Decimal(|s|)|)
    ensures s == EncodeString(s)[|Decimal(|s|)| + 3..|EncodeString(s)| - 2]
  {
    var digits := Decimal(|s|);
    DecimalValue(|s|);
    AtInContext("$", digits + CRLF, s + CRLF);
    assert "$" + (digits + CRLF) + (s + CRLF) == EncodeString(s);
    FindCrlfAfterDigits(EncodeString(s), 1, digits);
  }

  lemma {:induction false} BulkOne(s: string, t: string)
    requires EncodeString(s) == EncodeString(t)
    ensures s == t
  {
    TextOf(s);
    TextOf(t);
  }

  /** No reply reads as two values; arrays of a size the server can read back. */
  lemma OneReading(reply: string, v: Value, u: Value)
    requires Reads(reply, v) && Reads(reply, u)
    requires (v.Array? ==> Fits(v.items)) && (u.Array? ==> Fits(u.items))
    ensures v == u
  {
    FirstByte(reply, v);
    FirstByte(reply, u);
    if v.Bulk? && u.Bulk? {
      BulkIs(reply, v.text);
      BulkIs(reply, u.text);
      BulkOne(v.text, u.text);
    } else if v.Array? && u.Array? {
      ArrayIs(reply, v.items);
      ArrayIs(reply, u.items);
      ArrayPrefixFree(v.items, u.items);
    }
  }

  /** The first byte, and for `$` the second, tell the kinds apart. */
  lemma FirstByte(reply: string, v: Value)
    requires Reads(reply, v)
    ensures |reply| > 1
    ensures reply[0] == (match v case Simple(_) => '+' case Array(_) => '*' case _ => '$')
    ensures v.Bulk? ==> reply[1] != '-'
    ensures v.Null? ==> reply[1] == '-'
  {
    if v.Bulk? {
      BulkIs(reply, v.text);
      DecimalValue(|v.text|);
      assert reply[1] == Decimal(|v.text|)[0];
    } else if v.Array? {
      ArrayIs(reply, v.items);
    }
  }

  // ---------------------------------------------------------------------------
  // What the readers of the server take beyond the grammar.

  lemma {:induction false} StoiSkips(blanks: string, s: string)
    requires forall i :: 0 <= i < |blanks| ==> IsSpace(blanks[i])
    ensures Stoi(blanks + s) == Stoi(s)
  {
    if blanks == "" {
      assert blanks + s == s;
    } else {
      assert (blanks + s)[0] == blanks[0] && (blanks + s)[1..] == blanks[1..] + s;
      StoiSkips(blanks[1..], s);
    }
  }

  lemma {:induction false} DigitsStop(digits: string, rest: string, acc: nat)
    requires AllDigits(digits) && (rest == "" || !IsDigit(rest[0]))
    ensures DigitsValue(digits + rest, acc) == DigitsValue(digits, acc)
  {
    if digits == "" {
      assert digits + rest == rest;
    } else {
      assert (digits + rest)[0] == digits[0] && (digits + rest)[1..] == digits[1..] + rest;
      DigitsStop(digits[1..], rest, acc * 10 + (digits[0] as int - '0' as int));
    }
  }

  lemma {:induction false} DigitsAreNumber(digits: string)
    requires AllDigits(digits)
    ensures DigitsValue(digits, 0) == NumberOf(digits)
    decreases |digits|
  {
    if digits != "" {
      var front, last := digits[..|digits| - 1], digits[|digits| - 1];
      DigitsAreNumber(front);
      DigitsValueAppend(front, last, 0);
      assert front + [last] == digits;
    }
  }

  /** `std::stoi` on every text that has a number: blanks and one sign before it are taken,
      whatever follows its digits is ignored, and a value that is no `int` is an exception. */
  lemma {:induction false} StoiExactly(blanks: string, sign: string, digits: string, rest: string)
    requires forall i :: 0 <= i < |blanks| ==> IsSpace(blanks[i])
    requires sign == "" || sign == "+" || sign == "-"
    requires digits != "" && AllDigits(digits) && (rest == "" || !IsDigit(rest[0]))
    ensures var value := if sign == "-" then -NumberOf(digits) else NumberOf(digits);
            Stoi(blanks + (sign + (digits + rest))) ==
              if -0x8000_0000 <= value <= 0x7fff_ffff then Ok(value) else Err("out_of_range")
  {
    var text := digits + rest;
    StoiSkips(blanks, sign + text);
    DigitsStop(digits, rest, 0);
    DigitsAreNumber(digits);
    assert text[0] == digits[0];
    if sign == "" {
      assert sign + text == text;
    } else {
      assert (sign + text)[0] == sign[0] && (sign + text)[1..] == text;
    }
  }

  /** And an exception for every text that has none. */
  lemma {:induction false} StoiRejects(blanks: string, sign: string, rest: string)
    requires forall i :: 0 <= i < |blanks| ==> IsSpace(blanks[i])
    requires sign == "+" || sign == "-" || (sign == "" && (rest == "" || (!IsSpace(rest[0]) && rest[0] !in "+-")))
    requires rest == "" || !IsDigit(rest[0])
    ensures Stoi(blanks + (sign + rest)) == Err("invalid_argument")
  {
    StoiSkips(blanks, sign + rest);
    if sign == "" {
      assert sign + rest == rest;
    } else {
      assert (sign + rest)[0] == sign[0] && (sign + rest)[1..] == rest;
    }
  }

  /** `parseBulkString` after a header: as many bytes as the header says, or what is left of
      them, and the position two further on, whatever stands there. */
  lemma {:induction false} BulkTakesWhatIsThere(input: string, pos: nat, n: nat, start: nat)
    requires n <= INT_MAX && CountAt(input, pos, '$', n, start)
    ensures ParseBulk(input, pos)
         == Parsed(input[start..if start + n <= |input| then start + n else |input|], start + n + 2)
  {
    HeaderIsDecimal(input, pos, '$', n, start);
    HeaderParts(input, pos, '$', Decimal(n));
    AtStart(input, pos, ['$'], 0);
    AtConcat(input, pos + 1, Decimal(n), CRLF);
    ReadNumberAt(input, pos + 1, n);
  }

  /** Nothing is read where there is no `$`. */
  lemma BulkNeedsMarker(input: string, pos: nat)
    requires pos >= |input| || input[pos] != '$'
    ensures ParseBulk(input, pos).Malformed?
  {
  }
}
