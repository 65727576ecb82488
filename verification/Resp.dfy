/** The Redis serialization protocol: a printer and a parser for nested arrays of bulk strings and 64-bit integers. */
module Resp {
  import opened Basics

  type Byte = x: int | 0 <= x < 256
  type Bytes = seq<Byte>

  const CR: Byte := 13
  const LF: Byte := 10
  const PLUS: Byte := 43
  const MINUS: Byte := 45
  const COLON: Byte := 58
  const DOLLAR: Byte := 36
  const STAR: Byte := 42
  const ZERO: Byte := 48

  const CRLF: Bytes := [CR, LF]

  /** What can be decoded: simple strings, errors and bulk strings all come out as text. */
  datatype Value = Text(bytes: Bytes) | Int(n: int) | List(items: seq<Value>)

  /** A result with the number of bytes consumed, the "no data" error, or an index out of range. */
  datatype Outcome<+T> = Got(value: T, next: nat) | NoData | Panic {
    predicate IsFailure() {
      !Got?
    }

    function PropagateFailure<U>(): Outcome<U>
      requires IsFailure()
    {
      if NoData? then NoData else Panic
    }

    function Extract(): (T, nat)
      requires !IsFailure()
    {
      (value, next)
    }
  }

  // ---- printing ------------------------------------------------------------------------

  function Digits(n: nat): Bytes {
    if n < 10 then [n + ZERO] else Digits(n / 10) + [n % 10 + ZERO]
  }

  function Decimal(n: int): Bytes {
    if n < 0 then [MINUS] + Digits(-n) else Digits(n)
  }

  function Header(mark: Byte, n: int): Bytes {
    [mark] + Decimal(n) + CRLF
  }

  function Encoding(v: Value): Bytes {
    match v
    case Text(bytes) => Header(DOLLAR, |bytes|) + bytes + CRLF
    case Int(n) => Header(COLON, n)
    case List(items) => Header(STAR, |items|) + EncodedItems(items)
  }

  function EncodedItems(items: seq<Value>): Bytes {
    if items == [] then [] else Encoding(items[0]) + EncodedItems(items[1..])
  }

  // ---- parsing, as functions -----------------------------------------------------------

  /** From position pos up to the next carriage return: the digits, accumulated in an int64 that wraps around. */
  function IntFrom(data: Bytes, pos: nat, res: int): (r: Outcome<int>)
    ensures r.Got? ==> pos + 2 <= r.next <= |data| + 1
    decreases |data| - pos
  {
    if pos >= |data| then Panic
    else if data[pos] == CR then Got(res, pos + 2)
    else IntFrom(data, pos + 1, ToInt64(res * 10 + (data[pos] - ZERO) % 256))
  }

  /** An optional minus and an optional plus, in this order, and the digits. */
  function IntAt(data: Bytes): (r: Outcome<int>)
    ensures r.Got? ==> 3 <= r.next <= |data| + 1
  {
    if |data| < 2 then Panic
    else
      var (sign, pos) := if data[1] == MINUS then (-1, 2) else (1, 1);
      if |data| <= pos then Panic
      else
        var (sign', pos') := if data[pos] == PLUS then (1, pos + 1) else (sign, pos);
        var (res, next) :- IntFrom(data, pos', 0);
        Got(ToInt64(res * sign'), next)
  }

  function LineFrom(data: Bytes, pos: nat): (r: Outcome<nat>)
    ensures r.Got? ==> pos <= r.value < |data| && r.next == r.value + 2
    decreases |data| - pos
  {
    if pos >= |data| then Panic else if data[pos] == CR then Got(pos, pos + 2) else LineFrom(data, pos + 1)
  }

  function LineAt(data: Bytes): Outcome<Value> {
    var (end, next) :- LineFrom(data, 1);
    Got(Text(data[1..end]), next)
  }

  const NULL_VALUE: Bytes := [78, 117, 108, 108, 32, 118, 97, 108, 117, 101]

  function BulkAt(data: Bytes): Outcome<Value> {
    var (length, pos) :- IntAt(data);
    if length == -1 then Got(Text(NULL_VALUE), pos + 2)
    else if length < 0 || pos + length > |data| then Panic
    else Got(Text(data[pos..pos + length]), pos + length + 2)
  }

  /** One value from the start of the data; a text with no known mark comes back as a message, with nothing consumed. */
  function Decoded(data: Bytes, unknown: Byte -> Bytes): Outcome<Value>
    decreases |data|, 1, 0
  {
    if |data| == 0 then NoData
    else if data[0] == PLUS || data[0] == MINUS then LineAt(data)
    else if data[0] == COLON then
      var (n, next) :- IntAt(data);
      Got(Int(n), next)
    else if data[0] == DOLLAR then BulkAt(data)
    else if data[0] == STAR then
      var (length, pos) :- IntAt(data);
      if length < 0 then Panic
      else
        var (items, next) :- DecodedItems(data, pos, length, unknown);
        Got(List(items), next)
    else Got(Text(unknown(data[0])), 0)
  }

  /** `count` values one after the other, from position pos on. */
  function DecodedItems(data: Bytes, pos: nat, count: nat, unknown: Byte -> Bytes): Outcome<seq<Value>>
    requires pos > 0
    decreases |data|, 0, count
  {
    if count == 0 then Got([], pos)
    else if pos > |data| then Panic
    else
      var (v, delta) :- Decoded(data[pos..], unknown);
      var (vs, next) :- DecodedItems(data, pos + delta, count - 1, unknown);
      Got([v] + vs, next)
  }

  // ---- decimals come back --------------------------------------------------------------

  lemma WrapStep(x: int, d: int)
    ensures ToInt64(ToInt64(x) * 10 + d) == ToInt64(x * 10 + d) && ToInt64(-ToInt64(x)) == ToInt64(-x)
  {
    var k := (ToInt64(x) - x) / TWO_64;
    assert ToInt64(x) == x + k * TWO_64;
    Shifted(x * 10 + d, k * 10);
    Shifted(-x, -k);
  }

  lemma InRange(n: int)
    requires -TWO_63 <= n < TWO_63
    ensures ToInt64(n) == n
  {
    if n < 0 {
      Shifted(n, 1);
    }
  }

  lemma Shifted(x: int, k: int)
    ensures ToInt64(x + k * TWO_64) == ToInt64(x)
  {
    assert (x + k * TWO_64) % TWO_64 == x % TWO_64;
  }

  /** The int64 that reading a text of digits leaves in the accumulator. */
  function Accumulated(s: Bytes, res: int): int {
    if s == [] then res else Accumulated(s[1..], ToInt64(res * 10 + (s[0] - ZERO) % 256))
  }

  lemma {:induction false} AccumulatedLast(s: Bytes, b: Byte, res: int)
    ensures Accumulated(s + [b], res) == ToInt64(Accumulated(s, res) * 10 + (b - ZERO) % 256)
  {
    if s != [] {
      AccumulatedLast(s[1..], b, ToInt64(res * 10 + (s[0] - ZERO) % 256));
      assert (s + [b])[1..] == s[1..] + [b];
    }
  }

  predicate AllDigits(s: Bytes) {
    forall i :: 0 <= i < |s| ==> ZERO <= s[i] < ZERO + 10
  }

  lemma {:induction false} DigitsOnly(n: nat)
    ensures |Digits(n)| > 0 && AllDigits(Digits(n))
  {
    if n >= 10 {
      DigitsOnly(n / 10);
    }
  }

  lemma DigitStep(s: Bytes, q: nat, d: nat)
    requires Accumulated(s, 0) == ToInt64(q) && d < 10
    ensures Accumulated(s + [d + ZERO], 0) == ToInt64(q * 10 + d)
  {
    AccumulatedLast(s, d + ZERO, 0);
    WrapStep(q, d);
  }

  /** Reading the digits of n leaves n, as far as an int64 can tell. */
  lemma {:induction false} DigitsRead(n: nat)
    ensures Accumulated(Digits(n), 0) == ToInt64(n)
  {
    if n < 10 {
      DigitStep([], 0, n);
      assert [] + [n + ZERO] == Digits(n);
    } else {
      DigitsRead(n / 10);
      DigitStep(Digits(n / 10), n / 10, n % 10);
    }
  }

  lemma {:induction false} IntFromDigits(before: Bytes, s: Bytes, after: Bytes, res: int)
    requires AllDigits(s)
    ensures IntFrom(before + s + CRLF + after, |before|, res) == Got(Accumulated(s, res), |before| + |s| + 2)
    decreases s
  {
    var data := before + s + CRLF + after;
    if s != [] {
      IntFromDigits(before + [s[0]], s[1..], after, ToInt64(res * 10 + (s[0] - ZERO) % 256));
      assert before + [s[0]] + s[1..] + CRLF + after == data;
    }
  }

  lemma PositiveRead(mark: Byte, s: Bytes, after: Bytes)
    requires AllDigits(s) && |s| > 0
    ensures IntAt([mark] + s + CRLF + after) == Got(ToInt64(Accumulated(s, 0)), |s| + 3)
  {
    IntFromDigits([mark], s, after, 0);
    assert ([mark] + s + CRLF + after)[1] == s[0];
  }

  lemma NegativeHeader(mark: Byte, s: Bytes, after: Bytes, data: Bytes)
    requires data == [mark, MINUS] + s + CRLF + after && |s| > 0
    ensures [mark] + ([MINUS] + s) + CRLF + after == data && |data| > 2 && data[1] == MINUS && data[2] == s[0]
  {
    assert [mark] + ([MINUS] + s) == [mark, MINUS] + s;
  }

  lemma NegativeRead(mark: Byte, s: Bytes, after: Bytes)
    requires AllDigits(s) && |s| > 0
    ensures IntAt([mark] + ([MINUS] + s) + CRLF + after) == Got(ToInt64(-Accumulated(s, 0)), |s| + 4)
  {
    var data := [mark, MINUS] + s + CRLF + after;
    IntFromDigits([mark, MINUS], s, after, 0);
    NegativeHeader(mark, s, after, data);
  }

  /** A header is read back, with its exact length, for every int64; the least one overflows and wraps back. */
  lemma HeaderRead(mark: Byte, n: int, after: Bytes)
    requires -TWO_63 <= n < TWO_63
    ensures IntAt(Header(mark, n) + after) == Got(n, |Header(mark, n)|)
  {
    InRange(n);
    if n < 0 {
      var s := Digits(-n);
      DigitsOnly(-n);
      DigitsRead(-n);
      WrapStep(-n, 0);
      assert Decimal(n) == [MINUS] + s && Accumulated(s, 0) == ToInt64(-n);
      NegativeRead(mark, s, after);
    } else {
      var s := Digits(n);
      DigitsOnly(n);
      DigitsRead(n);
      assert Decimal(n) == s && Accumulated(s, 0) == n;
      PositiveRead(mark, s, after);
    }
  }

  // ---- the round trip ------------------------------------------------------------------

  /** Integers and lengths fit an int64. */
  ghost predicate Representable(v: Value) {
    match v
    case Text(bytes) => |bytes| < TWO_63
    case Int(n) => -TWO_63 <= n < TWO_63
    case List(items) => |items| < TWO_63 && forall i :: 0 <= i < |items| ==> Representable(items[i])
  }

  /** Decoding undoes encoding whatever bytes follow, and consumes exactly the encoding. */
  lemma {:induction false} RoundTrip(v: Value, rest: Bytes, unknown: Byte -> Bytes)
    requires Representable(v)
    ensures Decoded(Encoding(v) + rest, unknown) == Got(v, |Encoding(v)|)
    decreases v, 1, 0
  {
    match v
    case Text(bytes) => BulkRead(bytes, rest);
    case Int(n) => HeaderRead(COLON, n, rest);
    case List(items) =>
      var header, body := Header(STAR, |items|), EncodedItems(items);
      ItemsRead(v, header, items, rest, unknown);
      ListRead(header, body, rest, items, unknown);
  }

  lemma ListRead(header: Bytes, body: Bytes, rest: Bytes, items: seq<Value>, unknown: Byte -> Bytes)
    requires header == Header(STAR, |items|) && |items| < TWO_63
    requires DecodedItems(header + body + rest, |header|, |items|, unknown) == Got(items, |header| + |body|)
    ensures Decoded(header + body + rest, unknown) == Got(List(items), |header| + |body|)
  {
    Associative(header, body, rest);
    HeaderRead(STAR, |items|, body + rest);
  }

  lemma BulkRead(bytes: Bytes, rest: Bytes)
    requires |bytes| < TWO_63
    ensures BulkAt(Encoding(Text(bytes)) + rest) == Got(Text(bytes), |Encoding(Text(bytes))|)
  {
    var header := Header(DOLLAR, |bytes|);
    var data := header + bytes + CRLF + rest;
    assert data == header + (bytes + CRLF + rest);
    HeaderRead(DOLLAR, |bytes|, bytes + CRLF + rest);
    assert data[|header|..|header| + |bytes|] == bytes;
  }

  lemma Regroup(before: Bytes, first: Bytes, others: Bytes, rest: Bytes)
    ensures before + (first + others) + rest == before + first + others + rest
    ensures (before + (first + others) + rest)[|before|..] == first + (others + rest)
  {
  }

  /** One step of reading a list. */
  lemma ItemRead(data: Bytes, pos: nat, v: Value, first: nat, vs: seq<Value>, end: nat, unknown: Byte -> Bytes)
    requires 0 < pos <= |data| && Decoded(data[pos..], unknown) == Got(v, first)
    requires DecodedItems(data, pos + first, |vs|, unknown) == Got(vs, end)
    ensures DecodedItems(data, pos, |vs| + 1, unknown) == Got([v] + vs, end)
  {
    hide LineAt, IntAt, BulkAt;
  }

  lemma NextItem(before: Bytes, first: Bytes, others: Bytes, rest: Bytes, v: Value, vs: seq<Value>,
                 unknown: Byte -> Bytes)
    requires |before| > 0 && Decoded(first + (others + rest), unknown) == Got(v, |first|)
    requires DecodedItems(before + first + others + rest, |before| + |first|, |vs|, unknown) == Got(vs,
        |before| + |first| + |others|)
    ensures DecodedItems(before + (first + others) + rest, |before|, |vs| + 1, unknown) == Got([v] + vs,
        |before| + |first| + |others|)
  {
    hide Decoded, DecodedItems;
    var data := before + (first + others) + rest;
    Regroup(before, first, others, rest);
    ItemRead(data, |before|, v, |first|, vs, |before| + |first| + |others|, unknown);
  }

  lemma NoItems(before: Bytes, rest: Bytes, unknown: Byte -> Bytes)
    requires |before| > 0
    ensures DecodedItems(before + [] + rest, |before|, 0, unknown) == Got([], |before|)
  {
  }

  lemma {:induction false} ItemsRead(v: Value, before: Bytes, items: seq<Value>, rest: Bytes, unknown: Byte -> Bytes)
    requires |before| > 0 && (forall i :: 0 <= i < |items| ==> items[i] < v && Representable(items[i]))
    ensures DecodedItems(before + EncodedItems(items) + rest, |before|, |items|, unknown) ==
              Got(items, |before| + |EncodedItems(items)|)
    decreases v, 0, |items|
  {
    hide Decoded, DecodedItems;
    if items == [] {
      NoItems(before, rest, unknown);
    } else {
      var one, more := items[0], items[1..];
      var first, others := Encoding(one), EncodedItems(more);
      RoundTrip(one, others + rest, unknown);
      ItemsRead(v, before + first, more, rest, unknown);
      NextItem(before, first, others, rest, one, more, unknown);
      assert items == [one] + more;
    }
  }

  /** No encoding is the beginning of another, and different values have different encodings. */
  lemma PrefixFree(v: Value, w: Value, x: Bytes, y: Bytes)
    requires Representable(v) && Representable(w) && Encoding(v) + x == Encoding(w) + y
    ensures v == w && x == y
  {
    var unknown := (b: Byte) => [];
    RoundTrip(v, x, unknown);
    RoundTrip(w, y, unknown);
    assert x == (Encoding(v) + x)[|Encoding(v)|..];
    assert y == (Encoding(w) + y)[|Encoding(w)|..];
  }

  // ---- the readers, as they run --------------------------------------------------------

  method ReadSimpleString(data: Bytes) returns (r: Outcome<Value>)
    ensures r == LineAt(data)
  {
    var pos := 1;
    while pos < |data| && data[pos] != CR
      invariant pos >= 1 && LineFrom(data, 1) == LineFrom(data, pos)
      decreases |data| - pos
    {
      pos := pos + 1;
    }
    if pos >= |data| {
      return Panic;
    }
    r := Got(Text(data[1..pos]), pos + 2);
  }

  method ReadInt64(data: Bytes) returns (r: Outcome<int>)
    ensures r == IntAt(data)
  {
    var res, sign, pos := 0, 1, 1;
    if pos >= |data| {
      return Panic;
    }
    if data[pos] == MINUS {
      sign := -1;
      pos := pos + 1;
    }
    if pos >= |data| {
      return Panic;
    }
    if data[pos] == PLUS {
      sign := 1;
      pos := pos + 1;
    }
    ghost var start := pos;
    while pos < |data| && data[pos] != CR
      invariant pos >= start && IntFrom(data, start, 0) == IntFrom(data, pos, res)
      decreases |data| - pos
    {
      res := ToInt64(res * 10 + (data[pos] - ZERO) % 256);
      pos := pos + 1;
    }
    if pos >= |data| {
      return Panic;
    }
    r := Got(ToInt64(res * sign), pos + 2);
  }

  method ReadBulkString(data: Bytes) returns (r: Outcome<Value>)
    ensures r == BulkAt(data)
  {
    var len := ReadInt64(data);
    if !len.Got? {
      return len.PropagateFailure();
    }
    var length, pos := len.value, len.next;
    if length == -1 {
      return Got(Text(NULL_VALUE), pos + 2);
    }
    if length < 0 || pos + length > |data| {
      return Panic;
    }
    r := Got(Text(data[pos..pos + length]), pos + length + 2);
  }

  /** How a list read so far and the reading of the rest of it make the whole. */
  function Joined(done: seq<Value>, rest: Outcome<seq<Value>>): Outcome<seq<Value>> {
    var (vs, next) :- rest;
    Got(done + vs, next)
  }

  lemma JoinedStart(rest: Outcome<seq<Value>>)
    ensures Joined([], rest) == rest
  {
    if rest.Got? {
      assert [] + rest.value == rest.value;
    }
  }

  lemma JoinedStep(data: Bytes, pos: nat, count: nat, done: seq<Value>, unknown: Byte -> Bytes)
    requires 0 < pos <= |data| && count > 0 && Decoded(data[pos..], unknown).Got?
    ensures var one := Decoded(data[pos..], unknown);
            Joined(done, DecodedItems(data, pos, count, unknown)) ==
            Joined(done + [one.value], DecodedItems(data, pos + one.next, count - 1, unknown))
  {
    var one := Decoded(data[pos..], unknown);
    var rest := DecodedItems(data, pos + one.next, count - 1, unknown);
    if rest.Got? {
      assert done + ([one.value] + rest.value) == done + [one.value] + rest.value;
    }
  }

  /** The loop of readArray. */
  method ReadItems(data: Bytes, start: nat, count: nat, unknown: Byte -> Bytes) returns (r: Outcome<seq<Value>>)
    requires start > 0
    ensures r == DecodedItems(data, start, count, unknown)
    decreases |data|, 0
  {
    hide Decoded;
    var res: seq<Value>, pos: nat := [], start;
    ghost var whole := DecodedItems(data, start, count, unknown);
    JoinedStart(whole);
    for i := 0 to count
      invariant pos >= start && whole == Joined(res, DecodedItems(data, pos, count - i, unknown))
    {
      if pos > |data| {
        return Panic;
      }
      var one := DecodeOne(data[pos..], unknown);
      if !one.Got? {
        return one.PropagateFailure();
      }
      JoinedStep(data, pos, count - i, res, unknown);
      res := res + [one.value];
      pos := pos + one.next;
    }
    assert res + [] == res;
    r := Got(res, pos);
  }

  method ReadArray(data: Bytes, unknown: Byte -> Bytes) returns (r: Outcome<Value>)
    requires |data| > 0 && data[0] == STAR
    ensures r == Decoded(data, unknown)
    decreases |data|, 1
  {
    var len := ReadInt64(data);
    if !len.Got? {
      return len.PropagateFailure();
    }
    if len.value < 0 {
      return Panic;
    }
    var items := ReadItems(data, len.next, len.value, unknown);
    r := if items.Got? then Got(List(items.value), items.next) else items.PropagateFailure();
  }

  method DecodeOne(data: Bytes, unknown: Byte -> Bytes) returns (r: Outcome<Value>)
    ensures r == Decoded(data, unknown)
    decreases |data|, 2
  {
    if |data| == 0 {
      return NoData;
    }
    if data[0] == PLUS || data[0] == MINUS {
      r := ReadSimpleString(data);
    } else if data[0] == COLON {
      var n := ReadInt64(data);
      r := if n.Got? then Got(Int(n.value), n.next) else n.PropagateFailure();
    } else if data[0] == DOLLAR {
      r := ReadBulkString(data);
    } else if data[0] == STAR {
      r := ReadArray(data, unknown);
    } else {
      r := Got(Text(unknown(data[0])), 0);
    }
  }

  // ---- the bytes on the wire -----------------------------------------------------------

  /** The number that a text of decimal digits stands for. */
  function PlaceValue(s: Bytes): int {
    if s == [] then 0 else PlaceValue(s[..|s| - 1]) * 10 + (s[|s| - 1] as int - 48)
  }

  /** Decimal digits from 48 for 0 to 57 for 9, no leading zeros. */
  predicate Numeral(s: Bytes) {
    s != [] && (|s| > 1 ==> s[0] != 48) && forall i :: 0 <= i < |s| ==> 48 <= s[i] <= 57
  }

  lemma {:induction false} DigitsAre(n: nat)
    ensures Numeral(Digits(n)) && PlaceValue(Digits(n)) == n && (n > 0 ==> Digits(n)[0] != 48)
  {
    if n < 10 {
      assert Digits(n)[..0] == [];
    } else {
      DigitsAre(n / 10);
      assert Digits(n)[..|Digits(n)| - 1] == Digits(n / 10);
    }
  }

  /** Numbers are printed in decimal, after a minus sign, which is 45, if they are negative. */
  lemma DecimalIs(n: int)
    ensures n >= 0 ==> Numeral(Decimal(n)) && PlaceValue(Decimal(n)) == n
    ensures n < 0 ==> Decimal(n)[0] == 45 && Numeral(Decimal(n)[1..]) && PlaceValue(Decimal(n)[1..]) == -n
  {
    DigitsAre(if n < 0 then -n else n);
    if n < 0 {
      assert Decimal(n)[1..] == Digits(-n);
    }
  }

  /** Bulk strings are marked by 36 for '$', integers by 58 for ':', arrays by 42 for '*'; lines end in 13 and 10. */
  lemma WireForm(v: Value)
    ensures v.Text? ==> Encoding(v) == [36] + Decimal(|v.bytes|) + [13, 10] + v.bytes + [13, 10]
    ensures v.Int? ==> Encoding(v) == [58] + Decimal(v.n) + [13, 10]
    ensures v.List? ==> Encoding(v) == [42] + Decimal(|v.items|) + [13, 10] + EncodedItems(v.items)
  {
  }

  /** The mark decides how the data are read: 43 for '+' and 45 for '-' as a line, the others as they are written. */
  lemma WireDispatch(data: Bytes, unknown: Byte -> Bytes)
    requires data != []
    ensures data[0] == 43 || data[0] == 45 ==> Decoded(data, unknown) == LineAt(data)
    ensures data[0] == 36 ==> Decoded(data, unknown) == BulkAt(data)
    ensures data[0] == 58 && IntAt(data).Got? ==>
              Decoded(data, unknown) == Got(Int(IntAt(data).value), IntAt(data).next)
    ensures data[0] == 42 && Decoded(data, unknown).Got? ==>
              Decoded(data, unknown).value.List? && |Decoded(data, unknown).value.items| == IntAt(data).value
    ensures data[0] !in {36, 42, 43, 45, 58} ==> Decoded(data, unknown) == Got(Text(unknown(data[0])), 0)
  {
    if data[0] == 42 && Decoded(data, unknown).Got? {
      ItemsCount(data, IntAt(data).next, IntAt(data).value, unknown);
    }
  }

  lemma {:induction false} ItemsCount(data: Bytes, pos: nat, count: nat, unknown: Byte -> Bytes)
    requires pos > 0
    ensures DecodedItems(data, pos, count, unknown).Got? ==> |DecodedItems(data, pos, count, unknown).value| == count
    decreases count
  {
    hide LineAt, IntAt, BulkAt, Decoded;
    if count > 0 && pos <= |data| {
      var one := Decoded(data[pos..], unknown);
      if one.Got? {
        ItemsCount(data, pos + one.next, count - 1, unknown);
      }
    }
  }

  /** Bytes as they come in: a bulk string and an integer, read with their exact lengths. */
  lemma WireRead(bytes: Bytes, n: int, rest: Bytes, unknown: Byte -> Bytes)
    requires |bytes| < TWO_63 && -TWO_63 <= n < TWO_63
    ensures Decoded([36] + Decimal(|bytes|) + [13, 10] + bytes + [13, 10] + rest, unknown) ==
              Got(Text(bytes), |Decimal(|bytes|)| + |bytes| + 5)
    ensures Decoded([58] + Decimal(n) + [13, 10] + rest, unknown) == Got(Int(n), |Decimal(n)| + 3)
  {
    RoundTrip(Text(bytes), rest, unknown);
    RoundTrip(Int(n), rest, unknown);
  }

  /** An explicit plus sign, which is 43, changes nothing, except that after a minus sign it wins. */
  lemma PlusSign(mark: Byte, n: nat, rest: Bytes)
    requires n < TWO_63
    ensures IntAt([mark, 43] + Digits(n) + [13, 10] + rest) == Got(n, |Digits(n)| + 4)
    ensures IntAt([mark, 45, 43] + Digits(n) + [13, 10] + rest) == Got(n, |Digits(n)| + 5)
  {
    DigitsOnly(n);
    DigitsRead(n);
    InRange(n);
    IntFromDigits([mark, 43], Digits(n), rest, 0);
    IntFromDigits([mark, 45, 43], Digits(n), rest, 0);
  }

  /** A null bulk string is read as the text "Null value", two bytes too far. */
  lemma NullBulk(rest: Bytes, unknown: Byte -> Bytes)
    ensures Decoded([36, 45, 49, 13, 10] + rest, unknown) ==
              Got(Text([78, 117, 108, 108, 32, 118, 97, 108, 117, 101]), 7)
  {
    HeaderRead(DOLLAR, -1, rest);
    assert Digits(1) == [49];
    assert Header(DOLLAR, -1) == [36, 45, 49, 13, 10];
  }

  // ---- simple strings and errors -------------------------------------------------------

  lemma {:induction false} LineFromText(data: Bytes, pos: nat, end: nat)
    requires pos <= end < |data| && data[end] == CR
    ensures LineFrom(data, pos).Got? && (LineFrom(data, pos).value == end <==> CR !in data[pos..end])
    decreases end - pos
  {
    if pos < end && data[pos] != CR {
      LineFromText(data, pos + 1, end);
      assert data[pos..end] == [data[pos]] + data[pos + 1..end];
    } else if pos < end {
      assert data[pos] in data[pos..end];
    }
  }

  /** A simple string or an error comes back exactly when there is no carriage return in it. */
  lemma LineRoundTrip(mark: Byte, s: Bytes, rest: Bytes, unknown: Byte -> Bytes)
    requires mark == 43 || mark == 45
    ensures Decoded([mark] + s + [13, 10] + rest, unknown) == Got(Text(s), |s| + 3) <==> 13 !in s
  {
    var data := [mark] + s + [13, 10] + rest;
    LineFromText(data, 1, |s| + 1);
    assert data[1..|s| + 1] == s;
  }

  // ---- the printer, as it runs ---------------------------------------------------------

  lemma Associative(a: Bytes, b: Bytes, c: Bytes)
    ensures a + b + c == a + (b + c)
  {
  }

  lemma {:induction false} ItemsLast(items: seq<Value>, v: Value)
    ensures EncodedItems(items + [v]) == EncodedItems(items) + Encoding(v)
  {
    var longer := items + [v];
    if items == [] {
      assert longer[1..] == [];
    } else {
      ItemsLast(items[1..], v);
      assert longer[1..] == items[1..] + [v];
      Associative(Encoding(items[0]), EncodedItems(items[1..]), Encoding(v));
    }
  }

  method Encode(v: Value) returns (r: Bytes)
    ensures r == Encoding(v)
    decreases v
  {
    match v
    case Text(bytes) => r := Header(DOLLAR, |bytes|) + bytes + CRLF;
    case Int(n) => r := Header(COLON, n);
    case List(items) =>
      var buf: Bytes := [];
      for i := 0 to |items|
        invariant buf == EncodedItems(items[..i])
      {
        var one := Encode(items[i]);
        ItemsLast(items[..i], items[i]);
        assert items[..i + 1] == items[..i] + [items[i]];
        buf := buf + one;
      }
      assert items[..|items|] == items;
      r := Header(STAR, |items|) + buf;
  }

  // ---- commands ------------------------------------------------------------------------

  datatype Parsed = Cmd(name: Bytes, args: seq<Bytes>) | Failure | Crash

  /** Library functions that are left open: the message for an unknown mark, splitting at white space, printing, upper
      case. */
  datatype Library = Library(unknown: Byte -> Bytes, fields: Bytes -> seq<Bytes>, show: Value -> Bytes,
                             upper: Bytes -> Bytes)

  function Token(v: Value, lib: Library): Bytes {
    match v
    case Text(bytes) => bytes
    case Int(n) => Decimal(n)
    case List(_) => lib.show(v)
  }

  function Tokens(v: Value, lib: Library): seq<Bytes> {
    match v
    case Text(bytes) => lib.fields(bytes)
    case Int(n) => [Decimal(n)]
    case List(items) => seq(|items|, i requires 0 <= i < |items| => Token(items[i], lib))
  }

  function CommandIn(data: Bytes, lib: Library): Parsed {
    match Decoded(data, lib.unknown)
    case NoData => Failure
    case Panic => Crash
    case Got(v, _) =>
      var tokens := Tokens(v, lib);
      if tokens == [] then Failure else Cmd(lib.upper(tokens[0]), tokens[1..])
  }

  method ParseCmd(data: Bytes, lib: Library) returns (r: Parsed)
    ensures r == CommandIn(data, lib)
  {
    if |data| == 0 {
      return Failure;
    }
    var value := DecodeOne(data, lib.unknown);
    if !value.Got? {
      return if value.NoData? then Failure else Crash;
    }
    var tokens := [];
    match value.value {
      case Text(bytes) => tokens := lib.fields(bytes);
      case Int(n) => tokens := [Decimal(n)];
      case List(items) =>
        for i := 0 to |items|
          invariant |tokens| == i && forall j :: 0 <= j < i ==> tokens[j] == Token(items[j], lib)
        {
          tokens := tokens + [Token(items[i], lib)];
        }
    }
    assert tokens == Tokens(value.value, lib);
    if |tokens| == 0 {
      return Failure;
    }
    r := Cmd(lib.upper(tokens[0]), tokens[1..]);
  }

  function Texts(strings: seq<Bytes>): seq<Value> {
    seq(|strings|, i requires 0 <= i < |strings| => Text(strings[i]))
  }

  /** A command sent as an array of strings arrives as that command, whatever bytes follow it in the read buffer. */
  lemma ParseEncoded(strings: seq<Bytes>, rest: Bytes, lib: Library)
    requires 0 < |strings| < TWO_63 && forall i :: 0 <= i < |strings| ==> |strings[i]| < TWO_63
    ensures CommandIn(Encoding(List(Texts(strings))) + rest, lib) == Cmd(lib.upper(strings[0]), strings[1..])
  {
    var v := List(Texts(strings));
    RoundTrip(v, rest, lib.unknown);
    assert Tokens(v, lib) == strings;
  }

  /** The token reads back as the number. */
  ghost predicate ReadsAs(token: Bytes, n: int) {
    && IntAt([58] + token + [13, 10]) == Got(n, |token| + 3)
    && (n >= 0 ==> Numeral(token) && PlaceValue(token) == n)
    && (n < 0 ==> token != [] && token[0] == 45 && PlaceValue(token[1..]) == -n)
  }

  lemma DecimalReadsAs(n: int)
    requires -TWO_63 <= n < TWO_63
    ensures ReadsAs(Decimal(n), n)
  {
    HeaderRead(COLON, n, []);
    assert Header(COLON, n) + [] == [58] + Decimal(n) + [13, 10];
    DecimalIs(n);
  }

  /** What becomes of an item of a command. */
  ghost predicate TokenOf(v: Value, token: Bytes, lib: Library) {
    match v
    case Text(bytes) => token == bytes
    case Int(n) => ReadsAs(token, n)
    case List(_) => token == lib.show(v)
  }

  /** Any array that is sent arrives as a command: strings unchanged, integers as texts that read back as them. */
  lemma ParseItems(items: seq<Value>, rest: Bytes, lib: Library) returns (tokens: seq<Bytes>)
    requires items != [] && Representable(List(items))
    ensures |tokens| == |items| && forall i :: 0 <= i < |items| ==> TokenOf(items[i], tokens[i], lib)
    ensures CommandIn(Encoding(List(items)) + rest, lib) == Cmd(lib.upper(tokens[0]), tokens[1..])
  {
    RoundTrip(List(items), rest, lib.unknown);
    tokens := Tokens(List(items), lib);
    forall i | 0 <= i < |items| ensures TokenOf(items[i], tokens[i], lib) {
      if items[i].Int? {
        DecimalReadsAs(items[i].n);
      }
    }
  }

  /** A single integer is a command of its own, a single text is split at white space. */
  lemma ParseSingle(n: int, bytes: Bytes, rest: Bytes, lib: Library) returns (token: Bytes)
    requires -TWO_63 <= n < TWO_63 && |bytes| < TWO_63
    ensures CommandIn(Encoding(Int(n)) + rest, lib) == Cmd(lib.upper(token), []) && ReadsAs(token, n)
    ensures CommandIn(Encoding(Text(bytes)) + rest, lib) ==
              var words := lib.fields(bytes); if words == [] then Failure else Cmd(lib.upper(words[0]), words[1..])
    ensures CommandIn([], lib) == Failure
  {
    RoundTrip(Int(n), rest, lib.unknown);
    RoundTrip(Text(bytes), rest, lib.unknown);
    DecimalReadsAs(n);
    token := Decimal(n);
  }
}
