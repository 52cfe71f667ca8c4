/** The subset of DER that keys and signatures use (`der.py`, and the DER codecs of `util.py`). */
module Der {
  import opened Wrappers
  import opened Integers
  import opened Powers
  import opened Bytes

  /** Python's `string[i:j]`, which clips its bounds. */
  function Slice(s: bytes, i: nat, j: nat): bytes {
    if i >= |s| || j <= i then [] else if j >= |s| then s[i..] else s[i..j]
  }

  function From(s: bytes, i: nat): bytes {
    if i >= |s| then [] else s[i..]
  }

  /** `int2byte`. */
  function Int2Byte(n: nat): Result<bytes> {
    if n < 256 then Ok([n]) else Err(ValueError)
  }

  // --- lengths ---

  function EncodeLength(l: nat): Result<bytes> {
    if l < 0x80 then Ok([l])
    else
      var s := MinBytes(l);
      var head :- Int2Byte(if |s| < 0x80 then 0x80 + |s| else if |s| < 0x100 then |s| else 0x100);  // 0x80 | llen
      Ok(head + s)
  }

  function ReadLength(s: bytes): Result<(nat, nat)> {
    if s == [] then Err(IndexError)
    else if s[0] < 0x80 then Ok((s[0], 1))
    else
      var llen := s[0] - 0x80;
      if llen > |s| - 1 then Err(UnexpectedDER)
      else
        var l :- ToInt(s[1..1 + llen]);
        Ok((l, 1 + llen))
  }

  /** Lengths are read back, whatever follows, exactly below 256^127. */
  lemma LengthRoundTrip(l: nat, rest: bytes)
    ensures l < Pow(256, 127) <==>
      EncodeLength(l).Ok? && ReadLength(EncodeLength(l).value + rest) == Ok((l, |EncodeLength(l).value|))
  {
    var s := MinBytes(l);
    MinBytesLength(l, 127);
    MinBytesValue(l);
    if l < 0x80 {
      assert |s| == 1;
    } else if |s| <= 127 {
      var t := [0x80 + |s|] + s + rest;
      assert EncodeLength(l).value + rest == t;
      assert t[1..1 + |s|] == s;
    } else if |s| < 256 {
      var t := [|s|] + s + rest;
      assert EncodeLength(l).value + rest == t;
      var llen := |s| - 0x80;
      assert t[1..1 + llen] == s[..llen];
      assert ReadLength(t).Ok? ==> ReadLength(t).value.1 == 1 + llen;
    }
  }

  /** The encoding of a length that takes up to 127 bytes: itself below 0x80, and otherwise the number of
      its bytes plus 0x80 and these, without leading zeros. */
  lemma EncodeLengthMeaning(l: nat)
    requires l < Pow(256, 127)
    ensures EncodeLength(l).Ok?
    ensures
      var s := EncodeLength(l).value;
      if l < 0x80 then s == [l]
      else |s| >= 2 && s[0] == 0x80 + (|s| - 1) && Value(s[1..]) == l && s[1] != 0
  {
    MinBytesLength(l, 127);
    MinBytesValue(l);
    MinBytesLeading(l);
    if l >= 0x80 {
      assert EncodeLength(l).value[1..] == MinBytes(l);
    }
  }

  // --- tagged values ---

  function EncodeTagged(tag: byte, body: bytes): Result<bytes> {
    var length :- EncodeLength(|body|);
    Ok([tag] + length + body)
  }

  /** What the `remove_` functions share: check the tag, read the length, split off that many bytes.
      A length beyond the end is not noticed: the slice is just shorter. */
  function RemoveTagged(s: bytes, tag: byte): Result<(bytes, bytes)> {
    if s == [] then Err(IndexError)
    else if s[0] != tag then Err(UnexpectedDER)
    else
      var (length, llen) :- ReadLength(s[1..]);
      Ok((Slice(s, 1 + llen, 1 + llen + length), From(s, 1 + llen + length)))
  }

  predicate Encodable(n: nat) {
    n < Pow(256, 127)
  }

  lemma TaggedRoundTrip(tag: byte, body: bytes, rest: bytes)
    requires Encodable(|body|)
    ensures EncodeTagged(tag, body).Ok?
    ensures RemoveTagged(EncodeTagged(tag, body).value + rest, tag) == Ok((body, rest))
  {
    LengthRoundTrip(|body|, body + rest);
    var length := EncodeLength(|body|).value;
    var s := EncodeTagged(tag, body).value + rest;
    assert s[1..] == length + (body + rest);
    SliceAt([tag] + length, body, rest, s);
  }

  lemma SliceAt(head: bytes, body: bytes, rest: bytes, s: bytes)
    requires s == head + body + rest
    ensures Slice(s, |head|, |head| + |body|) == body && From(s, |head| + |body|) == rest
  {}

  /** How a tagged value starts: with its tag and its length, which is either one byte below 0x80 or the
      number of the bytes that hold it, plus 0x80, and these. */
  predicate Header(h: bytes, tag: byte, length: nat) {
    && |h| >= 2 && h[0] == tag
    && (h[1] < 0x80 ==> |h| == 2 && length == h[1])
    && (h[1] >= 0x80 ==> |h| > 2 && |h| == 2 + (h[1] - 0x80) && length == Value(h[2..]))
  }

  /** The string is a header, the body and the rest; only at the end of the string may the body be shorter
      than announced. */
  predicate Parts(h: bytes, length: nat, body: bytes, rest: bytes, s: bytes) {
    s == h + body + rest && |body| <= length && (rest != [] ==> |body| == length)
  }

  lemma ReadHeader(h: bytes, tag: byte, length: nat, t: bytes)
    requires Header(h, tag, length)
    ensures ReadLength((h + t)[1..]) == Ok((length, |h| - 1))
  {
    var u := (h + t)[1..];
    assert u[0] == h[1];
    if h[1] >= 0x80 {
      assert u[1..1 + (h[1] - 0x80)] == h[2..];
    }
  }

  lemma SplitParts(h: bytes, length: nat, body: bytes, rest: bytes, s: bytes)
    ensures Parts(h, length, body, rest, s) <==>
            |s| >= |h| && s[..|h|] == h
            && Slice(s, |h|, |h| + length) == body && From(s, |h| + length) == rest
  {}

  lemma AfterTag(s: bytes, llen: nat)
    requires 1 <= llen < |s|
    ensures s[..1 + llen][2..] == s[1..][1..llen]
  {
    assert forall i :: 0 <= i < llen - 1 ==> s[..1 + llen][2..][i] == s[2 + i] == s[1..][1..llen][i];
  }

  lemma HeaderOf(s: bytes, tag: byte) returns (h: bytes, length: nat)
    requires RemoveTagged(s, tag).Ok?
    ensures Header(h, tag, length) && |h| <= |s| && s[..|h|] == h
    ensures RemoveTagged(s, tag).value == (Slice(s, |h|, |h| + length), From(s, |h| + length))
  {
    var (l, llen) := ReadLength(s[1..]).value;
    h, length := s[..1 + llen], l;
    if s[1] >= 0x80 {
      AfterTag(s, llen);
    }
  }

  /** What the `remove_` functions take apart, and nothing else: a header with the wanted tag, the body
      and the rest. */
  lemma RemoveTaggedMeaning(s: bytes, tag: byte, body: bytes, rest: bytes)
    ensures RemoveTagged(s, tag) == Ok((body, rest)) <==>
            exists h: bytes, length: nat :: Header(h, tag, length) && Parts(h, length, body, rest, s)
  {
    if RemoveTagged(s, tag) == Ok((body, rest)) {
      var h, length := HeaderOf(s, tag);
      SplitParts(h, length, body, rest, s);
    }
    if h: bytes, length: nat :| Header(h, tag, length) && Parts(h, length, body, rest, s) {
      assert s == h + (body + rest);
      ReadHeader(h, tag, length, body + rest);
      SplitParts(h, length, body, rest, s);
    }
  }

  /** The ways to fail: no byte at all, another tag, no length, a length that is not all there, and a long
      form without any byte. */
  lemma RemoveTaggedFails(s: bytes, tag: byte)
    ensures s == [] ==> RemoveTagged(s, tag) == Err(IndexError)
    ensures s != [] && s[0] != tag ==> RemoveTagged(s, tag) == Err(UnexpectedDER)
    ensures s == [tag] ==> RemoveTagged(s, tag) == Err(IndexError)
    ensures |s| > 1 && s[0] == tag && s[1] == 0x80 ==> RemoveTagged(s, tag) == Err(ValueError)
    ensures |s| > 1 && s[0] == tag && s[1] > 0x80 + (|s| - 2) ==> RemoveTagged(s, tag) == Err(UnexpectedDER)
    ensures RemoveTagged(s, tag).Ok? <==>
            |s| > 1 && s[0] == tag && (s[1] < 0x80 || 0x80 < s[1] <= 0x80 + (|s| - 2))
  {
    if |s| > 1 {
      assert s[1..][0] == s[1] && |s[1..]| == |s| - 1;
    }
  }

  function EncodeBitString(s: bytes): Result<bytes> {
    EncodeTagged(0x03, s)
  }

  function RemoveBitString(s: bytes): Result<(bytes, bytes)> {
    RemoveTagged(s, 0x03)
  }

  function EncodeOctetString(s: bytes): Result<bytes> {
    EncodeTagged(0x04, s)
  }

  function RemoveOctetString(s: bytes): Result<(bytes, bytes)> {
    RemoveTagged(s, 0x04)
  }

  function Concat(pieces: seq<bytes>): bytes {
    if pieces == [] then [] else pieces[0] + Concat(pieces[1..])
  }

  function EncodeSequence(pieces: seq<bytes>): Result<bytes> {
    EncodeTagged(0x30, Concat(pieces))
  }

  function RemoveSequence(s: bytes): Result<(bytes, bytes)> {
    RemoveTagged(s, 0x30)
  }

  /** The tag of a constructed value shares its byte with the marker 0xa0. */
  function EncodeConstructed(tag: nat, value: bytes): Result<bytes> {
    var head :- Int2Byte(0xa0 + tag);
    var length :- EncodeLength(|value|);
    Ok(head + length + value)
  }

  function RemoveConstructed(s: bytes): Result<(nat, bytes, bytes)> {
    if s == [] then Err(IndexError)
    else if s[0] / 0x20 != 5 then Err(UnexpectedDER)  // (s0 & 0xe0) != 0xa0
    else
      var (length, llen) :- ReadLength(s[1..]);
      Ok((s[0] % 0x20, Slice(s, 1 + llen, 1 + llen + length), From(s, 1 + llen + length)))
  }

  /** Constructed values are read back exactly when the tag fits its five bits. */
  lemma ConstructedRoundTrip(tag: nat, value: bytes, rest: bytes)
    requires Encodable(|value|)
    ensures tag < 32 <==>
      EncodeConstructed(tag, value).Ok?
      && RemoveConstructed(EncodeConstructed(tag, value).value + rest) == Ok((tag, value, rest))
  {
    LengthRoundTrip(|value|, value + rest);
    if tag < 96 {
      var length := EncodeLength(|value|).value;
      var s := EncodeConstructed(tag, value).value + rest;
      assert s[1..] == length + (value + rest);
      SliceAt([0xa0 + tag] + length, value, rest, s);
    }
  }

  // --- integers ---

  function EncodeInteger(r: int): Result<bytes> {
    if r < 0 then Err(AssertionError)
    else
      var s := MinBytes(r);
      var content := if s[0] <= 0x7f then s else [0] + s;
      var length :- Int2Byte(|content|);
      Ok([0x02] + length + content)
  }

  function RemoveInteger(s: bytes): Result<(nat, bytes)> {
    var (body, rest) :- RemoveTagged(s, 0x02);
    if body == [] then Err(IndexError)
    else if body[0] >= 0x80 then Err(AssertionError)
    else Ok((Value(body), rest))
  }

  /** An integer is read from any body that starts below 0x80, shortest or not; an empty body, and one that
      stands for a negative number, are refused. */
  lemma RemoveIntegerMeaning(body: bytes, rest: bytes)
    requires Encodable(|body|)
    ensures EncodeTagged(0x02, body).Ok?
    ensures RemoveInteger(EncodeTagged(0x02, body).value + rest) ==
            if body == [] then Err(IndexError)
            else if body[0] >= 0x80 then Err(AssertionError)
            else Ok((Value(body), rest))
  {
    TaggedRoundTrip(0x02, body, rest);
    hide EncodeTagged, RemoveTagged, Value;
  }

  function IntegerContent(r: nat): (s: bytes)
    ensures |s| >= 1
  {
    var s := MinBytes(r);
    if s[0] <= 0x7f then s else [0] + s
  }

  lemma ContentValue(r: nat)
    ensures Value(IntegerContent(r)) == r && IntegerContent(r)[0] <= 0x7f
  {
    MinBytesValue(r);
    var s := MinBytes(r);
    ValueConcat([0], s);
    assert Value([0]) == 0;
  }

  lemma PowersAt1015()
    ensures Pow(2, 1015) == 128 * Pow(256, 126) && Pow(256, 127) == 256 * Pow(256, 126) && Pow(256, 126) > 0
  {
    PowersOf256(126);
    PowAdd(2, 7, 1008);
    assert Pow(2, 7) == 128 by { PowAdd(2, 4, 3); assert Pow(2, 4) == 16 && Pow(2, 3) == 8; }
    PowPositive(256, 126);
    assert Pow(256, 127) == 256 * Pow(256, 126);
  }

  /** The content takes at most 127 bytes exactly below 2^1015. */
  lemma ContentLength(r: nat)
    ensures |IntegerContent(r)| <= 127 <==> r < Pow(2, 1015)
  {
    var s := MinBytes(r);
    PowersAt1015();
    MinBytesLength(r, 126);
    MinBytesLength(r, 127);
    MinBytesValue(r);
    hide Pow, MinBytes, Value;
    if |s| == 127 {
      LeadingByte(s);
      var w := Pow(256, 126);
      if s[0] <= 0x7f { MulMono(s[0] + 1, 128, w); } else { MulMono(128, s[0], w); }
    }
  }

  lemma LeadingByte(s: bytes)
    requires s != []
    ensures var w := Pow(256, |s| - 1); s[0] * w <= Value(s) < (s[0] + 1) * w
  {
    assert s == [s[0]] + s[1..];
    ValueConcat([s[0]], s[1..]);
    assert Value([s[0]]) == s[0];
    ValueBound(s[1..]);
    Distribute(s[0], 1, Pow(256, |s| - 1));
  }

  lemma IntegerRoundTrip(r: nat, rest: bytes)
    requires r < Pow(2, 1015)
    ensures EncodeInteger(r).Ok? && RemoveInteger(EncodeInteger(r).value + rest) == Ok((r, rest))
    ensures |EncodeInteger(r).value| <= 129
  {
    ContentLength(r);
    ContentValue(r);
    var content := IntegerContent(r);
    var s := EncodeInteger(r).value + rest;
    assert s[1..] == [|content|] + (content + rest);
    assert ReadLength(s[1..]) == Ok((|content|, 1));
    SliceAt([0x02, |content|], content, rest, s);
  }

  /** The encoding of an integer: the tag, the number of bytes in one byte, and the shortest big-endian
      content that starts below 0x80. A longer content cannot be announced, a negative number not encoded. */
  lemma EncodeIntegerMeaning(r: int)
    ensures r < 0 ==> EncodeInteger(r) == Err(AssertionError)
    ensures EncodeInteger(r).Ok? ==>
      var s := EncodeInteger(r).value;
      && |s| >= 3 && s[0] == 0x02 && s[1] == |s| - 2
      && Value(s[2..]) == r && s[2] < 0x80 && (|s| > 3 && s[2] == 0 ==> s[3] >= 0x80)
    ensures r >= 0 && EncodeInteger(r).Err? ==> EncodeInteger(r) == Err(ValueError) && |IntegerContent(r)| >= 256
  {
    if r >= 0 {
      ContentValue(r);
      MinBytesLeading(r);
      var content := IntegerContent(r);
      if |content| < 256 {
        assert EncodeInteger(r).value == [0x02, |content|] + content;
        assert ([0x02, |content|] + content)[2..] == content;
      }
    }
  }

  /** How a content of 128 to 255 bytes is misread: its own first bytes are taken for its length. */
  lemma MisreadContent(content: bytes, r: nat)
    requires 0x80 <= |content| < 0x100
    requires RemoveInteger([0x02, |content|] + content) == Ok((r, []))
    ensures |content| > 0x80
    ensures Value(content[..|content| - 0x80]) > 0 && r == Value(content[|content| - 0x80..])
  {
    hide Value;
    var s := [0x02, |content|] + content;
    var llen := |content| - 0x80;
    assert s[1..] == [|content|] + content;
    assert s[1..][1..1 + llen] == content[..llen];
    if llen > 0 {
      var v := Value(content[..llen]);
      assert From(s, 2 + llen + v) == [];
      assert s[2 + llen..] == content[llen..];
    }
  }

  /** From 2^1015 on the one-byte length is wrong or missing, and the integer does not come back. */
  lemma LargeIntegerLost(r: nat)
    requires r >= Pow(2, 1015)
    ensures EncodeInteger(r).Ok? ==> RemoveInteger(EncodeInteger(r).value) != Ok((r, []))
  {
    ContentLength(r);
    var content := IntegerContent(r);
    if |content| < 256 {
      assert EncodeInteger(r).value == [0x02, |content|] + content;
      hide EncodeInteger, RemoveInteger, IntegerContent, Value, Pow;
      if RemoveInteger([0x02, |content|] + content) == Ok((r, [])) {
        MisreadContent(content, r);
        TailIsSmaller(r, content, |content| - 0x80);
      }
    }
  }

  /** Without its leading bytes, which are not all zero, a number is smaller. */
  lemma TailIsSmaller(r: nat, content: bytes, llen: nat)
    requires content == IntegerContent(r) && 0 < llen < |content|
    ensures Value(content[..llen]) == 0 || Value(content[llen..]) < r
  {
    ContentValue(r);
    assert content == content[..llen] + content[llen..];
    ValueConcat(content[..llen], content[llen..]);
    var v, w := Value(content[..llen]), Pow(256, |content| - llen);
    PowPositive(256, |content| - llen);
    if v > 0 { MulMono(1, v, w); }
  }

  /** `encode_integer` and `remove_integer` undo each other before any trailing bytes exactly below 2^1015. */
  lemma IntegerRoundTripExact(r: nat)
    ensures r < Pow(2, 1015) <==>
      EncodeInteger(r).Ok? && forall rest :: RemoveInteger(EncodeInteger(r).value + rest) == Ok((r, rest))
  {
    if r < Pow(2, 1015) {
      forall rest ensures EncodeInteger(r).Ok? && RemoveInteger(EncodeInteger(r).value + rest) == Ok((r, rest)) {
        IntegerRoundTrip(r, rest);
      }
      IntegerRoundTrip(r, []);
    } else {
      LargeIntegerLost(r);
      if EncodeInteger(r).Ok? {
        assert EncodeInteger(r).value + [] == EncodeInteger(r).value;
      }
    }
  }

  // --- base-128 numbers and object identifiers ---

  /** The digits of n in base 128, all with the continuation bit. */
  function HighDigits(n: nat): bytes {
    if n == 0 then [] else HighDigits(n / 128) + [128 + n % 128]
  }

  function NumberBytes(n: nat): bytes {
    HighDigits(n / 128) + [n % 128]
  }

  method EncodeNumber(n: nat) returns (s: bytes)
    ensures s == NumberBytes(n)
  {
    var m: nat, digits: bytes := n, [];
    while m != 0
      invariant HighDigits(n) == HighDigits(m) + digits
      decreases m
    {
      digits := [128 + m % 128] + digits;
      m := m / 128;
    }
    if digits == [] {
      digits := [0];
    }
    s := digits[|digits| - 1 := digits[|digits| - 1] % 128];
    if n != 0 {
      assert digits == HighDigits(n / 128) + [128 + n % 128];
      assert s == HighDigits(n / 128) + [n % 128];
    }
  }

  /** The number read so far is `number`; the digit at position i is next. */
  function ReadDigits(s: bytes, number: nat, i: nat): Result<(nat, nat)>
    decreases if i < |s| then |s| - i else 0
  {
    if i >= |s| then Err(IndexError)
    else
      var next := number * 128 + s[i] % 128;
      if s[i] < 128 then Ok((next, i + 1)) else ReadDigits(s, next, i + 1)
  }

  method ReadNumber(s: bytes) returns (r: Result<(nat, nat)>)
    ensures r == ReadDigits(s, 0, 0)
  {
    var number: nat, llen: nat := 0, 0;
    while true
      invariant 0 <= llen <= |s|
      invariant ReadDigits(s, 0, 0) == ReadDigits(s, number, llen)
      decreases |s| - llen
    {
      if llen > |s| {
        return Err(UnexpectedDER);
      }
      if llen == |s| {
        return Err(IndexError);
      }
      var d: int := s[llen];
      number := number * 128 + d % 128;
      llen := llen + 1;
      if d < 128 {
        break;
      }
    }
    return Ok((number, llen));
  }

  lemma {:induction false} ReadHighDigits(m: nat, rest: bytes)
    ensures ReadDigits(HighDigits(m) + rest, 0, 0) == ReadDigits(HighDigits(m) + rest, m, |HighDigits(m)|)
  {
    if m > 0 {
      var d: byte := 128 + m % 128;
      ReadHighDigits(m / 128, [d] + rest);
      assert HighDigits(m) + rest == HighDigits(m / 128) + ([d] + rest);
    }
  }

  /** A number is read back, whatever follows. */
  lemma NumberRoundTrip(n: nat, rest: bytes)
    ensures ReadDigits(NumberBytes(n) + rest, 0, 0) == Ok((n, |NumberBytes(n)|))
  {
    ReadHighDigits(n / 128, [n % 128] + rest);
    assert NumberBytes(n) + rest == HighDigits(n / 128) + ([n % 128] + rest);
  }

  lemma {:induction false} ReadDigitsProgress(s: bytes, number: nat, i: nat)
    ensures ReadDigits(s, number, i).Ok? ==> i < ReadDigits(s, number, i).value.1 <= |s|
    decreases if i < |s| then |s| - i else 0
  {
    if i < |s| && s[i] >= 128 {
      ReadDigitsProgress(s, number * 128 + s[i] % 128, i + 1);
    }
  }

  /** The value of a string of base-128 digits, whatever their top bits. */
  ghost function Base128(s: bytes): nat {
    if s == [] then 0 else Base128(s[..|s| - 1]) * 128 + s[|s| - 1] % 128
  }

  /** A number in base 128: every byte but the last has the continuation bit. */
  ghost predicate Continued(s: bytes) {
    s != [] && s[|s| - 1] < 128 && forall i :: 0 <= i < |s| - 1 ==> s[i] >= 128
  }

  lemma {:induction false} ReadOn(s: bytes, number: nat, i: nat)
    requires i <= |s| && number == Base128(s[..i]) && forall j :: 0 <= j < i ==> s[j] >= 128
    ensures ReadDigits(s, number, i).Ok? ==>
      var k := ReadDigits(s, number, i).value.1;
      i < k <= |s| && Continued(s[..k]) && ReadDigits(s, number, i).value.0 == Base128(s[..k])
    ensures ReadDigits(s, number, i).Err? ==>
      ReadDigits(s, number, i) == Err(IndexError) && forall j :: 0 <= j < |s| ==> s[j] >= 128
    decreases |s| - i
  {
    if i < |s| {
      assert s[..i + 1][..i] == s[..i];
      if s[i] >= 128 {
        ReadOn(s, number * 128 + s[i] % 128, i + 1);
      }
    }
  }

  /** `read_number` reads up to the first byte without the continuation bit, and runs off the end when there
      is none. */
  lemma ReadNumberMeaning(s: bytes)
    ensures ReadDigits(s, 0, 0).Ok? ==>
      var k := ReadDigits(s, 0, 0).value.1;
      0 < k <= |s| && Continued(s[..k]) && ReadDigits(s, 0, 0).value.0 == Base128(s[..k])
    ensures ReadDigits(s, 0, 0).Err? ==>
      ReadDigits(s, 0, 0) == Err(IndexError) && forall i :: 0 <= i < |s| ==> s[i] >= 128
  {
    ReadOn(s, 0, 0);
  }

  lemma {:induction false} HighDigitsMeaning(n: nat)
    ensures Base128(HighDigits(n)) == n && (forall i :: 0 <= i < |HighDigits(n)| ==> HighDigits(n)[i] >= 128)
    ensures n > 0 ==> HighDigits(n) != [] && HighDigits(n)[0] != 128
  {
    if n > 0 {
      HighDigitsMeaning(n / 128);
      OneMoreDigit(HighDigits(n / 128), n % 128);
      hide Base128;
    }
  }

  lemma OneMoreDigit(s: bytes, d: nat)
    requires d < 128
    ensures Base128(s + [128 + d]) == Base128(s) * 128 + d
    ensures Base128(s + [d]) == Base128(s) * 128 + d
  {
    assert (s + [128 + d])[..|s|] == s && (s + [d])[..|s|] == s;
  }

  /** `encode_number` writes the shortest such string: no leading zero digit. */
  lemma NumberBytesMeaning(n: nat)
    ensures Continued(NumberBytes(n)) && Base128(NumberBytes(n)) == n && NumberBytes(n)[0] != 128
  {
    HighDigitsMeaning(n / 128);
    OneMoreDigit(HighDigits(n / 128), n % 128);
    hide HighDigits, Base128;
  }

  function NumbersBytes(ns: seq<nat>): bytes {
    if ns == [] then [] else NumberBytes(ns[0]) + NumbersBytes(ns[1..])
  }

  /** Reads numbers until the body is used up. */
  function ReadNumbers(body: bytes): Result<seq<nat>>
    decreases |body|
  {
    if body == [] then Ok([])
    else
      ReadDigitsProgress(body, 0, 0);
      var (n, ll) :- ReadDigits(body, 0, 0);
      var tail :- ReadNumbers(body[ll..]);
      Ok([n] + tail)
  }

  lemma {:induction false} NumbersRoundTrip(ns: seq<nat>)
    ensures ReadNumbers(NumbersBytes(ns)) == Ok(ns)
  {
    if ns != [] {
      NumbersRoundTrip(ns[1..]);
      NumberRoundTrip(ns[0], NumbersBytes(ns[1..]));
      var s := NumbersBytes(ns);
      assert s[|NumberBytes(ns[0])|..] == NumbersBytes(ns[1..]);
      assert [ns[0]] + ns[1..] == ns;
    }
  }

  function EncodeOid(first: nat, second: nat, pieces: seq<nat>): Result<bytes> {
    if first > 2 || second > 39 then Err(AssertionError)
    else EncodeTagged(0x06, [40 * first + second] + NumbersBytes(pieces))
  }

  /** The numbers of an object identifier, with the first one split in two. */
  function SplitFirst(ns: seq<nat>): Result<seq<nat>> {
    if ns == [] then Err(IndexError) else Ok([ns[0] / 40, ns[0] - 40 * (ns[0] / 40)] + ns[1..])
  }

  function ObjectNumbers(s: bytes): Result<(seq<nat>, bytes)> {
    var (body, rest) :- RemoveTagged(s, 0x06);
    var ns :- ReadNumbers(body);
    var oid :- SplitFirst(ns);
    Ok((oid, rest))
  }

  method RemoveObject(s: bytes) returns (r: Result<(seq<nat>, bytes)>)
    ensures r == ObjectNumbers(s)
  {
    var split :- RemoveTagged(s, 0x06);
    var body, rest := split.0, split.1;
    var numbers: seq<nat> := [];
    while body != []
      invariant ReadNumbers(split.0).Ok? <==> ReadNumbers(body).Ok?
      invariant ReadNumbers(split.0).Err? ==> ReadNumbers(split.0) == ReadNumbers(body)
      invariant ReadNumbers(split.0).Ok? ==> ReadNumbers(split.0).value == numbers + ReadNumbers(body).value
      decreases |body|
    {
      ReadDigitsProgress(body, 0, 0);
      var next :- ReadNumber(body);
      numbers := numbers + [next.0];
      body := body[next.1..];
    }
    assert numbers + [] == numbers;
    if numbers == [] {
      return Err(IndexError);
    }
    assert ReadNumbers(split.0) == Ok(numbers) by { assert ReadNumbers([]) == Ok([]); assert numbers + [] == numbers; }
    var n0 := numbers[0];
    var first := n0 / 40;
    return Ok(([first, n0 - 40 * first] + numbers[1..], rest));
  }

  /** An OID starts with one byte below 0x80 for its first two numbers. */
  lemma OidBody(n: nat, pieces: seq<nat>)
    requires n < 128
    ensures NumbersBytes([n] + pieces) == [n] + NumbersBytes(pieces)
  {
    assert HighDigits(n / 128) == [];
    assert ([n] + pieces)[1..] == pieces;
  }

  lemma SplitsBack(first: nat, second: nat, pieces: seq<nat>)
    requires second <= 39
    ensures SplitFirst([40 * first + second] + pieces) == Ok([first, second] + pieces)
  {
    ModUnique(40 * first + second, 40, first, second);
    assert ([40 * first + second] + pieces)[1..] == pieces;
  }

  /** What `remove_object` makes of any numbers: the first is split by 40, whatever it is. */
  lemma ObjectMeaning(n: nat, pieces: seq<nat>, rest: bytes)
    requires Encodable(|NumbersBytes([n] + pieces)|)
    ensures EncodeTagged(0x06, NumbersBytes([n] + pieces)).Ok?
    ensures ObjectNumbers(EncodeTagged(0x06, NumbersBytes([n] + pieces)).value + rest).Ok?
    ensures
      var (oid, after) := ObjectNumbers(EncodeTagged(0x06, NumbersBytes([n] + pieces)).value + rest).value;
      after == rest && |oid| == 2 + |pieces| && 40 * oid[0] + oid[1] == n && oid[1] < 40 && oid[2..] == pieces
  {
    TaggedRoundTrip(0x06, NumbersBytes([n] + pieces), rest);
    NumbersRoundTrip([n] + pieces);
    hide NumbersBytes, NumberBytes, RemoveTagged, EncodeTagged, ReadNumbers, Encodable;
    assert ([n] + pieces)[1..] == pieces;
  }

  lemma OidRoundTrip(first: nat, second: nat, pieces: seq<nat>, rest: bytes)
    requires first <= 2 && second <= 39 && Encodable(1 + |NumbersBytes(pieces)|)
    ensures EncodeOid(first, second, pieces).Ok?
    ensures ObjectNumbers(EncodeOid(first, second, pieces).value + rest) == Ok(([first, second] + pieces, rest))
  {
    var n := 40 * first + second;
    OidBody(n, pieces);
    SplitsBack(first, second, pieces);
    hide NumbersBytes, NumberBytes, HighDigits, RemoveTagged, EncodeTagged, ReadNumbers, SplitFirst, Encodable;
    TaggedRoundTrip(0x06, [n] + NumbersBytes(pieces), rest);
    NumbersRoundTrip([n] + pieces);
  }

  // --- signatures (`sigencode_der` and `sigdecode_der`) ---

  function SigencodeDer(r: int, s: int): Result<bytes> {
    var x :- EncodeInteger(r);
    var y :- EncodeInteger(s);
    EncodeSequence([x, y])
  }

  function SigdecodeDer(signature: bytes): Result<(nat, nat)> {
    var (numbers, empty) :- RemoveSequence(signature);
    if empty != [] then Err(UnexpectedDER)
    else
      var (r, rest) :- RemoveInteger(numbers);
      var (s, empty') :- RemoveInteger(rest);
      if empty' != [] then Err(UnexpectedDER) else Ok((r, s))
  }

  lemma SmallEncodable(n: nat)
    requires n < 65536
    ensures Encodable(n)
  {
    PowAdd(256, 2, 125);
    PowPositive(256, 125);
    assert Pow(256, 2) == 65536 by { PowSquare(256, 1); }
    MulMono(1, Pow(256, 125), 65536);
  }

  lemma ConcatTwo(x: bytes, y: bytes)
    ensures Concat([x, y]) == x + y
  {
    assert [x, y][1..] == [y] && [y][1..] == [];
    assert Concat([y]) == y + Concat([]);
  }

  /** Bytes after a signature, or after the second number in it, are not ignored. */
  lemma SigDerJunk(r: nat, s: nat, inside: bytes, after: bytes)
    requires r < Pow(2, 1015) && s < Pow(2, 1015) && Encodable(|inside| + 258)
    ensures EncodeInteger(r).Ok? && EncodeInteger(s).Ok?
    ensures EncodeSequence([EncodeInteger(r).value, EncodeInteger(s).value + inside]).Ok?
    ensures
      var d := EncodeSequence([EncodeInteger(r).value, EncodeInteger(s).value + inside]).value;
      SigdecodeDer(d + after) == if inside == [] && after == [] then Ok((r, s)) else Err(UnexpectedDER)
  {
    IntegerRoundTrip(s, inside);
    var y := EncodeInteger(s).value + inside;
    IntegerRoundTrip(r, y);
    var x := EncodeInteger(r).value;
    ConcatTwo(x, y);
    TaggedRoundTrip(0x30, x + y, after);
    hide EncodeTagged, RemoveTagged, Encodable, EncodeInteger, RemoveInteger;
  }

  lemma SigDerRoundTrip(r: nat, s: nat)
    requires r < Pow(2, 1015) && s < Pow(2, 1015)
    ensures SigencodeDer(r, s).Ok? && SigdecodeDer(SigencodeDer(r, s).value) == Ok((r, s))
  {
    IntegerRoundTrip(r, []);
    IntegerRoundTrip(s, []);
    var x, y := EncodeInteger(r).value, EncodeInteger(s).value;
    IntegerRoundTrip(r, y);
    ConcatTwo(x, y);
    SmallEncodable(|x + y|);
    TaggedRoundTrip(0x30, x + y, []);
    var d := SigencodeDer(r, s).value;
    assert d + [] == d && y + [] == y;
  }

  // --- the values that the repository's own tests ask for (`test_pyecdsa.py`) ---

  predicate Gives(r: Result<bytes>, s: bytes) {
    r.Ok? && r.value == s
  }

  lemma TestedLengths()
    ensures Gives(EncodeLength(0), [0x00]) && Gives(EncodeLength(127), [0x7f]) && Gives(EncodeLength(128), [0x81, 0x80])
    ensures Gives(EncodeLength(255), [0x81, 0xff]) && Gives(EncodeLength(256), [0x82, 0x01, 0x00])
    ensures Gives(EncodeLength(3 * 256 + 7), [0x82, 0x03, 0x07]) && Gives(EncodeLength(155), [0x81, 0x9b])
    ensures forall more :: ReadLength([0x81, 0x9b] + more) == Ok((155, 2))
  {
    assert MinBytes(1) == [1] && MinBytes(3) == [3];
    assert MinBytes(256) == [1, 0] && MinBytes(775) == [3, 7];
    assert MinBytes(128) == [128] && MinBytes(255) == [255] && MinBytes(155) == [155];
    forall more: bytes ensures ReadLength([0x81, 0x9b] + more) == Ok((155, 2)) {
      assert ([0x81, 0x9b] + more)[1..2] == [0x9b];
      assert [0x9b][..0] == [];
    }
  }

  lemma TestedIntegers()
    ensures Gives(EncodeInteger(0), [0x02, 0x01, 0x00]) && Gives(EncodeInteger(1), [0x02, 0x01, 0x01])
    ensures Gives(EncodeInteger(127), [0x02, 0x01, 0x7f]) && Gives(EncodeInteger(128), [0x02, 0x02, 0x00, 0x80])
    ensures Gives(EncodeInteger(256), [0x02, 0x02, 0x01, 0x00])
  {
    assert MinBytes(1) == [1] && MinBytes(256) == [1, 0];
    assert [0] + MinBytes(128) == [0, 128];
  }

  lemma SmallDigits(n: nat)
    requires 0 < n < 128
    ensures HighDigits(n) == [128 + n]
  {
    assert n / 128 == 0 && n % 128 == n && HighDigits(0) == [];
  }

  lemma TestedNumbers()
    ensures NumberBytes(0) == [0x00] && NumberBytes(127) == [0x7f]
    ensures NumberBytes(128) == [0x81, 0x00] && NumberBytes(3 * 128 + 7) == [0x83, 0x07]
  {
    assert HighDigits(0) == [];
    SmallDigits(1);
    SmallDigits(3);
    hide HighDigits;
  }

  lemma TestedPieces()
    ensures NumberBytes(840) == [0x86, 0x48] && NumberBytes(10045) == [0xce, 0x3d]
    ensures NumberBytes(2) == [2] && NumberBytes(1) == [1]
  {
    assert HighDigits(0) == [];
    SmallDigits(6);
    SmallDigits(78);
    hide HighDigits;
  }

  lemma TestedOid()
    ensures Gives(EncodeOid(1, 2, [840, 10045, 2, 1]), [0x06, 0x07, 0x2a, 0x86, 0x48, 0xce, 0x3d, 0x02, 0x01])
  {
    TestedPieces();
    hide HighDigits, NumberBytes;
    var pieces: seq<nat> := [840, 10045, 2, 1];
    assert pieces[1..] == [10045, 2, 1] && [10045, 2, 1][1..] == [2, 1] && [2, 1][1..] == [1] && [1][1..] == [];
    assert NumbersBytes([1]) == [1];
    assert NumbersBytes([2, 1]) == [2, 1];
    assert NumbersBytes([10045, 2, 1]) == [0xce, 0x3d, 2, 1];
    assert NumbersBytes(pieces) == [0x86, 0x48, 0xce, 0x3d, 2, 1];
    hide NumbersBytes;
  }

  lemma TestedTags(body: bytes, first: nat, pieces: seq<nat>)
    requires Encodable(|body|) && first <= 2 && Encodable(1 + |NumbersBytes(pieces)|)
    ensures EncodeSequence([body]).Ok? && EncodeSequence([body]).value[0] == 0x30
    ensures EncodeOctetString(body).Ok? && EncodeOctetString(body).value[0] == 0x04
    ensures EncodeBitString(body).Ok? && EncodeBitString(body).value[0] == 0x03
    ensures EncodeOid(first, 0, pieces).Ok? && EncodeOid(first, 0, pieces).value[0] == 0x06
    ensures EncodeConstructed(1, body).Ok? && EncodeConstructed(1, body).value[0] == 0xa1
  {
    assert Concat([body]) == body by { assert [body][1..] == []; }
    LengthRoundTrip(|body|, []);
    LengthRoundTrip(1 + |NumbersBytes(pieces)|, []);
  }
}
