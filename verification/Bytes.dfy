/** Integers as byte strings: hexadecimal formatting, fixed widths, and the bit truncation of RFC 6979
    (`ecdsa.py`, `curves.py`, `util.py`, `rfc6979.py`). */
module Bytes {
  import opened Wrappers
  import opened Integers
  import opened Powers

  type byte = n: int | 0 <= n < 256
  type bytes = seq<byte>

  /** The big-endian value of a byte string. */
  function Value(s: bytes): nat {
    if s == [] then 0 else Value(s[..|s| - 1]) * 256 + s[|s| - 1]
  }

  /** `int(hexlify(s), 16)`, which refuses the empty string. */
  function ToInt(s: bytes): Result<nat> {
    if s == [] then Err(ValueError) else Ok(Value(s))
  }

  /** `unhexlify("%x" % n)` with a zero digit in front where the number of digits is odd. */
  function MinBytes(n: nat): (s: bytes)
    ensures |s| >= 1
  {
    if n < 256 then [n] else MinBytes(n / 256) + [n % 256]
  }

  /** The number of digits of `"%x" % n`. */
  function HexDigits(n: nat): (k: nat)
    ensures k >= 1
  {
    if n < 16 then 1 else HexDigits(n / 16) + 1
  }

  lemma {:induction false} MinBytesValue(n: nat)
    ensures Value(MinBytes(n)) == n
  {
    if n < 256 {
      assert MinBytes(n)[..0] == [];
    } else {
      MinBytesValue(n / 256);
      DivMod(n, 256);
      var s := MinBytes(n);
      assert s[..|s| - 1] == MinBytes(n / 256);
    }
  }

  lemma {:induction false} ValueBound(s: bytes)
    ensures Value(s) < Pow(256, |s|)
  {
    if s != [] {
      ValueBound(s[..|s| - 1]);
    }
  }

  lemma {:induction false} ValueConcat(s: bytes, t: bytes)
    ensures Value(s + t) == Value(s) * Pow(256, |t|) + Value(t)
  {
    if t == [] {
      assert s + t == s;
    } else {
      var k := |t| - 1;
      ValueConcat(s, t[..k]);
      assert (s + t)[..|s + t| - 1] == s + t[..k];
      ShiftValue(Value(s), Pow(256, k), Value(t[..k]));
    }
  }

  lemma ShiftValue(a: int, w: int, b: int)
    ensures (a * w + b) * 256 == a * (256 * w) + b * 256
  {}

  /** The number of bytes says exactly between which powers of 256 a number lies. */
  lemma {:induction false} MinBytesLength(n: nat, k: nat)
    requires k >= 1
    ensures |MinBytes(n)| <= k <==> n < Pow(256, k)
    decreases k
  {
    PowPositive(256, k - 1);
    if n >= 256 {
      DivMod(n, 256);
      if k > 1 {
        MinBytesLength(n / 256, k - 1);
        Quotient256(n, Pow(256, k - 1));
      } else {
        assert Pow(256, 1) == 256;
      }
    } else {
      MulMono(1, Pow(256, k - 1), 256);
    }
  }

  lemma Quotient256(n: nat, w: int)
    ensures n / 256 < w <==> n < 256 * w
  {}

  /** Only zero has a leading zero byte. */
  lemma {:induction false} MinBytesLeading(n: nat)
    ensures MinBytes(n)[0] == 0 <==> n == 0
  {
    if n >= 256 {
      MinBytesLeading(n / 256);
    }
  }

  /** Two byte strings of the same length with the same value are equal. */
  lemma {:induction false} ValueInjective(s: bytes, t: bytes)
    requires |s| == |t| && Value(s) == Value(t)
    ensures s == t
  {
    if s != [] {
      var k := |s| - 1;
      SameDigit(Value(s[..k]), s[k], Value(t[..k]), t[k]);
      ValueInjective(s[..k], t[..k]);
      hide Value;
      assert s == s[..k] + [s[k]] && t == t[..k] + [t[k]];
    }
  }

  lemma SameDigit(a: nat, d: byte, b: nat, e: byte)
    requires a * 256 + d == b * 256 + e
    ensures a == b && d == e
  {}

  // --- ecdsa.py: int_to_string and string_to_int ---

  function Reverse(s: bytes): bytes {
    if s == [] then [] else Reverse(s[1..]) + [s[0]]
  }

  lemma {:induction false} ReverseAppend(s: bytes, b: byte)
    ensures Reverse(s + [b]) == [b] + Reverse(s)
  {
    if s == [] {
      assert [b][1..] == [];
    } else {
      ReverseAppend(s[1..], b);
      assert (s + [b])[1..] == s[1..] + [b];
    }
  }

  lemma ConcatAssociative(a: bytes, b: bytes, c: bytes)
    ensures (a + b) + c == a + (b + c)
  {}

  /** What the loop still has to write. */
  function Remaining(rest: nat): bytes {
    if rest == 0 then [] else MinBytes(rest)
  }

  lemma LastDigit(rest: nat)
    requires rest > 0
    ensures 0 <= rest / 256 < rest && 0 <= rest % 256 < 256
    ensures MinBytes(rest) == Remaining(rest / 256) + [rest % 256]
  {
    if rest < 256 {
      ModUnique(rest, 256, 0, rest);
    }
  }

  /** One pass of the loop moves the last digit of the rest in front of the digits found. */
  lemma DigitMoves(rest: nat, digit: byte, result: bytes)
    requires rest > 0 && digit == rest % 256 && rest / 256 >= 0
    ensures Remaining(rest / 256) + Reverse(result + [digit]) == Remaining(rest) + Reverse(result)
  {
    LastDigit(rest);
    ReverseAppend(result, digit);
    hide MinBytes, Reverse;
    ConcatAssociative(Remaining(rest / 256), [digit], Reverse(result));
  }

  method IntToString(x: nat) returns (s: bytes)
    ensures s == MinBytes(x)
  {
    if x == 0 {
      return [0];
    }
    hide MinBytes;
    var rest := x;
    var result: bytes := [];
    while rest != 0
      invariant MinBytes(x) == Remaining(rest) + Reverse(result)
      decreases rest
    {
      LastDigit(rest);
      var ordinal := rest % 256;
      DigitMoves(rest, ordinal, result);
      result := result + [ordinal];
      rest := rest / 256;
    }
    return Reverse(result);
  }

  method StringToInt(s: bytes) returns (x: nat)
    ensures x == Value(s)
  {
    x := 0;
    for i := 0 to |s|
      invariant x == Value(s[..i])
    {
      assert s[..i + 1][..i] == s[..i];
      x := 256 * x + s[i];
    }
    assert s[..|s|] == s;
  }

  // --- curves.py and util.py: fixed width ---

  function OrderLen(order: nat): nat {
    (1 + HexDigits(order)) / 2
  }

  /** The number of digits says exactly between which powers of 16 a number lies. */
  lemma {:induction false} HexDigitsMeaning(n: nat, k: nat)
    requires k >= 1
    ensures HexDigits(n) <= k <==> n < Pow(16, k)
    decreases k
  {
    PowPositive(16, k - 1);
    if n >= 16 {
      if k > 1 {
        HexDigitsMeaning(n / 16, k - 1);
        Quotient16(n, Pow(16, k - 1));
      } else {
        assert Pow(16, 1) == 16;
      }
    } else {
      MulMono(1, Pow(16, k - 1), 16);
    }
  }

  lemma Quotient16(n: nat, w: int)
    ensures n / 16 < w <==> n < 16 * w
  {}

  lemma {:induction false} HexDigitsOfByte(n: nat)
    requires n >= 256
    ensures HexDigits(n) == HexDigits(n / 256) + 2
  {
    assert n / 16 >= 16;
    assert (n / 16) / 16 == n / 256;
    assert HexDigits(n / 16) == HexDigits((n / 16) / 16) + 1;
  }

  /** `orderlen` is the number of bytes that the order itself takes. */
  lemma {:induction false} OrderLenIsLength(order: nat)
    ensures OrderLen(order) == |MinBytes(order)|
  {
    if order >= 256 {
      HexDigitsOfByte(order);
      OrderLenIsLength(order / 256);
    } else if order >= 16 {
      assert HexDigits(order / 16) == 1;
      assert HexDigits(order) == 2;
    }
  }

  function ZeroBytes(n: nat): (s: bytes)
    ensures |s| == n && forall i :: 0 <= i < n ==> s[i] == 0
  {
    seq(n, i => 0)
  }

  lemma {:induction false} ZeroBytesValue(n: nat)
    ensures Value(ZeroBytes(n)) == 0
  {
    if n > 0 {
      ZeroBytesValue(n - 1);
      assert ZeroBytes(n)[..n - 1] == ZeroBytes(n - 1);
    }
  }

  /** `unhexlify("%0{2l}x" % num)`: padded on the left to l bytes, or longer when num needs more;
      an odd number of digits, or a minus sign, is refused. */
  function Unhexlified(num: int, l: nat): Result<bytes> {
    if num < 0 then Err(ValueError)
    else if |MinBytes(num)| <= l then Ok(ZeroBytes(l - |MinBytes(num)|) + MinBytes(num))
    else if HexDigits(num) % 2 == 1 then Err(ValueError)
    else Ok(MinBytes(num))
  }

  function NumberToString(num: int, order: nat): Result<bytes> {
    var l := OrderLen(order);
    var s :- Unhexlified(num, l);
    if |s| != l then Err(AssertionError) else Ok(s)
  }

  function NumberToStringCrop(num: int, order: nat): Result<bytes> {
    var l := OrderLen(order);
    var s :- Unhexlified(num, l);
    Ok(if |s| <= l then s else s[..l])
  }

  function StringToNumber(s: bytes): Result<nat> {
    ToInt(s)
  }

  function StringToNumberFixedLen(s: bytes, order: nat): Result<nat> {
    if |s| != OrderLen(order) then Err(AssertionError) else ToInt(s)
  }

  lemma UnhexlifiedMeaning(num: nat, l: nat)
    ensures |MinBytes(num)| <= l ==> Unhexlified(num, l).Ok?
    ensures |MinBytes(num)| <= l ==> |Unhexlified(num, l).value| == l && Value(Unhexlified(num, l).value) == num
    ensures |MinBytes(num)| > l && Unhexlified(num, l).Ok? ==> |Unhexlified(num, l).value| > l
  {
    if |MinBytes(num)| <= l {
      MinBytesValue(num);
      ZeroBytesValue(l - |MinBytes(num)|);
      ValueConcat(ZeroBytes(l - |MinBytes(num)|), MinBytes(num));
      hide MinBytes, Value;
      MulByZero(Pow(256, |MinBytes(num)|));
    }
  }

  lemma MulByZero(w: int)
    ensures 0 * w == 0
  {}

  /** Encoding succeeds exactly for the numbers that fit the width of the order; then the width is
      that of the order and decoding gives the number back. */
  lemma NumberToStringMeaning(num: int, order: nat)
    ensures NumberToString(num, order).Ok? <==> 0 <= num < Pow(256, OrderLen(order))
    ensures NumberToString(num, order).Ok? ==>
      var s := NumberToString(num, order).value;
      |s| == OrderLen(order) && StringToNumber(s) == Ok(num) && StringToNumberFixedLen(s, order) == Ok(num)
    ensures NumberToString(num, order).Err? ==>
      NumberToString(num, order) == Err(if num < 0 || HexDigits(num) % 2 == 1 then ValueError else AssertionError)
  {
    if num >= 0 {
      OrderLenPositive(order);
      hide MinBytes, Value, OrderLen, Unhexlified, Pow;
      MinBytesLength(num, OrderLen(order));
      UnhexlifiedMeaning(num, OrderLen(order));
    }
  }

  lemma OrderLenPositive(order: nat)
    ensures OrderLen(order) >= 1
  {}

  /** In particular every number below the order has an encoding. */
  lemma BelowOrderFits(num: int, order: nat)
    requires 0 <= num < order
    ensures NumberToString(num, order).Ok?
  {
    OrderLenIsLength(order);
    MinBytesLength(order, OrderLen(order));
    NumberToStringMeaning(num, order);
  }

  /** The other direction: any string of that width is the encoding of its value. */
  lemma StringToNumberInverse(s: bytes, order: nat)
    requires |s| == OrderLen(order)
    ensures NumberToString(Value(s), order) == Ok(s)
  {
    ValueBound(s);
    NumberToStringMeaning(Value(s), order);
    ValueInjective(s, NumberToString(Value(s), order).value);
  }

  // --- signatures as two numbers of fixed width ---

  function SigencodeString(r: int, s: int, order: nat): Result<bytes> {
    var x :- NumberToString(r, order);
    var y :- NumberToString(s, order);
    Ok(x + y)
  }

  function SigdecodeString(signature: bytes, order: nat): Result<(nat, nat)> {
    var l := OrderLen(order);
    if |signature| != 2 * l then Err(AssertionError)
    else
      var r :- StringToNumberFixedLen(signature[..l], order);
      var s :- StringToNumberFixedLen(signature[l..], order);
      Ok((r, s))
  }

  /** Decoding undoes encoding, and encoding undoes decoding. */
  lemma SigStringRoundTrip(r: int, s: int, order: nat)
    requires SigencodeString(r, s, order).Ok?
    ensures SigdecodeString(SigencodeString(r, s, order).value, order) == Ok((r, s))
  {
    NumberToStringMeaning(r, order);
    NumberToStringMeaning(s, order);
    var x, y := NumberToString(r, order).value, NumberToString(s, order).value;
    assert (x + y)[..|x|] == x && (x + y)[|x|..] == y;
  }

  lemma SigStringInverse(signature: bytes, order: nat)
    requires SigdecodeString(signature, order).Ok?
    ensures var (r, s) := SigdecodeString(signature, order).value; SigencodeString(r, s, order) == Ok(signature)
  {
    var l := OrderLen(order);
    StringToNumberInverse(signature[..l], order);
    StringToNumberInverse(signature[l..], order);
    assert signature[..l] + signature[l..] == signature;
  }

  /** The layout: r in the first half, s in the second, each in the width of the order. */
  lemma SigStringLayout(r: int, s: int, order: nat, signature: bytes)
    ensures SigencodeString(r, s, order) == Ok(signature) <==>
            var l := OrderLen(order);
            |signature| == 2 * l && Value(signature[..l]) == r && Value(signature[l..]) == s
  {
    hide NumberToString, Value, OrderLen;
    NumberToStringMeaning(r, order);
    NumberToStringMeaning(s, order);
    var l := OrderLen(order);
    if SigencodeString(r, s, order) == Ok(signature) {
      var x, y := NumberToString(r, order).value, NumberToString(s, order).value;
      assert (x + y)[..l] == x && (x + y)[l..] == y;
    }
    if |signature| == 2 * l && Value(signature[..l]) == r && Value(signature[l..]) == s {
      StringToNumberInverse(signature[..l], order);
      StringToNumberInverse(signature[l..], order);
      assert signature[..l] + signature[l..] == signature;
    }
  }

  // --- rfc6979.py ---

  /** `bit_length`: the number of binary digits, none for 0. */
  function BitLength(n: nat): nat {
    if n == 0 then 0 else 1 + BitLength(n / 2)
  }

  /** `bits2int`: the leftmost qlen bits of the data. */
  function Bits2Int(data: bytes, qlen: nat): Result<nat> {
    var x :- ToInt(data);
    PowPositive(2, 8 * |data|);
    if 8 * |data| > qlen then
      PowPositive(2, 8 * |data| - qlen);
      QuotientNonNegative(x, Pow(2, 8 * |data| - qlen));
      Ok(x / Pow(2, 8 * |data| - qlen))
    else Ok(x)
  }

  function Bits2Octets(data: bytes, order: nat): Result<bytes> {
    var z1 :- Bits2Int(data, BitLength(order));
    var z2 := z1 - order;
    NumberToStringCrop(if z2 < 0 then z1 else z2, order)
  }

  lemma {:induction false} BitLengthBounds(n: nat)
    requires n > 0
    ensures BitLength(n) >= 1 && Pow(2, BitLength(n) - 1) <= n < Pow(2, BitLength(n))
  {
    if n == 1 {
      assert Pow(2, 1) == 2;
    } else {
      BitLengthBounds(n / 2);
    }
  }

  lemma PowersOf256(k: nat)
    ensures Pow(256, k) == Pow(2, 8 * k)
  {
    PowMul(2, 8, k);
    assert Pow(2, 8) == 256 by { PowAdd(2, 4, 4); assert Pow(2, 4) == 16; }
  }

  lemma QuotientBelow(x: int, u: int, w: int)
    requires w > 0 && x < u * w
    ensures x / w < u
  {
    DivMod(x, w);
    if x / w >= u { MulMono(u, x / w, w); }
  }

  /** Data of no more than qlen bits is read as it is. */
  lemma Bits2IntShort(data: bytes, qlen: nat)
    requires data != [] && 8 * |data| <= qlen
    ensures Bits2Int(data, qlen) == Ok(Value(data))
  {}

  /** From longer data the leftmost qlen bits are read: the value of the data is that number followed by
      the other bits t. */
  lemma Bits2IntMeaning(data: bytes, qlen: nat) returns (t: nat)
    requires data != [] && 8 * |data| >= qlen
    ensures Bits2Int(data, qlen).Ok? && Bits2Int(data, qlen).value < Pow(2, qlen)
    ensures t < Pow(2, 8 * |data| - qlen)
    ensures Value(data) == Bits2Int(data, qlen).value * Pow(2, 8 * |data| - qlen) + t
  {
    Bits2IntBound(data, qlen);
    var x, w := Value(data), Pow(2, 8 * |data| - qlen);
    PowPositive(2, 8 * |data| - qlen);
    DivMod(x, w);
    t := x % w;
    if 8 * |data| == qlen {
      ModUnique(x, 1, x, 0);
    }
  }

  /** These two say it all: no other number can be split off in this way. */
  lemma Bits2IntUnique(data: bytes, qlen: nat, z: nat, t: nat)
    requires data != [] && 8 * |data| >= qlen
    requires t < Pow(2, 8 * |data| - qlen) && Value(data) == z * Pow(2, 8 * |data| - qlen) + t
    ensures Bits2Int(data, qlen) == Ok(z)
  {
    ModUnique(Value(data), Pow(2, 8 * |data| - qlen), z, t);
  }

  /** Bytes after the first qlen bits do not matter. */
  lemma Bits2IntPrefix(data: bytes, more: bytes, qlen: nat)
    requires data != [] && 8 * |data| >= qlen
    ensures Bits2Int(data + more, qlen) == Bits2Int(data, qlen)
  {
    hide Value, Bits2Int, Pow;
    var t := Bits2IntMeaning(data, qlen);
    var z, w, v := Bits2Int(data, qlen).value, Pow(2, 8 * |data| - qlen), Pow(256, |more|);
    ValueConcat(data, more);
    ValueBound(more);
    PowersOf256(|more|);
    PowAdd(2, 8 * |data| - qlen, 8 * |more|);
    LongerRest(z, w, t, v, Value(more));
    Bits2IntUnique(data + more, qlen, z, t * v + Value(more));
  }

  lemma LongerRest(z: nat, w: nat, t: nat, v: nat, m: nat)
    requires t < w && m < v
    ensures (z * w + t) * v + m == z * (w * v) + (t * v + m)
    ensures 0 <= t * v + m < w * v
  {
    Distribute(z * w, t, v);
    MulAssoc(z, w, v);
    MulMono(t + 1, w, v);
    Distribute(t, 1, v);
    MulMono(0, t, v);
  }

  /** The truncated integer has no more than qlen bits. */
  lemma Bits2IntBound(data: bytes, qlen: nat)
    requires data != []
    ensures Bits2Int(data, qlen).Ok? && Bits2Int(data, qlen).value < Pow(2, qlen)
  {
    var x, l := Value(data), 8 * |data|;
    ValueBound(data);
    PowersOf256(|data|);
    hide Value, Pow;
    PowPositive(2, l);
    if l > qlen {
      PowPositive(2, l - qlen);
      PowAdd(2, qlen, l - qlen);
      QuotientBelow(x, Pow(2, qlen), Pow(2, l - qlen));
    } else {
      PowAdd(2, l, qlen - l);
      PowPositive(2, qlen - l);
      MulMono(1, Pow(2, qlen - l), Pow(2, l));
    }
  }

  /** `bits2octets`, section 2.3.4 of RFC 6979: the truncated integer modulo the order, in the width of
      the order. */
  lemma Bits2OctetsReduces(data: bytes, order: nat)
    requires data != [] && order > 0
    ensures var z := Bits2Int(data, BitLength(order));
      z.Ok? && Bits2Octets(data, order) == NumberToString(z.value % order, order)
      && Bits2Octets(data, order).Ok?
  {
    var q := BitLength(order);
    Bits2IntBound(data, q);
    BitLengthBounds(order);
    var z := Bits2Int(data, q).value;
    assert Pow(2, q) == 2 * Pow(2, q - 1);
    var r := if z - order < 0 then z else z - order;
    ModUnique(z, order, if z - order < 0 then 0 else 1, r);
    BelowOrderFits(r, order);
  }

  /** Said of the digest itself: where the digest has as many bits as the order or more, and is z
      followed by bits t that are cut off, or where it has fewer and is z, the result has the width of
      the order and the value z modulo the order. */
  lemma Bits2OctetsMeaning(data: bytes, order: nat, z: nat, t: nat)
    requires data != [] && order > 0
    requires
      var q := BitLength(order);
      if 8 * |data| >= q then t < Pow(2, 8 * |data| - q) && Value(data) == z * Pow(2, 8 * |data| - q) + t
      else z == Value(data)
    ensures Bits2Octets(data, order).Ok?
    ensures var s := Bits2Octets(data, order).value; |s| == OrderLen(order) && Value(s) == z % order
  {
    Bits2OctetsReduces(data, order);
    NumberToStringMeaning(z % order, order);
    hide Bits2Octets, NumberToString, Value, OrderLen;
    if 8 * |data| >= BitLength(order) {
      Bits2IntUnique(data, BitLength(order), z, t);
    } else {
      Bits2IntShort(data, BitLength(order));
    }
  }

  /** Cropping: a number that fits is padded to the width of the order, and of a longer one with an even
      number of hexadecimal digits the first bytes are kept; the rest is cut off, not rounded. */
  lemma CropMeaning(num: int, order: nat)
    ensures NumberToStringCrop(num, order).Err? <==>
            num < 0 || (num >= Pow(256, OrderLen(order)) && HexDigits(num) % 2 == 1)
    ensures NumberToStringCrop(num, order).Err? ==> NumberToStringCrop(num, order) == Err(ValueError)
    ensures 0 <= num < Pow(256, OrderLen(order)) ==> NumberToStringCrop(num, order) == NumberToString(num, order)
    ensures NumberToStringCrop(num, order).Ok? && num >= Pow(256, OrderLen(order)) ==>
      var s := NumberToStringCrop(num, order).value;
      && |s| == OrderLen(order)
      && exists t: bytes :: Value(s + t) == num && s + t == MinBytes(num)
  {
    if num >= 0 {
      OrderLenPositive(order);
      hide MinBytes, Value, OrderLen, Pow;
      MinBytesLength(num, OrderLen(order));
      MinBytesValue(num);
      var l, s := OrderLen(order), MinBytes(num);
      if |s| > l { assert s[..l] + s[l..] == s; }
    }
  }
}
