/** Keys and signatures as byte strings (`keys.py`, `curves.py`): what is encoded is decoded again,
    and a signature made with a key verifies under it. */
module Keys {
  import opened Wrappers
  import opened Integers
  import opened Powers
  import opened Primes
  import opened Bytes
  import opened Der
  import opened Curve
  import opened ScalarMul
  import opened Ecdsa

  /** An entry of the table of curves. */
  datatype NamedCurve = NamedCurve(generator: Point, oid: seq<nat>) {
    function Order(): nat {
      if generator.Infinity? then 0 else generator.order
    }

    function BaseLen(): nat {
      OrderLen(Order())
    }
  }

  /** What the entries of the table satisfy: a generator of prime order, an order below the field size,
      an object identifier that can be encoded, and lengths within reason. */
  ghost predicate ValidCurve(k: NamedCurve) {
    && k.generator.Affine?
    && Generator(k.generator, k.generator.curve)
    && k.generator == Affine(k.generator.curve, k.generator.x, k.generator.y % k.generator.curve.p, k.generator.order)
    && k.generator.order <= k.generator.curve.p
    && |k.oid| >= 2 && k.oid[0] <= 2 && k.oid[1] <= 39
    && |NumbersBytes(k.oid[2..])| < 1000 && k.BaseLen() < 1000
  }

  ghost predicate ValidTable(table: seq<NamedCurve>) {
    && (forall i :: 0 <= i < |table| ==> ValidCurve(table[i]))
    && (forall i, j :: 0 <= i < j < |table| ==> table[i].oid != table[j].oid)
  }

  function FindCurve(oid: seq<nat>, table: seq<NamedCurve>): Result<NamedCurve> {
    if table == [] then Err(UnknownCurveError)
    else if table[0].oid == oid then Ok(table[0])
    else FindCurve(oid, table[1..])
  }

  lemma {:induction false} FindCurveInTable(k: NamedCurve, table: seq<NamedCurve>)
    requires ValidTable(table) && k in table
    ensures FindCurve(k.oid, table) == Ok(k)
  {
    if table[0] != k {
      var i :| 0 <= i < |table| && table[i] == k;
      assert table[1..][i - 1] == k;
      assert table[0].oid != table[i].oid;
      FindCurveInTable(k, table[1..]);
    }
  }

  predicate UnknownCurve(oid: seq<nat>, table: seq<NamedCurve>) {
    forall k :: k in table ==> k.oid != oid
  }

  /** Any other identifier is unknown. */
  lemma {:induction false} FindCurveMeaning(oid: seq<nat>, table: seq<NamedCurve>)
    ensures FindCurve(oid, table).Ok? ==> FindCurve(oid, table).value in table && FindCurve(oid, table).value.oid == oid
    ensures FindCurve(oid, table) == Err(UnknownCurveError) <==> UnknownCurve(oid, table)
    ensures FindCurve(oid, table).Err? ==> UnknownCurve(oid, table)
  {
    if table != [] && table[0].oid != oid {
      FindCurveMeaning(oid, table[1..]);
      assert table == [table[0]] + table[1..];
    }
  }

  // --- public keys ---

  datatype VerifyingKey = VerifyingKey(curve: NamedCurve, point: Point)

  ghost predicate HasOrder(k: NamedCurve, P: Point)
    requires ValidCurve(k) && IsPoint(P, k.generator.curve)
  {
    CanonIsElement(P, k.generator.curve);
    !Stuck(k.Order(), P, k.generator.curve) && Times(k.Order(), Canon(P), k.generator.curve) == Infinity
  }

  /** The check that the order of the curve times the point is infinity. The product is computed modulo the
      order that the point records, so that a point which records the order of the curve always passes. */
  ghost predicate PassesOrderCheck(k: NamedCurve, P: Point)
    requires ValidCurve(k) && (IsPoint(P, k.generator.curve) || Factor(P, k.Order()) == 0)
  {
    var e, c := Factor(P, k.Order()), k.generator.curve;
    FactorOfOrder(k, P);
    e == 0 ||
    (CanonIsElement(P, c); !Stuck(e, P, c) && Times(e, Canon(P), c) == Infinity)
  }

  lemma FactorOfOrder(k: NamedCurve, P: Point)
    requires ValidCurve(k)
    ensures Factor(P, k.Order()) >= 0
    ensures P.Affine? && P.order == 0 ==> Factor(P, k.Order()) == k.Order()
    ensures P.Affine? && P.order == k.Order() ==> Factor(P, k.Order()) == 0
  {
    if P.Affine? && P.order > 0 {
      DivMod(k.Order(), P.order);
      ModItself(P.order);
    }
  }

  predicate InRange(k: NamedCurve, x: int, y: int) {
    0 <= x < k.Order() && 0 <= y < k.Order()
  }

  /** The constructor of `Public_key`, for points with and without a recorded order. */
  method NewPublicKey(k: NamedCurve, P: Point) returns (r: Result<Point>)
    requires ValidCurve(k) && (IsPoint(P, k.generator.curve) || Factor(P, k.Order()) == 0)
    ensures r.Ok? <==> P.Affine? && PassesOrderCheck(k, P) && InRange(k, P.x, P.y)
    ensures r.Ok? ==> r.value == P
    ensures P.Infinity? ==> r == Err(TypeError)
    ensures r == Err(AssertionError) <==>
      P.Affine? && Factor(P, k.Order()) > 0 && Stuck(Factor(P, k.Order()), P, k.generator.curve)
    ensures P.Affine? && PassesOrderCheck(k, P) && !InRange(k, P.x, P.y) ==> r == Err(RuntimeError)
    ensures r.Err? ==> r.error in {TypeError, AssertionError, RuntimeError}
  {
    hide Plus, Add, Double, Associative, Stuck, Canon;
    ghost var c := k.generator.curve;
    var n := k.Order();
    FactorOfOrder(k, P);
    var m :- Multiply(P, n, c);
    CanonInfinity(m);
    if m != Infinity {
      return Err(RuntimeError);
    }
    if P.Infinity? {
      return Err(TypeError);
    }
    if P.x < 0 || n <= P.x || P.y < 0 || n <= P.y {
      return Err(RuntimeError);
    }
    return Ok(P);
  }

  lemma RecordedOrderPasses(k: NamedCurve, P: Point)
    requires ValidCurve(k) && P.Affine? && P.order == k.Order()
    ensures Factor(P, k.Order()) == 0 && PassesOrderCheck(k, P)
  {
    FactorOfOrder(k, P);
  }

  lemma CanonInfinity(P: Point)
    ensures Canon(P) == Infinity <==> P == Infinity
  {}

  /** Coordinates that are reduced modulo the order and belong to a point of the curve. */
  predicate Plausible(k: NamedCurve, x: int, y: int) {
    k.generator.Affine? && InRange(k, x, y) && k.generator.curve.ContainsPoint(x, y)
  }

  /** Coordinates that `point_is_valid` accepts. */
  ghost predicate KeyPoint(k: NamedCurve, x: int, y: int)
    requires ValidCurve(k)
  {
    Plausible(k, x, y) && HasOrder(k, Affine(k.generator.curve, x, y, 0))
  }

  lemma StuckAtTwo(P: Point, c: CurveFp)
    requires Group(c) && IsPoint(P, c) && P.Affine? && Element(Canon(P), c) && Times(2, Canon(P), c) == Infinity
    ensures Stuck(2, P, c)
  {
    hide Plus, Add, Double, Associative, Stuck, Times;
    TimesOne(Canon(P), c);
    assert IsLeastOrder(2, P, c);
    assert Pow(2, 1) == 2 && Prefix(2, 2) == 1;
    assert MeetsHalf(2, 1, 2);
    StuckExactly(2, P, 2, c);
  }

  /** For an odd order the accepted coordinates are those in range of a point that the order takes to
      infinity, which a verifier may be given; for order two, none. */
  lemma KeyPointMeaning(k: NamedCurve, x: int, y: int)
    requires ValidCurve(k)
    ensures
      var c := k.generator.curve;
      KeyPoint(k, x, y) <==>
      k.Order() > 2 && Plausible(k, x, y) && OrderedPoint(Affine(c, x, y, k.Order()), k.generator, c)
  {
    if Plausible(k, x, y) {
      hide Plus, Add, Double, Associative, Stuck, Times;
      var c, n := k.generator.curve, k.Order();
      var P := Affine(c, x, y, 0);
      CanonIsElement(P, c);
      assert Canon(Affine(c, x, y, n)) == Canon(P);
      if Times(n, Canon(P), c) == Infinity {
        if n > 2 {
          assert !Divides(2, n);
          OddOrderNeverStuck(n, P, n, c);
        } else {
          StuckAtTwo(P, c);
        }
      }
    }
  }

  /** The check of the constructor says as much of a point that records no order, and nothing of one that
      records the order of the curve. */
  lemma OrderCheckMeaning(k: NamedCurve, P: Point)
    requires ValidCurve(k) && P.Affine? && IsPoint(P, k.generator.curve)
    ensures P.order == 0 ==>
      (PassesOrderCheck(k, P) <==> k.Order() > 2 && OrderedPoint(P, k.generator, k.generator.curve))
    ensures P.order == k.Order() ==> PassesOrderCheck(k, P)
  {
    hide Plus, Add, Double, Associative, Stuck, Times;
    var c, n := k.generator.curve, k.Order();
    FactorOfOrder(k, P);
    CanonIsElement(P, c);
    if P.order == 0 && Times(n, Canon(P), c) == Infinity {
      if n > 2 {
        assert !Divides(2, n);
        OddOrderNeverStuck(n, P, n, c);
      } else {
        StuckAtTwo(P, c);
      }
    }
  }

  method PointIsValid(k: NamedCurve, x: int, y: int) returns (r: Result<bool>)
    requires ValidCurve(k)
    ensures r == Ok(true) <==> KeyPoint(k, x, y)
    ensures r.Err? <==> Plausible(k, x, y) && Stuck(k.Order(), Affine(k.generator.curve, x, y, 0), k.generator.curve)
    ensures r.Err? ==> r == Err(AssertionError)
  {
    hide Plus, Add, Double, Associative, Stuck;
    var n, c := k.Order(), k.generator.curve;
    if x < 0 || n <= x || y < 0 || n <= y {
      return Ok(false);
    }
    if !c.ContainsPoint(x, y) {
      return Ok(false);
    }
    var P := MakePoint(c, x, y, 0).value;
    var m :- Multiply(P, n, c);
    CanonInfinity(m);
    return Ok(m == Infinity);
  }

  /** What `VerifyingKey.from_string` returns, with and without validation of the point. */
  ghost function PointFromString(k: NamedCurve, s: bytes, validatePoint: bool): Result<VerifyingKey>
    requires ValidCurve(k)
  {
    var l := k.BaseLen();
    if |s| != 2 * l then Err(AssertionError)
    else
      var x, y := Value(s[..l]), Value(s[l..]);
      if validatePoint && !KeyPoint(k, x, y) then Err(AssertionError)
      else if !k.generator.curve.ContainsPoint(x, y) then Err(AssertionError)
      else if !InRange(k, x, y) then Err(RuntimeError)
      else Ok(VerifyingKey(k, Affine(k.generator.curve, x, y, k.Order())))
  }

  method VerifyingKeyFromString(k: NamedCurve, s: bytes, validatePoint: bool) returns (r: Result<VerifyingKey>)
    requires ValidCurve(k)
    ensures r == PointFromString(k, s, validatePoint)
  {
    hide Plus, Add, Double, Associative, Stuck, HasOrder, PassesOrderCheck, Factor, Times, Generator;
    var l := k.BaseLen();
    if |s| != 2 * l {
      return Err(AssertionError);
    }
    OrderLenIsLength(k.Order());
    var xs, ys := s[..l], s[l..];
    var x, y := StringToNumber(xs).value, StringToNumber(ys).value;
    if validatePoint {
      var valid :- PointIsValid(k, x, y);
      if !valid {
        return Err(AssertionError);
      }
    }
    var P :- MakePoint(k.generator.curve, x, y, k.Order());
    RecordedOrderPasses(k, P);
    var point :- NewPublicKey(k, P);
    return Ok(VerifyingKey(k, point));
  }

  /** Validation is exactly the check of the order: the constructor that follows makes the others. */
  lemma ValidationIsOrderCheck(k: NamedCurve, s: bytes)
    requires ValidCurve(k) && |s| == 2 * k.BaseLen()
    ensures
      var x, y := Value(s[..k.BaseLen()]), Value(s[k.BaseLen()..]);
      && (PointFromString(k, s, false).Ok? <==> Plausible(k, x, y))
      && (PointFromString(k, s, true).Ok? <==>
          PointFromString(k, s, false).Ok? && HasOrder(k, Affine(k.generator.curve, x, y, 0)))
  {
    hide HasOrder;
  }

  /** The point that is read, and the errors: an assertion for another length, for coordinates off the curve,
      and for all that validation refuses; without validation, a RuntimeError for coordinates out of range. */
  lemma PointFromStringMeaning(k: NamedCurve, s: bytes, validatePoint: bool)
    requires ValidCurve(k)
    ensures |s| != 2 * k.BaseLen() ==> PointFromString(k, s, validatePoint) == Err(AssertionError)
    ensures |s| == 2 * k.BaseLen() ==>
      var x, y := Value(s[..k.BaseLen()]), Value(s[k.BaseLen()..]);
      var key := VerifyingKey(k, Affine(k.generator.curve, x, y, k.Order()));
      && PointFromString(k, s, true) == (if KeyPoint(k, x, y) then Ok(key) else Err(AssertionError))
      && PointFromString(k, s, false) == (if Plausible(k, x, y) then Ok(key)
                                          else if k.generator.curve.ContainsPoint(x, y) then Err(RuntimeError)
                                          else Err(AssertionError))
  {
    hide HasOrder;
  }

  /** `VerifyingKey.to_string`. */
  function PointToString(vk: VerifyingKey): Result<bytes> {
    if vk.point.Infinity? then Err(TypeError) else SigencodeString(vk.point.x, vk.point.y, vk.curve.Order())
  }

  /** A point in range is written and read back; reading records the order. Without validation this
      holds of every point of the curve in range. */
  lemma PointRoundTrip(vk: VerifyingKey, validatePoint: bool)
    requires ValidCurve(vk.curve) && vk.point.Affine? && Plausible(vk.curve, vk.point.x, vk.point.y)
    requires validatePoint ==> KeyPoint(vk.curve, vk.point.x, vk.point.y)
    ensures PointToString(vk).Ok? && |PointToString(vk).value| == 2 * vk.curve.BaseLen()
    ensures PointFromString(vk.curve, PointToString(vk).value, validatePoint)
         == Ok(VerifyingKey(vk.curve, Affine(vk.curve.generator.curve, vk.point.x, vk.point.y, vk.curve.Order())))
  {
    hide KeyPoint, ValidCurve;
    var n := vk.curve.Order();
    BelowOrderFits(vk.point.x, n);
    BelowOrderFits(vk.point.y, n);
    NumberToStringMeaning(vk.point.x, n);
    NumberToStringMeaning(vk.point.y, n);
    var x, y := NumberToString(vk.point.x, n).value, NumberToString(vk.point.y, n).value;
    assert (x + y)[..|x|] == x && (x + y)[|x|..] == y;
  }

  /** The other direction: the string that a public key was read from is written again. */
  lemma PointStringInverse(k: NamedCurve, s: bytes, validatePoint: bool)
    requires ValidCurve(k) && PointFromString(k, s, validatePoint).Ok?
    ensures PointToString(PointFromString(k, s, validatePoint).value) == Ok(s)
  {
    var l := k.BaseLen();
    SigStringLayout(Value(s[..l]), Value(s[l..]), k.Order(), s);
    hide KeyPoint, SigencodeString, ValidCurve;
  }

  // --- object identifiers ---

  const OID_EC_PUBLIC_KEY: seq<nat> := [1, 2, 840, 10045, 2, 1]

  function EncodedOid(oid: seq<nat>): Result<bytes> {
    if |oid| < 2 then Err(TypeError) else EncodeOid(oid[0], oid[1], oid[2..])
  }

  ghost predicate SmallOid(oid: seq<nat>) {
    |oid| >= 2 && oid[0] <= 2 && oid[1] <= 39 && |NumbersBytes(oid[2..])| < 1000
  }

  lemma EncodedOidRoundTrip(oid: seq<nat>, rest: bytes)
    requires SmallOid(oid)
    ensures EncodedOid(oid).Ok? && |EncodedOid(oid).value| < 2000
    ensures ObjectNumbers(EncodedOid(oid).value + rest) == Ok((oid, rest))
  {
    var body := [40 * oid[0] + oid[1]] + NumbersBytes(oid[2..]);
    SmallEncodable(|body|);
    OidRoundTrip(oid[0], oid[1], oid[2..], rest);
    assert [oid[0], oid[1]] + oid[2..] == oid;
    SmallLength(|body|);
  }

  /** The encoding of a moderate length is short. */
  lemma SmallLength(l: nat)
    requires l < 65536
    ensures EncodeLength(l).Ok? && |EncodeLength(l).value| <= 3
  {
    MinBytesLength(l, 2);
    assert Pow(256, 2) == 65536 by { PowSquare(256, 1); }
  }

  lemma TaggedSize(tag: byte, body: bytes)
    requires |body| < 65536
    ensures EncodeTagged(tag, body).Ok? && |EncodeTagged(tag, body).value| <= |body| + 4
    ensures Encodable(|body|)
  {
    SmallLength(|body|);
    SmallEncodable(|body|);
  }

  lemma EcPublicKeyOid()
    ensures SmallOid(OID_EC_PUBLIC_KEY)
  {
    assert OID_EC_PUBLIC_KEY[2..] == [840, 10045, 2, 1];
    assert [840, 10045, 2, 1][1..] == [10045, 2, 1];
    assert [10045, 2, 1][1..] == [2, 1];
    assert [2, 1][1..] == [1];
    assert [1][1..] == [];
    NumberSize(840);
    NumberSize(10045);
    NumberSize(2);
    NumberSize(1);
  }

  lemma EcPublicKeyBytes()
    ensures Gives(EncodedOid(OID_EC_PUBLIC_KEY), [0x06, 0x07, 0x2a, 0x86, 0x48, 0xce, 0x3d, 0x02, 0x01])
  {
    TestedOid();
    assert OID_EC_PUBLIC_KEY[2..] == [840, 10045, 2, 1];
    hide EncodeOid;
  }

  lemma NumberSize(n: nat)
    requires n < 128 * 128 * 128
    ensures |NumberBytes(n)| <= 3
  {
    assert n / 128 / 128 / 128 == 0;
    assert HighDigits(n / 128 / 128 / 128) == [];
    assert |HighDigits(n / 128 / 128)| <= 1;
    assert |HighDigits(n / 128)| <= 2;
  }

  // --- public keys in DER ---

  /** `VerifyingKey.to_der`. */
  function VerifyingKeyToDer(vk: VerifyingKey): Result<bytes> {
    var point :- PointToString(vk);
    var algorithm :- EncodedOid(OID_EC_PUBLIC_KEY);
    var curve :- EncodedOid(vk.curve.oid);
    var ids :- EncodeSequence([algorithm, curve]);
    var bits :- EncodeBitString([0x00, 0x04] + point);
    EncodeSequence([ids, bits])
  }

  /** `VerifyingKey.from_der`. */
  ghost function VerifyingKeyFromDer(s: bytes, table: seq<NamedCurve>): Result<VerifyingKey>
    requires ValidTable(table)
  {
    var (s1, empty) :- RemoveSequence(s);
    var _ :- Need(empty == [], UnexpectedDER);
    var (s2, bits) :- RemoveSequence(s1);
    var (algorithm, rest) :- ObjectNumbers(s2);
    var (oid, empty') :- ObjectNumbers(rest);
    var _ :- Need(empty' == [], UnexpectedDER);
    var _ :- Need(algorithm == OID_EC_PUBLIC_KEY, AssertionError);
    var k :- FindCurve(oid, table);
    FoundIsValid(oid, table);
    var (point, empty'') :- RemoveBitString(bits);
    var _ :- Need(empty'' == [], UnexpectedDER);
    if |point| >= 2 && point[..2] == [0x00, 0x04] then PointFromString(k, point[2..], true) else Err(AssertionError)
  }

  lemma {:induction false} FoundIsValid(oid: seq<nat>, table: seq<NamedCurve>)
    requires ValidTable(table)
    ensures FindCurve(oid, table).Ok? ==> ValidCurve(FindCurve(oid, table).value)
  {
    if table != [] && table[0].oid != oid {
      FoundIsValid(oid, table[1..]);
    }
  }

  lemma CurveSizes(k: NamedCurve)
    requires ValidCurve(k)
    ensures SmallOid(k.oid) && k.BaseLen() < 1000
  {}

  // --- signing keys ---

  datatype SigningKey = SigningKey(curve: NamedCurve, secret: nat, point: Point)

  /** The public point of a secret exponent. */
  ghost function SecretPoint(k: NamedCurve, d: int): (Q: Point)
    requires ValidCurve(k) && 1 <= d < k.Order()
    ensures Element(Canon(Q), k.generator.curve) && Q.Affine?
    ensures PublicPoint(Q, d, k.generator, k.generator.curve)
  {
    var c := k.generator.curve;
    GeneratorMultiple(d, k.generator, c);
    TimesOne(Canon(k.generator), c);
    var Q := if d == 1 then k.generator else Times(d, Canon(k.generator), c);
    MultipleIsPublic(Q, d, k.generator, c);
    Q
  }

  /** What `SigningKey.from_secret_exponent` returns: the secret has to be in range, and so have the
      coordinates of the public point, which are residues modulo p, not modulo the order. */
  ghost function FromSecret(k: NamedCurve, d: int): Result<SigningKey>
    requires ValidCurve(k)
  {
    if !(1 <= d < k.Order()) then Err(AssertionError)
    else
      var Q := SecretPoint(k, d);
      if Q.x < k.Order() && Q.y < k.Order() then Ok(SigningKey(k, d, Q)) else Err(RuntimeError)
  }

  /** The multiples that the loop meets on the way to d are below d, hence never infinity. */
  lemma NeverCrossed(k: NamedCurve, d: nat)
    requires ValidCurve(k) && 1 <= d < k.Order()
    ensures !Crossed(d, k.generator, k.generator.curve)
  {
    hide Plus, Add, Double, Associative;
    var G, c := k.generator, k.generator.curve;
    forall j: nat | j >= 1 ensures !CrossedAt(d, j, G, c) {
      PowPositive(2, j - 1);
      PrefixNonNegative(d, Pow(2, j));
      PrefixBelow(d, Pow(2, j));
      var m := Prefix(d, Pow(2, j));
      if m > 0 { GeneratorMultiple(m, G, c); }
    }
  }

  lemma PrefixBelow(e: nat, i: nat)
    requires i >= 2
    ensures Prefix(e, i) <= e
  {
    DivMod(3 * e, 2 * i);
    DivMonotone(0, e, 2 * i);
    ModUnique(0, 2 * i, 0, 0);
    var q := (3 * e) / (2 * i);
    if q > e { MulMono(e + 1, q, 2 * i); MulMono(4, 2 * i, e + 1); }
  }

  method SigningKeyFromSecret(k: NamedCurve, d: int) returns (r: Result<SigningKey>)
    requires ValidCurve(k)
    ensures r == FromSecret(k, d)
  {
    hide Plus, Add, Double, Associative, Stuck, Crossed, PassesOrderCheck;
    ghost var G, c := k.generator, k.generator.curve;
    var n := k.Order();
    if !(1 <= d < n) {
      return Err(AssertionError);
    }
    GeneratorMultiple(d, G, c);
    PrimeOrderNeverStuck(d, G, n, c);
    NeverCrossed(k, d);
    ModSmall(d, n);
    var m := Multiply(k.generator, d, c);
    var Q := m.value;
    SecretPointChecks(k, d);
    CanonElement(Q);
    assert Q == SecretPoint(k, d);
    var point :- NewPublicKey(k, Q);
    return Ok(SigningKey(k, d, point));
  }

  lemma CanonElement(P: Point)
    ensures Canon(Canon(P)) == Canon(P)
  {
    if P.Affine? { ModMod(P.y, P.curve.p); }
  }

  /** The public point passes the checks of `Public_key` on the order. */
  lemma SecretPointChecks(k: NamedCurve, d: int)
    requires ValidCurve(k) && 1 <= d < k.Order()
    ensures var Q := SecretPoint(k, d);
      IsPoint(Q, k.generator.curve) && 0 <= Q.x && 0 <= Q.y && PassesOrderCheck(k, Q)
  {
    hide Plus, Add, Double, Associative;
    var G, c, n := k.generator, k.generator.curve, k.Order();
    var Q := SecretPoint(k, d);
    DivMod(G.y, c.p);
    DivMod(Q.y, c.p);
    ModMod(G.y, c.p);
    FactorOfOrder(k, Q);
    if d > 1 {
      assert !Divides(2, n);
      OddOrderNeverStuck(n, Q, n, c);
    }
  }

  /** What `from_secret_exponent` answers: a key whose point stands for d*G, with the same abscissa and
      ordinate, for a secret from 1 up to the order if those two are below the order; the errors otherwise. */
  lemma FromSecretMeaning(k: NamedCurve, d: int)
    requires ValidCurve(k)
    ensures !(1 <= d < k.Order()) ==> FromSecret(k, d) == Err(AssertionError)
    ensures 1 <= d < k.Order() ==>
      var R := Times(d, Canon(k.generator), k.generator.curve);
      && R.Affine?
      && (FromSecret(k, d).Ok? <==> R.x < k.Order() && R.y < k.Order())
      && (FromSecret(k, d).Err? ==> FromSecret(k, d) == Err(RuntimeError))
      && (FromSecret(k, d).Ok? ==>
          var sk := FromSecret(k, d).value;
          sk.curve == k && sk.secret == d && sk.point.Affine? && sk.point.x == R.x && sk.point.y == R.y)
  {
    if 1 <= d < k.Order() {
      hide Plus, Add, Double, Associative, Times;
      GeneratorMultiple(d, k.generator, k.generator.curve);
      TimesOne(Canon(k.generator), k.generator.curve);
    }
  }

  /** The point of a signing key is in range, and it is a valid key point, so that its public key can be
      encoded, exactly when the order is above 2: a point of order 2 cannot be doubled. */
  lemma SigningKeyPoint(sk: SigningKey)
    requires ValidCurve(sk.curve) && FromSecret(sk.curve, sk.secret) == Ok(sk)
    ensures sk.point.Affine? && Plausible(sk.curve, sk.point.x, sk.point.y)
    ensures KeyPoint(sk.curve, sk.point.x, sk.point.y) <==> sk.curve.Order() > 2
  {
    hide Plus, Add, Double, Associative, Stuck, Times, KeyPoint;
    var k, Q, c := sk.curve, sk.point, sk.curve.generator.curve;
    SecretPointChecks(k, sk.secret);
    assert Canon(Affine(c, Q.x, Q.y, k.Order())) == Canon(Q);
    KeyPointMeaning(k, Q.x, Q.y);
  }

  /** `SigningKey.to_string` and `from_string`. */
  function SecretToString(sk: SigningKey): Result<bytes> {
    NumberToString(sk.secret, sk.curve.Order())
  }

  ghost function SecretFromString(k: NamedCurve, s: bytes): Result<SigningKey>
    requires ValidCurve(k)
  {
    if |s| != k.BaseLen() then Err(AssertionError)
    else
      var d :- StringToNumber(s);
      FromSecret(k, d)
  }

  /** Reading a secret and writing it are inverse to each other. */
  lemma SecretStringInverse(k: NamedCurve, s: bytes, d: nat)
    requires ValidCurve(k) && FromSecret(k, d).Ok?
    ensures SecretFromString(k, s) == FromSecret(k, d) <==> SecretToString(FromSecret(k, d).value) == Ok(s)
  {
    FromSecretMeaning(k, d);
    var n := k.Order();
    NumberToStringMeaning(d, n);
    BelowOrderFits(d, n);
    if |s| == k.BaseLen() {
      FromSecretMeaning(k, Value(s));
      StringToNumberInverse(s, n);
      hide FromSecret, NumberToString, ValidCurve, Value, Times;
      OrderLenPositive(n);
    }
  }

  /** `SigningKey.to_der`. */
  function SigningKeyToDer(sk: SigningKey): Result<bytes> {
    var point :- PointToString(VerifyingKey(sk.curve, sk.point));
    var one :- EncodeInteger(1);
    var secret :- SecretToString(sk);
    var octets :- EncodeOctetString(secret);
    var oid :- EncodedOid(sk.curve.oid);
    var curve :- EncodeConstructed(0, oid);
    var bits :- EncodeBitString([0x00, 0x04] + point);
    var pub :- EncodeConstructed(1, bits);
    EncodeSequence([one, octets, curve, pub])
  }

  function Padded(k: NamedCurve, secret: bytes): bytes {
    if |secret| < k.BaseLen() then ZeroBytes(k.BaseLen() - |secret|) + secret else secret
  }

  /** `SigningKey.from_der`; what follows the curve is ignored. */
  ghost function SigningKeyFromDer(s: bytes, table: seq<NamedCurve>): Result<SigningKey>
    requires ValidTable(table)
  {
    var (s1, empty) :- RemoveSequence(s);
    var _ :- Need(empty == [], UnexpectedDER);
    var (one, s2) :- RemoveInteger(s1);
    var _ :- Need(one == 1, UnexpectedDER);
    var (secret, s3) :- RemoveOctetString(s2);
    var (tag, oidString, s4) :- RemoveConstructed(s3);
    var _ :- Need(tag == 0, UnexpectedDER);
    var (oid, empty') :- ObjectNumbers(oidString);
    var _ :- Need(empty' == [], UnexpectedDER);
    var k :- FindCurve(oid, table);
    FoundIsValid(oid, table);
    SecretFromString(k, Padded(k, secret))
  }

  lemma ConcatFour(a: bytes, b: bytes, c: bytes, d: bytes)
    ensures Concat([a, b, c, d]) == a + (b + (c + d))
  {
    assert [a, b, c, d][1..] == [b, c, d] && [b, c, d][1..] == [c, d];
    ConcatTwo(c, d);
  }

  lemma TaggedLength(tag: byte, body: bytes)
    requires Encodable(|body|)
    ensures EncodeTagged(tag, body).Ok? && |EncodeTagged(tag, body).value| <= |body| + 129
  {
    EncodeLengthMeaning(|body|);
  }

  lemma ConstructedLength(tag: nat, body: bytes)
    requires Encodable(|body|) && tag < 32
    ensures EncodeConstructed(tag, body).Ok? && |EncodeConstructed(tag, body).value| <= |body| + 129
  {
    EncodeLengthMeaning(|body|);
  }

  /** Parsing the first three parts of an encoded signing key, one after the other. */
  lemma SigningKeyParts(version: nat, secret: bytes, tag: nat, oid: bytes, pub: bytes, after: bytes)
    returns (body: bytes, afterOne: bytes, afterSecret: bytes)
    requires version < Pow(2, 1015) && tag < 32 && Encodable(|secret| + |oid| + |pub| + 600)
    ensures EncodeInteger(version).Ok? && EncodeOctetString(secret).Ok? && EncodeConstructed(tag, oid).Ok?
    ensures body == Concat([EncodeInteger(version).value, EncodeOctetString(secret).value,
                            EncodeConstructed(tag, oid).value, pub])
    ensures EncodeTagged(0x30, body).Ok? && RemoveSequence(EncodeTagged(0x30, body).value + after) == Ok((body, after))
    ensures RemoveInteger(body) == Ok((version, afterOne))
    ensures RemoveOctetString(afterOne) == Ok((secret, afterSecret))
    ensures RemoveConstructed(afterSecret) == Ok((tag, oid, pub))
  {
    IntegerRoundTrip(version, []);
    TaggedLength(0x04, secret);
    ConstructedLength(tag, oid);
    var one, octets := EncodeInteger(version).value, EncodeOctetString(secret).value;
    var curve := EncodeConstructed(tag, oid).value;
    ConcatFour(one, octets, curve, pub);
    afterSecret := curve + pub;
    afterOne := octets + afterSecret;
    body := one + afterOne;
    IntegerRoundTrip(version, afterOne);
    TaggedRoundTrip(0x04, secret, afterSecret);
    ConstructedRoundTrip(tag, oid, pub);
    TaggedLength(0x30, body);
    TaggedRoundTrip(0x30, body, after);
    hide EncodeTagged, RemoveTagged, EncodeInteger, RemoveInteger, EncodeConstructed, RemoveConstructed, Encodable;
  }

  /** The layout of an encoded signing key, part by part: a sequence of the integer 1, the secret, the
      curve under the tag 0, and under the tag 1 a bit string with the public point. */
  lemma SigningKeyLayout(sk: SigningKey)
    returns (body: bytes, afterOne: bytes, secret: bytes, afterSecret: bytes, oid: bytes, pub: bytes, bits: bytes,
             content: bytes)
    requires ValidCurve(sk.curve) && FromSecret(sk.curve, sk.secret) == Ok(sk)
    ensures SigningKeyToDer(sk).Ok? && RemoveSequence(SigningKeyToDer(sk).value) == Ok((body, []))
    ensures RemoveInteger(body) == Ok((1, afterOne))
    ensures RemoveOctetString(afterOne) == Ok((secret, afterSecret))
    ensures |secret| == sk.curve.BaseLen() && StringToNumber(secret) == Ok(sk.secret)
    ensures RemoveConstructed(afterSecret) == Ok((0, oid, pub)) && ObjectNumbers(oid) == Ok((sk.curve.oid, []))
    ensures RemoveConstructed(pub) == Ok((1, bits, []))
    ensures RemoveBitString(bits) == Ok((content, [])) && |content| >= 2 && content[..2] == [0x00, 0x04]
    ensures PointFromString(sk.curve, content[2..], false) ==
            Ok(VerifyingKey(sk.curve, Affine(sk.curve.generator.curve, sk.point.x, sk.point.y, sk.curve.Order())))
  {
    CurveSizes(sk.curve);
    SigningKeyPoint(sk);
    SecretInRange(sk);
    PointRoundTrip(VerifyingKey(sk.curve, sk.point), false);
    hide ValidCurve, FromSecret, KeyPoint, Plausible, PointFromString;
    var n := sk.curve.Order();
    var point := PointToString(VerifyingKey(sk.curve, sk.point)).value;
    BelowOrderFits(sk.secret, n);
    NumberToStringMeaning(sk.secret, n);
    EncodedOidRoundTrip(sk.curve.oid, []);
    OneBelow();
    IntegerRoundTrip(1, []);
    secret, oid := SecretToString(sk).value, EncodedOid(sk.curve.oid).value;
    assert oid + [] == oid;
    content := [0x00, 0x04] + point;
    assert content[2..] == point;
    BitStringRoundTrip(content);
    bits := EncodeBitString(content).value;
    ConstructedSize(1, bits);
    ConstructedRoundTrip(1, bits, []);
    pub := EncodeConstructed(1, bits).value;
    assert pub + [] == pub;
    SmallEncodable(|secret| + |oid| + |pub| + 600);
    body, afterOne, afterSecret := SigningKeyParts(1, secret, 0, oid, pub, []);
    assert SigningKeyToDer(sk).value + [] == SigningKeyToDer(sk).value;
  }

  lemma BitStringRoundTrip(content: bytes)
    requires |content| < 60000
    ensures EncodeBitString(content).Ok? && |EncodeBitString(content).value| <= |content| + 4
    ensures RemoveBitString(EncodeBitString(content).value) == Ok((content, []))
  {
    TaggedSize(0x03, content);
    TaggedRoundTrip(0x03, content, []);
    assert EncodeBitString(content).value + [] == EncodeBitString(content).value;
  }

  /** A signing key is recovered from its DER encoding: same curve, same secret, same point. */
  lemma SigningKeyRoundTrip(sk: SigningKey, table: seq<NamedCurve>)
    requires ValidTable(table) && sk.curve in table && ValidCurve(sk.curve)
    requires FromSecret(sk.curve, sk.secret) == Ok(sk)
    ensures SigningKeyToDer(sk).Ok? && SigningKeyFromDer(SigningKeyToDer(sk).value, table) == Ok(sk)
  {
    FindCurveInTable(sk.curve, table);
    var body, afterOne, secret, afterSecret, oid, pub, bits, content := SigningKeyLayout(sk);
    hide ValidCurve, ValidTable, FromSecret, SigningKeyToDer;
  }

  lemma OneBelow()
    ensures 1 < Pow(2, 1015)
  {
    PowPositive(2, 1014);
  }

  lemma SecretInRange(sk: SigningKey)
    requires ValidCurve(sk.curve) && FromSecret(sk.curve, sk.secret) == Ok(sk)
    ensures 1 <= sk.secret < sk.curve.Order()
  {}

  lemma ConstructedSize(tag: nat, value: bytes)
    requires |value| < 65536 && tag < 32
    ensures EncodeConstructed(tag, value).Ok? && |EncodeConstructed(tag, value).value| <= |value| + 4
    ensures Encodable(|value|)
  {
    SmallLength(|value|);
    SmallEncodable(|value|);
  }

  // --- what the decoders refuse ---

  /** The key for a secret in any number of bytes up to the width of the order: a short one is padded. */
  ghost function KeyOfSecret(oid: seq<nat>, table: seq<NamedCurve>, secret: bytes): Result<SigningKey>
    requires ValidTable(table)
  {
    FoundIsValid(oid, table);
    var k :- FindCurve(oid, table);
    if |secret| <= k.BaseLen() then FromSecret(k, Value(secret)) else Err(AssertionError)
  }

  /** A bit string without unused bits that holds an uncompressed point. */
  predicate Uncompressed(bits: bytes) {
    |bits| >= 2 && bits[0] == 0x00 && bits[1] == 0x04
  }

  ghost function KeyOfBits(oid: seq<nat>, table: seq<NamedCurve>, bits: bytes): Result<VerifyingKey>
    requires ValidTable(table)
  {
    FoundIsValid(oid, table);
    var k :- FindCurve(oid, table);
    if Uncompressed(bits) then PointFromString(k, bits[2..], true) else Err(AssertionError)
  }

  lemma PaddedValue(k: NamedCurve, secret: bytes)
    ensures |Padded(k, secret)| == (if |secret| < k.BaseLen() then k.BaseLen() else |secret|)
    ensures Value(Padded(k, secret)) == Value(secret)
  {
    if |secret| < k.BaseLen() {
      var n := k.BaseLen() - |secret|;
      ZeroBytesValue(n);
      ValueConcat(ZeroBytes(n), secret);
      hide Value, ZeroBytes, NamedCurve.BaseLen;
      MulByZero(Pow(256, |secret|));
    }
  }

  lemma PaddedSecret(k: NamedCurve, secret: bytes)
    requires ValidCurve(k)
    ensures SecretFromString(k, Padded(k, secret)) ==
            if |secret| <= k.BaseLen() then FromSecret(k, Value(secret)) else Err(AssertionError)
  {
    OrderLenPositive(k.Order());
    PaddedValue(k, secret);
    hide FromSecret, ValidCurve, Padded, Value;
  }

  /** What `SigningKey.from_der` makes of any four parts: only version 1, tag 0, nothing after the identifier
      of the curve and nothing after the sequence will do; the part after the curve may be anything. */
  ghost function SecretKeyOfParts(version: nat, secret: bytes, tag: nat, oid: seq<nat>, inside: bytes, after: bytes,
      table: seq<NamedCurve>): Result<SigningKey>
    requires ValidTable(table)
  {
    if after != [] || version != 1 || tag != 0 || inside != [] then Err(UnexpectedDER)
    else if UnknownCurve(oid, table) then Err(UnknownCurveError)
    else KeyOfSecret(oid, table, secret)
  }

  lemma SigningKeyReads(s: bytes, body: bytes, version: nat, afterOne: bytes, secret: bytes, afterSecret: bytes,
      tag: nat, id: bytes, pub: bytes, oid: seq<nat>, inside: bytes, after: bytes, table: seq<NamedCurve>)
    requires ValidTable(table)
    requires RemoveSequence(s) == Ok((body, after)) && RemoveInteger(body) == Ok((version, afterOne))
    requires RemoveOctetString(afterOne) == Ok((secret, afterSecret))
    requires RemoveConstructed(afterSecret) == Ok((tag, id, pub)) && ObjectNumbers(id) == Ok((oid, inside))
    ensures SigningKeyFromDer(s, table) == SecretKeyOfParts(version, secret, tag, oid, inside, after, table)
  {
    FindCurveMeaning(oid, table);
    FoundIsValid(oid, table);
    if FindCurve(oid, table).Ok? { PaddedSecret(FindCurve(oid, table).value, secret); }
    hide ValidCurve, ValidTable, FromSecret, SecretFromString, RemoveTagged, RemoveInteger, RemoveConstructed;
    hide FindCurve, ObjectNumbers, Padded, UnknownCurve, Value;
  }

  /** The same for the encoding of these parts. */
  lemma SigningKeyFromParts(version: nat, secret: bytes, tag: nat, oid: seq<nat>, inside: bytes, pub: bytes,
      after: bytes, table: seq<NamedCurve>) returns (der: bytes)
    requires ValidTable(table) && version < Pow(2, 1015) && tag < 32 && SmallOid(oid)
    requires Encodable(|secret| + |inside| + |pub| + 3000)
    ensures EncodedOid(oid).Ok?
    ensures EncodeInteger(version).Ok? && EncodeOctetString(secret).Ok?
    ensures EncodeConstructed(tag, EncodedOid(oid).value + inside).Ok?
    ensures EncodeSequence([EncodeInteger(version).value, EncodeOctetString(secret).value,
                            EncodeConstructed(tag, EncodedOid(oid).value + inside).value, pub]) == Ok(der)
    ensures SigningKeyFromDer(der + after, table) ==
            SecretKeyOfParts(version, secret, tag, oid, inside, after, table)
  {
    EncodedOidRoundTrip(oid, inside);
    var id := EncodedOid(oid).value + inside;
    hide SmallOid, EncodeTagged, RemoveTagged, EncodeInteger, RemoveInteger, EncodeConstructed, RemoveConstructed;
    hide Encodable, ObjectNumbers, EncodedOid, Concat, SecretKeyOfParts, SigningKeyFromDer, ValidTable, Pow;
    var body, afterOne, afterSecret := SigningKeyParts(version, secret, tag, id, pub, after);
    der := EncodeTagged(0x30, body).value;
    SigningKeyReads(der + after, body, version, afterOne, secret, afterSecret, tag, id, pub, oid, inside, after, table);
  }

  /** Parsing the parts of an encoded public key. */
  lemma VerifyingKeyParts(name: bytes, curve: bytes, bits: bytes, behind: bytes, after: bytes)
    returns (body: bytes, ids: bytes, point: bytes)
    requires Encodable(|name| + |curve| + |bits| + |behind| + 600)
    ensures ids == Concat([name, curve]) == name + curve && EncodeTagged(0x30, ids).Ok? && EncodeBitString(bits).Ok?
    ensures point == EncodeBitString(bits).value + behind
    ensures body == Concat([EncodeTagged(0x30, ids).value, point]) && EncodeTagged(0x30, body).Ok?
    ensures RemoveSequence(EncodeTagged(0x30, body).value + after) == Ok((body, after))
    ensures RemoveSequence(body) == Ok((name + curve, point))
    ensures RemoveBitString(point) == Ok((bits, behind))
  {
    ids := name + curve;
    ConcatTwo(name, curve);
    TaggedLength(0x30, ids);
    TaggedLength(0x03, bits);
    point := EncodeBitString(bits).value + behind;
    body := EncodeTagged(0x30, ids).value + point;
    ConcatTwo(EncodeTagged(0x30, ids).value, point);
    TaggedLength(0x30, body);
    TaggedRoundTrip(0x30, body, after);
    TaggedRoundTrip(0x30, ids, point);
    TaggedRoundTrip(0x03, bits, behind);
    hide EncodeTagged, RemoveTagged, Encodable, Concat;
  }

  /** What `VerifyingKey.from_der` makes of any parts: the algorithm has to be that of elliptic curves, and the
      bit string an uncompressed point on a known curve; trailing bytes are refused everywhere. */
  ghost function KeyOfParts(algorithm: seq<nat>, oid: seq<nat>, inside: bytes, bits: bytes, behind: bytes,
      after: bytes, table: seq<NamedCurve>): Result<VerifyingKey>
    requires ValidTable(table)
  {
    if after != [] || inside != [] then Err(UnexpectedDER)
    else if algorithm != OID_EC_PUBLIC_KEY then Err(AssertionError)
    else if UnknownCurve(oid, table) then Err(UnknownCurveError)
    else if behind != [] then Err(UnexpectedDER)
    else KeyOfBits(oid, table, bits)
  }

  lemma VerifyingKeyReads(s: bytes, body: bytes, ids: bytes, point: bytes, algorithm: seq<nat>, curve: bytes,
      oid: seq<nat>, inside: bytes, bits: bytes, behind: bytes, after: bytes, table: seq<NamedCurve>)
    requires ValidTable(table)
    requires RemoveSequence(s) == Ok((body, after)) && RemoveSequence(body) == Ok((ids, point))
    requires ObjectNumbers(ids) == Ok((algorithm, curve)) && ObjectNumbers(curve) == Ok((oid, inside))
    requires RemoveBitString(point) == Ok((bits, behind))
    ensures VerifyingKeyFromDer(s, table) == KeyOfParts(algorithm, oid, inside, bits, behind, after, table)
  {
    FindCurveMeaning(oid, table);
    FoundIsValid(oid, table);
    StartsUncompressed(bits);
    hide ValidCurve, ValidTable, RemoveTagged, FindCurve, PointFromString, ObjectNumbers, Uncompressed, UnknownCurve;
  }

  lemma StartsUncompressed(bits: bytes)
    ensures |bits| >= 2 && bits[..2] == [0x00, 0x04] <==> Uncompressed(bits)
  {
    if |bits| >= 2 { assert bits[..2] == [bits[0], bits[1]]; }
  }

  /** The same for the encoding of these parts. */
  lemma VerifyingKeyFromParts(algorithm: seq<nat>, oid: seq<nat>, inside: bytes, bits: bytes, behind: bytes,
      after: bytes, table: seq<NamedCurve>) returns (der: bytes)
    requires ValidTable(table) && SmallOid(algorithm) && SmallOid(oid)
    requires Encodable(|inside| + |bits| + |behind| + 5000)
    ensures EncodedOid(algorithm).Ok? && EncodedOid(oid).Ok?
    ensures EncodeSequence([EncodedOid(algorithm).value, EncodedOid(oid).value + inside]).Ok?
    ensures EncodeBitString(bits).Ok?
    ensures EncodeSequence([EncodeSequence([EncodedOid(algorithm).value, EncodedOid(oid).value + inside]).value,
                            EncodeBitString(bits).value + behind]) == Ok(der)
    ensures VerifyingKeyFromDer(der + after, table) ==
            KeyOfParts(algorithm, oid, inside, bits, behind, after, table)
  {
    EncodedOidRoundTrip(oid, inside);
    var curve := EncodedOid(oid).value + inside;
    EncodedOidRoundTrip(algorithm, curve);
    var name := EncodedOid(algorithm).value;
    hide SmallOid, EncodeTagged, RemoveTagged, Encodable, ObjectNumbers, EncodedOid, Concat, KeyOfParts;
    hide VerifyingKeyFromDer, ValidTable;
    var body, ids, point := VerifyingKeyParts(name, curve, bits, behind, after);
    der := EncodeTagged(0x30, body).value;
    VerifyingKeyReads(der + after, body, ids, point, algorithm, curve, oid, inside, bits, behind, after, table);
  }

  /** A public key with a valid point is recovered from its DER encoding, curve and all. */
  lemma VerifyingKeyRoundTrip(vk: VerifyingKey, table: seq<NamedCurve>)
    requires ValidTable(table) && vk.curve in table && ValidCurve(vk.curve)
    requires vk.point.Affine? && KeyPoint(vk.curve, vk.point.x, vk.point.y)
    ensures VerifyingKeyToDer(vk).Ok?
    ensures VerifyingKeyFromDer(VerifyingKeyToDer(vk).value, table)
         == Ok(VerifyingKey(vk.curve, Affine(vk.curve.generator.curve, vk.point.x, vk.point.y, vk.curve.Order())))
  {
    CurveSizes(vk.curve);
    PointRoundTrip(vk, true);
    FindCurveInTable(vk.curve, table);
    EcPublicKeyOid();
    hide KeyPoint, ValidCurve, ValidTable, PointFromString, VerifyingKeyFromDer, SmallOid, EncodedOid;
    var bits := [0x00, 0x04] + PointToString(vk).value;
    assert bits[2..] == PointToString(vk).value;
    SmallEncodable(|bits| + 5000);
    var der := VerifyingKeyFromParts(OID_EC_PUBLIC_KEY, vk.curve.oid, [], bits, [], [], table);
    NothingAdded(EncodedOid(vk.curve.oid).value);
    NothingAdded(EncodeBitString(bits).value);
    NothingAdded(der);
  }

  lemma NothingAdded(s: bytes)
    ensures s + [] == s
  {}

  // --- signing and verifying digests ---

  datatype Codec = StringCodec | DerCodec

  function Sigencode(codec: Codec, r: int, s: int, order: nat): Result<bytes> {
    match codec
    case StringCodec => SigencodeString(r, s, order)
    case DerCodec => SigencodeDer(r, s)
  }

  function Sigdecode(codec: Codec, signature: bytes, order: nat): Result<(nat, nat)> {
    match codec
    case StringCodec => SigdecodeString(signature, order)
    case DerCodec => SigdecodeDer(signature)
  }

  /** `SigningKey.sign_digest` with a given nonce. */
  ghost function SignedDigest(sk: SigningKey, digest: bytes, nonce: int, codec: Codec): Result<bytes>
    requires ValidCurve(sk.curve)
  {
    if |digest| > sk.curve.BaseLen() then Err(BadDigestError)
    else
      var number :- StringToNumber(digest);
      var n := sk.curve.Order();
      var _ :- Need(1 <= nonce < n, AssertionError);
      var sig :- Signed(number, sk.secret, nonce, sk.curve.generator, sk.curve.generator.curve);
      Sigencode(codec, sig.r, sig.s, n)
  }

  /** `VerifyingKey.verify_digest`. */
  ghost function VerifiedDigest(vk: VerifyingKey, signature: bytes, digest: bytes, codec: Codec): Result<bool>
    requires ValidCurve(vk.curve) && OrderedPoint(vk.point, vk.curve.generator, vk.curve.generator.curve)
  {
    if |digest| > vk.curve.BaseLen() then Err(BadDigestError)
    else
      var number :- StringToNumber(digest);
      var (r, s) :- Sigdecode(codec, signature, vk.curve.Order());
      var accepted :- VerifyOutcome(number, Signature(r, s), vk.point, vk.curve.generator, vk.curve.generator.curve);
      if accepted then Ok(true) else Err(BadSignatureError)
  }

  /** The point of the key that signs, and the verifier's copy of it, with or without its order. */
  ghost predicate Matches(vk: VerifyingKey, sk: SigningKey) {
    && vk.curve == sk.curve && vk.point.Affine? && sk.point.Affine?
    && vk.point.curve == sk.point.curve && vk.point.x == sk.point.x && vk.point.y == sk.point.y
    && (vk.point.order == 0 || vk.point.order == sk.curve.Order())
  }

  lemma MatchingIsPublic(vk: VerifyingKey, sk: SigningKey)
    requires ValidCurve(sk.curve) && FromSecret(sk.curve, sk.secret) == Ok(sk) && Matches(vk, sk)
    ensures PublicPoint(vk.point, sk.secret, sk.curve.generator, sk.curve.generator.curve)
  {
    hide Plus, Add, Double, Associative;
    assert sk.point == SecretPoint(sk.curve, sk.secret);
    assert Canon(vk.point) == Canon(sk.point);
  }

  /** What `sign_digest` returns for a digest that is not too long and a nonce in range: the encoding of the
      abscissa of nonce*G and the one residue s with s*nonce = digest + secret*r, if neither is 0. */
  lemma SignDigestMeaning(sk: SigningKey, digest: bytes, nonce: int, codec: Codec, sig: Signature)
    requires ValidCurve(sk.curve) && 0 < |digest| <= sk.curve.BaseLen() && 1 <= nonce < sk.curve.Order()
    requires
      var R := Times(nonce, Canon(sk.curve.generator), sk.curve.generator.curve);
      R.Affine? && sig.r == R.x != 0
    requires 1 <= sig.s < sk.curve.Order()
    requires (sig.s * nonce) % sk.curve.Order() == (Value(digest) + sk.secret * sig.r) % sk.curve.Order()
    ensures SignedDigest(sk, digest, nonce, codec) == Sigencode(codec, sig.r, sig.s, sk.curve.Order())
  {
    ModSmall(nonce, sk.curve.Order());
    SignedExactly(Value(digest), sk.secret, nonce, sig, sk.curve.generator, sk.curve.generator.curve);
    hide Signed, Times, Canon, Generator;
  }

  /** And when it fails: a digest longer than the order, or without a byte, a nonce out of range, an r or an s
      that is 0, or numbers that do not fit the encoding. */
  lemma SignDigestFails(sk: SigningKey, digest: bytes, nonce: int, codec: Codec)
    requires ValidCurve(sk.curve)
    ensures |digest| > sk.curve.BaseLen() ==> SignedDigest(sk, digest, nonce, codec) == Err(BadDigestError)
    ensures digest == [] ==> SignedDigest(sk, digest, nonce, codec) == Err(ValueError)
    ensures 0 < |digest| <= sk.curve.BaseLen() && !(1 <= nonce < sk.curve.Order()) ==>
      SignedDigest(sk, digest, nonce, codec) == Err(AssertionError)
    ensures 0 < |digest| <= sk.curve.BaseLen() && 1 <= nonce < sk.curve.Order() ==>
      var R := Times(nonce, Canon(sk.curve.generator), sk.curve.generator.curve);
      && R.Affine?
      && (R.x == 0 || (Value(digest) + sk.secret * R.x) % sk.curve.Order() == 0 ==>
            SignedDigest(sk, digest, nonce, codec) == Err(RuntimeError))
  {
    var n, G, c := sk.curve.Order(), sk.curve.generator, sk.curve.generator.curve;
    if 0 < |digest| <= sk.curve.BaseLen() && 1 <= nonce < n {
      GeneratorMultiple(nonce, G, c);
      ModSmall(nonce, n);
      var hash := Value(digest);
      if Signed(hash, sk.secret, nonce, G, c).Ok? {
        var sig := Signed(hash, sk.secret, nonce, G, c).value;
        SignedExactly(hash, sk.secret, nonce, sig, G, c);
        hide Signed, Times, Canon;
        NonceVanishes(nonce, sig.s, hash + sk.secret * sig.r, n);
      } else {
        var sig := Signature(0, 0);
        SignedExactly(hash, sk.secret, nonce, sig, G, c);
      }
    }
  }

  /** The right answer to a pair of numbers under d*G: True exactly when both are in range and some nonce
      explains them, an exception when the digest plus d*r is a multiple of the order, and otherwise,
      out of range too, a bad signature. */
  ghost predicate RightAnswer(answer: Result<bool>, hash: int, sig: Signature, d: nat, G: Point, c: CurveFp)
    requires Generator(G, c)
  {
    && (answer == Ok(true) <==>
        1 <= sig.r < G.order && 1 <= sig.s < G.order && exists k :: Explains(k, hash, sig, d, G, c))
    && (answer == Err(TypeError) <==>
        1 <= sig.r < G.order && 1 <= sig.s < G.order && (hash + d * sig.r) % G.order == 0)
    && (answer == Ok(true) || answer == Err(TypeError) || answer == Err(BadSignatureError))
  }

  lemma OutcomeIsRight(hash: int, sig: Signature, Q: Point, d: nat, G: Point, c: CurveFp, answer: Result<bool>)
    requires Generator(G, c) && PublicPoint(Q, d, G, c)
    requires
      var outcome := VerifyOutcome(hash, sig, Q, G, c);
      answer == if outcome == Ok(false) then Err(BadSignatureError) else outcome
    ensures RightAnswer(answer, hash, sig, d, G, c)
  {
    AcceptedMeaning(hash, sig, Q, d, G, c);
    VerificationRaises(hash, sig, Q, d, G, c);
    hide VerifyOutcome, Explains, PublicPoint, Generator, OrderedPoint;
  }

  /** What `verify_digest` answers under a public key d*G for any bytes as a signature and as a digest. */
  lemma VerifyDigestMeaning(vk: VerifyingKey, d: nat, signature: bytes, digest: bytes, codec: Codec)
    requires ValidCurve(vk.curve) && PublicPoint(vk.point, d, vk.curve.generator, vk.curve.generator.curve)
    ensures
      var G, c := vk.curve.generator, vk.curve.generator.curve;
      var answer := VerifiedDigest(vk, signature, digest, codec);
      var decoded := Sigdecode(codec, signature, vk.curve.Order());
      && (|digest| > vk.curve.BaseLen() ==> answer == Err(BadDigestError))
      && (digest == [] ==> answer == Err(ValueError))
      && (0 < |digest| <= vk.curve.BaseLen() ==>
          if decoded.Err? then answer == Err(decoded.error)
          else RightAnswer(answer, Value(digest), Signature(decoded.value.0, decoded.value.1), d, G, c))
  {
    var G, c := vk.curve.generator, vk.curve.generator.curve;
    var answer, decoded := VerifiedDigest(vk, signature, digest, codec), Sigdecode(codec, signature, vk.curve.Order());
    hide Sigdecode, Explains, VerifyOutcome, PublicPoint, ValidCurve, Generator, OrderedPoint, RightAnswer;
    if 0 < |digest| <= vk.curve.BaseLen() && decoded.Ok? {
      OutcomeIsRight(Value(digest), Signature(decoded.value.0, decoded.value.1), vk.point, d, G, c, answer);
    }
  }

  /** A signature that `sign_digest` returns, in either encoding, passes `verify_digest` under the
      matching public key exactly when the abscissa of nonce*G is below the order; otherwise it is
      reported as bad. For the DER encoding the field has to be within its integers. */
  lemma SignThenVerify(sk: SigningKey, vk: VerifyingKey, digest: bytes, nonce: int, codec: Codec)
    requires ValidCurve(sk.curve) && FromSecret(sk.curve, sk.secret) == Ok(sk) && Matches(vk, sk)
    requires SignedDigest(sk, digest, nonce, codec).Ok?
    requires codec == DerCodec ==> sk.curve.generator.curve.p <= Pow(2, 1015)
    ensures PublicPoint(vk.point, sk.secret, sk.curve.generator, sk.curve.generator.curve)
    ensures var c := sk.curve.generator.curve;
      var R := Times(nonce, Canon(sk.curve.generator), c);
      R.Affine? && VerifiedDigest(vk, SignedDigest(sk, digest, nonce, codec).value, digest, codec)
        == if R.x < sk.curve.Order() then Ok(true) else Err(BadSignatureError)
  {
    MatchingIsPublic(vk, sk);
    hide Plus, Add, Double, Associative, Combination, FromSecret, VerifyOutcome;
    var G, c, n := sk.curve.generator, sk.curve.generator.curve, sk.curve.Order();
    var hash := StringToNumber(digest).value;
    ModSmall(nonce, n);
    GeneratorMultiple(nonce, G, c);
    SignedIsAccepted(hash, sk.secret, nonce, vk.point, G, c);
    var sig := Signed(hash, sk.secret, nonce, G, c).value;
    SignedBelowField(hash, sk.secret, nonce, G, c);
    VerificationRaises(hash, sig, vk.point, sk.secret, G, c);
    CodecRoundTrip(codec, sig.r, sig.s, n);
  }

  lemma SignedBelowField(hash: int, d: int, nonce: int, G: Point, c: CurveFp)
    requires Generator(G, c) && 1 <= nonce < G.order && Signed(hash, d, nonce, G, c).Ok?
    ensures var sig := Signed(hash, d, nonce, G, c).value;
      var R := Times(nonce, Canon(G), c);
      R.Affine? && sig.r == R.x && 0 <= sig.r < c.p && 0 <= sig.s < G.order
  {
    hide Plus, Add, Double, Associative;
    ModSmall(nonce, G.order);
    GeneratorMultiple(nonce, G, c);
    ResidueInverse(nonce, G.order);
    var v := Signed(hash, d, nonce, G, c).value;
    DivModAll(G.order);
  }

  lemma DivModAll(n: int)
    requires n > 0
    ensures forall x :: 0 <= x % n < n
  {
    forall x ensures 0 <= x % n < n { DivMod(x, n); }
  }

  lemma CodecRoundTrip(codec: Codec, r: nat, s: nat, n: nat)
    requires Sigencode(codec, r, s, n).Ok?
    requires codec == DerCodec ==> r < Pow(2, 1015) && s < Pow(2, 1015)
    ensures Sigdecode(codec, Sigencode(codec, r, s, n).value, n) == Ok((r, s))
  {
    match codec
    case StringCodec => SigStringRoundTrip(r, s, n);
    case DerCodec => SigDerRoundTrip(r, s);
  }
}
