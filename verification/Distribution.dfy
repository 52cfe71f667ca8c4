/** The analysis of how often the frequent characters of a language occur (`chardistribution.py`). */
module Distribution {
  import opened Bytes

  const ENOUGH_DATA_THRESHOLD := 1024
  const MINIMUM_DATA_THRESHOLD := 3
  const SURE_YES := 0.99
  const SURE_NO := 0.01

  /** One language: the order of a two-byte character, the frequency ranks by order, and the ratio
      of frequent to other characters in a typical text. */
  datatype Language = Language(order: (byte, byte) -> int, freqOrder: seq<nat>, tableSize: nat, typicalRatio: real)

  predicate Usable(d: Language) {
    d.tableSize <= |d.freqOrder| && d.typicalRatio > 0.0
  }

  datatype Tally = Tally(total: nat, frequent: nat)

  predicate Frequent(d: Language, order: int)
    requires Usable(d)
  {
    0 <= order < d.tableSize && d.freqOrder[order] < 512
  }

  /** The tally after one more character: only two-byte characters with an order are counted. */
  function Observe(d: Language, t: Tally, first: byte, second: byte, charLen: nat): (r: Tally)
    requires Usable(d)
    ensures t.frequent <= t.total ==> r.frequent <= r.total
  {
    var order := if charLen == 2 then d.order(first, second) else -1;
    Tally(t.total + (if order >= 0 then 1 else 0), t.frequent + (if Frequent(d, order) then 1 else 0))
  }

  function Confidence(d: Language, t: Tally): real
    requires Usable(d)
  {
    if t.total <= 0 || t.frequent <= MINIMUM_DATA_THRESHOLD then
      SURE_NO
    else if t.total != t.frequent then
      var r := t.frequent as real / (OthersWeight(d, t));
      if r < SURE_YES then r else SURE_YES
    else
      SURE_YES
  }

  function OthersWeight(d: Language, t: Tally): (w: real)
    requires Usable(d) && t.total != t.frequent
    ensures w != 0.0
  {
    (t.total - t.frequent) as real * d.typicalRatio
  }

  class CharDistributionAnalysis {
    const language: Language
    var totalChars: nat
    var freqChars: nat

    function Current(): Tally
      reads this
    {
      Tally(totalChars, freqChars)
    }

    constructor (language: Language)
      ensures this.language == language && Current() == Tally(0, 0)
    {
      this.language := language;
      totalChars, freqChars := 0, 0;
    }

    method Reset()
      modifies this
      ensures Current() == Tally(0, 0)
    {
      totalChars := 0;
      freqChars := 0;
    }

    method Feed(character: bytes, charLen: nat)
      requires Usable(language) && |character| >= 2
      modifies this
      ensures Current() == Observe(language, old(Current()), character[0], character[1], charLen)
    {
      var order;
      if charLen == 2 {
        order := language.order(character[0], character[1]);
      } else {
        order := -1;
      }
      if order >= 0 {
        totalChars := totalChars + 1;
        if order < language.tableSize {
          if 512 > language.freqOrder[order] {
            freqChars := freqChars + 1;
          }
        }
      }
    }

    method GetConfidence() returns (r: real)
      requires Usable(language)
      ensures r == Confidence(language, Current())
    {
      if totalChars <= 0 || freqChars <= MINIMUM_DATA_THRESHOLD {
        return SURE_NO;
      }
      if totalChars != freqChars {
        r := freqChars as real / OthersWeight(language, Current());
        if r < SURE_YES {
          return r;
        }
      }
      return SURE_YES;
    }

    method GotEnoughData() returns (enough: bool)
      ensures enough == (Current().total > ENOUGH_DATA_THRESHOLD)
    {
      return totalChars > ENOUGH_DATA_THRESHOLD;
    }
  }

  /** A confidence is positive and never certain. */
  lemma ConfidenceRange(d: Language, t: Tally)
    requires Usable(d) && t.frequent <= t.total
    ensures 0.0 < Confidence(d, t) <= SURE_YES
  {
    hide OthersWeight;
    if t.total != t.frequent {
      WeightsCompare(d, t, t);
      Quotient(t.frequent as real, OthersWeight(d, t));
    }
  }

  lemma Quotient(x: real, y: real)
    requires y > 0.0 && x >= 0.0
    ensures x / y >= 0.0 && (x > 0.0 ==> x / y > 0.0)
  {}

  lemma Scaled(x: real, y: real, z: real)
    requires x <= y && z >= 0.0
    ensures x * z <= y * z
  {}

  lemma Unscaled(x: real, y: real, z: real)
    requires x * z <= y * z && z > 0.0
    ensures x <= y
  {}

  lemma QuotientGrows(a: real, x: real, b: real, y: real)
    requires 0.0 <= a <= b && 0.0 < y <= x
    ensures a / x <= b / y
  {
    var q, r := a / x, b / y;
    Quotient(a, x);
    assert q * x == a && r * y == b;
    Scaled(y, x, q);
    Unscaled(q, r, y);
  }

  lemma WeightIs(d: Language, t: Tally, x: real)
    requires Usable(d) && t.total != t.frequent && x == (t.total - t.frequent) as real
    ensures OthersWeight(d, t) == x * d.typicalRatio
  {}

  lemma WeightsCompare(d: Language, t: Tally, u: Tally)
    requires Usable(d) && t.total == u.total && t.frequent <= u.frequent < u.total
    ensures 0.0 < OthersWeight(d, u) <= OthersWeight(d, t)
  {
    hide OthersWeight;
    var x, y := (t.total - t.frequent) as real, (u.total - u.frequent) as real;
    var ratio := d.typicalRatio;
    WeightIs(d, t, x);
    WeightIs(d, u, y);
    assert 1.0 <= y <= x;
    Scaled(1.0, y, ratio);
    Scaled(y, x, ratio);
  }

  /** Once there is enough data, more frequent characters among as many never lower the confidence. */
  lemma ConfidenceGrows(d: Language, t: Tally, u: Tally)
    requires Usable(d) && t.total == u.total && MINIMUM_DATA_THRESHOLD < t.frequent <= u.frequent <= u.total
    ensures Confidence(d, t) <= Confidence(d, u)
  {
    hide OthersWeight;
    if u.frequent < u.total {
      WeightsCompare(d, t, u);
      QuotientGrows(t.frequent as real, OthersWeight(d, t), u.frequent as real, OthersWeight(d, u));
    } else {
      ConfidenceRange(d, t);
    }
  }

  lemma ScaledStrictly(x: real, y: real, z: real)
    requires x < y && z > 0.0
    ensures x * z < y * z
  {}

  lemma BelowSureNo(a: real, w: real)
    requires w > 0.0
    ensures a / w < SURE_NO <==> a < SURE_NO * w
  {
    var q := a / w;
    assert q * w == a;
    if q < SURE_NO {
      ScaledStrictly(q, SURE_NO, w);
    } else {
      Scaled(SURE_NO, q, w);
    }
  }

  /** More frequent characters among as many lower the confidence in exactly one case: when they bring
      it past the threshold of three characters, below which it is a constant, and are still fewer than
      a hundredth of the weighted others. */
  lemma ConfidenceGrowsExactly(d: Language, t: Tally, u: Tally)
    requires Usable(d) && t.total == u.total && t.frequent <= u.frequent <= u.total
    ensures Confidence(d, t) <= Confidence(d, u) <==>
            !(t.frequent <= MINIMUM_DATA_THRESHOLD < u.frequent < u.total
              && u.frequent as real < SURE_NO * OthersWeight(d, u))
  {
    hide OthersWeight;
    if t.frequent > MINIMUM_DATA_THRESHOLD {
      ConfidenceGrows(d, t, u);
    } else if MINIMUM_DATA_THRESHOLD < u.frequent < u.total {
      WeightsCompare(d, u, u);
      BelowSureNo(u.frequent as real, OthersWeight(d, u));
    }
  }

  lemma QuotientCompared(a: real, w: real, bound: real)
    requires w > 0.0
    ensures (a / w) * w == a
    ensures a / w > bound <==> a > bound * w
  {
    var q := a / w;
    assert q * w == a;
    if q > bound {
      ScaledStrictly(bound, q, w);
    } else {
      Scaled(q, bound, w);
    }
  }

  /** The confidence in numbers: with more than three frequent characters, and others besides, it is the
      quotient of the frequent ones and the weighted others, up to 0.99. */
  lemma ConfidenceMeaning(d: Language, t: Tally)
    requires Usable(d) && t.frequent <= t.total
    ensures t.frequent <= 3 ==> Confidence(d, t) == 0.01
    ensures 3 < t.frequent == t.total ==> Confidence(d, t) == 0.99
    ensures 3 < t.frequent < t.total ==>
      var w := (t.total - t.frequent) as real * d.typicalRatio;
      w > 0.0 && if t.frequent as real < 0.99 * w then Confidence(d, t) * w == t.frequent as real
                 else Confidence(d, t) == 0.99
  {
    if 3 < t.frequent < t.total {
      WeightsCompare(d, t, t);
      WeightIs(d, t, (t.total - t.frequent) as real);
      hide OthersWeight;
      var a, w := t.frequent as real, OthersWeight(d, t);
      QuotientCompared(a, w, 0.99);
      if a / w == 0.99 { assert a == 0.99 * w; }
      if a == 0.99 * w { EqualQuotient(a / w, 0.99, w); }
    }
  }

  lemma EqualQuotient(q: real, r: real, w: real)
    requires w > 0.0 && q * w == r * w
    ensures q == r
  {
    Unscaled(q, r, w);
    Unscaled(r, q, w);
  }

  /** What passes the threshold of a detector: more than three frequent characters, and these are all, or
      more than 0.95 of the weighted others. */
  lemma ConfidentExactly(d: Language, t: Tally)
    requires Usable(d) && t.frequent <= t.total
    ensures Confidence(d, t) > 0.95 <==>
            t.frequent > 3
            && (t.frequent == t.total || t.frequent as real > 0.95 * ((t.total - t.frequent) as real * d.typicalRatio))
  {
    if 3 < t.frequent < t.total {
      WeightsCompare(d, t, t);
      WeightIs(d, t, (t.total - t.frequent) as real);
      hide OthersWeight;
      QuotientCompared(t.frequent as real, OthersWeight(d, t), 0.95);
    }
  }

  /** With the ratio of Big5 a fourth frequent character among ten thousand lowers the confidence. */
  lemma ConfidenceFallsAtThreshold(d: Language)
    requires Usable(d) && d.typicalRatio == 0.75
    ensures Confidence(d, Tally(10000, 4)) < Confidence(d, Tally(10000, 3))
  {}

  // ----- Big5 -----

  function Big5Order(first: byte, second: byte): int {
    if first >= 0xA4 then
      if second >= 0xA1 then 157 * (first - 0xA4) + second - 0xA1 + 63 else 157 * (first - 0xA4) + second - 0x40
    else
      -1
  }

  /** The second bytes that the automaton lets through. */
  predicate Big5Second(b: byte) {
    0x40 <= b <= 0xFE && b != 0x7F
  }

  /** Two characters that the automaton lets through share an order exactly when they are the same, or
      when one has a second byte from 0x80 to 0xA0, outside Big5, and the other the byte 0x22 above it. */
  lemma Big5OrderCollisions(first: byte, second: byte, first': byte, second': byte)
    requires first >= 0xA4 && first' >= 0xA4 && Big5Second(second) && Big5Second(second')
    ensures Big5Order(first, second) == Big5Order(first', second') <==>
            first == first' && (|| second == second'
                                || (0x80 <= second <= 0xA0 && second' == second + 0x22)
                                || (0x80 <= second' <= 0xA0 && second == second' + 0x22))
    ensures 0 <= Big5Order(first, second) < 157 * (first - 0xA4 + 1)
  {
  }

  /** Within Big5 the order numbers the characters from lead byte 0xA4 on one after the other: from 0 at
      A4 40, through the second bytes 40 to 7E and A1 to FE of each lead byte. */
  lemma Big5OrderEnumerates(first: byte, second: byte)
    requires first >= 0xA4 && (0x40 <= second <= 0x7E || 0xA1 <= second <= 0xFE)
    ensures Big5Order(0xA4, 0x40) == 0
    ensures second == 0x7E ==> Big5Order(first, 0xA1) == Big5Order(first, second) + 1
    ensures second !in {0x7E, 0xFE} ==> Big5Order(first, second + 1) == Big5Order(first, second) + 1
    ensures second == 0xFE && first < 0xFF ==> Big5Order(first + 1, 0x40) == Big5Order(first, second) + 1
  {}

  /** Lead bytes below 0xA4, those of symbols, have no order. */
  lemma Big5OrderOfSymbols(first: byte, second: byte)
    requires Big5Second(second)
    ensures Big5Order(first, second) < 0 <==> first < 0xA4
  {}
}
