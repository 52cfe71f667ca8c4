/** The detectors of single-byte encodings (`sbcharsetprober.py`), which rate pairs of neighbouring letters. */
module SingleByte {
  import opened Bytes
  import opened Streams

  const SAMPLE_SIZE: nat := 64
  const CONTROL: nat := 251
  const SB_ENOUGH_REL_THRESHOLD := 1024
  const POSITIVE_SHORTCUT_THRESHOLD := 0.95
  const NEGATIVE_SHORTCUT_THRESHOLD := 0.05
  const POSITIVE: nat := 3

  /** A language model: the order of every byte, the rating of every pair of frequent letters, and
      what is left of a chunk before it is read. */
  datatype Model = Model(
    charToOrder: byte -> nat,
    precedence: nat -> nat,
    typicalPositiveRatio: real,
    keepEnglishLetter: bool,
    internationalWords: bytes -> bytes)

  ghost predicate Usable(m: Model) {
    m.typicalPositiveRatio > 0.0 && forall i: nat :: i < SAMPLE_SIZE * SAMPLE_SIZE ==> m.precedence(i) < 4
  }

  datatype View = View(
    lastOrder: nat, seqCounters: seq<nat>, totalSeqs: nat, totalChar: nat, freqChar: nat, verdict: ProbingState)

  const FRESH := View(255, [0, 0, 0, 0], 0, 0, 0, DETECTING)

  /** What the counters keep: every rated pair is in one counter, and there are fewer pairs than
      frequent letters, which are letters. */
  predicate Consistent(v: View) {
    && |v.seqCounters| == 4
    && v.seqCounters[0] + v.seqCounters[1] + v.seqCounters[2] + v.seqCounters[3] == v.totalSeqs
    && (v.totalSeqs < v.freqChar || v.totalSeqs == v.freqChar == 0)
    && v.freqChar <= v.totalChar
    && (v.lastOrder < SAMPLE_SIZE ==> v.freqChar > 0)
  }

  /** The place of a pair in the table of ratings; a reversed detector looks the pair up backwards. */
  function Place(reversed: bool, lastOrder: nat, order: nat): nat {
    if !reversed then lastOrder * SAMPLE_SIZE + order else order * SAMPLE_SIZE + lastOrder
  }

  lemma PlaceRated(m: Model, reversed: bool, lastOrder: nat, order: nat)
    requires Usable(m) && lastOrder < SAMPLE_SIZE && order < SAMPLE_SIZE
    ensures m.precedence(Place(reversed, lastOrder, order)) < 4
  {}

  function Step(m: Model, reversed: bool, v: View, c: byte): (w: View)
    requires Usable(m) && Consistent(v)
    ensures Consistent(w)
  {
    var order := m.charToOrder(c);
    var pair := order < SAMPLE_SIZE && v.lastOrder < SAMPLE_SIZE;
    var rating := if pair then m.precedence(Place(reversed, v.lastOrder, order)) else 0;
    v.(lastOrder := order,
       totalChar := v.totalChar + (if order < CONTROL then 1 else 0),
       freqChar := v.freqChar + (if order < SAMPLE_SIZE then 1 else 0),
       totalSeqs := v.totalSeqs + (if pair then 1 else 0),
       seqCounters := if pair then v.seqCounters[rating := v.seqCounters[rating] + 1] else v.seqCounters)
  }

  function Scan(m: Model, reversed: bool, v: View, s: bytes): (w: View)
    requires Usable(m) && Consistent(v)
    ensures Consistent(w)
    decreases |s|
  {
    if s == [] then v else Step(m, reversed, Scan(m, reversed, v, s[..|s| - 1]), s[|s| - 1])
  }

  /** The share of well-rated pairs against the typical share, scaled by the share of frequent letters. */
  function Share(positive: nat, seqs: nat, ratio: real, frequent: nat, total: nat): real
    requires seqs > 0 && ratio > 0.0 && total > 0
  {
    positive as real / seqs as real / ratio * frequent as real / total as real
  }

  function Confidence(m: Model, v: View): real
    requires Usable(m) && Consistent(v)
  {
    if v.totalSeqs > 0 then
      var r := Share(v.seqCounters[POSITIVE], v.totalSeqs, m.typicalPositiveRatio, v.freqChar, v.totalChar);
      if r >= 1.0 then 0.99 else r
    else
      0.01
  }

  function Filtered(m: Model, chunk: bytes): bytes {
    if m.keepEnglishLetter then chunk else m.internationalWords(chunk)
  }

  function Conclude(m: Model, v: View): (w: View)
    requires Usable(m) && Consistent(v)
    ensures Consistent(w)
  {
    if v.verdict == DETECTING && v.totalSeqs > SB_ENOUGH_REL_THRESHOLD then
      if Confidence(m, v) > POSITIVE_SHORTCUT_THRESHOLD then v.(verdict := FOUND_IT)
      else if Confidence(m, v) < NEGATIVE_SHORTCUT_THRESHOLD then v.(verdict := NOT_ME)
      else v
    else
      v
  }

  function Feed(m: Model, reversed: bool, v: View, chunk: bytes): (w: View)
    requires Usable(m) && Consistent(v)
    ensures Consistent(w)
  {
    if Filtered(m, chunk) == [] then v else Conclude(m, Scan(m, reversed, v, Filtered(m, chunk)))
  }

  class SingleByteCharSetProber {
    const model: Model
    const reversed: bool
    var lastOrder: nat
    var seqCounters: seq<nat>
    var totalSeqs: nat
    var totalChar: nat
    var freqChar: nat
    var state: ProbingState

    function Current(): View
      reads this
    {
      View(lastOrder, seqCounters, totalSeqs, totalChar, freqChar, state)
    }

    ghost predicate Valid()
      reads this
    {
      Usable(model) && Consistent(Current())
    }

    constructor (model: Model, reversed: bool)
      requires Usable(model)
      ensures Valid() && this.model == model && this.reversed == reversed && Current() == FRESH
    {
      this.model := model;
      this.reversed := reversed;
      state := DETECTING;
      lastOrder := 255;
      seqCounters := [0, 0, 0, 0];
      totalSeqs := 0;
      totalChar := 0;
      freqChar := 0;
    }

    method Reset()
      requires Usable(model)
      modifies this
      ensures Valid() && Current() == FRESH
    {
      state := DETECTING;
      lastOrder := 255;
      seqCounters := [0, 0, 0, 0];
      totalSeqs := 0;
      totalChar := 0;
      freqChar := 0;
    }

    /** One byte: the body of the loop of `feed`. */
    method Count(c: byte)
      requires Valid()
      modifies this
      ensures Valid() && Current() == Step(model, reversed, old(Current()), c)
    {
      hide Usable;
      var order := model.charToOrder(c);
      if order < CONTROL {
        totalChar := totalChar + 1;
      }
      if order < SAMPLE_SIZE {
        freqChar := freqChar + 1;
        if lastOrder < SAMPLE_SIZE {
          totalSeqs := totalSeqs + 1;
          PlaceRated(model, reversed, lastOrder, order);
          var rating;
          if !reversed {
            rating := model.precedence(lastOrder * SAMPLE_SIZE + order);
          } else {
            rating := model.precedence(order * SAMPLE_SIZE + lastOrder);
          }
          seqCounters := seqCounters[rating := seqCounters[rating] + 1];
        }
      }
      lastOrder := order;
    }

    method FeedChunk(chunk: bytes) returns (verdict: ProbingState)
      requires Valid()
      modifies this
      ensures Valid() && Current() == Feed(model, reversed, old(Current()), chunk) && verdict == state
    {
      hide Step, Confidence, Consistent;
      ghost var before := Current();
      var filtered := chunk;
      if !model.keepEnglishLetter {
        filtered := model.internationalWords(chunk);
      }
      if filtered == [] {
        return state;
      }
      for i := 0 to |filtered|
        invariant Valid() && Current() == Scan(model, reversed, before, filtered[..i])
      {
        assert filtered[..i + 1][..i] == filtered[..i];
        Count(filtered[i]);
      }
      assert filtered[..|filtered|] == filtered;
      ghost var scanned := Current();
      if state == DETECTING {
        if totalSeqs > SB_ENOUGH_REL_THRESHOLD {
          var confidence := GetConfidence();
          if confidence > POSITIVE_SHORTCUT_THRESHOLD {
            state := FOUND_IT;
          } else if confidence < NEGATIVE_SHORTCUT_THRESHOLD {
            state := NOT_ME;
          }
        }
      }
      assert Current() == Conclude(model, scanned);
      return state;
    }

    /** The divisions are safe: a rated pair takes a letter. */
    method GetConfidence() returns (r: real)
      requires Valid()
      ensures r == Confidence(model, Current())
    {
      r := 0.01;
      if totalSeqs > 0 {
        r := seqCounters[POSITIVE] as real / totalSeqs as real / model.typicalPositiveRatio;
        r := r * freqChar as real / totalChar as real;
        assert r == Share(seqCounters[POSITIVE], totalSeqs, model.typicalPositiveRatio, freqChar, totalChar);
        if r >= 1.0 {
          r := 0.99;
        }
      }
    }
  }

  // ----- Chunks -----

  lemma {:induction false} ScanConcat(m: Model, reversed: bool, v: View, s: bytes, t: bytes)
    requires Usable(m) && Consistent(v)
    ensures Scan(m, reversed, v, s + t) == Scan(m, reversed, Scan(m, reversed, v, s), t)
    decreases |t|
  {
    hide Step, Consistent;
    if t == [] {
      assert s + t == s;
    } else {
      var n := |t| - 1;
      assert (s + t)[..|s + t| - 1] == s + t[..n];
      ScanConcat(m, reversed, v, s, t[..n]);
    }
  }

  /** Agreement on all the counters. */
  predicate SameCount(v: View, w: View) {
    v.(verdict := DETECTING) == w.(verdict := DETECTING)
  }

  lemma {:induction false} ScanIgnoresVerdict(m: Model, reversed: bool, v: View, w: View, s: bytes)
    requires Usable(m) && Consistent(v) && Consistent(w) && SameCount(v, w)
    ensures SameCount(Scan(m, reversed, v, s), Scan(m, reversed, w, s))
    decreases |s|
  {
    if s != [] {
      ScanIgnoresVerdict(m, reversed, v, w, s[..|s| - 1]);
    }
  }

  function FeedAll(m: Model, reversed: bool, v: View, chunks: seq<bytes>): View
    requires Usable(m) && Consistent(v)
    decreases |chunks|
  {
    if chunks == [] then v else FeedAll(m, reversed, Feed(m, reversed, v, chunks[0]), chunks[1..])
  }

  function FilteredAll(m: Model, chunks: seq<bytes>): seq<bytes> {
    if chunks == [] then [] else [Filtered(m, chunks[0])] + FilteredAll(m, chunks[1..])
  }

  lemma FeedCounts(m: Model, reversed: bool, v: View, chunk: bytes)
    requires Usable(m) && Consistent(v)
    ensures SameCount(Feed(m, reversed, v, chunk), Scan(m, reversed, v, Filtered(m, chunk)))
  {
    hide Confidence, Step, Consistent;
  }

  /** The counters depend only on the filtered bytes, however these are cut into chunks, empty ones
      included, and whatever the verdicts drawn in between. */
  lemma {:induction false} ChunksDoNotMatter(m: Model, reversed: bool, v: View, chunks: seq<bytes>)
    requires Usable(m) && Consistent(v)
    ensures SameCount(FeedAll(m, reversed, v, chunks), Scan(m, reversed, v, Flatten(FilteredAll(m, chunks))))
    decreases |chunks|
  {
    if chunks != [] {
      var first, rest := Filtered(m, chunks[0]), Flatten(FilteredAll(m, chunks[1..]));
      var w := Feed(m, reversed, v, chunks[0]);
      assert FilteredAll(m, chunks)[1..] == FilteredAll(m, chunks[1..]);
      assert Flatten(FilteredAll(m, chunks)) == first + rest;
      assert FeedAll(m, reversed, v, chunks) == FeedAll(m, reversed, w, chunks[1..]);
      hide Scan, Feed, FeedAll, Filtered, FilteredAll, Flatten, Consistent;
      ChunksDoNotMatter(m, reversed, w, chunks[1..]);
      FeedCounts(m, reversed, v, chunks[0]);
      ScanConcat(m, reversed, v, first, rest);
      ScanIgnoresVerdict(m, reversed, w, Scan(m, reversed, v, first), rest);
    }
  }

  // ----- Reversed text -----

  function Reverse<T>(s: seq<T>): seq<T> {
    if s == [] then [] else Reverse(s[1..]) + [s[0]]
  }

  function Orders(m: Model, s: bytes): (o: seq<nat>)
    ensures |o| == |s| && forall i :: 0 <= i < |s| ==> o[i] == m.charToOrder(s[i])
  {
    if s == [] then [] else Orders(m, s[..|s| - 1]) + [m.charToOrder(s[|s| - 1])]
  }

  /** Whether two neighbouring orders are a pair with the rating k: row `first` and column `second` of
      the table of 64 by 64 ratings, or row `second` and column `first` for a reversed detector. */
  predicate Hit(m: Model, reversed: bool, first: nat, second: nat, k: nat) {
    && first < 64 && second < 64
    && (!reversed ==> m.precedence(64 * first + second) == k)
    && (reversed ==> m.precedence(64 * second + first) == k)
  }

  predicate HitAt(m: Model, reversed: bool, o: seq<nat>, i: int, k: nat)
    requires 0 <= i < |o| - 1
  {
    Hit(m, reversed, o[i], o[i + 1], k)
  }

  /** The number of neighbours with the rating k. */
  function Hits(m: Model, reversed: bool, o: seq<nat>, k: nat): nat {
    if |o| < 2 then 0
    else Hits(m, reversed, o[..|o| - 1], k) + if Hit(m, reversed, o[|o| - 2], o[|o| - 1], k) then 1 else 0
  }

  function Below(o: seq<nat>, bound: nat): nat {
    if o == [] then 0 else Below(o[..|o| - 1], bound) + if o[|o| - 1] < bound then 1 else 0
  }

  lemma {:induction false} HitsFront(m: Model, reversed: bool, o: seq<nat>, k: nat)
    requires |o| >= 2
    ensures Hits(m, reversed, o, k) == Hits(m, reversed, o[1..], k) + if Hit(m, reversed, o[0], o[1], k) then 1 else 0
    decreases |o|
  {
    hide Hit;
    var n := |o| - 1;
    if n > 1 {
      HitsFront(m, reversed, o[..n], k);
      assert o[..n][1..] == o[1..][..n - 1];
    }
  }

  lemma {:induction false} BelowFront(o: seq<nat>, bound: nat)
    requires o != []
    ensures Below(o, bound) == Below(o[1..], bound) + if o[0] < bound then 1 else 0
    decreases |o|
  {
    var n := |o| - 1;
    if n > 0 {
      BelowFront(o[..n], bound);
      assert o[..n][1..] == o[1..][..n - 1];
    }
  }

  lemma {:induction false} HitsReverse(m: Model, o: seq<nat>, k: nat)
    ensures Hits(m, true, Reverse(o), k) == Hits(m, false, o, k)
  {
    if |o| >= 2 {
      HitsReverse(m, o[1..], k);
      HitsFront(m, false, o, k);
      var back := Reverse(o[1..]);
      assert back == Reverse(o[1..][1..]) + [o[1]];
      var all := Reverse(o);
      assert all[..|all| - 1] == back;
      assert Hit(m, true, o[1], o[0], k) == Hit(m, false, o[0], o[1], k);
    } else if |o| == 1 {
      assert Reverse(o[1..]) == [];
    }
  }

  lemma {:induction false} BelowReverse(o: seq<nat>, bound: nat)
    ensures Below(Reverse(o), bound) == Below(o, bound)
  {
    if o != [] {
      BelowReverse(o[1..], bound);
      BelowFront(o, bound);
      var all := Reverse(o);
      assert all[..|all| - 1] == Reverse(o[1..]);
    }
  }

  lemma {:induction false} OrdersReverse(m: Model, s: bytes)
    ensures Orders(m, Reverse(s)) == Reverse(Orders(m, s))
  {
    if s != [] {
      OrdersReverse(m, s[1..]);
      assert Orders(m, s)[1..] == Orders(m, s[1..]);
      assert Orders(m, Reverse(s)) == Orders(m, Reverse(s[1..])) + [m.charToOrder(s[0])];
    }
  }

  /** The counters are the tallies over all the neighbours and all the bytes with these orders. */
  predicate Tallied(m: Model, reversed: bool, v: View, o: seq<nat>) {
    && |v.seqCounters| == 4
    && v.lastOrder == (if o == [] then 255 else o[|o| - 1])
    && (forall k :: 0 <= k < 4 ==> v.seqCounters[k] == Hits(m, reversed, o, k))
    && v.freqChar == Below(o, 64)
    && v.totalChar == Below(o, 251)
    && v.verdict == DETECTING
  }

  lemma HitsLast(m: Model, reversed: bool, o: seq<nat>, last: nat, k: nat)
    ensures Hits(m, reversed, o + [last], k) ==
            Hits(m, reversed, o, k) + if o != [] && Hit(m, reversed, o[|o| - 1], last, k) then 1 else 0
  {
    assert (o + [last])[..|o|] == o;
    hide Hit;
  }

  lemma BelowLast(o: seq<nat>, last: nat, bound: nat)
    ensures Below(o + [last], bound) == Below(o, bound) + if last < bound then 1 else 0
  {
    assert (o + [last])[..|o|] == o;
  }

  lemma StepCounts(m: Model, reversed: bool, v: View, o: seq<nat>, c: byte)
    requires Usable(m) && Consistent(v) && Tallied(m, reversed, v, o)
    ensures Tallied(m, reversed, Step(m, reversed, v, c), o + [m.charToOrder(c)])
  {
    var order := m.charToOrder(c);
    BelowLast(o, order, 64);
    BelowLast(o, order, 251);
    forall k | 0 <= k < 4
      ensures Step(m, reversed, v, c).seqCounters[k] == Hits(m, reversed, o + [order], k)
    {
      HitsLast(m, reversed, o, order, k);
      hide Hits, Below;
    }
    hide Hits, Below;
  }

  lemma {:induction false} ScanTallies(m: Model, reversed: bool, s: bytes)
    requires Usable(m)
    ensures Tallied(m, reversed, Scan(m, reversed, FRESH, s), Orders(m, s))
    decreases |s|
  {
    if s != [] {
      hide Step, Consistent, Tallied;
      var n := |s| - 1;
      ScanTallies(m, reversed, s[..n]);
      StepCounts(m, reversed, Scan(m, reversed, FRESH, s[..n]), Orders(m, s[..n]), s[n]);
    }
  }

  /** The places where two neighbouring orders are a pair with the rating k. */
  function HitPlaces(m: Model, reversed: bool, o: seq<nat>, k: nat): set<int> {
    set i | 0 <= i < |o| - 1 && HitAt(m, reversed, o, i, k)
  }

  lemma LastPlace(m: Model, reversed: bool, o: seq<nat>, n: nat, k: nat)
    requires n == |o| - 1 && n >= 1
    ensures n - 1 !in HitPlaces(m, reversed, o[..n], k)
    ensures HitPlaces(m, reversed, o, k) ==
            HitPlaces(m, reversed, o[..n], k) + if Hit(m, reversed, o[n - 1], o[n], k) then {n - 1} else {}
  {
    hide Hit;
    forall i | 0 <= i < n - 1 ensures HitAt(m, reversed, o[..n], i, k) == HitAt(m, reversed, o, i, k) {}
  }

  lemma {:induction false} HitsAreCounted(m: Model, reversed: bool, o: seq<nat>, k: nat)
    ensures Hits(m, reversed, o, k) == |HitPlaces(m, reversed, o, k)|
    decreases |o|
  {
    if |o| < 2 {
      assert HitPlaces(m, reversed, o, k) == {};
    } else {
      HitsAreCounted(m, reversed, o[..|o| - 1], k);
      LastPlace(m, reversed, o, |o| - 1, k);
      hide Hit, HitPlaces;
    }
  }

  lemma {:induction false} BelowIsCounted(o: seq<nat>, bound: nat)
    ensures Below(o, bound) == |set i | 0 <= i < |o| && o[i] < bound|
    decreases |o|
  {
    var all := set i | 0 <= i < |o| && o[i] < bound;
    if o == [] {
      assert all == {};
    } else {
      var n := |o| - 1;
      var front := o[..n];
      BelowIsCounted(front, bound);
      var before := set i | 0 <= i < |front| && front[i] < bound;
      assert all == before + if o[n] < bound then {n} else {};
    }
  }

  /** Counter k is the number of neighbours i and i + 1 that both are among the 64 frequent letters and
      whose rating is k; the others count the frequent letters, and the bytes that are letters at all. */
  lemma ScanMeaning(m: Model, reversed: bool, s: bytes)
    requires Usable(m)
    ensures
      var o, w := Orders(m, s), Scan(m, reversed, FRESH, s);
      && (forall k :: 0 <= k < 4 ==>
            w.seqCounters[k] == |set i | 0 <= i < |o| - 1 && HitAt(m, reversed, o, i, k)|)
      && w.totalSeqs == w.seqCounters[0] + w.seqCounters[1] + w.seqCounters[2] + w.seqCounters[3]
      && w.freqChar == |set i | 0 <= i < |o| && o[i] < 64|
      && w.totalChar == |set i | 0 <= i < |o| && o[i] < 251|
      && w.lastOrder == (if o == [] then 255 else o[|o| - 1])
      && w.verdict == DETECTING
  {
    ScanTallies(m, reversed, s);
    hide Step, Scan, HitAt, Hits, Below, Orders;
    var o := Orders(m, s);
    forall k | 0 <= k < 4
      ensures Hits(m, reversed, o, k) == |set i | 0 <= i < |o| - 1 && HitAt(m, reversed, o, i, k)|
    {
      HitsAreCounted(m, reversed, o, k);
    }
    BelowIsCounted(o, 64);
    BelowIsCounted(o, 251);
  }

  /** A reversed detector that reads a text backwards counts what a forward detector counts on the text. */
  lemma ReversedCounts(m: Model, s: bytes)
    requires Usable(m)
    ensures
      var forward, backward := Scan(m, false, FRESH, s), Scan(m, true, FRESH, Reverse(s));
      backward == forward.(lastOrder := backward.lastOrder)
  {
    assert Consistent(FRESH);
    hide Scan, Orders, Reverse, Hits, Below, Consistent;
    var o := Orders(m, s);
    ScanTallies(m, false, s);
    ScanTallies(m, true, Reverse(s));
    OrdersReverse(m, s);
    BelowReverse(o, 64);
    BelowReverse(o, 251);
    forall k | 0 <= k < 4 ensures Hits(m, true, Reverse(o), k) == Hits(m, false, o, k) {
      HitsReverse(m, o, k);
    }
    SameViews(Scan(m, false, FRESH, s), Scan(m, true, FRESH, Reverse(s)));
  }

  lemma SameViews(v: View, w: View)
    requires Consistent(v) && Consistent(w) && v.verdict == w.verdict
    requires v.freqChar == w.freqChar && v.totalChar == w.totalChar
    requires forall k :: 0 <= k < 4 ==> v.seqCounters[k] == w.seqCounters[k]
    ensures w == v.(lastOrder := w.lastOrder)
  {
    assert v.seqCounters == w.seqCounters;
  }

  lemma ConcludeIgnoresLast(m: Model, v: View, w: View)
    requires Usable(m) && Consistent(v) && Consistent(w) && w == v.(lastOrder := w.lastOrder)
    ensures Conclude(m, w) == Conclude(m, v).(lastOrder := w.lastOrder)
    ensures Confidence(m, Conclude(m, w)) == Confidence(m, Conclude(m, v))
  {
    hide Share;
  }

  /** So a text that the filter leaves alone in both directions gets the same verdict and the same
      confidence either way. */
  lemma ReversedSimulates(m: Model, s: bytes)
    requires Usable(m) && Filtered(m, s) == s && Filtered(m, Reverse(s)) == Reverse(s)
    ensures
      var forward, backward := Feed(m, false, FRESH, s), Feed(m, true, FRESH, Reverse(s));
      && backward == forward.(lastOrder := backward.lastOrder)
      && Confidence(m, backward) == Confidence(m, forward)
  {
    ReversedCounts(m, s);
    if s != [] {
      ConcludeIgnoresLast(m, Scan(m, false, FRESH, s), Scan(m, true, FRESH, Reverse(s)));
    }
    hide Scan, Conclude, Confidence;
  }

  lemma Divided(x: real, y: real)
    requires x >= 0.0 && y > 0.0
    ensures x / y >= 0.0
  {}

  lemma Scaled(x: real, y: real)
    requires x >= 0.0 && y >= 0.0
    ensures x * y >= 0.0
  {}

  lemma ConfidenceRange(m: Model, v: View)
    requires Usable(m) && Consistent(v)
    ensures 0.0 <= Confidence(m, v) < 1.0
  {
    if v.totalSeqs > 0 {
      var p, n := v.seqCounters[POSITIVE] as real, v.totalSeqs as real;
      Divided(p, n);
      Divided(p / n, m.typicalPositiveRatio);
      Scaled(p / n / m.typicalPositiveRatio, v.freqChar as real);
      Divided(p / n / m.typicalPositiveRatio * v.freqChar as real, v.totalChar as real);
    }
  }

  // ----- Confidence and verdict in numbers -----

  lemma ShareTimes(positive: nat, seqs: nat, ratio: real, frequent: nat, total: nat)
    requires seqs > 0 && ratio > 0.0 && total > 0
    ensures seqs as real * ratio * total as real > 0.0
    ensures Share(positive, seqs, ratio, frequent, total) * (seqs as real * ratio * total as real)
         == positive as real * frequent as real
  {
    var p, n, f, t := positive as real, seqs as real, frequent as real, total as real;
    Undivided(p, n);
    Undivided(p / n, ratio);
    Undivided(p / n / ratio * f, t);
    Regroup(p / n, p / n / ratio, Share(positive, seqs, ratio, frequent, total), n, ratio, f, t, p);
    assert n * ratio > 0.0;
  }

  lemma Undivided(x: real, y: real)
    requires y != 0.0
    ensures (x / y) * y == x
  {}

  lemma Regroup(a: real, b: real, d: real, n: real, ratio: real, f: real, t: real, p: real)
    requires a * n == p && b * ratio == a && d * t == b * f
    ensures d * (n * ratio * t) == p * f
  {
    calc {
      d * (n * ratio * t);
      (d * t) * (n * ratio);
      (b * f) * (n * ratio);
      (b * ratio) * (n * f);
      (a * n) * f;
    }
  }

  lemma Compared(r: real, bound: real, y: real)
    requires y > 0.0
    ensures r > bound <==> r * y > bound * y
    ensures r < bound <==> r * y < bound * y
  {}

  /** The number of well-rated pairs, times the number of frequent letters. */
  ghost function Score(v: View): real
    requires Consistent(v)
  {
    v.seqCounters[3] as real * v.freqChar as real
  }

  /** What that score would be for text whose letters are all frequent, with the typical share of
      well-rated pairs. */
  ghost function TypicalScore(m: Model, v: View): real {
    v.totalSeqs as real * m.typicalPositiveRatio * v.totalChar as real
  }

  lemma RatingTimes(m: Model, v: View) returns (r: real)
    requires Usable(m) && Consistent(v) && v.totalSeqs > 0
    ensures TypicalScore(m, v) > 0.0 && r * TypicalScore(m, v) == Score(v)
    ensures Confidence(m, v) == if r >= 1.0 then 0.99 else r
  {
    r := Share(v.seqCounters[3], v.totalSeqs, m.typicalPositiveRatio, v.freqChar, v.totalChar);
    ShareTimes(v.seqCounters[3], v.totalSeqs, m.typicalPositiveRatio, v.freqChar, v.totalChar);
    hide Share;
  }

  /** Below 1, the confidence is the score as a part of the typical score; it never gets to 1. */
  lemma ConfidenceMeaning(m: Model, v: View)
    requires Usable(m) && Consistent(v)
    ensures v.totalSeqs == 0 ==> Confidence(m, v) == 0.01
    ensures v.totalSeqs > 0 && Score(v) >= TypicalScore(m, v) ==> Confidence(m, v) == 0.99
    ensures v.totalSeqs > 0 && Score(v) < TypicalScore(m, v) ==> Confidence(m, v) * TypicalScore(m, v) == Score(v)
  {
    if v.totalSeqs > 0 {
      var r := RatingTimes(m, v);
      hide Confidence, Score, TypicalScore, Consistent, Usable;
      Capped(Confidence(m, v), r, Score(v), TypicalScore(m, v));
    }
  }

  lemma Capped(confidence: real, r: real, x: real, y: real)
    requires y > 0.0 && r * y == x && confidence == if r >= 1.0 then 0.99 else r
    ensures x >= y ==> confidence == 0.99
    ensures x < y ==> confidence * y == x
  {
    Compared(r, 1.0, y);
    if r < 1.0 { assert confidence == r; }
  }

  /** When the counters say that the encoding is found, or ruled out. */
  ghost predicate Convincing(m: Model, v: View)
    requires Consistent(v)
  {
    v.totalSeqs > 1024 && Score(v) > 0.95 * TypicalScore(m, v)
  }

  ghost predicate Unconvincing(m: Model, v: View)
    requires Consistent(v)
  {
    v.totalSeqs > 1024 && Score(v) < 0.05 * TypicalScore(m, v)
  }

  lemma ConcludeMeaning(m: Model, v: View)
    requires Usable(m) && Consistent(v)
    ensures SameCount(Conclude(m, v), v)
    ensures v.verdict != DETECTING ==> Conclude(m, v).verdict == v.verdict
    ensures v.verdict == DETECTING ==>
      Conclude(m, v).verdict ==
      if Convincing(m, v) then FOUND_IT else if Unconvincing(m, v) then NOT_ME else DETECTING
  {
    if v.verdict == DETECTING && v.totalSeqs > 1024 {
      var r := RatingTimes(m, v);
      hide Confidence, Score, TypicalScore, Usable, Consistent;
      Decided(Confidence(m, v), r, Score(v), TypicalScore(m, v));
    }
  }

  lemma Decided(confidence: real, r: real, x: real, y: real)
    requires y > 0.0 && r * y == x && confidence == if r >= 1.0 then 0.99 else r
    ensures confidence > 0.95 <==> x > 0.95 * y
    ensures confidence < 0.05 <==> x < 0.05 * y
  {
    Compared(r, 0.95, y);
    Compared(r, 0.05, y);
    assert confidence > 0.95 <==> r > 0.95;
    assert confidence < 0.05 <==> r < 0.05;
  }

  lemma {:induction false} ScanKeepsVerdict(m: Model, reversed: bool, v: View, s: bytes)
    requires Usable(m) && Consistent(v)
    ensures Scan(m, reversed, v, s).verdict == v.verdict
    decreases |s|
  {
    if s != [] { ScanKeepsVerdict(m, reversed, v, s[..|s| - 1]); }
  }

  lemma SameScores(m: Model, v: View, w: View)
    requires Consistent(v) && Consistent(w) && SameCount(v, w)
    ensures Score(v) == Score(w) && TypicalScore(m, v) == TypicalScore(m, w) && v.totalSeqs == w.totalSeqs
  {}

  /** What a chunk does to a detector. The counters take in the chunk, or what the filter leaves of it.
      While there is no verdict, and if anything was left, more than 1024 pairs find the encoding with a
      score above 0.95 of the typical one and rule it out with one below 0.05. */
  lemma FeedMeaning(m: Model, reversed: bool, v: View, chunk: bytes)
    requires Usable(m) && Consistent(v)
    ensures
      var text := if m.keepEnglishLetter then chunk else m.internationalWords(chunk);
      var w := Feed(m, reversed, v, chunk);
      && SameCount(w, Scan(m, reversed, v, text))
      && w.verdict ==
         if v.verdict != DETECTING || text == [] then v.verdict
         else if Convincing(m, w) then FOUND_IT
         else if Unconvincing(m, w) then NOT_ME
         else DETECTING
  {
    var text := Filtered(m, chunk);
    var scanned := Scan(m, reversed, v, text);
    ScanIgnoresVerdict(m, reversed, v, v, text);
    ScanKeepsVerdict(m, reversed, v, text);
    FeedCounts(m, reversed, v, chunk);
    ConcludeMeaning(m, scanned);
    SameScores(m, scanned, Feed(m, reversed, v, chunk));
    hide Scan, Confidence, Conclude, Score, TypicalScore, Usable, Consistent;
  }
}
