/** The Big5 detector (`big5prober.py`): the general multi-byte detector with the Big5 automaton and
    the Big5 character order. */
module Big5 {
  import opened Bytes
  import opened Distribution
  import opened MultiByte
  import opened StateMachines
  import opened Streams

  /** The characters that the automaton lets through. */
  predicate Character(u: bytes) {
    match |u|
    case 1 => u[0] < 0x80 && u[0] !in {0x0E, 0x0F, 0x1B}
    case 2 => 0xA1 <= u[0] <= 0xFE && Big5Second(u[1])
    case _ => false
  }

  predicate Characters(chars: seq<bytes>) {
    forall u :: u in chars ==> Character(u)
  }

  ghost predicate IsText(s: bytes) {
    exists chars: seq<bytes> :: Characters(chars) && Flatten(chars) == s
  }

  ghost predicate ForBig5(d: Language) {
    Usable(d) && forall first, second :: d.order(first, second) == Big5Order(first, second)
  }

  /** An order that the table ranks among the 512 most frequent characters. */
  predicate Among512(d: Language, order: int)
    requires Usable(d)
  {
    0 <= order < d.tableSize && d.freqOrder[order] < 512
  }

  /** The tally that a list of characters should give: two-byte characters from lead byte 0xA4 on. */
  ghost function Count(d: Language, chars: seq<bytes>): Tally
    requires ForBig5(d) && Characters(chars)
  {
    if chars == [] then
      Tally(0, 0)
    else
      var rest := Count(d, chars[1..]);
      if |chars[0]| == 2 && chars[0][0] >= 0xA4 then
        var order := Big5Order(chars[0][0], chars[0][1]);
        Tally(rest.total + 1, rest.frequent + if Among512(d, order) then 1 else 0)
      else
        rest
  }

  lemma ScanSingle(d: Language, v: View, previous: byte, u: bytes, rest: bytes)
    requires ForBig5(d) && v.reading.state == START && Character(u) && |u| == 1
    ensures Scan(Big5Model(), d, v, previous, u + rest) ==
            Scan(Big5Model(), d, v.(reading := Reading(START, 1)), u[0], rest)
  {
    assert (u + rest)[1..] == rest;
    assert Next(Big5Model(), v.reading, u[0]) == Reading(START, 1);
    hide Next;
  }

  lemma ScanDouble(d: Language, v: View, previous: byte, u: bytes, rest: bytes)
    requires Usable(d) && v.reading.state == START && Character(u) && |u| == 2
    ensures Scan(Big5Model(), d, v, previous, u + rest) ==
            Scan(Big5Model(), d, v.(reading := Reading(START, 2), tally := Observe(d, v.tally, u[0], u[1], 2)),
                 u[1], rest)
  {
    var s := u + rest;
    assert s[1..] == [u[1]] + rest && s[1..][1..] == rest && s[0] == u[0];
    assert Next(Big5Model(), v.reading, u[0]) == Reading(3, 2);
    assert Next(Big5Model(), Reading(3, 2), u[1]) == Reading(START, 2);
    hide Observe, Next;
  }

  /** On whole characters the detector counts exactly what `Count` says, whatever came before. */
  lemma {:induction false} ScanText(d: Language, v: View, previous: byte, chars: seq<bytes>)
    requires ForBig5(d) && v.reading.state == START && Characters(chars)
    ensures
      var w := Scan(Big5Model(), d, v, previous, Flatten(chars));
      && w.reading.state == START && w.verdict == v.verdict
      && w.tally.total == v.tally.total + Count(d, chars).total
      && w.tally.frequent == v.tally.frequent + Count(d, chars).frequent
    decreases |chars|
  {
    if chars != [] {
      var u, rest := chars[0], chars[1..];
      assert u in chars;
      if |u| == 1 {
        ScanSingle(d, v, previous, u, Flatten(rest));
        ScanText(d, v.(reading := Reading(START, 1)), u[0], rest);
      } else {
        ScanDouble(d, v, previous, u, Flatten(rest));
        ScanText(d, v.(reading := Reading(START, 2), tally := Observe(d, v.tally, u[0], u[1], 2)), u[1], rest);
      }
    }
  }

  /** Fed a text in any chunks, a new detector ends with the count of its characters and has not given up. */
  lemma CountsText(d: Language, chars: seq<bytes>, chunks: seq<bytes>)
    requires ForBig5(d) && Characters(chars) && Flatten(chunks) == Flatten(chars)
    requires chunks != [] && NonEmpty(chunks)
    ensures FeedAll(Big5Model(), d, FRESH, chunks).tally == Count(d, chars)
    ensures FeedAll(Big5Model(), d, FRESH, chunks).verdict != NOT_ME
  {
    Big5Counts();
    ChunksDoNotMatter(Big5Model(), d, FRESH, chunks);
    ScanText(d, FRESH, 0, chars);
  }

  /** As long as the automaton has not failed, the stream is a text and perhaps one lead byte. */
  lemma {:induction false} Decompose(d: Language, s: bytes) returns (chars: seq<bytes>, tail: bytes)
    requires ForBig5(d) && Scan(Big5Model(), d, FRESH, 0, s).reading.state != ERROR
    ensures Characters(chars) && s == Flatten(chars) + tail
    ensures
      var state := Scan(Big5Model(), d, FRESH, 0, s).reading.state;
      || (state == START && tail == [])
      || (state == 3 && |tail| == 1 && 0xA1 <= tail[0] <= 0xFE)
    decreases |s|
  {
    if s == [] {
      return [], [];
    }
    var before, c := s[..|s| - 1], s[|s| - 1];
    assert s == before + [c];
    var v := Scan(Big5Model(), d, FRESH, 0, before);
    LastByte(d, before, c);
    hide Scan, Next, Big5Model, Flatten;
    chars, tail := Decompose(d, before);
    LastState(v.reading, tail, c);
    if Next(Big5Model(), v.reading, c).state == START {
      FlattenAppend(chars, tail + [c]);
      chars, tail := chars + [tail + [c]], [];
      assert s == Flatten(chars) + tail;
    } else {
      tail := [c];
    }
  }

  lemma LastByte(d: Language, before: bytes, c: byte)
    requires ForBig5(d)
    ensures
      var v, w := Scan(Big5Model(), d, FRESH, 0, before), Scan(Big5Model(), d, FRESH, 0, before + [c]);
      w.reading == Next(Big5Model(), v.reading, c) && (v.reading.state == ERROR ==> w.reading.state == ERROR)
  {
    Big5Counts();
    if before == [] {
      assert before + [c] == [c];
    } else {
      ScanConcat(Big5Model(), d, FRESH, 0, before, [c]);
      var v := Scan(Big5Model(), d, FRESH, 0, before);
      StaysFinal(Big5Model(), v.reading, c);
    }
    assert [c][1..] == [];
    hide Next, Big5Model;
  }

  lemma LastState(r: Reading, tail: bytes, c: byte)
    requires (r.state == START && tail == []) || (r.state == 3 && |tail| == 1 && 0xA1 <= tail[0] <= 0xFE)
    requires Next(Big5Model(), r, c).state != ERROR
    ensures
      var state := Next(Big5Model(), r, c).state;
      if state == START then Character(tail + [c]) else state == 3 && tail == [] && 0xA1 <= c <= 0xFE
  {}

  /** A new detector rejects a stream exactly when no continuation makes it a text. */
  lemma RejectsExactly(d: Language, s: bytes)
    requires ForBig5(d) && s != []
    ensures Feed(Big5Model(), d, FRESH, s).verdict == NOT_ME <==> !exists w: bytes :: IsText(s + w)
  {
    Big5Counts();
    FeedConsistent(Big5Model(), d, FRESH, s);
    var v := Scan(Big5Model(), d, FRESH, 0, s);
    if v.reading.state == ERROR {
      forall w: bytes ensures !IsText(s + w) {
        NoTextAfterError(d, s, w);
      }
    } else {
      hide Scan, Flatten;
      var chars, tail := Decompose(d, s);
      if tail == [] {
        assert s + [] == Flatten(chars);
      } else {
        FlattenAppend(chars, tail + [0x40]);
        assert s + [0x40] == Flatten(chars + [tail + [0x40]]);
      }
    }
  }

  lemma NoTextAfterError(d: Language, s: bytes, w: bytes)
    requires ForBig5(d) && s != [] && Scan(Big5Model(), d, FRESH, 0, s).reading.state == ERROR
    ensures !IsText(s + w)
  {
    Big5Counts();
    var v := Scan(Big5Model(), d, FRESH, 0, s);
    ScanConcat(Big5Model(), d, FRESH, 0, s, w);
    if w != [] {
      StaysFinal(Big5Model(), v.reading, w[0]);
    }
    if chars: seq<bytes> :| Characters(chars) && Flatten(chars) == s + w {
      ScanText(d, FRESH, 0, chars);
    }
  }

  /** A count that finds the encoding: more than 1024 characters, of which more than three are frequent
      and the other ones, weighted with the ratio of the language, are few. */
  ghost predicate Convincing(d: Language, t: Tally) {
    && t.total > 1024 && 3 < t.frequent <= t.total
    && (t.frequent == t.total || t.frequent as real > 0.95 * ((t.total - t.frequent) as real * d.typicalRatio))
  }

  lemma {:induction false} CountOrdered(d: Language, chars: seq<bytes>)
    requires ForBig5(d) && Characters(chars)
    ensures Count(d, chars).frequent <= Count(d, chars).total
  {
    if chars != [] { CountOrdered(d, chars[1..]); }
  }

  /** On a text fed whole, the verdict follows from the count of its characters. */
  lemma VerdictOnText(d: Language, chars: seq<bytes>)
    requires ForBig5(d) && Characters(chars) && Flatten(chars) != []
    ensures
      Feed(Big5Model(), d, FRESH, Flatten(chars)).verdict ==
      if Convincing(d, Count(d, chars)) then FOUND_IT else DETECTING
  {
    hide Confidence, Big5Model, Flatten;
    ScanText(d, FRESH, 0, chars);
    CountOrdered(d, chars);
    ConfidentExactly(d, Count(d, chars));
    FeedWhileSearching(Big5Model(), d, FRESH, Flatten(chars));
    assert Feed(Big5Model(), d, FRESH, Flatten(chars)).tally == Count(d, chars);
  }

  function Repeat(u: bytes, n: nat): seq<bytes> {
    if n == 0 then [] else [u] + Repeat(u, n - 1)
  }

  /** So many copies of one character, then the rest. */
  lemma {:induction false} CountRepeat(d: Language, u: bytes, n: nat, rest: seq<bytes>)
    requires ForBig5(d) && Character(u) && |u| == 2 && u[0] >= 0xA4 && Characters(rest)
    ensures Characters(Repeat(u, n) + rest)
    ensures
      var t := Count(d, rest);
      Count(d, Repeat(u, n) + rest) ==
      Tally(t.total + n, t.frequent + if Among512(d, Big5Order(u[0], u[1])) then n else 0)
  {
    if n == 0 {
      assert Repeat(u, n) + rest == rest;
    } else {
      hide Among512, Big5Order, Character;
      CountRepeat(d, u, n - 1, rest);
      assert (Repeat(u, n) + rest)[1..] == Repeat(u, n - 1) + rest;
      assert forall v :: v in Repeat(u, n) + rest ==> v == u || v in Repeat(u, n - 1) + rest;
    }
  }

  const FREQUENT: bytes := [0xA4, 0x40]
  const RARE: bytes := [0xA4, 0x41]

  /** A text of 428 times the most frequent character and then some copies of a rare one. */
  function Sample(rare: nat): seq<bytes> {
    Repeat(FREQUENT, 428) + (Repeat(RARE, rare) + [])
  }

  /** The ratio, the size and the first two ranks of the Big5 table. */
  ghost predicate WithBig5Table(d: Language) {
    && ForBig5(d) && d.typicalRatio == 0.75 && d.tableSize == 5376
    && d.freqOrder[0] == 1 && d.freqOrder[1] == 1801
  }

  lemma SampleVerdict(d: Language, rare: nat)
    requires WithBig5Table(d) && rare > 0
    ensures Characters(Sample(rare)) && Flatten(Sample(rare)) != []
    ensures
      Feed(Big5Model(), d, FRESH, Flatten(Sample(rare))).verdict ==
      if Convincing(d, Tally(428 + rare, 428)) then FOUND_IT else DETECTING
  {
    hide Confidence, Feed, Repeat;
    assert Big5Order(0xA4, 0x40) == 0 && Big5Order(0xA4, 0x41) == 1;
    CountRepeat(d, RARE, rare, []);
    CountRepeat(d, FREQUENT, 428, Repeat(RARE, rare) + []);
    assert Count(d, []) == Tally(0, 0);
    if Flatten(Sample(rare)) == [] {
      ScanText(d, FRESH, 0, Sample(rare));
    }
    VerdictOnText(d, Sample(rare));
  }

  /** The verdict that the encoding is found does depend on the chunks. After 600 rare characters the
      confidence is above the threshold, and with one more it is not: a boundary between them decides
      it, and one feed of the whole text does not. */
  lemma FoundDependsOnChunks(d: Language)
    requires WithBig5Table(d)
    ensures
      var chunks := [Flatten(Sample(600)), RARE];
      && NonEmpty(chunks) && Flatten(chunks) == Flatten(Sample(601))
      && FeedAll(Big5Model(), d, FRESH, chunks).verdict == FOUND_IT
      && Feed(Big5Model(), d, FRESH, Flatten(chunks)).verdict == DETECTING
  {
    SampleVerdict(d, 600);
    SampleVerdict(d, 601);
    Thresholds(d);
    SampleGrows(600);
    Big5Counts();
    hide Feed, FeedAll, Flatten, Sample, ForBig5, Big5Model;
    FoundByFirstChunk(Big5Model(), d, FRESH, Flatten(Sample(600)), RARE);
  }

  lemma SampleGrows(rare: nat)
    ensures Flatten(Sample(rare)) + RARE == Flatten(Sample(rare + 1))
  {
    FlattenAppend(Sample(rare), RARE);
    RepeatLast(RARE, rare);
    assert Sample(rare) + [RARE] == Sample(rare + 1);
  }

  lemma {:induction false} RepeatLast(u: bytes, n: nat)
    ensures Repeat(u, n) + [u] == Repeat(u, n + 1)
  {
    if n > 0 {
      RepeatLast(u, n - 1);
    }
  }

  lemma Thresholds(d: Language)
    requires Usable(d) && d.typicalRatio == 0.75
    ensures Convincing(d, Tally(1028, 428)) && !Convincing(d, Tally(1029, 428))
  {}
}
