/** The UTF-8 detector (`utf8prober.py`) and the language its automaton accepts. */
module Utf8 {
  import opened Bytes
  import opened StateMachines
  import opened Streams

  const ONE_CHAR_PROB := 0.5
  const SHORTCUT_THRESHOLD := 0.95

  /** What the detector remembers. */
  datatype View = View(reading: Reading, multiByte: nat, verdict: ProbingState)

  const FRESH := View(Reading(START, 0), 0, DETECTING)

  function Power(n: nat): real {
    if n == 0 then 1.0 else ONE_CHAR_PROB * Power(n - 1)
  }

  function Confidence(multiByte: nat): real {
    if multiByte < 6 then 1.0 - 0.99 * Power(multiByte) else 0.99
  }

  /** The loop over the bytes, which a final state ends early. */
  function Scan(v: View, s: bytes): View
    decreases |s|
  {
    if s == [] then
      v
    else
      var r := Next(Utf8Model(), v.reading, s[0]);
      if r.state == ERROR then
        v.(reading := r, verdict := NOT_ME)
      else if r.state == ITS_ME then
        v.(reading := r, verdict := FOUND_IT)
      else if r.state == START && r.charLen >= 2 then
        Scan(v.(reading := r, multiByte := v.multiByte + 1), s[1..])
      else
        Scan(v.(reading := r), s[1..])
  }

  /** The verdict after a chunk: a detector that is confident enough stops looking. */
  function Conclude(v: View): View {
    if v.verdict == DETECTING && Confidence(v.multiByte) > SHORTCUT_THRESHOLD then v.(verdict := FOUND_IT) else v
  }

  function Feed(v: View, chunk: bytes): View {
    Conclude(Scan(v, chunk))
  }

  class UTF8Prober {
    const codingSm: CodingStateMachine
    var numMultiByteChars: nat
    var state: ProbingState

    ghost predicate Valid() {
      codingSm.model == Utf8Model()
    }

    function Current(): View
      reads this, codingSm
    {
      View(codingSm.Current(), numMultiByteChars, state)
    }

    constructor ()
      ensures Valid() && fresh(codingSm) && Current() == FRESH
    {
      codingSm := new CodingStateMachine(Utf8Model());
      state := DETECTING;
      numMultiByteChars := 0;
    }

    method Reset()
      modifies this, codingSm
      ensures Current() == FRESH.(reading := old(codingSm.Current()).(state := START))
    {
      state := DETECTING;
      codingSm.Reset();
      numMultiByteChars := 0;
    }

    method FeedChunk(chunk: bytes) returns (verdict: ProbingState)
      requires Valid()
      modifies this, codingSm
      ensures Current() == Feed(old(Current()), chunk) && verdict == state
    {
      hide Utf8State, Utf8Class, Utf8CharLen, Confidence;
      ghost var before := Current();
      for i := 0 to |chunk|
        invariant Scan(before, chunk) == Scan(Current(), chunk[i..])
      {
        var codingState := codingSm.NextState(chunk[i]);
        assert chunk[i..][1..] == chunk[i + 1..];
        if codingState == ERROR {
          state := NOT_ME;
          assert Current() == Scan(before, chunk);
          break;
        } else if codingState == ITS_ME {
          state := FOUND_IT;
          assert Current() == Scan(before, chunk);
          break;
        } else if codingState == START {
          var charLen := codingSm.GetCurrentCharLen();
          if charLen >= 2 {
            numMultiByteChars := numMultiByteChars + 1;
          }
        }
      }
      assert Current() == Scan(before, chunk);
      if state == DETECTING {
        var confidence := GetConfidence();
        if confidence > SHORTCUT_THRESHOLD {
          state := FOUND_IT;
        }
      }
      return state;
    }

    method GetConfidence() returns (r: real)
      ensures r == Confidence(numMultiByteChars)
    {
      var unlike := 0.99;
      if numMultiByteChars < 6 {
        unlike := unlike * Power(numMultiByteChars);
        return 1.0 - unlike;
      } else {
        return unlike;
      }
    }
  }

  /** Five multi-byte characters are enough, and four are not. */
  lemma ConfidentExactly(n: nat)
    ensures Confidence(n) > SHORTCUT_THRESHOLD <==> n >= 5
    ensures 0.0 < Confidence(n) < 1.0
  {
    assert Power(1) == 0.5 && Power(2) == 0.25 && Power(3) == 0.125 && Power(4) == 0.0625;
    assert Power(5) == 0.03125;
  }

  /** The confidence starts at 0.01 and every multi-byte character halves the doubt, up to five; from six
      on it is 0.99. */
  lemma ConfidenceValues(n: nat)
    ensures Confidence(0) == 0.01
    ensures n < 5 ==> 1.0 - Confidence(n + 1) == (1.0 - Confidence(n)) / 2.0
    ensures n >= 6 ==> Confidence(n) == 0.99
    ensures Confidence(n) <= Confidence(n + 1)
  {
    assert Power(1) == 0.5 && Power(2) == 0.25 && Power(3) == 0.125 && Power(4) == 0.0625;
    assert Power(5) == 0.03125;
  }

  // ----- Chunks -----

  /** What every sequence of chunks keeps: the verdict is decided by the state and the count. */
  predicate Settled(v: View) {
    v.verdict == if v.reading.state == ERROR then NOT_ME
                 else if v.reading.state == ITS_ME || v.multiByte >= 5 then FOUND_IT
                 else DETECTING
  }

  /** The state before the verdict of a chunk is drawn. */
  predicate Pending(v: View) {
    && (v.verdict == NOT_ME <==> v.reading.state == ERROR)
    && (v.reading.state == ITS_ME ==> v.verdict == FOUND_IT)
    && (v.verdict == FOUND_IT ==> v.reading.state == ITS_ME || v.multiByte >= 5)
  }

  lemma {:induction false} ScanPending(v: View, s: bytes)
    requires Pending(v)
    ensures Pending(Scan(v, s))
    decreases |s|
  {
    hide Utf8State, Utf8Class, Utf8CharLen;
    if s != [] {
      StaysFinal(v.reading, s[0]);
      var r := Next(Utf8Model(), v.reading, s[0]);
      if r.state !in {ERROR, ITS_ME} {
        if r.state == START && r.charLen >= 2 {
          ScanPending(v.(reading := r, multiByte := v.multiByte + 1), s[1..]);
        } else {
          ScanPending(v.(reading := r), s[1..]);
        }
      }
    }
  }

  lemma StaysFinal(r: Reading, c: byte)
    ensures r.state in {ERROR, ITS_ME} ==> Next(Utf8Model(), r, c) == r
  {
    Utf8Counts();
    assert Utf8Model().classTable(c) == Utf8Class(c);
  }

  lemma FeedSettles(v: View, s: bytes)
    requires Pending(v)
    ensures Settled(Feed(v, s)) && Pending(Feed(v, s))
  {
    ScanPending(v, s);
    ConfidentExactly(Scan(v, s).multiByte);
  }

  /** The verdict plays no part in reading. */
  lemma {:induction false} ScanIgnoresVerdict(v: View, w: View, s: bytes)
    requires v.reading == w.reading && v.multiByte == w.multiByte
    ensures Scan(v, s).reading == Scan(w, s).reading && Scan(v, s).multiByte == Scan(w, s).multiByte
    decreases |s|
  {
    hide Utf8Model;
    if s != [] {
      var r := Next(Utf8Model(), v.reading, s[0]);
      if r.state == START && r.charLen >= 2 {
        var n := v.multiByte + 1;
        ScanIgnoresVerdict(v.(reading := r, multiByte := n), w.(reading := r, multiByte := n), s[1..]);
      } else if r.state !in {ERROR, ITS_ME} {
        ScanIgnoresVerdict(v.(reading := r), w.(reading := r), s[1..]);
      }
    }
  }

  lemma {:induction false} ScanConcat(v: View, s: bytes, t: bytes)
    requires Pending(v)
    ensures Scan(v, s + t).reading == Scan(Scan(v, s), t).reading
    ensures Scan(v, s + t).multiByte == Scan(Scan(v, s), t).multiByte
    decreases |s|
  {
    hide Utf8State, Utf8Class, Utf8CharLen;
    if s == [] {
      assert s + t == t;
    } else {
      assert (s + t)[1..] == s[1..] + t;
      StaysFinal(v.reading, s[0]);
      var r := Next(Utf8Model(), v.reading, s[0]);
      if r.state in {ERROR, ITS_ME} {
        if t != [] {
          StaysFinal(r, t[0]);
        }
      } else if r.state == START && r.charLen >= 2 {
        ScanConcat(v.(reading := r, multiByte := v.multiByte + 1), s[1..], t);
      } else {
        ScanConcat(v.(reading := r), s[1..], t);
      }
    }
  }

  /** Two chunks or one: the detector ends in the same state with the same verdict. */
  lemma FeedTwice(v: View, s: bytes, t: bytes)
    requires Pending(v)
    ensures Feed(Feed(v, s), t) == Feed(v, s + t)
  {
    FeedSettles(v, s);
    FeedSettles(Feed(v, s), t);
    FeedSettles(v, s + t);
    ScanConcat(v, s, t);
    ScanIgnoresVerdict(Scan(v, s), Feed(v, s), t);
  }

  function FeedAll(v: View, chunks: seq<bytes>): View
    decreases |chunks|
  {
    if chunks == [] then v else FeedAll(Feed(v, chunks[0]), chunks[1..])
  }

  /** However a stream is cut, empty chunks included, the detector ends as if it had been fed whole. */
  lemma {:induction false} ChunksDoNotMatter(v: View, chunks: seq<bytes>)
    requires Pending(v) && Settled(v)
    ensures FeedAll(v, chunks) == Feed(v, Flatten(chunks))
    decreases |chunks|
  {
    if chunks == [] {
      ConfidentExactly(v.multiByte);
    } else {
      FeedSettles(v, chunks[0]);
      ChunksDoNotMatter(Feed(v, chunks[0]), chunks[1..]);
      FeedTwice(v, chunks[0], Flatten(chunks[1..]));
    }
  }

  // ----- The language -----

  predicate Between(low: nat, b: byte, high: nat) {
    low <= b <= high
  }

  predicate Continuations(s: bytes) {
    forall i :: 0 <= i < |s| ==> Between(0x80, s[i], 0xBF)
  }

  /** The encoded characters that the detector knows, by the number of their bytes: those of UTF-8
      except U+000E, U+000F, U+001B and everything that starts F0 90 to F0 9F, and in addition the
      forms of four to six bytes beyond U+10FFFF. */
  predicate Character(u: bytes) {
    match |u|
    case 1 => u[0] < 0x80 && u[0] !in {0x0E, 0x0F, 0x1B}
    case 2 => Between(0xC2, u[0], 0xDF) && Continuations(u[1..])
    case 3 =>
      && Between(0xE0, u[0], 0xEF) && Continuations(u[1..])
      && (u[0] == 0xE0 ==> u[1] >= 0xA0) && (u[0] == 0xED ==> u[1] < 0xA0)
    case 4 => Between(0xF0, u[0], 0xF7) && Continuations(u[1..]) && (u[0] == 0xF0 ==> u[1] >= 0xA0)
    case 5 => Between(0xF8, u[0], 0xFB) && Continuations(u[1..]) && (u[0] == 0xF8 ==> u[1] >= 0x88)
    case 6 => Between(0xFC, u[0], 0xFD) && Continuations(u[1..]) && (u[0] == 0xFC ==> u[1] >= 0x84)
    case _ => false
  }

  predicate Characters(chars: seq<bytes>) {
    forall u :: u in chars ==> Character(u)
  }

  /** A stream of whole characters. */
  ghost predicate IsText(s: bytes) {
    exists chars: seq<bytes> :: Characters(chars) && Flatten(chars) == s
  }

  /** The bytes that a state within a character accepts next. */
  predicate Accepts(state: nat, b: byte) {
    match state
    case 8 => Between(0xA0, b, 0xBF)
    case 10 => Between(0xA0, b, 0xBF)
    case 11 => Between(0x80, b, 0x9F)
    case 6 => Between(0x88, b, 0xBF)
    case 4 => Between(0x84, b, 0xBF)
    case _ => Between(0x80, b, 0xBF)
  }

  function After(state: nat): nat {
    match state
    case 12 => START
    case 9 => 12
    case 10 => 12
    case 11 => 12
    case 7 => 9
    case 8 => 9
    case 5 => 7
    case 6 => 7
    case _ => 5
  }

  lemma WithinCharacter(state: nat, c: byte)
    requires 3 <= state <= 12
    ensures Utf8State(state * 16 + Utf8Class(c)) == if Accepts(state, c) then After(state) else ERROR
  {
    var k := Utf8Class(c);
    assert Accepts(state, c) <==>
           if state in {8, 10} then k == 5 else if state == 11 then 2 <= k <= 4 else if state == 6 then 4 <= k <= 5
           else if state == 4 then 3 <= k <= 5 else 2 <= k <= 5;
    hide Utf8Class, Accepts;
  }

  /** The state waits for exactly the bytes `w` to complete a character. */
  predicate Awaits(state: nat, w: bytes) {
    && (state == START || 3 <= state <= 12)
    && |w| == Utf8Rest(state)
    && Continuations(w)
    && (w != [] ==> Accepts(state, w[0]))
  }

  lemma AwaitsStep(state: nat, w: bytes)
    requires Awaits(state, w) && w != []
    ensures Awaits(Utf8State(state * 16 + Utf8Class(w[0])), w[1..])
  {
    WithinCharacter(state, w[0]);
    hide Utf8State, Utf8Class;
    assert forall i :: 0 <= i < |w[1..]| ==> w[1..][i] == w[i + 1];
  }

  /** The first byte of a character leads to the state that waits for the others. */
  lemma LeadByte(c: byte, w: bytes)
    ensures Awaits(Utf8State(Utf8Class(c)), w) <==> Character([c] + w)
    ensures Utf8State(Utf8Class(c)) == ERROR || START == Utf8State(Utf8Class(c)) || 3 <= Utf8State(Utf8Class(c)) <= 12
  {
    assert ([c] + w)[1..] == w && ([c] + w)[0] == c;
    assert w != [] ==> ([c] + w)[1] == w[0];
    assert Continuations(w) && w != [] ==> Between(0x80, w[0], 0xBF);
  }

  /** Part of the rest of a character. */
  lemma {:induction false} ScanWithin(v: View, s: bytes, w: bytes)
    requires 3 <= v.reading.state <= 12 && Awaits(v.reading.state, s + w) && v.reading.charLen >= 2
    ensures Awaits(Scan(v, s).reading.state, w)
    ensures w != [] ==> Scan(v, s) == v.(reading := Scan(v, s).reading)
    ensures w == [] ==> Scan(v, s) == v.(reading := Scan(v, s).reading, multiByte := v.multiByte + 1)
    ensures Scan(v, s).reading.charLen == v.reading.charLen
    decreases |s|
  {
    if s == [] {
      assert s + w == w;
    } else {
      assert (s + w)[1..] == s[1..] + w && (s + w)[0] == s[0];
      AwaitsStep(v.reading.state, s + w);
      var r := Next(Utf8Model(), v.reading, s[0]);
      hide Utf8State, Utf8Class, Accepts;
      if r.state == START {
        assert s[1..] + w == [];
        assert s[1..] == [];
      } else {
        ScanWithin(v.(reading := r), s[1..], w);
      }
    }
  }

  /** A character, or the beginning of one. */
  lemma ScanCharacter(v: View, s: bytes, w: bytes)
    requires v.reading.state == START && s != [] && Character(s + w)
    ensures Awaits(Scan(v, s).reading.state, w) && Scan(v, s).reading.charLen == |s + w|
    ensures Scan(v, s) == v.(reading := Scan(v, s).reading,
                             multiByte := v.multiByte + if w == [] && |s| >= 2 then 1 else 0)
  {
    var c, rest := s[0], s[1..] + w;
    assert s + w == [c] + rest;
    LeadByte(c, rest);
    Utf8Cell(START, Utf8Class(c));
    var r := Next(Utf8Model(), v.reading, c);
    assert r == Reading(Utf8State(Utf8Class(c)), Utf8CharLen(Utf8Class(c)));
    hide Utf8State, Utf8Class, Utf8CharLen, Accepts, Character;
    assert r.charLen == 1 + |rest|;
    if r.state == START {
      assert s[1..] + w == [];
      assert s[1..] == [] && w == [];
    } else {
      ScanWithin(v.(reading := r), s[1..], w);
    }
  }

  function MultiByteCount(chars: seq<bytes>): nat {
    if chars == [] then 0 else (if |chars[0]| >= 2 then 1 else 0) + MultiByteCount(chars[1..])
  }

  /** Whole characters, then perhaps the beginning of one. */
  lemma {:induction false} ScanText(v: View, chars: seq<bytes>, s: bytes, w: bytes)
    requires Pending(v) && v.reading.state == START && Characters(chars)
    requires if s == [] then w == [] else Character(s + w)
    requires s != [] ==> w != []
    ensures Awaits(Scan(v, Flatten(chars) + s).reading.state, w)
    ensures Scan(v, Flatten(chars) + s).multiByte == v.multiByte + MultiByteCount(chars)
    decreases |chars|
  {
    if chars == [] {
      assert Flatten(chars) + s == s;
      if s != [] {
        ScanCharacter(v, s, w);
      }
    } else {
      var first := chars[0];
      assert first + [] == first && first in chars;
      ScanCharacter(v, first, []);
      var after := Flatten(chars[1..]) + s;
      assert Flatten(chars) + s == first + after;
      ScanConcat(v, first, after);
      ScanPending(v, first);
      ScanText(Scan(v, first), chars[1..], s, w);
    }
  }

  /** What has been read of the character under way, if any. */
  ghost predicate Open(state: nat, s: bytes) {
    || (state == START && s == [])
    || (3 <= state <= 12 && s != [] && forall w: bytes :: Awaits(state, w) ==> Character(s + w))
  }

  lemma OpenStep(state: nat, s: bytes, c: byte)
    requires Open(state, s) && Utf8State(state * 16 + Utf8Class(c)) != ERROR
    ensures
      var next := Utf8State(state * 16 + Utf8Class(c));
      if next == START then Character(s + [c]) else Open(next, s + [c])
  {
    var next := Utf8State(state * 16 + Utf8Class(c));
    if state == START {
      LeadByte(c, []);
      assert s + [c] == [c] && [c] + [] == [c];
      hide Utf8State, Utf8Class, Accepts, Character;
      forall w: bytes | Awaits(next, w) ensures Character(s + [c] + w) {
        LeadByte(c, w);
      }
    } else {
      WithinCharacter(state, c);
      hide Utf8State, Utf8Class, Character;
      forall w: bytes | Awaits(next, w) ensures Character(s + [c] + w) {
        assert ([c] + w)[1..] == w && forall i :: 0 < i < |[c] + w| ==> ([c] + w)[i] == w[i - 1];
        assert Awaits(state, [c] + w);
        assert s + [c] + w == s + ([c] + w);
      }
      if next == START {
        assert Awaits(START, []);
        assert s + [c] + [] == s + [c];
      }
    }
  }

  lemma DecomposeStep(chars: seq<bytes>, tail: bytes, state: nat, c: byte) returns (chars': seq<bytes>, tail': bytes)
    requires Characters(chars) && Open(state, tail) && Utf8State(state * 16 + Utf8Class(c)) != ERROR
    ensures Characters(chars') && Flatten(chars') + tail' == Flatten(chars) + tail + [c]
    ensures Open(Utf8State(state * 16 + Utf8Class(c)), tail')
  {
    hide Utf8State, Utf8Class, Awaits, Character;
    OpenStep(state, tail, c);
    if Utf8State(state * 16 + Utf8Class(c)) == START {
      FlattenAppend(chars, tail + [c]);
      chars', tail' := chars + [tail + [c]], [];
    } else {
      chars', tail' := chars, tail + [c];
    }
  }

  /** As long as the automaton has not failed, the stream is a text and perhaps the beginning of a character. */
  lemma {:induction false} Decompose(s: bytes) returns (chars: seq<bytes>, tail: bytes)
    requires Scan(FRESH, s).reading.state != ERROR
    ensures Characters(chars) && s == Flatten(chars) + tail
    ensures Open(Scan(FRESH, s).reading.state, tail)
    decreases |s|
  {
    if s == [] {
      return [], [];
    }
    hide Utf8State, Utf8Class, Utf8CharLen, Scan, Open, Characters, Flatten;
    var before, c := s[..|s| - 1], s[|s| - 1];
    assert s == before + [c];
    ScanConcat(FRESH, before, [c]);
    var v := Scan(FRESH, before);
    ScanOne(v, c);
    if v.reading.state == ERROR {
      ScanFinal(v, [c]);
    }
    chars, tail := Decompose(before);
    chars, tail := DecomposeStep(chars, tail, v.reading.state, c);
  }

  lemma ScanOne(v: View, c: byte)
    ensures Scan(v, [c]).reading == Next(Utf8Model(), v.reading, c)
    ensures Scan(v, [c]).reading.state == Utf8State(v.reading.state * 16 + Utf8Class(c))
  {
    hide Utf8State, Utf8Class, Utf8CharLen;
    assert [c][1..] == [];
  }

  lemma {:induction false} ScanFinal(v: View, s: bytes)
    requires v.reading.state in {ERROR, ITS_ME}
    ensures Scan(v, s).reading == v.reading
  {
    if s != [] {
      StaysFinal(v.reading, s[0]);
    }
  }

  /** Every state within a character can still be completed. */
  lemma Completion(state: nat) returns (w: bytes)
    requires 3 <= state <= 12
    ensures Awaits(state, w)
  {
    var first: byte := if state == 11 then 0x80 else 0xA0;
    w := [first] + seq(Utf8Rest(state) - 1, _ => 0x80);
  }

  /** The detector rejects a stream exactly when no continuation makes it a text. */
  lemma RejectsExactly(s: bytes)
    ensures Feed(FRESH, s).verdict == NOT_ME <==> !exists w: bytes :: IsText(s + w)
  {
    hide Scan, Awaits, Character, IsText;
    FeedSettles(FRESH, s);
    if Scan(FRESH, s).reading.state == ERROR {
      forall w: bytes ensures !IsText(s + w) {
        NoTextAfterError(s, w);
      }
    } else {
      var w := TextAhead(s);
      assert IsText(s + w);
    }
  }

  lemma NoTextAfterError(s: bytes, w: bytes)
    requires Scan(FRESH, s).reading.state == ERROR
    ensures !IsText(s + w)
  {
    ScanConcat(FRESH, s, w);
    ScanFinal(Scan(FRESH, s), w);
    if chars: seq<bytes> :| Characters(chars) && Flatten(chars) == s + w {
      assert Flatten(chars) + [] == s + w;
      ScanText(FRESH, chars, [], []);
    }
  }

  lemma TextAhead(s: bytes) returns (w: bytes)
    requires Scan(FRESH, s).reading.state != ERROR
    ensures IsText(s + w)
  {
    var chars, tail := Decompose(s);
    var state := Scan(FRESH, s).reading.state;
    hide Scan, Awaits, Character;
    if state == START {
      assert s + [] == Flatten(chars);
      return [];
    }
    w := Completion(state);
    FlattenAppend(chars, tail + w);
    assert s + w == Flatten(chars + [tail + w]);
  }

  /** On a text, or a text with a character begun, the verdict depends on the number of whole
      multi-byte characters alone. */
  lemma VerdictOnText(chars: seq<bytes>, s: bytes, w: bytes)
    requires Characters(chars)
    requires if s == [] then w == [] else Character(s + w)
    requires s != [] ==> w != []
    ensures Feed(FRESH, Flatten(chars) + s).verdict == if MultiByteCount(chars) >= 5 then FOUND_IT else DETECTING
  {
    hide Scan, Character;
    ScanText(FRESH, chars, s, w);
    FeedSettles(FRESH, Flatten(chars) + s);
  }

  /** The code points of three bytes and fewer, and those beyond from U+10000 to U+10FFFF, as section 4
      of RFC 3629 writes them. */
  predicate Rfc3629(u: bytes) {
    match |u|
    case 1 => u[0] < 0x80
    case 2 => Between(0xC2, u[0], 0xDF) && Continuations(u[1..])
    case 3 =>
      && Between(0xE0, u[0], 0xEF) && Continuations(u[1..])
      && (u[0] == 0xE0 ==> u[1] >= 0xA0) && (u[0] == 0xED ==> u[1] <= 0x9F)
    case 4 =>
      && Between(0xF0, u[0], 0xF4) && Continuations(u[1..])
      && (u[0] == 0xF0 ==> u[1] >= 0x90) && (u[0] == 0xF4 ==> u[1] <= 0x8F)
    case _ => false
  }

  /** Which characters of RFC 3629 make the detector give up UTF-8: three control characters, and the
      code points from U+10000 to U+1FFFF, whose second byte the table bounds too tightly. */
  lemma LegalCharactersRejected(u: bytes)
    requires Rfc3629(u)
    ensures Feed(FRESH, u).verdict == NOT_ME <==> u[0] in {0x0E, 0x0F, 0x1B} || (u[0] == 0xF0 && u[1] < 0xA0)
  {
    if Character(u) {
      assert [u][1..] == [] && Flatten([u]) + [] == u;
      VerdictOnText([u], [], []);
    } else if |u| == 1 {
      FeedSettles(FRESH, u);
      assert Utf8Class(u[0]) == 0;
    } else {
      RejectsAtSecondByte(u);
    }
  }

  lemma RejectsAtSecondByte(u: bytes)
    requires |u| >= 2 && u[0] == 0xF0 && Between(0x80, u[1], 0x9F)
    ensures Feed(FRESH, u).verdict == NOT_ME
  {
    FeedSettles(FRESH, u);
    WithinCharacter(8, u[1]);
    var r := Next(Utf8Model(), FRESH.reading, 0xF0);
    assert r == Reading(8, 4);
    hide Utf8State, Utf8Class;
    assert Scan(FRESH, u) == Scan(FRESH.(reading := r), u[1..]) && u[1..][0] == u[1];
  }
}
