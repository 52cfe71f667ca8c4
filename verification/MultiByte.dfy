/** The detectors of multi-byte encodings (`mbcharsetprober.py`). */
module MultiByte {
  import opened Bytes
  import opened Distribution
  import opened StateMachines
  import opened Streams
  import opened Wrappers

  const SHORTCUT_THRESHOLD := 0.95

  /** What a detector remembers: `last` is the last byte of the previous chunk. */
  datatype View = View(reading: Reading, tally: Tally, verdict: ProbingState, last: byte)

  const FRESH := View(Reading(START, 0), Tally(0, 0), DETECTING, 0)

  /** The loop over the bytes, which a final state ends early; `previous` is the byte before `s`. */
  function Scan(m: Model, d: Language, v: View, previous: byte, s: bytes): View
    requires Usable(d)
    decreases |s|
  {
    if s == [] then
      v
    else
      var r := Next(m, v.reading, s[0]);
      if r.state == ERROR then
        v.(reading := r, verdict := NOT_ME)
      else if r.state == ITS_ME then
        v.(reading := r, verdict := FOUND_IT)
      else if r.state == START then
        Scan(m, d, v.(reading := r, tally := Observe(d, v.tally, previous, s[0], r.charLen)), s[0], s[1..])
      else
        Scan(m, d, v.(reading := r), s[0], s[1..])
  }

  function Conclude(d: Language, v: View): View
    requires Usable(d)
  {
    if v.verdict == DETECTING && v.tally.total > ENOUGH_DATA_THRESHOLD && Confidence(d, v.tally) > SHORTCUT_THRESHOLD
    then v.(verdict := FOUND_IT) else v
  }

  function Feed(m: Model, d: Language, v: View, chunk: bytes): View
    requires Usable(d) && chunk != []
  {
    Conclude(d, Scan(m, d, v, v.last, chunk).(last := chunk[|chunk| - 1]))
  }

  class MultiByteCharSetProber {
    const codingSm: CodingStateMachine
    const distributionAnalyzer: CharDistributionAnalysis
    var lastChar: bytes
    var state: ProbingState

    ghost predicate Valid()
      reads this
    {
      Usable(distributionAnalyzer.language) && |lastChar| == 2
    }

    function Current(): View
      requires |lastChar| == 2
      reads this, codingSm, distributionAnalyzer
    {
      View(codingSm.Current(), distributionAnalyzer.Current(), state, lastChar[0])
    }

    constructor (model: Model, language: Language)
      requires Usable(language)
      ensures Valid() && fresh(codingSm) && fresh(distributionAnalyzer)
      ensures codingSm.model == model && distributionAnalyzer.language == language
      ensures Current() == FRESH
    {
      codingSm := new CodingStateMachine(model);
      distributionAnalyzer := new CharDistributionAnalysis(language);
      lastChar := [0, 0];
      state := DETECTING;
    }

    method Reset()
      requires Valid()
      modifies this, codingSm, distributionAnalyzer
      ensures Valid() && Current() == FRESH.(reading := old(codingSm.Current()).(state := START))
    {
      state := DETECTING;
      codingSm.Reset();
      distributionAnalyzer.Reset();
      lastChar := [0, 0];
    }

    /** An empty chunk has no last byte: after a loop without steps the original raises an exception. */
    method FeedChunk(chunk: bytes) returns (r: Result<ProbingState>)
      requires Valid()
      modifies this, codingSm, distributionAnalyzer
      ensures Valid()
      ensures chunk == [] ==> r == Err(IndexError) && Current() == old(Current())
      ensures chunk != [] ==>
                && Current() == Feed(codingSm.model, distributionAnalyzer.language, old(Current()), chunk)
                && r == Ok(state)
    {
      hide Confidence, Next, Observe;
      ghost var m, d, before := codingSm.model, distributionAnalyzer.language, Current();
      ghost var target := Scan(m, d, before, before.last, chunk);
      for i := 0 to |chunk|
        invariant Valid() && lastChar[0] == before.last
        invariant target == Scan(m, d, Current(), if i == 0 then before.last else chunk[i - 1], chunk[i..])
      {
        var codingState := codingSm.NextState(chunk[i]);
        assert chunk[i..][0] == chunk[i] && chunk[i..][1..] == chunk[i + 1..];
        if codingState == ERROR {
          state := NOT_ME;
          assert Current() == target;
          break;
        } else if codingState == ITS_ME {
          state := FOUND_IT;
          assert Current() == target;
          break;
        } else if codingState == START {
          var charLen := codingSm.GetCurrentCharLen();
          if i == 0 {
            lastChar := lastChar[1 := chunk[0]];
            distributionAnalyzer.Feed(lastChar, charLen);
          } else {
            distributionAnalyzer.Feed(chunk[i - 1..i + 1], charLen);
          }
        }
      }
      assert Current() == target;
      if chunk == [] {
        return Err(IndexError);
      }
      lastChar := lastChar[0 := chunk[|chunk| - 1]];
      if state == DETECTING {
        var enough := distributionAnalyzer.GotEnoughData();
        if enough {
          var confidence := distributionAnalyzer.GetConfidence();
          if confidence > SHORTCUT_THRESHOLD {
            state := FOUND_IT;
          }
        }
      }
      return Ok(state);
    }
  }

  // ----- Chunks -----

  /** What every chunk keeps: the detector has given up exactly when its automaton has failed, has found
      its encoding when its automaton has, and has not counted more frequent characters than characters. */
  predicate Consistent(v: View) {
    && (v.verdict == NOT_ME <==> v.reading.state == ERROR)
    && (v.reading.state == ITS_ME ==> v.verdict == FOUND_IT)
    && v.tally.frequent <= v.tally.total
  }

  lemma {:induction false} ScanConsistent(m: Model, d: Language, v: View, previous: byte, s: bytes)
    requires Usable(d) && Sticky(m) && Consistent(v)
    ensures Consistent(Scan(m, d, v, previous, s))
    decreases |s|
  {
    if s != [] {
      StaysFinal(m, v.reading, s[0]);
      hide Next, Frequent;
      var r := Next(m, v.reading, s[0]);
      if r.state == START {
        ScanConsistent(m, d, v.(reading := r, tally := Observe(d, v.tally, previous, s[0], r.charLen)), s[0], s[1..]);
      } else if r.state !in {ERROR, ITS_ME} {
        ScanConsistent(m, d, v.(reading := r), s[0], s[1..]);
      }
    }
  }

  lemma StaysFinal(m: Model, r: Reading, c: byte)
    requires Sticky(m)
    ensures r.state in {ERROR, ITS_ME} ==> Next(m, r, c) == r
  {
    assert m.stateTable(ERROR * m.classFactor + m.classTable(c)) == ERROR;
  }

  lemma FeedConsistent(m: Model, d: Language, v: View, s: bytes)
    requires Usable(d) && Sticky(m) && Consistent(v) && s != []
    ensures Consistent(Feed(m, d, v, s))
  {
    ScanConsistent(m, d, v, v.last, s);
  }

  /** Agreement up to a confident verdict. */
  predicate SameCount(v: View, w: View) {
    v.reading == w.reading && v.tally == w.tally
  }

  /** Neither the verdict nor the remembered byte plays a part in reading. */
  lemma {:induction false} ScanIgnoresVerdict(m: Model, d: Language, v: View, w: View, previous: byte, s: bytes)
    requires Usable(d) && SameCount(v, w)
    ensures SameCount(Scan(m, d, v, previous, s), Scan(m, d, w, previous, s))
    decreases |s|
  {
    hide Next, Observe;
    if s != [] {
      var r := Next(m, v.reading, s[0]);
      if r.state == START {
        var t := Observe(d, v.tally, previous, s[0], r.charLen);
        ScanIgnoresVerdict(m, d, v.(reading := r, tally := t), w.(reading := r, tally := t), s[0], s[1..]);
      } else if r.state !in {ERROR, ITS_ME} {
        ScanIgnoresVerdict(m, d, v.(reading := r), w.(reading := r), s[0], s[1..]);
      }
    }
  }

  lemma {:induction false} ScanConcat(m: Model, d: Language, v: View, previous: byte, s: bytes, t: bytes)
    requires Usable(d) && Sticky(m) && s != []
    ensures SameCount(Scan(m, d, v, previous, s + t), Scan(m, d, Scan(m, d, v, previous, s), s[|s| - 1], t))
    decreases |s|
  {
    assert (s + t)[1..] == s[1..] + t;
    var r := Next(m, v.reading, s[0]);
    if t != [] {
      StaysFinal(m, r, t[0]);
    }
    hide Next, Observe;
    if r.state !in {ERROR, ITS_ME} {
      var w := if r.state == START
               then v.(reading := r, tally := Observe(d, v.tally, previous, s[0], r.charLen))
               else v.(reading := r);
      if |s| == 1 {
        assert s[1..] == [] && [] + t == t;
      } else {
        ScanConcat(m, d, w, s[0], s[1..], t);
      }
    }
  }

  /** Agreement on everything but a confident verdict. */
  predicate SameButFound(v: View, w: View) {
    SameCount(v, w) && v.last == w.last && (v.verdict == NOT_ME <==> w.verdict == NOT_ME)
  }

  /** Two chunks or one: the detector ends with the same state of the automaton, the same counts and
      the same last byte, and gives up in both cases or in neither. */
  lemma FeedTwice(m: Model, d: Language, v: View, s: bytes, t: bytes)
    requires Usable(d) && Sticky(m) && Consistent(v) && s != [] && t != []
    ensures SameButFound(Feed(m, d, Feed(m, d, v, s), t), Feed(m, d, v, s + t))
  {
    FeedConsistent(m, d, v, s);
    FeedConsistent(m, d, Feed(m, d, v, s), t);
    FeedConsistent(m, d, v, s + t);
    ScanConcat(m, d, v, v.last, s, t);
    ScanIgnoresVerdict(m, d, Scan(m, d, v, v.last, s), Feed(m, d, v, s), s[|s| - 1], t);
    assert (s + t)[|s + t| - 1] == t[|t| - 1];
  }

  predicate NonEmpty(chunks: seq<bytes>) {
    forall i :: 0 <= i < |chunks| ==> chunks[i] != []
  }

  function FeedAll(m: Model, d: Language, v: View, chunks: seq<bytes>): View
    requires Usable(d) && NonEmpty(chunks)
    decreases |chunks|
  {
    if chunks == [] then v else FeedAll(m, d, Feed(m, d, v, chunks[0]), chunks[1..])
  }

  /** However a stream is cut into chunks that are not empty, the detector ends as if it had been fed
      whole, except that it may have found the encoding earlier. */
  lemma {:induction false} ChunksDoNotMatter(m: Model, d: Language, v: View, chunks: seq<bytes>)
    requires Usable(d) && Sticky(m) && Consistent(v) && chunks != [] && NonEmpty(chunks)
    ensures Flatten(chunks) != [] && SameButFound(FeedAll(m, d, v, chunks), Feed(m, d, v, Flatten(chunks)))
    decreases |chunks|
  {
    var first, rest := chunks[0], chunks[1..];
    FeedConsistent(m, d, v, first);
    if rest == [] {
      assert Flatten(chunks) == first + [] == first;
    } else {
      hide Feed, SameCount;
      ChunksDoNotMatter(m, d, Feed(m, d, v, first), rest);
      FeedTwice(m, d, v, first, Flatten(rest));
      assert Flatten(chunks) == first + Flatten(rest);
    }
  }

  // ----- When the encoding is found -----

  /** A detector that has neither found its encoding nor given up, such as a new one. */
  predicate Searching(v: View) {
    Consistent(v) && v.verdict == DETECTING
  }

  lemma {:induction false} ScanWhileSearching(m: Model, d: Language, v: View, previous: byte, s: bytes)
    requires Usable(d) && Searching(v)
    ensures
      var w := Scan(m, d, v, previous, s);
      w.verdict ==
      if w.reading.state == ERROR then NOT_ME else if w.reading.state == ITS_ME then FOUND_IT else DETECTING
    decreases |s|
  {
    hide Next, Observe;
    if s != [] {
      var r := Next(m, v.reading, s[0]);
      if r.state == START {
        var t := Observe(d, v.tally, previous, s[0], r.charLen);
        ScanWhileSearching(m, d, v.(reading := r, tally := t), s[0], s[1..]);
      } else if r.state !in {ERROR, ITS_ME} {
        ScanWhileSearching(m, d, v.(reading := r), s[0], s[1..]);
      }
    }
  }

  lemma {:induction false} ScanWhenFound(m: Model, d: Language, v: View, previous: byte, s: bytes)
    requires Usable(d) && v.verdict == FOUND_IT
    ensures Scan(m, d, v, previous, s).verdict != DETECTING
    decreases |s|
  {
    hide Next, Observe;
    if s != [] {
      var r := Next(m, v.reading, s[0]);
      if r.state == START {
        ScanWhenFound(m, d, v.(reading := r, tally := Observe(d, v.tally, previous, s[0], r.charLen)), s[0], s[1..]);
      } else if r.state !in {ERROR, ITS_ME} {
        ScanWhenFound(m, d, v.(reading := r), s[0], s[1..]);
      }
    }
  }

  /** The verdict that a searching detector draws from what it has read. */
  function Drawn(d: Language, v: View): ProbingState
    requires Usable(d)
  {
    if v.reading.state == ERROR then NOT_ME
    else if v.reading.state == ITS_ME then FOUND_IT
    else if v.tally.total > ENOUGH_DATA_THRESHOLD && Confidence(d, v.tally) > SHORTCUT_THRESHOLD then FOUND_IT
    else DETECTING
  }

  lemma FeedWhileSearching(m: Model, d: Language, v: View, s: bytes)
    requires Usable(d) && Searching(v) && s != []
    ensures Feed(m, d, v, s).verdict == Drawn(d, Feed(m, d, v, s))
  {
    hide Confidence;
    ScanWhileSearching(m, d, v, v.last, s);
  }

  /** A found encoding is only ever given up. */
  lemma FeedWhenFound(m: Model, d: Language, v: View, s: bytes)
    requires Usable(d) && Sticky(m) && Consistent(v) && v.verdict == FOUND_IT && s != []
    ensures Feed(m, d, v, s).verdict == if Feed(m, d, v, s).reading.state == ERROR then NOT_ME else FOUND_IT
  {
    hide Confidence;
    ScanWhenFound(m, d, v, v.last, s);
    ScanConsistent(m, d, v, v.last, s);
  }

  lemma {:induction false} FeedAllLast(m: Model, d: Language, v: View, chunks: seq<bytes>, last: bytes)
    requires Usable(d) && NonEmpty(chunks) && last != []
    ensures NonEmpty(chunks + [last])
    ensures FeedAll(m, d, v, chunks + [last]) == Feed(m, d, FeedAll(m, d, v, chunks), last)
    decreases |chunks|
  {
    hide Feed;
    var all := chunks + [last];
    if chunks == [] {
      assert all[1..] == [];
    } else {
      assert all[1..] == chunks[1..] + [last];
      FeedAllLast(m, d, Feed(m, d, v, chunks[0]), chunks[1..], last);
    }
  }

  /** The first k chunks, fed as one, are enough to find the encoding. */
  predicate FoundBy(m: Model, d: Language, v: View, chunks: seq<bytes>, k: nat)
    requires Usable(d) && k <= |chunks|
  {
    Flatten(chunks[..k]) != [] && Feed(m, d, v, Flatten(chunks[..k])).verdict == FOUND_IT
  }

  lemma {:induction false} FeedAllConsistent(m: Model, d: Language, v: View, chunks: seq<bytes>)
    requires Usable(d) && Sticky(m) && Consistent(v) && NonEmpty(chunks)
    ensures Consistent(FeedAll(m, d, v, chunks))
    decreases |chunks|
  {
    if chunks != [] {
      FeedConsistent(m, d, v, chunks[0]);
      FeedAllConsistent(m, d, Feed(m, d, v, chunks[0]), chunks[1..]);
    }
  }

  /** One more chunk: what was found stays found, and what is found now one feed would find as well. */
  lemma VerdictOfLastChunk(m: Model, d: Language, v: View, w: View, whole: View, last: bytes)
    requires Usable(d) && Sticky(m) && Consistent(w) && last != []
    requires whole.verdict == Drawn(d, whole) && SameButFound(Feed(m, d, w, last), whole)
    ensures Feed(m, d, w, last).verdict ==
            if whole.reading.state == ERROR then NOT_ME
            else if w.verdict == FOUND_IT || whole.verdict == FOUND_IT then FOUND_IT
            else DETECTING
  {
    hide Feed, Confidence;
    FeedConsistent(m, d, w, last);
    if w.verdict == FOUND_IT {
      FeedWhenFound(m, d, w, last);
    } else if w.verdict == DETECTING {
      FeedWhileSearching(m, d, w, last);
    } else {
      FeedAfterFailure(m, d, w, last);
    }
  }

  lemma FeedAfterFailure(m: Model, d: Language, v: View, s: bytes)
    requires Usable(d) && Sticky(m) && v.reading.state == ERROR && s != []
    ensures Feed(m, d, v, s).reading.state == ERROR
  {
    StaysFinal(m, v.reading, s[0]);
  }

  /** What the verdict on a stream in chunks is: given up if the automaton has failed, else found if and
      only if the chunks up to some boundary, fed as one, would have been enough. */
  lemma {:induction false} FoundAtSomeBoundary(m: Model, d: Language, v: View, chunks: seq<bytes>)
    requires Usable(d) && Sticky(m) && Searching(v) && chunks != [] && NonEmpty(chunks)
    ensures
      FeedAll(m, d, v, chunks).verdict ==
      if FeedAll(m, d, v, chunks).reading.state == ERROR then NOT_ME
      else if exists k :: 0 < k <= |chunks| && FoundBy(m, d, v, chunks, k) then FOUND_IT
      else DETECTING
    decreases |chunks|
  {
    hide Feed, FeedAll, Flatten, Drawn;
    var n := |chunks| - 1;
    var before, last := chunks[..n], chunks[n];
    assert chunks == before + [last] && chunks[..|chunks|] == chunks;
    FeedAllLast(m, d, v, before, last);
    FeedAllConsistent(m, d, v, before);
    ChunksDoNotMatter(m, d, v, chunks);
    FeedWhileSearching(m, d, v, Flatten(chunks));
    var w := FeedAll(m, d, v, before);
    VerdictOfLastChunk(m, d, v, w, Feed(m, d, v, Flatten(chunks)), last);
    assert FoundBy(m, d, v, chunks, |chunks|) <==> Feed(m, d, v, Flatten(chunks)).verdict == FOUND_IT;
    if n == 0 {
      NoChunks(m, d, v);
    } else {
      FoundAtSomeBoundary(m, d, v, before);
      EarlierBoundaries(m, d, v, chunks);
      if w.reading.state == ERROR {
        FeedAfterFailure(m, d, w, last);
      }
    }
  }

  lemma NoChunks(m: Model, d: Language, v: View)
    requires Usable(d)
    ensures FeedAll(m, d, v, []) == v
  {}

  lemma EarlierBoundaries(m: Model, d: Language, v: View, chunks: seq<bytes>)
    requires Usable(d) && chunks != []
    ensures
      var before := chunks[..|chunks| - 1];
      (exists k :: 0 < k <= |before| && FoundBy(m, d, v, before, k)) <==>
      (exists k :: 0 < k < |chunks| && FoundBy(m, d, v, chunks, k))
  {
    hide Feed, Flatten;
    var before := chunks[..|chunks| - 1];
    forall k | 0 < k <= |before| ensures FoundBy(m, d, v, before, k) <==> FoundBy(m, d, v, chunks, k) {
      assert before[..k] == chunks[..k];
    }
  }

  /** So the verdict is that of one feed exactly when one feed decides or no earlier boundary did. */
  lemma VerdictOfOneFeed(m: Model, d: Language, v: View, chunks: seq<bytes>)
    requires Usable(d) && Sticky(m) && Searching(v) && chunks != [] && NonEmpty(chunks)
    ensures
      Flatten(chunks) != [] &&
      (FeedAll(m, d, v, chunks).verdict == Feed(m, d, v, Flatten(chunks)).verdict <==>
       || Feed(m, d, v, Flatten(chunks)).verdict != DETECTING
       || !exists k :: 0 < k < |chunks| && FoundBy(m, d, v, chunks, k))
  {
    hide Feed, FeedAll, Flatten;
    FoundAtSomeBoundary(m, d, v, chunks);
    ChunksDoNotMatter(m, d, v, chunks);
    FeedWhileSearching(m, d, v, Flatten(chunks));
    assert chunks[..|chunks|] == chunks;
    assert FoundBy(m, d, v, chunks, |chunks|) <==> Feed(m, d, v, Flatten(chunks)).verdict == FOUND_IT;
    FeedConsistent(m, d, v, Flatten(chunks));
  }

  /** A boundary that finds the encoding decides, unless the automaton fails later. */
  lemma FoundByFirstChunk(m: Model, d: Language, v: View, s: bytes, t: bytes)
    requires Usable(d) && Sticky(m) && Searching(v) && s != [] && t != []
    requires Feed(m, d, v, s).verdict == FOUND_IT && Feed(m, d, v, s + t).verdict != NOT_ME
    ensures NonEmpty([s, t]) && Flatten([s, t]) == s + t && FeedAll(m, d, v, [s, t]).verdict == FOUND_IT
  {
    hide Feed, FeedAll, Flatten;
    var chunks := [s, t];
    FlattenTwo(s, t);
    assert chunks[..1] == [s];
    assert FoundBy(m, d, v, chunks, 1);
    FoundAtSomeBoundary(m, d, v, chunks);
    ChunksDoNotMatter(m, d, v, chunks);
    FeedAllConsistent(m, d, v, chunks);
  }
}
