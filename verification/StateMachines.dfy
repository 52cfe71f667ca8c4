/** The table-driven automata of the character set detectors (`codingstatemachine.py`) and their
    tables for UTF-8 and Big5 (`mbcssm.py`). */
module StateMachines {
  import opened Bytes

  const START: nat := 0
  const ERROR: nat := 1
  const ITS_ME: nat := 2

  /** A machine's tables. A table is given by its lookup function, because the long tables are
      constant on long stretches. */
  datatype Model = Model(classTable: byte -> nat, classFactor: nat, stateTable: nat -> nat, charLenTable: nat -> nat)

  /** What a machine remembers that later bytes depend on. */
  datatype Reading = Reading(state: nat, charLen: nat)

  function Next(m: Model, r: Reading, c: byte): Reading {
    var byteClass := m.classTable(c);
    Reading(m.stateTable(r.state * m.classFactor + byteClass),
            if r.state == START then m.charLenTable(byteClass) else r.charLen)
  }

  class CodingStateMachine {
    const model: Model
    var currState: nat
    var currBytePos: nat
    var currCharLen: nat

    function Current(): Reading
      reads this
    {
      Reading(currState, currCharLen)
    }

    constructor (model: Model)
      ensures this.model == model && Current() == Reading(START, 0) && currBytePos == 0
    {
      this.model := model;
      currBytePos := 0;
      currCharLen := 0;
      currState := START;
    }

    /** Only the state is reset: the position and the length of an abandoned character remain. */
    method Reset()
      modifies this`currState
      ensures currState == START
    {
      currState := START;
    }

    method NextState(c: byte) returns (state: nat)
      modifies this
      ensures Current() == Next(model, old(Current()), c) && state == currState
      ensures currBytePos == (if old(currState) == START then 0 else old(currBytePos)) + 1
    {
      var byteClass := model.classTable(c);
      if currState == START {
        currBytePos := 0;
        currCharLen := model.charLenTable(byteClass);
      }
      currState := model.stateTable(currState * model.classFactor + byteClass);
      currBytePos := currBytePos + 1;
      return currState;
    }

    method GetCurrentCharLen() returns (length: nat)
      ensures length == Current().charLen
    {
      return currCharLen;
    }
  }

  /** All the bytes, one after another. */
  function Run(m: Model, r: Reading, s: bytes): Reading
    decreases |s|
  {
    if s == [] then r else Run(m, Next(m, r, s[0]), s[1..])
  }

  lemma {:induction false} RunConcat(m: Model, r: Reading, s: bytes, t: bytes)
    ensures Run(m, r, s + t) == Run(m, Run(m, r, s), t)
    decreases |s|
  {
    if s == [] {
      assert s + t == t;
    } else {
      assert (s + t)[1..] == s[1..] + t;
      RunConcat(m, Next(m, r, s[0]), s[1..], t);
    }
  }

  /** The two final states are never left, whatever the byte. */
  ghost predicate Sticky(m: Model) {
    forall c: byte {:trigger m.classTable(c)} ::
      && m.stateTable(ERROR * m.classFactor + m.classTable(c)) == ERROR
      && m.stateTable(ITS_ME * m.classFactor + m.classTable(c)) == ITS_ME
  }

  lemma {:induction false} FinalStatesStay(m: Model, r: Reading, s: bytes)
    requires Sticky(m) && r.state in {ERROR, ITS_ME}
    ensures Run(m, r, s) == r
  {
    if s != [] {
      assert Next(m, r, s[0]) == r;
      FinalStatesStay(m, r, s[1..]);
    }
  }

  /** A reset machine reads like a new one, although it keeps the length of an abandoned character. */
  lemma ResetReadsLikeNew(m: Model, r: Reading, s: bytes)
    requires s != []
    ensures Run(m, r.(state := START), s) == Run(m, Reading(START, 0), s)
  {}

  // ----- Lengths of characters -----

  /** `rest` tells for every state how many bytes the character under way still lacks. */
  ghost predicate Counts(m: Model, rest: nat -> nat) {
    forall state: nat, c: byte {:trigger Next(m, Reading(state, 0), c)} ::
      var next := Next(m, Reading(state, 0), c);
      && (state == START && next.state !in {ERROR, ITS_ME} ==> next.charLen == 1 + rest(next.state))
      && (state !in {START, ERROR, ITS_ME} && next.state !in {ERROR, ITS_ME} ==> rest(state) == 1 + rest(next.state))
      && (next.state == START ==> rest(next.state) == 0)
  }

  /** The states passed on the way, the last one excepted. */
  predicate NeverAtStart(m: Model, r: Reading, s: bytes) {
    forall k :: 0 < k < |s| ==> Run(m, r, s[..k]).state != START
  }

  /** Before the next return to the start, the bytes read and those still lacking make up the length. */
  lemma {:induction false} LengthSoFar(m: Model, rest: nat -> nat, r: Reading, s: bytes)
    requires Sticky(m) && Counts(m, rest)
    requires r.state == START && s != [] && NeverAtStart(m, r, s)
    requires Run(m, r, s).state !in {ERROR, ITS_ME}
    ensures |s| + rest(Run(m, r, s).state) == Run(m, r, s).charLen
  {
    var n := |s| - 1;
    var before, c := s[..n], s[n];
    assert s == before + [c];
    RunConcat(m, r, before, [c]);
    var last := Run(m, r, before);
    assert Run(m, r, s) == Next(m, last, c);
    var next := Next(m, Reading(last.state, 0), c);
    assert next.state == Next(m, last, c).state;
    if before != [] {
      assert s[..n] == before;
      if last.state in {ERROR, ITS_ME} {
        FinalStatesStay(m, last, [c]);
      }
      assert forall k :: 0 < k < n ==> before[..k] == s[..k];
      LengthSoFar(m, rest, r, before);
    }
  }

  /** Every return to the start comes after exactly as many bytes as the machine announces. */
  lemma CharacterLength(m: Model, rest: nat -> nat, r: Reading, s: bytes)
    requires Sticky(m) && Counts(m, rest)
    requires r.state == START && s != [] && NeverAtStart(m, r, s)
    requires Run(m, r, s).state == START
    ensures |s| == Run(m, r, s).charLen
  {
    LengthSoFar(m, rest, r, s);
    var n := |s| - 1;
    assert s == s[..n] + [s[n]];
    RunConcat(m, r, s[..n], [s[n]]);
    var last := Run(m, r, s[..n]);
    assert Next(m, Reading(last.state, 0), s[n]).state == Run(m, last, [s[n]]).state;
  }

  // ----- UTF-8 -----

  function Utf8Class(c: byte): (k: nat)
    ensures k < 16
  {
    if c in {0x0E, 0x0F, 0x1B, 0xC0, 0xC1, 0xFE, 0xFF} then 0
    else if c < 0x80 then 1
    else if c < 0x84 then 2
    else if c < 0x88 then 3
    else if c < 0xA0 then 4
    else if c < 0xC0 then 5
    else if c < 0xE0 then 6
    else if c == 0xE0 then 7
    else if c == 0xED then 9
    else if c < 0xF0 then 8
    else if c == 0xF0 then 10
    else if c < 0xF8 then 11
    else if c == 0xF8 then 12
    else if c < 0xFC then 13
    else if c == 0xFC then 14
    else 15
  }

  function Utf8State(i: nat): nat {
    if i == 0x01 then START
    else if i == 0x06 then 12
    else if i == 0x07 then 10
    else if i == 0x08 then 9
    else if i == 0x09 then 11
    else if 0x0A <= i <= 0x0F then 18 - i
    else if 0x20 <= i <= 0x2F then ITS_ME
    else if 0x32 <= i <= 0x35 || 0x43 <= i <= 0x45 then 5
    else if 0x52 <= i <= 0x55 || 0x64 <= i <= 0x65 then 7
    else if 0x72 <= i <= 0x75 || i == 0x85 then 9
    else if 0x92 <= i <= 0x95 || i == 0xA5 || 0xB2 <= i <= 0xB4 then 12
    else if 0xC2 <= i <= 0xC5 then START
    else ERROR
  }

  function Utf8CharLen(i: nat): nat {
    if i == 1 then 1
    else if i == 6 then 2
    else if 7 <= i <= 9 then 3
    else if 10 <= i <= 11 then 4
    else if 12 <= i <= 13 then 5
    else if 14 <= i <= 15 then 6
    else 0
  }

  function Utf8Model(): Model {
    Model(Utf8Class, 16, Utf8State, Utf8CharLen)
  }

  function Utf8Rest(state: nat): nat {
    match state
    case 0 => 0
    case 12 => 1
    case 9 => 2
    case 10 => 2
    case 11 => 2
    case 7 => 3
    case 8 => 3
    case 5 => 4
    case 6 => 4
    case _ => 5
  }

  /** One cell of the state table. */
  lemma Utf8Cell(state: nat, k: nat)
    requires k < 16
    ensures
      var next := Utf8State(state * 16 + k);
      && (state in {ERROR, ITS_ME} ==> next == state)
      && (state == START && next !in {ERROR, ITS_ME} ==> Utf8CharLen(k) == 1 + Utf8Rest(next))
      && (state !in {START, ERROR, ITS_ME} && next !in {ERROR, ITS_ME} ==> Utf8Rest(state) == 1 + Utf8Rest(next))
  {
    if state > 12 {
      assert state * 16 + k > 0xC5;
    }
  }

  lemma Utf8Counts()
    ensures Sticky(Utf8Model()) && Counts(Utf8Model(), Utf8Rest)
  {
    hide Utf8Class, Utf8State, Utf8CharLen;
    forall c: byte {:trigger Utf8Class(c)}
      ensures Utf8State(16 + Utf8Class(c)) == ERROR && Utf8State(32 + Utf8Class(c)) == ITS_ME
    {
      Utf8Cell(ERROR, Utf8Class(c));
      Utf8Cell(ITS_ME, Utf8Class(c));
    }
    forall state: nat, c: byte
      ensures
        var next := Next(Utf8Model(), Reading(state, 0), c);
        && (state == START && next.state !in {ERROR, ITS_ME} ==> next.charLen == 1 + Utf8Rest(next.state))
        && (state !in {START, ERROR, ITS_ME} && next.state !in {ERROR, ITS_ME} ==>
              Utf8Rest(state) == 1 + Utf8Rest(next.state))
    {
      Utf8Cell(state, Utf8Class(c));
    }
  }

  // ----- Big5 -----

  function Big5Class(c: byte): nat {
    if c in {0x0E, 0x0F, 0x1B, 0xFF} then 0
    else if c < 0x40 || c == 0x7F then 1
    else if c < 0x7F then 2
    else if c <= 0xA0 then 4
    else 3
  }

  function Big5State(i: nat): nat {
    if i == 3 then 3
    else if 1 <= i <= 2 || i >= 17 then START
    else if 10 <= i <= 14 then ITS_ME
    else ERROR
  }

  function Big5CharLen(i: nat): nat {
    if 1 <= i <= 2 then 1 else if i == 3 then 2 else 0
  }

  function Big5Model(): Model {
    Model(Big5Class, 5, Big5State, Big5CharLen)
  }

  function Big5Rest(state: nat): nat {
    if state == START then 0 else 1
  }

  lemma Big5Counts()
    ensures Sticky(Big5Model()) && Counts(Big5Model(), Big5Rest)
  {}
}
