/** Byte streams cut into pieces, and the verdicts of the detectors that read them (`enums.py`). */
module Streams {
  import opened Bytes

  datatype ProbingState = DETECTING | FOUND_IT | NOT_ME

  function Flatten(pieces: seq<bytes>): bytes {
    if pieces == [] then [] else pieces[0] + Flatten(pieces[1..])
  }

  lemma {:induction false} FlattenAppend(pieces: seq<bytes>, last: bytes)
    ensures Flatten(pieces + [last]) == Flatten(pieces) + last
  {
    if pieces == [] {
      assert (pieces + [last])[1..] == [];
    } else {
      assert (pieces + [last])[1..] == pieces[1..] + [last];
      FlattenAppend(pieces[1..], last);
    }
  }

  lemma FlattenTwo(s: bytes, t: bytes)
    ensures Flatten([s]) == s && Flatten([s, t]) == s + t
  {
    assert [s][1..] == [] && [s, t][1..] == [t] && [t][1..] == [];
    assert s + [] == s && t + [] == t;
  }
}
