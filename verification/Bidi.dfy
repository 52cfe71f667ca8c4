/** The check of bidirectional labels (`idna/core.py`). A label is given by the bidirectional
    categories of its characters, which the original reads from the Unicode database. */
module Bidi {
  import opened Wrappers

  /** The bidirectional categories; `Unknown` is the empty string of the database. */
  datatype Direction =
    | Unknown
    | L | R | AL | AN | EN | ES | CS | ET | ON | BN | NSM
    | B | S | WS | LRE | LRO | RLE | RLO | PDF | LRI | RLI | FSI | PDI

  type Label = seq<Direction>

  const RIGHT_TO_LEFT := {R, AL, AN}
  const RTL_ALLOWED := {R, AL, AN, EN, ES, CS, ET, ON, BN, NSM}
  const RTL_ENDINGS := {R, AL, EN, AN}
  const LTR_ALLOWED := {L, EN, ES, CS, ET, ON, BN, NSM}
  const LTR_ENDINGS := {L, EN}

  predicate OnlyFrom(text: Label, allowed: set<Direction>) {
    forall i :: 0 <= i < |text| ==> text[i] in allowed
  }

  /** Some character of the given categories is followed by nothing but nonspacing marks. */
  predicate EndsWith(text: Label, endings: set<Direction>) {
    exists i :: 0 <= i < |text| && text[i] in endings && forall j :: i < j < |text| ==> text[j] == NSM
  }

  /** The six conditions of section 2 of RFC 5893. */
  predicate BidiRule(text: Label) {
    && text != []
    && text[0] in {L, R, AL}
    && (text[0] != L ==>
          && OnlyFrom(text, RTL_ALLOWED)
          && EndsWith(text, RTL_ENDINGS)
          && !(EN in text && AN in text))
    && (text[0] == L ==>
          && OnlyFrom(text, LTR_ALLOWED)
          && EndsWith(text, LTR_ENDINGS))
  }

  predicate HasRightToLeft(text: Label) {
    exists i :: 0 <= i < |text| && text[i] in RIGHT_TO_LEFT
  }

  /** `check_bidi`: a label passes exactly when its categories are all known and, if it has a
      right-to-left character or the caller insists, it meets the Bidi rule. The only other way to
      fail is to insist on the rule for a label without characters. */
  method CheckBidi(text: Label, checkLtr: bool) returns (r: Result<bool>)
    ensures r == Ok(true) <==> Unknown !in text && (HasRightToLeft(text) || checkLtr ==> BidiRule(text))
    ensures r == Ok(true) || r == Err(IDNABidiError) || r == Err(IndexError)
    ensures r == Err(IndexError) <==> text == [] && checkLtr
  {
    hide EndsWith;
    var bidiLabel := false;
    for i := 0 to |text|
      invariant !bidiLabel && Unknown !in text[..i]
      invariant forall j :: 0 <= j < i ==> text[j] !in RIGHT_TO_LEFT
    {
      var direction := text[i];
      if direction == Unknown {
        return Err(IDNABidiError);
      }
      if direction in RIGHT_TO_LEFT {
        bidiLabel := true;
        break;
      }
    }
    assert bidiLabel <==> HasRightToLeft(text);
    if !bidiLabel && !checkLtr {
      return Ok(true);
    }
    // Rule 1
    if text == [] {
      return Err(IndexError);
    }
    var rtl: bool;
    if text[0] in {R, AL} {
      rtl := true;
    } else if text[0] == L {
      rtl := false;
    } else {
      return Err(IDNABidiError);
    }
    var validEnding, numberType := false, None;
    NoEnding(if rtl then RTL_ENDINGS else LTR_ENDINGS);
    for i := 0 to |text|
      invariant OnlyFrom(text[..i], if rtl then RTL_ALLOWED else LTR_ALLOWED)
      invariant validEnding == EndsWith(text[..i], if rtl then RTL_ENDINGS else LTR_ENDINGS)
      invariant rtl ==> numberType == NumberType(text[..i]) && !(EN in text[..i] && AN in text[..i])
    {
      var direction := text[i];
      assert text[..i + 1] == text[..i] + [direction];
      EndingStep(text[..i], direction, if rtl then RTL_ENDINGS else LTR_ENDINGS);
      if rtl {
        // Rule 2
        if direction !in RTL_ALLOWED {
          return Err(IDNABidiError);
        }
        // Rule 3
        if direction in RTL_ENDINGS {
          validEnding := true;
        } else if direction != NSM {
          validEnding := false;
        }
        // Rule 4
        if direction in {AN, EN} {
          if numberType == None {
            numberType := Some(direction);
          } else if numberType != Some(direction) {
            assert EN in text && AN in text;
            return Err(IDNABidiError);
          }
        }
      } else {
        // Rule 5
        if direction !in LTR_ALLOWED {
          return Err(IDNABidiError);
        }
        // Rule 6
        if direction in LTR_ENDINGS {
          validEnding := true;
        } else if direction != NSM {
          validEnding := false;
        }
      }
    }
    assert text[..|text|] == text;
    if !validEnding {
      return Err(IDNABidiError);
    }
    return Ok(true);
  }

  /** The kind of the numerals of a right-to-left label that does not mix them. */
  function NumberType(text: Label): Option<Direction> {
    if AN in text then Some(AN) else if EN in text then Some(EN) else None
  }

  lemma NoEnding(endings: set<Direction>)
    ensures !EndsWith([], endings)
  {}

  lemma EndingStep(text: Label, next: Direction, endings: set<Direction>)
    requires NSM !in endings
    ensures EndsWith(text + [next], endings) <==>
            next in endings || (next == NSM && EndsWith(text, endings))
  {
    var longer := text + [next];
    if next in endings {
      assert longer[|text|] in endings;
    }
    if next == NSM && EndsWith(text, endings) {
      var i :| 0 <= i < |text| && text[i] in endings && forall j :: i < j < |text| ==> text[j] == NSM;
      assert longer[i] in endings;
    }
    if i :| 0 <= i < |longer| && longer[i] in endings && forall j :: i < j < |longer| ==> longer[j] == NSM {
      if i < |text| {
        assert longer[|text|] == NSM;
        assert text[i] in endings && forall j :: i < j < |text| ==> text[j] == longer[j];
      }
    }
  }

  /** A label that passes although it has a right-to-left character starts with a right-to-left
      letter and has no left-to-right letter. */
  lemma RightToLeftLabels(text: Label)
    requires Unknown !in text && HasRightToLeft(text) && BidiRule(text)
    ensures L !in text && text[0] in {R, AL}
  {
    var i :| 0 <= i < |text| && text[i] in RIGHT_TO_LEFT;
    assert !OnlyFrom(text, LTR_ALLOWED);
  }

  /** Trailing nonspacing marks never change the verdict on a label. */
  lemma MarksAtTheEnd(text: Label)
    requires text != []
    ensures BidiRule(text + [NSM]) <==> BidiRule(text)
    ensures HasRightToLeft(text + [NSM]) <==> HasRightToLeft(text)
  {
    var longer := text + [NSM];
    EndingStep(text, NSM, RTL_ENDINGS);
    EndingStep(text, NSM, LTR_ENDINGS);
    assert forall i :: 0 <= i < |text| ==> longer[i] == text[i];
    assert OnlyFrom(longer, RTL_ALLOWED) ==> OnlyFrom(text, RTL_ALLOWED);
    assert OnlyFrom(longer, LTR_ALLOWED) ==> OnlyFrom(text, LTR_ALLOWED);
    assert longer[|text|] == NSM;
    if i :| 0 <= i < |text| && text[i] in RIGHT_TO_LEFT {
      assert longer[i] in RIGHT_TO_LEFT;
    }
  }
}
