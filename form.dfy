/**
 * The reservation form as data: its controls by element id, and what a full
 * validation pass and a reset make of them. These functions specify the page
 * controller's submit handler.
 */
module Form {
  import opened Validators
  import Text
  import EmailPattern
  import PhonePattern

  /** A form control: its current value and whether it carries the `error` class. */
  datatype Control = Control(value: string, error: bool)

  /** The verdict of a pass over `names` in order: every field so far accepted, one at a time. */
  predicate AllAccepted(controls: map<string, Control>, names: seq<string>, cal: Calendar)
    decreases |names|
  {
    names == [] || (AllAccepted(controls, names[..|names| - 1], cal) && AcceptedOne(controls, names[|names| - 1], cal))
  }

  /** The verdict of a pass holds exactly when every present control named in `names` holds an acceptable value. */
  lemma {:induction false} AllAcceptedMeaning(controls: map<string, Control>, names: seq<string>, cal: Calendar)
    ensures AllAccepted(controls, names, cal) <==>
      forall i :: 0 <= i < |names| && names[i] in controls ==> Message(names[i], controls[names[i]].value, cal) == ""
    decreases |names|
  {
    if names != [] {
      var init := names[..|names| - 1];
      AllAcceptedMeaning(controls, init, cal);
      assert forall i :: 0 <= i < |init| ==> init[i] == names[i];
    }
  }

  /** The controls after validating those named in `names`: each one's `error` class says whether it was rejected. */
  function Marked(controls: map<string, Control>, names: seq<string>, cal: Calendar): map<string, Control>
  {
    map n | n in controls :: if n in names then controls[n].(error := Message(n, controls[n].value, cal) != "") else controls[n]
  }

  /** The error slots (keyed by field name) after validating the present controls named in `names`. */
  function Recorded(slots: map<string, string>, controls: map<string, Control>, names: seq<string>, cal: Calendar): map<string, string>
  {
    map n | n in slots :: if n in names && n in controls then Message(n, controls[n].value, cal) else slots[n]
  }

  /** `form.reset()`: every control back to its default value, the empty string. */
  function Reset(controls: map<string, Control>): (r: map<string, Control>)
    ensures r.Keys == controls.Keys
    ensures forall n :: n in r ==> r[n].value == "" && r[n].error == controls[n].error
  {
    map n | n in controls :: controls[n].(value := "")
  }

  /** One field validated: if present, its `error` class records whether it is rejected. */
  function MarkOne(controls: map<string, Control>, n: string, cal: Calendar): map<string, Control>
  {
    if n in controls then controls[n := controls[n].(error := Message(n, controls[n].value, cal) != "")] else controls
  }

  /** One field validated: if it is present and has an error slot, the slot gets its message. */
  function RecordOne(slots: map<string, string>, controls: map<string, Control>, n: string, cal: Calendar): map<string, string>
  {
    if n in controls && n in slots then slots[n := Message(n, controls[n].value, cal)] else slots
  }

  /** One field's verdict: a missing field does not count against the form. */
  predicate AcceptedOne(controls: map<string, Control>, n: string, cal: Calendar)
  {
    n in controls ==> Message(n, controls[n].value, cal) == ""
  }

  /** Validating one more field, not validated before, is marking that one field. */
  lemma MarkedStep(controls: map<string, Control>, names: seq<string>, n: string, cal: Calendar)
    requires n !in names
    ensures Marked(controls, names + [n], cal) == MarkOne(Marked(controls, names, cal), n, cal)
  {
  }

  /** ... and recording that one field's message, from the values the pass left unchanged. */
  lemma RecordedStep(slots: map<string, string>, controls: map<string, Control>, names: seq<string>, n: string, cal: Calendar)
    requires n !in names
    ensures Recorded(slots, controls, names + [n], cal)
         == RecordOne(Recorded(slots, controls, names, cal), Marked(controls, names, cal), n, cal)
  {
  }

  /** ... and validity gains that field's verdict. */
  lemma AllAcceptedStep(controls: map<string, Control>, names: seq<string>, n: string, cal: Calendar)
    ensures AllAccepted(controls, names + [n], cal)
         == (AllAccepted(controls, names, cal) && AcceptedOne(Marked(controls, names, cal), n, cal))
  {
    assert (names + [n])[..|names|] == names;
  }

  /** Step `i` of a pass over distinct names validates `names[i]`, which no earlier step touched. */
  lemma PassStep(controls: map<string, Control>, slots: map<string, string>, names: seq<string>, i: nat, cal: Calendar)
    requires Distinct(names) && i < |names|
    ensures Marked(controls, names[..i + 1], cal) == MarkOne(Marked(controls, names[..i], cal), names[i], cal)
    ensures Recorded(slots, controls, names[..i + 1], cal)
         == RecordOne(Recorded(slots, controls, names[..i], cal), Marked(controls, names[..i], cal), names[i], cal)
    ensures AllAccepted(controls, names[..i + 1], cal)
         == (AllAccepted(controls, names[..i], cal) && AcceptedOne(Marked(controls, names[..i], cal), names[i], cal))
  {
    assert names[..i + 1] == names[..i] + [names[i]];
    assert names[i] !in names[..i];
    MarkedStep(controls, names[..i], names[i], cal);
    RecordedStep(slots, controls, names[..i], names[i], cal);
    AllAcceptedStep(controls, names[..i], names[i], cal);
  }

  /**
   * After a pass over the table, a present field carries `error` exactly when its value is
   * unacceptable; every other control keeps its class, and no value changes.
   */
  lemma MarkedMeaning(controls: map<string, Control>, cal: Calendar)
    ensures Marked(controls, FieldOrder, cal).Keys == controls.Keys
    ensures forall n :: n in controls ==>
      && Marked(controls, FieldOrder, cal)[n].value == controls[n].value
      && (n in FieldOrder ==> (Marked(controls, FieldOrder, cal)[n].error <==> !Acceptable(n, controls[n].value, cal)))
      && (n !in FieldOrder ==> Marked(controls, FieldOrder, cal)[n].error == controls[n].error)
  {
    forall n | n in controls
      ensures n in FieldOrder ==> (Marked(controls, FieldOrder, cal)[n].error <==> !Acceptable(n, controls[n].value, cal))
    {
      MessageMeaning(n, controls[n].value, cal);
    }
  }

  /** The form is valid exactly when the pass leaves no field of the table marked with `error`. */
  lemma ValidIffNothingMarked(controls: map<string, Control>, cal: Calendar)
    ensures AllAccepted(controls, FieldOrder, cal) <==>
      forall n :: n in controls && n in FieldOrder ==> !Marked(controls, FieldOrder, cal)[n].error
  {
    AllAcceptedMeaning(controls, FieldOrder, cal);
    if forall n :: n in controls && n in FieldOrder ==> !Marked(controls, FieldOrder, cal)[n].error {
      forall i | 0 <= i < |FieldOrder| && FieldOrder[i] in controls
        ensures Message(FieldOrder[i], controls[FieldOrder[i]].value, cal) == ""
      {
        assert !Marked(controls, FieldOrder, cal)[FieldOrder[i]].error;
      }
    }
  }

  /** The form is valid exactly when every present field of the table holds an acceptable value. */
  lemma ValidIffAcceptable(controls: map<string, Control>, cal: Calendar)
    ensures AllAccepted(controls, FieldOrder, cal) <==>
      forall n :: n in controls && n in FieldOrder ==> Acceptable(n, controls[n].value, cal)
  {
    AllAcceptedMeaning(controls, FieldOrder, cal);
    forall n | n in controls && n in FieldOrder
      ensures Message(n, controls[n].value, cal) == "" <==> Acceptable(n, controls[n].value, cal)
    {
      MessageMeaning(n, controls[n].value, cal);
    }
    if forall n :: n in controls && n in FieldOrder ==> Acceptable(n, controls[n].value, cal) {
      forall i | 0 <= i < |FieldOrder| && FieldOrder[i] in controls
        ensures Message(FieldOrder[i], controls[FieldOrder[i]].value, cal) == ""
      {
      }
    }
  }

  /** An error slot of a present field ends up non-empty exactly when that field is marked. */
  lemma SlotsAgreeWithMarks(slots: map<string, string>, controls: map<string, Control>, cal: Calendar, n: string)
    requires n in slots && n in controls && n in FieldOrder
    ensures Recorded(slots, controls, FieldOrder, cal)[n] != "" <==> Marked(controls, FieldOrder, cal)[n].error
  {
  }

  /** Every validator of the table rejects the empty string. */
  lemma EmptyRejected(n: string, cal: Calendar)
    requires n in FieldOrder
    ensures Message(n, "", cal) != ""
  {
    MessageMeaning(n, "", cal);
    if n == "nombre" {
      assert Text.Trim("") == "";
    } else if n == "email" {
      EmailPattern.MatchesIffShape("");
    } else if n == "telefono" {
      PhonePattern.ParseDecides("");
    }
  }

  /** A reset form with any field of the table present cannot be submitted again as it is. */
  lemma ResetFormInvalid(controls: map<string, Control>, cal: Calendar, n: string)
    requires n in controls && n in FieldOrder
    ensures !AllAccepted(Reset(controls), FieldOrder, cal)
  {
    EmptyRejected(n, cal);
    AllAcceptedMeaning(Reset(controls), FieldOrder, cal);
    var i :| 0 <= i < |FieldOrder| && FieldOrder[i] == n;
    assert Reset(controls)[FieldOrder[i]].value == "";
  }
}
