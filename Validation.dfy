/**
 * The per-field rule chain shared by `validateField` (on blur) and
 * `validateForm` (on submit): required, then the e-mail pattern
 * `/\S+@\S+\.\S+/`, then the minimum length.
 */
module Validation {
  import opened Wrappers
  import opened Text

  /** The `type` attribute, as far as the rules look at it. */
  datatype InputType = EmailInput | OtherInput

  /**
   * A form control: its raw value, whether it carries `required`, its type,
   * its `minlength` if it has one, and whether its next sibling is an
   * `.error-message` element.
   */
  datatype Field = Field(
    value: string,
    required: bool,
    inputType: InputType,
    minLength: Option<nat>,
    hasErrorSlot: bool)

  datatype FieldError = Required | InvalidEmail | TooShort(minLength: nat)

  /** The text shown in the field's error element. */
  function Message(e: FieldError): (r: string)
    ensures |r| > 0 && r[|r| - 1] == '.'
  {
    match e
    case Required => "This field is required."
    case InvalidEmail => "Please enter a valid email address."
    case TooShort(n) => "Must be at least " + NatToString(n) + " characters."
  }

  /** Distinct errors show distinct texts; for two minimum lengths, because the digits read back. */
  lemma MessagesDiffer(e1: FieldError, e2: FieldError)
    requires e1 != e2
    ensures Message(e1) != Message(e2)
  {
    if e1.TooShort? && e2.TooShort? {
      NatToStringRoundTrip(e1.minLength);
      NatToStringRoundTrip(e2.minLength);
      var p, q := "Must be at least ", " characters.";
      var d1, d2 := NatToString(e1.minLength), NatToString(e2.minLength);
      if |d1| == |d2| {
        assert (p + d1 + q)[|p|..|p| + |d1|] == d1;
        assert (p + d2 + q)[|p|..|p| + |d2|] == d2;
      } else {
        assert |p + d1 + q| != |p + d2 + q|;
      }
    } else {
      assert Message(e1)[0] != Message(e2)[0];
    }
  }

  /** The regex `\S+@\S+\.\S+` matches with its `@` at `p` and its `.` at `q`. */
  predicate EmailMatchAt(s: string, p: int, q: int) {
    && 0 < p < q < |s| - 1
    && s[p] == '@' && s[q] == '.'
    && !IsSpace(s[p - 1])
    && p + 1 < q
    && (forall k :: p < k < q ==> !IsSpace(s[k]))
    && !IsSpace(s[q + 1])
  }

  /** `/\S+@\S+\.\S+/.test(s)`: the pattern is unanchored, so it is a search. */
  predicate EmailShaped(s: string)
    ensures EmailShaped(s) ==> |s| >= 5 && '@' in s && '.' in s
  {
    exists p, q :: 0 < p < q < |s| - 1 && EmailMatchAt(s, p, q)
  }

  /** An unanchored pattern still matches with text added on either side. */
  lemma EmailShapedInfix(pre: string, s: string, post: string)
    requires EmailShaped(s)
    ensures EmailShaped(pre + s + post)
  {
    var p, q :| 0 < p < q < |s| - 1 && EmailMatchAt(s, p, q);
    var t := pre + s + post;
    var d := |pre|;
    assert |t| == d + |s| + |post|;
    assert forall k :: 0 <= k < |s| ==> t[d + k] == s[k];
    forall k | p + d < k < q + d ensures !IsSpace(t[k]) {
      assert t[d + (k - d)] == s[k - d];
    }
    assert t[p + d - 1] == s[p - 1] && t[q + d + 1] == s[q + 1];
    assert EmailMatchAt(t, p + d, q + d);
  }

  lemma SeedEmailsShaped()
    ensures EmailShaped("aisha@technova.com")
    ensures EmailShaped("bob@technova.com")
    ensures EmailShaped("charlie@technova.com")
  {
    assert EmailMatchAt("aisha@technova.com", 5, 14);
    assert EmailMatchAt("bob@technova.com", 3, 12);
    assert EmailMatchAt("charlie@technova.com", 7, 16);
  }

  /** An address without a dot after the `@`, or with nothing before it, is rejected. */
  lemma RejectedEmails()
    ensures !EmailShaped("a@b")
    ensures !EmailShaped("@b.c")
  {
    forall p, q ensures !EmailMatchAt("a@b", p, q) {
    }
    forall p, q ensures !EmailMatchAt("@b.c", p, q) {
    }
  }

  /** The outcome of the rule chain for one field: no error, or the first rule it breaks. */
  function CheckField(f: Field): (r: Option<FieldError>)
    ensures f.required && Trim(f.value) == [] ==> r == Some(Required)
    ensures r == None <==>
      && (f.required ==> Trim(f.value) != [])
      && (f.inputType == EmailInput ==> EmailShaped(Trim(f.value)))
      && (f.minLength.Some? ==> |Trim(f.value)| >= f.minLength.value)
  {
    var v := Trim(f.value);
    if f.required && v == [] then Some(Required)
    else if f.inputType == EmailInput && !EmailShaped(v) then Some(InvalidEmail)
    else if f.minLength.Some? && |v| < f.minLength.value then Some(TooShort(f.minLength.value))
    else None
  }

  /** Each error is reported only when every rule ahead of it passed. */
  lemma CheckFieldOrder(f: Field)
    ensures CheckField(f) == Some(InvalidEmail) <==>
      !(f.required && Trim(f.value) == []) && f.inputType == EmailInput && !EmailShaped(Trim(f.value))
    ensures CheckField(f).Some? && CheckField(f).value.TooShort? <==>
      && !(f.required && Trim(f.value) == [])
      && (f.inputType == EmailInput ==> EmailShaped(Trim(f.value)))
      && f.minLength.Some? && |Trim(f.value)| < f.minLength.value
  {
  }

  /** `validateForm` looks at required controls whose next sibling is an error element. */
  predicate Inspected(f: Field) {
    f.required && f.hasErrorSlot
  }

  /** The form passes when no inspected control breaks a rule. */
  predicate FormValid(fields: seq<Field>) {
    forall i :: 0 <= i < |fields| && Inspected(fields[i]) ==> CheckField(fields[i]) == None
  }

  /** What one pass of `validateForm` leaves on a control's error element. */
  datatype Mark = Skipped | Cleared | Flagged(error: FieldError)

  function MarkFor(f: Field): (r: Mark)
    ensures r == Skipped <==> !Inspected(f)
    ensures r.Flagged? <==> Inspected(f) && CheckField(f).Some?
    ensures r.Flagged? ==> r.error == CheckField(f).value
  {
    if !Inspected(f) then Skipped
    else match CheckField(f)
      case None => Cleared
      case Some(e) => Flagged(e)
  }

  /**
   * `validateForm`: walks the controls in document order, clears or sets each
   * inspected control's error, and lowers `isValid` on the first failure without
   * stopping, so every control gets its mark.
   */
  method ValidateForm(fields: seq<Field>) returns (isValid: bool, marks: seq<Mark>)
    ensures isValid == FormValid(fields)
    ensures |marks| == |fields|
    ensures forall i :: 0 <= i < |fields| ==> marks[i] == MarkFor(fields[i])
    ensures isValid <==> forall i :: 0 <= i < |fields| ==> !marks[i].Flagged?
  {
    isValid := true;
    marks := [];
    var i := 0;
    while i < |fields|
      invariant 0 <= i <= |fields|
      invariant |marks| == i
      invariant forall k :: 0 <= k < i ==> marks[k] == MarkFor(fields[k])
      invariant isValid <==> forall k :: 0 <= k < i ==> !marks[k].Flagged?
    {
      var field := fields[i];
      if !Inspected(field) {
        marks := marks + [Skipped];
      } else {
        var outcome := CheckField(field);
        if outcome.None? {
          marks := marks + [Cleared];
        } else {
          marks := marks + [Flagged(outcome.value)];
          isValid := false;
        }
      }
      i := i + 1;
    }
  }

  /** An inspected control whose trimmed value is empty makes the whole form fail. */
  lemma EmptyRequiredFieldFailsForm(fields: seq<Field>, i: nat)
    requires i < |fields| && Inspected(fields[i]) && Trim(fields[i].value) == []
    ensures !FormValid(fields)
  {
    assert CheckField(fields[i]) == Some(Required);
  }
}
