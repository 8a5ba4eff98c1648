/**
 * The contact form's error annotations and its submit handler. Each control keeps an
 * `error` class flag and, in its container, the `.error-message` elements shown under
 * it; `clearFieldError` and `showFieldError` edit them, `validateField` clears and then
 * shows at most one message, and the submit handler validates every control before it
 * lets the request go out.
 */
module ContactForm {
  import opened Wrappers
  import opened FieldRules
  import HtmlEscape

  /** The four values the submit handler reads back from the form data. */
  datatype Submission = Submission(
    name: Option<string>, email: Option<string>, subject: Option<string>, message: Option<string>)

  /** The four escaped values the review panel shows. */
  datatype Review = Review(name: string, email: string, subject: string, message: string)

  /** `FormData.get(key)`: the value of the first control with that name, or nothing. */
  function FormValue(fields: seq<Field>, key: string): (r: Option<string>)
    ensures r.None? <==> forall k :: 0 <= k < |fields| ==> fields[k].name != key
    ensures r.Some? ==> (exists k :: 0 <= k < |fields| && fields[k].name == key
                          && r.value == fields[k].value && forall m :: 0 <= m < k ==> fields[m].name != key)
  {
    if fields == [] then None
    else if fields[0].name == key then Some(fields[0].value)
    else
      var r := FormValue(fields[1..], key);
      assert forall k :: 1 <= k < |fields| ==> fields[1..][k - 1] == fields[k];
      r
  }

  /** The submission as captured when the request is built (raw values, not trimmed). */
  function Capture(fields: seq<Field>): Submission {
    Submission(FormValue(fields, "name"), FormValue(fields, "email"),
               FormValue(fields, "subject"), FormValue(fields, "message"))
  }

  /**
   * `showMessageReview`: every value goes through `escapeHtml`, so no line of the panel
   * holds a character that could start markup, and each line decodes back to the value
   * submitted (a missing value to the empty string).
   */
  function ReviewOf(s: Submission): (r: Review)
    ensures HtmlEscape.NoMarkup(r.name) && HtmlEscape.NoMarkup(r.email)
    ensures HtmlEscape.NoMarkup(r.subject) && HtmlEscape.NoMarkup(r.message)
    ensures HtmlEscape.Unescape(r.name) == s.name.GetOr("")
    ensures HtmlEscape.Unescape(r.email) == s.email.GetOr("")
    ensures HtmlEscape.Unescape(r.subject) == s.subject.GetOr("")
    ensures HtmlEscape.Unescape(r.message) == s.message.GetOr("")
  {
    HtmlEscape.EscapeHtmlRoundTrip(s.name);
    HtmlEscape.EscapeHtmlRoundTrip(s.email);
    HtmlEscape.EscapeHtmlRoundTrip(s.subject);
    HtmlEscape.EscapeHtmlRoundTrip(s.message);
    Review(HtmlEscape.EscapeHtml(s.name), HtmlEscape.EscapeHtml(s.email),
           HtmlEscape.EscapeHtml(s.subject), HtmlEscape.EscapeHtml(s.message))
  }

  /**
   * The error state of one control: whether its class list holds `error`, and the texts
   * of the `.error-message` elements in its container, in document order.
   */
  datatype Mark = Mark(flagged: bool, notes: seq<string>)

  /** The error state `validateField` leaves behind for a verdict. */
  function Annotation(v: Verdict): Mark {
    match v
    case Pass => Mark(false, [])
    case Fail(e) => Mark(true, [e.Message()])
  }

  /** The container's messages once the first `.error-message` element, if any, is removed. */
  function RemoveFirst(notes: seq<string>): seq<string> {
    if notes == [] then [] else notes[1..]
  }

  /** The first `n` controls pass their rules. */
  predicate PassUpTo(fields: seq<Field>, n: nat)
    requires n <= |fields|
  {
    forall k :: 0 <= k < n ==> Check(fields[k]) == Pass
  }

  /** Every control passes its rules. */
  predicate AllPass(fields: seq<Field>) {
    PassUpTo(fields, |fields|)
  }

  /** The first `n` controls carry the annotation of their own verdict. */
  predicate AnnotatedUpTo(fields: seq<Field>, marks: seq<Mark>, n: nat)
    requires n <= |fields| && |marks| == |fields|
  {
    forall k :: 0 <= k < n ==> marks[k] == Annotation(Check(fields[k]))
  }

  /** Validating control `n` extends the passing prefix by one exactly when that control passes. */
  lemma PassStep(fields: seq<Field>, n: nat)
    requires n < |fields|
    ensures PassUpTo(fields, n + 1) <==> PassUpTo(fields, n) && Check(fields[n]) == Pass
  {
  }

  /** Annotating control `n` with its own verdict extends the annotated prefix by one. */
  lemma AnnotationStep(fields: seq<Field>, before: seq<Mark>, after: seq<Mark>, n: nat)
    requires n < |fields| && |before| == |fields|
    requires AnnotatedUpTo(fields, before, n)
    requires after == before[n := Annotation(Check(fields[n]))]
    ensures AnnotatedUpTo(fields, after, n + 1)
  {
    forall k | 0 <= k < n + 1 ensures after[k] == Annotation(Check(fields[k])) {
      if k < n {
        assert after[k] == before[k];
      }
    }
  }

  /** Writing position `i` twice keeps only the second value. */
  lemma Overwrite(s: seq<Mark>, i: nat, first: Mark, second: Mark)
    requires i < |s|
    ensures s[i := first][i := second] == s[i := second]
  {
  }

  const SendingLabel := "<i class=\"fas fa-spinner fa-spin\"></i> Sending..."

  class Form {
    /** The form's `input` and `textarea` controls, in document order. */
    var fields: seq<Field>
    /** The error state of each control. */
    var marks: seq<Mark>
    /** The submit button's label and its `disabled` state. */
    var buttonLabel: string
    var buttonDisabled: bool
    /** The submissions posted to the form's endpoint, oldest first. */
    var requests: seq<Submission>

    /** One flag and one container per control, and never more than one message in a container. */
    ghost predicate Valid()
      reads this
    {
      |marks| == |fields| && forall i :: 0 <= i < |marks| ==> |marks[i].notes| <= 1
    }

    constructor (controls: seq<Field>, initialLabel: string)
      ensures Valid()
      ensures fields == controls && buttonLabel == initialLabel && !buttonDisabled && requests == []
      ensures forall i :: 0 <= i < |fields| ==> marks[i] == Mark(false, [])
    {
      fields := controls;
      marks := seq(|controls|, _ => Mark(false, []));
      buttonLabel := initialLabel;
      buttonDisabled := false;
      requests := [];
    }

    /** `clearFieldError`: drop the `error` class and the container's message. */
    method ClearFieldError(i: nat)
      requires Valid() && i < |fields|
      modifies this`marks
      ensures Valid()
      ensures marks == old(marks)[i := Mark(false, [])]
    {
      var m := marks[i];
      marks := marks[i := Mark(false, RemoveFirst(m.notes))];
    }

    /** `showFieldError`: set the `error` class and replace the container's message by `msg`. */
    method ShowFieldError(i: nat, msg: string)
      requires Valid() && i < |fields|
      modifies this`marks
      ensures Valid()
      ensures marks == old(marks)[i := Mark(true, [msg])]
    {
      var m := marks[i];
      assert |m.notes| <= 1 && RemoveFirst(m.notes) + [msg] == [msg];
      marks := marks[i := Mark(true, RemoveFirst(m.notes) + [msg])];
    }

    /**
     * `validateField`: the answer is whether the control passes its rules, and afterwards
     * the control is flagged and holds exactly one message (the first failing rule's)
     * if and only if it does not. No other control is touched.
     */
    method ValidateField(i: nat) returns (ok: bool)
      requires Valid() && i < |fields|
      modifies this`marks
      ensures Valid()
      ensures ok <==> Check(fields[i]) == Pass
      ensures marks == old(marks)[i := Annotation(Check(fields[i]))]
    {
      var field := fields[i];
      var val := Trim(field.value);
      ghost var verdict := Check(field);
      ClearFieldError(i);
      if val == [] {
        assert verdict == Fail(Required);
        ShowFieldError(i, Required.Message());
        Overwrite(old(marks), i, Mark(false, []), Annotation(Fail(Required)));
        return false;
      }
      if field.kind == "email" && !MatchesEmailPattern(val) {
        assert verdict == Fail(InvalidEmail);
        ShowFieldError(i, InvalidEmail.Message());
        Overwrite(old(marks), i, Mark(false, []), Annotation(Fail(InvalidEmail)));
        return false;
      }
      if field.name == "name" && |val| < 2 {
        assert verdict == Fail(NameTooShort);
        ShowFieldError(i, NameTooShort.Message());
        Overwrite(old(marks), i, Mark(false, []), Annotation(Fail(NameTooShort)));
        return false;
      }
      if field.name == "message" && |val| < 10 {
        assert verdict == Fail(MessageTooShort);
        ShowFieldError(i, MessageTooShort.Message());
        Overwrite(old(marks), i, Mark(false, []), Annotation(Fail(MessageTooShort)));
        return false;
      }
      assert verdict == Pass;
      assert marks == old(marks)[i := Annotation(Pass)];
      return true;
    }

    /**
     * The handler's validation loop: every control is validated in turn,
     * with no short-circuit, so each one carries its own annotation.
     */
    method ValidateAll() returns (valid: bool)
      requires Valid()
      modifies this`marks
      ensures Valid()
      ensures valid <==> AllPass(fields)
      ensures AnnotatedUpTo(fields, marks, |fields|)
    {
      valid := true;
      var i := 0;
      while i < |fields|
        invariant Valid() && i <= |fields|
        invariant valid <==> PassUpTo(fields, i)
        invariant AnnotatedUpTo(fields, marks, i)
      {
        ghost var marks0 := marks;
        var ok := ValidateField(i);
        AnnotationStep(fields, marks0, marks, i);
        PassStep(fields, i);
        if !ok {
          valid := false;
        }
        i := i + 1;
      }
    }

    /**
     * The request step of the handler once every control passes: the button shows the
     * sending label and is disabled, the request is posted, and the button is restored.
     */
    method Send()
      modifies this`buttonLabel, this`buttonDisabled, this`requests
      ensures requests == old(requests) + [Capture(fields)]
      ensures buttonLabel == old(buttonLabel) && !buttonDisabled
    {
      var originalText := buttonLabel;
      buttonLabel := SendingLabel;
      buttonDisabled := true;
      requests := requests + [Capture(fields)];
      buttonLabel := originalText;
      buttonDisabled := false;
    }

    /**
     * The submit handler up to the network exchange. Every control is validated, so each
     * one ends up annotated with its own verdict; the submission goes ahead exactly when
     * all pass. When one fails, the button and the request log are left as they were.
     * Otherwise one request carrying the captured values is posted and the button ends
     * with its original label, enabled.
     */
    method Submit() returns (sent: bool)
      requires Valid()
      modifies this`marks, this`buttonLabel, this`buttonDisabled, this`requests
      ensures Valid()
      ensures sent <==> AllPass(fields)
      ensures AnnotatedUpTo(fields, marks, |fields|)
      ensures !sent ==> (buttonLabel == old(buttonLabel) && buttonDisabled == old(buttonDisabled)
                         && requests == old(requests))
      ensures sent ==> (requests == old(requests) + [Capture(fields)]
                        && buttonLabel == old(buttonLabel) && !buttonDisabled)
    {
      sent := ValidateAll();
      if sent {
        Send();
      }
    }
  }
}
