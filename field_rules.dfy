/**
 * The rules `validateField` applies to one form control: the trimmed value must be
 * present, an email-typed control must match the address pattern, the control named
 * "name" needs two characters and the control named "message" ten. The rules are
 * tried in that order and only the first that fails is reported.
 */
module FieldRules {

  /**
   * The characters `String.prototype.trim` strips and the regular expression class `\s`
   * matches: ECMAScript's WhiteSpace and LineTerminator code points.
   */
  predicate IsSpace(c: char) {
    c == '\U{0009}' || c == '\U{000A}' || c == '\U{000B}' || c == '\U{000C}' || c == '\U{000D}'
    || c == ' ' || c == '\U{00A0}' || c == '\U{1680}' || ('\U{2000}' <= c <= '\U{200A}')
    || c == '\U{2028}' || c == '\U{2029}' || c == '\U{202F}' || c == '\U{205F}'
    || c == '\U{3000}' || c == '\U{FEFF}'
  }

  predicate AllSpace(s: string) {
    forall k :: 0 <= k < |s| ==> IsSpace(s[k])
  }

  predicate NoSpace(s: string) {
    forall k :: 0 <= k < |s| ==> !IsSpace(s[k])
  }

  /** Drops the leading whitespace: what is dropped is all whitespace, what is kept starts with none. */
  function TrimStart(s: string): (r: string)
    ensures |r| <= |s| && r == s[|s| - |r|..]
    ensures AllSpace(s[..|s| - |r|])
    ensures r == [] || !IsSpace(r[0])
  {
    if s != [] && IsSpace(s[0]) then TrimStart(s[1..]) else s
  }

  /** Drops the trailing whitespace: what is dropped is all whitespace, what is kept ends with none. */
  function TrimEnd(s: string): (r: string)
    ensures |r| <= |s| && r == s[..|r|]
    ensures AllSpace(s[|r|..])
    ensures r == [] || !IsSpace(r[|r| - 1])
  {
    if s != [] && IsSpace(s[|s| - 1]) then TrimEnd(s[..|s| - 1]) else s
  }

  /** `String.prototype.trim`. */
  function Trim(s: string): string {
    TrimEnd(TrimStart(s))
  }

  /** `r` sits in `s` at offset `i`, with only whitespace before and after it. */
  predicate TrimmedAt(s: string, r: string, i: nat) {
    i + |r| <= |s| && s[i..i + |r|] == r && AllSpace(s[..i]) && AllSpace(s[i + |r|..])
  }

  /** `Trim(s)` is the middle of `s` between a whitespace prefix and a whitespace suffix. */
  lemma TrimShape(s: string)
    ensures exists i :: TrimmedAt(s, Trim(s), i)
  {
    var t := TrimStart(s);
    var r := TrimEnd(t);
    var i := |s| - |t|;
    assert AllSpace(s[..i]);
    assert t == s[i..] && r == t[..|r|];
    assert s[i..i + |r|] == r;
    assert AllSpace(t[|r|..]) && s[i + |r|..] == t[|r|..];
    assert r == Trim(s);
    assert TrimmedAt(s, Trim(s), i);
  }

  /** `Trim(s)` neither starts nor ends with whitespace. */
  lemma TrimEnds(s: string)
    ensures Trim(s) == [] || (!IsSpace(Trim(s)[0]) && !IsSpace(Trim(s)[|Trim(s)| - 1]))
  {
    var t := TrimStart(s);
    var r := TrimEnd(t);
    if r != [] {
      assert r[0] == t[0];
    }
  }

  /** The trimmed value is empty exactly when the value is whitespace only (or empty). */
  lemma TrimEmptyIffAllSpace(s: string)
    ensures Trim(s) == [] <==> AllSpace(s)
  {
    var t := TrimStart(s);
    var n := |s| - |t|;
    if AllSpace(s) {
      assert t == [];
    }
    if Trim(s) == [] {
      assert AllSpace(t[0..]);
      assert t == [];
      assert s[..n] == s;
    }
  }

  /** A run of one or more characters from the class `[^\s@]`. */
  predicate IsWord(w: string) {
    |w| > 0 && forall k :: 0 <= k < |w| ==> w[k] != '@' && !IsSpace(w[k])
  }

  /**
   * The regular expression `/^[^\s@]+@[^\s@]+\.[^\s@]+$/`: the whole string splits into a
   * word, `@`, a word, `.`, and a word.
   */
  predicate MatchesEmailPattern(s: string) {
    exists i, j | 0 < i < j < |s| - 1 ::
      s[i] == '@' && s[j] == '.' && IsWord(s[..i]) && IsWord(s[i + 1..j]) && IsWord(s[j + 1..])
  }

  /** The domain part holds a `.` that is neither its first nor its last character. */
  predicate HasInnerDot(d: string) {
    exists j :: 0 < j < |d| - 1 && d[j] == '.'
  }

  /** No character of `s` other than the one at `i` is an `@`. */
  predicate OnlyAtSignAt(s: string, i: int) {
    forall k :: 0 <= k < |s| && s[k] == '@' ==> k == i
  }

  /** An address without any `@` never matches. */
  lemma EmailNeedsAtSign(s: string)
    requires '@' !in s
    ensures !MatchesEmailPattern(s)
  {
    forall i | 0 <= i < |s| ensures s[i] != '@' {
      assert s[i] in s;
    }
  }

  /**
   * The address shape around the `@` at `i`: it is the only `@`, the local part before it
   * is non-empty and free of whitespace, and the domain after it is free of whitespace
   * and has a `.` that is neither its first nor its last character.
   */
  predicate EmailShapeAt(s: string, i: nat)
    requires i < |s|
  {
    OnlyAtSignAt(s, i) && i > 0 && NoSpace(s[..i]) && NoSpace(s[i + 1..]) && HasInnerDot(s[i + 1..])
  }

  /** The characters of a slice that is a word, read off in the whole string. */
  lemma WordSlice(s: string, lo: nat, hi: nat)
    requires lo <= hi <= |s| && IsWord(s[lo..hi])
    ensures lo < hi
    ensures forall k :: lo <= k < hi ==> s[k] != '@' && !IsSpace(s[k])
  {
    var w := s[lo..hi];
    forall k | lo <= k < hi ensures s[k] != '@' && !IsSpace(s[k]) {
      assert w[k - lo] == s[k];
    }
  }

  /** A non-empty slice whose characters are all outside `[\s@]` is a word. */
  lemma SliceWord(s: string, lo: nat, hi: nat)
    requires lo < hi <= |s|
    requires forall k :: lo <= k < hi ==> s[k] != '@' && !IsSpace(s[k])
    ensures IsWord(s[lo..hi])
  {
    var w := s[lo..hi];
    forall k | 0 <= k < |w| ensures w[k] != '@' && !IsSpace(w[k]) {
      assert w[k] == s[lo + k];
    }
  }

  /** Outside the separating `@`, a string matching the pattern holds no `@` and no whitespace. */
  lemma PatternChars(s: string, a: nat, j: nat)
    requires 0 < a < j < |s| - 1 && s[a] == '@' && s[j] == '.'
    requires IsWord(s[..a]) && IsWord(s[a + 1..j]) && IsWord(s[j + 1..])
    ensures forall k :: 0 <= k < |s| && k != a ==> s[k] != '@' && !IsSpace(s[k])
  {
    assert s[..a] == s[0..a] && s[j + 1..] == s[j + 1..|s|];
    WordSlice(s, 0, a);
    WordSlice(s, a + 1, j);
    WordSlice(s, j + 1, |s|);
  }

  /** A slice of characters that are not whitespace has no whitespace. */
  lemma NoSpaceSlice(s: string, lo: nat, hi: nat)
    requires lo <= hi <= |s|
    requires forall k :: lo <= k < hi ==> !IsSpace(s[k])
    ensures NoSpace(s[lo..hi])
  {
    var w := s[lo..hi];
    forall k | 0 <= k < |w| ensures !IsSpace(w[k]) {
      assert w[k] == s[lo + k];
    }
  }

  lemma PatternGivesShape(s: string, i: nat)
    requires i < |s| && s[i] == '@' && MatchesEmailPattern(s)
    ensures EmailShapeAt(s, i)
  {
    var a, j :| 0 < a < j < |s| - 1 && s[a] == '@' && s[j] == '.'
      && IsWord(s[..a]) && IsWord(s[a + 1..j]) && IsWord(s[j + 1..]);
    PatternChars(s, a, j);
    assert a == i;
    assert OnlyAtSignAt(s, i);
    NoSpaceSlice(s, 0, i);
    NoSpaceSlice(s, i + 1, |s|);
    assert s[..i] == s[0..i] && s[i + 1..] == s[i + 1..|s|];
    var d := s[i + 1..];
    var jd := j - i - 1;
    assert 0 < jd < |d| - 1 && d[jd] == '.';
  }

  lemma ShapeGivesPattern(s: string, i: nat)
    requires i < |s| && s[i] == '@' && EmailShapeAt(s, i)
    ensures MatchesEmailPattern(s)
  {
    var local, d := s[..i], s[i + 1..];
    var jd :| 0 < jd < |d| - 1 && d[jd] == '.';
    var j := i + 1 + jd;
    assert s[j] == '.';
    forall k | 0 <= k < |s| && k != i ensures s[k] != '@' && !IsSpace(s[k]) {
      if k < i {
        assert local[k] == s[k];
      } else {
        assert d[k - i - 1] == s[k];
      }
    }
    SliceWord(s, 0, i);
    SliceWord(s, i + 1, j);
    SliceWord(s, j + 1, |s|);
    assert s[..i] == s[0..i] && s[j + 1..] == s[j + 1..|s|];
  }

  /**
   * With `i` the position of an `@`, the pattern holds exactly when that `@` is the only
   * one, the local part before it is non-empty and free of whitespace, and the domain
   * after it is free of whitespace and has a `.` that is neither its first nor its last character.
   */
  lemma EmailPatternIff(s: string, i: nat)
    requires i < |s| && s[i] == '@'
    ensures MatchesEmailPattern(s) <==> EmailShapeAt(s, i)
  {
    if MatchesEmailPattern(s) {
      PatternGivesShape(s, i);
    }
    if EmailShapeAt(s, i) {
      ShapeGivesPattern(s, i);
    }
  }

  /** An address whose domain has no dot fails, as `a@b` does. */
  lemma NoDotAfterAtFails()
    ensures !MatchesEmailPattern("a@b")
  {
    EmailPatternIff("a@b", 1);
  }

  /** A one-character local part, domain and top-level label suffice, as in `a@b.co`. */
  lemma ShortAddressPasses()
    ensures MatchesEmailPattern("a@b.co")
  {
    var s := "a@b.co";
    assert s[..1] == "a" && s[2..3] == "b" && s[4..] == "co";
    assert 0 < 1 < 3 < |s| - 1 && s[1] == '@' && s[3] == '.'
      && IsWord(s[..1]) && IsWord(s[2..3]) && IsWord(s[4..]);
  }

  /** A form control as `validateField` sees it: its `name`, its `type` and its current value. */
  datatype Field = Field(name: string, kind: string, value: string)

  /** The failures `validateField` reports, in the order its rules are tried. */
  datatype FieldError = Required | InvalidEmail | NameTooShort | MessageTooShort {

    /** The text `showFieldError` places under the control. */
    function Message(): string {
      match this
      case Required => "This field is required"
      case InvalidEmail => "Enter valid email"
      case NameTooShort => "Name at least 2 chars"
      case MessageTooShort => "Message at least 10 chars"
    }

    /** Position of the rule in the order the checks run. */
    function Rank(): nat {
      match this
      case Required => 0
      case InvalidEmail => 1
      case NameTooShort => 2
      case MessageTooShort => 3
    }
  }

  datatype Verdict = Pass | Fail(error: FieldError)

  /** Whether the rule behind `e`, taken on its own, rejects the control. */
  predicate Violates(f: Field, e: FieldError) {
    match e
    case Required => AllSpace(f.value)
    case InvalidEmail => f.kind == "email" && !MatchesEmailPattern(Trim(f.value))
    case NameTooShort => f.name == "name" && |Trim(f.value)| < 2
    case MessageTooShort => f.name == "message" && |Trim(f.value)| < 10
  }

  /**
   * The decision `validateField` makes: the first rule, in the order required, email
   * shape, name length, message length, that the trimmed value violates; a pass when none does.
   */
  function Check(f: Field): (r: Verdict)
    ensures r == Fail(Required) <==> AllSpace(f.value)
  {
    var val := Trim(f.value);
    TrimEmptyIffAllSpace(f.value);
    if val == [] then Fail(Required)
    else if f.kind == "email" && !MatchesEmailPattern(val) then Fail(InvalidEmail)
    else if f.name == "name" && |val| < 2 then Fail(NameTooShort)
    else if f.name == "message" && |val| < 10 then Fail(MessageTooShort)
    else Pass
  }

  /** A control passes exactly when no rule rejects it. */
  lemma PassIffNoRuleViolated(f: Field)
    ensures Check(f) == Pass <==> forall e :: !Violates(f, e)
  {
    if Check(f) != Pass {
      assert Violates(f, Check(f).error);
    }
  }

  /** A failing control is reported with the first rule, in checking order, that rejects it. */
  lemma FirstViolationReported(f: Field)
    requires Check(f).Fail?
    ensures Violates(f, Check(f).error)
    ensures forall e: FieldError :: e.Rank() < Check(f).error.Rank() ==> !Violates(f, e)
  {
    TrimEmptyIffAllSpace(f.value);
  }

  /** An empty or whitespace-only value is reported as missing whatever the control is. */
  lemma BlankIsRequired(f: Field)
    requires AllSpace(f.value)
    ensures Check(f) == Fail(Required)
  {
    TrimEmptyIffAllSpace(f.value);
  }

  /** The control named "name" (not typed email) fails exactly when its trimmed value is shorter than 2. */
  lemma NameRule(f: Field)
    requires f.name == "name" && f.kind != "email"
    ensures Check(f) != Pass <==> |Trim(f.value)| < 2
    ensures Check(f) == Fail(NameTooShort) <==> 0 < |Trim(f.value)| < 2
  {
    TrimEmptyIffAllSpace(f.value);
  }

  /** The control named "message" (not typed email) fails exactly when its trimmed value is shorter than 10. */
  lemma MessageRule(f: Field)
    requires f.name == "message" && f.kind != "email"
    ensures Check(f) != Pass <==> |Trim(f.value)| < 10
    ensures Check(f) == Fail(MessageTooShort) <==> 0 < |Trim(f.value)| < 10
  {
    TrimEmptyIffAllSpace(f.value);
  }

  /** Any other non-email control, such as "subject", passes exactly when it is not blank. */
  lemma OtherFieldRule(f: Field)
    requires f.name != "name" && f.name != "message" && f.kind != "email"
    ensures Check(f) == Pass <==> !AllSpace(f.value)
  {
    TrimEmptyIffAllSpace(f.value);
  }

  /** The email control fails with `InvalidEmail` exactly when its non-blank trimmed value misses the pattern. */
  lemma EmailRule(f: Field)
    requires f.kind == "email" && f.name != "name" && f.name != "message"
    ensures Check(f) == Pass <==> MatchesEmailPattern(Trim(f.value))
    ensures Check(f) == Fail(InvalidEmail) <==> !AllSpace(f.value) && !MatchesEmailPattern(Trim(f.value))
  {
    TrimEmptyIffAllSpace(f.value);
    if MatchesEmailPattern(Trim(f.value)) {
      assert Trim(f.value) != [];
    }
  }
}
