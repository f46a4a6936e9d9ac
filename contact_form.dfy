/**
 * The submit listener of `.contact-form form`: the three fields are trimmed,
 * checked for emptiness, the e-mail address is tested against the pattern
 * `^[^\s@]+@[^\s@]+\.[^\s@]+$`, and one of three alerts is shown.  Nothing is
 * sent anywhere; on success the form is reset.
 */
module ContactForm {
  import opened JsStrings

  /** A character of the class `[^\s@]`. */
  predicate IsAddressChar(c: char)
  {
    !IsWs(c) && c != '@'
  }

  /** s[lo..hi] is a non-empty run of `[^\s@]` characters. */
  predicate IsAddressRun(s: string, lo: int, hi: int)
  {
    0 <= lo < hi <= |s| && forall k :: lo <= k < hi ==> IsAddressChar(s[k])
  }

  /**
   * The pattern read as the regular expression reads it: a run, the `@` at
   * index at, a run, a `.` at index dot, and a run that reaches the end.
   */
  predicate MatchesAt(s: string, at: int, dot: int)
  {
    && 0 <= at < dot < |s|
    && s[at] == '@' && s[dot] == '.'
    && IsAddressRun(s, 0, at) && IsAddressRun(s, at + 1, dot) && IsAddressRun(s, dot + 1, |s|)
  }

  /** `/^[^\s@]+@[^\s@]+\.[^\s@]+$/.test(s)`. */
  predicate MatchesEmailPattern(s: string)
    ensures MatchesEmailPattern(s) ==> |s| >= 5 && '@' in s && '.' in s
  {
    exists at, dot | 0 <= at < dot < |s| :: MatchesAt(s, at, dot)
  }

  /** The domain part has a `.` that is neither its first nor its last character. */
  predicate HasInnerDot(d: string)
  {
    exists i :: 0 < i < |d| - 1 && d[i] == '.'
  }

  /** at is the one and only position of `@` in s. */
  predicate IsOnlyAt(s: string, at: int)
  {
    0 <= at < |s| && s[at] == '@' && forall k :: 0 <= k < |s| && s[k] == '@' ==> k == at
  }

  /**
   * What the pattern means for an address L@D: no whitespace anywhere, exactly
   * one `@`, a non-empty L, and a `.` strictly inside D.
   */
  predicate IsPlainAddress(s: string)
  {
    && (forall k :: 0 <= k < |s| ==> !IsWs(s[k]))
    && exists at | 0 <= at < |s| :: IsOnlyAt(s, at) && at > 0 && HasInnerDot(s[at + 1..])
  }

  /** The pattern accepts exactly the addresses of the form L@D described above. */
  lemma EmailPatternMeaning(s: string)
    ensures MatchesEmailPattern(s) <==> IsPlainAddress(s)
  {
    if MatchesEmailPattern(s) {
      var at, dot :| 0 <= at < dot < |s| && MatchesAt(s, at, dot);
      forall k | 0 <= k < |s|
        ensures !IsWs(s[k]) && (s[k] == '@' ==> k == at)
      {
        if k < at {
          assert IsAddressRun(s, 0, at);
        } else if at < k < dot {
          assert IsAddressRun(s, at + 1, dot);
        } else if dot < k {
          assert IsAddressRun(s, dot + 1, |s|);
        }
      }
      var d := s[at + 1..];
      assert d[dot - at - 1] == '.';
      assert IsOnlyAt(s, at) && HasInnerDot(d);
    }
    if IsPlainAddress(s) {
      var at :| 0 <= at < |s| && IsOnlyAt(s, at) && at > 0 && HasInnerDot(s[at + 1..]);
      var d := s[at + 1..];
      var i :| 0 < i < |d| - 1 && d[i] == '.';
      var dot := at + 1 + i;
      assert s[dot] == d[i];
      assert IsAddressRun(s, 0, at);
      assert IsAddressRun(s, at + 1, dot);
      assert IsAddressRun(s, dot + 1, |s|);
      assert MatchesAt(s, at, dot);
    }
  }

  /** The three alerts the listener can raise. */
  datatype Alert = FillAllFields | InvalidEmail | ThankYou

  /** The text of each alert. */
  function AlertText(a: Alert): (text: string)
    ensures text == "Please fill in all fields." <==> a == FillAllFields
    ensures text == "Please enter a valid email address." <==> a == InvalidEmail
    ensures text == "Thank you for your message! We will get back to you soon." <==> a == ThankYou
  {
    match a
    case FillAllFields => "Please fill in all fields."
    case InvalidEmail => "Please enter a valid email address."
    case ThankYou => "Thank you for your message! We will get back to you soon."
  }

  /** What a submission does: the alert shown and whether the form is reset. */
  datatype Outcome = Outcome(alert: Alert, resetsForm: bool)

  /**
   * The submit listener given the raw values of the name, e-mail and message
   * fields (the default submission is always prevented).
   */
  function Submit(name: string, email: string, message: string): (o: Outcome)
    ensures o.alert == FillAllFields <==> AllWs(name) || AllWs(email) || AllWs(message)
    ensures o.alert == InvalidEmail <==>
              !AllWs(name) && !AllWs(email) && !AllWs(message) && !IsPlainAddress(Trim(email))
    ensures o.alert == ThankYou <==>
              !AllWs(name) && !AllWs(message) && IsPlainAddress(Trim(email))
    ensures o.resetsForm <==> o.alert == ThankYou
  {
    var n := Trim(name);
    var e := Trim(email);
    var m := Trim(message);
    EmailPatternMeaning(e);
    if n == [] || e == [] || m == [] then Outcome(FillAllFields, false)
    else if !MatchesEmailPattern(e) then Outcome(InvalidEmail, false)
    else Outcome(ThankYou, true)
  }

  /** Whitespace around the address never changes the verdict. */
  lemma SurroundingWsIgnored(name: string, pre: string, email: string, post: string, message: string)
    requires AllWs(pre) && AllWs(post)
    ensures Submit(name, pre + email + post, message) == Submit(name, email, message)
  {
    TrimPadded(pre, email, post);
  }
}
