/** The e-mail check shared by both form endpoints: the regular expression
    `/^[^\s@]+@[^\s@]+\.[^\s@]+$/`. */
module EmailFormat {
  import opened RegexClasses

  /** A non-empty run of `[^\s@]`. */
  ghost predicate NoSpaceOrAt(s: string)
  {
    forall i :: 0 <= i < |s| ==> !IsWhitespace(s[i]) && s[i] != '@'
  }

  /** The regex, read literally: `s` splits at an `@` and a later `.` into
      three non-empty parts that contain neither whitespace nor `@`. The
      regex backtracks, so any `.` of the domain may serve as the split. */
  predicate MatchesEmailRegex(s: string)
  {
    exists at, dot :: 0 <= at < |s| && 0 <= dot < |s| &&
      0 < at && at + 1 < dot && dot + 1 < |s| && s[at] == '@' && s[dot] == '.' &&
      (forall i :: 0 <= i < |s| && i != at && i != dot ==> !IsWhitespace(s[i]) && s[i] != '@')
  }

  /** The same condition, stated on the address as a whole: no whitespace,
      exactly one `@`, a non-empty local part, and a `.` in the domain that is
      neither the domain's first nor its last character. */
  ghost predicate IsWellFormedEmail(s: string)
  {
    && (forall i :: 0 <= i < |s| ==> !IsWhitespace(s[i]))
    && exists at :: 0 < at < |s| && s[at] == '@' &&
         (forall j :: 0 <= j < |s| && s[j] == '@' ==> j == at) &&
         HasInnerDot(s[at + 1..])
  }

  ghost predicate HasInnerDot(domain: string)
  {
    exists k :: 0 < k < |domain| - 1 && domain[k] == '.'
  }

  lemma EmailRegexCharacterisation(s: string)
    ensures MatchesEmailRegex(s) <==> IsWellFormedEmail(s)
  {
    if MatchesEmailRegex(s) {
      MatchIsWellFormed(s);
    }
    if IsWellFormedEmail(s) {
      WellFormedMatches(s);
    }
  }

  lemma MatchIsWellFormed(s: string)
    requires MatchesEmailRegex(s)
    ensures IsWellFormedEmail(s)
  {
    var at, dot :| 0 <= at < |s| && 0 <= dot < |s| &&
      0 < at && at + 1 < dot && dot + 1 < |s| && s[at] == '@' && s[dot] == '.' &&
      (forall i :: 0 <= i < |s| && i != at && i != dot ==> !IsWhitespace(s[i]) && s[i] != '@');
    assert !IsWhitespace(s[at]) && !IsWhitespace(s[dot]);
    assert forall j :: 0 <= j < |s| && s[j] == '@' ==> j == at;
    var domain := s[at + 1..];
    assert domain[dot - at - 1] == '.';
    assert HasInnerDot(domain);
  }

  lemma WellFormedMatches(s: string)
    requires IsWellFormedEmail(s)
    ensures MatchesEmailRegex(s)
  {
    var at :| 0 < at < |s| && s[at] == '@' &&
       (forall j :: 0 <= j < |s| && s[j] == '@' ==> j == at) &&
       HasInnerDot(s[at + 1..]);
    var domain := s[at + 1..];
    var k :| 0 < k < |domain| - 1 && domain[k] == '.';
    var dot := at + 1 + k;
    assert s[dot] == '.';
    assert forall i :: 0 <= i < |s| && i != at && i != dot ==> !IsWhitespace(s[i]) && s[i] != '@';
  }
}
