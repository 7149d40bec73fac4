/**
 * The two validators of the authentication context: the e-mail shape check
 * (the regular expression `^[^\s@]+@[^\s@]+\.[^\s@]+$` applied to the trimmed
 * input) and the five password rules, reported in a fixed order.
 */
module Validation {
  import opened Wrappers
  import opened Text

  // ---------------------------------------------------------------------------
  // E-mail shape
  // ---------------------------------------------------------------------------

  /** A character of the class `[^\s@]`. */
  predicate EmailChar(c: char) {
    !IsWhitespace(c) && c != '@'
  }

  predicate AllEmailChars(s: string) {
    forall k :: 0 <= k < |s| ==> EmailChar(s[k])
  }

  /** The index of the first occurrence of `c` in `s`. */
  function IndexOf(s: string, c: char): (r: nat)
    requires c in s
    ensures r < |s| && s[r] == c && c !in s[..r]
  {
    if s[0] == c then 0 else 1 + IndexOf(s[1..], c)
  }

  /** The part after the `@`: `[^\s@]+\.[^\s@]+`, i.e. a dot with text on both sides. */
  predicate DomainShape(d: string) {
    |d| >= 3 && AllEmailChars(d) && '.' in d[1..|d| - 1]
  }

  /** The e-mail pattern decided by splitting at the (only) `@`. */
  predicate EmailShape(s: string) {
    '@' in s &&
    var i := IndexOf(s, '@');
    0 < i && AllEmailChars(s[..i]) && DomainShape(s[i + 1..])
  }

  /**
   * What the anchored regular expression accepts, stated directly: an `@` at
   * position `i` and a `.` at position `j`, each of the three runs they
   * delimit non-empty, and every other character in `[^\s@]`.
   */
  ghost predicate MatchesEmailRegex(s: string) {
    exists i, j ::
      && 0 < i && i + 1 < j < |s| - 1
      && s[i] == '@' && s[j] == '.'
      && forall k :: 0 <= k < |s| && k != i ==> EmailChar(s[k])
  }

  /** `validateEmail`: the pattern on the trimmed input. */
  predicate IsValidEmail(s: string)
    ensures IsValidEmail(s) ==> Trim(s) != []
  {
    EmailShape(Trim(s))
  }

  /** The split-at-`@` check accepts exactly the strings the regular expression matches. */
  lemma EmailShapeIsRegex(s: string)
    ensures EmailShape(s) <==> MatchesEmailRegex(s)
  {
    if EmailShape(s) {
      EmailShapeMatches(s);
    }
    if MatchesEmailRegex(s) {
      MatchHasEmailShape(s);
    }
  }

  lemma EmailShapeMatches(s: string)
    requires EmailShape(s)
    ensures MatchesEmailRegex(s)
  {
    var i := IndexOf(s, '@');
    var d := s[i + 1..];
    var m := d[1..|d| - 1];
    var p := IndexOf(m, '.');
    var j := i + 2 + p;
    assert s[j] == m[p];
    forall k | 0 <= k < |s| && k != i ensures EmailChar(s[k]) {
      if k < i {
        assert s[k] == s[..i][k];
      } else {
        assert s[k] == d[k - i - 1];
      }
    }
    assert MatchesEmailRegex(s);
  }

  lemma MatchHasEmailShape(s: string)
    requires MatchesEmailRegex(s)
    ensures EmailShape(s)
  {
    var i, j :| && 0 < i && i + 1 < j < |s| - 1
                && s[i] == '@' && s[j] == '.'
                && forall k :: 0 <= k < |s| && k != i ==> EmailChar(s[k]);
    assert '@' !in s[..i] by {
      forall k | 0 <= k < i ensures s[..i][k] != '@' {
        assert EmailChar(s[k]);
      }
    }
    assert IndexOf(s, '@') == i;
    var d := s[i + 1..];
    assert d[1..|d| - 1][j - i - 2] == s[j];
    assert AllEmailChars(d) by {
      forall k | 0 <= k < |d| ensures EmailChar(d[k]) {
        assert d[k] == s[i + 1 + k];
      }
    }
    assert AllEmailChars(s[..i]) by {
      forall k | 0 <= k < i ensures EmailChar(s[..i][k]) {
        assert s[..i][k] == s[k];
      }
    }
  }

  /** Lower-casing neither makes nor breaks the e-mail shape. */
  lemma {:induction false} EmailShapeToLower(s: string)
    ensures EmailShape(ToLower(s)) == EmailShape(s)
  {
    var l := ToLower(s);
    EmailShapeIsRegex(s);
    EmailShapeIsRegex(l);
    forall k | 0 <= k < |s| ensures SameClass(l[k], s[k]) && SameClass(s[k], l[k]) {
      LowerCharKeepsSeparators(s[k]);
    }
    if MatchesEmailRegex(s) {
      RegexSameClasses(s, l);
    }
    if MatchesEmailRegex(l) {
      RegexSameClasses(l, s);
    }
  }

  /** Two characters the pattern cannot tell apart. */
  predicate SameClass(a: char, b: char) {
    EmailChar(a) == EmailChar(b) && (a == '@') == (b == '@') && (a == '.') == (b == '.')
  }

  /** The pattern only looks at character classes, so strings that agree on them match together. */
  lemma RegexSameClasses(a: string, b: string)
    requires |a| == |b|
    requires forall k :: 0 <= k < |a| ==> SameClass(a[k], b[k])
    requires MatchesEmailRegex(a)
    ensures MatchesEmailRegex(b)
  {
    var i, j :| && 0 < i && i + 1 < j < |a| - 1
                && a[i] == '@' && a[j] == '.'
                && forall k :: 0 <= k < |a| && k != i ==> EmailChar(a[k]);
    assert b[i] == '@' && b[j] == '.';
  }

  /** An address assembled from a local part and a domain of the right shapes has the e-mail shape. */
  lemma EmailShapeOfParts(local: string, domain: string)
    requires local != [] && AllEmailChars(local) && DomainShape(domain)
    ensures EmailShape(local + "@" + domain)
  {
    var s := local + "@" + domain;
    assert s[|local|] == '@';
    assert s[..|local|] == local;
    assert s[|local| + 1..] == domain;
  }

  /** A valid address contains no white space at all and exactly one `@`. */
  lemma ValidEmailHasOneAt(s: string)
    requires EmailShape(s)
    ensures forall k :: 0 <= k < |s| ==> !IsWhitespace(s[k])
    ensures forall k :: 0 <= k < |s| && s[k] == '@' ==> k == IndexOf(s, '@')
  {
    EmailShapeIsRegex(s);
    var i, j :| && 0 < i && i + 1 < j < |s| - 1
                && s[i] == '@' && s[j] == '.'
                && forall k :: 0 <= k < |s| && k != i ==> EmailChar(s[k]);
    assert forall k :: 0 <= k < |s| && s[k] == '@' ==> k == i;
  }

  // ---------------------------------------------------------------------------
  // Password rules
  // ---------------------------------------------------------------------------

  /** The five password requirements, in the order they are checked. */
  datatype PasswordRule = MinLength | Uppercase | Lowercase | Digit | Special

  const PasswordRules: seq<PasswordRule> := [MinLength, Uppercase, Lowercase, Digit, Special]

  const MinPasswordLength: nat := 8

  /** The character class `[!@#$%^&*(),.?":{}|<>]`. */
  predicate IsSpecialChar(c: char) {
    c in {'!', '@', '#', '$', '%', '^', '&', '*', '(', ')', ',', '.', '?', '"', ':', '{', '}', '|', '<', '>'}
  }

  predicate HasCharIn(p: string, lo: char, hi: char) {
    exists k :: 0 <= k < |p| && lo <= p[k] <= hi
  }

  predicate HasSpecial(p: string) {
    exists k :: 0 <= k < |p| && IsSpecialChar(p[k])
  }

  /** Whether `p` meets rule `r` (`/[A-Z]/`, `/[a-z]/` and `/\d/` are ASCII ranges). */
  predicate Satisfies(p: string, r: PasswordRule) {
    match r
    case MinLength => |p| >= MinPasswordLength
    case Uppercase => HasCharIn(p, 'A', 'Z')
    case Lowercase => HasCharIn(p, 'a', 'z')
    case Digit => HasCharIn(p, '0', '9')
    case Special => HasSpecial(p)
  }

  /** The message the authentication context reports for a failed rule. */
  function RuleMessage(r: PasswordRule): string {
    match r
    case MinLength => "Password must be at least 8 characters long"
    case Uppercase => "Password must contain at least one uppercase letter"
    case Lowercase => "Password must contain at least one lowercase letter"
    case Digit => "Password must contain at least one number"
    case Special => "Password must contain at least one special character"
  }

  datatype PasswordCheck = PasswordCheck(isValid: bool, errors: seq<string>)

  function ErrorIf(failed: bool, message: string): seq<string> {
    if failed then [message] else []
  }

  /** `validatePassword`: one message pushed per failed rule, in rule order. */
  function ValidatePassword(p: string): (r: PasswordCheck)
    ensures r.isValid <==> r.errors == []
    ensures |r.errors| <= |PasswordRules|
  {
    var errors :=
      ErrorIf(!Satisfies(p, MinLength), RuleMessage(MinLength))
      + ErrorIf(!Satisfies(p, Uppercase), RuleMessage(Uppercase))
      + ErrorIf(!Satisfies(p, Lowercase), RuleMessage(Lowercase))
      + ErrorIf(!Satisfies(p, Digit), RuleMessage(Digit))
      + ErrorIf(!Satisfies(p, Special), RuleMessage(Special));
    PasswordCheck(|errors| == 0, errors)
  }

  /** The rules of `rules` that `p` fails, in order. */
  function FailedRules(p: string, rules: seq<PasswordRule>): (r: seq<PasswordRule>)
    ensures |r| <= |rules|
  {
    if rules == [] then []
    else (if Satisfies(p, rules[0]) then [] else [rules[0]]) + FailedRules(p, rules[1..])
  }

  function Messages(rules: seq<PasswordRule>): (r: seq<string>)
    ensures |r| == |rules|
    ensures forall k :: 0 <= k < |rules| ==> r[k] == RuleMessage(rules[k])
  {
    if rules == [] then [] else [RuleMessage(rules[0])] + Messages(rules[1..])
  }

  /** The position in `rules` of the first rule `p` fails, if any. */
  function FirstFailed(p: string, rules: seq<PasswordRule>): (r: Option<nat>)
    ensures r.None? <==> forall k :: 0 <= k < |rules| ==> Satisfies(p, rules[k])
    ensures r.Some? ==> r.value < |rules| && !Satisfies(p, rules[r.value])
    ensures r.Some? ==> forall k :: 0 <= k < r.value ==> Satisfies(p, rules[k])
  {
    if rules == [] then None
    else if !Satisfies(p, rules[0]) then Some(0)
    else match FirstFailed(p, rules[1..])
      case None => None
      case Some(i) => Some(i + 1)
  }

  /** The first rule `p` fails, in the order length, upper, lower, digit, special. */
  function FirstFailedRule(p: string): Option<PasswordRule> {
    match FirstFailed(p, PasswordRules)
    case None => None
    case Some(i) => Some(PasswordRules[i])
  }

  /** Every rule is one of the five checked ones. */
  lemma RuleListed(r: PasswordRule)
    ensures exists k :: 0 <= k < |PasswordRules| && PasswordRules[k] == r
  {
    match r
    case MinLength => assert PasswordRules[0] == r;
    case Uppercase => assert PasswordRules[1] == r;
    case Lowercase => assert PasswordRules[2] == r;
    case Digit => assert PasswordRules[3] == r;
    case Special => assert PasswordRules[4] == r;
  }

  lemma AppendAssoc<T>(a: seq<T>, b: seq<T>, c: seq<T>)
    ensures a + b + c == a + (b + c)
  {
  }

  lemma MessagesAppend(a: seq<PasswordRule>, b: seq<PasswordRule>)
    ensures Messages(a + b) == Messages(a) + Messages(b)
  {
  }

  /** One step of the filter: the head rule's message, if it fails, then the rest. */
  lemma FailedMessagesStep(p: string, rules: seq<PasswordRule>)
    requires rules != []
    ensures Messages(FailedRules(p, rules))
      == ErrorIf(!Satisfies(p, rules[0]), RuleMessage(rules[0])) + Messages(FailedRules(p, rules[1..]))
  {
    MessagesAppend(if Satisfies(p, rules[0]) then [] else [rules[0]], FailedRules(p, rules[1..]));
  }

  /** The list `validatePassword` builds is the messages of the failed rules, in rule order. */
  lemma {:induction false} ValidatePasswordErrors(p: string)
    ensures ValidatePassword(p).errors == Messages(FailedRules(p, PasswordRules))
  {
    var e0 := ErrorIf(!Satisfies(p, MinLength), RuleMessage(MinLength));
    var e1 := ErrorIf(!Satisfies(p, Uppercase), RuleMessage(Uppercase));
    var e2 := ErrorIf(!Satisfies(p, Lowercase), RuleMessage(Lowercase));
    var e3 := ErrorIf(!Satisfies(p, Digit), RuleMessage(Digit));
    var e4 := ErrorIf(!Satisfies(p, Special), RuleMessage(Special));
    var rs := PasswordRules;
    assert rs[1..] == [Uppercase, Lowercase, Digit, Special];
    assert rs[1..][1..] == [Lowercase, Digit, Special];
    assert rs[1..][1..][1..] == [Digit, Special];
    assert rs[1..][1..][1..][1..] == [Special];
    assert rs[1..][1..][1..][1..][1..] == [];
    FailedMessagesStep(p, rs[1..][1..][1..][1..]);
    assert Messages(FailedRules(p, rs[1..][1..][1..][1..])) == e4;
    FailedMessagesStep(p, rs[1..][1..][1..]);
    assert Messages(FailedRules(p, rs[1..][1..][1..])) == e3 + e4;
    FailedMessagesStep(p, rs[1..][1..]);
    assert Messages(FailedRules(p, rs[1..][1..])) == e2 + (e3 + e4);
    FailedMessagesStep(p, rs[1..]);
    assert Messages(FailedRules(p, rs[1..])) == e1 + (e2 + (e3 + e4));
    FailedMessagesStep(p, rs);
    assert Messages(FailedRules(p, rs)) == e0 + (e1 + (e2 + (e3 + e4)));
    assert ValidatePassword(p).errors == e0 + e1 + e2 + e3 + e4;
    AppendAssoc(e0 + e1 + e2, e3, e4);
    AppendAssoc(e0 + e1, e2, e3 + e4);
    AppendAssoc(e0, e1, e2 + (e3 + e4));
  }

  /** `isValid` holds exactly when every rule holds, exactly when no message is reported. */
  lemma ValidatePasswordIff(p: string)
    ensures ValidatePassword(p).isValid <==> ValidatePassword(p).errors == []
    ensures ValidatePassword(p).isValid <==> forall r :: Satisfies(p, r)
    ensures ValidatePassword(p).isValid <==> FirstFailedRule(p).None?
  {
    ValidatePasswordErrors(p);
    FailedRulesEmptyIff(p, PasswordRules);
    if FailedRules(p, PasswordRules) == [] {
      forall r ensures Satisfies(p, r) {
        RuleListed(r);
      }
    }
  }

  lemma {:induction false} FailedRulesEmptyIff(p: string, rules: seq<PasswordRule>)
    ensures FailedRules(p, rules) == [] <==> FirstFailed(p, rules).None?
  {
    if rules != [] {
      FailedRulesEmptyIff(p, rules[1..]);
    }
  }

  /** The first reported message is the one for the first failed rule (what sign-up surfaces). */
  lemma FirstPasswordError(p: string)
    requires !ValidatePassword(p).isValid
    ensures FirstFailedRule(p).Some?
    ensures ValidatePassword(p).errors[0] == RuleMessage(FirstFailedRule(p).value)
  {
    ValidatePasswordErrors(p);
    ValidatePasswordIff(p);
    FailedRulesStartWithFirst(p, PasswordRules);
  }

  lemma {:induction false} FailedRulesStartWithFirst(p: string, rules: seq<PasswordRule>)
    requires FirstFailed(p, rules).Some?
    ensures FailedRules(p, rules) != []
    ensures FailedRules(p, rules)[0] == rules[FirstFailed(p, rules).value]
  {
    if Satisfies(p, rules[0]) {
      FailedRulesStartWithFirst(p, rules[1..]);
    }
  }

  /** The number of rules `p` meets. */
  function PassedCount(p: string, rules: seq<PasswordRule>): (n: nat)
    ensures n + |FailedRules(p, rules)| == |rules|
  {
    if rules == [] then 0
    else (if Satisfies(p, rules[0]) then 1 else 0) + PassedCount(p, rules[1..])
  }

  /** Rules met and messages reported always add up to five. */
  lemma PassedPlusErrors(p: string)
    ensures PassedCount(p, PasswordRules) + |ValidatePassword(p).errors| == 5
  {
    ValidatePasswordErrors(p);
  }
}
