/** The five password rules the sign-up form and the sign-up endpoint both
    check, in the order both check them. The messages differ between the two;
    the rules and their order do not. */
module PasswordRules {
  import opened Common

  /** The characters of the class `[!@#$%^&*(),.?":{}|<>]`. */
  const SpecialChars: string := "!@#$%^&*(),.?\":{}|<>"

  const MinLength: nat := 8

  predicate IsSpecial(c: char) { c in SpecialChars }
  predicate IsUpper(c: char) { 'A' <= c <= 'Z' }
  predicate IsLower(c: char) { 'a' <= c <= 'z' }
  predicate IsDecimal(c: char) { '0' <= c <= '9' }

  /** `/[!@#$%^&*(),.?":{}|<>]/.test(pwd)`. */
  predicate HasSpecial(pwd: string) { exists i :: 0 <= i < |pwd| && IsSpecial(pwd[i]) }
  /** `/[A-Z]/.test(pwd)`. */
  predicate HasUpper(pwd: string) { exists i :: 0 <= i < |pwd| && IsUpper(pwd[i]) }
  /** `/[a-z]/.test(pwd)`. */
  predicate HasLower(pwd: string) { exists i :: 0 <= i < |pwd| && IsLower(pwd[i]) }
  /** `/[0-9]/.test(pwd)`. */
  predicate HasDecimal(pwd: string) { exists i :: 0 <= i < |pwd| && IsDecimal(pwd[i]) }

  datatype Rule = Length | Special | Upper | Lower | Digit

  /** The order of the `if` chain: length, special, upper, lower, digit. */
  const RuleOrder: seq<Rule> := [Length, Special, Upper, Lower, Digit]

  /** `pwd.length >= 8`, or `/[…]/.test(pwd)` for the rule's character class. */
  predicate Holds(r: Rule, pwd: string) {
    match r
    case Length => |pwd| >= MinLength
    case Special => HasSpecial(pwd)
    case Upper => HasUpper(pwd)
    case Lower => HasLower(pwd)
    case Digit => HasDecimal(pwd)
  }

  /** The first of `rules` that pwd breaks: None exactly when it breaks none,
      and otherwise a broken rule that every earlier rule lets through. */
  function FirstBroken(rules: seq<Rule>, pwd: string): (r: Option<Rule>)
    ensures r.None? <==> forall i :: 0 <= i < |rules| ==> Holds(rules[i], pwd)
    ensures r.Some? ==> exists i :: 0 <= i < |rules| && rules[i] == r.value && !Holds(r.value, pwd)
                                    && forall j :: 0 <= j < i ==> Holds(rules[j], pwd)
  {
    if rules == [] then None
    else if !Holds(rules[0], pwd) then Some(rules[0])
    else
      var r := FirstBroken(rules[1..], pwd);
      assert forall i :: 1 <= i < |rules| ==> rules[i] == rules[1..][i - 1];
      r
  }

  /** The rule a password fails first, if any. */
  function FirstBrokenRule(pwd: string): Option<Rule> {
    FirstBroken(RuleOrder, pwd)
  }

  /** A password that meets all five rules. */
  predicate Strong(pwd: string) {
    |pwd| >= MinLength && HasSpecial(pwd) && HasUpper(pwd) && HasLower(pwd) && HasDecimal(pwd)
  }

  /** No rule is broken exactly when the password is strong. */
  lemma NoneBrokenIffStrong(pwd: string)
    ensures FirstBrokenRule(pwd) == None <==> Strong(pwd)
  {
    var rules := RuleOrder;
    assert rules[0] == Length && rules[1] == Special && rules[2] == Upper && rules[3] == Lower && rules[4] == Digit;
  }

  /** A password shorter than eight characters is reported for its length,
      whatever else it lacks. */
  lemma ShortReportsLength(pwd: string)
    requires |pwd| < MinLength
    ensures FirstBrokenRule(pwd) == Some(Length)
  {
  }

  /** Trying the first rule, then the rest. */
  lemma FirstBrokenCons(r: Rule, rest: seq<Rule>, pwd: string)
    ensures FirstBroken([r] + rest, pwd) == if !Holds(r, pwd) then Some(r) else FirstBroken(rest, pwd)
  {
    assert ([r] + rest)[1..] == rest;
  }

  /** The rules in order, as the chain of `if`s tries them. */
  lemma FirstBrokenChain(pwd: string)
    ensures FirstBrokenRule(pwd)
         == if |pwd| < MinLength then Some(Length)
            else if !HasSpecial(pwd) then Some(Special)
            else if !HasUpper(pwd) then Some(Upper)
            else if !HasLower(pwd) then Some(Lower)
            else if !HasDecimal(pwd) then Some(Digit)
            else None
  {
    assert RuleOrder == [Length] + ([Special] + ([Upper] + ([Lower] + ([Digit] + []))));
    FirstBrokenCons(Length, [Special] + ([Upper] + ([Lower] + ([Digit] + []))), pwd);
    FirstBrokenCons(Special, [Upper] + ([Lower] + ([Digit] + [])), pwd);
    FirstBrokenCons(Upper, [Lower] + ([Digit] + []), pwd);
    FirstBrokenCons(Lower, [Digit] + [], pwd);
    FirstBrokenCons(Digit, [], pwd);
  }
}
