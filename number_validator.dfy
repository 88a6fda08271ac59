/** Whether a string may be the text of a (partially typed) decimal number: digits, at most
    one leading minus sign, at most one decimal separator after some digit, and whitespace
    anywhere. Digits are not required after the sign or the separator. */
module NumberValidator {
  import opened Wrappers

  /** The validated object: a string, or anything else (including nothing). */
  datatype Input = Text(s: string) | NotText

  /** `CharacterSet.whitespaces`: the Unicode space separators (category Zs) and tab. */
  predicate IsWhitespace(c: char) {
    c == '\t' || c == ' ' || c == '\U{00A0}' || c == '\U{1680}' || ('\U{2000}' <= c <= '\U{200A}')
    || c == '\U{202F}' || c == '\U{205F}' || c == '\U{3000}'
  }

  predicate IsDigit(c: char) {
    '0' <= c <= '9'
  }

  /** How the scanner classifies one scalar, checks taken in the scanner's order. */
  datatype Kind = Space | Digit | Separator | Minus | Other

  /** `separator` is the locale's decimal separator as a scalar, `None` when it is not a
      single scalar (then nothing matches it). */
  function KindOf(c: char, separator: Option<char>): Kind {
    if IsWhitespace(c) then Space
    else if IsDigit(c) then Digit
    else if separator == Some(c) then Separator
    else if c == '-' then Minus
    else Other
  }

  /** Whether some scalar before position `n` is of kind `k`. */
  ghost predicate Seen(s: string, separator: Option<char>, n: nat, k: Kind)
    requires n <= |s|
  {
    exists j :: 0 <= j < n && KindOf(s[j], separator) == k
  }

  /** Whether the scalar at `i` is allowed after the ones before it: whitespace and digits
      always; the separator once, after a digit; the minus sign once, before any digit. */
  ghost predicate Allowed(s: string, separator: Option<char>, i: nat)
    requires i < |s|
  {
    match KindOf(s[i], separator)
    case Space => true
    case Digit => true
    case Separator => !Seen(s, separator, i, Separator) && Seen(s, separator, i, Digit)
    case Minus => !Seen(s, separator, i, Digit) && !Seen(s, separator, i, Minus)
    case Other => false
  }

  /** Every one of the first `n` scalars of `s` is allowed. */
  ghost predicate AcceptedUpTo(s: string, separator: Option<char>, n: nat)
    requires n <= |s|
  {
    forall i :: 0 <= i < n ==> Allowed(s, separator, i)
  }

  /** The number rules for a whole input; non-strings and the empty string pass. */
  ghost predicate Accepted(input: Input, separator: Option<char>) {
    input.NotText? || AcceptedUpTo(input.s, separator, |input.s|)
  }

  /** One more scalar adds its kind to those seen. */
  lemma SeenExtend(s: string, separator: Option<char>, i: nat, k: Kind)
    requires i < |s|
    ensures Seen(s, separator, i + 1, k) <==> Seen(s, separator, i, k) || KindOf(s[i], separator) == k
  {
    if Seen(s, separator, i + 1, k) && !Seen(s, separator, i, k) {
      var j :| 0 <= j < i + 1 && KindOf(s[j], separator) == k;
    }
  }

  /** `validate(_:)`: one pass over the scalars with three flags, rejecting at the first
      scalar that breaks a rule. */
  method Validate(input: Input, separator: Option<char>) returns (ok: bool)
    ensures ok <==> Accepted(input, separator)
  {
    if input.NotText? || |input.s| == 0 {
      return true;
    }
    var s := input.s;
    var hasDecimalSeparator := false;
    var hasMinus := false;
    var hasDigits := false;
    var i := 0;
    while i < |s|
      invariant 0 <= i <= |s|
      invariant AcceptedUpTo(s, separator, i)
      invariant hasDigits == Seen(s, separator, i, Digit)
      invariant hasDecimalSeparator == Seen(s, separator, i, Separator)
      invariant hasMinus == Seen(s, separator, i, Minus)
    {
      var c := s[i];
      SeenExtend(s, separator, i, Digit);
      SeenExtend(s, separator, i, Separator);
      SeenExtend(s, separator, i, Minus);
      if IsWhitespace(c) {
      } else if IsDigit(c) {
        hasDigits := true;
      } else if separator == Some(c) {
        if hasDecimalSeparator || !hasDigits {
          assert !Allowed(s, separator, i);
          return false;
        }
        hasDecimalSeparator := true;
      } else if c == '-' {
        if hasDigits || hasMinus {
          assert !Allowed(s, separator, i);
          return false;
        }
        hasMinus := true;
      } else {
        assert !Allowed(s, separator, i);
        return false;
      }
      i := i + 1;
    }
    return true;
  }

  /** A string of whitespace only is accepted. */
  lemma WhitespaceOnlyAccepted(s: string, separator: Option<char>)
    requires forall i :: 0 <= i < |s| ==> IsWhitespace(s[i])
    ensures Accepted(Text(s), separator)
  {
  }

  /** Any scalar that is not whitespace, a digit, the separator or a minus sign rejects. */
  lemma StrayScalarRejects(s: string, separator: Option<char>, i: nat)
    requires i < |s| && KindOf(s[i], separator) == Other
    ensures !Accepted(Text(s), separator)
  {
    assert !Allowed(s, separator, i);
  }

  /** A second separator rejects. */
  lemma SecondSeparatorRejects(s: string, separator: Option<char>, i: nat, j: nat)
    requires i < j < |s| && KindOf(s[i], separator) == Separator && KindOf(s[j], separator) == Separator
    ensures !Accepted(Text(s), separator)
  {
    assert !Allowed(s, separator, j);
  }

  /** A separator with no digit before it rejects. */
  lemma SeparatorNeedsDigit(s: string, separator: Option<char>, i: nat)
    requires i < |s| && KindOf(s[i], separator) == Separator
    requires forall k :: 0 <= k < i ==> KindOf(s[k], separator) != Digit
    ensures !Accepted(Text(s), separator)
  {
    assert !Allowed(s, separator, i);
  }

  /** A minus sign after a digit rejects, and so does a second minus sign. */
  lemma MinusRules(s: string, separator: Option<char>, i: nat, j: nat)
    requires i < j < |s| && KindOf(s[j], separator) == Minus
    requires KindOf(s[i], separator) in {Digit, Minus}
    ensures !Accepted(Text(s), separator)
  {
    assert !Allowed(s, separator, j);
  }

  /** Partial input is accepted: a lone sign, and a trailing separator after digits. */
  lemma PartialNumbersAccepted()
    ensures Accepted(Text("-"), Some('.'))
    ensures Accepted(Text("5."), Some('.'))
    ensures Accepted(Text(" -12 345,5"), Some(','))
    ensures Accepted(Text(""), Some('.'))
  {
    assert KindOf("5."[0], Some('.')) == Digit;
    assert KindOf(" -12 345,5"[2], Some(',')) == Digit;
  }

  /** Misplaced signs and separators are rejected. */
  lemma MalformedNumbersRejected()
    ensures !Accepted(Text(".5"), Some('.'))
    ensures !Accepted(Text("1.2.3"), Some('.'))
    ensures !Accepted(Text("5-"), Some('.'))
    ensures !Accepted(Text("1e5"), Some('.'))
  {
    assert !Allowed(".5", Some('.'), 0);
    assert KindOf("1.2.3"[1], Some('.')) == Separator;
    assert !Allowed("1.2.3", Some('.'), 3);
    assert KindOf("5-"[0], Some('.')) == Digit;
    assert !Allowed("5-", Some('.'), 1);
    assert !Allowed("1e5", Some('.'), 1);
  }
}
