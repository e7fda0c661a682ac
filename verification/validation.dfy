/**
 The three format checks of the registry, each an anchored regular
 expression in the C++ code, stated over character classes.
 */
module Validation {

  import opened Optional
  import opened CppText

  /** `^[0-9]{10,12}$`: ten to twelve ASCII digits and nothing else. */
  predicate ValidAccountNumber(s: string)
  {
    10 <= |s| <= 12 && forall i :: 0 <= i < |s| ==> IsDigit(s[i])
  }

  /** `^[A-Z]{4}[0-9]{7}$`: four upper-case ASCII letters, then seven ASCII digits. */
  predicate ValidIfscCode(s: string)
  {
    && |s| == 11
    && (forall i :: 0 <= i < 4 ==> IsUpper(s[i]))
    && (forall i :: 4 <= i < 11 ==> IsDigit(s[i]))
  }

  /** Ten and twelve digits pass; nine or thirteen digits, or a letter among ten characters, do not. */
  lemma AccountNumberBoundaries()
    ensures ValidAccountNumber("1234567890") && ValidAccountNumber("123456789012")
    ensures !ValidAccountNumber("123456789") && !ValidAccountNumber("1234567890123")
    ensures !ValidAccountNumber("12345678a0")
  {
    assert "12345678a0"[8] == 'a';
  }

  /** Upper-case letters then digits pass; lower-case letters, or a digit among the first four, do not. */
  lemma IfscCodeBoundaries()
    ensures ValidIfscCode("BODD0000001")
    ensures !ValidIfscCode("bodd0000001") && !ValidIfscCode("BOD00000001")
    ensures !ValidIfscCode("BODD000001")
  {
    assert "bodd0000001"[0] == 'b';
    assert "BOD00000001"[3] == '0';
  }

  /**
   The registry upper-cases an IFSC code before checking its format, so the
   check accepts a code exactly when it is four ASCII letters of either case
   followed by seven ASCII digits.
   */
  lemma IfscFormatIgnoresCase(s: string)
    ensures ValidIfscCode(Upper(s)) <==>
      |s| == 11 && (forall i :: 0 <= i < 4 ==> IsLetter(s[i])) && (forall i :: 4 <= i < 11 ==> IsDigit(s[i]))
  {
    var u := Upper(s);
    if |s| == 11 {
      assert forall i :: 0 <= i < 11 ==> u[i] == UpperChar(s[i]);
    }
  }

  /** A well-formed IFSC code has no lower-case letter, so upper-casing leaves it as it is. */
  lemma UpperKeepsValidIfsc(s: string)
    ensures ValidIfscCode(s) ==> Upper(s) == s
  {
    if ValidIfscCode(s) {
      assert forall i :: 0 <= i < |s| ==> Upper(s)[i] == s[i];
    }
  }

  predicate IsLocalChar(c: char)
  {
    IsLetter(c) || IsDigit(c) || c == '.' || c == '_' || c == '%' || c == '+' || c == '-'
  }

  predicate IsDomainChar(c: char)
  {
    IsLetter(c) || IsDigit(c) || c == '.' || c == '-'
  }

  /**
   `s` reads as `local@domain.tld` with the `@` at `at` and the final dot at
   `dot`: `[a-zA-Z0-9._%+-]+` before the `@`, `[a-zA-Z0-9.-]+` between it and
   the dot, and `[a-zA-Z]{2,}` after the dot.
   */
  predicate EmailSplitAt(s: string, at: int, dot: int)
  {
    && 0 < at && at + 1 < dot && dot + 2 < |s|
    && s[at] == '@' && s[dot] == '.'
    && (forall i :: 0 <= i < at ==> IsLocalChar(s[i]))
    && (forall i :: at < i < dot ==> IsDomainChar(s[i]))
    && (forall i :: dot < i < |s| ==> IsLetter(s[i]))
  }

  /** The regular expression `^[a-zA-Z0-9._%+-]+@[a-zA-Z0-9.-]+\.[a-zA-Z]{2,}$` matches `s`. */
  ghost predicate EmailMatches(s: string)
  {
    exists at, dot :: EmailSplitAt(s, at, dot)
  }

  /**
   `validateEmail`, decided without backtracking: neither character class
   before the top-level domain admits `@`, and the top-level domain admits no
   dot, so the only candidate split is at the first `@` and the last dot.
   */
  function ValidEmail(s: string): (ok: bool)
    ensures ok ==> EmailMatches(s)
  {
    match (FirstIndexOf(s, '@'), LastIndexOf(s, '.'))
    case (Some(at), Some(dot)) => EmailSplitAt(s, at, dot)
    case _ => false
  }

  /** Every address the regular expression matches passes `ValidEmail`: the two agree. */
  lemma ValidEmailComplete(s: string)
    ensures EmailMatches(s) ==> ValidEmail(s)
  {
    if EmailMatches(s) {
      var at, dot :| EmailSplitAt(s, at, dot);
      SplitIsFirstAtLastDot(s, at, dot);
    }
  }

  /** Any valid split puts the `@` at its first occurrence and the dot at its last. */
  lemma SplitIsFirstAtLastDot(s: string, at: int, dot: int)
    requires EmailSplitAt(s, at, dot)
    ensures FirstIndexOf(s, '@') == Some(at as nat)
    ensures LastIndexOf(s, '.') == Some(dot as nat)
  {
    var f := FirstIndexOf(s, '@');
    var l := LastIndexOf(s, '.');
    assert s[at] == '@';
    assert f.Some?;
    assert forall i :: 0 <= i < at ==> s[i] != '@';
    assert forall i :: at < i < |s| && s[i] == '@' ==> i < dot;
    assert forall i :: dot < i < |s| ==> s[i] != '.';
  }

  /** The top-level domain needs at least two letters: `a@b.c` is refused, `a@b.co` accepted. */
  lemma EmailNeedsTwoLetterDomain()
    ensures !ValidEmail("a@b.c")
    ensures ValidEmail("a@b.co")
  {
    assert EmailSplitAt("a@b.co", 1, 3);
    ValidEmailComplete("a@b.co");
  }

}
