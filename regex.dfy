/** The three JavaScript regular expressions the routes test form fields with, written as
    predicates on the string. A lookahead `(?=.*X)` at the start of the pattern succeeds
    when an X character occurs before the first line terminator, since `.` matches any
    character except a line terminator. */
module Regex {

  /** ECMAScript line terminators: the characters `.` does not match. */
  predicate IsLineTerminator(c: char) {
    c == '\n' || c == '\r' || c == '\U{2028}' || c == '\U{2029}'
  }

  predicate IsUpper(c: char) { 'A' <= c <= 'Z' }

  predicate IsLower(c: char) { 'a' <= c <= 'z' }

  /** `\d`. */
  predicate IsDigit(c: char) { '0' <= c <= '9' }

  /** `[a-zA-Z0-9_]`. */
  predicate IsWordChar(c: char) { IsUpper(c) || IsLower(c) || IsDigit(c) || c == '_' }

  /** `(?=.*X)` tried at the start of `s`. */
  predicate LookaheadFinds(s: string, x: char -> bool) {
    s != [] && (x(s[0]) || (!IsLineTerminator(s[0]) && LookaheadFinds(s[1..], x)))
  }

  /** The lookahead finds an X exactly when one occurs with no line terminator before it. */
  lemma {:induction false} LookaheadFindsMeans(s: string, x: char -> bool)
    ensures LookaheadFinds(s, x) <==>
              exists i :: 0 <= i < |s| && x(s[i]) && forall j :: 0 <= j < i ==> !IsLineTerminator(s[j])
  {
    if s != [] {
      LookaheadFindsMeans(s[1..], x);
      if LookaheadFinds(s, x) && !x(s[0]) {
        var i :| 0 <= i < |s[1..]| && x(s[1..][i]) && forall j :: 0 <= j < i ==> !IsLineTerminator(s[1..][j]);
        assert x(s[i + 1]) && forall j :: 0 <= j < i + 1 ==> !IsLineTerminator(s[j]);
      }
      if exists i :: 0 <= i < |s| && x(s[i]) && forall j :: 0 <= j < i ==> !IsLineTerminator(s[j]) {
        var i :| 0 <= i < |s| && x(s[i]) && forall j :: 0 <= j < i ==> !IsLineTerminator(s[j]);
        if i > 0 {
          assert x(s[1..][i - 1]) && forall j :: 0 <= j < i - 1 ==> !IsLineTerminator(s[1..][j]);
        }
      }
    }
  }

  /** On a string without line terminators the lookahead is plain membership. */
  lemma LookaheadFindsOnOneLine(s: string, x: char -> bool)
    requires forall i :: 0 <= i < |s| ==> !IsLineTerminator(s[i])
    ensures LookaheadFinds(s, x) <==> exists i :: 0 <= i < |s| && x(s[i])
  {
    LookaheadFindsMeans(s, x);
  }

  /** `/^[a-zA-Z0-9_]{5,20}$/`. */
  predicate UsernamePattern(s: string) {
    5 <= |s| <= 20 && forall i :: 0 <= i < |s| ==> IsWordChar(s[i])
  }

  /** The special class of the registration pattern: `[!@#$%^&*()_+\-=\[\]{};':"\\|,.<>\/?]`. */
  predicate IsRegisterSymbol(c: char) {
    c in "!@#$%^&*()_+-=[]{};':\"\\|,.<>/?"
  }

  /** The length of `s` as JavaScript counts it, in UTF-16 code units: a character beyond
      the Basic Multilingual Plane is a surrogate pair and counts twice. */
  function Utf16Length(s: string): (n: nat)
    ensures |s| <= n <= 2 * |s|
  {
    if s == [] then 0
    else (if s[0] > '\U{FFFF}' then 2 else 1) + Utf16Length(s[1..])
  }

  /** Without astral characters the two lengths agree. */
  lemma {:induction false} Utf16LengthOfBmp(s: string)
    requires forall i :: 0 <= i < |s| ==> s[i] <= '\U{FFFF}'
    ensures Utf16Length(s) == |s|
  {
    if s != [] {
      Utf16LengthOfBmp(s[1..]);
    }
  }

  /** `/^(?=.*[A-Z])(?=.*\d)(?=.*[special]).{8,}$/` without the `u` flag: `.` matches any
      code unit but a line terminator, so `.{8,}` asks for eight code units, and the
      halves of a surrogate pair are never letters, digits or symbols. */
  predicate RegisterPasswordPattern(s: string) {
    && LookaheadFinds(s, IsUpper)
    && LookaheadFinds(s, IsDigit)
    && LookaheadFinds(s, IsRegisterSymbol)
    && Utf16Length(s) >= 8
    && forall i :: 0 <= i < |s| ==> !IsLineTerminator(s[i])
  }

  /** The symbol class of the account page's PASSWORD_REGEX,
      ``[!@#$%^&*()_+~`|}{[\]:;?><,./-=]``: the listed symbols, and `/-=` read as the
      range from '/' (U+002F) to '=' (U+003D), which holds the ten digits and no '-'. */
  predicate IsAccountSymbol(c: char) {
    c in "!@#$%^&*()_+~`|}{[]:;?><,." || '/' <= c <= '='
  }

  /** `[A-Za-z\d<symbols>]`: the whole alphabet of PASSWORD_REGEX. */
  predicate IsAccountChar(c: char) {
    IsUpper(c) || IsLower(c) || IsDigit(c) || IsAccountSymbol(c)
  }

  /** `/^(?=.*[A-Z])(?=.*\d)(?=.*[symbols])[A-Za-z\d<symbols>]{8,}$/`. */
  predicate AccountPasswordPattern(s: string) {
    && LookaheadFinds(s, IsUpper)
    && LookaheadFinds(s, IsDigit)
    && LookaheadFinds(s, IsAccountSymbol)
    && |s| >= 8
    && forall i :: 0 <= i < |s| ==> IsAccountChar(s[i])
  }

  /** What PASSWORD_REGEX actually demands: eight or more characters from its alphabet, an
      upper-case letter and a digit. The symbol lookahead adds nothing, because every
      digit is in the symbol range. */
  lemma AccountPatternMeans(s: string)
    ensures AccountPasswordPattern(s) <==>
              && |s| >= 8
              && (forall i :: 0 <= i < |s| ==> IsAccountChar(s[i]))
              && (exists i :: 0 <= i < |s| && IsUpper(s[i]))
              && (exists i :: 0 <= i < |s| && IsDigit(s[i]))
  {
    if forall i :: 0 <= i < |s| ==> IsAccountChar(s[i]) {
      assert forall i :: 0 <= i < |s| ==> !IsLineTerminator(s[i]);
      LookaheadFindsOnOneLine(s, IsUpper);
      LookaheadFindsOnOneLine(s, IsDigit);
      LookaheadFindsOnOneLine(s, IsAccountSymbol);
      if exists i :: 0 <= i < |s| && IsDigit(s[i]) {
        var i :| 0 <= i < |s| && IsDigit(s[i]);
        assert IsAccountSymbol(s[i]);
      }
    }
  }

  /** What the registration pattern demands: eight or more UTF-16 code units on one line,
      with an upper-case letter, a digit and a special character among them. */
  lemma RegisterPatternMeans(s: string)
    ensures RegisterPasswordPattern(s) <==>
              && Utf16Length(s) >= 8
              && (forall i :: 0 <= i < |s| ==> !IsLineTerminator(s[i]))
              && (exists i :: 0 <= i < |s| && IsUpper(s[i]))
              && (exists i :: 0 <= i < |s| && IsDigit(s[i]))
              && (exists i :: 0 <= i < |s| && IsRegisterSymbol(s[i]))
  {
    if forall i :: 0 <= i < |s| ==> !IsLineTerminator(s[i]) {
      LookaheadFindsOnOneLine(s, IsUpper);
      LookaheadFindsOnOneLine(s, IsDigit);
      LookaheadFindsOnOneLine(s, IsRegisterSymbol);
    }
  }

  /** A password of letters and digits, with no symbol at all, passes the account pattern
      whenever it has eight characters, an upper-case letter and a digit, since a digit
      counts as a symbol there; registration refuses every such password. */
  lemma DigitPassesAsSymbol(s: string)
    requires |s| >= 8 && forall i :: 0 <= i < |s| ==> IsUpper(s[i]) || IsLower(s[i]) || IsDigit(s[i])
    requires (exists i :: 0 <= i < |s| && IsUpper(s[i])) && (exists i :: 0 <= i < |s| && IsDigit(s[i]))
    ensures AccountPasswordPattern(s) && !RegisterPasswordPattern(s)
  {
    AccountPatternMeans(s);
    RegisterPatternMeans(s);
  }

  /** A password holding '-' never passes the account pattern. One whose other characters
      satisfy the registration pattern's demands passes at registration, with '-' as its
      only symbol if need be. */
  lemma DashOnlyAtRegistration(s: string)
    requires Utf16Length(s) >= 8 && forall i :: 0 <= i < |s| ==> !IsLineTerminator(s[i])
    requires exists i :: 0 <= i < |s| && s[i] == '-'
    requires (exists i :: 0 <= i < |s| && IsUpper(s[i])) && (exists i :: 0 <= i < |s| && IsDigit(s[i]))
    ensures RegisterPasswordPattern(s) && !AccountPasswordPattern(s)
  {
    var i :| 0 <= i < |s| && s[i] == '-';
    DashIsRegisterSymbol();
    assert IsRegisterSymbol(s[i]);
    RegisterPatternMeans(s);
    DashNotAccountChar();
    assert !IsAccountChar(s[i]);
  }

  lemma DashNotAccountChar()
    ensures !IsAccountChar('-')
  {
  }

  lemma DashIsRegisterSymbol()
    ensures IsRegisterSymbol('-')
  {
    var symbols := "!@#$%^&*()_+-=[]{};':\"\\|,.<>/?";
    assert symbols[12] == '-';
  }

  /** The particular password "Abc1!\U{1F600}x" has seven characters, the emoji being beyond
      the Basic Multilingual Plane, and passes the registration pattern because it is eight
      code units long. */
  lemma AstralCharCountsTwice()
    ensures |"Abc1!\U{1F600}x"| == 7 && RegisterPasswordPattern("Abc1!\U{1F600}x")
  {
    var s := "Abc1!\U{1F600}x";
    AstralLength(s);
    OneLine(s);
    LookaheadFindsOnOneLine(s, IsUpper);
    LookaheadFindsOnOneLine(s, IsDigit);
    LookaheadFindsOnOneLine(s, IsRegisterSymbol);
    assert IsUpper(s[0]) && IsDigit(s[3]);
    ExclamationIsRegisterSymbol();
    assert IsRegisterSymbol(s[4]);
  }

  lemma OneLine(s: string)
    requires s == "Abc1!\U{1F600}x"
    ensures forall i :: 0 <= i < |s| ==> !IsLineTerminator(s[i])
  {
  }

  lemma AstralLength(s: string)
    requires s == "Abc1!\U{1F600}x"
    ensures Utf16Length(s) == 8
  {
    assert Utf16Length(s[6..]) == 1;
    assert Utf16Length(s[5..]) == 3;
    assert Utf16Length(s[4..]) == 4;
    assert Utf16Length(s[3..]) == 5;
    assert Utf16Length(s[2..]) == 6;
    assert Utf16Length(s[1..]) == 7;
  }

  lemma ExclamationIsRegisterSymbol()
    ensures IsRegisterSymbol('!')
  {
    var symbols := "!@#$%^&*()_+-=[]{};':\"\\|,.<>/?";
    assert symbols[0] == '!';
  }
}
