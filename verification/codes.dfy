/** Currency-code normalisation and validation: `strtoupper(trim($code))`
    followed by the `/^[A-Z]{3}/` prefix test of `Currency::validateCode`. */
module Codes {
  import opened Wrappers

  /** The characters PHP's `trim` strips by default: space, tab, line feed,
      carriage return, NUL and vertical tab. */
  predicate IsBlank(c: char) {
    c == ' ' || c == '\t' || c == '\n' || c == '\r' || c == '\0' || c == '\U{000B}'
  }

  function TrimLeft(s: string): (r: string)
    ensures |r| <= |s| && r == s[|s| - |r|..]
    ensures forall i :: 0 <= i < |s| - |r| ==> IsBlank(s[i])
    ensures r == [] || !IsBlank(r[0])
    decreases |s|
  {
    if |s| > 0 && IsBlank(s[0]) then TrimLeft(s[1..]) else s
  }

  function TrimRight(s: string): (r: string)
    ensures |r| <= |s| && r == s[..|r|]
    ensures forall i :: |r| <= i < |s| ==> IsBlank(s[i])
    ensures r == [] || !IsBlank(r[|r| - 1])
    decreases |s|
  {
    if |s| > 0 && IsBlank(s[|s| - 1]) then TrimRight(s[..|s| - 1]) else s
  }

  /** PHP `trim`: the text between the leading and the trailing blanks. */
  function Trim(s: string): (r: string)
    ensures r == [] || (!IsBlank(r[0]) && !IsBlank(r[|r| - 1]))
  {
    TrimRight(TrimLeft(s))
  }

  /** PHP 8 `strtoupper` on one character: ASCII a-z only. */
  function UpperChar(c: char): char {
    if 'a' <= c <= 'z' then (c as int - 32) as char else c
  }

  function ToUpper(s: string): (r: string)
    ensures |r| == |s|
    ensures forall i :: 0 <= i < |s| ==> r[i] == UpperChar(s[i])
  {
    if s == [] then [] else [UpperChar(s[0])] + ToUpper(s[1..])
  }

  /** `strtoupper(trim($code))`. */
  function Normalize(code: string): string {
    ToUpper(Trim(code))
  }

  predicate IsUpperLetter(c: char) {
    'A' <= c <= 'Z'
  }

  /** What `preg_match('/^[A-Z]{3}/', ...)` accepts: three capital letters at
      the start, anything after them. */
  predicate HasLetterPrefix(s: string) {
    |s| >= 3 && IsUpperLetter(s[0]) && IsUpperLetter(s[1]) && IsUpperLetter(s[2])
  }

  /** `Currency::validateCode`: an empty normalised code is "required",
      a normalised code without a three-letter prefix is malformed. */
  function ValidateCode(code: string): (r: Outcome)
    ensures r.Pass? <==> HasLetterPrefix(Normalize(code))
    ensures r.Fail? && Normalize(code) == [] ==> r.error == CodeRequired
    ensures r.Fail? && Normalize(code) != [] ==> r.error == CodeMalformed(Normalize(code))
  {
    var n := Normalize(code);
    if n == [] then Fail(CodeRequired)
    else if !HasLetterPrefix(n) then Fail(CodeMalformed(n))
    else Pass
  }

  /** A code as `Currency::setCode` stores it: normalised and valid. */
  predicate IsStoredCode(code: string) {
    Normalize(code) == code && ValidateCode(code).Pass?
  }

  // ---------------------------------------------------------------- lemmas

  lemma {:induction false} ToUpperIdempotent(s: string)
    ensures ToUpper(ToUpper(s)) == ToUpper(s)
  {
    var u := ToUpper(s);
    assert forall i :: 0 <= i < |u| ==> ToUpper(u)[i] == u[i];
  }

  /** A text with no blank at either end is its own trim. */
  lemma TrimOfTrimmed(s: string)
    requires s == [] || (!IsBlank(s[0]) && !IsBlank(s[|s| - 1]))
    ensures Trim(s) == s
  {
    assert TrimLeft(s) == s;
    assert TrimRight(s) == s;
  }

  /** Normalisation is idempotent: a normalised code normalises to itself. */
  lemma NormalizeIdempotent(code: string)
    ensures Normalize(Normalize(code)) == Normalize(code)
  {
    var t := Trim(code);
    var u := ToUpper(t);
    assert u == [] || (!IsBlank(u[0]) && !IsBlank(u[|u| - 1]));
    TrimOfTrimmed(u);
    ToUpperIdempotent(t);
  }

  /** Validation normalises first, so validating the normalised code gives the
      same verdict, and the same message, as validating the raw one. */
  lemma ValidateNormalized(code: string)
    ensures ValidateCode(Normalize(code)) == ValidateCode(code)
  {
    NormalizeIdempotent(code);
  }

  /** The code `Currency::setCode` stores satisfies `IsStoredCode` whenever
      validation passes. */
  lemma NormalizedValidIsStored(code: string)
    requires ValidateCode(code).Pass?
    ensures IsStoredCode(Normalize(code))
  {
    NormalizeIdempotent(code);
  }

  /** A text of capital letters only normalises to itself. */
  lemma {:induction false} NormalizeUpperWord(s: string)
    requires forall i :: 0 <= i < |s| ==> IsUpperLetter(s[i])
    ensures Normalize(s) == s
  {
    TrimOfTrimmed(s);
    assert forall i :: 0 <= i < |s| ==> ToUpper(s)[i] == s[i];
  }

  /** Every word of three or more capital letters is a code the entity can store. */
  lemma UpperWordIsStored(s: string)
    requires |s| >= 3
    requires forall i :: 0 <= i < |s| ==> IsUpperLetter(s[i])
    ensures IsStoredCode(s)
  {
    NormalizeUpperWord(s);
  }

  /** Only the prefix is checked: "USDX" passes validation. */
  lemma LongerCodeAccepted()
    ensures ValidateCode("USDX").Pass?
  {
    NormalizeUpperWord("USDX");
  }

  /** Blanks and lower case are forgiven: " usd\n" passes and normalises to "USD". */
  lemma LowerCaseCodeAccepted()
    ensures Normalize(" usd\n") == "USD"
    ensures ValidateCode(" usd\n").Pass?
  {
    PaddedUsdTrims();
    LowerUsdUppers();
    assert Normalize(" usd\n") == "USD";
    assert HasLetterPrefix("USD");
  }

  lemma PaddedUsdTrims()
    ensures Trim(" usd\n") == "usd"
  {
    var s := " usd\n";
    var mid := "usd\n";
    assert s[1..] == mid;
    TrimLeftStep(s);
    TrimLeftStop(mid);
    assert mid[..3] == "usd";
    TrimRightStep(mid);
    TrimRightStop("usd");
  }

  lemma TrimLeftStep(s: string)
    requires |s| > 0 && IsBlank(s[0])
    ensures TrimLeft(s) == TrimLeft(s[1..])
  {
  }

  lemma TrimLeftStop(s: string)
    requires s == [] || !IsBlank(s[0])
    ensures TrimLeft(s) == s
  {
  }

  lemma TrimRightStep(s: string)
    requires |s| > 0 && IsBlank(s[|s| - 1])
    ensures TrimRight(s) == TrimRight(s[..|s| - 1])
  {
  }

  lemma TrimRightStop(s: string)
    requires s == [] || !IsBlank(s[|s| - 1])
    ensures TrimRight(s) == s
  {
  }

  lemma LowerUsdUppers()
    ensures ToUpper("usd") == "USD"
  {
    assert UpperChar('u') == 'U' && UpperChar('s') == 'S' && UpperChar('d') == 'D';
    assert forall i :: 0 <= i < 3 ==> ToUpper("usd")[i] == "USD"[i];
  }

  /** A code whose normalised form is shorter than three characters is refused,
      with the "required" message exactly when that form is empty. */
  lemma ShortCodeRejected(code: string)
    requires |Normalize(code)| < 3
    ensures ValidateCode(code).Fail?
    ensures ValidateCode(code).error == CodeRequired <==> Normalize(code) == []
  {
  }

  /** A code made of blanks only, the empty code included, is refused as
      missing. */
  lemma BlankCodeRequired(code: string)
    requires forall i :: 0 <= i < |code| ==> IsBlank(code[i])
    ensures ValidateCode(code) == Fail(CodeRequired)
  {
  }
}
