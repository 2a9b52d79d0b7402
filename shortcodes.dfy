/** Short codes: the 62-character alphabet, the random code generator and the
    format check that a caller-supplied custom code must pass. */
module ShortCodes {

  /** The alphabet the generator draws from: the `chars` constant of
      `generateShortCode` in server/index.js, in its order,
      "ABCDEFGHIJKLMNOPQRSTUVWXYZabcdefghijklmnopqrstuvwxyz0123456789". */
  const ALPHABET: string := UPPER + LOWER + DIGITS
  const UPPER: string := "ABCDEFGHIJKLMNOPQRSTUVWXYZ"
  const LOWER: string := "abcdefghijklmnopqrstuvwxyz"
  const DIGITS: string := "0123456789"

  /** Length of a generated code. */
  const CODE_LENGTH: nat := 6

  /** Bounds of the custom-code pattern `[A-Za-z0-9]{6,8}`. */
  const MIN_CUSTOM_LENGTH: nat := 6
  const MAX_CUSTOM_LENGTH: nat := 8

  /** One draw of the random source: `Math.floor(Math.random() * 62)`. */
  type AlphabetIndex = i: nat | i < 62

  /** The character class `[A-Za-z0-9]`. */
  predicate IsAlphanumeric(c: char) {
    ('A' <= c <= 'Z') || ('a' <= c <= 'z') || ('0' <= c <= '9')
  }

  predicate AllAlphanumeric(s: string) {
    forall i :: 0 <= i < |s| ==> IsAlphanumeric(s[i])
  }

  /** The k-th letter of the alphabet, computed from character codes. */
  function AlphabetChar(k: AlphabetIndex): (c: char)
    ensures IsAlphanumeric(c)
  {
    if k < 26 then ('A' as int + k) as char
    else if k < 52 then ('a' as int + (k - 26)) as char
    else ('0' as int + (k - 52)) as char
  }

  /** Position of an alphanumeric character in the alphabet. */
  function AlphabetIndexOf(c: char): (k: AlphabetIndex)
    requires IsAlphanumeric(c)
    ensures AlphabetChar(k) == c
  {
    if 'A' <= c <= 'Z' then c as int - 'A' as int
    else if 'a' <= c <= 'z' then 26 + (c as int - 'a' as int)
    else 52 + (c as int - '0' as int)
  }

  /** The alphabet constant is exactly the letters A-Z, then a-z, then 0-9. */
  lemma AlphabetLayout()
    ensures |ALPHABET| == 62
    ensures forall k: AlphabetIndex :: ALPHABET[k] == AlphabetChar(k)
  {
    UpperRun();
    LowerRun();
    DigitRun();
  }

  lemma UpperRun()
    ensures |UPPER| == 26 && forall i :: 0 <= i < 26 ==> UPPER[i] == AlphabetChar(i)
  {
    assert UPPER == seq(26, i requires 0 <= i < 26 => ('A' as int + i) as char);
  }

  lemma LowerRun()
    ensures |LOWER| == 26 && forall i :: 0 <= i < 26 ==> LOWER[i] == AlphabetChar(26 + i)
  {
    assert LOWER == seq(26, i requires 0 <= i < 26 => ('a' as int + i) as char);
  }

  lemma DigitRun()
    ensures |DIGITS| == 10 && forall i :: 0 <= i < 10 ==> DIGITS[i] == AlphabetChar(52 + i)
  {
    assert DIGITS == seq(10, i requires 0 <= i < 10 => ('0' as int + i) as char);
  }

  /** Distinct draws give distinct letters. */
  lemma AlphabetInjective(j: AlphabetIndex, k: AlphabetIndex)
    requires ALPHABET[j] == ALPHABET[k]
    ensures j == k
  {
    AlphabetLayout();
  }

  // ----- Custom-code validation: the test `/^[A-Za-z0-9]{6,8}$/` -----

  /** Anchored match of `s` against `[A-Za-z0-9]{lo,hi}`, consuming one
      character of the class per step as a regular-expression engine does. */
  function MatchesClassRepeat(s: string, lo: nat, hi: nat): (matched: bool)
    ensures matched ==> lo <= |s| <= hi
    decreases |s|
  {
    if |s| == 0 then lo == 0
    else hi > 0 && IsAlphanumeric(s[0]) && MatchesClassRepeat(s[1..], if lo == 0 then 0 else lo - 1, hi - 1)
  }

  /** The custom-code check applied to a non-empty `shortCode`. */
  predicate IsValidCustomCode(code: string)
    ensures IsValidCustomCode(code) ==> MIN_CUSTOM_LENGTH <= |code| <= MAX_CUSTOM_LENGTH
  {
    MatchesClassRepeat(code, MIN_CUSTOM_LENGTH, MAX_CUSTOM_LENGTH)
  }

  /** The pattern accepts exactly the strings of length lo..hi made of class characters. */
  lemma {:induction false} MatchesClassRepeatIff(s: string, lo: nat, hi: nat)
    ensures MatchesClassRepeat(s, lo, hi) <==> lo <= |s| <= hi && AllAlphanumeric(s)
    decreases |s|
  {
    if |s| > 0 && hi > 0 {
      var rest := s[1..];
      MatchesClassRepeatIff(rest, if lo == 0 then 0 else lo - 1, hi - 1);
      assert AllAlphanumeric(s) <==> IsAlphanumeric(s[0]) && AllAlphanumeric(rest) by {
        assert forall i :: 0 < i < |s| ==> s[i] == rest[i - 1];
      }
    }
  }

  /** A custom code is accepted iff it has 6 to 8 characters, all in [A-Za-z0-9]. */
  lemma ValidCustomCodeIff(code: string)
    ensures IsValidCustomCode(code) <==> 6 <= |code| <= 8 && AllAlphanumeric(code)
  {
    MatchesClassRepeatIff(code, MIN_CUSTOM_LENGTH, MAX_CUSTOM_LENGTH);
  }

  /** The accepted and rejected sample codes: too short, a bad character, too long. */
  lemma CustomCodeSamples()
    ensures IsValidCustomCode("abc123")
    ensures !IsValidCustomCode("ab")
    ensures !IsValidCustomCode("abc!23")
    ensures !IsValidCustomCode("123456789")
  {
    ValidCustomCodeIff("abc123");
    ValidCustomCodeIff("ab");
    ValidCustomCodeIff("abc!23");
    assert !IsAlphanumeric("abc!23"[3]);
    ValidCustomCodeIff("123456789");
  }

  // ----- Code generation -----

  /** The code spelled by a sequence of draws: one alphabet letter per draw. */
  function GeneratedCode(picks: seq<AlphabetIndex>): (code: string)
    ensures |code| == |picks|
  {
    AlphabetLayout();
    seq(|picks|, i requires 0 <= i < |picks| => ALPHABET[picks[i]])
  }

  /** `generateShortCode`: six draws, each appended to the result in turn. */
  method GenerateShortCode(picks: seq<AlphabetIndex>) returns (code: string)
    requires |picks| == CODE_LENGTH
    ensures code == GeneratedCode(picks)
    ensures |code| == CODE_LENGTH && AllAlphanumeric(code)
  {
    AlphabetLayout();
    code := "";
    for i := 0 to CODE_LENGTH
      invariant code == GeneratedCode(picks[..i])
    {
      code := code + [ALPHABET[picks[i]]];
    }
    assert picks[..CODE_LENGTH] == picks;
  }

  /** Every generated code has six alphanumeric characters, so it also passes
      the custom-code check. */
  lemma GeneratedCodeIsValid(picks: seq<AlphabetIndex>)
    requires |picks| == CODE_LENGTH
    ensures |GeneratedCode(picks)| == CODE_LENGTH
    ensures AllAlphanumeric(GeneratedCode(picks))
    ensures IsValidCustomCode(GeneratedCode(picks))
  {
    AlphabetLayout();
    ValidCustomCodeIff(GeneratedCode(picks));
  }

  /** Every six-character alphanumeric code is the outcome of some draws. */
  lemma GeneratorReachesEveryCode(code: string)
    requires |code| == CODE_LENGTH && AllAlphanumeric(code)
    ensures exists picks: seq<AlphabetIndex> :: |picks| == CODE_LENGTH && GeneratedCode(picks) == code
  {
    AlphabetLayout();
    var picks: seq<AlphabetIndex> := seq(CODE_LENGTH, i requires 0 <= i < CODE_LENGTH => AlphabetIndexOf(code[i]));
    assert GeneratedCode(picks) == code;
  }

  /** Different draws give different codes, so the keyspace has 62^6 codes. */
  lemma GeneratorInjective(p: seq<AlphabetIndex>, q: seq<AlphabetIndex>)
    requires |p| == |q| && GeneratedCode(p) == GeneratedCode(q)
    ensures p == q
  {
    forall i | 0 <= i < |p|
      ensures p[i] == q[i]
    {
      assert GeneratedCode(p)[i] == GeneratedCode(q)[i];
      AlphabetInjective(p[i], q[i]);
    }
  }
}
