/** PasswordGenerator.generate: a password of PASSWORD_LENGTH characters,
    each drawn from the 62-character alphanumeric alphabet. The random draws
    (SecureRandom.nextInt(CHARS.length()), one per position) are an input. */
module PasswordGenerator {
  import opened JavaLang

  const UPPERCASE: string := "ABCDEFGHIJKLMNOPQRSTUVWXYZ"
  const LOWERCASE: string := "abcdefghijklmnopqrstuvwxyz"
  const DIGITS: string := "0123456789"
  /** The alphabet, the three blocks in this order. */
  const CHARS: string := UPPERCASE + LOWERCASE + DIGITS
  const PASSWORD_LENGTH: nat := 10

  predicate IsAlphanumeric(c: char) {
    'A' <= c <= 'Z' || 'a' <= c <= 'z' || '0' <= c <= '9'
  }

  /** What nextInt(bound) promises: one value in [0, bound) per position. */
  predicate ValidDraws(draws: seq<int>) {
    |draws| == PASSWORD_LENGTH && forall i :: 0 <= i < |draws| ==> 0 <= draws[i] < |CHARS|
  }

  /** The loop fills a char array index by index: position i holds
      CHARS[draws[i]]. */
  method Generate(draws: seq<int>) returns (password: string)
    requires ValidDraws(draws)
    ensures |password| == PASSWORD_LENGTH
    ensures forall i :: 0 <= i < |password| ==> password[i] == CHARS[draws[i]]
  {
    var buffer := new char[PASSWORD_LENGTH];
    for i := 0 to PASSWORD_LENGTH
      invariant forall k :: 0 <= k < i ==> buffer[k] == CHARS[draws[k]]
    {
      buffer[i] := CHARS[draws[i]];
    }
    password := buffer[..];
  }

  lemma BlocksAreAlphanumeric()
    ensures forall i :: 0 <= i < |UPPERCASE| ==> 'A' <= UPPERCASE[i] <= 'Z'
    ensures forall i :: 0 <= i < |LOWERCASE| ==> 'a' <= LOWERCASE[i] <= 'z'
    ensures forall i :: 0 <= i < |DIGITS| ==> '0' <= DIGITS[i] <= '9'
  {
  }

  /** The alphabet has 62 characters, all ASCII letters and digits. */
  lemma AlphabetIsAlphanumeric()
    ensures |CHARS| == 62
    ensures forall i :: 0 <= i < |CHARS| ==> IsAlphanumeric(CHARS[i])
  {
    BlocksAreAlphanumeric();
    forall i | 0 <= i < |CHARS| ensures IsAlphanumeric(CHARS[i]) {
      if i < 26 {
        assert CHARS[i] == UPPERCASE[i];
      } else if i < 52 {
        assert CHARS[i] == LOWERCASE[i - 26];
      } else {
        assert CHARS[i] == DIGITS[i - 52];
      }
    }
  }

  /** Every password built from valid draws is alphanumeric and not blank
      (TraineeService relies on a non-blank password). */
  lemma {:induction false} GeneratedPasswordIsNotBlank(draws: seq<int>, password: string)
    requires ValidDraws(draws)
    requires |password| == PASSWORD_LENGTH
    requires forall i :: 0 <= i < |password| ==> password[i] == CHARS[draws[i]]
    ensures forall i :: 0 <= i < |password| ==> IsAlphanumeric(password[i]) && !IsWhitespace(password[i])
    ensures !IsBlank(password)
  {
    AlphabetIsAlphanumeric();
    assert !IsWhitespace(password[0]);
  }
}
