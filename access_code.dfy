/** Access codes: `generate_access_code` draws six symbols, with replacement,
    from `string.ascii_uppercase + string.digits`.

    The random choice is not modelled as randomness: the six positions drawn
    by `random.choices` are an input (`draws`), and `DrawsFor` shows that every
    code of the right shape is the result of some draw, so quantifying over
    the draws is the same as choosing any six-symbol code. */
module AccessCode {

  const CodeLength: nat := 6

  /** `string.ascii_uppercase + string.digits`, in that order */
  const Alphabet: string := "ABCDEFGHIJKLMNOPQRSTUVWXYZ" + "0123456789"

  predicate IsCodeChar(c: char) {
    'A' <= c <= 'Z' || '0' <= c <= '9'
  }

  /** A six-character string over `[A-Z0-9]` */
  predicate IsAccessCode(s: string) {
    |s| == CodeLength && forall i :: 0 <= i < |s| ==> IsCodeChar(s[i])
  }

  /** Six positions into the alphabet, one per character of the code */
  predicate IsDraws(draws: seq<nat>) {
    |draws| == CodeLength && forall i :: 0 <= i < |draws| ==> draws[i] < |Alphabet|
  }

  lemma AlphabetSymbols()
    ensures |Alphabet| == 36
    ensures forall k :: 0 <= k < |Alphabet| ==> IsCodeChar(Alphabet[k])
  {
  }

  /** `generate_access_code` */
  function GenerateAccessCode(draws: seq<nat>): (code: string)
    requires IsDraws(draws)
    ensures IsAccessCode(code)
    ensures forall i :: 0 <= i < CodeLength ==> code[i] in Alphabet
  {
    AlphabetSymbols();
    seq(CodeLength, i requires 0 <= i < CodeLength => Alphabet[draws[i]])
  }

  /** The position of a code character in the alphabet */
  function SymbolIndex(c: char): (k: nat)
    requires IsCodeChar(c)
    ensures k < |Alphabet| && Alphabet[k] == c
  {
    if 'A' <= c <= 'Z' then c as int - 'A' as int else 26 + (c as int - '0' as int)
  }

  /** Every access code is what `generate_access_code` returns for some draw. */
  function DrawsFor(code: string): (draws: seq<nat>)
    requires IsAccessCode(code)
    ensures IsDraws(draws) && GenerateAccessCode(draws) == code
  {
    seq(CodeLength, i requires 0 <= i < CodeLength && IsAccessCode(code) => SymbolIndex(code[i]))
  }
}
