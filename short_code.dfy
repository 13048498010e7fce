/**
 * `generate_short_url`: six characters drawn from `string.ascii_letters +
 * string.digits`. The random draws are taken as input: each is the index
 * that `random.choices` picked in the alphabet.
 */
module ShortCode {
  import opened Chars

  const AsciiLowercase: string := "abcdefghijklmnopqrstuvwxyz"
  const AsciiUppercase: string := "ABCDEFGHIJKLMNOPQRSTUVWXYZ"
  const Digits: string := "0123456789"

  /** `string.ascii_letters + string.digits`: 62 characters. */
  const Alphabet: string := AsciiLowercase + AsciiUppercase + Digits

  /** The `k` of `random.choices`. */
  const CodeLength: nat := 6

  /** Position `i` of the alphabet, computed from the layout: lower case, upper case, digits. */
  function AlphabetChar(i: nat): (c: char)
    requires i < 62
    ensures IsAlnum(c)
  {
    if i < 26 then ('a' as int + i) as char
    else if i < 52 then ('A' as int + (i - 26)) as char
    else ('0' as int + (i - 52)) as char
  }

  lemma AlphabetLayout()
    ensures |Alphabet| == 62
    ensures forall i :: 0 <= i < 62 ==> Alphabet[i] == AlphabetChar(i)
  {
    assert |Alphabet| == 62;
    forall i | 0 <= i < 62 ensures Alphabet[i] == AlphabetChar(i) {
      if i < 26 {
        assert Alphabet[i] == AsciiLowercase[i];
      } else if i < 52 {
        assert Alphabet[i] == AsciiUppercase[i - 26];
      } else {
        assert Alphabet[i] == Digits[i - 52];
      }
    }
  }

  /** Distinct positions hold distinct characters. */
  lemma AlphabetDistinct(i: nat, j: nat)
    requires i < 62 && j < 62 && i != j
    ensures Alphabet[i] != Alphabet[j]
  {
    AlphabetLayout();
  }

  /** The alphabet holds exactly the ASCII letters and digits. */
  lemma AlphabetIsAlnum(c: char)
    ensures c in Alphabet <==> IsAlnum(c)
  {
    AlphabetLayout();
    if IsAlnum(c) {
      var i := AlphabetIndex(c);
      assert Alphabet[i] == c;
    }
  }

  /** Where `c` sits in the alphabet. */
  function AlphabetIndex(c: char): (i: nat)
    requires IsAlnum(c)
    ensures i < 62 && Alphabet[i] == c
  {
    AlphabetLayout();
    if 'a' <= c <= 'z' then
      assert AlphabetChar(c as int - 'a' as int) == c;
      c as int - 'a' as int
    else if 'A' <= c <= 'Z' then
      assert AlphabetChar(26 + (c as int - 'A' as int)) == c;
      26 + (c as int - 'A' as int)
    else
      assert AlphabetChar(52 + (c as int - '0' as int)) == c;
      52 + (c as int - '0' as int)
  }

  /** Every draw is a position in the alphabet. */
  predicate InAlphabet(draws: seq<nat>) {
    forall i :: 0 <= i < |draws| ==> draws[i] < |Alphabet|
  }

  /** `''.join(...)` over the characters at the drawn positions. */
  function Pick(draws: seq<nat>): (s: string)
    requires InAlphabet(draws)
    ensures |s| == |draws|
    ensures forall i :: 0 <= i < |draws| ==> s[i] == Alphabet[draws[i]]
  {
    if draws == [] then "" else [Alphabet[draws[0]]] + Pick(draws[1..])
  }

  /** `generate_short_url` once `random.choices` has made its six draws. */
  function GenerateShortUrl(draws: seq<nat>): (code: string)
    requires |draws| == CodeLength && InAlphabet(draws)
    ensures |code| == CodeLength
    ensures All(code, IsAlnum)
    ensures forall i :: 0 <= i < CodeLength ==> code[i] == Alphabet[draws[i]]
  {
    AlphabetLayout();
    var code := Pick(draws);
    assert forall i :: 0 <= i < |code| ==> IsAlnum(AlphabetChar(draws[i]));
    code
  }

  /** The draws that produce `code`. */
  function DrawsOf(code: string): (draws: seq<nat>)
    requires All(code, IsAlnum)
    ensures |draws| == |code| && InAlphabet(draws)
    ensures forall i :: 0 <= i < |code| ==> Alphabet[draws[i]] == code[i]
  {
    seq(|code|, i requires 0 <= i < |code| => AlphabetIndex(code[i]))
  }

  /** Every six-character string of letters and digits can be generated. */
  lemma EveryCodeIsGenerated(code: string)
    requires |code| == CodeLength && All(code, IsAlnum)
    ensures GenerateShortUrl(DrawsOf(code)) == code
  {
  }

  /** Different draws give different codes: the code determines the draws. */
  lemma GenerateShortUrlInjective(d1: seq<nat>, d2: seq<nat>)
    requires |d1| == CodeLength && InAlphabet(d1)
    requires |d2| == CodeLength && InAlphabet(d2)
    requires GenerateShortUrl(d1) == GenerateShortUrl(d2)
    ensures d1 == d2
  {
    forall i | 0 <= i < CodeLength ensures d1[i] == d2[i] {
      if d1[i] != d2[i] {
        AlphabetDistinct(d1[i], d2[i]);
      }
    }
  }

  /** Reading the draws back from a generated code gives the draws. */
  lemma DrawsOfGenerate(draws: seq<nat>)
    requires |draws| == CodeLength && InAlphabet(draws)
    ensures DrawsOf(GenerateShortUrl(draws)) == draws
  {
    var code := GenerateShortUrl(draws);
    EveryCodeIsGenerated(code);
    GenerateShortUrlInjective(DrawsOf(code), draws);
  }
}
