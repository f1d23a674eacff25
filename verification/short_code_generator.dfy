/**
 * The code generator (service/ShortCodeGenerator.java): random codes of a
 * fixed length over a 62-symbol alphabet.
 *
 * `SecureRandom` is modelled as an oracle: a fixed stream of values of which
 * the generator has consumed `drawn`; `nextInt(bound)` yields the next value
 * reduced into `[0, bound)`.
 */
module Generator {

  /** The alphabet, in the order the source spells it: digits, then upper case, then lower case. */
  const DIGITS: string := "0123456789"
  const UPPERCASE: string := "ABCDEFGHIJKLMNOPQRSTUVWXYZ"
  const LOWERCASE: string := "abcdefghijklmnopqrstuvwxyz"
  const ALPHABET: string := DIGITS + UPPERCASE + LOWERCASE

  const DEFAULT_LENGTH: nat := 7

  predicate IsAlphanumeric(c: char) {
    '0' <= c <= '9' || 'A' <= c <= 'Z' || 'a' <= c <= 'z'
  }

  /** The k-th symbol of the alphabet, computed from the three character ranges. */
  function SymbolAt(k: nat): (c: char)
    requires k < 62
    ensures IsAlphanumeric(c)
  {
    if k < 10 then ('0' as int + k) as char
    else if k < 36 then ('A' as int + k - 10) as char
    else ('a' as int + k - 36) as char
  }

  /** The first n characters of s are the consecutive characters starting at `first`. */
  predicate Run(s: string, first: char, n: nat)
    requires n <= |s| && first as int + n <= 0x7F
  {
    n == 0 || (s[n - 1] as int == first as int + n - 1 && Run(s, first, n - 1))
  }

  lemma {:induction false} RunAt(s: string, first: char, n: nat, k: nat)
    requires k < n <= |s| && first as int + n <= 0x7F && Run(s, first, n)
    ensures s[k] as int == first as int + k
    decreases n
  {
    if k < n - 1 {
      RunAt(s, first, n - 1, k);
    }
  }

  // The checks below are unfolded a few characters at a time.
  lemma UppercaseRun()
    ensures Run(UPPERCASE, 'A', 26)
  {
    assert Run("ABCDEFGHIJKLMNOPQRSTUVWXYZ", 'A', 6);
    assert Run("ABCDEFGHIJKLMNOPQRSTUVWXYZ", 'A', 12);
    assert Run("ABCDEFGHIJKLMNOPQRSTUVWXYZ", 'A', 18);
  }

  lemma LowercaseRun()
    ensures Run(LOWERCASE, 'a', 26)
  {
    assert Run("abcdefghijklmnopqrstuvwxyz", 'a', 6);
    assert Run("abcdefghijklmnopqrstuvwxyz", 'a', 12);
    assert Run("abcdefghijklmnopqrstuvwxyz", 'a', 18);
  }

  /** ALPHABET holds the 62 symbols 0-9, A-Z, a-z, in that order. */
  lemma AlphabetSymbols()
    ensures |ALPHABET| == 62
    ensures forall k :: 0 <= k < 62 ==> ALPHABET[k] == SymbolAt(k)
  {
    assert Run("0123456789", '0', 10);
    UppercaseRun();
    LowercaseRun();
    forall k | 0 <= k < 62
      ensures ALPHABET[k] == SymbolAt(k)
    {
      if k < 10 {
        RunAt(DIGITS, '0', 10, k);
      } else if k < 36 {
        RunAt(UPPERCASE, 'A', 26, k - 10);
      } else {
        RunAt(LOWERCASE, 'a', 26, k - 36);
      }
    }
  }

  /** The 62 symbols are strictly increasing, hence pairwise distinct. */
  lemma AlphabetDistinct()
    ensures forall i, j :: 0 <= i < j < |ALPHABET| ==> ALPHABET[i] < ALPHABET[j]
  {
    AlphabetSymbols();
  }

  /** A character is a symbol of the alphabet exactly when it is an ASCII letter or digit. */
  lemma AlphabetIsAlphanumeric()
    ensures forall c :: c in ALPHABET <==> IsAlphanumeric(c)
  {
    AlphabetSymbols();
    forall c | IsAlphanumeric(c)
      ensures c in ALPHABET
    {
      var k := if c <= '9' then c as int - '0' as int
               else if c <= 'Z' then c as int - 'A' as int + 10
               else c as int - 'a' as int + 36;
      assert ALPHABET[k] == c;
    }
  }

  /** The code that generation builds from the values stream(start), ..., stream(start + length - 1). */
  function CodeFrom(stream: nat -> nat, start: nat, length: nat): (code: string)
    ensures |code| == length
  {
    if length == 0 then []
    else CodeFrom(stream, start, length - 1) + [ALPHABET[stream(start + length - 1) % |ALPHABET|]]
  }

  /** Every symbol of a generated code is a symbol of the alphabet: a letter or a digit. */
  lemma {:induction false} CodeSymbols(stream: nat -> nat, start: nat, length: nat)
    ensures forall i :: 0 <= i < length ==> CodeFrom(stream, start, length)[i] in ALPHABET
    ensures forall i :: 0 <= i < length ==> IsAlphanumeric(CodeFrom(stream, start, length)[i])
  {
    AlphabetIsAlphanumeric();
    if length > 0 {
      CodeSymbols(stream, start, length - 1);
    }
  }

  class ShortCodeGenerator {
    /** The values the random source yields, in order. */
    const stream: nat -> nat
    /** How many values of the stream have been consumed. */
    var drawn: nat

    constructor (stream: nat -> nat)
      ensures this.stream == stream && drawn == 0
    {
      this.stream := stream;
      drawn := 0;
    }

    /** random.nextInt(bound): the next value of the stream, in [0, bound). */
    method NextInt(bound: nat) returns (k: nat)
      requires 0 < bound
      modifies this`drawn
      ensures k < bound
      ensures k == stream(old(drawn)) % bound
      ensures drawn == old(drawn) + 1
    {
      k := stream(drawn) % bound;
      drawn := drawn + 1;
    }

    /** generate(int length): fills a buffer of `length` symbols, one draw each. */
    method GenerateWithLength(length: nat) returns (code: string)
      modifies this`drawn
      ensures code == CodeFrom(stream, old(drawn), length)
      ensures drawn == old(drawn) + length
    {
      var buffer := new char[length];
      for i := 0 to length
        invariant drawn == old(drawn) + i
        invariant buffer[..i] == CodeFrom(stream, old(drawn), i)
      {
        var k := NextInt(|ALPHABET|);
        buffer[i] := ALPHABET[k];
        assert buffer[..i + 1] == buffer[..i] + [buffer[i]];
      }
      code := buffer[..];
      assert code == buffer[..length];
    }

    /** generate(): a code of the default length. */
    method Generate() returns (code: string)
      modifies this`drawn
      ensures code == CodeFrom(stream, old(drawn), DEFAULT_LENGTH)
      ensures drawn == old(drawn) + DEFAULT_LENGTH
    {
      code := GenerateWithLength(DEFAULT_LENGTH);
    }
  }
}
