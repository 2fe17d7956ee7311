/**
 The code generator: `generate_code(length=6)` joins `length` symbols drawn
 from `string.ascii_letters + string.digits`. The random source is modelled
 by the sequence of draws it hands out, each an index into that alphabet.
 */
module Codes {

  const ASCII_LOWERCASE: string := "abcdefghijklmnopqrstuvwxyz"
  const ASCII_UPPERCASE: string := "ABCDEFGHIJKLMNOPQRSTUVWXYZ"
  const DIGITS: string := "0123456789"
  const ALPHABET: string := ASCII_LOWERCASE + ASCII_UPPERCASE + DIGITS

  /** The default code length of `generate_code`. */
  const CODE_LENGTH: nat := 6

  predicate IsAlnum(ch: char)
  {
    ('a' <= ch <= 'z') || ('A' <= ch <= 'Z') || ('0' <= ch <= '9')
  }

  /** The symbol at position `i` of the alphabet, by arithmetic on code points. */
  function Symbol(i: nat): (ch: char)
    requires i < 62
    ensures IsAlnum(ch)
  {
    if i < 26 then ('a' as int + i) as char
    else if i < 52 then ('A' as int + (i - 26)) as char
    else ('0' as int + (i - 52)) as char
  }

  /** The position of an alphanumeric character in the alphabet. */
  function Index(ch: char): (i: nat)
    requires IsAlnum(ch)
    ensures i < 62 && Symbol(i) == ch
  {
    if 'a' <= ch <= 'z' then ch as int - 'a' as int
    else if 'A' <= ch <= 'Z' then 26 + (ch as int - 'A' as int)
    else 52 + (ch as int - '0' as int)
  }

  lemma SymbolInjective(i: nat, j: nat)
    requires i < 62 && j < 62 && Symbol(i) == Symbol(j)
    ensures i == j
  {
  }

  /** The alphabet has 62 symbols and is the sequence of `Symbol`s. */
  lemma AlphabetSymbols()
    ensures |ALPHABET| == 62
    ensures forall i :: 0 <= i < 62 ==> ALPHABET[i] == Symbol(i)
  {
    forall i | 0 <= i < 26 ensures ASCII_LOWERCASE[i] == Symbol(i) { }
    forall i | 0 <= i < 26 ensures ASCII_UPPERCASE[i] == Symbol(26 + i) { }
    forall i | 0 <= i < 10 ensures DIGITS[i] == Symbol(52 + i) { }
  }

  predicate ValidDraws(draws: seq<nat>)
  {
    forall i :: 0 <= i < |draws| ==> draws[i] < |ALPHABET|
  }

  /** `"".join(random.choices(ALPHABET, k=|draws|))` for the given draws. */
  function GenerateCode(draws: seq<nat>): (code: string)
    requires ValidDraws(draws)
    ensures |code| == |draws|
    ensures forall i :: 0 <= i < |code| ==> IsAlnum(code[i])
  {
    AlphabetSymbols();
    seq(|draws|, i requires 0 <= i < |draws| => ALPHABET[draws[i]])
  }

  /**
   Different draws give different codes, so each code of a given length is
   produced by exactly one sequence of draws: the generator inherits the
   uniformity of its random source.
   */
  lemma GenerateCodeInjective(d1: seq<nat>, d2: seq<nat>)
    requires ValidDraws(d1) && ValidDraws(d2)
    requires GenerateCode(d1) == GenerateCode(d2)
    ensures d1 == d2
  {
    AlphabetSymbols();
    var c := GenerateCode(d1);
    forall i | 0 <= i < |d1| ensures d1[i] == d2[i] {
      assert c[i] == Symbol(d1[i]) == Symbol(d2[i]);
      SymbolInjective(d1[i], d2[i]);
    }
  }

  /** Every alphanumeric string is a code the generator can produce. */
  lemma GenerateCodeReaches(s: string) returns (draws: seq<nat>)
    requires forall i :: 0 <= i < |s| ==> IsAlnum(s[i])
    ensures ValidDraws(draws) && GenerateCode(draws) == s
  {
    AlphabetSymbols();
    draws := seq(|s|, i requires 0 <= i < |s| => Index(s[i]));
    assert ValidDraws(draws);
    var c := GenerateCode(draws);
    forall i | 0 <= i < |s| ensures c[i] == s[i] {
      assert c[i] == ALPHABET[draws[i]] == Symbol(Index(s[i]));
    }
  }
}
