/**
 * Puzzle seeds: 32 symbols over the alphabet A-V, 0-9. A seed is drawn symbol by
 * symbol (generate_seed), and a typed seed is accepted only when, once stripped and
 * upper-cased, it has that form (the check in load_new_seed).
 */
module Seeds {
  import opened Text

  /** string.ascii_uppercase: "ABCDEFGHIJKLMNOPQRSTUVWXYZ". */
  function AsciiUppercase(): string {
    seq(26, i requires 0 <= i < 26 => ('A' as int + i) as char)
  }

  /** "0123456789" */
  function Digits(): string {
    seq(10, i requires 0 <= i < 10 => ('0' as int + i) as char)
  }

  /** string.ascii_uppercase[:22] + "0123456789" */
  const SeedCharacters: string := AsciiUppercase()[..22] + Digits()
  const SeedLength: nat := 32

  /** `c in SEED_CHARACTERS` */
  predicate IsSeedChar(c: char) {
    c in SeedCharacters
  }

  /** The test load_new_seed applies to the normalised input. */
  predicate IsValidSeed(s: string) {
    |s| == SeedLength && forall i :: 0 <= i < |s| ==> IsSeedChar(s[i])
  }

  /** The alphabet has 32 symbols: exactly the letters A to V and the ten digits. */
  lemma SeedAlphabet(c: char)
    ensures |SeedCharacters| == 32
    ensures IsSeedChar(c) <==> 'A' <= c <= 'V' || '0' <= c <= '9'
  {
    if 'A' <= c <= 'V' {
      assert SeedCharacters[c as int - 'A' as int] == c;
    } else if '0' <= c <= '9' {
      assert SeedCharacters[22 + c as int - '0' as int] == c;
    }
  }

  /** The 32 draws of random.choice(SEED_CHARACTERS): each an index into the alphabet. */
  predicate IsSeedDraw(picks: seq<nat>) {
    |picks| == SeedLength && forall i :: 0 <= i < |picks| ==> picks[i] < |SeedCharacters|
  }

  /** generate_seed: one alphabet symbol per draw. Whatever the draws, the seed is valid. */
  function GenerateSeed(picks: seq<nat>): (seed: string)
    requires IsSeedDraw(picks)
    ensures IsValidSeed(seed)
  {
    seq(SeedLength, i requires 0 <= i < SeedLength => SeedCharacters[picks[i]])
  }

  /** The position of a symbol in the alphabet. */
  function SymbolIndex(c: char): (k: nat)
    requires IsSeedChar(c)
    ensures k < |SeedCharacters| && SeedCharacters[k] == c
  {
    SeedAlphabet(c);
    if 'A' <= c <= 'V' then c as int - 'A' as int else 22 + c as int - '0' as int
  }

  /** The draws that generate a valid seed: the inverse of GenerateSeed. */
  function SeedDraw(seed: string): (picks: seq<nat>)
    requires IsValidSeed(seed)
    ensures IsSeedDraw(picks)
  {
    seq(SeedLength, i requires 0 <= i < SeedLength => SymbolIndex(seed[i]))
  }

  /** No two positions of the alphabet hold the same symbol. */
  lemma SymbolsDistinct(j: nat, k: nat)
    requires j < |SeedCharacters| && k < |SeedCharacters|
    requires SeedCharacters[j] == SeedCharacters[k]
    ensures j == k
  {
    assert j < 22 <==> 'A' <= SeedCharacters[j];
    assert k < 22 <==> 'A' <= SeedCharacters[k];
  }

  /** Every valid seed is one that generate_seed can produce. */
  lemma GenerateSeedReachesEveryValidSeed(seed: string)
    requires IsValidSeed(seed)
    ensures GenerateSeed(SeedDraw(seed)) == seed
  {
  }

  /** Different draws give different seeds: the seed determines the draws. */
  lemma GenerateSeedInjective(picks: seq<nat>)
    requires IsSeedDraw(picks)
    ensures SeedDraw(GenerateSeed(picks)) == picks
  {
    var seed := GenerateSeed(picks);
    forall i | 0 <= i < SeedLength
      ensures SeedDraw(seed)[i] == picks[i]
    {
      SymbolsDistinct(SymbolIndex(seed[i]), picks[i]);
    }
  }

  /** A typed character the seed check accepts once upper-cased: a-v, A-V or a digit. */
  predicate IsSeedInputChar(c: char) {
    'A' <= c <= 'V' || 'a' <= c <= 'v' || '0' <= c <= '9'
  }

  /**
   * What load_new_seed accepts: the input is valid after .strip().upper() exactly when the
   * stripped input has 32 characters, each a letter a-v in either case or a digit.
   */
  lemma {:induction false} SeedInputAccepted(input: string)
    ensures IsValidSeed(Normalize(input)) <==>
      |Strip(input)| == SeedLength && forall i :: 0 <= i < |Strip(input)| ==> IsSeedInputChar(Strip(input)[i])
  {
    var s := Strip(input);
    NormalizeAt(input);
    forall i | 0 <= i < |s|
      ensures IsSeedChar(Normalize(input)[i]) <==> IsSeedInputChar(s[i])
    {
      SeedAlphabet(Normalize(input)[i]);
    }
  }

  /** A valid seed is its own normal form, so loading it stores it exactly as typed. */
  lemma ValidSeedIsNormal(seed: string)
    requires IsValidSeed(seed)
    ensures Normalize(seed) == seed
  {
    forall i | 0 <= i < |seed|
      ensures !IsSpace(seed[i]) && UpperChar(seed[i]) == seed[i]
    {
      SeedAlphabet(seed[i]);
    }
    StripKeepsTrimmed(seed);
    ToUpperAt(seed);
  }
}
