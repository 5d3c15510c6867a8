/**
 * The seed database and puzzle generation: save_seed, load_seed and get_seeded_words.
 * The JSON file is an in-memory map from seed to word list; a missing or corrupt file
 * is the empty map. The random draws (random.choice for a fresh seed, random.sample for
 * the words) are parameters, constrained only by what Python's random module promises.
 */
module Store {
  import opened Wrappers
  import opened Seeds

  /** random.sample(word_library, 16) */
  const PuzzleSize: nat := 16
  /** The word file holds five-letter words. */
  const WordLength: nat := 5

  /** A word library the engine can play from: enough words to sample, all five letters long. */
  predicate IsWordLibrary(library: seq<string>) {
    |library| >= PuzzleSize && forall i :: 0 <= i < |library| ==> |library[i]| == WordLength
  }

  /** Sixteen five-letter target words, one per board. */
  predicate IsPuzzle(words: seq<string>) {
    |words| == PuzzleSize && forall i :: 0 <= i < |words| ==> |words[i]| == WordLength
  }

  /** What random.sample returns positions of: 16 distinct positions of a list of length n. */
  predicate IsSample(positions: seq<nat>, n: nat) {
    && |positions| == PuzzleSize
    && (forall i :: 0 <= i < |positions| ==> positions[i] < n)
    && (forall i, j :: 0 <= i < j < |positions| ==> positions[i] != positions[j])
  }

  /** The words at the sampled positions, in the order they were drawn. */
  function SampleWords(library: seq<string>, positions: seq<nat>): (words: seq<string>)
    requires IsSample(positions, |library|)
    ensures |words| == PuzzleSize
    ensures forall i :: 0 <= i < |words| ==> words[i] in library
    ensures IsWordLibrary(library) ==> IsPuzzle(words)
  {
    seq(PuzzleSize, i requires 0 <= i < PuzzleSize => library[positions[i]])
  }

  /** A library without repeated words gives a puzzle without repeated words. */
  lemma SampleWordsDistinct(library: seq<string>, positions: seq<nat>)
    requires IsSample(positions, |library|)
    requires forall i, j :: 0 <= i < j < |library| ==> library[i] != library[j]
    ensures forall i, j :: 0 <= i < j < PuzzleSize ==> SampleWords(library, positions)[i] != SampleWords(library, positions)[j]
  {
    forall i, j | 0 <= i < j < PuzzleSize
      ensures SampleWords(library, positions)[i] != SampleWords(library, positions)[j]
    {
      var p, q := positions[i], positions[j];
      if p < q {
        assert library[p] != library[q];
      } else {
        assert library[q] != library[p];
      }
    }
  }

  /** Every stored entry is either empty (and ignored) or a playable puzzle. */
  predicate WellFormedEntries(entries: map<string, seq<string>>) {
    forall s :: s in entries ==> entries[s] == [] || IsPuzzle(entries[s])
  }

  /** `if seed and (words := load_seed(seed))`: a non-empty seed with a non-empty stored entry. */
  predicate IsStoredHit(entries: map<string, seq<string>>, seed: Option<string>) {
    seed.Some? && seed.value != "" && seed.value in entries && entries[seed.value] != []
  }

  /** A seed and the target words it stands for. */
  datatype Puzzle = Puzzle(words: seq<string>, seed: string)

  /** The draws get_seeded_words needs: a fresh seed only when none is given. */
  predicate IsDraw(library: seq<string>, seed: Option<string>, picks: seq<nat>, positions: seq<nat>) {
    (seed.None? ==> IsSeedDraw(picks)) && IsSample(positions, |library|)
  }

  /** The words and seed get_seeded_words returns. */
  function SeededWords(entries: map<string, seq<string>>, library: seq<string>, seed: Option<string>,
                       picks: seq<nat>, positions: seq<nat>): (p: Puzzle)
    requires IsDraw(library, seed, picks, positions)
    ensures seed.Some? ==> p.seed == seed.value
    ensures seed.None? ==> IsValidSeed(p.seed)
    ensures p.words != []
    ensures WellFormedEntries(entries) && IsWordLibrary(library) ==> IsPuzzle(p.words)
  {
    if IsStoredHit(entries, seed) then Puzzle(entries[seed.value], seed.value)
    else Puzzle(SampleWords(library, positions), if seed.None? then GenerateSeed(picks) else seed.value)
  }

  /** The store after get_seeded_words: unchanged on a hit, otherwise the new words saved under the seed. */
  function StoreAfter(entries: map<string, seq<string>>, library: seq<string>, seed: Option<string>,
                      picks: seq<nat>, positions: seq<nat>): (after: map<string, seq<string>>)
    requires IsDraw(library, seed, picks, positions)
    ensures SeededWords(entries, library, seed, picks, positions).seed in after
    ensures after[SeededWords(entries, library, seed, picks, positions).seed] == SeededWords(entries, library, seed, picks, positions).words
    ensures forall s :: s != SeededWords(entries, library, seed, picks, positions).seed ==>
      (s in after <==> s in entries) && (s in entries ==> after[s] == entries[s])
    ensures WellFormedEntries(entries) && IsWordLibrary(library) ==> WellFormedEntries(after)
  {
    if IsStoredHit(entries, seed) then entries
    else
      var p := SeededWords(entries, library, seed, picks, positions);
      entries[p.seed := p.words]
  }

  /**
   * Reproducibility: once a non-empty seed has been looked up, looking it up again returns
   * the same words, whatever the library and the random draws are the second time.
   */
  lemma SeedReproducible(entries: map<string, seq<string>>, library: seq<string>, seed: Option<string>,
                         picks: seq<nat>, positions: seq<nat>,
                         library': seq<string>, picks': seq<nat>, positions': seq<nat>)
    requires IsDraw(library, seed, picks, positions)
    requires SeededWords(entries, library, seed, picks, positions).seed != ""
    requires IsDraw(library', Some(SeededWords(entries, library, seed, picks, positions).seed), picks', positions')
    ensures var p := SeededWords(entries, library, seed, picks, positions);
            var after := StoreAfter(entries, library, seed, picks, positions);
            SeededWords(after, library', Some(p.seed), picks', positions') == p
            && StoreAfter(after, library', Some(p.seed), picks', positions') == after
  {
  }

  /** A lookup without a seed always stores under a fresh, valid, hence non-empty seed. */
  lemma FreshSeedNonEmpty(entries: map<string, seq<string>>, library: seq<string>, picks: seq<nat>, positions: seq<nat>)
    requires IsDraw(library, None, picks, positions)
    ensures SeededWords(entries, library, None, picks, positions).seed != ""
  {
  }

  /**
   * The empty seed is falsy in `if seed and ...`: it is never looked up, so it gets a fresh
   * sample (saved under "") on every call, even when "" already has an entry.
   */
  lemma EmptySeedAlwaysResampled(entries: map<string, seq<string>>, library: seq<string>, picks: seq<nat>, positions: seq<nat>)
    requires IsDraw(library, Some(""), picks, positions)
    ensures SeededWords(entries, library, Some(""), picks, positions) == Puzzle(SampleWords(library, positions), "")
  {
  }

  /** The seed database of sedecordle_seeds.json. */
  class SeedStore {
    var entries: map<string, seq<string>>

    /** A store holding what the seed file held (empty when it is missing or corrupt). */
    constructor (entries: map<string, seq<string>>)
      ensures this.entries == entries
    {
      this.entries := entries;
    }

    ghost predicate WellFormed()
      reads this
    {
      WellFormedEntries(entries)
    }

    /** load_seed: the stored entry for seed, or None when there is none. */
    function LoadSeed(seed: string): (r: Option<seq<string>>)
      reads this
      ensures r.None? <==> seed !in entries
      ensures r.Some? ==> r.value == entries[seed]
    {
      if seed in entries then Some(entries[seed]) else None
    }

    /** save_seed: read-modify-write of the mapping, overwriting only this seed's entry. */
    method SaveSeed(seed: string, words: seq<string>)
      modifies this
      ensures entries == old(entries)[seed := words]
    {
      entries := entries[seed := words];
    }
  }

  /** get_seeded_words: the stored words for a known seed, otherwise a fresh sample saved under the seed. */
  method GetSeededWords(store: SeedStore, library: seq<string>, seed: Option<string>,
                        picks: seq<nat>, positions: seq<nat>) returns (words: seq<string>, usedSeed: string)
    requires IsDraw(library, seed, picks, positions)
    modifies store
    ensures Puzzle(words, usedSeed) == SeededWords(old(store.entries), library, seed, picks, positions)
    ensures store.entries == StoreAfter(old(store.entries), library, seed, picks, positions)
  {
    if seed.Some? && seed.value != "" {
      var stored := store.LoadSeed(seed.value);
      if stored.Some? && stored.value != [] {
        return stored.value, seed.value;
      }
    }
    var newSeed := if seed.None? then GenerateSeed(picks) else seed.value;
    words := SampleWords(library, positions);
    store.SaveSeed(newSeed, words);
    usedSeed := newSeed;
  }
}
