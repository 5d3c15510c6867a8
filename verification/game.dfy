/**
 * The game state of SedecordleSolver: sixteen boards of 20 rows by 5 cells, the sixteen
 * target words and their seed, the row the next guess goes into, and the set of boards
 * already solved. A guess is checked first and then written into the current row of every
 * board not yet solved, each cell coloured by the letter-scoring rule.
 */
module Game {
  import opened Wrappers
  import opened Text
  import opened Seeds
  import opened Scoring
  import opened Store

  /** The number of boards (one per target word), and the rows and cells of each board. */
  const Boards: nat := 16
  const Rows: nat := 20
  const Cols: nat := 5

  /** The highlight of a cell: the theme's background, dark green or orange. */
  datatype Colour = Unhighlighted | DarkGreen | Orange

  /** One entry box of a board: the letter it shows (if any) and its highlight. */
  datatype Cell = Cell(letter: Option<char>, colour: Colour)

  /** An empty, unhighlighted entry box. */
  const Blank: Cell := Cell(None, Unhighlighted)

  /** The colour highlight_grid leaves on a cell of the given class: Absent sets no colour. */
  function Highlight(cls: LetterClass, previous: Colour): Colour {
    match cls
    case Exact => DarkGreen
    case Present => Orange
    case Absent => previous
  }

  /** Cell c of the current row once fill_grid has written word into it and highlight_grid has coloured it. */
  function Written(cell: Cell, word: string, target: string, c: nat): Cell
    requires c < |word| && |word| == |target|
  {
    Cell(Some(word[c]), Highlight(Score(word, target)[c], cell.colour))
  }

  /** What enter_word does with a typed word: plays it, or rejects it with one of its two messages. */
  datatype Submission = Accepted | InvalidWord | RowsFilled

  /**
   * The answer enter_word gives a typed word when the next guess would go into row `row`:
   * the word is checked first, then the row.
   */
  function Outcome(library: seq<string>, input: string, row: nat): Submission {
    if |Normalize(input)| != Cols || Normalize(input) !in library then InvalidWord
    else if row >= Rows then RowsFilled
    else Accepted
  }

  /** The boards whose target is word: the ones a guess of word solves. */
  function SolvedBy(targets: seq<string>, word: string): set<nat> {
    set b: nat | b < |targets| && targets[b] == word
  }

  // A series of words entered one after another, as auto_fill_target_words enters the
  // targets: step k plays words[k] (already stripped and upper-cased) against the boards,
  // starting from row row0 with the boards in done0 already solved.

  /** The words auto_fill_target_words types, as enter_word reads them. */
  function Typed(targets: seq<string>): (words: seq<string>)
    ensures |words| == |targets|
  {
    seq(|targets|, i requires 0 <= i < |targets| => Normalize(targets[i]))
  }

  /** Every word is one enter_word plays: five letters and in the library. */
  predicate AllLegal(library: seq<string>, words: seq<string>) {
    forall i :: 0 <= i < |words| ==> |words[i]| == Cols && words[i] in library
  }

  /** The row counter once the first k words have been entered. */
  function RowAfter(library: seq<string>, words: seq<string>, row0: nat, k: nat): nat
    requires k <= |words|
  {
    if k == 0 then row0
    else
      var r := RowAfter(library, words, row0, k - 1);
      if |words[k - 1]| == Cols && words[k - 1] in library && r < Rows then r + 1 else r
  }

  /** Whether step k is accepted: a legal word, and a row still free. */
  predicate AcceptedAt(library: seq<string>, words: seq<string>, row0: nat, k: nat)
    requires k < |words|
  {
    |words[k]| == Cols && words[k] in library && RowAfter(library, words, row0, k) < Rows
  }

  /** The solved boards once the first k words have been entered. */
  function SolvedAfter(targets: seq<string>, library: seq<string>, words: seq<string>, row0: nat, done0: set<nat>, k: nat): set<nat>
    requires k <= |words|
  {
    if k == 0 then done0
    else
      var prev := SolvedAfter(targets, library, words, row0, done0, k - 1);
      if AcceptedAt(library, words, row0, k - 1) then prev + SolvedBy(targets, words[k - 1]) else prev
  }

  /** Cell (b, r, c), which held cell0, once the first k words have been entered. */
  function CellAfter(targets: seq<string>, library: seq<string>, words: seq<string>, row0: nat, done0: set<nat>, k: nat,
                     b: nat, r: nat, c: nat, cell0: Cell): Cell
    requires IsPuzzle(targets) && k <= |words| && b < |targets| && c < Cols
  {
    if k == 0 then cell0
    else
      var prev := CellAfter(targets, library, words, row0, done0, k - 1, b, r, c, cell0);
      if && AcceptedAt(library, words, row0, k - 1)
         && r == RowAfter(library, words, row0, k - 1)
         && b !in SolvedAfter(targets, library, words, row0, done0, k - 1)
      then Written(prev, words[k - 1], targets[b], c)
      else prev
  }

  /** Each step moves the row on by at most one, and never past the last row. */
  lemma {:induction false} RowAfterBounds(library: seq<string>, words: seq<string>, row0: nat, k: nat)
    requires k <= |words|
    ensures row0 <= RowAfter(library, words, row0, k) <= row0 + k
    ensures row0 <= Rows ==> RowAfter(library, words, row0, k) <= Rows
  {
    if k > 0 {
      RowAfterBounds(library, words, row0, k - 1);
    }
  }

  /** With every word legal and a row free for each, every step is accepted, step k in row row0 + k. */
  lemma {:induction false} RowAfterLegal(library: seq<string>, words: seq<string>, row0: nat, k: nat)
    requires AllLegal(library, words) && row0 + |words| <= Rows && k <= |words|
    ensures RowAfter(library, words, row0, k) == row0 + k
    ensures k < |words| ==> AcceptedAt(library, words, row0, k)
  {
    if k > 0 {
      RowAfterLegal(library, words, row0, k - 1);
    }
  }

  /** Solved boards stay solved. */
  lemma {:induction false} SolvedAfterGrows(targets: seq<string>, library: seq<string>, words: seq<string>, row0: nat, done0: set<nat>,
                                            j: nat, k: nat)
    requires j <= k <= |words|
    ensures SolvedAfter(targets, library, words, row0, done0, j) <= SolvedAfter(targets, library, words, row0, done0, k)
    decreases k
  {
    if j < k {
      SolvedAfterGrows(targets, library, words, row0, done0, j, k - 1);
    }
  }

  /**
   * A board is solved once its target has been entered as a legal word while a row was
   * still free: entering target b at step j, with row0 + j < 20, solves board b.
   */
  lemma SolvedWhenEntered(targets: seq<string>, library: seq<string>, words: seq<string>, row0: nat, done0: set<nat>,
                          k: nat, j: nat, b: nat)
    requires j < k <= |words| && b < |targets|
    requires words[j] == targets[b] && |targets[b]| == Cols && targets[b] in library && row0 + j < Rows
    ensures b in SolvedAfter(targets, library, words, row0, done0, k)
  {
    RowAfterBounds(library, words, row0, j);
    assert AcceptedAt(library, words, row0, j);
    assert b in SolvedBy(targets, words[j]);
    SolvedAfterGrows(targets, library, words, row0, done0, j + 1, k);
  }

  /** Every target is a library word that the .strip().upper() of enter_word leaves as it is. */
  predicate Playable(library: seq<string>, targets: seq<string>) {
    forall i :: 0 <= i < |targets| ==> targets[i] in library && Normalize(targets[i]) == targets[i]
  }

  /**
   * auto_fill_target_words with playable targets and a row free for each: the row moves on
   * by one per target and every board ends up solved.
   */
  lemma AutoFillSolvesAll(targets: seq<string>, library: seq<string>, row0: nat, done0: set<nat>)
    requires IsPuzzle(targets) && Playable(library, targets) && row0 + |targets| <= Rows
    ensures RowAfter(library, Typed(targets), row0, |targets|) == row0 + |targets|
    ensures forall b :: 0 <= b < |targets| ==> b in SolvedAfter(targets, library, Typed(targets), row0, done0, |targets|)
  {
    var words := Typed(targets);
    assert words == targets;
    RowAfterLegal(library, words, row0, |words|);
    forall b | 0 <= b < |targets|
      ensures b in SolvedAfter(targets, library, words, row0, done0, |targets|)
    {
      SolvedWhenEntered(targets, library, words, row0, done0, |targets|, b, b);
    }
  }

  /**
   * The library is upper-cased when it is loaded, so its words are capitals: then every
   * target is playable, and from row 0 of a fresh game (or any row with sixteen to spare)
   * auto_fill_target_words solves every board.
   */
  lemma AutoFillSolvesCapitalLibrary(targets: seq<string>, library: seq<string>, row0: nat, done0: set<nat>)
    requires IsPuzzle(targets) && row0 + |targets| <= Rows
    requires forall w :: w in library ==> IsCapitalWord(w)
    requires forall i :: 0 <= i < |targets| ==> targets[i] in library
    ensures RowAfter(library, Typed(targets), row0, |targets|) == row0 + |targets|
    ensures forall b :: 0 <= b < |targets| ==> b in SolvedAfter(targets, library, Typed(targets), row0, done0, |targets|)
  {
    forall i | 0 <= i < |targets|
      ensures Normalize(targets[i]) == targets[i]
    {
      NormalizeKeepsCapitalWord(targets[i]);
    }
    AutoFillSolvesAll(targets, library, row0, done0);
  }

  /** Rows above the starting row are never written. */
  lemma {:induction false} CellAfterEarlierRows(targets: seq<string>, library: seq<string>, words: seq<string>, row0: nat,
                                                done0: set<nat>, k: nat, b: nat, r: nat, c: nat, cell0: Cell)
    requires IsPuzzle(targets) && k <= |words| && b < |targets| && c < Cols && r < row0
    ensures CellAfter(targets, library, words, row0, done0, k, b, r, c, cell0) == cell0
  {
    if k > 0 {
      CellAfterEarlierRows(targets, library, words, row0, done0, k - 1, b, r, c, cell0);
      RowAfterBounds(library, words, row0, k - 1);
    }
  }

  /** With every word legal, the first j steps leave the rows from row0 + j on untouched. */
  lemma {:induction false} CellAfterUntouched(targets: seq<string>, library: seq<string>, words: seq<string>, row0: nat,
                                              done0: set<nat>, j: nat, b: nat, r: nat, c: nat, cell0: Cell)
    requires IsPuzzle(targets) && AllLegal(library, words) && row0 + |words| <= Rows
    requires j <= |words| && b < |targets| && c < Cols && row0 + j <= r
    ensures CellAfter(targets, library, words, row0, done0, j, b, r, c, cell0) == cell0
  {
    if j > 0 {
      CellAfterUntouched(targets, library, words, row0, done0, j - 1, b, r, c, cell0);
      RowAfterLegal(library, words, row0, j - 1);
    }
  }

  /**
   * With every word legal and a row free for each, row row0 + k ends up holding word k,
   * written and coloured, on every board not solved before step k, and stays as it was on
   * the others.
   */
  lemma {:induction false} CellAfterRowOfStep(targets: seq<string>, library: seq<string>, words: seq<string>, row0: nat,
                                              done0: set<nat>, n: nat, k: nat, b: nat, c: nat, cell0: Cell)
    requires IsPuzzle(targets) && AllLegal(library, words) && row0 + |words| <= Rows
    requires k < n <= |words| && b < |targets| && c < Cols
    ensures CellAfter(targets, library, words, row0, done0, n, b, row0 + k, c, cell0) ==
      if b !in SolvedAfter(targets, library, words, row0, done0, k) then Written(cell0, words[k], targets[b], c) else cell0
    decreases n
  {
    RowAfterLegal(library, words, row0, n - 1);
    if n == k + 1 {
      CellAfterUntouched(targets, library, words, row0, done0, k, b, row0 + k, c, cell0);
    } else {
      CellAfterRowOfStep(targets, library, words, row0, done0, n - 1, k, b, c, cell0);
    }
  }

  /**
   * check_completion's test `len(completed_grids) == 16`: for a set of board indices it
   * holds exactly when every board is solved.
   */
  lemma AllBoardsIffSixteen(s: set<nat>)
    requires forall b :: b in s ==> b < Boards
    ensures |s| == Boards <==> forall b :: 0 <= b < Boards ==> b in s
  {
    AllIndicesIffCount(s, Boards);
  }

  /** A set of indices below n has n elements exactly when it holds every index below n. */
  lemma AllIndicesIffCount(s: set<nat>, n: nat)
    requires forall b :: b in s ==> b < n
    ensures |s| == n <==> forall b :: 0 <= b < n ==> b in s
  {
    var all := BoardIndices(n);
    if forall b :: 0 <= b < n ==> b in s {
      assert s == all;
    } else {
      var b :| 0 <= b < n && b !in s;
      SubsetCardinality(s, all - {b});
    }
  }

  /** The board indices below n. */
  function BoardIndices(n: nat): (all: set<nat>)
    ensures forall b: int :: b in all <==> 0 <= b < n
    ensures |all| == n
  {
    if n == 0 then {} else BoardIndices(n - 1) + {n - 1}
  }

  lemma {:induction false} SubsetCardinality(a: set<nat>, b: set<nat>)
    requires a <= b
    ensures |a| <= |b|
    decreases |b|
  {
    if a != {} {
      var x :| x in a;
      SubsetCardinality(a - {x}, b - {x});
    }
  }

  class SedecordleSolver {
    /** word_library: the playable words, upper-cased when loaded. */
    const library: seq<string>
    /** The seed database the session reads and writes. */
    const store: SeedStore
    /** self.grids: board, row, column. */
    const grids: array3<Cell>
    var targetWords: seq<string>
    var seed: string
    var currentRow: nat
    var completedGrids: set<nat>

    /** The fixed shape of the session: grid dimensions, a playable library and puzzle, a sound store. */
    ghost predicate Shaped()
      reads this, store
    {
      && grids.Length0 == Boards && grids.Length1 == Rows && grids.Length2 == Cols
      && IsWordLibrary(library)
      && IsPuzzle(targetWords)
      && store.WellFormed()
    }

    /**
     * The session invariant: the row counter never passes the last row, only real boards are
     * ever completed, and no row from the current one on has been written or coloured yet.
     */
    ghost predicate Valid()
      reads this, grids, store
    {
      && Shaped()
      && currentRow <= Rows
      && (forall b :: b in completedGrids ==> b < Boards)
      && (forall b, r, c :: 0 <= b < Boards && currentRow <= r < Rows && 0 <= c < Cols ==> grids[b, r, c] == Blank)
    }

    /** __init__ and init_game: the puzzle comes from get_seeded_words, the boards start empty. */
    constructor (library: seq<string>, store: SeedStore, initialSeed: Option<string>, picks: seq<nat>, positions: seq<nat>)
      requires IsWordLibrary(library) && store.WellFormed()
      requires IsDraw(library, initialSeed, picks, positions)
      modifies store
      ensures Valid() && fresh(grids)
      ensures this.library == library && this.store == store
      ensures Puzzle(targetWords, seed) == SeededWords(old(store.entries), library, initialSeed, picks, positions)
      ensures store.entries == StoreAfter(old(store.entries), library, initialSeed, picks, positions)
      ensures currentRow == 0 && completedGrids == {}
      ensures forall b, r, c :: 0 <= b < Boards && 0 <= r < Rows && 0 <= c < Cols ==> grids[b, r, c] == Blank
    {
      this.library := library;
      this.store := store;
      var words, usedSeed := GetSeededWords(store, library, initialSeed, picks, positions);
      targetWords := words;
      seed := usedSeed;
      completedGrids := {};
      currentRow := 0;
      grids := new Cell[Boards, Rows, Cols]((b, r, c) => Blank);
    }

    /** check_completion's test: all sixteen boards are solved. */
    method CheckCompletion() returns (complete: bool)
      requires Valid()
      ensures complete <==> forall b :: 0 <= b < Boards ==> b in completedGrids
    {
      AllBoardsIffSixteen(completedGrids);
      complete := |completedGrids| == Boards;
    }

    /**
     * enter_word: the typed word is stripped and upper-cased; a word that is not five letters
     * or not in the library is rejected, then so is any word once all rows are used. Otherwise
     * the word goes into the current row of every unsolved board, a board whose target it is
     * becomes solved, and the row counter moves on by one.
     */
    method EnterWord(input: string) returns (outcome: Submission)
      requires Valid()
      modifies this`currentRow, this`completedGrids, grids
      ensures Valid()
      ensures outcome == Outcome(library, input, old(currentRow))
      ensures outcome != Accepted ==>
        currentRow == old(currentRow) && completedGrids == old(completedGrids) && unchanged(grids)
      ensures outcome == Accepted ==> currentRow == old(currentRow) + 1
      ensures outcome == Accepted ==> forall b ::
        b in completedGrids <==> b in old(completedGrids) || (0 <= b < Boards && targetWords[b] == Normalize(input))
      ensures outcome == Accepted ==> forall b, r, c :: 0 <= b < Boards && 0 <= r < Rows && 0 <= c < Cols ==>
        grids[b, r, c] == if r == old(currentRow) && b !in old(completedGrids)
                          then Written(old(grids[b, r, c]), Normalize(input), targetWords[b], c)
                          else old(grids[b, r, c])
    {
      var word := Normalize(input);
      if |word| != Cols || word !in library {
        return InvalidWord;
      }
      if currentRow >= Rows {
        return RowsFilled;
      }
      PlayRow(word);
      currentRow := currentRow + 1;
      outcome := Accepted;
    }

    /**
     * The loop of enter_word over the boards: the word goes into the current row of every
     * board not yet solved, and a board whose target it is becomes solved.
     */
    method PlayRow(word: string)
      requires Shaped() && |word| == Cols && currentRow < Rows
      modifies this`completedGrids, grids
      ensures forall b :: b in completedGrids <==> b in old(completedGrids) || (0 <= b < Boards && targetWords[b] == word)
      ensures forall b, r, c :: 0 <= b < Boards && 0 <= r < Rows && 0 <= c < Cols ==>
        grids[b, r, c] == if r == currentRow && b !in old(completedGrids)
                          then Written(old(grids[b, r, c]), word, targetWords[b], c)
                          else old(grids[b, r, c])
    {
      var i := 0;
      while i < |targetWords|
        invariant 0 <= i <= Boards
        invariant Shaped()
        invariant forall b :: b in completedGrids <==> b in old(completedGrids) || (0 <= b < i && targetWords[b] == word)
        invariant forall b, r, c :: 0 <= b < Boards && 0 <= r < Rows && 0 <= c < Cols ==>
          grids[b, r, c] == if r == currentRow && b < i && b !in old(completedGrids)
                            then Written(old(grids[b, r, c]), word, targetWords[b], c)
                            else old(grids[b, r, c])
      {
        if i !in completedGrids {
          label before:
          FillGrid(word, i);
          HighlightGrid(word, i);
          forall b, r, c | 0 <= b < Boards && 0 <= r < Rows && 0 <= c < Cols
            ensures grids[b, r, c] == if b == i && r == currentRow
                                      then Written(old@before(grids[b, r, c]), word, targetWords[b], c)
                                      else old@before(grids[b, r, c])
          {
          }
        }
        i := i + 1;
      }
    }

    /** fill_grid: writes the word's letters into the current row of one board, colours untouched. */
    method FillGrid(word: string, board: nat)
      requires Shaped() && |word| == Cols && board < Boards && currentRow < Rows
      modifies grids
      ensures forall b, r, c :: 0 <= b < Boards && 0 <= r < Rows && 0 <= c < Cols ==>
        grids[b, r, c] == if b == board && r == currentRow then Cell(Some(word[c]), old(grids[b, r, c]).colour)
                          else old(grids[b, r, c])
    {
      var col := 0;
      while col < Cols
        invariant 0 <= col <= Cols
        invariant forall b, r, c :: 0 <= b < Boards && 0 <= r < Rows && 0 <= c < Cols ==>
          grids[b, r, c] == if b == board && r == currentRow && c < col then Cell(Some(word[c]), old(grids[b, r, c]).colour)
                            else old(grids[b, r, c])
      {
        grids[board, currentRow, col] := Cell(Some(word[col]), grids[board, currentRow, col].colour);
        col := col + 1;
      }
    }

    /**
     * highlight_grid: colours the current row of one board by the scoring rule and marks the
     * board solved when every position is an exact match, that is when the word is its target.
     */
    method HighlightGrid(word: string, board: nat)
      requires Shaped() && |word| == Cols && board < Boards && currentRow < Rows
      modifies grids, this`completedGrids
      ensures completedGrids == if word == targetWords[board] then old(completedGrids) + {board} else old(completedGrids)
      ensures forall b, r, c :: 0 <= b < Boards && 0 <= r < Rows && 0 <= c < Cols ==>
        grids[b, r, c] == if b == board && r == currentRow
                          then old(grids[b, r, c]).(colour := Highlight(Score(word, targetWords[board])[c], old(grids[b, r, c]).colour))
                          else old(grids[b, r, c])
    {
      var target := targetWords[board];
      var correct := true;
      var col := 0;
      while col < Cols
        modifies grids
        invariant 0 <= col <= Cols
        invariant correct <==> forall k :: 0 <= k < col ==> word[k] == target[k]
        invariant forall b, r, c :: 0 <= b < Boards && 0 <= r < Rows && 0 <= c < Cols ==>
          grids[b, r, c] == if b == board && r == currentRow && c < col
                            then old(grids[b, r, c]).(colour := Highlight(Score(word, target)[c], old(grids[b, r, c]).colour))
                            else old(grids[b, r, c])
      {
        if word[col] == target[col] {
          grids[board, currentRow, col] := grids[board, currentRow, col].(colour := DarkGreen);
        } else if word[col] in target {
          grids[board, currentRow, col] := grids[board, currentRow, col].(colour := Orange);
          correct := false;
        } else {
          correct := false;
        }
        col := col + 1;
      }
      AllExactIffTarget(word, target);
      assert correct <==> AllExact(Score(word, target));
      if correct {
        completedGrids := completedGrids + {board};
      }
    }

    /**
     * load_new_seed: a typed seed that is valid once stripped and upper-cased replaces the
     * target words and the seed through get_seeded_words; an invalid one changes nothing.
     * The row counter, the solved boards and the grids are left as they are either way.
     */
    method LoadNewSeed(input: string, positions: seq<nat>) returns (loaded: bool)
      requires Valid() && IsSample(positions, |library|)
      modifies this`targetWords, this`seed, store
      ensures Valid()
      ensures loaded <==> IsValidSeed(Normalize(input))
      ensures !loaded ==> targetWords == old(targetWords) && seed == old(seed) && store.entries == old(store.entries)
      ensures loaded ==> Puzzle(targetWords, seed) == SeededWords(old(store.entries), library, Some(Normalize(input)), [], positions)
      ensures loaded ==> store.entries == StoreAfter(old(store.entries), library, Some(Normalize(input)), [], positions)
      ensures currentRow == old(currentRow) && completedGrids == old(completedGrids) && unchanged(grids)
    {
      var newSeed := Normalize(input);
      if |newSeed| == SeedLength && forall i :: 0 <= i < |newSeed| ==> IsSeedChar(newSeed[i]) {
        targetWords, seed := GetSeededWords(store, library, Some(newSeed), [], positions);
        loaded := true;
      } else {
        loaded := false;
      }
    }

    /**
     * reset_game: a fresh seed and puzzle from get_seeded_words, every cell of every board
     * cleared, the row counter back to 0 and no board solved.
     */
    method ResetGame(picks: seq<nat>, positions: seq<nat>)
      requires Valid() && IsDraw(library, None, picks, positions)
      modifies this`targetWords, this`seed, this`currentRow, this`completedGrids, grids, store
      ensures Valid()
      ensures Puzzle(targetWords, seed) == SeededWords(old(store.entries), library, None, picks, positions)
      ensures store.entries == StoreAfter(old(store.entries), library, None, picks, positions)
      ensures currentRow == 0 && completedGrids == {}
      ensures forall b, r, c :: 0 <= b < Boards && 0 <= r < Rows && 0 <= c < Cols ==> grids[b, r, c] == Blank
    {
      targetWords, seed := GetSeededWords(store, library, None, picks, positions);
      var b := 0;
      while b < Boards
        modifies grids
        invariant 0 <= b <= Boards
        invariant forall b', r', c' :: 0 <= b' < Boards && 0 <= r' < Rows && 0 <= c' < Cols ==>
          grids[b', r', c'] == if b' < b then Blank else old(grids[b', r', c'])
      {
        var r := 0;
        while r < Rows
          invariant 0 <= r <= Rows
          invariant forall b', r', c' :: 0 <= b' < Boards && 0 <= r' < Rows && 0 <= c' < Cols ==>
            grids[b', r', c'] == if b' < b || (b' == b && r' < r) then Blank else old(grids[b', r', c'])
        {
          var c := 0;
          while c < Cols
            invariant 0 <= c <= Cols
            invariant forall b', r', c' :: 0 <= b' < Boards && 0 <= r' < Rows && 0 <= c' < Cols ==>
              grids[b', r', c'] == if b' < b || (b' == b && (r' < r || (r' == r && c' < c))) then Blank else old(grids[b', r', c'])
          {
            grids[b, r, c] := Blank;
            c := c + 1;
          }
          r := r + 1;
        }
        b := b + 1;
      }
      currentRow := 0;
      completedGrids := {};
    }

    /**
     * auto_fill_target_words (the developer's solver): enters every target word in turn, as
     * if typed. The row counter, the solved boards and every cell end as RowAfter,
     * SolvedAfter and CellAfter say for the typed targets; with sixteen rows to spare and
     * every target playable, the row moves on by sixteen and all boards end up solved.
     */
    method AutoFillTargetWords()
      requires Valid()
      modifies this`currentRow, this`completedGrids, grids
      ensures Valid()
      ensures currentRow == RowAfter(library, Typed(targetWords), old(currentRow), Boards)
      ensures completedGrids == SolvedAfter(targetWords, library, Typed(targetWords), old(currentRow), old(completedGrids), Boards)
      ensures forall b, r, c :: 0 <= b < Boards && 0 <= r < Rows && 0 <= c < Cols ==>
        grids[b, r, c] == CellAfter(targetWords, library, Typed(targetWords), old(currentRow), old(completedGrids), Boards,
                                    b, r, c, old(grids[b, r, c]))
      ensures (old(currentRow) + Boards <= Rows && Playable(library, targetWords)) ==>
        currentRow == old(currentRow) + Boards && forall b :: 0 <= b < Boards ==> b in completedGrids
    {
      ghost var words := Typed(targetWords);
      var i := 0;
      while i < |targetWords|
        invariant 0 <= i <= Boards
        invariant Valid()
        invariant currentRow == RowAfter(library, words, old(currentRow), i)
        invariant completedGrids == SolvedAfter(targetWords, library, words, old(currentRow), old(completedGrids), i)
        invariant forall b, r, c :: 0 <= b < Boards && 0 <= r < Rows && 0 <= c < Cols ==>
          grids[b, r, c] == CellAfter(targetWords, library, words, old(currentRow), old(completedGrids), i, b, r, c, old(grids[b, r, c]))
      {
        label step:
        var target := targetWords[i];
        assert words[i] == Normalize(target);
        var outcome := EnterWord(target);
        assert outcome == Accepted <==> AcceptedAt(library, words, old(currentRow), i);
        if outcome == Accepted {
          assert completedGrids == old@step(completedGrids) + SolvedBy(targetWords, words[i]);
          forall b, r, c | 0 <= b < Boards && 0 <= r < Rows && 0 <= c < Cols
            ensures grids[b, r, c] == CellAfter(targetWords, library, words, old(currentRow), old(completedGrids), i + 1,
                                                b, r, c, old(grids[b, r, c]))
          {
            assert old@step(grids[b, r, c]) ==
              CellAfter(targetWords, library, words, old(currentRow), old(completedGrids), i, b, r, c, old(grids[b, r, c]));
          }
        }
        i := i + 1;
      }
      if old(currentRow) + Boards <= Rows && Playable(library, targetWords) {
        AutoFillSolvesAll(targetWords, library, old(currentRow), old(completedGrids));
      }
    }
  }
}
