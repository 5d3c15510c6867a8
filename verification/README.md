# Sedecordle engine — a Dafny model

Sedecordle is sixteen Wordle boards played at once. Each guess goes to every board still
unsolved, and a player has twenty guesses. This project models the game engine inside the
`SedecordleSolver` class and the module-level helpers it relies on. The repository holds
two near-identical copies: `Product/SedecordleSolverGame.py` and `SedecordleSolverGame.py`.
Their engines are the same, except that only the Product copy has `reset_game`. One model
serves both. Line numbers in the table point at whichever copy reads best. In the root
copy the same code sits at:

- `enter_word`: 238-259
- `fill_grid`: 261-267
- `highlight_grid`: 269-286
- `check_completion`: 309-311
- `load_new_seed`: 338-345

The module-level helpers (lines 9-90) have the same line numbers in both copies.

The model has seven modules, one per component:

- `Text`: the `strip()`, `upper()` and `endswith()` operations applied to typed input.
- `Seeds`: the 32-symbol seed alphabet, the validity test of `load_new_seed`, and
  `generate_seed` with its inverse.
- `Scoring`: the letter classes that `highlight_grid` paints. The standard two-pass Wordle
  scoring is defined next to it as a reference. Lemmas pin down exactly how the engine's
  rule differs from the standard one.
- `Store`: the seed database (`save_seed`, `load_seed`) as a class over a map, plus
  `get_seeded_words` with its two paths.
- `Users`: the user table (`register_user`, `authenticate`) as a class over a map, plus
  the login rule, including the `+devkey` developer suffix.
- `Game`: the `SedecordleSolver` state, a class whose cells live in a 16×20×5 `array3`.
  Its methods are `enter_word`, `fill_grid`, `highlight_grid`, `check_completion`,
  `load_new_seed`, `reset_game` and `auto_fill_target_words`.
- `Wrappers`: an `Option` type.

The session invariant `Valid()` has four parts:

- the row counter stays in `0..20`;
- only board indices `0..15` are ever completed;
- every row from the current one on is still empty and unhighlighted;
- the puzzle is sixteen five-letter words.

Each state-changing method states its whole new state in terms of the old one.
`AutoFillTargetWords` does so through the step functions `RowAfter`, `SolvedAfter` and
`CellAfter`, which describe a series of words entered one after another.

Where the code and a common description of this game disagree, the model follows the code:

- Scoring is per position, with no letter budget. A position is Exact if the letters
  match. Otherwise it is Present if the letter occurs anywhere in the target. Otherwise it
  is Absent, and no colour is set. `LLAMA` against `LEMON` gets its single `L` credited
  twice (`Scoring.RepeatedLetterCreditedTwice`).
- There is no closed state. Once every board is solved, a valid guess is still accepted.
  It uses up a row and writes into no board.
- The store is not append-only. Every lookup that misses overwrites the seed's entry: an
  entry holding an empty list, or any lookup with the empty seed `""`.
- `load_new_seed` swaps the puzzle but keeps the row counter, the solved boards and the
  grid contents. A board solved under the old puzzle stays frozen under the new one.

## Model

| member | source | states |
|---|---|---|
| `Text.TrimStart` | Product/SedecordleSolverGame.py:253 | the leading part `strip()` drops is all whitespace, and what is left is a suffix of the input that does not start with whitespace |
| `Text.TrimEnd` | SedecordleSolverGame.py:243 | the trailing part `strip()` drops is all whitespace, and what is left is a prefix of the input that does not end with whitespace |
| `Text.ToUpperAt` | Product/SedecordleSolverGame.py:253 | `upper()` keeps the length and maps each character on its own: a–z to A–Z, everything else kept |
| `Text.NormalizeKeepsCapitalWord` | Product/SedecordleSolverGame.py:20 | a word of capital letters, as the upper-cased library holds them, is unchanged by the `.strip().upper()` that `enter_word` applies |
| `Seeds.SeedAlphabet` | Product/SedecordleSolverGame.py:9-10 | `SEED_CHARACTERS` has 32 symbols, and a character is one of them iff it is in A–V or 0–9 |
| `Seeds.GenerateSeed` | Product/SedecordleSolverGame.py:56-57 | whatever the 32 draws of `random.choice`, the generated seed passes the seed check |
| `Seeds.GenerateSeedReachesEveryValidSeed` | Product/SedecordleSolverGame.py:56-57 | every seed that passes the check is produced by some draws, so the generated seeds are exactly the valid seeds |
| `Seeds.GenerateSeedInjective` | SedecordleSolverGame.py:56-57 | the seed determines its draws: different draws give different seeds |
| `Seeds.SeedInputAccepted` | Product/SedecordleSolverGame.py:353-354 | typed input is accepted iff, once stripped, it has 32 characters and each is a–v, A–V or a digit |
| `Seeds.ValidSeedIsNormal` | SedecordleSolverGame.py:339-341 | a valid seed is unchanged by strip and upper-case, so it is looked up and stored exactly as it reads |
| `Scoring.AllExactIffTarget` | Product/SedecordleSolverGame.py:282-296 | the `correct` flag stays true (every position Exact) iff the guess equals the target word |
| `Scoring.CreditedIffInTarget` | Product/SedecordleSolverGame.py:287-293 | a position is credited (Exact or Present) iff its letter occurs in the target; Present only marks a letter in the wrong place |
| `Scoring.RepeatedLetterCreditedTwice` | Product/SedecordleSolverGame.py:289-290 | LLAMA against LEMON scores Exact, Present, Absent, Present, Absent: the one L of the target is credited twice |
| `Scoring.TwoPassCreditsAtMostScore` | SedecordleSolverGame.py:277-283 | standard two-pass scoring never credits more than the engine: the two agree on Exact, and each two-pass Present is an engine Present |
| `Scoring.ScoreIsTwoPassForDistinctLetters` | SedecordleSolverGame.py:277-282 | for a guess with no repeated letter, the engine's scoring equals standard two-pass scoring |
| `Scoring.RepeatCreditedOnlyByEngine` | SedecordleSolverGame.py:279-280 | a letter that occurs once in the target and is matched exactly elsewhere is Present for the engine wherever it is guessed again, but Absent for two-pass scoring |
| `Scoring.TwoPassDiffersOnRepeatedLetter` | Product/SedecordleSolverGame.py:287-290 | with a repeated letter the two scorings differ: two-pass scores the second L of LLAMA against LEMON as Absent, where the engine paints it orange |
| `Store.SampleWords` | Product/SedecordleSolverGame.py:87-88 | the sample is 16 words, each from the library, each five letters when the library's words are |
| `Store.SampleWordsDistinct` | SedecordleSolverGame.py:88 | distinct sampled positions over a library without repeats give 16 distinct target words |
| `Store.SeededWords` | Product/SedecordleSolverGame.py:82-90 | the returned seed is the given one, or a fresh valid seed when none is given; the words are never empty and form a playable puzzle when the store and library are well formed |
| `Store.StoreAfter` | SedecordleSolverGame.py:86-89 | afterwards the returned seed maps to the returned words; every other entry is unchanged; well-formedness of the store is kept |
| `Store.SeedReproducible` | Product/SedecordleSolverGame.py:83-84 | looking up the seed a call returned gives the same words and leaves the store as it is, whatever the library and draws are the second time |
| `Store.FreshSeedNonEmpty` | Product/SedecordleSolverGame.py:86 | a call without a seed stores under a non-empty seed, so that puzzle can always be reproduced |
| `Store.EmptySeedAlwaysResampled` | SedecordleSolverGame.py:83-86 | the empty seed is never looked up: it always gets a fresh sample saved under `""` |
| `Store.SeedStore.constructor` | Product/SedecordleSolverGame.py:61-65 | the store starts as the file's mapping, the empty map when the file is missing or corrupt |
| `Store.SeedStore.LoadSeed` | Product/SedecordleSolverGame.py:73-79 | `None` iff the seed has no entry, else exactly the stored entry |
| `Store.SeedStore.SaveSeed` | Product/SedecordleSolverGame.py:60-70 | the seed's entry becomes the words; all other entries are kept |
| `Store.GetSeededWords` | SedecordleSolverGame.py:82-90 | returns what `SeededWords` says and leaves the store as `StoreAfter` says |
| `Users.DeveloperKeySuffices` | Product/SedecordleSolverGame.py:132 | every name followed by `+devkey` is a developer name |
| `Users.DeveloperNameSplits` | SedecordleSolverGame.py:132 | every developer name is some name followed by `+devkey` |
| `Users.UserTable.constructor` | Product/SedecordleSolverGame.py:29-34 | the table starts as the file's mapping, the empty map when the file is missing or corrupt |
| `Users.UserTable.Authenticate` | Product/SedecordleSolverGame.py:42-44 | true iff the username is registered and its stored password equals the given one |
| `Users.UserTable.RegisterUser` | Product/SedecordleSolverGame.py:47-53 | returns false and changes nothing when the name is taken; otherwise adds name→password, after which that pair authenticates; no other user's login changes |
| `Users.UserTable.Register` | Product/SedecordleSolverGame.py:139-142 | the `register` handler strips both fields and registers them: it succeeds iff the stripped name is free, adds exactly stripped name→stripped password, and a success lets the same two inputs log in |
| `Users.UserTable.Login` | Product/SedecordleSolverGame.py:127-132 | login succeeds iff the stripped name and password authenticate; the user is a developer iff the stripped name ends in `+devkey` |
| `Game.AllBoardsIffSixteen` | Product/SedecordleSolverGame.py:319-320 | for a set of board indices, having 16 elements is the same as containing every board |
| `Game.SedecordleSolver.constructor` | Product/SedecordleSolverGame.py:94-106 | the puzzle and seed come from `get_seeded_words`; the row is 0; no board is solved; all 16×20×5 cells are empty and unhighlighted |
| `Game.SedecordleSolver.CheckCompletion` | SedecordleSolverGame.py:309-310 | the completion test holds iff all sixteen boards are solved |
| `Game.SedecordleSolver.EnterWord` | Product/SedecordleSolverGame.py:248-269 | a non-five-letter or non-library word is rejected, then any word once 20 rows are used, with nothing changed; an accepted word moves the row on by exactly 1 and fills and colours that row in unsolved boards only, other cells unchanged; a board joins `completed_grids` iff the word is its target, and none leaves |
| `Game.SedecordleSolver.PlayRow` | Product/SedecordleSolverGame.py:263-266 | the loop over the boards: every board not yet solved gets the word written and coloured in the current row, no other cell changes, and a board joins `completed_grids` iff the word is its target |
| `Game.SedecordleSolver.FillGrid` | Product/SedecordleSolverGame.py:271-277 | the word's letters go into the current row of one board with colours kept; every other cell is unchanged |
| `Game.SedecordleSolver.HighlightGrid` | Product/SedecordleSolverGame.py:279-296 | each current-row cell of the board becomes dark green if Exact, orange if Present, and keeps its colour if Absent; the board is added to `completed_grids` iff the word is its target |
| `Game.SedecordleSolver.LoadNewSeed` | Product/SedecordleSolverGame.py:352-359 | loads iff the normalised input is a valid seed, taking the puzzle, seed and store from `get_seeded_words`; invalid input changes nothing; the row, solved boards and grid are never touched |
| `Game.SedecordleSolver.ResetGame` | Product/SedecordleSolverGame.py:367-381 | a fresh valid seed and its puzzle come from `get_seeded_words`; every cell of every board is cleared; the row is 0; no board is solved |
| `Game.SedecordleSolver.AutoFillTargetWords` | SedecordleSolverGame.py:231-236 | entering the sixteen targets in turn leaves the row counter, the solved boards and every cell exactly as `RowAfter`, `SolvedAfter` and `CellAfter` give for the typed targets, with `Valid()` kept; with 16 rows to spare and every target playable, the row moves on by exactly 16 and all boards end solved |
| `Game.RowAfterBounds` | Product/SedecordleSolverGame.py:242-245 | each entered word moves the row on by at most one, and the row never passes the last one |
| `Game.RowAfterLegal` | Product/SedecordleSolverGame.py:242-245 | when every entered word is a five-letter library word and a row is free for each, every step is accepted and step k goes into row row0 + k |
| `Game.SolvedAfterGrows` | Product/SedecordleSolverGame.py:264 | a board solved after some steps is still solved after more steps |
| `Game.SolvedWhenEntered` | Product/SedecordleSolverGame.py:242-245 | a board is solved once its target has been entered as a legal word while a row was still free |
| `Game.AutoFillSolvesAll` | Product/SedecordleSolverGame.py:241-246 | with every target a library word that normalisation keeps and 16 rows to spare, the row moves on by exactly 16 and every board ends solved |
| `Game.AutoFillSolvesCapitalLibrary` | Product/SedecordleSolverGame.py:20 | since the loaded library is upper-cased, every target drawn from it is playable, so from row 0 (or any row with 16 to spare) auto-fill solves all boards |
| `Game.CellAfterEarlierRows` | Product/SedecordleSolverGame.py:273 | entering words never changes a row above the row the first of them went into |
| `Game.CellAfterUntouched` | Product/SedecordleSolverGame.py:273 | with every word legal, the first j steps leave every row from row0 + j on untouched |
| `Game.CellAfterRowOfStep` | Product/SedecordleSolverGame.py:263-266 | with every word legal and a row free for each, row row0 + k ends holding word k, written and coloured against each board's target, on every board not solved before step k, and is unchanged on the others |

## Left out

- The Tkinter interface is not modelled: windows, frames, labels, buttons, layout and
  fullscreen. So are `apply_theme` and `toggle_dark_mode`, whose repaint of every cell
  would also wipe the green and orange highlights. Also out: `copy_seed` and the
  clipboard, `print` output and the `game()` entry point. The three cell colours stand
  for the theme background, dark green and orange.
- The timer is not modelled: `update_timer`, `start_timer`, `stop_timer`, the timer
  fields, and the timer action of `check_completion`. It needs wall-clock time, Tk
  scheduling and floating point. `CheckCompletion` models only the completion test.
- File I/O is not modelled: the word, seed and user JSON files. The stores are in-memory
  maps, and a missing or corrupt file is the empty map. `load_word_library` is not
  modelled; the library is a parameter.
- Python's Mersenne Twister is not modelled. The draws of `random.choice` and
  `random.sample` are parameters. They are constrained only by what the random module
  promises: indices into the alphabet, and 16 distinct positions of the library.
- Seeds.GenerateSeed: its draws are free parameters, which over-approximates the source.
  `generate_seed` draws from the global generator, which the previous `get_seeded_words`
  call seeded with the previous seed. So after the first puzzle, every fresh seed from
  `reset_game` is a fixed function of the previous seed and the library. No property
  proved here depends on the draws being free.
- Store.SampleWords: does not say which positions `random.seed(seed)` followed by
  `random.sample` picks. So two samples for the same seed are not shown equal. The model
  gets reproducibility only through the store (`Store.SeedReproducible`).
- Not modelled: the `ValueError` of `random.sample` on a library of fewer than 16 words.
  A library of at least 16 words is a precondition.
- Not modelled: malformed stored entries and library words. A stored entry of more than
  16 words makes `enter_word` raise `IndexError` at `self.grids[16]`, after boards 0–15
  have been written. An entry of fewer than 16 words raises nothing, but fewer boards are
  visited and `len(completed_grids) == 16` can never hold. A target shorter than five
  letters raises `IndexError` in `highlight_grid`. The model takes the library to hold
  five-letter words, and every stored entry to be empty or 16 such words.
- Text.TrimStart: only ASCII whitespace is stripped. Unicode spaces that Python's
  `strip()` also removes are not.
- Text.TrimEnd: only ASCII whitespace is stripped, as for `TrimStart`.
- Not modelled: `upper()` on non-ASCII letters, which Python also maps (it can even
  change a string's length). Only a–z are upper-cased.
- `highlight_grid` takes a grid and a grid index separately. `enter_word` always passes
  the same board for both, so `HighlightGrid` takes one board index.
- The `register` and `login` handlers show labels, and `login` calls `init_game`; those
  parts are not modelled. `Register` and `Login` model their credential logic.
- Passwords are plain strings in a map, as in the source. Credential security is out of
  scope.
