# Cryptogram game engine in Dafny

This project models the engine of a browser cryptogram game and proves its properties. In the game, a hidden English plaintext is enciphered with a random letter substitution. The player types guesses into a grid of cells until the guesses spell the plaintext. The model covers the engine's five parts:

- **Random** (`Random.dfy`). `getRandomIntegerInRange` and the in-place Fisher–Yates shuffle `shuffleArrayInPlace`. The shuffle is a method on an `array`. It is proved equal to a specification function, `Shuffled`, and that function is proved to give a permutation.
- **Cipher** (`Cipher.dfy`). `createCipher` shuffles the index array `[0, numChars)` in place. It then fills the `encryptor` (plain to cipher) and `decryptor` (cipher to plain) maps in a loop. The method is proved to return two exact inverse maps, keyed by exactly the alphabet letters that occur in the plaintext.
- **Utils** (`Utils.dfy`). `areRecordsEqual` is the win test: a key-count check followed by a per-key comparison. It is proved to be map equality.
- **Grid** (`Grid.dfy`). `createGrid` splits the plaintext into words and whitespace runs. It picks the column count and lays the tokens out in rows of `numCols` cells, breaking rows only at whitespace. Every row but the last is exactly `numCols` cells long; the last row is not padded. Every cell is tagged NONLETTER, UNGUESSED, GUESSED or CONFLICTED. The loop over tokens is proved against the invariant `Laid`. That invariant covers the free cells of the row, row alignment, the contents without padding, and where each token went: the free count when the token is reached, the padding before it and its own cells. These records fix the layout completely (`PlacementDetermined`).
- **Game** (`Game.dfy`). The key handler `handleKeyDown` of the game screen, and its win flags `hasWon` and `hasFilledNotWon`. A `GameState` class holds the guess maps `guessedEncryptor` and `guessedDecryptor`, the conflicted letter and the focused cell. A key press changes them in one step:
  - an arrow moves the focus;
  - Backspace or Delete removes a guess;
  - a letter adds a guess, replaces one, or flags a conflict, then moves the focus to the next cell that needs a guess.

  The class invariant `Valid` says three things: the guess maps stay exact inverses, every guessed letter is one of `A`..`Z`, and a conflicted letter is one that has a guess.

`Wrappers.dfy` holds the `Option` type. JavaScript records keyed and valued by one-character strings are `map<char, char>`. The empty string used for "no conflicted letter" is `None`.

Three behaviours of the code worth knowing:

- Deletion removes the guess keyed by the target cell's letter, whatever that cell's state (`src/components/Game.tsx:108-121`). On a guessed cell this is the guessed plain letter. On an unguessed cell it is the cell's cipher letter, looked up as if it were a plain letter. So Delete on an unguessed cell removes any guess that uses that letter as its plain letter.
- When no cell is eligible, the circular "next unguessed" scan does not stop where it started. It ends on the last cell of the grid (`src/components/Game.tsx:70-81`), and the focus moves there unless the key was pressed on that cell.
- The conflicted letter is the plain letter the player typed, not a cipher letter (`src/components/Game.tsx:144-147`).

## Model

| member | source | states |
|---|---|---|
| Random.RandomIntegerInRange | src/logic/Random.ts:1-3 | For `min <= max` and a draw in `[0, max - min]`, the result lies in `[min, max]`. |
| Random.RandomIntegerInRangeReachesAll | src/logic/Random.ts:1-3 | Every integer of `[min, max]` is the result of some permitted draw. |
| Random.Swap | src/logic/Random.ts:8-10 | The elements at `i` and `j` are exchanged; every other position keeps its element; the length is kept. |
| Random.SwapElements | src/logic/Random.ts:8-10 | The array after the three assignments is `Swap` of the array before. |
| Random.ShuffleDownFrom | src/logic/Random.ts:6-11 | The steps `i` down to 1 keep the length. |
| Random.Shuffled | src/logic/Random.ts:5-12 | The length is kept; an array of length 0 or 1 is unchanged, because the loop body never runs. |
| Random.ShuffleDownFromIsPermutation | src/logic/Random.ts:6-11 | Each run of steps keeps the multiset of elements. |
| Random.ShuffledIsPermutation | src/logic/Random.ts:5-12 | The shuffle is a permutation: same multiset as the input. |
| Random.ShuffleDownFromKeepsTail | src/logic/Random.ts:6-10 | Step `i` swaps `i` only with some `j <= i`, so positions above `i` are final once step `i` is done. |
| Random.ShuffledLast | src/logic/Random.ts:6-10 | The last position ends up holding the element drawn by the first step. |
| Random.ShuffleInPlace | src/logic/Random.ts:5-12 | The array becomes `Shuffled(old array, draws)` and is a permutation of its old contents. |
| Cipher.Letter | src/logic/Cipher.ts:12 | `String.fromCharCode(base + i)`: the code of the result is `base + i`. |
| Cipher.InverseIsInjective | src/logic/Cipher.ts:19-20 | Two maps that are exact inverses are both injective. |
| Cipher.InverseExtend | src/logic/Cipher.ts:19-20 | Adding a pair whose plain and cipher letters are both unused keeps the maps inverse, and each map grows by one. |
| Cipher.Iota | src/logic/Cipher.ts:4 | The index array has length `n` and holds `i` at `i`. |
| Cipher.PermutationOfIota | src/logic/Cipher.ts:4-5 | A rearrangement of `[0, n)` has length `n`, no repeated index and every value in `[0, n)`. |
| Cipher.FillStep | src/logic/Cipher.ts:11-21 | One loop iteration extends `FilledUpTo`: letter `i` becomes a key exactly when the plaintext contains it, mapped to `base + perm[i]`; the maps stay inverse and equally large. |
| Cipher.FilledAll | src/logic/Cipher.ts:11-23 | After the loop, every cipher value is in the alphabet, `encryptor` is injective, and a plaintext without alphabet letters gives two empty maps. |
| Cipher.CreateCipher | src/logic/Cipher.ts:3-24 | The keys of `encryptor` are exactly the alphabet letters in the plaintext. Each key maps to the letter at its position in the shuffled index array, and every value is in the alphabet. `decryptor` is the exact inverse, `encryptor` is injective, and the two are the same size. A plaintext with no alphabet letters gives two empty maps. |
| Utils.SubsetOfSameSize | src/logic/Utils.ts:8-16 | A key set contained in one of the same size equals it, which is why a count check plus a per-key check is equality. |
| Utils.AreRecordsEqual | src/logic/Utils.ts:1-19 | False whenever the key counts differ; true exactly when the two maps are equal. |
| Utils.AreRecordsEqualReflexive | src/logic/Utils.ts:5-18 | A record equals itself, and two empty records are equal. |
| Grid.WordLength | src/logic/Grid.ts:16 | The longest whitespace-free prefix; the next character, if any, is whitespace. |
| Grid.SpaceLength | src/logic/Grid.ts:16 | The longest all-whitespace prefix; the next character, if any, is not whitespace. |
| Grid.Tokenize | src/logic/Grid.ts:16 | `split(/(\s+)/)` always gives at least one token. |
| Grid.TokenizeAlternates | src/logic/Grid.ts:16 | Tokens alternate word, whitespace run, word, ..., starting and ending with a possibly empty word. |
| Grid.TokenizeRunsMaximal | src/logic/Grid.ts:16 | Whitespace runs are maximal: every word between two runs is non-empty, so with the alternation and the round trip the tokens are fixed. |
| Grid.AlternatesKinds | src/logic/Grid.ts:16 | In an alternating sequence, every token is a word or a non-empty whitespace run. |
| Grid.TokenKinds | src/logic/Grid.ts:16-28 | Every token either passes `/^\s+$/` or contains no whitespace. |
| Grid.ConcatSnoc | src/logic/Grid.ts:16 | Concatenating tokens with one more token appended adds that token at the end. |
| Grid.TokenizeConcat | src/logic/Grid.ts:16 | The tokens concatenate back to the plaintext: no character is lost or added. |
| Grid.MaxLength | src/logic/Grid.ts:18 | At least the length of every token, and equal to the length of one of them. |
| Grid.Classify | src/logic/Grid.ts:48-66 | NONLETTER exactly for characters that are not keys of `encryptor`, showing the character. UNGUESSED exactly when the character's cipher letter has no guess, showing the cipher letter. A GUESSED or CONFLICTED cell shows the guess for the character's cipher letter, and it is CONFLICTED exactly when that guess is the conflicted letter. The cell agrees with `guessedDecryptor`. |
| Grid.ClassifyAll | src/logic/Grid.ts:48 | One cell per character of the word. |
| Grid.ClassifyAllAppend | src/logic/Grid.ts:48-66 | The cells of two strings joined are the cells of each, joined. |
| Grid.ClassifyAllAt | src/logic/Grid.ts:48-66 | Cell `k` is `Classify` of character `k`. |
| Grid.Blanks | src/logic/Grid.ts:30-44 | `n` padding cells, each `' '` NONLETTER. |
| Grid.NonWhitespaceAppend | src/logic/Grid.ts:48 | Dropping whitespace distributes over concatenation. |
| Grid.NonWhitespaceOfToken | src/logic/Grid.ts:28-48 | A word keeps all its characters; a whitespace run keeps none. |
| Grid.NonBlankAppend | src/logic/Grid.ts:31-35 | Dropping padding distributes over concatenation. |
| Grid.NonBlankOfBlanks | src/logic/Grid.ts:30-32 | Padding alone leaves nothing once padding is dropped. |
| Grid.NonBlankOfWord | src/logic/Grid.ts:48-66 | No cell of a word is a padding cell. |
| Grid.LetterCellsAppend | src/logic/Grid.ts:48-66 | Letter cells of joined cell lists add up. |
| Grid.LetterCellsOfNonBlank | src/logic/Grid.ts:30-35 | Padding cells are NONLETTER, so dropping them keeps the letter-cell count. |
| Grid.LetterCellsOfClassifyAll | src/logic/Grid.ts:48-66 | A word gives one non-NONLETTER cell per character that is a key of `encryptor`. |
| Grid.LetterCellCount | src/logic/Grid.ts:48-66 | The non-NONLETTER cells of the grid are as many as the plaintext's word characters that are keys of `encryptor`. |
| Grid.SameRow | src/logic/Grid.ts:41-68 | A word that fits in the free cells of the current row starts and ends in the same row. |
| Grid.TokenPlacedStable | src/logic/Grid.ts:31-66 | Pushing more cells leaves where earlier tokens went unchanged. |
| Grid.PlacedPiece | src/logic/Grid.ts:28-68 | A token's record in one piece: after the previous token come its padding (`free` cells for a word that does not fit, else none) and its own cells (the word's cells, or `free`, one or no blank cells for a whitespace run). |
| Grid.PlacedPrefix | src/logic/Grid.ts:25-69 | Two layouts that record the same tokens agree on every span and on every cell up to the end of each token. |
| Grid.PlacementDetermined | src/logic/Grid.ts:25-69 | At most one cell list records every token as laid out: the records determine the layout. |
| Grid.NewlineExample | src/logic/Grid.ts:25-69 | `"a\nb"` at three columns lays out as `a`, two padding cells, `b`: the newline pads only the rest of its row. |
| Grid.ContentsStep | src/logic/Grid.ts:25-69 | After one more token, the cells without padding are those of the word characters of the tokens so far. |
| Grid.AgreesStep | src/logic/Grid.ts:31-66 | Pushed cells that agree with the guesses keep every cell agreeing. |
| Grid.PlacedStep | src/logic/Grid.ts:25-69 | The record of every earlier token survives one more token. |
| Grid.LaidNext | src/logic/Grid.ts:25-69 | The parts of the loop invariant for `i + 1` tokens give the invariant. |
| Grid.SpacePlaced | src/logic/Grid.ts:28-38 | How a whitespace run was placed: right after the previous token, `free` blank cells with a newline, else one blank cell when `free > 0` and none otherwise. |
| Grid.WordPlaced | src/logic/Grid.ts:41-68 | How a word was placed: `free` padding cells when it does not fit in `free`, none when it does, then its own cells, all in one row. |
| Grid.SpaceRunStep | src/logic/Grid.ts:28-38 | A whitespace run keeps the loop invariant. With a newline, it pads the row to its end and a whole row is free again. Without one, it emits one `' '` cell when `remainingCols > 0`, else nothing. Its record states these counts. |
| Grid.SpaceRow | src/logic/Grid.ts:29-37 | Row arithmetic of a whitespace run: the new `remainingCols` is `FreeAfter` of the run, it stays in `[0, numCols]`, and `cells.length + remainingCols` stays a multiple of `numCols`. |
| Grid.SpaceContents | src/logic/Grid.ts:28-38 | A whitespace run adds only padding. |
| Grid.WordColumns | src/logic/Grid.ts:41-68 | Arithmetic of a word's placement: the padding ends the row, and `remainingCols` stays in `[0, numCols]` with the row alignment kept. |
| Grid.WordRow | src/logic/Grid.ts:41-68 | A word that does not fit forces a padded break first; afterwards `remainingCols` is `FreeAfter` of the word, alignment holds and the word lies in one row. |
| Grid.WordRecord | src/logic/Grid.ts:41-68 | The record of a placed word. |
| Grid.PaddedWordAgrees | src/logic/Grid.ts:42-66 | Padding and a word's cells agree with the guesses. |
| Grid.WordContents | src/logic/Grid.ts:41-68 | A word adds its own cells after any padding. |
| Grid.WordStep | src/logic/Grid.ts:41-68 | A word keeps the loop invariant, with its padding and its own cells recorded. |
| Grid.LaidStart | src/logic/Grid.ts:22-23 | Before the first token: no cells and a whole free row. |
| Grid.LaidAll | src/logic/Grid.ts:25-71 | After every token, the non-padding cells are those of the plaintext's word characters in order, letter cells are counted as above, every cell agrees with the guesses, and every token's placement is recorded. |
| Grid.PadRow | src/logic/Grid.ts:30-44 | The padding loop pushes exactly `count` padding cells. |
| Grid.PlaceWord | src/logic/Grid.ts:48-66 | The `forEach` over a word's characters pushes exactly that word's cells. |
| Grid.PlaceToken | src/logic/Grid.ts:26-68 | One iteration of the token loop keeps the invariant `Laid` from `i` to `i + 1` tokens: the record of token `i` states the padding and cells it pushed, and `remainingCols` becomes `FreeAfter` of the token. |
| Grid.LayTokens | src/logic/Grid.ts:22-69 | The token loop lays out every token with the invariant kept throughout. Every token's record, and so by `PlacementDetermined` the whole cell list, is fixed. |
| Grid.CreateGrid | src/logic/Grid.ts:8-72 | `numCols` is at least every token's length and at least `floor(gridWidth / cellWidth)`, and equals one of them. With `numCols > 0`, `cellWidth = floor(gridWidth / numCols)`. Without padding, the cells are the plaintext's word characters classified in order. Letter cells are counted, and every cell agrees with the guesses. Every token's record holds, which fixes the cells (`PlacementDetermined`). |
| Game.ToUpper | src/components/Game.tsx:133 | Lower-case ASCII letters become upper case. `A`..`Z` stay as they are. The result is in `A`..`Z` exactly for those letters and for dotless `ı` and long `ſ`. |
| Game.ArrowTarget | src/components/Game.tsx:86-89 | The target is in range. Left and Right move one cell, clamped at the ends, and stay only at an end. Up and Down move one row, clamped to the first and last cell. Any other key stays. |
| Game.VerticalKeepsColumn | src/components/Game.tsx:88-89 | When the row above exists, Up keeps the column and moves one row, and Down from there comes back. |
| Game.FirstEligible | src/components/Game.tsx:70-81 | The first index of a range that is unguessed with another letter than the current cell, or the range's end when there is none. |
| Game.ScanStart | src/components/Game.tsx:68 | `min(cells.length - 1, i + 1)`. |
| Game.NextUnguessed | src/components/Game.tsx:66-84 | The cell where the scan of `gotoNext` stops is in range. |
| Game.NextUnguessedScan | src/components/Game.tsx:66-84 | The scan stops at an eligible cell whenever one exists, else at the last cell. It skips no eligible cell on its circular way from the start. |
| Game.FirstEligibleIs | src/components/Game.tsx:70-81 | An index is the first eligible one exactly when nothing before it in the range is eligible. |
| Game.GotoNext | src/components/Game.tsx:66-84 | The `while` loop with its `looped` flag ends, and ends at `NextUnguessed`. |
| Game.AddGuess | src/components/Game.tsx:151-162 | A new guess keeps the two maps exact inverses and maps the typed letter to the cell's cipher letter. |
| Game.AddGuessKeepsOthers | src/components/Game.tsx:151-162 | A new guess leaves every other guess alone and adds one entry to each map. |
| Game.RemoveGuess | src/components/Game.tsx:106-121 | Deleting keeps the maps inverse and leaves no guess keyed by the letter. A letter without a guess changes nothing. |
| Game.RemoveGuessKeepsOthers | src/components/Game.tsx:106-121 | Deleting leaves every other guess alone and drops exactly that guess's cipher letter from `guessedDecryptor`. |
| Game.ReplaceGuess | src/components/Game.tsx:163-175 | A replacement keeps the maps inverse, drops the old letter and maps the typed letter to the old letter's cipher letter. |
| Game.ReplaceGuessKeepsOthers | src/components/Game.tsx:163-175 | A replacement leaves every other guess alone, keeps the set of guessed cipher letters and keeps the number of guesses. |
| Game.RemoveUndoesAdd | src/components/Game.tsx:108-162 | Deleting a guess just made restores the guesses from before it. |
| Game.ReplaceIsRemoveThenAdd | src/components/Game.tsx:108-175 | A replacement is a deletion of the old guess followed by a new guess for the same cipher letter. |
| Game.ShownGuessIsKey | src/components/Game.tsx:166-167 | The letter a guessed cell shows is a key of `guessedEncryptor`, so the replacement always finds its cipher letter. |
| Game.Guess | src/components/Game.tsx:151-176 | A letter typed on a letter cell keeps the maps inverse and becomes a key. On an unguessed cell it maps to the cell's cipher letter. On a guessed cell it takes over the old guess's cipher letter, and the old guess is no longer a key. |
| Game.GameState.constructor | src/components/Game.tsx:16-23 | A new game draws a cipher over `A`..`Z` whose keys are the plaintext's letters. It starts with no guesses, no conflict, focus on cell 0, and the invariant holds. |
| Game.GameState.HasWon | src/components/Game.tsx:26 | `hasWon` holds exactly when `guessedEncryptor` equals `encryptor`. |
| Game.GameState.HasFilledNotWon | src/components/Game.tsx:27-28 | `hasFilledNotWon` holds exactly when the maps differ but have equal key counts, and it implies `!hasWon`. |
| Game.GameState.Render | src/components/Game.tsx:36-43 | The grid of a render is drawn from the current guesses and conflicted letter, so every cell agrees with `guessedDecryptor`. |
| Game.GameState.DeleteGuess | src/components/Game.tsx:97-122 | Backspace on a cell that is neither GUESSED nor CONFLICTED retargets `max(0, i - 1)`. The guess keyed by the target's letter is removed from both maps. The conflicted letter is cleared if it is that letter, and the invariant holds. |
| Game.GameState.SetGuess | src/components/Game.tsx:148-176 | Clears the conflicted letter and records the guess, keeping the invariant. |
| Game.GameState.TypeLetter | src/components/Game.tsx:126-181 | Typing on a NONLETTER cell, or a character outside `A`..`Z` once upper-cased, changes nothing. Retyping the cell's own guess only advances the focus. A letter guessed elsewhere becomes the conflicted letter with both maps unchanged. Any other letter becomes a new or replacement guess, clears the conflict and advances the focus with `gotoNext`. The invariant holds throughout. |
| Game.GameState.HandleKeyDown | src/components/Game.tsx:49-182 | An arrow leading off the cell only moves the focus. Backspace and Delete behave as `DeleteGuess`, and a one-character key as `TypeLetter`. Every other key changes nothing. The maps stay exact inverses after every key press. |

Arithmetic and sequence helpers (`MulMono`, `DivBetween`, `DivNonNeg`, `ModShift`, `ConcatPair`, `PaddedCells`, `SpanAppended`, `AppendAssoc`) state no property of the game and have no row.

## Left out

- Randomness: `Math.random()` is not modelled. Every draw is an integer passed in by the caller (`draw`, `draws`), in the range the source's floor arithmetic can produce. No claim is made about uniformity.
- React and the DOM: `useState` updaters (including the nested updaters of the deletion and replacement branches) are modelled as one atomic change per key press. `focus()` and `preventDefault()` become an assignment to the `focusedCell` field. Refs, `window.scrollTo`, the JSX, CSS classes, the hint toggle and the pixel arithmetic of `actualCellWidth` are not modelled.
- `src/hooks/ContainerWidth.tsx`, `src/components/GameLoader.tsx` and `src/logic/Corpus.ts` are not part of this model: the grid width is a parameter, and the plaintext arrives as a string.
- Grid.CreateGrid: when `numCols` is 0 (an empty plaintext with a grid narrower than one cell), `floor(gridWidth / 0)` is `Infinity` or `NaN` in JavaScript. The model returns `None` for the cell width.
- Game.ToUpper: only the case mappings that land in `A`..`Z` as a single character are modelled. Characters whose upper case is several characters (`ß`, ligatures such as `ﬁ`) are treated as their own upper case. They are then rejected as outside `A`..`Z`, whereas the source would accept some of them as a multi-character "letter".
- Key values: a key whose value is one character outside the Basic Multilingual Plane has `length` 2 in JavaScript. It is modelled as `Printable` rather than as a named key.
- Strings are sequences of Unicode scalar values. Surrogate pairs and UTF-16 code units are not modelled. `createCipher` is modelled for alphabets that stay below the surrogate range, which `A`..`Z` does.
- Game.GameState.HandleKeyDown: the grid `cells` is a parameter, and the method requires that every cell agrees with the current `guessedDecryptor`. `GameState.Render` proves that this holds for the grid of the current render.
