/**
 * Grid builder (src/logic/Grid.ts): lays the plaintext out in rows of `numCols`
 * cells, wrapping only at whitespace, and gives every cell a display state.
 */
module Grid {
  import opened Wrappers

  datatype CellState = NonLetter | Unguessed | Guessed | Conflicted

  datatype Cell = Cell(content: char, state: CellState)

  /** The result of `createGrid`: columns per row, pixel width of a cell, and the cells row by row. */
  datatype Layout = Layout(numCols: nat, cellWidth: Option<nat>, cells: seq<Cell>)

  /** What a cell of a letter is computed from: the cipher, the player's guesses and the flagged letter. */
  datatype Lookup = Lookup(encryptor: map<char, char>, guessedDecryptor: map<char, char>, conflictedChar: Option<char>)

  /** The padding cell, also emitted for a run of spaces inside a row. */
  const Blank := Cell(' ', NonLetter)

  // ---------------------------------------------------------------------------
  // Tokenizing: `plaintext.split(/(\s+)/)`

  /** The characters matched by `\s` in a JavaScript regular expression. */
  predicate IsWhitespace(c: char) {
    || c == '\t' || c == '\n' || c == '\U{000B}' || c == '\U{000C}' || c == '\r' || c == ' '
    || c == '\U{00A0}' || c == '\U{1680}' || ('\U{2000}' <= c <= '\U{200A}')
    || c == '\U{2028}' || c == '\U{2029}' || c == '\U{202F}' || c == '\U{205F}'
    || c == '\U{3000}' || c == '\U{FEFF}'
  }

  /** A run of non-whitespace characters, possibly empty. */
  predicate IsWord(t: string) {
    forall k :: 0 <= k < |t| ==> !IsWhitespace(t[k])
  }

  /** `/^\s+$/`: a non-empty run of whitespace. */
  predicate IsSpaceRun(t: string) {
    |t| > 0 && forall k :: 0 <= k < |t| ==> IsWhitespace(t[k])
  }

  /** Length of the longest prefix of `s` that holds no whitespace. */
  function WordLength(s: string): (n: nat)
    ensures n <= |s| && IsWord(s[..n])
    ensures n < |s| ==> IsWhitespace(s[n])
  {
    if s == [] || IsWhitespace(s[0]) then 0
    else
      var n := 1 + WordLength(s[1..]);
      assert s[..n] == [s[0]] + s[1..][..n - 1];
      n
  }

  /** Length of the longest prefix of `s` that is all whitespace. */
  function SpaceLength(s: string): (n: nat)
    ensures n <= |s| && forall k :: 0 <= k < n ==> IsWhitespace(s[k])
    ensures n < |s| ==> !IsWhitespace(s[n])
  {
    if s == [] || !IsWhitespace(s[0]) then 0 else 1 + SpaceLength(s[1..])
  }

  /**
   * Splitting on `(\s+)` keeps the separators: every token is a word or a
   * whitespace run (see `TokenizeAlternates` for their order).
   */
  function Tokenize(s: string): (tokens: seq<string>)
    ensures tokens != []
    decreases |s|
  {
    var w := WordLength(s);
    if w == |s| then
      assert s[..w] == s;
      [s]
    else
      var rest := s[w..];
      var sp := SpaceLength(rest);
      [s[..w], rest[..sp]] + Tokenize(rest[sp..])
  }

  /**
   * Words and whitespace runs alternate, starting and ending with a word (possibly
   * empty): `w0, s1, w2, ..., w2n`.
   */
  predicate Alternates(tokens: seq<string>)
    decreases |tokens|
  {
    && |tokens| >= 1
    && IsWord(tokens[0])
    && (|tokens| == 1 || (|tokens| >= 3 && IsSpaceRun(tokens[1]) && Alternates(tokens[2..])))
  }

  lemma {:induction false} TokenizeAlternates(s: string)
    ensures Alternates(Tokenize(s))
    decreases |s|
  {
    var w := WordLength(s);
    if w == |s| {
      assert s[..w] == s;
    } else {
      var rest := s[w..];
      var sp := SpaceLength(rest);
      var tail := Tokenize(rest[sp..]);
      TokenizeAlternates(rest[sp..]);
      var tokens := Tokenize(s);
      assert tokens == [s[..w], rest[..sp]] + tail;
      assert tokens[2..] == tail;
      assert IsWhitespace(rest[0]);
    }
  }

  /**
   * The whitespace runs are maximal: every word between two runs is non-empty, so
   * no two runs are adjacent. With `TokenizeAlternates` and `TokenizeConcat` this
   * fixes the tokens.
   */
  lemma {:induction false} TokenizeRunsMaximal(s: string)
    ensures forall k :: 0 < k < |Tokenize(s)| - 1 && k % 2 == 0 ==> Tokenize(s)[k] != []
    decreases |s|
  {
    var w := WordLength(s);
    if w < |s| {
      var rest := s[w..];
      var sp := SpaceLength(rest);
      var next := rest[sp..];
      var tail := Tokenize(next);
      TokenizeRunsMaximal(next);
      assert Tokenize(s) == [s[..w], rest[..sp]] + tail;
      if |tail| > 1 {
        assert next != [] && !IsWhitespace(next[0]);
        assert tail[0] == next[..WordLength(next)] && WordLength(next) > 0;
      }
      forall k | 0 < k < |Tokenize(s)| - 1 && k % 2 == 0 ensures Tokenize(s)[k] != [] {
        assert Tokenize(s)[k] == tail[k - 2];
      }
    }
  }

  /** Every token of an alternating sequence is a word or a whitespace run. */
  lemma {:induction false} AlternatesKinds(tokens: seq<string>)
    requires Alternates(tokens)
    ensures forall k :: 0 <= k < |tokens| ==> IsWord(tokens[k]) || IsSpaceRun(tokens[k])
    decreases |tokens|
  {
    if |tokens| > 1 {
      AlternatesKinds(tokens[2..]);
      assert forall k :: 2 <= k < |tokens| ==> tokens[k] == tokens[2..][k - 2];
    }
  }

  /** Every token of `plaintext` is a word or a whitespace run. */
  lemma TokenKinds(s: string)
    ensures forall k :: 0 <= k < |Tokenize(s)| ==> IsWord(Tokenize(s)[k]) || IsSpaceRun(Tokenize(s)[k])
  {
    TokenizeAlternates(s);
    AlternatesKinds(Tokenize(s));
  }

  function Concat(tokens: seq<string>): string {
    if tokens == [] then [] else tokens[0] + Concat(tokens[1..])
  }

  lemma {:induction false} ConcatSnoc(tokens: seq<string>, t: string)
    ensures Concat(tokens + [t]) == Concat(tokens) + t
  {
    if tokens != [] {
      assert (tokens + [t])[1..] == tokens[1..] + [t];
      ConcatSnoc(tokens[1..], t);
    }
  }

  /** Concatenation of two leading tokens and a tail, regrouped. */
  lemma ConcatPair(a: string, b: string, tail: seq<string>)
    ensures Concat([a, b] + tail) == a + (b + Concat(tail))
  {
    assert ([a, b] + tail)[1..] == [b] + tail;
    assert ([b] + tail)[1..] == tail;
  }

  /** The tokens put back together give the plaintext: no character is lost or added. */
  lemma {:induction false} TokenizeConcat(s: string)
    ensures Concat(Tokenize(s)) == s
    decreases |s|
  {
    var w := WordLength(s);
    if w == |s| {
      assert Tokenize(s) == [s];
      assert Concat([s]) == s + Concat([]);
    } else {
      var rest := s[w..];
      var sp := SpaceLength(rest);
      var tail := Tokenize(rest[sp..]);
      var tokens := Tokenize(s);
      assert tokens == [s[..w], rest[..sp]] + tail;
      TokenizeConcat(rest[sp..]);
      ConcatPair(s[..w], rest[..sp], tail);
      assert rest[..sp] + rest[sp..] == rest;
      assert s[..w] + s[w..] == s;
    }
  }

  /** `Math.max(...tokens.map(w => w.length))`, taken as 0 for no tokens. */
  function MaxLength(tokens: seq<string>): (m: nat)
    ensures forall k :: 0 <= k < |tokens| ==> |tokens[k]| <= m
    ensures tokens != [] ==> exists k :: 0 <= k < |tokens| && |tokens[k]| == m
  {
    if tokens == [] then 0
    else
      var rest := MaxLength(tokens[1..]);
      if |tokens[0]| >= rest then |tokens[0]| else rest
  }

  // ---------------------------------------------------------------------------
  // Cells

  /**
   * The cell of one character of a word: a character that is not a key of the
   * encryptor stays as it is; a letter shows its cipher letter until that cipher
   * letter has a guess, then the guess, flagged when it is the conflicted letter.
   */
  function Classify(ch: char, lookup: Lookup): (cell: Cell)
    ensures cell.state == NonLetter <==> ch !in lookup.encryptor
    ensures cell.state == NonLetter ==> cell.content == ch
    ensures cell.state == Unguessed <==> ch in lookup.encryptor && lookup.encryptor[ch] !in lookup.guessedDecryptor
    ensures cell.state == Unguessed ==> cell.content == lookup.encryptor[ch]
    ensures cell.state == Guessed || cell.state == Conflicted ==>
      && ch in lookup.encryptor && lookup.encryptor[ch] in lookup.guessedDecryptor
      && cell.content == lookup.guessedDecryptor[lookup.encryptor[ch]]
    ensures cell.state == Conflicted <==>
      && ch in lookup.encryptor && lookup.encryptor[ch] in lookup.guessedDecryptor
      && lookup.conflictedChar == Some(lookup.guessedDecryptor[lookup.encryptor[ch]])
    ensures Agrees(cell, lookup.guessedDecryptor)
  {
    if ch !in lookup.encryptor then Cell(ch, NonLetter)
    else
      var cipherChar := lookup.encryptor[ch];
      if cipherChar !in lookup.guessedDecryptor then Cell(cipherChar, Unguessed)
      else
        var guess := lookup.guessedDecryptor[cipherChar];
        if Some(guess) != lookup.conflictedChar then Cell(guess, Guessed) else Cell(guess, Conflicted)
  }

  /**
   * A cell is consistent with the guesses it was drawn from: an unguessed cell
   * shows a cipher letter without a guess, a guessed or conflicted cell shows a
   * guessed plain letter.
   */
  predicate Agrees(cell: Cell, guessedDecryptor: map<char, char>) {
    match cell.state
    case NonLetter => true
    case Unguessed => cell.content !in guessedDecryptor
    case Guessed => cell.content in guessedDecryptor.Values
    case Conflicted => cell.content in guessedDecryptor.Values
  }

  function ClassifyAll(s: string, lookup: Lookup): (cells: seq<Cell>)
    ensures |cells| == |s|
  {
    if s == [] then [] else [Classify(s[0], lookup)] + ClassifyAll(s[1..], lookup)
  }

  lemma {:induction false} ClassifyAllAppend(a: string, b: string, lookup: Lookup)
    ensures ClassifyAll(a + b, lookup) == ClassifyAll(a, lookup) + ClassifyAll(b, lookup)
  {
    if a == [] {
      assert a + b == b;
    } else {
      assert (a + b)[0] == a[0] && (a + b)[1..] == a[1..] + b;
      ClassifyAllAppend(a[1..], b, lookup);
    }
  }

  lemma {:induction false} ClassifyAllAt(s: string, lookup: Lookup, k: nat)
    requires k < |s|
    ensures ClassifyAll(s, lookup)[k] == Classify(s[k], lookup)
  {
    if k > 0 {
      ClassifyAllAt(s[1..], lookup, k - 1);
    }
  }

  /** `n` padding cells. */
  function Blanks(n: nat): (cells: seq<Cell>)
    ensures |cells| == n && forall m :: 0 <= m < n ==> cells[m] == Blank
  {
    seq(n, _ => Blank)
  }

  /** The plaintext without its whitespace: the characters that words are made of. */
  function NonWhitespace(s: string): string {
    if s == [] then []
    else (if IsWhitespace(s[0]) then [] else [s[0]]) + NonWhitespace(s[1..])
  }

  lemma {:induction false} NonWhitespaceAppend(a: string, b: string)
    ensures NonWhitespace(a + b) == NonWhitespace(a) + NonWhitespace(b)
  {
    if a == [] {
      assert a + b == b;
    } else {
      assert (a + b)[0] == a[0] && (a + b)[1..] == a[1..] + b;
      NonWhitespaceAppend(a[1..], b);
    }
  }

  lemma {:induction false} NonWhitespaceOfToken(t: string)
    ensures IsWord(t) ==> NonWhitespace(t) == t
    ensures IsSpaceRun(t) ==> NonWhitespace(t) == []
  {
    if t != [] {
      NonWhitespaceOfToken(t[1..]);
    }
  }

  /** The cells without the padding cells. */
  function NonBlank(cells: seq<Cell>): seq<Cell> {
    if cells == [] then []
    else (if cells[0] == Blank then [] else [cells[0]]) + NonBlank(cells[1..])
  }

  lemma {:induction false} NonBlankAppend(a: seq<Cell>, b: seq<Cell>)
    ensures NonBlank(a + b) == NonBlank(a) + NonBlank(b)
  {
    if a == [] {
      assert a + b == b;
    } else {
      assert (a + b)[0] == a[0] && (a + b)[1..] == a[1..] + b;
      NonBlankAppend(a[1..], b);
    }
  }

  lemma {:induction false} NonBlankOfBlanks(n: nat)
    ensures NonBlank(Blanks(n)) == []
  {
    if n > 0 {
      assert Blanks(n)[1..] == Blanks(n - 1);
      NonBlankOfBlanks(n - 1);
    }
  }

  /** No cell of a word is a padding cell: its characters are not whitespace, and ' ' is. */
  lemma {:induction false} NonBlankOfWord(t: string, lookup: Lookup)
    requires IsWord(t)
    ensures NonBlank(ClassifyAll(t, lookup)) == ClassifyAll(t, lookup)
  {
    if t != [] {
      assert IsWord(t[1..]);
      NonBlankOfWord(t[1..], lookup);
    }
  }

  /** Number of cells that are not NONLETTER. */
  function LetterCells(cells: seq<Cell>): nat {
    if cells == [] then 0
    else (if cells[0].state != NonLetter then 1 else 0) + LetterCells(cells[1..])
  }

  /** Number of characters of `s` that are keys of `encryptor`. */
  function KeyCount(s: string, encryptor: map<char, char>): nat {
    if s == [] then 0
    else (if s[0] in encryptor then 1 else 0) + KeyCount(s[1..], encryptor)
  }

  lemma {:induction false} LetterCellsAppend(a: seq<Cell>, b: seq<Cell>)
    ensures LetterCells(a + b) == LetterCells(a) + LetterCells(b)
  {
    if a == [] {
      assert a + b == b;
    } else {
      assert (a + b)[0] == a[0] && (a + b)[1..] == a[1..] + b;
      LetterCellsAppend(a[1..], b);
    }
  }

  /** Padding cells are NONLETTER, so dropping them keeps the count of letter cells. */
  lemma {:induction false} LetterCellsOfNonBlank(cells: seq<Cell>)
    ensures LetterCells(NonBlank(cells)) == LetterCells(cells)
  {
    if cells != [] {
      var head := if cells[0] == Blank then [] else [cells[0]];
      LetterCellsAppend(head, NonBlank(cells[1..]));
      LetterCellsOfNonBlank(cells[1..]);
    }
  }

  /** Each character of `s` gives one letter cell exactly when it is a key of the encryptor. */
  lemma {:induction false} LetterCellsOfClassifyAll(s: string, lookup: Lookup)
    ensures LetterCells(ClassifyAll(s, lookup)) == KeyCount(s, lookup.encryptor)
  {
    if s != [] {
      LetterCellsOfClassifyAll(s[1..], lookup);
    }
  }

  /**
   * The number of non-NONLETTER cells of a layout whose non-padding cells are the
   * cells of the plaintext's words is the number of word characters that are keys
   * of the encryptor.
   */
  lemma LetterCellCount(cells: seq<Cell>, plaintext: string, lookup: Lookup)
    requires NonBlank(cells) == ClassifyAll(NonWhitespace(plaintext), lookup)
    ensures LetterCells(cells) == KeyCount(NonWhitespace(plaintext), lookup.encryptor)
  {
    LetterCellsOfNonBlank(cells);
    LetterCellsOfClassifyAll(NonWhitespace(plaintext), lookup);
  }

  // ---------------------------------------------------------------------------
  // Rows

  lemma MulMono(a: int, b: int, n: int)
    requires a <= b && n >= 0
    ensures a * n <= b * n
  {
    assert b * n == a * n + (b - a) * n;
  }

  lemma DivBetween(x: int, n: int, d: int)
    requires n > 0 && d * n <= x < d * n + n
    ensures x / n == d
  {
    var q, r := x / n, x % n;
    assert x == q * n + r && 0 <= r < n;
    if q < d {
      MulMono(q + 1, d, n);
    }
    if q > d {
      MulMono(d + 1, q, n);
    }
  }

  /** Stated once, so that `CreateGrid` need not derive it among its other obligations. */
  lemma DivNonNeg(x: nat, n: nat)
    requires n > 0
    ensures x / n >= 0
  {
  }

  lemma ModShift(x: nat, n: nat)
    requires n > 0
    ensures (x + n) % n == x % n
  {
    DivBetween(x + n, n, x / n + 1);
  }

  /**
   * A word of `len` cells placed at `p`, when `p + remaining` is the end of a row and
   * the word fits in `remaining`, lies within one row.
   */
  lemma SameRow(p: nat, remaining: nat, len: nat, n: nat)
    requires n > 0 && (p + remaining) % n == 0 && remaining <= n && 0 < len <= remaining
    ensures p / n == (p + len - 1) / n
  {
    var q := (p + remaining) / n;
    assert p + remaining == q * n;
    DivBetween(p, n, q - 1);
    DivBetween(p + len - 1, n, q - 1);
  }

  /**
   * Where token `k` went: its own cells are `cells[lo..hi]`, padding before a word
   * sits between the previous token's `hi` and `lo`, and `free` is `remainingCols`
   * when the loop reaches the token.
   */
  datatype Span = Span(lo: nat, hi: nat, free: nat)

  /** `remainingCols` after token `t` is laid out with `free` cells left in the row. */
  function FreeAfter(t: string, free: nat, numCols: nat): int {
    if IsSpaceRun(t) then
      if '\n' in t then numCols else if free > 0 then free - 1 else 0
    else
      (if free < |t| then numCols else free) - |t|
  }

  /**
   * How token `k` was laid out, given the free cells `free` of the row when it is
   * reached (a whole row for the first token, and what the previous token left
   * otherwise). A word that does not fit in `free` cells is preceded by exactly
   * `free` padding cells, which end the row, and a word that fits by none; its
   * cells are its characters' cells, all in one row. A whitespace run with a
   * newline is exactly `free` blank cells, which end the row; one without a
   * newline is one blank cell when `free > 0`, and none otherwise.
   */
  ghost predicate TokenPlaced(cells: seq<Cell>, tokens: seq<string>, spans: seq<Span>, k: nat, numCols: nat, lookup: Lookup)
    requires k < |tokens| && k < |spans|
  {
    var t := tokens[k];
    var lo, hi := spans[k].lo, spans[k].hi;
    var prevHi := if k == 0 then 0 else spans[k - 1].hi;
    var free := spans[k].free;
    && free == (if k == 0 then numCols else FreeAfter(tokens[k - 1], spans[k - 1].free, numCols))
    && prevHi <= lo <= hi <= |cells|
    && lo - prevHi == (if !IsSpaceRun(t) && free < |t| then free else 0)
    && (forall m :: prevHi <= m < lo ==> cells[m] == Blank)
    && (prevHi < lo ==> numCols > 0 && lo % numCols == 0)
    && (IsSpaceRun(t) ==> numCols > 0 && forall m :: lo <= m < hi ==> cells[m] == Blank)
    && (IsSpaceRun(t) && '\n' in t ==> hi - lo == free && hi % numCols == 0)
    && (IsSpaceRun(t) && '\n' !in t ==> hi - lo == (if free > 0 then 1 else 0) && (hi == lo ==> lo % numCols == 0))
    && (!IsSpaceRun(t) ==>
          && hi == lo + |t|
          && cells[lo..hi] == ClassifyAll(t, lookup)
          && (|t| > 0 ==> numCols > 0 && lo / numCols == (hi - 1) / numCols))
  }

  /** Appending cells and spans leaves the record of an earlier token true. */
  lemma TokenPlacedStable(cells: seq<Cell>, more: seq<Cell>, tokens: seq<string>, spans: seq<Span>, extra: seq<Span>,
                          k: nat, numCols: nat, lookup: Lookup)
    requires k < |tokens| && k < |spans| && TokenPlaced(cells, tokens, spans, k, numCols, lookup)
    ensures TokenPlaced(cells + more, tokens, spans + extra, k, numCols, lookup)
  {
    var all := cells + more;
    assert all[spans[k].lo..spans[k].hi] == cells[spans[k].lo..spans[k].hi];
    assert (spans + extra)[k] == spans[k];
    if k > 0 {
      assert (spans + extra)[k - 1] == spans[k - 1];
    }
  }

  /**
   * The state of `createGrid`'s loop after the first `i` tokens: the free cells of
   * the current row, the cells, and where each token went.
   */
  ghost predicate Laid(tokens: seq<string>, i: nat, cells: seq<Cell>, spans: seq<Span>,
                       remainingCols: nat, numCols: nat, lookup: Lookup)
    requires i <= |tokens|
  {
    && remainingCols <= numCols
    && (numCols > 0 ==> (|cells| + remainingCols) % numCols == 0)
    && (numCols == 0 ==> cells == [])
    && NonBlank(cells) == ClassifyAll(NonWhitespace(Concat(tokens[..i])), lookup)
    && (forall m :: 0 <= m < |cells| ==> Agrees(cells[m], lookup.guessedDecryptor))
    && |spans| == i
    && (if i == 0 then cells == [] else spans[i - 1].hi == |cells|)
    && remainingCols == (if i == 0 then numCols else FreeAfter(tokens[i - 1], spans[i - 1].free, numCols))
    && (forall k :: 0 <= k < i ==> TokenPlaced(cells, tokens, spans, k, numCols, lookup))
  }

  /** The cells without their padding, once token `i` has added `added`. */
  lemma ContentsStep(tokens: seq<string>, i: nat, cells: seq<Cell>, added: seq<Cell>, cells': seq<Cell>, lookup: Lookup)
    requires i < |tokens| && cells' == cells + added
    requires NonBlank(cells) == ClassifyAll(NonWhitespace(Concat(tokens[..i])), lookup)
    requires NonBlank(added) == ClassifyAll(NonWhitespace(tokens[i]), lookup)
    ensures NonBlank(cells') == ClassifyAll(NonWhitespace(Concat(tokens[..i + 1])), lookup)
  {
    NonBlankAppend(cells, added);
    assert tokens[..i + 1] == tokens[..i] + [tokens[i]];
    ConcatSnoc(tokens[..i], tokens[i]);
    NonWhitespaceAppend(Concat(tokens[..i]), tokens[i]);
    ClassifyAllAppend(NonWhitespace(Concat(tokens[..i])), NonWhitespace(tokens[i]), lookup);
  }

  lemma AgreesStep(cells: seq<Cell>, added: seq<Cell>, cells': seq<Cell>, guessedDecryptor: map<char, char>)
    requires cells' == cells + added
    requires forall m :: 0 <= m < |cells| ==> Agrees(cells[m], guessedDecryptor)
    requires forall m :: 0 <= m < |added| ==> Agrees(added[m], guessedDecryptor)
    ensures forall m :: 0 <= m < |cells'| ==> Agrees(cells'[m], guessedDecryptor)
  {
    forall m | 0 <= m < |cells'| ensures Agrees(cells'[m], guessedDecryptor) {
      if m >= |cells| {
        assert cells'[m] == added[m - |cells|];
      }
    }
  }

  /**
   * The records of the tokens `0..j` fix their spans and every cell up to the end
   * of token `j`: each record fixes its padding and its own cells from the free
   * count and the end of the previous token.
   */
  lemma {:induction false} PlacedPrefix(tokens: seq<string>, numCols: nat, lookup: Lookup,
                                        cells1: seq<Cell>, spans1: seq<Span>, cells2: seq<Cell>, spans2: seq<Span>, j: nat)
    requires j < |tokens| && j < |spans1| && j < |spans2|
    requires forall k :: 0 <= k <= j ==> TokenPlaced(cells1, tokens, spans1, k, numCols, lookup)
    requires forall k :: 0 <= k <= j ==> TokenPlaced(cells2, tokens, spans2, k, numCols, lookup)
    ensures spans1[j] == spans2[j]
    ensures spans1[j].hi <= |cells1| && spans2[j].hi <= |cells2|
    ensures cells1[..spans1[j].hi] == cells2[..spans2[j].hi]
    decreases j
  {
    if j > 0 {
      PlacedPrefix(tokens, numCols, lookup, cells1, spans1, cells2, spans2, j - 1);
    }
    assert TokenPlaced(cells1, tokens, spans1, j, numCols, lookup);
    assert TokenPlaced(cells2, tokens, spans2, j, numCols, lookup);
    PlacedPiece(cells1, tokens, spans1, j, numCols, lookup);
    PlacedPiece(cells2, tokens, spans2, j, numCols, lookup);
    assert spans1[j].free == spans2[j].free;
    assert spans1[j].lo == spans2[j].lo;
  }

  /** A record in one piece: token `k` adds its padding and then its own cells after the previous token. */
  lemma PlacedPiece(cells: seq<Cell>, tokens: seq<string>, spans: seq<Span>, k: nat, numCols: nat, lookup: Lookup)
    requires k < |tokens| && k < |spans| && TokenPlaced(cells, tokens, spans, k, numCols, lookup)
    ensures var t, prevHi, lo, hi, free := tokens[k], (if k == 0 then 0 else spans[k - 1].hi), spans[k].lo, spans[k].hi, spans[k].free;
      && prevHi <= lo <= hi <= |cells|
      && lo - prevHi == (if !IsSpaceRun(t) && free < |t| then free else 0)
      && hi - lo == (if !IsSpaceRun(t) then |t| else if '\n' in t then free else if free > 0 then 1 else 0)
      && cells[..hi] == cells[..prevHi] + Blanks(lo - prevHi) + (if IsSpaceRun(t) then Blanks(hi - lo) else ClassifyAll(t, lookup))
  {
    var t, prevHi, lo, hi := tokens[k], (if k == 0 then 0 else spans[k - 1].hi), spans[k].lo, spans[k].hi;
    assert cells[prevHi..lo] == Blanks(lo - prevHi);
    if IsSpaceRun(t) {
      assert cells[lo..hi] == Blanks(hi - lo);
    }
    assert cells[..hi] == cells[..prevHi] + cells[prevHi..lo] + cells[lo..hi];
  }

  /**
   * The records determine the layout: two cell lists in which every token is
   * recorded as laid out, the last one ending at the last cell, are the same list
   * with the same records.
   */
  lemma PlacementDetermined(tokens: seq<string>, numCols: nat, lookup: Lookup,
                            cells1: seq<Cell>, spans1: seq<Span>, cells2: seq<Cell>, spans2: seq<Span>)
    requires |tokens| > 0 && |spans1| == |tokens| && |spans2| == |tokens|
    requires spans1[|tokens| - 1].hi == |cells1| && spans2[|tokens| - 1].hi == |cells2|
    requires forall k :: 0 <= k < |tokens| ==> TokenPlaced(cells1, tokens, spans1, k, numCols, lookup)
    requires forall k :: 0 <= k < |tokens| ==> TokenPlaced(cells2, tokens, spans2, k, numCols, lookup)
    ensures spans1 == spans2 && cells1 == cells2
  {
    forall j | 0 <= j < |tokens| ensures spans1[j] == spans2[j] {
      PlacedPrefix(tokens, numCols, lookup, cells1, spans1, cells2, spans2, j);
    }
    PlacedPrefix(tokens, numCols, lookup, cells1, spans1, cells2, spans2, |tokens| - 1);
    assert cells1 == cells1[..|cells1|] && cells2 == cells2[..|cells2|];
  }

  /**
   * `"a\nb"` at three columns, with no letters: the newline pads the rest of the
   * first row, two cells, and `b` starts the second row.
   */
  lemma NewlineExample(cells: seq<Cell>, spans: seq<Span>)
    requires |spans| == |Tokenize("a\nb")| && spans[|spans| - 1].hi == |cells|
    requires forall k :: 0 <= k < |spans| ==> TokenPlaced(cells, Tokenize("a\nb"), spans, k, 3, Lookup(map[], map[], None))
    ensures cells == [Cell('a', NonLetter), Blank, Blank, Cell('b', NonLetter)]
  {
    var s := "a\nb";
    assert WordLength(s) == 1 by {
      assert WordLength(s[1..]) == 0;
    }
    assert SpaceLength(s[1..]) == 1 by {
      assert SpaceLength(s[2..]) == 0;
    }
    assert WordLength(s[2..]) == 1 by {
      assert WordLength(s[3..]) == 0;
    }
    var tokens := ["a", "\n", "b"];
    assert s[..1] == "a" && s[1..][..1] == "\n" && s[1..][1..] == "b";
    assert Tokenize("b") == ["b"];
    assert Tokenize(s) == tokens;
    var lookup := Lookup(map[], map[], None);
    var expected := [Cell('a', NonLetter), Blank, Blank, Cell('b', NonLetter)];
    var expectedSpans := [Span(0, 1, 3), Span(1, 3, 2), Span(3, 4, 3)];
    assert ClassifyAll("a", lookup) == [Cell('a', NonLetter)];
    assert ClassifyAll("b", lookup) == [Cell('b', NonLetter)];
    assert IsSpaceRun("\n") && !IsSpaceRun("a") && !IsSpaceRun("b");
    forall k | 0 <= k < 3 ensures TokenPlaced(expected, tokens, expectedSpans, k, 3, lookup) {
    }
    PlacementDetermined(tokens, 3, lookup, cells, spans, expected, expectedSpans);
  }

  /** The records of the tokens before `i` survive appending cells and spans. */
  lemma PlacedStep(cells: seq<Cell>, cells': seq<Cell>, tokens: seq<string>, spans: seq<Span>, spans': seq<Span>,
                   i: nat, numCols: nat, lookup: Lookup)
    requires i <= |tokens| && |spans| == i <= |spans'| && spans'[..i] == spans
    requires |cells| <= |cells'| && cells'[..|cells|] == cells
    requires forall k :: 0 <= k < i ==> TokenPlaced(cells, tokens, spans, k, numCols, lookup)
    ensures forall k :: 0 <= k < i ==> TokenPlaced(cells', tokens, spans', k, numCols, lookup)
  {
    assert cells' == cells + cells'[|cells|..];
    assert spans' == spans + spans'[i..];
    forall k | 0 <= k < i ensures TokenPlaced(cells', tokens, spans', k, numCols, lookup) {
      TokenPlacedStable(cells, cells'[|cells|..], tokens, spans, spans'[i..], k, numCols, lookup);
    }
  }

  /** `Laid` after token `i`, from the record of token `i` and the rest. */
  lemma LaidNext(tokens: seq<string>, i: nat, cells: seq<Cell>, spans: seq<Span>,
                 remainingCols: nat, numCols: nat, lookup: Lookup)
    requires i < |tokens| && |spans| == i + 1 && spans[i].hi == |cells|
    requires remainingCols <= numCols && remainingCols == FreeAfter(tokens[i], spans[i].free, numCols)
    requires numCols > 0 ==> (|cells| + remainingCols) % numCols == 0
    requires numCols == 0 ==> cells == []
    requires NonBlank(cells) == ClassifyAll(NonWhitespace(Concat(tokens[..i + 1])), lookup)
    requires forall m :: 0 <= m < |cells| ==> Agrees(cells[m], lookup.guessedDecryptor)
    requires forall k :: 0 <= k < i ==> TokenPlaced(cells, tokens, spans, k, numCols, lookup)
    requires TokenPlaced(cells, tokens, spans, i, numCols, lookup)
    ensures Laid(tokens, i + 1, cells, spans, remainingCols, numCols, lookup)
  {
  }

  /** The record of a whitespace token, from its parts. */
  lemma SpacePlaced(cells: seq<Cell>, tokens: seq<string>, spans: seq<Span>, k: nat, numCols: nat, lookup: Lookup)
    requires k < |tokens| && k < |spans| && IsSpaceRun(tokens[k]) && numCols > 0
    requires var lo, hi, free := spans[k].lo, spans[k].hi, spans[k].free;
      && free == (if k == 0 then numCols else FreeAfter(tokens[k - 1], spans[k - 1].free, numCols))
      && lo == (if k == 0 then 0 else spans[k - 1].hi) && lo <= hi <= |cells|
      && (forall m :: lo <= m < hi ==> cells[m] == Blank)
      && ('\n' in tokens[k] ==> hi - lo == free && hi % numCols == 0)
      && ('\n' !in tokens[k] ==> hi - lo == (if free > 0 then 1 else 0) && (hi == lo ==> lo % numCols == 0))
    ensures TokenPlaced(cells, tokens, spans, k, numCols, lookup)
  {
  }

  /** The record of a word token at `lo`, after the token that ends at `prevHi`, from its parts. */
  lemma WordPlaced(cells: seq<Cell>, tokens: seq<string>, spans: seq<Span>, k: nat, numCols: nat, lookup: Lookup,
                   prevHi: nat, lo: nat, free: nat)
    requires k < |tokens| && k < |spans| && !IsSpaceRun(tokens[k])
    requires prevHi == (if k == 0 then 0 else spans[k - 1].hi) && spans[k] == Span(lo, lo + |tokens[k]|, free)
    requires free == (if k == 0 then numCols else FreeAfter(tokens[k - 1], spans[k - 1].free, numCols))
    requires lo - prevHi == (if free < |tokens[k]| then free else 0)
    requires prevHi <= lo && lo + |tokens[k]| <= |cells|
    requires forall m :: prevHi <= m < lo ==> cells[m] == Blank
    requires prevHi < lo ==> numCols > 0 && lo % numCols == 0
    requires cells[lo..lo + |tokens[k]|] == ClassifyAll(tokens[k], lookup)
    requires |tokens[k]| > 0 ==> numCols > 0 && lo / numCols == (lo + |tokens[k]| - 1) / numCols
    ensures TokenPlaced(cells, tokens, spans, k, numCols, lookup)
  {
  }

  /**
   * A whitespace run: with a newline, pad the row and start a new one; without,
   * one blank cell if the row has room, otherwise nothing.
   */
  lemma SpaceRunStep(tokens: seq<string>, i: nat, cells: seq<Cell>, spans: seq<Span>, remainingCols: nat,
                     numCols: nat, lookup: Lookup, cells': seq<Cell>, spans': seq<Span>, remainingCols': nat)
    requires i < |tokens| && IsSpaceRun(tokens[i]) && |tokens[i]| <= numCols
    requires Laid(tokens, i, cells, spans, remainingCols, numCols, lookup)
    requires cells' == cells + (if '\n' in tokens[i] then Blanks(remainingCols)
                                else if remainingCols > 0 then [Blank] else [])
    requires remainingCols' == (if '\n' in tokens[i] then numCols else if remainingCols > 0 then remainingCols - 1 else 0)
    requires spans' == spans + [Span(|cells|, |cells'|, remainingCols)]
    ensures Laid(tokens, i + 1, cells', spans', remainingCols', numCols, lookup)
  {
    SpaceRow(cells, tokens, spans, i, remainingCols, numCols, lookup, cells', spans', remainingCols');
    SpaceContents(tokens, i, cells, |cells'| - |cells|, cells', lookup);
    PlacedStep(cells, cells', tokens, spans, spans', i, numCols, lookup);
    LaidNext(tokens, i, cells', spans', remainingCols', numCols, lookup);
  }

  /** Where a whitespace run goes: the row arithmetic of `createGrid` and the record of the run. */
  lemma SpaceRow(cells: seq<Cell>, tokens: seq<string>, spans: seq<Span>, i: nat, remainingCols: nat, numCols: nat,
                 lookup: Lookup, cells': seq<Cell>, spans': seq<Span>, remainingCols': nat)
    requires i < |tokens| && IsSpaceRun(tokens[i]) && |tokens[i]| <= numCols
    requires |spans| == i && (if i == 0 then cells == [] else spans[i - 1].hi == |cells|)
    requires remainingCols == (if i == 0 then numCols else FreeAfter(tokens[i - 1], spans[i - 1].free, numCols))
    requires remainingCols <= numCols && (numCols > 0 ==> (|cells| + remainingCols) % numCols == 0)
    requires cells' == cells + (if '\n' in tokens[i] then Blanks(remainingCols)
                                else if remainingCols > 0 then [Blank] else [])
    requires remainingCols' == (if '\n' in tokens[i] then numCols else if remainingCols > 0 then remainingCols - 1 else 0)
    requires spans' == spans + [Span(|cells|, |cells'|, remainingCols)]
    ensures remainingCols' == FreeAfter(tokens[i], remainingCols, numCols)
    ensures remainingCols' <= numCols && (numCols > 0 ==> (|cells'| + remainingCols') % numCols == 0)
    ensures numCols == 0 ==> cells' == []
    ensures |spans'| == i + 1 && spans'[i].hi == |cells'| && spans'[..i] == spans
    ensures |cells| <= |cells'| && cells'[..|cells|] == cells
    ensures cells' == cells + Blanks(|cells'| - |cells|)
    ensures TokenPlaced(cells', tokens, spans', i, numCols, lookup)
  {
    var t := tokens[i];
    var added := if '\n' in t then Blanks(remainingCols) else if remainingCols > 0 then [Blank] else [];
    assert added == Blanks(|added|);
    if '\n' in t {
      ModShift(|cells'|, numCols);
    }
    PaddedCells(cells, |added|, [], cells');
    SpanAppended(spans, Span(|cells|, |cells'|, remainingCols), spans');
    SpacePlaced(cells', tokens, spans', i, numCols, lookup);
  }

  /** Padding cells after a whitespace run keep the contents and agreement invariants. */
  lemma SpaceContents(tokens: seq<string>, i: nat, cells: seq<Cell>, n: nat, cells': seq<Cell>, lookup: Lookup)
    requires i < |tokens| && IsSpaceRun(tokens[i])
    requires cells' == cells + Blanks(n)
    requires NonBlank(cells) == ClassifyAll(NonWhitespace(Concat(tokens[..i])), lookup)
    requires forall m :: 0 <= m < |cells| ==> Agrees(cells[m], lookup.guessedDecryptor)
    ensures NonBlank(cells') == ClassifyAll(NonWhitespace(Concat(tokens[..i + 1])), lookup)
    ensures forall m :: 0 <= m < |cells'| ==> Agrees(cells'[m], lookup.guessedDecryptor)
  {
    NonWhitespaceOfToken(tokens[i]);
    NonBlankOfBlanks(n);
    ContentsStep(tokens, i, cells, Blanks(n), cells', lookup);
    AgreesStep(cells, Blanks(n), cells', lookup.guessedDecryptor);
  }

  /**
   * The row arithmetic of a word of `len` characters placed after `count` cells with
   * `remainingCols` free in the row: the padding starts a new row, the word stays in
   * one row, and the free count stays in step with the cell count.
   */
  lemma WordColumns(count: nat, remainingCols: nat, numCols: nat, len: nat, padding: nat, remainingCols': nat)
    requires len <= numCols && remainingCols <= numCols
    requires numCols > 0 ==> (count + remainingCols) % numCols == 0
    requires padding == (if remainingCols < len then remainingCols else 0)
    requires remainingCols' + len == (if remainingCols < len then numCols else remainingCols)
    ensures remainingCols' <= numCols
    ensures numCols > 0 ==> (count + padding + len + remainingCols') % numCols == 0
    ensures padding > 0 ==> numCols > 0 && (count + padding) % numCols == 0
    ensures len > 0 ==> numCols > 0 && (count + padding) / numCols == (count + padding + len - 1) / numCols
  {
    var lo, free := count + padding, remainingCols' + len;
    if remainingCols < len {
      ModShift(lo, numCols);
    }
    if len > 0 {
      SameRow(lo, free, len, numCols);
    }
  }

  /** Where a word goes: the row arithmetic of `createGrid` and the record of the word. */
  lemma WordRow(cells: seq<Cell>, tokens: seq<string>, spans: seq<Span>, i: nat, remainingCols: nat, numCols: nat,
                lookup: Lookup, padding: nat, cells': seq<Cell>, spans': seq<Span>, remainingCols': nat)
    requires i < |tokens| && !IsSpaceRun(tokens[i]) && |tokens[i]| <= numCols
    requires |spans| == i && (if i == 0 then cells == [] else spans[i - 1].hi == |cells|)
    requires remainingCols == (if i == 0 then numCols else FreeAfter(tokens[i - 1], spans[i - 1].free, numCols))
    requires remainingCols <= numCols && (numCols > 0 ==> (|cells| + remainingCols) % numCols == 0)
    requires numCols == 0 ==> cells == []
    requires padding == (if remainingCols < |tokens[i]| then remainingCols else 0)
    requires cells' == cells + Blanks(padding) + ClassifyAll(tokens[i], lookup)
    requires spans' == spans + [Span(|cells| + padding, |cells'|, remainingCols)]
    requires remainingCols' + |tokens[i]| == (if remainingCols < |tokens[i]| then numCols else remainingCols)
    ensures remainingCols' == FreeAfter(tokens[i], remainingCols, numCols)
    ensures remainingCols' <= numCols && (numCols > 0 ==> (|cells'| + remainingCols') % numCols == 0)
    ensures numCols == 0 ==> cells' == []
    ensures |spans'| == i + 1 && spans'[i].hi == |cells'| && spans'[..i] == spans
    ensures |cells| <= |cells'| && cells'[..|cells|] == cells
    ensures TokenPlaced(cells', tokens, spans', i, numCols, lookup)
  {
    WordColumns(|cells|, remainingCols, numCols, |tokens[i]|, padding, remainingCols');
    WordRecord(cells, tokens, spans, i, remainingCols, numCols, lookup, padding, cells', spans');
    PaddedCells(cells, padding, ClassifyAll(tokens[i], lookup), cells');
    SpanAppended(spans, Span(|cells| + padding, |cells'|, remainingCols), spans');
  }

  /** The record of a word placed after `padding` blank cells. */
  lemma WordRecord(cells: seq<Cell>, tokens: seq<string>, spans: seq<Span>, i: nat, remainingCols: nat, numCols: nat,
                   lookup: Lookup, padding: nat, cells': seq<Cell>, spans': seq<Span>)
    requires i < |tokens| && !IsSpaceRun(tokens[i])
    requires |spans| == i && (if i == 0 then cells == [] else spans[i - 1].hi == |cells|)
    requires remainingCols == (if i == 0 then numCols else FreeAfter(tokens[i - 1], spans[i - 1].free, numCols))
    requires padding == (if remainingCols < |tokens[i]| then remainingCols else 0)
    requires cells' == cells + Blanks(padding) + ClassifyAll(tokens[i], lookup)
    requires spans' == spans + [Span(|cells| + padding, |cells'|, remainingCols)]
    requires padding > 0 ==> numCols > 0 && (|cells| + padding) % numCols == 0
    requires |tokens[i]| > 0 ==>
      numCols > 0 && (|cells| + padding) / numCols == (|cells| + padding + |tokens[i]| - 1) / numCols
    ensures TokenPlaced(cells', tokens, spans', i, numCols, lookup)
  {
    var lo := |cells| + padding;
    PaddedCells(cells, padding, ClassifyAll(tokens[i], lookup), cells');
    SpanAppended(spans, Span(lo, |cells'|, remainingCols), spans');
    WordPlaced(cells', tokens, spans', i, numCols, lookup, |cells|, lo, remainingCols);
  }

  /** The cells after appending `padding` blanks and then `more`. */
  lemma PaddedCells(cells: seq<Cell>, padding: nat, more: seq<Cell>, cells': seq<Cell>)
    requires cells' == cells + Blanks(padding) + more
    ensures |cells'| == |cells| + padding + |more| && cells'[..|cells|] == cells
    ensures forall m :: |cells| <= m < |cells| + padding ==> cells'[m] == Blank
    ensures cells'[|cells| + padding..|cells'|] == more
  {
    forall m | |cells| <= m < |cells| + padding ensures cells'[m] == Blank {
      assert cells'[m] == Blanks(padding)[m - |cells|];
    }
    assert cells'[..|cells|] == cells;
  }

  /** The spans after appending one. */
  lemma SpanAppended(spans: seq<Span>, span: Span, spans': seq<Span>)
    requires spans' == spans + [span]
    ensures |spans'| == |spans| + 1 && spans'[|spans|] == span && spans'[..|spans|] == spans
    ensures |spans| > 0 ==> spans'[|spans| - 1] == spans[|spans| - 1]
  {
    assert spans'[..|spans|] == spans;
  }

  lemma AppendAssoc<T>(a: seq<T>, b: seq<T>, c: seq<T>)
    ensures a + b + c == a + (b + c)
  {
  }

  /** Padding cells, and the cells `Classify` gives, agree with the guesses. */
  lemma PaddedWordAgrees(padding: nat, t: string, lookup: Lookup)
    ensures var added := Blanks(padding) + ClassifyAll(t, lookup);
      forall m :: 0 <= m < |added| ==> Agrees(added[m], lookup.guessedDecryptor)
  {
    var word := ClassifyAll(t, lookup);
    var added := Blanks(padding) + word;
    forall m | 0 <= m < |added| ensures Agrees(added[m], lookup.guessedDecryptor) {
      if m >= padding {
        assert added[m] == word[m - padding];
        ClassifyAllAt(t, lookup, m - padding);
      }
    }
  }

  /** The cells of a word, after any padding, keep the contents and agreement invariants. */
  lemma WordContents(tokens: seq<string>, i: nat, cells: seq<Cell>, padding: nat, cells': seq<Cell>, lookup: Lookup)
    requires i < |tokens| && IsWord(tokens[i])
    requires cells' == cells + Blanks(padding) + ClassifyAll(tokens[i], lookup)
    requires NonBlank(cells) == ClassifyAll(NonWhitespace(Concat(tokens[..i])), lookup)
    requires forall m :: 0 <= m < |cells| ==> Agrees(cells[m], lookup.guessedDecryptor)
    ensures NonBlank(cells') == ClassifyAll(NonWhitespace(Concat(tokens[..i + 1])), lookup)
    ensures forall m :: 0 <= m < |cells'| ==> Agrees(cells'[m], lookup.guessedDecryptor)
  {
    var t := tokens[i];
    var word := ClassifyAll(t, lookup);
    var added := Blanks(padding) + word;
    AppendAssoc(cells, Blanks(padding), word);
    assert NonBlank(added) == ClassifyAll(NonWhitespace(t), lookup) by {
      NonWhitespaceOfToken(t);
      NonBlankOfWord(t, lookup);
      NonBlankOfBlanks(padding);
      NonBlankAppend(Blanks(padding), word);
    }
    ContentsStep(tokens, i, cells, added, cells', lookup);
    PaddedWordAgrees(padding, t, lookup);
    AgreesStep(cells, added, cells', lookup.guessedDecryptor);
  }

  /** A word: if it does not fit in the row, pad the row first; then one cell per character. */
  lemma WordStep(tokens: seq<string>, i: nat, cells: seq<Cell>, spans: seq<Span>, remainingCols: nat,
                 numCols: nat, lookup: Lookup, padding: nat, cells': seq<Cell>, spans': seq<Span>, remainingCols': nat)
    requires i < |tokens| && IsWord(tokens[i]) && !IsSpaceRun(tokens[i]) && |tokens[i]| <= numCols
    requires Laid(tokens, i, cells, spans, remainingCols, numCols, lookup)
    requires padding == (if remainingCols < |tokens[i]| then remainingCols else 0)
    requires cells' == cells + Blanks(padding) + ClassifyAll(tokens[i], lookup)
    requires spans' == spans + [Span(|cells| + padding, |cells'|, remainingCols)]
    requires remainingCols' + |tokens[i]| == (if remainingCols < |tokens[i]| then numCols else remainingCols)
    ensures Laid(tokens, i + 1, cells', spans', remainingCols', numCols, lookup)
  {
    WordRow(cells, tokens, spans, i, remainingCols, numCols, lookup, padding, cells', spans', remainingCols');
    WordContents(tokens, i, cells, padding, cells', lookup);
    PlacedStep(cells, cells', tokens, spans, spans', i, numCols, lookup);
    LaidNext(tokens, i, cells', spans', remainingCols', numCols, lookup);
  }

  /** Before the first token: no cells, and a whole free row. */
  lemma LaidStart(tokens: seq<string>, numCols: nat, lookup: Lookup)
    ensures Laid(tokens, 0, [], [], numCols, numCols, lookup)
  {
    if numCols > 0 {
      ModShift(0, numCols);
    }
    assert tokens[..0] == [];
  }

  /** What `Laid` says once every token of `plaintext` is placed. */
  lemma LaidAll(plaintext: string, cells: seq<Cell>, spans: seq<Span>, remainingCols: nat, numCols: nat, lookup: Lookup)
    requires Laid(Tokenize(plaintext), |Tokenize(plaintext)|, cells, spans, remainingCols, numCols, lookup)
    ensures NonBlank(cells) == ClassifyAll(NonWhitespace(plaintext), lookup)
    ensures LetterCells(cells) == KeyCount(NonWhitespace(plaintext), lookup.encryptor)
    ensures forall m :: 0 <= m < |cells| ==> Agrees(cells[m], lookup.guessedDecryptor)
    ensures |spans| == |Tokenize(plaintext)| && spans[|spans| - 1].hi == |cells|
    ensures forall k :: 0 <= k < |spans| ==> TokenPlaced(cells, Tokenize(plaintext), spans, k, numCols, lookup)
  {
    var tokens := Tokenize(plaintext);
    assert tokens[..|tokens|] == tokens;
    TokenizeConcat(plaintext);
    LetterCellCount(cells, plaintext, lookup);
  }

  /** The inner padding loop: push `count` blank cells. */
  method PadRow(cells: seq<Cell>, count: nat) returns (padded: seq<Cell>)
    ensures padded == cells + Blanks(count)
  {
    padded := cells;
    for c := 0 to count
      invariant padded == cells + Blanks(c)
    {
      padded := padded + [Blank];
    }
  }

  /** `plainWord.split('').forEach(...)`: push the cell of every character of `word`. */
  method PlaceWord(cells: seq<Cell>, word: string, lookup: Lookup) returns (placed: seq<Cell>)
    ensures placed == cells + ClassifyAll(word, lookup)
  {
    placed := cells;
    for k := 0 to |word|
      invariant placed == cells + ClassifyAll(word[..k], lookup)
    {
      ClassifyAllAppend(word[..k], [word[k]], lookup);
      assert word[..k + 1] == word[..k] + [word[k]];
      placed := placed + [Classify(word[k], lookup)];
    }
    assert word[..|word|] == word;
  }

  /**
   * One iteration of the loop of `createGrid` over the tokens: lays out token `i`,
   * which is a word or a whitespace run no longer than a row, after the cells of
   * the tokens before it.
   */
  method PlaceToken(tokens: seq<string>, i: nat, cells: seq<Cell>, ghost spans: seq<Span>, remainingCols: nat,
                    numCols: nat, lookup: Lookup)
    returns (cells': seq<Cell>, ghost spans': seq<Span>, remainingCols': nat)
    requires i < |tokens| && (IsWord(tokens[i]) || IsSpaceRun(tokens[i])) && |tokens[i]| <= numCols
    requires Laid(tokens, i, cells, spans, remainingCols, numCols, lookup)
    ensures Laid(tokens, i + 1, cells', spans', remainingCols', numCols, lookup)
    ensures remainingCols' == FreeAfter(tokens[i], remainingCols, numCols)
  {
    var plainWord := tokens[i];
    if IsSpaceRun(plainWord) {
      cells', remainingCols' := cells, remainingCols;
      if '\n' in plainWord {
        cells' := PadRow(cells, remainingCols);
        remainingCols' := numCols;
      } else if remainingCols > 0 {
        cells' := cells + [Blank];
        remainingCols' := remainingCols - 1;
      }
      spans' := spans + [Span(|cells|, |cells'|, remainingCols)];
      SpaceRunStep(tokens, i, cells, spans, remainingCols, numCols, lookup, cells', spans', remainingCols');
    } else {
      var padded, free := cells, remainingCols;
      if remainingCols < |plainWord| {
        padded := PadRow(cells, remainingCols);
        free := numCols;
      } else {
        assert padded == cells + Blanks(0);
      }
      cells' := PlaceWord(padded, plainWord, lookup);
      spans' := spans + [Span(|padded|, |cells'|, remainingCols)];
      remainingCols' := free - |plainWord|;
      WordStep(tokens, i, cells, spans, remainingCols, numCols, lookup, |padded| - |cells|, cells', spans', remainingCols');
    }
  }

  /** The loop of `createGrid` over the tokens: the cells of every token, in order, in rows of `numCols`. */
  method LayTokens(plaintext: string, numCols: nat, lookup: Lookup) returns (cells: seq<Cell>, ghost spans: seq<Span>)
    requires forall k :: 0 <= k < |Tokenize(plaintext)| ==> |Tokenize(plaintext)[k]| <= numCols
    ensures numCols == 0 ==> cells == []
    ensures NonBlank(cells) == ClassifyAll(NonWhitespace(plaintext), lookup)
    ensures LetterCells(cells) == KeyCount(NonWhitespace(plaintext), lookup.encryptor)
    ensures forall m :: 0 <= m < |cells| ==> Agrees(cells[m], lookup.guessedDecryptor)
    ensures |spans| == |Tokenize(plaintext)| && spans[|spans| - 1].hi == |cells|
    ensures forall k :: 0 <= k < |spans| ==> TokenPlaced(cells, Tokenize(plaintext), spans, k, numCols, lookup)
  {
    var tokens := Tokenize(plaintext);
    TokenKinds(plaintext);
    cells := [];
    var remainingCols: nat := numCols;
    spans := [];
    LaidStart(tokens, numCols, lookup);

    for i := 0 to |tokens|
      invariant Laid(tokens, i, cells, spans, remainingCols, numCols, lookup)
    {
      cells, spans, remainingCols := PlaceToken(tokens, i, cells, spans, remainingCols, numCols, lookup);
    }

    LaidAll(plaintext, cells, spans, remainingCols, numCols, lookup);
  }

  /**
   * `createGrid`. `numCols` is the longest token or the number of default-width
   * cells that fit in `gridWidth`, whichever is larger; `remainingCols` counts the
   * free cells of the current row.
   */
  method CreateGrid(plaintext: string, encryptor: map<char, char>, guessedDecryptor: map<char, char>,
                    conflictedChar: Option<char>, gridWidth: nat, defaultCellWidth: nat)
    returns (layout: Layout, ghost spans: seq<Span>)
    requires defaultCellWidth > 0
    // columns
    ensures var tokens := Tokenize(plaintext);
      && (forall k :: 0 <= k < |tokens| ==> |tokens[k]| <= layout.numCols)
      && gridWidth / defaultCellWidth <= layout.numCols
      && (layout.numCols == gridWidth / defaultCellWidth || exists k :: 0 <= k < |tokens| && |tokens[k]| == layout.numCols)
    ensures layout.numCols > 0 ==> layout.cellWidth == Some(gridWidth / layout.numCols)
    ensures layout.numCols == 0 ==> layout.cellWidth == None && layout.cells == []
    // contents: leaving out the padding, the cells are those of the plaintext's word characters in order
    ensures NonBlank(layout.cells) == ClassifyAll(NonWhitespace(plaintext), Lookup(encryptor, guessedDecryptor, conflictedChar))
    ensures LetterCells(layout.cells) == KeyCount(NonWhitespace(plaintext), encryptor)
    ensures forall m :: 0 <= m < |layout.cells| ==> Agrees(layout.cells[m], guessedDecryptor)
    // rows: where every token went
    ensures |spans| == |Tokenize(plaintext)| && spans[|spans| - 1].hi == |layout.cells|
    ensures forall k :: 0 <= k < |spans| ==>
      TokenPlaced(layout.cells, Tokenize(plaintext), spans, k, layout.numCols, Lookup(encryptor, guessedDecryptor, conflictedChar))
  {
    var lookup := Lookup(encryptor, guessedDecryptor, conflictedChar);
    var tokens := Tokenize(plaintext);
    var minCols := MaxLength(tokens);
    var fitCols := gridWidth / defaultCellWidth;
    var numCols: nat := if minCols >= fitCols then minCols else fitCols;
    var cellWidth: Option<nat> := None;
    if numCols > 0 {
      DivNonNeg(gridWidth, numCols);
      cellWidth := Some(gridWidth / numCols);
    }

    var cells;
    cells, spans := LayTokens(plaintext, numCols, lookup);
    layout := Layout(numCols, cellWidth, cells);
  }
}
