/**
 * Guess-state engine of the game screen (src/components/Game.tsx).
 *
 * The player's state is the pair of guess maps (`guessedEncryptor`, plain letter to
 * cipher letter, and `guessedDecryptor`, its inverse), the letter last flagged as a
 * conflict and the focused cell. A key press on cell `i` of the current grid changes
 * it in one step: arrows move the focus, Backspace and Delete remove a guess, a
 * letter adds, replaces or flags a guess and then moves on to the next cell that
 * still needs one.
 */
module Game {
  import opened Wrappers
  import opened Grid
  import Cipher
  import Random
  import Utils

  const BaseChar: char := 'A'
  const NumChars: nat := 26
  /** `String.fromCharCode(baseChar.charCodeAt(0) + numChars - 1)`. */
  const LastChar: char := Cipher.Letter(BaseChar, NumChars - 1)
  const DefaultCellWidth: nat := 20

  /** A letter the player may guess: neither below `baseChar` nor above `lastChar`. */
  predicate InRange(p: char) {
    BaseChar <= p <= LastChar
  }

  // ---------------------------------------------------------------------------
  // Keys

  /**
   * `e.key` of a key press: the named keys the handler tests for, a key whose value
   * is a single character, and every other named key (Enter, Shift, Tab, ...).
   */
  datatype Key = ArrowLeft | ArrowRight | ArrowUp | ArrowDown | Backspace | Delete | Printable(ch: char) | OtherKey
  {
    predicate IsArrow() {
      ArrowLeft? || ArrowRight? || ArrowUp? || ArrowDown?
    }
  }

  /**
   * `toUpperCase` of a single character, for the characters whose upper case is one of
   * `A`..`Z`: the ASCII lower-case letters, dotless `ı` and long `ſ`; every other
   * character is treated as its own upper case.
   */
  function ToUpper(c: char): (u: char)
    ensures 'a' <= c <= 'z' ==> u as int == c as int - 32
    ensures InRange(c) ==> u == c
    ensures InRange(u) <==> InRange(c) || 'a' <= c <= 'z' || c == '\U{131}' || c == '\U{17F}'
  {
    if 'a' <= c <= 'z' then (c as int - 32) as char
    else if c == '\U{131}' then 'I'
    else if c == '\U{17F}' then 'S'
    else c
  }

  // ---------------------------------------------------------------------------
  // Navigation

  /**
   * The cell an arrow key leads to from cell `i` of `n` cells laid out in rows of
   * `numCols`, clamped to the grid; any other key stays on `i`.
   */
  function ArrowTarget(key: Key, i: nat, n: nat, numCols: nat): (dst: nat)
    requires i < n
    ensures dst < n
    ensures !key.IsArrow() ==> dst == i
    ensures key.ArrowLeft? ==> (dst == i <==> i == 0) && (i > 0 ==> dst + 1 == i)
    ensures key.ArrowRight? ==> (dst == i <==> i == n - 1) && (i < n - 1 ==> dst == i + 1)
    ensures key.ArrowUp? ==> if numCols <= i then dst + numCols == i else dst == 0
    ensures key.ArrowDown? ==> if i + numCols <= n - 1 then dst == i + numCols else dst == n - 1
  {
    match key
    case ArrowLeft => if i == 0 then 0 else i - 1
    case ArrowRight => if n - 1 < i + 1 then n - 1 else i + 1
    case ArrowUp => if i < numCols then 0 else i - numCols
    case ArrowDown => if n - 1 < i + numCols then n - 1 else i + numCols
    case _ => i
  }

  /**
   * Up and Down move by exactly one row and keep the column when the target row
   * exists, so each undoes the other.
   */
  lemma VerticalKeepsColumn(i: nat, n: nat, numCols: nat)
    requires 0 < numCols <= i < n
    ensures var up := ArrowTarget(ArrowUp, i, n, numCols);
      && up % numCols == i % numCols
      && up / numCols + 1 == i / numCols
      && ArrowTarget(ArrowDown, up, n, numCols) == i
  {
    var up := i - numCols;
    ModShift(up, numCols);
    DivBetween(i, numCols, up / numCols + 1) by {
      assert up == (up / numCols) * numCols + up % numCols;
    }
  }

  /** A cell `gotoNext` stops at: an unguessed cell showing another letter than `current`. */
  predicate Eligible(cells: seq<Cell>, k: nat, current: char)
    requires k < |cells|
  {
    cells[k].state == Unguessed && cells[k].content != current
  }

  /** The first eligible index of `[lo, hi)`, or `hi` when there is none. */
  function FirstEligible(cells: seq<Cell>, current: char, lo: nat, hi: nat): (r: nat)
    requires lo <= hi <= |cells|
    ensures lo <= r <= hi
    ensures r < hi ==> Eligible(cells, r, current)
    ensures forall k :: lo <= k < r ==> !Eligible(cells, k, current)
    decreases hi - lo
  {
    if lo == hi then hi
    else if Eligible(cells, lo, current) then lo
    else FirstEligible(cells, current, lo + 1, hi)
  }

  /** Where the scan of `gotoNext` starts: the cell after `i`, or `i` when it is the last one. */
  function ScanStart(i: nat, n: nat): (start: nat)
    requires i < n
    ensures start < n && (start == i + 1 || start == i == n - 1)
  {
    if n - 1 < i + 1 then n - 1 else i + 1
  }

  /**
   * Where `gotoNext` leads from cell `i`: the first eligible cell at or after the
   * start, else, after wrapping around, the first eligible cell before the last one,
   * else the last cell.
   */
  function NextUnguessed(cells: seq<Cell>, i: nat): (dst: nat)
    requires i < |cells|
    ensures dst < |cells|
  {
    var n := |cells|;
    var ahead := FirstEligible(cells, cells[i].content, ScanStart(i, n), n);
    if ahead < n then ahead else FirstEligible(cells, cells[i].content, 0, n - 1)
  }

  /**
   * The circular scan stops at an eligible cell whenever there is one, at the last
   * cell otherwise, and skips no eligible cell on its way from the start.
   */
  lemma NextUnguessedScan(cells: seq<Cell>, i: nat)
    requires i < |cells|
    ensures var dst, current, start := NextUnguessed(cells, i), cells[i].content, ScanStart(i, |cells|);
      && (Eligible(cells, dst, current) || dst == |cells| - 1)
      && ((exists k :: 0 <= k < |cells| && Eligible(cells, k, current)) ==> Eligible(cells, dst, current))
      && (start <= dst ==> forall k :: start <= k < dst ==> !Eligible(cells, k, current))
      && (dst < start ==> forall k :: 0 <= k < |cells| && (start <= k || k < dst) ==> !Eligible(cells, k, current))
  {
    var n, current, start := |cells|, cells[i].content, ScanStart(i, |cells|);
    var ahead := FirstEligible(cells, current, start, n);
    if ahead == n {
      var behind := FirstEligible(cells, current, 0, n - 1);
      if behind == n - 1 && !Eligible(cells, n - 1, current) {
        assert forall k :: 0 <= k < n ==> !Eligible(cells, k, current) by {
          forall k | 0 <= k < n
            ensures !Eligible(cells, k, current)
          {
            if k < start {
              assert k < behind;
            }
          }
        }
      }
    }
  }

  /** `gotoNext` finds the cell of a first eligible index: that index, when nothing before it in `[lo, hi)` is eligible. */
  lemma FirstEligibleIs(cells: seq<Cell>, current: char, lo: nat, hi: nat, d: nat)
    requires lo <= d <= hi <= |cells|
    requires d < hi ==> Eligible(cells, d, current)
    requires forall k :: lo <= k < d ==> !Eligible(cells, k, current)
    ensures FirstEligible(cells, current, lo, hi) == d
  {
  }

  /**
   * `gotoNext`: starting after cell `i`, step forward past every cell that is not
   * unguessed or shows the current cell's letter; past the last cell wrap around to
   * the first once, after which the last cell ends the scan.
   */
  method GotoNext(cells: seq<Cell>, i: nat) returns (dst: nat)
    requires i < |cells|
    ensures dst == NextUnguessed(cells, i)
  {
    var n := |cells|;
    var current := cells[i].content;
    var looped := false;
    dst := if n - 1 < i + 1 then n - 1 else i + 1;
    ghost var start := dst;
    while (!looped || dst < n - 1) && (cells[dst].state != Unguessed || cells[dst].content == current)
      invariant dst < n && start == ScanStart(i, n)
      invariant !looped ==> start <= dst && forall k :: start <= k < dst ==> !Eligible(cells, k, current)
      invariant looped ==> forall k :: 0 <= k < n && (start <= k || k < dst) ==> !Eligible(cells, k, current)
      decreases !looped, n - dst
    {
      dst := dst + 1;
      if dst > n - 1 {
        dst := 0;
        looped := true;
      }
    }
    if !looped {
      FirstEligibleIs(cells, current, start, n, dst);
    } else {
      FirstEligibleIs(cells, current, start, n, n);
      FirstEligibleIs(cells, current, 0, n - 1, dst);
    }
  }

  // ---------------------------------------------------------------------------
  // Guesses

  /** The player's guesses: `guessedEncryptor` (plain to cipher) and `guessedDecryptor` (cipher to plain). */
  datatype Guesses = Guesses(encryptor: map<char, char>, decryptor: map<char, char>)
  {
    /** The two maps are exact inverses. */
    predicate Inverse() {
      Cipher.Inverse(encryptor, decryptor)
    }
  }

  /** A new guess: plain letter `p` for cipher letter `c`, neither of which has a guess yet. */
  function AddGuess(g: Guesses, p: char, c: char): (r: Guesses)
    requires g.Inverse() && p !in g.encryptor && c !in g.decryptor
    ensures r.Inverse()
    ensures p in r.encryptor && r.encryptor[p] == c
  {
    Cipher.InverseExtend(g.encryptor, g.decryptor, p, c);
    Guesses(g.encryptor[p := c], g.decryptor[c := p])
  }

  /** A new guess leaves every other guess as it was and adds one to the count. */
  lemma AddGuessKeepsOthers(g: Guesses, p: char, c: char)
    requires g.Inverse() && p !in g.encryptor && c !in g.decryptor
    ensures var r := AddGuess(g, p, c);
      && (forall q :: q != p ==> (q in r.encryptor <==> q in g.encryptor))
      && (forall q :: q in g.encryptor ==> r.encryptor[q] == g.encryptor[q])
      && (forall d :: d != c ==> (d in r.decryptor <==> d in g.decryptor))
      && |r.encryptor| == |g.encryptor| + 1 && |r.decryptor| == |g.decryptor| + 1
  {
    Cipher.InverseExtend(g.encryptor, g.decryptor, p, c);
  }

  /**
   * Deleting the guess keyed by `p`: the pair `p`, `guessedEncryptor[p]` leaves both
   * maps; when `p` has no guess, nothing changes.
   */
  function RemoveGuess(g: Guesses, p: char): (r: Guesses)
    requires g.Inverse()
    ensures r.Inverse()
    ensures p !in r.encryptor
    ensures p !in g.encryptor ==> r == g
  {
    if p in g.encryptor then
      var cipherChar := g.encryptor[p];
      Guesses(g.encryptor - {p}, g.decryptor - {cipherChar})
    else
      g
  }

  /** Deleting a guess leaves every other guess as it was. */
  lemma RemoveGuessKeepsOthers(g: Guesses, p: char)
    requires g.Inverse()
    ensures var r := RemoveGuess(g, p);
      && (forall q :: q != p ==> (q in r.encryptor <==> q in g.encryptor))
      && (forall q :: q in r.encryptor ==> r.encryptor[q] == g.encryptor[q])
      && (p in g.encryptor ==> forall d :: d in r.decryptor <==> d in g.decryptor && d != g.encryptor[p])
  {
  }

  /**
   * Replacing the guess `previous` by `pressed`: `pressed` takes over the cipher letter
   * of `previous`, whose decryption now reads `pressed`.
   */
  function ReplaceGuess(g: Guesses, previous: char, pressed: char): (r: Guesses)
    requires g.Inverse() && previous in g.encryptor && pressed !in g.encryptor
    ensures r.Inverse()
    ensures previous !in r.encryptor && pressed in r.encryptor && r.encryptor[pressed] == g.encryptor[previous]
  {
    var cipherChar := g.encryptor[previous];
    var rest := g.encryptor - {previous};
    Guesses(rest[pressed := cipherChar], g.decryptor[cipherChar := pressed])
  }

  /** A replacement leaves every other guess as it was, the count included, and guesses the same cipher letters. */
  lemma ReplaceGuessKeepsOthers(g: Guesses, previous: char, pressed: char)
    requires g.Inverse() && previous in g.encryptor && pressed !in g.encryptor
    ensures var r := ReplaceGuess(g, previous, pressed);
      && (forall q :: q != previous && q != pressed ==> (q in r.encryptor <==> q in g.encryptor))
      && (forall q :: q in r.encryptor && q != pressed ==> r.encryptor[q] == g.encryptor[q])
      && r.decryptor.Keys == g.decryptor.Keys
      && |r.encryptor| == |g.encryptor|
  {
    var r := ReplaceGuess(g, previous, pressed);
    assert r.decryptor.Keys == g.decryptor.Keys;
    assert r.encryptor.Keys == g.encryptor.Keys - {previous} + {pressed};
  }

  /** Deleting a guess just made restores the guesses from before it. */
  lemma RemoveUndoesAdd(g: Guesses, p: char, c: char)
    requires g.Inverse() && p !in g.encryptor && c !in g.decryptor
    ensures RemoveGuess(AddGuess(g, p, c), p) == g
  {
    var r := RemoveGuess(AddGuess(g, p, c), p);
    assert r.encryptor == g.encryptor;
    assert r.decryptor == g.decryptor;
  }

  /** A replacement is a deletion of the previous guess followed by a new guess for the same cipher letter. */
  lemma ReplaceIsRemoveThenAdd(g: Guesses, previous: char, pressed: char)
    requires g.Inverse() && previous in g.encryptor && pressed !in g.encryptor
    ensures var removed := RemoveGuess(g, previous);
      && g.encryptor[previous] !in removed.decryptor
      && ReplaceGuess(g, previous, pressed) == AddGuess(removed, pressed, g.encryptor[previous])
  {
    var c := g.encryptor[previous];
    var removed := Guesses(g.encryptor - {previous}, g.decryptor - {c});
    assert RemoveGuess(g, previous) == removed;
    assert (g.decryptor - {c})[c := pressed] == g.decryptor[c := pressed];
  }

  /** A letter a guessed cell shows is a key of `guessedEncryptor`. */
  lemma ShownGuessIsKey(g: Guesses, p: char)
    requires g.Inverse() && p in g.decryptor.Values
    ensures p in g.encryptor
  {
    var c :| c in g.decryptor && g.decryptor[c] == p;
  }

  /**
   * The letter `p` typed on a letter cell: a new guess for the cipher letter an
   * unguessed cell shows, or, on a guessed cell, a replacement of the guess it shows.
   */
  function Guess(g: Guesses, cell: Cell, p: char): (r: Guesses)
    requires g.Inverse() && cell.state != NonLetter && Agrees(cell, g.decryptor) && p !in g.encryptor
    ensures r.Inverse()
    ensures p in r.encryptor
    ensures cell.state == Unguessed ==> r.encryptor[p] == cell.content
    ensures cell.state != Unguessed ==> cell.content in g.encryptor && r.encryptor[p] == g.encryptor[cell.content]
    ensures cell.state != Unguessed ==> cell.content !in r.encryptor
  {
    if cell.state == Unguessed then AddGuess(g, p, cell.content)
    else
      ShownGuessIsKey(g, cell.content);
      ReplaceGuess(g, cell.content, p)
  }

  // ---------------------------------------------------------------------------
  // The game

  /** The game screen's state for one plaintext. */
  class GameState {
    const plaintext: string
    /** The puzzle's cipher, drawn once when the game starts. */
    const encryptor: map<char, char>
    var guessedEncryptor: map<char, char>
    var guessedDecryptor: map<char, char>
    /** The letter last typed while already guessed elsewhere, `''` as `None`. */
    var conflictedChar: Option<char>
    var focusedCell: nat

    /**
     * The guess maps are exact inverses, every guessed plain letter is in range, and a
     * conflicted letter is one that has a guess.
     */
    ghost predicate Valid()
      reads this
    {
      && Cipher.Inverse(guessedEncryptor, guessedDecryptor)
      && (forall p {:trigger p in guessedEncryptor} :: p in guessedEncryptor ==> InRange(p))
      && (conflictedChar.Some? ==> conflictedChar.value in guessedEncryptor)
    }

    function Maps(): Guesses
      reads this
    {
      Guesses(guessedEncryptor, guessedDecryptor)
    }

    /** A new game: a cipher over `A`..`Z` drawn with `draws`, no guesses, focus on the first cell. */
    constructor(plaintext: string, draws: seq<int>)
      requires Random.ValidDraws(draws, NumChars)
      ensures Valid()
      ensures this.plaintext == plaintext
      ensures forall c {:trigger c in encryptor} :: c in encryptor <==> InRange(c) && c in plaintext
      ensures forall c {:trigger c in encryptor} :: c in encryptor ==> InRange(encryptor[c])
      ensures Cipher.Injective(encryptor)
      ensures guessedEncryptor == map[] && guessedDecryptor == map[] && conflictedChar == None && focusedCell == 0
    {
      var enc, _ := Cipher.CreateCipher(plaintext, BaseChar, NumChars, draws);
      this.plaintext := plaintext;
      encryptor := enc;
      guessedEncryptor, guessedDecryptor := map[], map[];
      conflictedChar := None;
      focusedCell := 0;
    }

    /** `hasWon`: every letter is guessed, and guessed right. */
    function HasWon(): (won: bool)
      reads this
      ensures won <==> guessedEncryptor == encryptor
    {
      Utils.AreRecordsEqual(encryptor, guessedEncryptor)
    }

    /** `hasFilledNotWon`: as many guesses as letters, but not all of them right. */
    function HasFilledNotWon(): (filled: bool)
      reads this
      ensures filled <==> guessedEncryptor != encryptor && |guessedEncryptor| == |encryptor|
      ensures filled ==> !HasWon()
    {
      !HasWon() && |encryptor| == |guessedEncryptor|
    }

    /** The grid of the current render, drawn with the current guesses. */
    method Render(gridWidth: nat) returns (layout: Layout)
      ensures NonBlank(layout.cells) == ClassifyAll(NonWhitespace(plaintext), Lookup(encryptor, guessedDecryptor, conflictedChar))
      ensures forall m :: 0 <= m < |layout.cells| ==> Agrees(layout.cells[m], guessedDecryptor)
    {
      ghost var spans;
      layout, spans := CreateGrid(plaintext, encryptor, guessedDecryptor, conflictedChar, gridWidth, DefaultCellWidth);
    }

    /**
     * The deletion block of `handleKeyDown`: Backspace on a cell that shows no guess
     * first steps back a cell; then the guess keyed by the target cell's letter is
     * removed, and so is the conflict flag when it is that letter.
     */
    method DeleteGuess(backspace: bool, i: nat, cells: seq<Cell>)
      requires Valid() && i < |cells|
      modifies this
      ensures Valid()
      ensures var dst := if backspace && cells[i].state != Guessed && cells[i].state != Conflicted && i > 0 then i - 1 else i;
        var content := cells[dst].content;
        && Maps() == RemoveGuess(old(Maps()), content)
        && conflictedChar == (if old(conflictedChar) == Some(content) then None else old(conflictedChar))
        && focusedCell == (if dst != i then dst else old(focusedCell))
    {
      var dst := i;
      if backspace && cells[i].state != Guessed && cells[i].state != Conflicted {
        dst := if i == 0 then 0 else i - 1;
        if dst != i {
          focusedCell := dst;
        }
      }
      var content := cells[dst].content;
      var g := RemoveGuess(Maps(), content);
      guessedEncryptor, guessedDecryptor := g.encryptor, g.decryptor;
      if conflictedChar == Some(content) {
        conflictedChar := None;
      }
    }

    /**
     * A guess typed on a letter cell whose letter has no guess yet: the conflict flag
     * is cleared and the guess is recorded in both maps.
     */
    method SetGuess(cell: Cell, p: char)
      requires Valid() && cell.state != NonLetter && Agrees(cell, guessedDecryptor)
      requires InRange(p) && p !in guessedEncryptor
      modifies this
      ensures Valid()
      ensures Maps() == Guess(old(Maps()), cell, p) && conflictedChar == None && focusedCell == old(focusedCell)
    {
      conflictedChar := None;
      var g := Guess(Maps(), cell, p);
      guessedEncryptor, guessedDecryptor := g.encryptor, g.decryptor;
    }

    /**
     * The input block of `handleKeyDown` for the character `ch` typed on cell `i`:
     * nothing on a cell that is not a letter or for a character that is not one of
     * `A`..`Z` once upper-cased; the guess the cell already shows moves on; a letter
     * guessed elsewhere is flagged; any other letter becomes the cell's guess and
     * the focus moves on.
     */
    method TypeLetter(ch: char, i: nat, cells: seq<Cell>)
      requires Valid() && i < |cells|
      requires Agrees(cells[i], guessedDecryptor)
      modifies this
      ensures Valid()
      ensures var p, cell, next := ToUpper(ch), cells[i], NextUnguessed(cells, i);
        if cell.state == NonLetter || !InRange(p) then
          Maps() == old(Maps()) && conflictedChar == old(conflictedChar) && focusedCell == old(focusedCell)
        else if cell.state != Unguessed && cell.content == p then
          && Maps() == old(Maps()) && conflictedChar == old(conflictedChar)
          && focusedCell == (if next != i then next else old(focusedCell))
        else if p in old(guessedEncryptor) then
          Maps() == old(Maps()) && conflictedChar == Some(p) && focusedCell == old(focusedCell)
        else
          && Maps() == Guess(old(Maps()), cell, p)
          && conflictedChar == None
          && focusedCell == (if next != i then next else old(focusedCell))
    {
      var currCell := cells[i];
      if currCell.state == NonLetter {
        return;
      }
      var pressed := ToUpper(ch);
      if !InRange(pressed) {
        return;
      }
      if currCell.state != Unguessed && currCell.content == pressed {
        var dst := GotoNext(cells, i);
        if dst != i {
          focusedCell := dst;
        }
        return;
      }
      if pressed in guessedEncryptor {
        conflictedChar := Some(pressed);
        return;
      }
      SetGuess(currCell, pressed);
      var dst := GotoNext(cells, i);
      if dst != i {
        focusedCell := dst;
      }
    }

    /**
     * `handleKeyDown`: key `key` pressed on cell `i` of `cells`, the grid of the
     * current render in rows of `numCols`. An arrow that leads off the cell only
     * moves the focus; Backspace and Delete remove a guess; a single-character key
     * is typed; every other key changes nothing.
     */
    method HandleKeyDown(key: Key, i: nat, cells: seq<Cell>, numCols: nat)
      requires Valid()
      requires i < |cells|
      requires forall m :: 0 <= m < |cells| ==> Agrees(cells[m], guessedDecryptor)
      modifies this
      ensures Valid()
      ensures key.IsArrow() ==>
        var dst := ArrowTarget(key, i, |cells|, numCols);
        && Maps() == old(Maps()) && conflictedChar == old(conflictedChar)
        && focusedCell == (if dst != i then dst else old(focusedCell))
      ensures key.Backspace? || key.Delete? ==>
        var dst := if key.Backspace? && cells[i].state != Guessed && cells[i].state != Conflicted && i > 0 then i - 1 else i;
        var content := cells[dst].content;
        && Maps() == RemoveGuess(old(Maps()), content)
        && conflictedChar == (if old(conflictedChar) == Some(content) then None else old(conflictedChar))
        && focusedCell == (if dst != i then dst else old(focusedCell))
      ensures key.Printable? ==>
        var p, cell, next := ToUpper(key.ch), cells[i], NextUnguessed(cells, i);
        if cell.state == NonLetter || !InRange(p) then
          Maps() == old(Maps()) && conflictedChar == old(conflictedChar) && focusedCell == old(focusedCell)
        else if cell.state != Unguessed && cell.content == p then
          && Maps() == old(Maps()) && conflictedChar == old(conflictedChar)
          && focusedCell == (if next != i then next else old(focusedCell))
        else if p in old(guessedEncryptor) then
          Maps() == old(Maps()) && conflictedChar == Some(p) && focusedCell == old(focusedCell)
        else
          && Maps() == Guess(old(Maps()), cell, p)
          && conflictedChar == None
          && focusedCell == (if next != i then next else old(focusedCell))
      ensures key.OtherKey? ==> Maps() == old(Maps()) && conflictedChar == old(conflictedChar) && focusedCell == old(focusedCell)
    {
      // Navigation
      var dst := ArrowTarget(key, i, |cells|, numCols);
      if dst != i {
        focusedCell := dst;
        return;
      }
      // Deletion
      if key.Backspace? || key.Delete? {
        DeleteGuess(key.Backspace?, i, cells);
      }
      // Input
      if key.Printable? {
        TypeLetter(key.ch, i, cells);
      }
    }
  }
}
