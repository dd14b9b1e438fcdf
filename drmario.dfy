/** The Dr. Mario field of `a2-drmario/game.py`: a grid of one-character
    cells (' ' empty, 'R', 'B', 'Y' capsule halves, 'r', 'b', 'y' viruses),
    at most one horizontal two-cell faller dropping through it, and a
    game-over flag. */
module DrMario {
  import opened Options

  /** The faller: its left half sits at (row, col), its right half at (row, col + 1). */
  datatype Faller = Faller(row: int, col: int, left: char, right: char, landed: bool)

  /** The column of the faller's left half when it spawns: the centre
      column for an odd width, the left one of the two centre columns for
      an even width. */
  function SpawnColumn(cols: int): (mid: int)
    requires cols >= 3
    ensures 0 <= mid && mid + 1 < cols
    ensures mid == (cols - 1) / 2
    ensures mid - (cols - mid - 2) == cols % 2
  {
    if cols % 2 == 0 then cols / 2 - 1 else cols / 2
  }

  /** A faller whose two halves lie inside a rows-by-cols field, below the top row. */
  predicate FallerFits(f: Faller, rows: int, cols: int) {
    1 <= f.row < rows && 0 <= f.col && f.col + 1 < cols
  }

  predicate IsVirus(cell: char) {
    cell == 'r' || cell == 'b' || cell == 'y'
  }

  /** The field still holds a virus. */
  predicate HasVirus(g: seq<seq<char>>) {
    exists r, c :: 0 <= r < |g| && 0 <= c < |g[r]| && IsVirus(g[r][c])
  }

  /** A field of `rows` rows of `cols` blank cells. */
  function Blank(rows: nat, cols: nat): (g: seq<seq<char>>)
    ensures |g| == rows
    ensures forall r :: 0 <= r < rows ==> |g[r]| == cols && forall c :: 0 <= c < cols ==> g[r][c] == ' '
  {
    seq(rows, r => seq(cols, c => ' '))
  }

  /** The field once a landed faller has been frozen into it. */
  function Freeze(g: seq<seq<char>>, f: Faller): (h: seq<seq<char>>)
    requires 0 <= f.row < |g| && 0 <= f.col && f.col + 1 < |g[f.row]|
    ensures |h| == |g|
    ensures forall r :: 0 <= r < |g| ==> |h[r]| == |g[r]|
    ensures forall r, c :: 0 <= r < |g| && 0 <= c < |g[r]| ==>
      h[r][c] == if r == f.row && c == f.col then f.left
                 else if r == f.row && c == f.col + 1 then f.right
                 else g[r][c]
  {
    g[f.row := g[f.row][f.col := f.left][f.col + 1 := f.right]]
  }

  // ---------------------------------------------------------------- render

  /** How a field cell is drawn: three characters, the cell in the middle
      when it is blank, a capsule half or a virus, and '?' otherwise. */
  function CellText(cell: char): (t: string)
    ensures |t| == 3 && t[0] == ' ' && t[2] == ' '
    ensures cell in " RBYrby" ==> t[1] == cell
    ensures cell !in " RBYrby" ==> t[1] == '?'
  {
    if cell == ' ' then "   "
    else if cell in "RBYrby" then [' ', cell, ' ']
    else " ? "
  }

  /** What the faller draws at (r, c), if it covers that cell: "[L" and
      "--R]" while falling, "|L" and "--R|" once landed. */
  function FallerGlyph(faller: Option<Faller>, r: int, c: int): (t: Option<string>)
    ensures t.Some? <==> faller.Some? && r == faller.value.row && (c == faller.value.col || c == faller.value.col + 1)
    ensures t.Some? && c == faller.value.col ==> |t.value| == 2 && t.value[1] == faller.value.left
    ensures t.Some? && c == faller.value.col + 1 ==> |t.value| == 4 && t.value[..3] == "--" + [faller.value.right]
  {
    match faller
    case None => None
    case Some(f) =>
      if r == f.row && c == f.col then Some((if f.landed then "|" else "[") + [f.left])
      else if r == f.row && c == f.col + 1 then Some("--" + [f.right] + (if f.landed then "|" else "]"))
      else None
  }

  function Glyph(row: seq<char>, r: int, c: int, faller: Option<Faller>): string
    requires 0 <= c < |row|
  {
    match FallerGlyph(faller, r, c)
    case Some(t) => t
    case None => CellText(row[c])
  }

  /** The drawing of the first `n` cells of field row `r`. */
  function RowCells(row: seq<char>, r: int, n: nat, faller: Option<Faller>): string
    requires n <= |row|
  {
    if n == 0 then "" else RowCells(row, r, n - 1, faller) + Glyph(row, r, n - 1, faller)
  }

  function RowText(row: seq<char>, r: int, faller: Option<Faller>): (t: string)
    ensures |t| >= 2 && t[0] == '|' && t[|t| - 1] == '|'
  {
    "|" + RowCells(row, r, |row|, faller) + "|"
  }

  /** The board lines of the first `n` field rows. */
  function BoardLines(g: seq<seq<char>>, n: nat, faller: Option<Faller>): (ls: seq<string>)
    requires n <= |g|
    ensures |ls| == n
  {
    if n == 0 then [] else BoardLines(g, n - 1, faller) + [RowText(g[n - 1], n - 1, faller)]
  }

  function Footer(cols: nat): string {
    " " + seq(3 * cols, i => '-') + " "
  }

  /** The whole picture: the board lines, the footer, then the two status lines when they apply. */
  function RenderLines(g: seq<seq<char>>, cols: nat, faller: Option<Faller>, gameOver: bool): (ls: seq<string>)
    ensures |ls| > |g|
  {
    BoardLines(g, |g|, faller) + [Footer(cols)]
      + (if HasVirus(g) then [] else ["LEVEL CLEARED"])
      + (if gameOver then ["GAME OVER"] else [])
  }

  /** A rectangular field `cols` wide whose faller, if there is one, lies inside it. */
  predicate Drawable(g: seq<seq<char>>, cols: nat, faller: Option<Faller>) {
    && (forall r :: 0 <= r < |g| ==> |g[r]| == cols)
    && (faller.Some? ==> 0 <= faller.value.row < |g| && 0 <= faller.value.col && faller.value.col + 1 < cols)
  }

  /** Every cell draws three characters, except that the faller's left half
      draws two and its right half four. */
  lemma {:induction false} RowCellsLength(row: seq<char>, r: int, n: nat, faller: Option<Faller>)
    requires n <= |row|
    requires faller.Some? ==> 0 <= faller.value.col && faller.value.col + 1 < |row|
    ensures |RowCells(row, r, n, faller)| ==
      3 * n - (if faller.Some? && r == faller.value.row && n == faller.value.col + 1 then 1 else 0)
  {
    if n > 0 {
      RowCellsLength(row, r, n - 1, faller);
    }
  }

  /** The drawing of cell `c` follows the drawing of the cells before it. */
  lemma GlyphAt(row: seq<char>, r: int, c: nat, faller: Option<Faller>)
    requires c < |row|
    ensures var k, x := 1 + |RowCells(row, r, c, faller)|, Glyph(row, r, c, faller);
      var t := RowText(row, r, faller);
      k + |x| <= |t| && t[k..k + |x|] == x
  {
    CellsPlacement(row, r, c, |row|, faller);
    SliceOfMiddle(RowText(row, r, faller), RowCells(row, r, |row|, faller),
      |RowCells(row, r, c, faller)|, Glyph(row, r, c, faller));
  }

  /** Where the drawing of cell `c` sits in its board line: at 3c + 1, one
      further left for the faller's right half. */
  lemma GlyphPlacement(row: seq<char>, r: int, c: nat, faller: Option<Faller>)
    requires c < |row|
    requires faller.Some? ==> 0 <= faller.value.col && faller.value.col + 1 < |row|
    ensures var start := 1 + 3 * c - (if faller.Some? && r == faller.value.row && c == faller.value.col + 1 then 1 else 0);
      var t, x := RowText(row, r, faller), Glyph(row, r, c, faller);
      start + |x| <= |t| && t[start..start + |x|] == x
  {
    RowCellsLength(row, r, c, faller);
    GlyphAt(row, r, c, faller);
  }

  /** The drawing of cell `c` sits in the drawing of the first `m` cells
      right after the drawing of the cells before it. */
  lemma {:induction false} CellsPlacement(row: seq<char>, r: int, c: nat, m: nat, faller: Option<Faller>)
    requires c < m <= |row|
    ensures var k, g := |RowCells(row, r, c, faller)|, Glyph(row, r, c, faller);
      var all := RowCells(row, r, m, faller);
      k + |g| <= |all| && all[k..k + |g|] == g
  {
    var pre, g := RowCells(row, r, c, faller), Glyph(row, r, c, faller);
    if m == c + 1 {
      SliceAfter(RowCells(row, r, m, faller), pre, g);
    } else {
      CellsPlacement(row, r, c, m - 1, faller);
      SliceInFront(RowCells(row, r, m, faller), RowCells(row, r, m - 1, faller), Glyph(row, r, m - 1, faller),
        |pre|, |pre| + |g|);
    }
  }

  lemma SliceAfter(t: string, a: string, b: string)
    requires t == a + b
    ensures |a| + |b| <= |t| && t[|a|..|a| + |b|] == b
  {
  }

  lemma SliceInFront(t: string, a: string, b: string, i: nat, j: nat)
    requires t == a + b && i <= j <= |a|
    ensures j <= |t| && t[i..j] == a[i..j]
  {
  }

  /** Inside `"|" + s + "|"`, position i of s sits at i + 1. */
  lemma SliceOfMiddle(t: string, s: string, i: nat, x: string)
    requires t == "|" + s + "|"
    requires i + |x| <= |s| && s[i..i + |x|] == x
    ensures i + 1 + |x| <= |t| && t[i + 1..i + 1 + |x|] == x
  {
    assert forall k :: 0 <= k < |x| ==> t[i + 1 + k] == x[k];
  }

  lemma SnocAt(ls: seq<string>, prev: seq<string>, x: string, r: nat)
    requires ls == prev + [x] && r <= |prev|
    ensures ls[r] == if r < |prev| then prev[r] else x
  {
  }

  lemma {:induction false} BoardLineAt(g: seq<seq<char>>, n: nat, faller: Option<Faller>, r: nat)
    requires r < n <= |g|
    ensures BoardLines(g, n, faller)[r] == RowText(g[r], r, faller)
  {
    var ls, prev := BoardLines(g, n, faller), BoardLines(g, n - 1, faller);
    if r < n - 1 {
      BoardLineAt(g, n - 1, faller, r);
      SnocAt(ls, prev, RowText(g[n - 1], n - 1, faller), r);
    } else {
      SnocAt(ls, prev, RowText(g[n - 1], n - 1, faller), r);
    }
  }

  /** The first lines of the picture are the board lines, then comes the footer. */
  lemma RenderLineAt(g: seq<seq<char>>, cols: nat, faller: Option<Faller>, gameOver: bool, r: nat)
    requires r <= |g|
    ensures RenderLines(g, cols, faller, gameOver)[r] == if r < |g| then RowText(g[r], r, faller) else Footer(cols)
  {
    var board := BoardLines(g, |g|, faller);
    var rest := (if HasVirus(g) then [] else ["LEVEL CLEARED"]) + (if gameOver then ["GAME OVER"] else []);
    assert RenderLines(g, cols, faller, gameOver) == board + ([Footer(cols)] + rest);
    if r < |g| {
      BoardLineAt(g, |g|, faller, r);
    }
  }

  /** The faller's two glyphs side by side in its board line. */
  lemma FallerInRow(row: seq<char>, f: Faller)
    requires 0 <= f.col && f.col + 1 < |row|
    ensures var t, s := RowText(row, f.row, Some(f)), 3 * f.col + 1;
      s + 6 <= |t| &&
      t[s..s + 6] == (if f.landed then "|" else "[") + [f.left] + "--" + [f.right] + (if f.landed then "|" else "]")
  {
    var t := RowText(row, f.row, Some(f));
    var s := 3 * f.col + 1;
    var x1, x2 := Glyph(row, f.row, f.col, Some(f)), Glyph(row, f.row, f.col + 1, Some(f));
    assert x1 == (if f.landed then "|" else "[") + [f.left];
    assert x2 == "--" + [f.right] + (if f.landed then "|" else "]");
    GlyphPlacement(row, f.row, f.col, Some(f));
    assert t[s..s + 2] == x1;
    GlyphPlacement(row, f.row, f.col + 1, Some(f));
    assert t[s + 2..s + 6] == x2;
    AdjacentSlices(t, s, x1, x2);
  }

  lemma AdjacentSlices(t: string, s: nat, x1: string, x2: string)
    requires s + |x1| + |x2| <= |t|
    requires t[s..s + |x1|] == x1 && t[s + |x1|..s + |x1| + |x2|] == x2
    ensures t[s..s + |x1| + |x2|] == x1 + x2
  {
    assert t[s..s + |x1| + |x2|] == t[s..s + |x1|] + t[s + |x1|..s + |x1| + |x2|];
  }

  /** The picture has one line per field row, each `|...|` and 3 * cols + 2
      wide, then a footer of the same width, then the status lines. */
  lemma RenderShape(g: seq<seq<char>>, cols: nat, faller: Option<Faller>, gameOver: bool)
    requires Drawable(g, cols, faller)
    ensures var lines := RenderLines(g, cols, faller, gameOver);
      && |lines| == |g| + 1 + (if HasVirus(g) then 0 else 1) + (if gameOver then 1 else 0)
      && (forall r :: 0 <= r < |g| ==>
            |lines[r]| == 3 * cols + 2 && lines[r][0] == '|' && lines[r][3 * cols + 1] == '|')
      && |lines[|g|]| == 3 * cols + 2 && lines[|g|][0] == ' ' && lines[|g|][3 * cols + 1] == ' '
      && (forall i :: 1 <= i <= 3 * cols ==> lines[|g|][i] == '-')
  {
    var lines := RenderLines(g, cols, faller, gameOver);
    forall r | 0 <= r < |g|
      ensures |lines[r]| == 3 * cols + 2 && lines[r][0] == '|' && lines[r][3 * cols + 1] == '|'
    {
      RenderLineAt(g, cols, faller, gameOver, r);
      RowCellsLength(g[r], r, cols, faller);
    }
    RenderLineAt(g, cols, faller, gameOver, |g|);
  }

  /** "LEVEL CLEARED" is shown exactly when no virus is left, and "GAME OVER"
      exactly when the game is over, as the last line. */
  lemma RenderStatus(g: seq<seq<char>>, cols: nat, faller: Option<Faller>, gameOver: bool)
    ensures var lines := RenderLines(g, cols, faller, gameOver);
      && ("LEVEL CLEARED" in lines <==> !HasVirus(g))
      && ("GAME OVER" in lines <==> gameOver)
      && (gameOver ==> lines[|lines| - 1] == "GAME OVER")
  {
    var lines := RenderLines(g, cols, faller, gameOver);
    var board := BoardLines(g, |g|, faller);
    assert "LEVEL CLEARED" !in board + [Footer(cols)] && "GAME OVER" !in board + [Footer(cols)] by {
      forall i | 0 <= i < |board| + 1
        ensures (board + [Footer(cols)])[i] != "LEVEL CLEARED" && (board + [Footer(cols)])[i] != "GAME OVER"
      {
        if i < |board| {
          assert (board + [Footer(cols)])[i] == board[i];
          BoardLineAt(g, |g|, faller, i);
          assert board[i][0] == '|';
        } else {
          assert (board + [Footer(cols)])[i] == Footer(cols);
          assert Footer(cols)[0] == ' ';
        }
      }
    }
  }

  /** A cell the faller does not cover is drawn at columns 3c+1 to 3c+3 of its line. */
  lemma RenderCell(g: seq<seq<char>>, cols: nat, faller: Option<Faller>, gameOver: bool, r: nat, c: nat)
    requires Drawable(g, cols, faller)
    requires r < |g| && c < cols
    requires FallerGlyph(faller, r, c).None?
    ensures var line := RenderLines(g, cols, faller, gameOver)[r];
      3 * c + 4 <= |line| && line[3 * c + 1..3 * c + 4] == CellText(g[r][c])
  {
    RenderLineAt(g, cols, faller, gameOver, r);
    GlyphPlacement(g[r], r, c, faller);
  }

  /** The faller is drawn over its two cells: "[L--R]" while falling, "|L--R|" once landed. */
  lemma RenderFaller(g: seq<seq<char>>, cols: nat, f: Faller, gameOver: bool)
    requires Drawable(g, cols, Some(f))
    ensures var line := RenderLines(g, cols, Some(f), gameOver)[f.row];
      3 * f.col + 7 <= |line| &&
      line[3 * f.col + 1..3 * f.col + 7] ==
        (if f.landed then "|" else "[") + [f.left] + "--" + [f.right] + (if f.landed then "|" else "]")
  {
    RenderLineAt(g, cols, Some(f), gameOver, f.row);
    FallerInRow(g[f.row], f);
  }

  // ------------------------------------------------------------ game state

  class GameState {
    const rows: int
    const cols: int
    const field: array2<char>
    var faller: Option<Faller>
    var gameOver: bool

    /** The field as a value, row by row. */
    function Grid(): (g: seq<seq<char>>)
      reads field
      requires field.Length0 == rows && field.Length1 == cols
      ensures |g| == rows
      ensures forall r :: 0 <= r < rows ==> |g[r]| == cols
      ensures forall r, c :: 0 <= r < rows && 0 <= c < cols ==> g[r][c] == field[r, c]
    {
      seq(rows, r reads field requires 0 <= r < rows =>
        seq(cols, c reads field requires 0 <= c < cols => field[r, c]))
    }

    /** The cells under the faller are off the field or taken. */
    predicate Blocked(f: Faller)
      reads field
      requires field.Length0 == rows && field.Length1 == cols && FallerFits(f, rows, cols)
    {
      f.row + 1 >= rows || field[f.row + 1, f.col] != ' ' || field[f.row + 1, f.col + 1] != ' '
    }

    /** The field has the declared size (at least 4 by 3); a faller lies
        inside it, in the spawn column, and is marked landed only when it
        cannot fall further. */
    ghost predicate Valid()
      reads this, field
    {
      && field.Length0 == rows && field.Length1 == cols
      && rows >= 4 && cols >= 3
      && (faller.Some? ==>
            && FallerFits(faller.value, rows, cols)
            && faller.value.col == SpawnColumn(cols)
            && (faller.value.landed ==> Blocked(faller.value)))
    }

    /** The faller covers only blank cells, so freezing it writes over nothing. */
    ghost predicate OnFreeCells()
      reads this, field
      requires Valid()
    {
      faller.Some? ==>
        field[faller.value.row, faller.value.col] == ' ' && field[faller.value.row, faller.value.col + 1] == ' '
    }

    /** The spawn lane: rows 0 and 1 at the spawn column and the column after it. */
    predicate SpawnLaneFree()
      reads field
      requires field.Length0 == rows && field.Length1 == cols && rows >= 2 && cols >= 3
    {
      var mid := SpawnColumn(cols);
      field[0, mid] == ' ' && field[0, mid + 1] == ' ' && field[1, mid] == ' ' && field[1, mid + 1] == ' '
    }

    /** `GameState(rows, cols, contents)`: a blank field when no contents are given. */
    constructor (rows: int, cols: int, contents: seq<seq<char>>)
      requires rows >= 4 && cols >= 3
      requires contents == [] || (|contents| == rows && forall r :: 0 <= r < rows ==> |contents[r]| == cols)
      ensures Valid() && fresh(field)
      ensures this.rows == rows && this.cols == cols
      ensures Grid() == if contents == [] then Blank(rows, cols) else contents
      ensures faller.None? && !gameOver
    {
      this.rows := rows;
      this.cols := cols;
      if contents != [] {
        field := new char[rows, cols]((r: int, c: int) requires 0 <= r < rows && 0 <= c < cols => contents[r][c]);
      } else {
        field := new char[rows, cols]((r: int, c: int) => ' ');
      }
      faller := None;
      gameOver := false;
      new;
      assert Grid() == if contents == [] then Blank(rows, cols) else contents by {
        var g := Grid();
        var e := if contents == [] then Blank(rows, cols) else contents;
        assert forall r :: 0 <= r < rows ==> g[r] == e[r] by {
          forall r | 0 <= r < rows
            ensures g[r] == e[r]
          {
            assert forall c :: 0 <= c < cols ==> g[r][c] == e[r][c];
          }
        }
      }
    }

    /** `create_faller(left, right)`: with no faller in play, spawns one in
        row 1 at the spawn column, unless either top-row cell above it is
        taken, in which case the game is over instead. */
    method CreateFaller(left: char, right: char)
      modifies this
      requires Valid()
      ensures Valid()
      ensures old(faller).Some? ==> faller == old(faller) && gameOver == old(gameOver)
      ensures old(faller).None? && (field[0, SpawnColumn(cols)] != ' ' || field[0, SpawnColumn(cols) + 1] != ' ') ==>
        faller.None? && gameOver
      ensures old(faller).None? && field[0, SpawnColumn(cols)] == ' ' && field[0, SpawnColumn(cols) + 1] == ' ' ==>
        faller == Some(Faller(1, SpawnColumn(cols), left, right, false)) && gameOver == old(gameOver)
    {
      if faller.Some? {
        return;
      }
      var mid := cols / 2;
      if cols % 2 == 0 {
        mid := mid - 1;
      }
      if field[0, mid] != ' ' || field[0, mid + 1] != ' ' {
        gameOver := true;
        return;
      }
      faller := Some(Faller(1, mid, left, right, false));
    }

    /** `create_faller` checking the whole spawn lane, rows 0 and 1, so that a
        new faller never covers a taken cell. */
    method CreateFallerChecked(left: char, right: char)
      modifies this
      requires Valid()
      ensures Valid()
      ensures old(faller).Some? ==> faller == old(faller) && gameOver == old(gameOver)
      ensures old(faller).None? && !SpawnLaneFree() ==> faller.None? && gameOver
      ensures old(faller).None? && SpawnLaneFree() ==>
        faller == Some(Faller(1, SpawnColumn(cols), left, right, false)) && gameOver == old(gameOver)
      ensures old(faller).None? || old(OnFreeCells()) ==> OnFreeCells()
    {
      if faller.Some? {
        return;
      }
      var mid := cols / 2;
      if cols % 2 == 0 {
        mid := mid - 1;
      }
      if field[0, mid] != ' ' || field[0, mid + 1] != ' ' || field[1, mid] != ' ' || field[1, mid + 1] != ' ' {
        gameOver := true;
        return;
      }
      faller := Some(Faller(1, mid, left, right, false));
    }

    /** `step()`: the faller drops one row while the two cells below it are
        free; once blocked it is first marked landed, and on the next step
        its colours are written into the field and it is gone. */
    method Step()
      modifies this, field
      requires Valid()
      ensures Valid()
      ensures gameOver == old(gameOver)
      ensures old(faller).None? ==> faller.None? && unchanged(field)
      ensures old(faller).Some? && !old(Blocked(faller.value)) ==>
        faller == Some(old(faller).value.(row := old(faller).value.row + 1)) && unchanged(field)
      ensures old(faller).Some? && old(Blocked(faller.value)) && !old(faller).value.landed ==>
        faller == Some(old(faller).value.(landed := true)) && unchanged(field)
      ensures old(faller).Some? && old(Blocked(faller.value)) && old(faller).value.landed ==>
        faller.None? && FrozenInto(old(faller).value)
      ensures old(OnFreeCells()) ==> OnFreeCells()
      ensures old(OnFreeCells()) ==>
        forall r, c :: 0 <= r < rows && 0 <= c < cols && old(field[r, c]) != ' ' ==> field[r, c] == old(field[r, c])
    {
      if faller.None? {
        return;
      }
      var f := faller.value;
      var row := f.row;
      var col := f.col;
      if row + 1 >= rows || field[row + 1, col] != ' ' || field[row + 1, col + 1] != ' ' {
        if f.landed {
          field[row, col] := f.left;
          field[row, col + 1] := f.right;
          faller := None;
        } else {
          faller := Some(f.(landed := true));
        }
      } else {
        faller := Some(f.(row := row + 1));
      }
    }

    /** The field holds the faller's colours at its two cells and, everywhere
        else, what it held before. */
    twostate predicate FrozenInto(f: Faller)
      reads field
    {
      forall r, c :: 0 <= r < field.Length0 && 0 <= c < field.Length1 ==>
        field[r, c] == if r == f.row && c == f.col then f.left
                       else if r == f.row && c == f.col + 1 then f.right
                       else old(field[r, c])
    }

    /** A freeze, seen on the field as a value. */
    twostate lemma FrozenGrid(f: Faller)
      requires field.Length0 == rows && field.Length1 == cols && FallerFits(f, rows, cols)
      requires FrozenInto(f)
      ensures Grid() == Freeze(old(Grid()), f)
    {
      var g, h := Grid(), Freeze(old(Grid()), f);
      forall r | 0 <= r < rows
        ensures g[r] == h[r]
      {
        assert forall c :: 0 <= c < cols ==> g[r][c] == h[r][c];
      }
    }

    /** `render()`: the picture of the field, the faller, the footer and the status lines. */
    method Render() returns (lines: seq<string>)
      requires field.Length0 == rows && field.Length1 == cols
      ensures lines == RenderLines(Grid(), cols, faller, gameOver)
    {
      ghost var g := Grid();
      var fallerCells := FallerCells();
      lines := [];
      for r := 0 to rows
        invariant lines == BoardLines(g, r, faller)
      {
        var line := RenderRow(r, fallerCells);
        lines := lines + [line];
      }
      lines := lines + [Footer(cols)];
      if !HasVirus(Grid()) {
        lines := lines + ["LEVEL CLEARED"];
      }
      if gameOver {
        lines := lines + ["GAME OVER"];
      }
    }

    /** The `faller_cells` table of `render`: the faller's two glyphs by position. */
    method FallerCells() returns (fallerCells: map<(int, int), string>)
      ensures forall r, c :: FallerGlyph(faller, r, c) == if (r, c) in fallerCells then Some(fallerCells[(r, c)]) else None
    {
      fallerCells := map[];
      if faller.Some? {
        var f := faller.value;
        if f.landed {
          fallerCells := fallerCells[(f.row, f.col) := "|" + [f.left]];
          fallerCells := fallerCells[(f.row, f.col + 1) := "--" + [f.right] + "|"];
        } else {
          fallerCells := fallerCells[(f.row, f.col) := "[" + [f.left]];
          fallerCells := fallerCells[(f.row, f.col + 1) := "--" + [f.right] + "]"];
        }
      }
    }

    /** One board line of `render`: the cells of field row `r` between two bars. */
    method RenderRow(r: int, fallerCells: map<(int, int), string>) returns (line: string)
      requires field.Length0 == rows && field.Length1 == cols && 0 <= r < rows
      requires forall rr, c :: FallerGlyph(faller, rr, c) == if (rr, c) in fallerCells then Some(fallerCells[(rr, c)]) else None
      ensures line == RowText(Grid()[r], r, faller)
    {
      ghost var row := Grid()[r];
      assert forall c :: 0 <= c < cols ==> row[c] == field[r, c];
      line := "|";
      for c := 0 to cols
        invariant line == "|" + RowCells(row, r, c, faller)
      {
        var cell := field[r, c];
        var drawn := if (r, c) in fallerCells then Some(fallerCells[(r, c)]) else None;
        var piece := DrawCell(cell, drawn);
        assert piece == Glyph(row, r, c, faller);
        RowCellsStep(row, r, c, faller);
        line := line + piece;
      }
      line := line + "|";
    }
  }

  lemma RowCellsStep(row: seq<char>, r: int, c: nat, faller: Option<Faller>)
    requires c < |row|
    ensures "|" + RowCells(row, r, c + 1, faller) == ("|" + RowCells(row, r, c, faller)) + Glyph(row, r, c, faller)
  {
  }

  /** One cell of a board line: the faller's drawing where it covers the
      cell, else the drawing of the field's content. */
  method DrawCell(cell: char, drawn: Option<string>) returns (piece: string)
    ensures drawn.Some? ==> piece == drawn.value
    ensures drawn.None? ==> piece == CellText(cell)
  {
    if drawn.Some? {
      piece := drawn.value;
    } else if cell == ' ' {
      piece := "   ";
    } else if cell in "RBY" {
      piece := [' ', cell, ' '];
    } else if cell in "rby" {
      piece := [' ', cell, ' '];
    } else {
      piece := " ? ";
    }
  }

  /** A 4-by-3 empty field: a faller spawned in the centre falls to the
      floor in two steps, lands on the third and is frozen on the fourth. */
  method DropToFloor() returns (landed: Option<Faller>, frozen: seq<seq<char>>)
    ensures landed == Some(Faller(3, 1, 'R', 'Y', true))
    ensures frozen == ["   ", "   ", "   ", " RY"]
  {
    var game := new GameState(4, 3, []);
    ghost var blank := game.Grid();
    game.CreateFaller('R', 'Y');
    assert game.faller == Some(Faller(1, 1, 'R', 'Y', false));
    game.Step();
    game.Step();
    assert game.faller == Some(Faller(3, 1, 'R', 'Y', false));
    game.Step();
    landed := game.faller;
    assert game.Grid() == blank;
    label BeforeFreeze:
    game.Step();
    game.FrozenGrid@BeforeFreeze(landed.value);
    frozen := game.Grid();
    FreezeOnBlank();
  }

  /** The spawn check of `create_faller` looks at row 0 only: with a virus in
      row 1 under the spawn column and a capsule half below it, the faller
      spawns over the virus, lands at once and is frozen over it. */
  method SpawnOverVirus() returns (before: char, after: char)
    ensures before == 'r' && after == 'B'
  {
    var game := new GameState(4, 3, ["   ", " r ", " R ", "   "]);
    assert game.Grid()[1][1] == 'r' && game.Grid()[2][1] == 'R';
    assert game.Grid()[0][1] == ' ' && game.Grid()[0][2] == ' ';
    before := game.field[1, 1];
    game.CreateFaller('B', 'Y');
    assert game.faller == Some(Faller(1, 1, 'B', 'Y', false));
    game.Step();
    assert game.faller == Some(Faller(1, 1, 'B', 'Y', true));
    game.Step();
    after := game.field[1, 1];
  }

  /** The same field with the whole spawn lane checked: the game is over,
      no faller appears and the virus stays. */
  method SpawnOverVirusChecked() returns (spawned: Option<Faller>, over: bool, kept: char)
    ensures spawned.None? && over && kept == 'r'
  {
    var game := new GameState(4, 3, ["   ", " r ", " R ", "   "]);
    assert game.Grid()[1][1] == 'r';
    game.CreateFallerChecked('B', 'Y');
    spawned, over, kept := game.faller, game.gameOver, game.field[1, 1];
  }

  lemma FreezeOnBlank()
    ensures Freeze(Blank(4, 3), Faller(3, 1, 'R', 'Y', true)) == ["   ", "   ", "   ", " RY"]
  {
    SameGrid(Freeze(Blank(4, 3), Faller(3, 1, 'R', 'Y', true)), ["   ", "   ", "   ", " RY"]);
  }

  lemma SameGrid(a: seq<seq<char>>, b: seq<seq<char>>)
    requires |a| == |b| && forall r :: 0 <= r < |a| ==> |a[r]| == |b[r]|
    requires forall r, c :: 0 <= r < |a| && 0 <= c < |a[r]| ==> a[r][c] == b[r][c]
    ensures a == b
  {
    assert forall r :: 0 <= r < |a| ==> a[r] == b[r];
  }
}
