/**
 * Minesweeper: the game board, the logical sentences the AI keeps about it,
 * and the AI's bookkeeping of safe cells, mines and moves.
 *
 * A sentence `cells = count` says that exactly `count` of `cells` are mines.
 * The AI's knowledge is a list of sentence objects that it edits in place.
 * The central property proved here is soundness: as long as every count the
 * game reports is the true number of neighbouring mines, the AI never
 * records a mine as safe, never records a safe cell as a mine, and every
 * sentence it holds stays true of the real mine field.
 */
module Minesweeper {
  import opened Wrappers

  /** A cell (row, column). */
  type Cell = (int, int)

  predicate InBounds(c: Cell, height: int, width: int) {
    0 <= c.0 < height && 0 <= c.1 < width
  }

  /** The 3x3 block of cells centred on c, c itself included. */
  function Block(c: Cell): set<Cell> {
    set i, j | c.0 - 1 <= i <= c.0 + 1 && c.1 - 1 <= j <= c.1 + 1 :: (i, j)
  }

  /** The cells within one row and column of c, other than c, that lie on a height x width board. */
  function Neighbours(c: Cell, height: int, width: int): set<Cell> {
    set n | n in Block(c) && n != c && InBounds(n, height, width)
  }

  /** Which cells of the block around c are its neighbours. */
  lemma NeighbourAt(c: Cell, i: int, j: int, height: int, width: int)
    requires c.0 - 1 <= i <= c.0 + 1 && c.1 - 1 <= j <= c.1 + 1
    ensures (i, j) in Neighbours(c, height, width) <==> (i, j) != c && InBounds((i, j), height, width)
  {
    assert (i, j) in Block(c);
  }

  /** The same, for the cell at offset (di, dj) from c. */
  lemma NeighbourAtOffset(c: Cell, di: int, dj: int, height: int, width: int)
    requires -1 <= di <= 1 && -1 <= dj <= 1
    ensures (c.0 + di, c.1 + dj) in Neighbours(c, height, width)
            <==> !(di == 0 && dj == 0) && InBounds((c.0 + di, c.1 + dj), height, width)
  {
    NeighbourAt(c, c.0 + di, c.1 + dj, height, width);
  }

  // ---------------------------------------------------------------------------
  // Set cardinalities

  lemma CardDiff<T>(a: set<T>, b: set<T>)
    requires b <= a
    ensures |a - b| == |a| - |b|
  {
    assert a == (a - b) + b;
    assert (a - b) * b == {};
  }

  lemma CardSubset<T>(a: set<T>, b: set<T>)
    requires a <= b
    ensures |a| <= |b|
    ensures |a| == |b| ==> a == b
  {
    CardDiff(b, a);
    if |a| == |b| {
      assert b - a == {};
    }
  }

  /** A cell has at most eight neighbours. */
  lemma NeighboursAtMostEight(c: Cell, height: int, width: int)
    ensures |Neighbours(c, height, width)| <= 8
  {
    var (r, k) := c;
    var ring := {(r - 1, k - 1), (r - 1, k), (r - 1, k + 1), (r, k - 1),
                 (r, k + 1), (r + 1, k - 1), (r + 1, k), (r + 1, k + 1)};
    assert |ring| == 8;
    forall n | n in Neighbours(c, height, width) ensures n in ring {
      assert n.0 == r - 1 || n.0 == r || n.0 == r + 1;
    }
    CardSubset(Neighbours(c, height, width), ring);
  }

  // ---------------------------------------------------------------------------
  // The order in which the nested loops over a 3x3 block visit its cells

  /** The members of s that come before (i, j) in row-major order. */
  function Scanned(s: set<Cell>, i: int, j: int): set<Cell> {
    set n | n in s && (n.0 < i || (n.0 == i && n.1 < j))
  }

  lemma ScanStart(s: set<Cell>, c: Cell)
    requires s <= Block(c)
    ensures Scanned(s, c.0 - 1, c.1 - 1) == {}
  {
    forall n | n in s ensures n !in Scanned(s, c.0 - 1, c.1 - 1) {
      assert n in Block(c);
    }
  }

  /** Passing (i, j), where `next` is j + 1. */
  lemma ScanNext(s: set<Cell>, i: int, j: int, next: int)
    requires next == j + 1
    ensures Scanned(s, i, next) == Scanned(s, i, j) + (if (i, j) in s then {(i, j)} else {})
  {
  }

  /** Passing (i, j) adds one to the count when (i, j) is in s. */
  lemma ScanNextCount(s: set<Cell>, i: int, j: int, next: int)
    requires next == j + 1
    ensures |Scanned(s, i, next)| == |Scanned(s, i, j)| + (if (i, j) in s then 1 else 0)
  {
    ScanNext(s, i, j, next);
  }

  /** Passing the end of row i, where `next` is i + 1. */
  lemma ScanRowEnd(s: set<Cell>, c: Cell, i: int, next: int)
    requires s <= Block(c) && next == i + 1
    ensures Scanned(s, i, c.1 + 2) == Scanned(s, next, c.1 - 1)
  {
    forall n | n in s ensures n in Scanned(s, i, c.1 + 2) <==> n in Scanned(s, next, c.1 - 1) {
      assert n in Block(c);
    }
  }

  lemma ScanEnd(s: set<Cell>, c: Cell)
    requires s <= Block(c)
    ensures Scanned(s, c.0 + 2, c.1 - 1) == s
  {
    forall n | n in s ensures n in Scanned(s, c.0 + 2, c.1 - 1) {
      assert n in Block(c);
    }
  }

  // ---------------------------------------------------------------------------
  // The game

  /** The board: which cells hold mines, and which mines the player has flagged. */
  class Minesweeper {
    const height: nat
    const width: nat
    var board: seq<seq<bool>>
    var mines: set<Cell>
    var minesFound: set<Cell>

    /** The board is height x width, and a cell of it is true exactly when it is in `mines`. */
    predicate Valid()
      reads this
    {
      && |board| == height
      && (forall i :: 0 <= i < height ==> |board[i]| == width)
      && (forall c :: c in mines ==> InBounds(c, height, width))
      && (forall i, j :: 0 <= i < height && 0 <= j < width ==> (board[i][j] <==> (i, j) in mines))
    }

    /** An empty field of the given size, then the mines laid one at a time. */
    constructor(height: nat, width: nat, mineCells: set<Cell>)
      requires forall c :: c in mineCells ==> InBounds(c, height, width)
      ensures Valid()
      ensures this.height == height && this.width == width
      ensures mines == mineCells && minesFound == {}
    {
      var b: seq<seq<bool>> := [];
      for i := 0 to height
        invariant |b| == i
        invariant forall i' :: 0 <= i' < i ==> |b[i']| == width && forall j :: 0 <= j < width ==> !b[i'][j]
      {
        var row: seq<bool> := [];
        for j := 0 to width
          invariant |row| == j && forall j' :: 0 <= j' < j ==> !row[j']
        {
          row := row + [false];
        }
        b := b + [row];
      }
      var laid: set<Cell> := {};
      var rest := mineCells;
      while rest != {}
        invariant rest <= mineCells && laid == mineCells - rest
        invariant |b| == height && forall i :: 0 <= i < height ==> |b[i]| == width
        invariant forall i, j :: 0 <= i < height && 0 <= j < width ==> (b[i][j] <==> (i, j) in laid)
        decreases rest
      {
        var c :| c in rest;
        if !b[c.0][c.1] {
          laid := laid + {c};
          b := b[c.0 := b[c.0][c.1 := true]];
        }
        rest := rest - {c};
      }
      this.height, this.width := height, width;
      board, mines, minesFound := b, laid, {};
    }

    method IsMine(cell: Cell) returns (r: bool)
      requires Valid() && InBounds(cell, height, width)
      ensures r <==> cell in mines
    {
      r := board[cell.0][cell.1];
    }

    /** The number of mines among the cell's neighbours on the board. */
    method NearbyMines(cell: Cell) returns (count: nat)
      requires Valid()
      ensures count == |Neighbours(cell, height, width) * mines|
      ensures count <= 8
    {
      ghost var s := Neighbours(cell, height, width) * mines;
      ScanStart(s, cell);
      count := 0;
      for i := cell.0 - 1 to cell.0 + 2
        invariant count == |Scanned(s, i, cell.1 - 1)|
      {
        for j := cell.1 - 1 to cell.1 + 2
          invariant count == |Scanned(s, i, j)|
        {
          ScanNextCount(s, i, j, j + 1);
          NeighbourAt(cell, i, j, height, width);
          if (i, j) == cell {
            continue;
          }
          if 0 <= i < height && 0 <= j < width {
            if board[i][j] {
              count := count + 1;
            }
          }
        }
        ScanRowEnd(s, cell, i, i + 1);
      }
      ScanEnd(s, cell);
      NeighboursAtMostEight(cell, height, width);
      CardSubset(s, Neighbours(cell, height, width));
    }

    /** The player has won when the flagged cells are exactly the mines. */
    predicate Won()
      reads this
    {
      minesFound == mines
    }
  }

  // ---------------------------------------------------------------------------
  // Sentences

  /** A logical statement: exactly `count` of `cells` are mines. */
  class Sentence {
    var cells: set<Cell>
    var count: int

    constructor(cells: set<Cell>, count: int)
      ensures this.cells == cells && this.count == count
    {
      this.cells, this.count := cells, count;
    }

    /** The sentence is true of the mine field m. */
    predicate Holds(m: set<Cell>)
      reads this
    {
      |cells * m| == count
    }

    /** Value equality: same cells, same count. Equal sentences say the same of every mine field. */
    predicate Equals(other: Sentence)
      reads this, other
      ensures this == other ==> Equals(other)
      ensures Equals(other) ==> forall m :: Holds(m) <==> other.Holds(m)
    {
      cells == other.cells && count == other.count
    }

    /** All cells are mines when there are as many cells as mines; otherwise nothing is known. */
    function KnownMines(): (r: set<Cell>)
      reads this
      ensures r == cells || r == {}
      ensures r == cells <==> |cells| == count || cells == {}
    {
      if |cells| == count then cells else {}
    }

    /** All cells are safe when the count is zero; otherwise nothing is known. */
    function KnownSafes(): (r: set<Cell>)
      reads this
      ensures r == cells || r == {}
      ensures r == cells <==> count == 0 || cells == {}
    {
      if count == 0 then cells else {}
    }

    /** A known mine leaves the sentence, and takes one from the count when it was there. */
    method MarkMine(cell: Cell)
      modifies this
      ensures cells == old(cells) - {cell}
      ensures count == if cell in old(cells) then old(count) - 1 else old(count)
    {
      if cell in cells {
        cells := cells - {cell};
        count := count - 1;
      }
    }

    /** A known safe cell leaves the sentence; the count stays. */
    method MarkSafe(cell: Cell)
      modifies this
      ensures cells == old(cells) - {cell}
      ensures count == old(count)
    {
      if cell in cells {
        cells := cells - {cell};
      }
    }
  }

  /** What a true sentence's known mines are: mines of the field. */
  lemma KnownMinesSound(s: Sentence, m: set<Cell>)
    requires s.Holds(m)
    ensures s.KnownMines() <= m
  {
    if |s.cells| == s.count {
      CardSubset(s.cells * m, s.cells);
    }
  }

  /** What a true sentence's known safes are: cells without a mine. */
  lemma KnownSafesSound(s: Sentence, m: set<Cell>)
    requires s.Holds(m)
    ensures s.KnownSafes() * m == {}
  {
    if s.count == 0 {
      assert s.cells * m == {};
    }
  }

  /** Removing a mine from a true sentence and lowering its count when it was there keeps the sentence true. */
  lemma MarkMineKeepsTruth(cells: set<Cell>, count: int, cell: Cell, m: set<Cell>)
    requires |cells * m| == count && cell in m
    ensures |(cells - {cell}) * m| == if cell in cells then count - 1 else count
  {
    if cell in cells {
      assert (cells - {cell}) * m == cells * m - {cell};
    } else {
      assert (cells - {cell}) * m == cells * m;
    }
  }

  /** Removing a safe cell from a true sentence keeps it true with the same count. */
  lemma MarkSafeKeepsTruth(cells: set<Cell>, count: int, cell: Cell, m: set<Cell>)
    requires |cells * m| == count && cell !in m
    ensures |(cells - {cell}) * m| == count
  {
    assert (cells - {cell}) * m == cells * m;
  }

  /** From a true a = x and a true b = y with a a subset of b, b - a = y - x follows and is true. */
  lemma SubsetInference(a: set<Cell>, x: int, b: set<Cell>, y: int, m: set<Cell>)
    requires a <= b && |a * m| == x && |b * m| == y
    ensures |(b - a) * m| == y - x
  {
    assert (b - a) * m == b * m - a * m;
    CardDiff(b * m, a * m);
  }

  // ---------------------------------------------------------------------------
  // Lists of sentences, compared by value as Python's `in` and `list.remove` do

  /** Some sentence of the list has these cells and this count. */
  predicate Has(list: seq<Sentence>, cells: set<Cell>, count: int)
    reads list
  {
    exists k :: 0 <= k < |list| && list[k].cells == cells && list[k].count == count
  }

  /** Every sentence of the list is true of the mine field m. */
  predicate AllHold(list: seq<Sentence>, m: set<Cell>)
    reads list
  {
    forall k :: 0 <= k < |list| ==> list[k].Holds(m)
  }

  /** The first position, at or after `from`, of a sentence with these cells and count. */
  function FirstEqual(list: seq<Sentence>, cells: set<Cell>, count: int, from: nat): (r: nat)
    reads list
    requires from <= |list|
    requires exists k :: from <= k < |list| && list[k].cells == cells && list[k].count == count
    ensures from <= r < |list| && list[r].cells == cells && list[r].count == count
    ensures forall k :: from <= k < r ==> !(list[k].cells == cells && list[k].count == count)
    decreases |list| - from
  {
    if list[from].cells == cells && list[from].count == count then from
    else FirstEqual(list, cells, count, from + 1)
  }

  /** The list without its entry at position r. */
  function Without(list: seq<Sentence>, r: nat): (t: seq<Sentence>)
    requires r < |list|
    ensures |t| == |list| - 1
    ensures forall k :: 0 <= k < |t| ==> t[k] == if k < r then list[k] else list[k + 1]
  {
    list[..r] + list[r + 1..]
  }

  /** `list.remove(s)`: the first sentence equal to s leaves the list. */
  function Remove(list: seq<Sentence>, s: Sentence): (t: seq<Sentence>)
    reads list, s
    requires Has(list, s.cells, s.count)
    ensures |t| == |list| - 1
    ensures forall x :: x in t ==> x in list
  {
    Without(list, FirstEqual(list, s.cells, s.count, 0))
  }

  /** Taking sentences out of a list of true sentences leaves a list of true sentences. */
  lemma SubListHolds(t: seq<Sentence>, list: seq<Sentence>, m: set<Cell>)
    requires forall x :: x in t ==> x in list
    requires AllHold(list, m)
    ensures AllHold(t, m)
  {
    forall k | 0 <= k < |t| ensures t[k].Holds(m) {
      assert t[k] in list;
    }
  }

  /**
   * The sentence a move contributes is true: its cells are the neighbours not
   * yet known to be safe, mined or played, and its count is the reported count
   * less the neighbours known to be mines.
   */
  lemma NewSentenceHolds(c: Cell, height: int, width: int, played: set<Cell>, mines: set<Cell>, safes: set<Cell>,
                         m: set<Cell>, count: int)
    requires mines <= m && safes * m == {} && played * m == {}
    requires count == |Neighbours(c, height, width) * m|
    ensures |Unknown(c, height, width, played, mines, safes) * m| == count - |Neighbours(c, height, width) * mines|
  {
    var nbrs := Neighbours(c, height, width);
    var unknown := Unknown(c, height, width, played, mines, safes);
    forall x | x in nbrs * m ensures x in unknown <==> x !in mines {
      assert x !in played * m && x !in safes * m;
    }
    assert unknown * m == nbrs * m - nbrs * mines;
    CardDiff(nbrs * m, nbrs * mines);
  }

  /** Joining two lists of true sentences gives a list of true sentences. */
  lemma AppendHolds(list: seq<Sentence>, extra: seq<Sentence>, m: set<Cell>)
    requires AllHold(list, m) && AllHold(extra, m)
    ensures AllHold(list + extra, m)
  {
    forall k | 0 <= k < |list + extra| ensures (list + extra)[k].Holds(m) {
      if k >= |list| {
        assert (list + extra)[k] == extra[k - |list|];
      }
    }
  }

  /** The neighbours of c that are not yet known to be played, mined or safe. */
  function Unknown(c: Cell, height: int, width: int, played: set<Cell>, mines: set<Cell>, safes: set<Cell>): set<Cell> {
    Neighbours(c, height, width) - played - mines - safes
  }

  /** Whether the cell at offset (di, dj) from c joins the new sentence, or lowers its count. */
  lemma UnknownAt(c: Cell, di: int, dj: int, height: int, width: int,
                  played: set<Cell>, mines: set<Cell>, safes: set<Cell>)
    requires -1 <= di <= 1 && -1 <= dj <= 1
    ensures var x := (c.0 + di, c.1 + dj);
            && (x in Unknown(c, height, width, played, mines, safes)
                <==> !(di == 0 && dj == 0) && InBounds(x, height, width) && x !in played && x !in mines && x !in safes)
            && (x in Neighbours(c, height, width) * mines
                <==> !(di == 0 && dj == 0) && InBounds(x, height, width) && x in mines)
  {
    NeighbourAtOffset(c, di, dj, height, width);
  }

  /** One step of the scan that builds a new sentence, visiting the cell at offset (di, dj) from c. */
  lemma SentenceStep(c: Cell, di: int, dj: int, height: int, width: int,
                     played: set<Cell>, mines: set<Cell>, safes: set<Cell>,
                     cells: set<Cell>, n: int, count: int)
    requires -1 <= di <= 1 && -1 <= dj <= 1
    requires cells == Scanned(Unknown(c, height, width, played, mines, safes), c.0 + di, c.1 + dj)
    requires n == count - |Scanned(Neighbours(c, height, width) * mines, c.0 + di, c.1 + dj)|
    ensures var x := (c.0 + di, c.1 + dj);
            var inside := !(di == 0 && dj == 0) && InBounds(x, height, width);
            var add := inside && x !in played && x !in mines && x !in safes;
            var lower := inside && !add && x in mines;
            && (if add then cells + {x} else cells)
               == Scanned(Unknown(c, height, width, played, mines, safes), c.0 + di, c.1 + (dj + 1))
            && (if lower then n - 1 else n)
               == count - |Scanned(Neighbours(c, height, width) * mines, c.0 + di, c.1 + (dj + 1))|
  {
    ScanNext(Unknown(c, height, width, played, mines, safes), c.0 + di, c.1 + dj, c.1 + (dj + 1));
    ScanNextCount(Neighbours(c, height, width) * mines, c.0 + di, c.1 + dj, c.1 + (dj + 1));
    UnknownAt(c, di, dj, height, width, played, mines, safes);
  }

  // ---------------------------------------------------------------------------
  // The AI

  class MinesweeperAI {
    const height: int
    const width: int
    var movesMade: set<Cell>
    var mines: set<Cell>
    var safes: set<Cell>
    var knowledge: seq<Sentence>

    constructor(height: int, width: int)
      ensures this.height == height && this.width == width
      ensures movesMade == {} && mines == {} && safes == {} && knowledge == []
    {
      this.height, this.width := height, width;
      movesMade, mines, safes, knowledge := {}, {}, {}, [];
    }

    /** The sentence objects the knowledge refers to. */
    function Sentences(): set<Sentence>
      reads this
    {
      set s | s in knowledge
    }

    /** Everything the AI holds agrees with the mine field m. */
    predicate Sound(m: set<Cell>)
      reads this, knowledge
    {
      && mines <= m
      && safes * m == {}
      && movesMade * m == {}
      && AllHold(knowledge, m)
    }

    /** The cell is a mine: record it, and take it out of every sentence. */
    method MarkMine(cell: Cell, ghost m: set<Cell>)
      modifies this, Sentences()
      ensures mines == old(mines) + {cell}
      ensures safes == old(safes) && movesMade == old(movesMade) && knowledge == old(knowledge)
      ensures forall s :: s in knowledge ==>
                && s.cells == old(s.cells) - {cell}
                && s.count == if cell in old(s.cells) then old(s.count) - 1 else old(s.count)
      ensures old(Sound(m)) && cell in m ==> Sound(m)
    {
      mines := mines + {cell};
      for k := 0 to |knowledge|
        invariant mines == old(mines) + {cell}
        invariant safes == old(safes) && movesMade == old(movesMade) && knowledge == old(knowledge)
        invariant forall s :: s in knowledge ==>
                    if s in knowledge[..k] then
                      && s.cells == old(s.cells) - {cell}
                      && s.count == if cell in old(s.cells) then old(s.count) - 1 else old(s.count)
                    else
                      s.cells == old(s.cells) && s.count == old(s.count)
      {
        knowledge[k].MarkMine(cell);
      }
      if old(Sound(m)) && cell in m {
        forall k | 0 <= k < |knowledge| ensures knowledge[k].Holds(m) {
          MarkMineKeepsTruth(old(knowledge[k].cells), old(knowledge[k].count), cell, m);
        }
      }
    }

    /** The cell is safe: record it, and take it out of every sentence. */
    method MarkSafe(cell: Cell, ghost m: set<Cell>)
      modifies this, Sentences()
      ensures safes == old(safes) + {cell}
      ensures mines == old(mines) && movesMade == old(movesMade) && knowledge == old(knowledge)
      ensures forall s :: s in knowledge ==> s.cells == old(s.cells) - {cell} && s.count == old(s.count)
      ensures old(Sound(m)) && cell !in m ==> Sound(m)
    {
      safes := safes + {cell};
      for k := 0 to |knowledge|
        invariant safes == old(safes) + {cell}
        invariant mines == old(mines) && movesMade == old(movesMade) && knowledge == old(knowledge)
        invariant forall s :: s in knowledge ==>
                    s.count == old(s.count) &&
                    if s in knowledge[..k] then s.cells == old(s.cells) - {cell} else s.cells == old(s.cells)
      {
        knowledge[k].MarkSafe(cell);
      }
      if old(Sound(m)) && cell !in m {
        forall k | 0 <= k < |knowledge| ensures knowledge[k].Holds(m) {
          MarkSafeKeepsTruth(old(knowledge[k].cells), old(knowledge[k].count), cell, m);
        }
      }
    }

    /** The cells and count of the sentence a move with `count` neighbouring mines contributes. */
    method NewSentence(cell: Cell, count: int) returns (cells: set<Cell>, n: int)
      ensures cells == Unknown(cell, height, width, movesMade, mines, safes)
      ensures n == count - |Neighbours(cell, height, width) * mines|
    {
      ghost var unknown := Unknown(cell, height, width, movesMade, mines, safes);
      ghost var mined := Neighbours(cell, height, width) * mines;
      ScanStart(unknown, cell);
      ScanStart(mined, cell);
      cells, n := {}, count;
      for di := -1 to 2
        invariant cells == Scanned(unknown, cell.0 + di, cell.1 - 1)
        invariant n == count - |Scanned(mined, cell.0 + di, cell.1 - 1)|
      {
        for dj := -1 to 2
          invariant cells == Scanned(unknown, cell.0 + di, cell.1 + dj)
          invariant n == count - |Scanned(mined, cell.0 + di, cell.1 + dj)|
        {
          SentenceStep(cell, di, dj, height, width, movesMade, mines, safes, cells, n, count);
          if di == 0 && dj == 0 {
            continue;
          }
          var newCell := (cell.0 + di, cell.1 + dj);
          if 0 <= cell.0 + di < height && 0 <= cell.1 + dj < width {
            if newCell !in movesMade && newCell !in mines && newCell !in safes {
              cells := cells + {newCell};
            } else if newCell in mines {
              n := n - 1;
            }
          }
        }
        ScanRowEnd(unknown, cell, cell.0 + di, cell.0 + (di + 1));
        ScanRowEnd(mined, cell, cell.0 + di, cell.0 + (di + 1));
      }
      ScanEnd(unknown, cell);
      ScanEnd(mined, cell);
    }

    /** A new sentence joins the knowledge unless an equal one is already there. */
    method Learn(s: Sentence)
      modifies this
      ensures knowledge == if Has(old(knowledge), s.cells, s.count) then old(knowledge) else old(knowledge) + [s]
      ensures mines == old(mines) && safes == old(safes) && movesMade == old(movesMade)
    {
      if !Has(knowledge, s.cells, s.count) {
        knowledge := knowledge + [s];
      }
    }

    /**
     * add_knowledge: the game reports that `cell` is safe and has `count`
     * neighbouring mines. The cell is recorded as played and safe, the sentence
     * it contributes joins the knowledge, and at most `fuel` rounds of
     * inference follow. When the AI was sound and the report is true of the
     * mine field m, the AI stays sound.
     */
    method AddKnowledge(cell: Cell, count: int, fuel: nat, ghost m: set<Cell>)
      modifies this, Sentences()
      ensures cell in movesMade && cell in safes
      ensures old(movesMade) <= movesMade && old(mines) <= mines && old(safes) <= safes
      ensures old(Sound(m)) && cell !in m && count == |Neighbours(cell, height, width) * m| ==> Sound(m)
    {
      ghost var truthful := Sound(m) && cell !in m && count == |Neighbours(cell, height, width) * m|;
      movesMade := movesMade + {cell};
      assert truthful ==> Sound(m);
      MarkSafe(cell, m);
      var cells, n := NewSentence(cell, count);
      if truthful {
        NewSentenceHolds(cell, height, width, movesMade, mines, safes, m, count);
      }
      var s := new Sentence(cells, n);
      assert truthful ==> AllHold([s], m);
      ghost var before := knowledge;
      Learn(s);
      if truthful {
        AppendHolds(before, [s], m);
      }
      Infer(fuel, m);
    }

    /**
     * The inference loop: rounds run while the last one changed something,
     * and at most `fuel` of them.
     */
    method Infer(fuel: nat, ghost m: set<Cell>)
      modifies this, Sentences()
      ensures movesMade == old(movesMade) && old(mines) <= mines && old(safes) <= safes
      ensures old(Sound(m)) ==> Sound(m)
    {
      var changed := true;
      var rounds := 0;
      while changed && rounds < fuel
        invariant movesMade == old(movesMade) && old(mines) <= mines && old(safes) <= safes
        invariant old(Sound(m)) ==> Sound(m)
        invariant forall s :: s in knowledge ==> s in old(knowledge) || fresh(s)
        decreases fuel - rounds
      {
        changed := InferenceRound(m);
        rounds := rounds + 1;
      }
    }

    /** One round of the inference loop; says whether it marked, dropped or inferred anything. */
    method InferenceRound(ghost m: set<Cell>) returns (changed: bool)
      modifies this, Sentences()
      ensures movesMade == old(movesMade) && old(mines) <= mines && old(safes) <= safes
      ensures old(Sound(m)) ==> Sound(m)
      ensures forall s :: s in knowledge ==> s in old(knowledge) || fresh(s)
    {
      var marked, removed := MarkKnown(m);
      var inferred, added := InferSubsets(removed, m);
      DropRemoved(removed);
      if old(Sound(m)) {
        SubListHolds(knowledge, old(knowledge), m);
        AppendHolds(knowledge, added, m);
      }
      knowledge := knowledge + added;
      changed := marked || inferred;
    }

    /**
     * The first pass of a round: every sentence's known mines and known safes
     * are marked, and the sentences left without cells are collected.
     */
    method MarkKnown(ghost m: set<Cell>) returns (changed: bool, removed: seq<Sentence>)
      modifies this, Sentences()
      ensures movesMade == old(movesMade) && old(mines) <= mines && old(safes) <= safes
      ensures knowledge == old(knowledge)
      ensures old(Sound(m)) ==> Sound(m)
    {
      changed, removed := false, [];
      for k := 0 to |knowledge|
        invariant movesMade == old(movesMade) && old(mines) <= mines && old(safes) <= safes
        invariant knowledge == old(knowledge)
        invariant old(Sound(m)) ==> Sound(m)
      {
        var s := knowledge[k];
        var known := s.KnownMines();
        if known != {} {
          if old(Sound(m)) {
            KnownMinesSound(s, m);
          }
          var rest := known;
          while rest != {}
            invariant movesMade == old(movesMade) && old(mines) <= mines && old(safes) <= safes
            invariant knowledge == old(knowledge)
            invariant old(Sound(m)) ==> Sound(m) && rest <= m
            decreases rest
          {
            var mine :| mine in rest;
            MarkMine(mine, m);
            changed := true;
            rest := rest - {mine};
          }
        }
        var safe := s.KnownSafes();
        if safe != {} {
          if old(Sound(m)) {
            KnownSafesSound(s, m);
          }
          var rest := safe;
          while rest != {}
            invariant movesMade == old(movesMade) && old(mines) <= mines && old(safes) <= safes
            invariant knowledge == old(knowledge)
            invariant old(Sound(m)) ==> Sound(m) && rest * m == {}
            decreases rest
          {
            var cell :| cell in rest;
            MarkSafe(cell, m);
            changed := true;
            rest := rest - {cell};
          }
        }
        if |s.cells| == 0 && !Has(removed, s.cells, s.count) {
          removed := removed + [s];
          changed := true;
        }
      }
    }

    /**
     * The second pass of a round, over every ordered pair of entries of the
     * knowledge as Python iterates a list that shrinks under it: a duplicate
     * of the first sentence is removed, and from a = x inside b = y the
     * sentence b - a = y - x is collected when it is new.
     */
    method InferSubsets(removed: seq<Sentence>, ghost m: set<Cell>) returns (changed: bool, added: seq<Sentence>)
      modifies this
      ensures movesMade == old(movesMade) && mines == old(mines) && safes == old(safes)
      ensures forall s :: s in knowledge ==> s in old(knowledge)
      ensures forall s :: s in added ==> fresh(s)
      ensures old(AllHold(knowledge, m)) ==> AllHold(added, m)
    {
      ghost var truthful := AllHold(knowledge, m);
      changed, added := false, [];
      var p := 0;
      while p < |knowledge|
        invariant movesMade == old(movesMade) && mines == old(mines) && safes == old(safes)
        invariant forall s :: s in knowledge ==> s in old(knowledge)
        invariant forall s :: s in added ==> fresh(s)
        invariant truthful ==> AllHold(knowledge, m)
        invariant truthful ==> AllHold(added, m)
        decreases |knowledge| - p
      {
        var s1 := knowledge[p];
        if truthful {
          assert s1.Holds(m);
        }
        ghost var before := knowledge;
        var more, extra := PairWith(s1, removed, m);
        assert forall s :: s in knowledge ==> s in before;
        if truthful {
          AppendHolds(added, extra, m);
        }
        changed := changed || more;
        added := added + extra;
        p := p + 1;
      }
    }

    /**
     * The inner loop of the second pass: the first sentence s1 of the pair
     * against every entry of the knowledge.
     */
    method PairWith(s1: Sentence, removed: seq<Sentence>, ghost m: set<Cell>) returns (changed: bool, added: seq<Sentence>)
      modifies this
      ensures movesMade == old(movesMade) && mines == old(mines) && safes == old(safes)
      ensures |knowledge| <= old(|knowledge|)
      ensures forall s :: s in knowledge ==> s in old(knowledge)
      ensures forall s :: s in added ==> fresh(s)
      ensures old(AllHold(knowledge, m)) && s1.Holds(m) ==> AllHold(knowledge, m) && AllHold(added, m)
    {
      ghost var truthful := AllHold(knowledge, m) && s1.Holds(m);
      changed, added := false, [];
      var q := 0;
      while q < |knowledge|
        invariant movesMade == old(movesMade) && mines == old(mines) && safes == old(safes)
        invariant |knowledge| <= old(|knowledge|)
        invariant forall s :: s in knowledge ==> s in old(knowledge)
        invariant forall s :: s in added ==> fresh(s)
        invariant truthful ==> AllHold(knowledge, m)
        invariant truthful ==> AllHold(added, m)
        decreases |knowledge| - q
      {
        var s2 := knowledge[q];
        if truthful {
          assert s2.Holds(m);
        }
        if s1 == s2 {
          q := q + 1;
          continue;
        }
        if s1.Equals(s2) {
          assert Has(knowledge, s2.cells, s2.count);
          var t := Remove(knowledge, s2);
          if truthful {
            SubListHolds(t, knowledge, m);
          }
          knowledge := t;
        }
        if Has(removed, s1.cells, s1.count) || Has(removed, s2.cells, s2.count) {
          q := q + 1;
          continue;
        }
        var derived := Derive(s1, s2, m);
        if derived.Some? {
          if truthful {
            AppendHolds(added, [derived.value], m);
          }
          added := added + [derived.value];
          changed := true;
        }
        q := q + 1;
      }
    }

    /**
     * The subset rule on one pair: from s1 = x with its cells inside those
     * of s2 = y, a fresh sentence s2 - s1 = y - x, unless an equal one is
     * already in the knowledge.
     */
    method Derive(s1: Sentence, s2: Sentence, ghost m: set<Cell>) returns (d: Option<Sentence>)
      ensures d.Some? <==> s1.cells <= s2.cells && !Has(knowledge, s2.cells - s1.cells, s2.count - s1.count)
      ensures d.Some? ==> fresh(d.value) && d.value.cells == s2.cells - s1.cells && d.value.count == s2.count - s1.count
      ensures d.Some? && s1.Holds(m) && s2.Holds(m) ==> AllHold([d.value], m)
    {
      d := None;
      if s1.cells <= s2.cells {
        var cells, n := s2.cells - s1.cells, s2.count - s1.count;
        if !Has(knowledge, cells, n) {
          var s := new Sentence(cells, n);
          if s1.Holds(m) && s2.Holds(m) {
            SubsetInference(s1.cells, s1.count, s2.cells, s2.count, m);
          }
          d := Some(s);
        }
      }
    }

    /** The third pass of a round: each collected sentence leaves the knowledge if an equal one is in it. */
    method DropRemoved(removed: seq<Sentence>)
      modifies this
      ensures movesMade == old(movesMade) && mines == old(mines) && safes == old(safes)
      ensures forall s :: s in knowledge ==> s in old(knowledge)
    {
      for k := 0 to |removed|
        invariant movesMade == old(movesMade) && mines == old(mines) && safes == old(safes)
        invariant forall s :: s in knowledge ==> s in old(knowledge)
      {
        var s := removed[k];
        if Has(knowledge, s.cells, s.count) {
          knowledge := Remove(knowledge, s);
        }
      }
    }

    /** A safe cell to play that has not been played yet, if the AI knows one. */
    method MakeSafeMove() returns (r: Option<Cell>)
      ensures r.Some? ==> r.value in safes && r.value !in movesMade
      ensures r.None? <==> safes <= movesMade
    {
      var rest := safes;
      while rest != {}
        invariant rest <= safes
        invariant forall c :: c in safes && c !in rest ==> c in movesMade
        decreases rest
      {
        var c :| c in rest;
        if c !in movesMade {
          return Some(c);
        }
        rest := rest - {c};
      }
      return None;
    }
  }
}
