/**
 * The Minesweeper board and the propositional knowledge base of the
 * Minesweeper player in week-1/minesweeper/minesweeper.py.
 *
 * A sentence is a set of cells together with the number of mines among them.
 * `Sentence` and `MinesweeperAI` update their fields in place, so they are
 * classes here.  The logical reading of a sentence is given by a value of
 * type `Fact` and the predicate `HoldsIn`: the count is the number of real
 * mines among the cells.  The real mine layout is a ghost parameter `truth`
 * wherever soundness is stated; the player itself never sees it.
 */
module Minesweeper {
  import opened Wrappers
  import Sets

  type Cell = (int, int)

  /** The cells of a `height` by `width` board. */
  function BoardCells(height: int, width: int): set<Cell>
  {
    set i, j | 0 <= i < height && 0 <= j < width :: (i, j)
  }

  /** The in-bounds cells within one row and one column of `cell`, without `cell` itself. */
  function Neighborhood(cell: Cell, height: int, width: int): set<Cell>
  {
    set i, j | cell.0 - 1 <= i <= cell.0 + 1 && cell.1 - 1 <= j <= cell.1 + 1
               && (i, j) != cell && 0 <= i < height && 0 <= j < width :: (i, j)
  }

  /** A cell has at most eight neighbours, all on the board, none of them itself. */
  lemma NeighborhoodShape(cell: Cell, height: int, width: int)
    ensures cell !in Neighborhood(cell, height, width)
    ensures Neighborhood(cell, height, width) <= BoardCells(height, width)
    ensures |Neighborhood(cell, height, width)| <= 8
  {
    var (a, b) := cell;
    var around := {(a - 1, b - 1), (a - 1, b), (a - 1, b + 1), (a, b - 1),
                   (a, b + 1), (a + 1, b - 1), (a + 1, b), (a + 1, b + 1)};
    assert Neighborhood(cell, height, width) <= around;
    Sets.SubsetCardinality(Neighborhood(cell, height, width), around);
    assert |around| <= 8;
  }

  /**
   * The cells of `s` that a row-by-row scan has passed before reaching (i, j):
   * the loops of `nearby_mines` and `get_neighbors` visit cells in this order.
   */
  ghost function Scanned(s: set<Cell>, i: int, j: int): set<Cell>
  {
    set c | c in s && (c.0 < i || (c.0 == i && c.1 < j))
  }

  lemma ScannedStep(s: set<Cell>, i: int, j: int)
    ensures Scanned(s, i, j + 1) == Scanned(s, i, j) + if (i, j) in s then {(i, j)} else {}
  {
  }

  /** In a neighbourhood, the end of one row of the window is the start of the next. */
  lemma ScannedNextRow(s: set<Cell>, cell: Cell, height: int, width: int, i: int)
    requires s <= Neighborhood(cell, height, width)
    ensures Scanned(s, i, cell.1 + 2) == Scanned(s, i + 1, cell.1 - 1)
  {
  }

  /** After the last row of the window the scan has passed the whole neighbourhood. */
  lemma ScannedAll(s: set<Cell>, cell: Cell, height: int, width: int)
    requires s <= Neighborhood(cell, height, width)
    ensures Scanned(s, cell.0 + 2, cell.1 - 1) == s
  {
  }

  // ---------------------------------------------------------------------
  // The game board
  // ---------------------------------------------------------------------

  /**
   * `Minesweeper`: the board of mines and the mines the player has found.
   * The layout is a constructor argument; the random placement is not modelled.
   */
  class Minesweeper {
    const height: nat
    const width: nat
    const board: seq<seq<bool>>
    const mines: set<Cell>
    var minesFound: set<Cell>

    ghost predicate Valid()
    {
      && |board| == height
      && (forall i :: 0 <= i < height ==> |board[i]| == width)
      && mines == set i, j | 0 <= i < height && 0 <= j < width && board[i][j] :: (i, j)
    }

    constructor (height: nat, width: nat, layout: seq<seq<bool>>)
      requires |layout| == height && forall i :: 0 <= i < height ==> |layout[i]| == width
      ensures Valid()
      ensures this.height == height && this.width == width && board == layout
      ensures minesFound == {}
    {
      this.height := height;
      this.width := width;
      board := layout;
      mines := set i, j | 0 <= i < height && 0 <= j < width && layout[i][j] :: (i, j);
      minesFound := {};
    }

    /** `is_mine`. */
    function IsMine(cell: Cell): (r: bool)
      requires Valid() && 0 <= cell.0 < height && 0 <= cell.1 < width
      ensures r <==> cell in mines
    {
      board[cell.0][cell.1]
    }

    /** `nearby_mines`: the number of mines among the neighbours of `cell`. */
    method NearbyMines(cell: Cell) returns (count: nat)
      requires Valid()
      ensures count == |Neighborhood(cell, height, width) * mines|
      ensures count <= 8
    {
      ghost var nearby := Neighborhood(cell, height, width) * mines;
      count := 0;
      ghost var found: set<Cell> := {};
      for i := cell.0 - 1 to cell.0 + 2
        invariant found == Scanned(nearby, i, cell.1 - 1)
        invariant count == |found|
      {
        for j := cell.1 - 1 to cell.1 + 2
          invariant found == Scanned(nearby, i, j)
          invariant count == |found|
        {
          ScannedStep(nearby, i, j);
          NearbyMember(cell, i, j);
          if (i, j) == cell {
            continue;
          }
          if 0 <= i < height && 0 <= j < width {
            if board[i][j] {
              found := found + {(i, j)};
              count := count + 1;
            }
          }
        }
        ScannedNextRow(nearby, cell, height, width, i);
      }
      ScannedAll(nearby, cell, height, width);
      NeighborhoodShape(cell, height, width);
      Sets.SubsetCardinality(found, Neighborhood(cell, height, width));
    }

    /** Which cell of the window around `cell` is a neighbouring mine. */
    lemma NearbyMember(cell: Cell, i: int, j: int)
      requires Valid() && cell.0 - 1 <= i <= cell.0 + 1 && cell.1 - 1 <= j <= cell.1 + 1
      ensures (i, j) in Neighborhood(cell, height, width) * mines <==>
              (i, j) != cell && 0 <= i < height && 0 <= j < width && board[i][j]
    {
      if (i, j) != cell && 0 <= i < height && 0 <= j < width && board[i][j] {
        assert (i, j) in Neighborhood(cell, height, width);
      }
    }

    /** `won`: every mine has been flagged, and nothing else. */
    predicate Won(): (won: bool)
      reads this
      ensures Valid() ==>
                (won <==> (forall c :: c in minesFound ==> 0 <= c.0 < height && 0 <= c.1 < width) &&
                          forall i, j :: 0 <= i < height && 0 <= j < width ==> ((i, j) in minesFound <==> board[i][j]))
    {
      minesFound == mines
    }

  }

  // ---------------------------------------------------------------------
  // Sentences
  // ---------------------------------------------------------------------

  /** The value of a sentence. */
  datatype Fact = Fact(cells: set<Cell>, count: int)

  /** The sentence is true of the mine layout `truth`. */
  ghost predicate HoldsIn(f: Fact, truth: set<Cell>)
  {
    f.count == |f.cells * truth|
  }

  /** A sentence after learning that `c` is a mine. */
  function MineMarked(f: Fact, c: Cell): (g: Fact)
    ensures g.cells == f.cells - {c}
    ensures c in f.cells ==> g.count == f.count - 1
    ensures c !in f.cells ==> g == f
  {
    if c in f.cells then Fact(f.cells - {c}, f.count - 1) else f
  }

  /** A sentence after learning that `c` is safe. */
  function SafeMarked(f: Fact, c: Cell): (g: Fact)
    ensures g.cells == f.cells - {c} && g.count == f.count
  {
    Fact(f.cells - {c}, f.count)
  }

  /** Removing a real mine, with its share of the count, keeps a true sentence true. */
  lemma MineMarkedKeepsTruth(f: Fact, c: Cell, truth: set<Cell>)
    requires HoldsIn(f, truth) && c in truth
    ensures HoldsIn(MineMarked(f, c), truth)
  {
    if c in f.cells {
      assert (f.cells - {c}) * truth == f.cells * truth - {c};
    }
  }

  /** Removing a safe cell keeps a true sentence true. */
  lemma SafeMarkedKeepsTruth(f: Fact, c: Cell, truth: set<Cell>)
    requires HoldsIn(f, truth) && c !in truth
    ensures HoldsIn(SafeMarked(f, c), truth)
  {
    assert (f.cells - {c}) * truth == f.cells * truth;
  }

  /** The sentence `superset.cells - subset.cells = superset.count - subset.count` of the subset rule. */
  function Difference(subset: Fact, superset: Fact): (d: Fact)
    requires subset.cells <= superset.cells
  {
    Fact(superset.cells - subset.cells, superset.count - subset.count)
  }

  /** The subset rule is sound: if both sentences are true, so is their difference. */
  lemma DifferenceKeepsTruth(subset: Fact, superset: Fact, truth: set<Cell>)
    requires subset.cells <= superset.cells
    requires HoldsIn(subset, truth) && HoldsIn(superset, truth)
    ensures HoldsIn(Difference(subset, superset), truth)
  {
    var d := superset.cells - subset.cells;
    assert superset.cells * truth == (subset.cells * truth) + (d * truth);
    assert (subset.cells * truth) * (d * truth) == {};
  }

  /** `Sentence`: a set of cells and the number of mines among them. */
  class Sentence {
    var cells: set<Cell>
    var count: int

    constructor (cells: set<Cell>, count: int)
      ensures this.cells == cells && this.count == count
    {
      this.cells := cells;
      this.count := count;
    }

    ghost function Value(): Fact
      reads this
    {
      Fact(cells, count)
    }

    /** `__eq__`: two sentences are equal when their cells and counts are. */
    predicate Equals(other: Sentence): (equal: bool)
      reads this, other
      ensures equal <==> Value() == other.Value()
    {
      cells == other.cells && count == other.count
    }

    /** `known_mines`: all the cells when there are as many mines as cells, otherwise none. */
    function KnownMines(): (r: set<Cell>)
      reads this
      ensures r <= cells
      ensures |cells| == count ==> r == cells
      ensures |cells| != count ==> r == {}
    {
      if |cells| == count then cells else {}
    }

    /** `known_safes`: all the cells when the count is zero, otherwise none. */
    function KnownSafes(): (r: set<Cell>)
      reads this
      ensures r <= cells
      ensures count == 0 ==> r == cells
      ensures count != 0 ==> r == {}
    {
      if count == 0 then cells else {}
    }

    /** `mark_mine`: drop `cell` and one from the count, if `cell` is one of the cells. */
    method MarkMine(cell: Cell)
      modifies this
      ensures Value() == MineMarked(old(Value()), cell)
    {
      if cell in cells {
        cells := cells - {cell};
        count := count - 1;
      }
    }

    /** `mark_safe`: drop `cell`; the count stays. */
    method MarkSafe(cell: Cell)
      modifies this
      ensures Value() == SafeMarked(old(Value()), cell)
    {
      if cell in cells {
        cells := cells - {cell};
      }
    }
  }

  /** A true sentence with no mines has only safe cells; one with as many mines as cells has only mines. */
  lemma SettledByCount(f: Fact, truth: set<Cell>)
    requires HoldsIn(f, truth)
    ensures f.count == 0 ==> f.cells !! truth
    ensures f.count == |f.cells| ==> f.cells <= truth
  {
    if f.count == |f.cells| {
      Sets.SubsetCardinality(f.cells * truth, f.cells);
      assert f.cells * truth == f.cells;
    }
    if f.count == 0 {
      forall c | c in f.cells
        ensures c !in truth
      {
        assert c !in f.cells * truth;
      }
    }
  }

  /** The cells `known_mines` reports of a true sentence are real mines. */
  lemma KnownMinesAreMines(s: Sentence, truth: set<Cell>)
    requires HoldsIn(s.Value(), truth)
    ensures s.KnownMines() <= truth
  {
    if |s.cells| == s.count {
      Sets.SubsetCardinality(s.cells * truth, s.cells);
      assert s.cells * truth == s.cells;
    }
  }

  /** The cells `known_safes` reports of a true sentence hold no mine. */
  lemma KnownSafesAreSafe(s: Sentence, truth: set<Cell>)
    requires HoldsIn(s.Value(), truth)
    ensures s.KnownSafes() !! truth
  {
    if s.count == 0 {
      assert s.cells * truth == {};
      forall c | c in s.cells
        ensures c !in truth
      {
        assert c !in s.cells * truth;
      }
    }
  }

  // ---------------------------------------------------------------------
  // The knowledge base, as values
  // ---------------------------------------------------------------------

  /** The values of a list of sentences, in order. */
  ghost function ValuesOf(ks: seq<Sentence>): (fs: seq<Fact>)
    reads ks
    ensures |fs| == |ks|
    ensures forall k :: 0 <= k < |ks| ==> fs[k] == ks[k].Value()
  {
    seq(|ks|, k requires 0 <= k < |ks| reads ks => ks[k].Value())
  }

  /** Every sentence is true of `truth`. */
  ghost predicate AllHold(fs: seq<Fact>, truth: set<Cell>)
  {
    forall f :: f in fs ==> HoldsIn(f, truth)
  }

  /**
   * The shape the player keeps its knowledge in: no sentence mentions a cell
   * already known to be a mine or safe, and every sentence is about board cells.
   */
  ghost predicate Tidy(fs: seq<Fact>, mines: set<Cell>, safes: set<Cell>, height: int, width: int)
  {
    forall f :: f in fs ==> f.cells !! mines && f.cells !! safes && f.cells <= BoardCells(height, width)
  }

  /** Every sentence after learning that `c` is a mine. */
  function MineMarkedAll(fs: seq<Fact>, c: Cell): seq<Fact>
  {
    seq(|fs|, k requires 0 <= k < |fs| => MineMarked(fs[k], c))
  }

  /** Every sentence after learning that `c` is safe. */
  function SafeMarkedAll(fs: seq<Fact>, c: Cell): seq<Fact>
  {
    seq(|fs|, k requires 0 <= k < |fs| => SafeMarked(fs[k], c))
  }

  /** Marking a real mine keeps true knowledge true, and tidy once `c` is among the mines. */
  lemma MineMarkedAllKeeps(fs: seq<Fact>, c: Cell, mines: set<Cell>, safes: set<Cell>, height: int, width: int, truth: set<Cell>)
    requires c in truth && c !in safes
    ensures AllHold(fs, truth) ==> AllHold(MineMarkedAll(fs, c), truth)
    ensures Tidy(fs, mines, safes, height, width) ==> Tidy(MineMarkedAll(fs, c), mines + {c}, safes, height, width)
    ensures forall f :: f in MineMarkedAll(fs, c) ==> c !in f.cells
  {
    var gs := MineMarkedAll(fs, c);
    forall g | g in gs
      ensures exists f :: f in fs && g == MineMarked(f, c)
    {
      var k :| 0 <= k < |gs| && gs[k] == g;
      assert fs[k] in fs;
    }
    if AllHold(fs, truth) {
      forall f | f in fs
        ensures HoldsIn(MineMarked(f, c), truth)
      {
        MineMarkedKeepsTruth(f, c, truth);
      }
    }
  }

  /** Marking a safe cell keeps true knowledge true, and tidy once `c` is among the safes. */
  lemma SafeMarkedAllKeeps(fs: seq<Fact>, c: Cell, mines: set<Cell>, safes: set<Cell>, height: int, width: int, truth: set<Cell>)
    requires c !in truth && c !in mines
    ensures AllHold(fs, truth) ==> AllHold(SafeMarkedAll(fs, c), truth)
    ensures Tidy(fs, mines, safes, height, width) ==> Tidy(SafeMarkedAll(fs, c), mines, safes + {c}, height, width)
    ensures forall f :: f in SafeMarkedAll(fs, c) ==> c !in f.cells
  {
    var gs := SafeMarkedAll(fs, c);
    forall g | g in gs
      ensures exists f :: f in fs && g == SafeMarked(f, c)
    {
      var k :| 0 <= k < |gs| && gs[k] == g;
      assert fs[k] in fs;
    }
    if AllHold(fs, truth) {
      forall f | f in fs
        ensures HoldsIn(SafeMarked(f, c), truth)
      {
        SafeMarkedKeepsTruth(f, c, truth);
      }
    }
  }

  /** Knowledge with fewer sentences keeps every property stated about each sentence. */
  lemma SubKnowledge(fs: seq<Fact>, gs: seq<Fact>, mines: set<Cell>, safes: set<Cell>, height: int, width: int, truth: set<Cell>)
    requires forall f :: f in fs ==> f in gs
    ensures AllHold(gs, truth) ==> AllHold(fs, truth)
    ensures Tidy(gs, mines, safes, height, width) ==> Tidy(fs, mines, safes, height, width)
  {
  }

  lemma ValuesOfAppend(ks: seq<Sentence>, s: Sentence)
    ensures ValuesOf(ks + [s]) == ValuesOf(ks) + [s.Value()]
  {
  }

  lemma ValuesOfConcat(a: seq<Sentence>, b: seq<Sentence>)
    ensures ValuesOf(a + b) == ValuesOf(a) + ValuesOf(b)
  {
  }

  /** The sentences a list keeps: those with at least one cell, in their order. */
  ghost function NonEmpty(ks: seq<Sentence>): (r: seq<Sentence>)
    reads ks
    ensures forall k :: 0 <= k < |r| ==> r[k] in ks && r[k].cells != {}
    ensures forall k :: 0 <= k < |ks| && ks[k].cells != {} ==> ks[k] in r
    ensures |r| <= |ks|
    decreases |ks|
  {
    if ks == [] then []
    else
      var rest := NonEmpty(ks[..|ks| - 1]);
      assert forall k :: 0 <= k < |ks| - 1 ==> ks[k] == ks[..|ks| - 1][k];
      if ks[|ks| - 1].cells != {} then rest + [ks[|ks| - 1]] else rest
  }

  /** The sentences `remove_empty_sentences` keeps, as values: those with at least one cell, in their order. */
  function Kept(fs: seq<Fact>): (r: seq<Fact>)
    ensures forall f :: f in r <==> f in fs && f.cells != {}
    decreases |fs|
  {
    if fs == [] then []
    else
      var front := fs[..|fs| - 1];
      assert forall f :: f in fs <==> f in front || f == fs[|fs| - 1];
      if fs[|fs| - 1].cells != {} then Kept(front) + [fs[|fs| - 1]] else Kept(front)
  }

  lemma {:induction false} ValuesOfNonEmpty(ks: seq<Sentence>)
    ensures ValuesOf(NonEmpty(ks)) == Kept(ValuesOf(ks))
    decreases |ks|
  {
    if ks != [] {
      var front := ks[..|ks| - 1];
      ValuesOfNonEmpty(front);
      assert ValuesOf(ks)[..|ks| - 1] == ValuesOf(front);
      ValuesOfAppend(NonEmpty(front), ks[|ks| - 1]);
    }
  }

  /** A sentence after learning that the cells `ms` are mines and the cells `ss` are safe. */
  function Reduce(f: Fact, ms: set<Cell>, ss: set<Cell>): Fact
  {
    Fact(f.cells - ms - ss, f.count - |f.cells * ms|)
  }

  /** Every sentence after learning that the cells `ms` are mines and the cells `ss` are safe. */
  function Reduced(fs: seq<Fact>, ms: set<Cell>, ss: set<Cell>): seq<Fact>
  {
    seq(|fs|, k requires 0 <= k < |fs| => Reduce(fs[k], ms, ss))
  }

  /** Learning new mines and safe cells after earlier ones is learning all of them at once. */
  lemma ReduceTwice(f: Fact, ms: set<Cell>, ss: set<Cell>, ms': set<Cell>, ss': set<Cell>)
    requires ms' !! ms && ms' !! ss
    ensures Reduce(Reduce(f, ms, ss), ms', ss') == Reduce(f, ms + ms', ss + ss')
  {
    var c := f.cells;
    assert (c - ms - ss) * ms' == c * ms';
    assert c * (ms + ms') == c * ms + c * ms';
    assert (c * ms) !! (c * ms');
  }

  lemma ReducedTwice(fs: seq<Fact>, ms: set<Cell>, ss: set<Cell>, ms': set<Cell>, ss': set<Cell>)
    requires ms' !! ms && ms' !! ss
    ensures Reduced(Reduced(fs, ms, ss), ms', ss') == Reduced(fs, ms + ms', ss + ss')
  {
    forall k | 0 <= k < |fs|
      ensures Reduced(Reduced(fs, ms, ss), ms', ss')[k] == Reduced(fs, ms + ms', ss + ss')[k]
    {
      ReduceTwice(fs[k], ms, ss, ms', ss');
    }
  }

  /** Sentences that mention no cell of `ms` or `ss` are untouched by learning about them. */
  lemma ReducedUntouched(fs: seq<Fact>, ms: set<Cell>, ss: set<Cell>)
    requires forall f :: f in fs ==> f.cells !! ms && f.cells !! ss
    ensures Reduced(fs, ms, ss) == fs
  {
    forall k | 0 <= k < |fs|
      ensures Reduced(fs, ms, ss)[k] == fs[k]
    {
      assert fs[k] in fs;
      assert fs[k].cells * ms == {};
    }
  }

  /** `mark_mine` on every sentence learns one mine. */
  lemma MineMarkedAllReduced(fs: seq<Fact>, c: Cell)
    ensures MineMarkedAll(fs, c) == Reduced(fs, {c}, {})
  {
    forall k | 0 <= k < |fs|
      ensures MineMarkedAll(fs, c)[k] == Reduced(fs, {c}, {})[k]
    {
      if c in fs[k].cells {
        assert fs[k].cells * {c} == {c};
      } else {
        assert fs[k].cells * {c} == {};
      }
    }
  }

  /** `mark_safe` on every sentence learns one safe cell. */
  lemma SafeMarkedAllReduced(fs: seq<Fact>, c: Cell)
    ensures SafeMarkedAll(fs, c) == Reduced(fs, {}, {c})
  {
    forall k | 0 <= k < |fs|
      ensures SafeMarkedAll(fs, c)[k] == Reduced(fs, {}, {c})[k]
    {
      assert fs[k].cells * {} == {};
    }
  }

  /**
   * What a true sentence still shows after some real mines `ms` and safe
   * cells `ss` are learnt: with no mines, its count stays zero and its
   * cells are safe or still in it; with only mines, it still has as many
   * mines as cells, and its cells are mines or still in it.
   */
  lemma ReduceSettled(f: Fact, ms: set<Cell>, ss: set<Cell>, truth: set<Cell>)
    requires HoldsIn(f, truth) && ms <= truth && ss !! truth
    ensures f.count == 0 ==> Reduce(f, ms, ss).count == 0 && f.cells <= Reduce(f, ms, ss).cells + ss
    ensures f.count == |f.cells| ==>
              Reduce(f, ms, ss).count == |Reduce(f, ms, ss).cells| && f.cells <= Reduce(f, ms, ss).cells + ms
  {
    SettledByCount(f, truth);
    if f.count == 0 {
      assert f.cells * ms == {};
    }
    if f.count == |f.cells| {
      assert f.cells - ms - ss == f.cells - ms;
      assert f.cells == (f.cells - ms) + (f.cells * ms);
      assert (f.cells - ms) !! (f.cells * ms);
    }
  }

  /**
   * Marking the cells `known_safes` gives for the `k`-th sentence, once the
   * mines `ms` and safe cells `ss` are learnt, makes safe every cell of the
   * original sentence if it showed no mines.
   */
  lemma SafesSettled(fs: seq<Fact>, k: int, ms: set<Cell>, ss: set<Cell>, known: set<Cell>, truth: set<Cell>)
    requires 0 <= k < |fs| && AllHold(fs, truth) && ms <= truth && ss !! truth
    requires var g := Reduce(fs[k], ms, ss); known == if g.count == 0 then g.cells else {}
    ensures Reduced(Reduced(fs, ms, ss), {}, known) == Reduced(fs, ms, ss + known)
    ensures fs[k].count == 0 ==> fs[k].cells <= ss + known
  {
    assert fs[k] in fs;
    ReduceSettled(fs[k], ms, ss, truth);
    ReducedTwice(fs, ms, ss, {}, known);
    assert ms + {} == ms;
  }

  /**
   * Marking the cells `known_mines` gives for the `k`-th sentence, once the
   * mines `ms` and safe cells `ss` are learnt, makes mines of every cell of
   * the original sentence if it showed only mines.
   */
  lemma MinesSettled(fs: seq<Fact>, k: int, ms: set<Cell>, ss: set<Cell>, known: set<Cell>, truth: set<Cell>)
    requires 0 <= k < |fs| && AllHold(fs, truth) && ms <= truth && ss !! truth
    requires var g := Reduce(fs[k], ms, ss); known == if |g.cells| == g.count then g.cells else {}
    ensures Reduced(Reduced(fs, ms, ss), known, {}) == Reduced(fs, ms + known, ss)
    ensures fs[k].count == |fs[k].cells| ==> fs[k].cells <= ms + known
  {
    assert fs[k] in fs;
    ReduceSettled(fs[k], ms, ss, truth);
    ReducedTwice(fs, ms, ss, known, {});
    assert ss + {} == ss;
  }

  /** The cells of the first `k` sentences of `fs` that show no mines are safe, and those that show only mines are mines. */
  ghost predicate SettledUpTo(fs: seq<Fact>, k: int, mines: set<Cell>, safes: set<Cell>)
    requires 0 <= k <= |fs|
  {
    forall m :: 0 <= m < k ==>
      (fs[m].count == 0 ==> fs[m].cells <= safes) && (fs[m].count == |fs[m].cells| ==> fs[m].cells <= mines)
  }

  lemma SettledStep(fs: seq<Fact>, k: int, mines: set<Cell>, safes: set<Cell>, mines': set<Cell>, safes': set<Cell>)
    requires 0 <= k < |fs| && SettledUpTo(fs, k, mines, safes)
    requires mines <= mines' && safes <= safes'
    requires fs[k].count == 0 ==> fs[k].cells <= safes'
    requires fs[k].count == |fs[k].cells| ==> fs[k].cells <= mines'
    ensures SettledUpTo(fs, k + 1, mines', safes')
  {
  }

  /**
   * The sentences step 4 of `add_knowledge` leaves:a conclusion with no
   * mines makes its cells safe, one with only mines makes them mines, and
   * any other is appended.
   */
  function Concluded(fs: seq<Fact>, c: Fact): seq<Fact>
  {
    if c.count == 0 then Reduced(fs, {}, c.cells)
    else if c.count == |c.cells| then Reduced(fs, c.cells, {})
    else fs + [c]
  }

  /** `s1 != s2 and s1.cells.issubset(s2.cells)`: the pair (i, j) yields a sentence by the subset rule. */
  predicate Derivable(fs: seq<Fact>, i: int, j: int)
    requires 0 <= i < |fs| && 0 <= j < |fs|
  {
    fs[i] != fs[j] && fs[i].cells <= fs[j].cells
  }

  /** `f` follows from two sentences of `fs` by the subset rule. */
  ghost predicate DerivedFrom(fs: seq<Fact>, f: Fact)
  {
    exists i, j :: 0 <= i < |fs| && 0 <= j < |fs| && Derivable(fs, i, j) && f == Difference(fs[i], fs[j])
  }

  /** The new sentences that the inner loop of `infer_new_knowledge` collects for `fs[i]` and `fs[..n]`. */
  function RowCandidates(fs: seq<Fact>, i: int, n: int): seq<Fact>
    requires 0 <= i < |fs| && 0 <= n <= |fs|
  {
    if n == 0 then []
    else
      RowCandidates(fs, i, n - 1) +
      if Derivable(fs, i, n - 1) && Difference(fs[i], fs[n - 1]) !in fs then [Difference(fs[i], fs[n - 1])] else []
  }

  /** The new sentences that `infer_new_knowledge` collects for `fs[..m]` against all of `fs`. */
  function Candidates(fs: seq<Fact>, m: int): seq<Fact>
    requires 0 <= m <= |fs|
  {
    if m == 0 then [] else Candidates(fs, m - 1) + RowCandidates(fs, m - 1, |fs|)
  }

  /** `fs` after appending, in order, each candidate not already present. */
  function Absorb(fs: seq<Fact>, cands: seq<Fact>): seq<Fact>
    decreases |cands|
  {
    if cands == [] then fs
    else
      var prev := Absorb(fs, cands[..|cands| - 1]);
      var c := cands[|cands| - 1];
      if c in prev then prev else prev + [c]
  }

  /** The knowledge after one round of `infer_new_knowledge`. */
  function Inferred(fs: seq<Fact>): seq<Fact>
  {
    Absorb(fs, Candidates(fs, |fs|))
  }

  /** Every sentence of `cs` is new to `fs` and follows from two of its sentences by the subset rule. */
  ghost predicate AllDerived(fs: seq<Fact>, cs: seq<Fact>)
  {
    forall c :: c in cs ==> c !in fs && DerivedFrom(fs, c)
  }

  lemma AllDerivedConcat(fs: seq<Fact>, a: seq<Fact>, b: seq<Fact>)
    requires AllDerived(fs, a) && AllDerived(fs, b)
    ensures AllDerived(fs, a + b)
  {
    forall c | c in a + b
      ensures c !in fs && DerivedFrom(fs, c)
    {
      if c !in a {
        assert c in b;
      }
    }
  }

  lemma {:induction false} RowCandidatesDerived(fs: seq<Fact>, i: int, n: int)
    requires 0 <= i < |fs| && 0 <= n <= |fs|
    ensures AllDerived(fs, RowCandidates(fs, i, n))
  {
    if n > 0 {
      RowCandidatesDerived(fs, i, n - 1);
      var prev := RowCandidates(fs, i, n - 1);
      if Derivable(fs, i, n - 1) && Difference(fs[i], fs[n - 1]) !in fs {
        var d := Difference(fs[i], fs[n - 1]);
        assert DerivedFrom(fs, d);
        assert AllDerived(fs, [d]);
        AllDerivedConcat(fs, prev, [d]);
      }
    }
  }

  lemma {:induction false} RowCandidateIn(fs: seq<Fact>, i: int, n: int, j: int)
    requires 0 <= i < |fs| && 0 <= j < n <= |fs|
    requires Derivable(fs, i, j) && Difference(fs[i], fs[j]) !in fs
    ensures Difference(fs[i], fs[j]) in RowCandidates(fs, i, n)
    decreases n
  {
    var prev := RowCandidates(fs, i, n - 1);
    if j < n - 1 {
      RowCandidateIn(fs, i, n - 1, j);
      assert RowCandidates(fs, i, n)[..|prev|] == prev;
    } else {
      assert RowCandidates(fs, i, n) == prev + [Difference(fs[i], fs[j])];
    }
  }

  lemma {:induction false} CandidatesDerived(fs: seq<Fact>, m: int)
    requires 0 <= m <= |fs|
    ensures AllDerived(fs, Candidates(fs, m))
  {
    if m > 0 {
      CandidatesDerived(fs, m - 1);
      RowCandidatesDerived(fs, m - 1, |fs|);
      AllDerivedConcat(fs, Candidates(fs, m - 1), RowCandidates(fs, m - 1, |fs|));
    }
  }

  lemma {:induction false} CandidateIn(fs: seq<Fact>, m: int, i: int, j: int)
    requires 0 <= i < m <= |fs| && 0 <= j < |fs|
    requires Derivable(fs, i, j) && Difference(fs[i], fs[j]) !in fs
    ensures Difference(fs[i], fs[j]) in Candidates(fs, m)
    decreases m
  {
    var prev := Candidates(fs, m - 1);
    var row := RowCandidates(fs, m - 1, |fs|);
    assert Candidates(fs, m) == prev + row;
    var d := Difference(fs[i], fs[j]);
    if i < m - 1 {
      CandidateIn(fs, m - 1, i, j);
      assert d in prev;
    } else {
      RowCandidateIn(fs, i, |fs|, j);
      assert d in row;
    }
  }

  lemma CandidatesComplete(fs: seq<Fact>, m: int)
    requires 0 <= m <= |fs|
    ensures forall i, j :: 0 <= i < m && 0 <= j < |fs| && Derivable(fs, i, j) && Difference(fs[i], fs[j]) !in fs ==>
                           Difference(fs[i], fs[j]) in Candidates(fs, m)
  {
    forall i, j | 0 <= i < m && 0 <= j < |fs| && Derivable(fs, i, j) && Difference(fs[i], fs[j]) !in fs
      ensures Difference(fs[i], fs[j]) in Candidates(fs, m)
    {
      CandidateIn(fs, m, i, j);
    }
  }

  lemma {:induction false} AbsorbMeaning(fs: seq<Fact>, cands: seq<Fact>)
    ensures |Absorb(fs, cands)| >= |fs| && Absorb(fs, cands)[..|fs|] == fs
    ensures forall k :: |fs| <= k < |Absorb(fs, cands)| ==>
                        Absorb(fs, cands)[k] in cands && Absorb(fs, cands)[k] !in Absorb(fs, cands)[..k]
    ensures forall c :: c in cands ==> c in Absorb(fs, cands)
    decreases |cands|
  {
    if cands != [] {
      var front := cands[..|cands| - 1];
      AbsorbMeaning(fs, front);
      var prev := Absorb(fs, front);
      var c := cands[|cands| - 1];
      assert forall x :: x in cands <==> x in front || x == c;
      if c !in prev {
        assert (prev + [c])[..|prev|] == prev;
        assert (prev + [c])[..|fs|] == prev[..|fs|];
      }
    }
  }

  /**
   * One round of inference keeps every sentence, in place; each sentence it
   * appends follows from two distinct sentences by the subset rule and equals
   * no earlier sentence; and every sentence the subset rule yields is present
   * afterwards.
   */
  lemma InferredMeaning(fs: seq<Fact>)
    ensures |Inferred(fs)| >= |fs| && Inferred(fs)[..|fs|] == fs
    ensures forall k :: |fs| <= k < |Inferred(fs)| ==>
                        Inferred(fs)[k] !in Inferred(fs)[..k] && DerivedFrom(fs, Inferred(fs)[k])
    ensures forall i, j :: 0 <= i < |fs| && 0 <= j < |fs| && Derivable(fs, i, j) ==>
                           Difference(fs[i], fs[j]) in Inferred(fs)
  {
    var cands := Candidates(fs, |fs|);
    CandidatesDerived(fs, |fs|);
    CandidatesComplete(fs, |fs|);
    AbsorbMeaning(fs, cands);
    var r := Inferred(fs);
    forall i, j | 0 <= i < |fs| && 0 <= j < |fs| && Derivable(fs, i, j)
      ensures Difference(fs[i], fs[j]) in r
    {
      if Difference(fs[i], fs[j]) in fs {
        assert fs == r[..|fs|];
      }
    }
  }

  /** Inference forgets no sentence. */
  lemma InferredKeepsAll(fs: seq<Fact>)
    ensures forall f :: f in fs ==> f in Inferred(fs)
  {
    InferredMeaning(fs);
    forall f | f in fs
      ensures f in Inferred(fs)
    {
      var k :| 0 <= k < |fs| && fs[k] == f;
      assert Inferred(fs)[..|fs|][k] == f;
    }
  }

  /** Every sentence inference appends is true and tidy when the ones it starts from are. */
  lemma InferredKeeps(fs: seq<Fact>, mines: set<Cell>, safes: set<Cell>, height: int, width: int, truth: set<Cell>)
    ensures AllHold(fs, truth) ==> AllHold(Inferred(fs), truth)
    ensures Tidy(fs, mines, safes, height, width) ==> Tidy(Inferred(fs), mines, safes, height, width)
  {
    InferredMeaning(fs);
    var r := Inferred(fs);
    forall f | f in r
      ensures f in fs || DerivedFrom(fs, f)
    {
      var k :| 0 <= k < |r| && r[k] == f;
      if k < |fs| {
        assert f == fs[k];
      }
    }
    if AllHold(fs, truth) {
      forall f | f in r && DerivedFrom(fs, f)
        ensures HoldsIn(f, truth)
      {
        var i, j :| 0 <= i < |fs| && 0 <= j < |fs| && Derivable(fs, i, j) && f == Difference(fs[i], fs[j]);
        assert fs[i] in fs && fs[j] in fs;
        DifferenceKeepsTruth(fs[i], fs[j], truth);
      }
    }
    if Tidy(fs, mines, safes, height, width) {
      forall f | f in r && DerivedFrom(fs, f)
        ensures f.cells !! mines && f.cells !! safes && f.cells <= BoardCells(height, width)
      {
        var i, j :| 0 <= i < |fs| && 0 <= j < |fs| && Derivable(fs, i, j) && f == Difference(fs[i], fs[j]);
        assert fs[j] in fs;
      }
    }
  }

  /** The cell sets that the sentences of `fs` talk about. */
  ghost function CellSets(fs: seq<Fact>): set<set<Cell>>
  {
    set f | f in fs :: f.cells
  }

  /**
   * Over true knowledge, a round of inference that appends anything brings in
   * a cell set no sentence had: a count is fixed by its cells, so a new
   * sentence over old cells would have been a duplicate.
   */
  lemma InferredGrowsCells(fs: seq<Fact>, truth: set<Cell>)
    requires AllHold(fs, truth) && |Inferred(fs)| > |fs|
    ensures CellSets(fs) <= CellSets(Inferred(fs))
    ensures exists c :: c in CellSets(Inferred(fs)) && c !in CellSets(fs)
  {
    var r := Inferred(fs);
    InferredMeaning(fs);
    InferredKeeps(fs, {}, {}, 0, 0, truth);
    forall f | f in fs
      ensures f in r
    {
      var k :| 0 <= k < |fs| && fs[k] == f;
      assert r[..|fs|][k] == f;
    }
    var x := r[|fs|];
    assert r[..|fs|] == fs;
    assert x !in fs;
    assert x in r;
    assert x.cells in CellSets(r);
  }

  /** No pair of sentences yields a sentence by the subset rule that is not already known. */
  ghost predicate Closed(fs: seq<Fact>)
  {
    forall i, j :: 0 <= i < |fs| && 0 <= j < |fs| && Derivable(fs, i, j) ==> Difference(fs[i], fs[j]) in fs
  }

  /** A round of `infer_new_knowledge` changes nothing exactly when the knowledge is closed under the subset rule. */
  lemma ClosedMeansStable(fs: seq<Fact>)
    ensures Closed(fs) <==> Inferred(fs) == fs
  {
    InferredMeaning(fs);
    if Closed(fs) {
      var cands := Candidates(fs, |fs|);
      CandidatesDerived(fs, |fs|);
    }
  }

  /**
   * Over true knowledge, dropping the empty sentences keeps the knowledge
   * closed: a difference of two distinct true sentences has cells, since
   * the count of a true sentence is fixed by its cells.
   */
  lemma KeptClosed(fs: seq<Fact>, truth: set<Cell>)
    requires Closed(fs) && AllHold(fs, truth)
    ensures Closed(Kept(fs))
  {
    var gs := Kept(fs);
    forall i, j | 0 <= i < |gs| && 0 <= j < |gs| && Derivable(gs, i, j)
      ensures Difference(gs[i], gs[j]) in gs
    {
      assert gs[i] in gs && gs[j] in gs;
      var i' :| 0 <= i' < |fs| && fs[i'] == gs[i];
      var j' :| 0 <= j' < |fs| && fs[j'] == gs[j];
      assert Derivable(fs, i', j');
      assert Difference(gs[i], gs[j]).cells != {};
    }
  }

  /** `sentence in sentences`, where `in` compares sentences by `__eq__`. */
  function Mentions(ks: seq<Sentence>, s: Sentence): (b: bool)
    reads ks, s
    ensures b <==> s.Value() in ValuesOf(ks)
  {
    exists k :: 0 <= k < |ks| && ks[k].Equals(s)
  }

  /**
   * The sentence `add_knowledge` concludes from the count of mines around a
   * played cell: the neighbours not yet known to be mines or safe, with the
   * count less the known mines among the neighbours.
   */
  function Conclusion(neighbors: set<Cell>, count: int, mines: set<Cell>, safes: set<Cell>): (f: Fact)
    ensures f.cells <= neighbors && f.cells !! mines && f.cells !! safes
    ensures forall c :: c in neighbors && c !in mines && c !in safes ==> c in f.cells
    ensures f.count == count - |neighbors * mines|
  {
    Fact(neighbors - mines - safes, count - |neighbors * mines|)
  }

  /** The conclusion is true when the count is, and the known mines and safes are. */
  lemma ConclusionHolds(neighbors: set<Cell>, count: int, mines: set<Cell>, safes: set<Cell>, truth: set<Cell>)
    requires mines <= truth && safes !! truth && count == |neighbors * truth|
    ensures HoldsIn(Conclusion(neighbors, count, mines, safes), truth)
  {
    var undetermined := neighbors - mines - safes;
    assert neighbors * truth == (neighbors * mines) + (undetermined * truth);
    assert (neighbors * mines) * (undetermined * truth) == {};
  }

  // ---------------------------------------------------------------------
  // The player
  // ---------------------------------------------------------------------

  /**
   * `MinesweeperAI`: the cells played, the cells known to be mines or safe,
   * and the list of sentences known to be true.
   */
  class MinesweeperAI {
    const height: int
    const width: int
    var movesMade: set<Cell>
    var mines: set<Cell>
    var safes: set<Cell>
    var knowledge: seq<Sentence>

    constructor (height: int, width: int)
      ensures this.height == height && this.width == width
      ensures movesMade == {} && mines == {} && safes == {} && knowledge == []
      ensures Valid()
    {
      this.height := height;
      this.width := width;
      movesMade := {};
      mines := {};
      safes := {};
      knowledge := [];
    }

    /** The values of the sentences in the knowledge base. */
    ghost function Facts(): seq<Fact>
      reads this, knowledge
    {
      ValuesOf(knowledge)
    }

    ghost predicate Valid()
      reads this, knowledge
    {
      Tidy(Facts(), mines, safes, height, width)
    }

    /** What the player knows is true of the mine layout `truth`. */
    ghost predicate Sound(truth: set<Cell>)
      reads this, knowledge
    {
      mines <= truth && safes !! truth && AllHold(Facts(), truth)
    }

    /** `mark_mine`: record `cell` as a mine and remove it from every sentence. */
    method MarkMine(cell: Cell)
      modifies this, knowledge
      ensures mines == old(mines) + {cell} && safes == old(safes) && movesMade == old(movesMade)
      ensures knowledge == old(knowledge)
      ensures Facts() == MineMarkedAll(old(Facts()), cell)
      ensures forall k :: 0 <= k < |knowledge| ==> cell !in knowledge[k].cells
    {
      mines := mines + {cell};
      for k := 0 to |knowledge|
        invariant mines == old(mines) + {cell} && safes == old(safes) && movesMade == old(movesMade)
        invariant knowledge == old(knowledge)
        invariant forall m :: 0 <= m < |knowledge| ==>
                    knowledge[m].Value() == if knowledge[m] in knowledge[..k]
                                            then MineMarked(old(knowledge[m].Value()), cell)
                                            else old(knowledge[m].Value())
      {
        knowledge[k].MarkMine(cell);
      }
      assert knowledge[..|knowledge|] == knowledge;
    }

    /** `mark_safe`: record `cell` as safe and remove it from every sentence. */
    method MarkSafe(cell: Cell)
      modifies this, knowledge
      ensures safes == old(safes) + {cell} && mines == old(mines) && movesMade == old(movesMade)
      ensures knowledge == old(knowledge)
      ensures Facts() == SafeMarkedAll(old(Facts()), cell)
      ensures forall k :: 0 <= k < |knowledge| ==> cell !in knowledge[k].cells
    {
      safes := safes + {cell};
      for k := 0 to |knowledge|
        invariant safes == old(safes) + {cell} && mines == old(mines) && movesMade == old(movesMade)
        invariant knowledge == old(knowledge)
        invariant forall m :: 0 <= m < |knowledge| ==>
                    knowledge[m].Value() == if knowledge[m] in knowledge[..k]
                                            then SafeMarked(old(knowledge[m].Value()), cell)
                                            else old(knowledge[m].Value())
      {
        knowledge[k].MarkSafe(cell);
      }
      assert knowledge[..|knowledge|] == knowledge;
    }
  
    /** `get_neighbors`: the in-bounds cells around `cell`. */
    method GetNeighbors(cell: Cell) returns (neighbors: set<Cell>)
      ensures neighbors == Neighborhood(cell, height, width)
      ensures |neighbors| <= 8 && cell !in neighbors
      ensures neighbors <= BoardCells(height, width)
    {
      ghost var all := Neighborhood(cell, height, width);
      neighbors := {};
      for i := -1 to 2
        invariant neighbors == Scanned(all, cell.0 + i, cell.1 - 1)
      {
        for j := -1 to 2
          invariant neighbors == Scanned(all, cell.0 + i, cell.1 + j)
        {
          ScannedStep(all, cell.0 + i, cell.1 + j);
          if (i, j) == (0, 0) {
            continue;
          }
          var neighbor := (cell.0 + i, cell.1 + j);
          var iInBounds := 0 <= neighbor.0 < height;
          var jInBounds := 0 <= neighbor.1 < width;
          if iInBounds && jInBounds {
            assert neighbor in all;
            neighbors := neighbors + {neighbor};
          }
        }
        ScannedNextRow(all, cell, height, width, cell.0 + i);
      }
      ScannedAll(all, cell, height, width);
      NeighborhoodShape(cell, height, width);
    }

    /** `remove_empty_sentences`: drop the sentences without cells. */
    method RemoveEmptySentences()
      modifies this
      ensures mines == old(mines) && safes == old(safes) && movesMade == old(movesMade)
      ensures knowledge == NonEmpty(old(knowledge))
      ensures Facts() == Kept(old(Facts()))
      ensures forall k :: 0 <= k < |knowledge| ==> knowledge[k].cells != {}
      ensures forall f :: f in Facts() ==> f in old(Facts())
      ensures forall s :: s in knowledge ==> s in old(knowledge)
    {
      var newKnowledge: seq<Sentence> := [];
      for k := 0 to |knowledge|
        invariant newKnowledge == NonEmpty(knowledge[..k])
      {
        assert knowledge[..k + 1][..k] == knowledge[..k];
        if |knowledge[k].cells| != 0 {
          newKnowledge := newKnowledge + [knowledge[k]];
        }
      }
      assert knowledge[..|knowledge|] == knowledge;
      ghost var before := knowledge;
      knowledge := newKnowledge;
      assert knowledge == NonEmpty(before);
      ValuesOfNonEmpty(before);
      assert ValuesOf(before) == old(Facts());
    }

    /**
     * `infer_new_knowledge`: append every sentence the subset rule yields
     * from two distinct sentences and that is not already known.
     */
    method InferNewKnowledge()
      modifies this
      ensures mines == old(mines) && safes == old(safes) && movesMade == old(movesMade)
      ensures |knowledge| >= |old(knowledge)| && knowledge[..|old(knowledge)|] == old(knowledge)
      ensures forall k :: |old(knowledge)| <= k < |knowledge| ==> fresh(knowledge[k])
      ensures fresh(set s | s in knowledge && s !in old(knowledge))
      ensures Facts() == Inferred(old(Facts()))
    {
      var newKnowledge := CollectInferences();
      knowledge := AbsorbInferences(newKnowledge);
    }

    /** The second loop of `infer_new_knowledge`: the knowledge with each new sentence appended unless already known. */
    method AbsorbInferences(newKnowledge: seq<Sentence>) returns (extended: seq<Sentence>)
      ensures |extended| >= |knowledge| && extended[..|knowledge|] == knowledge
      ensures forall m :: |knowledge| <= m < |extended| ==> extended[m] in newKnowledge
      ensures forall s :: s in extended ==> s in knowledge || s in newKnowledge
      ensures ValuesOf(extended) == Absorb(Facts(), ValuesOf(newKnowledge))
    {
      ghost var fs := Facts();
      ghost var cands := ValuesOf(newKnowledge);
      extended := knowledge;
      for k := 0 to |newKnowledge|
        invariant |extended| >= |knowledge| && extended[..|knowledge|] == knowledge
        invariant forall m :: |knowledge| <= m < |extended| ==> extended[m] in newKnowledge
        invariant forall s :: s in extended ==> s in knowledge || s in newKnowledge
        invariant ValuesOf(extended) == Absorb(fs, cands[..k])
      {
        assert cands[..k + 1][..k] == cands[..k];
        if !Mentions(extended, newKnowledge[k]) {
          ValuesOfAppend(extended, newKnowledge[k]);
          extended := extended + [newKnowledge[k]];
        }
      }
      assert cands[..|newKnowledge|] == cands;
    }

    /** The first loop of `infer_new_knowledge`: the new sentences, as fresh objects, in the order found. */
    method CollectInferences() returns (newKnowledge: seq<Sentence>)
      ensures ValuesOf(newKnowledge) == Candidates(Facts(), |knowledge|)
      ensures forall k :: 0 <= k < |newKnowledge| ==> fresh(newKnowledge[k])
    {
      ghost var fs := Facts();
      newKnowledge := [];
      for i := 0 to |knowledge|
        invariant ValuesOf(newKnowledge) == Candidates(fs, i)
        invariant forall k :: 0 <= k < |newKnowledge| ==> fresh(newKnowledge[k])
      {
        var row := InferencesFrom(i);
        ValuesOfConcat(newKnowledge, row);
        newKnowledge := newKnowledge + row;
      }
    }

    /** One pass of the inner loop of `infer_new_knowledge`: the new sentences with `knowledge[i]` as the subset. */
    method InferencesFrom(i: int) returns (row: seq<Sentence>)
      requires 0 <= i < |knowledge|
      ensures ValuesOf(row) == RowCandidates(Facts(), i, |knowledge|)
      ensures forall k :: 0 <= k < |row| ==> fresh(row[k])
    {
      ghost var fs := Facts();
      row := [];
      for j := 0 to |knowledge|
        invariant ValuesOf(row) == RowCandidates(fs, i, j)
        invariant forall k :: 0 <= k < |row| ==> fresh(row[k])
      {
        var sentence1 := knowledge[i];
        var sentence2 := knowledge[j];
        if !sentence1.Equals(sentence2) && sentence1.cells <= sentence2.cells {
          var newSentence := new Sentence(sentence2.cells - sentence1.cells, sentence2.count - sentence1.count);
          assert newSentence.Value() == Difference(fs[i], fs[j]);
          if !Mentions(knowledge, newSentence) {
            ValuesOfAppend(row, newSentence);
            row := row + [newSentence];
          }
        }
      }
    }

    /** `make_safe_move`: a known-safe cell not yet played, if there is one. */
    method MakeSafeMove() returns (move: Option<Cell>)
      ensures move.None? <==> safes - movesMade == {}
      ensures move.Some? ==> move.value in safes && move.value !in movesMade
    {
      var candidates := safes - movesMade;
      if |candidates| == 0 {
        return None;
      }
      var choice :| choice in candidates;
      return Some(choice);
    }

    /** `make_random_move`: a board cell neither played nor known to be a mine, if there is one. */
    method MakeRandomMove() returns (move: Option<Cell>)
      ensures move.None? <==> BoardCells(height, width) - movesMade - mines == {}
      ensures move.Some? ==> 0 <= move.value.0 < height && 0 <= move.value.1 < width
      ensures move.Some? ==> move.value !in movesMade && move.value !in mines
    {
      var allPossibles := set i, j | 0 <= i < height && 0 <= j < width :: (i, j);
      var candidates := allPossibles - movesMade - mines;
      if |candidates| == 0 {
        return None;
      }
      var choice :| choice in candidates;
      return Some(choice);
    }
  
    /** The loop `for safe in cells: self.mark_safe(safe)`, in some order. */
    method MarkSafes(cells: set<Cell>, ghost truth: set<Cell>)
      requires Valid() && Sound(truth) && cells !! truth
      modifies this, knowledge
      ensures safes == old(safes) + cells && mines == old(mines) && movesMade == old(movesMade)
      ensures knowledge == old(knowledge)
      ensures Facts() == Reduced(old(Facts()), {}, cells)
      ensures Valid() && Sound(truth)
    {
      ghost var start := Facts();
      ReducedUntouched(start, {}, {});
      var rest := cells;
      assert cells - rest == {};
      while rest != {}
        invariant rest <= cells
        invariant safes == old(safes) + (cells - rest) && mines == old(mines) && movesMade == old(movesMade)
        invariant knowledge == old(knowledge)
        invariant Facts() == Reduced(start, {}, cells - rest)
        invariant Valid() && Sound(truth)
        decreases rest
      {
        var safe :| safe in rest;
        ghost var facts, known := Facts(), safes;
        MarkSafe(safe);
        SafeMarkedAllKeeps(facts, safe, mines, known, height, width, truth);
        SafeMarkedAllReduced(facts, safe);
        ReducedTwice(start, {}, cells - rest, {}, {safe});
        assert (cells - rest) + {safe} == cells - (rest - {safe});
        rest := rest - {safe};
      }
      assert cells - rest == cells;
    }

    /** The loop `for mine in cells: self.mark_mine(mine)`, in some order. */
    method MarkMines(cells: set<Cell>, ghost truth: set<Cell>)
      requires Valid() && Sound(truth) && cells <= truth
      modifies this, knowledge
      ensures mines == old(mines) + cells && safes == old(safes) && movesMade == old(movesMade)
      ensures knowledge == old(knowledge)
      ensures Facts() == Reduced(old(Facts()), cells, {})
      ensures Valid() && Sound(truth)
    {
      ghost var start := Facts();
      ReducedUntouched(start, {}, {});
      var rest := cells;
      assert cells - rest == {};
      while rest != {}
        invariant rest <= cells
        invariant mines == old(mines) + (cells - rest) && safes == old(safes) && movesMade == old(movesMade)
        invariant knowledge == old(knowledge)
        invariant Facts() == Reduced(start, cells - rest, {})
        invariant Valid() && Sound(truth)
        decreases rest
      {
        var mine :| mine in rest;
        ghost var facts, known := Facts(), mines;
        MarkMine(mine);
        MineMarkedAllKeeps(facts, mine, known, safes, height, width, truth);
        MineMarkedAllReduced(facts, mine);
        ReducedTwice(start, cells - rest, {}, {mine}, {});
        assert (cells - rest) + {mine} == cells - (rest - {mine});
        rest := rest - {mine};
      }
      assert cells - rest == cells;
    }

    /** The sentence step 3 of `add_knowledge` concludes from `count` mines around `cell`. */
    ghost function ConclusionFor(cell: Cell, count: int): Fact
      reads this
    {
      Conclusion(Neighborhood(cell, height, width), count, mines, safes)
    }

    /**
     * `add_knowledge`: the board reports `count` mines around the played
     * cell `cell`.  Record the move and the safe cell, add the sentence the
     * count gives, and draw every conclusion the rules allow.  The ghost
     * `truth` is the real mine layout: the count is the board's, and the
     * player's knowledge stays true of the layout.  The ghost results name
     * the sentence of step 3 and the knowledge at the end of step 5.
     */
    method AddKnowledge(cell: Cell, count: int, ghost truth: set<Cell>) returns (ghost learned: Fact, ghost stable: seq<Fact>)
      requires Valid() && Sound(truth)
      requires cell !in truth && count == |Neighborhood(cell, height, width) * truth|
      modifies this, knowledge
      ensures movesMade == old(movesMade) + {cell}
      ensures cell in safes && old(safes) <= safes && old(mines) <= mines
      // steps 1 to 4
      ensures learned == Conclusion(Neighborhood(cell, height, width), count, old(mines), old(safes) + {cell})
      ensures HoldsIn(learned, truth)
      ensures learned.count == 0 ==> learned.cells <= safes
      ensures learned.count == |learned.cells| ==> learned.cells <= mines
      // step 5: what steps 1 to 4 left, closed under the subset rule
      ensures forall f :: f in Kept(Concluded(Reduced(old(Facts()), {}, {cell}), learned)) ==> f in stable
      ensures Closed(stable) && Inferred(stable) == stable
      // step 6
      ensures forall f :: f in stable && f.count == 0 ==> f.cells <= safes
      ensures forall f :: f in stable && f.count == |f.cells| ==> f.cells <= mines
      ensures Facts() == Kept(Reduced(stable, mines, safes))
      ensures Valid() && Sound(truth)
      ensures forall k :: 0 <= k < |knowledge| ==> knowledge[k].cells != {}
    {
      learned := LearnFrom(cell, count, truth);
      stable := Saturate(truth);
    }

    /** Steps 1 to 4 of `add_knowledge`, with the sentence of step 3 as the ghost result. */
    method LearnFrom(cell: Cell, count: int, ghost truth: set<Cell>) returns (ghost learned: Fact)
      requires Valid() && Sound(truth)
      requires cell !in truth && count == |Neighborhood(cell, height, width) * truth|
      modifies this, knowledge
      ensures movesMade == old(movesMade) + {cell}
      ensures cell in safes && old(safes) <= safes && old(mines) <= mines
      ensures learned == Conclusion(Neighborhood(cell, height, width), count, old(mines), old(safes) + {cell})
      ensures HoldsIn(learned, truth)
      ensures learned.count == 0 ==> learned.cells <= safes
      ensures learned.count == |learned.cells| ==> learned.cells <= mines
      ensures Facts() == Kept(Concluded(Reduced(old(Facts()), {}, {cell}), learned))
      ensures fresh(set s | s in knowledge && s !in old(knowledge))
      ensures Valid() && Sound(truth)
    {
      MarkPlayed(cell, truth);
      learned := ConclusionFor(cell, count);
      ConclusionHolds(Neighborhood(cell, height, width), count, mines, safes, truth);
      LearnCount(cell, count, truth);
    }

    /**
     * Steps 5 and 6 of `add_knowledge`: the knowledge closed under the subset
     * rule, as the ghost result, and then the cells it settles marked.
     */
    method Saturate(ghost truth: set<Cell>) returns (ghost stable: seq<Fact>)
      requires Valid() && Sound(truth)
      modifies this, knowledge
      ensures movesMade == old(movesMade) && old(safes) <= safes && old(mines) <= mines
      ensures forall f :: f in old(Facts()) && f.cells != {} ==> f in stable
      ensures Closed(stable) && Inferred(stable) == stable
      ensures forall f :: f in stable && f.count == 0 ==> f.cells <= safes
      ensures forall f :: f in stable && f.count == |f.cells| ==> f.cells <= mines
      ensures Facts() == Kept(Reduced(stable, mines, safes))
      ensures Valid() && Sound(truth)
      ensures forall k :: 0 <= k < |knowledge| ==> knowledge[k].cells != {}
    {
      InferUntilStable(truth);
      stable := Facts();
      MarkSettledCells(truth);
    }

    /** Steps 1 and 2 of `add_knowledge`: record the move, and its cell as safe. */
    method MarkPlayed(cell: Cell, ghost truth: set<Cell>)
      requires Valid() && Sound(truth) && cell !in truth
      modifies this, knowledge
      ensures movesMade == old(movesMade) + {cell}
      ensures safes == old(safes) + {cell} && mines == old(mines)
      ensures knowledge == old(knowledge)
      ensures Facts() == Reduced(old(Facts()), {}, {cell})
      ensures Valid() && Sound(truth)
    {
      movesMade := movesMade + {cell};
      ghost var facts, known := Facts(), safes;
      MarkSafe(cell);
      SafeMarkedAllKeeps(facts, cell, mines, known, height, width, truth);
      SafeMarkedAllReduced(facts, cell);
    }

    /**
     * Steps 3 and 4 of `add_knowledge`, then `remove_empty_sentences`: the
     * sentence the count around `cell` gives, and what it settles at once.
     */
    method LearnCount(cell: Cell, count: int, ghost truth: set<Cell>)
      requires Valid() && Sound(truth)
      requires count == |Neighborhood(cell, height, width) * truth|
      modifies this, knowledge
      ensures movesMade == old(movesMade)
      ensures var c := old(ConclusionFor(cell, count));
              && (c.count == 0 ==> safes == old(safes) + c.cells && mines == old(mines))
              && (c.count != 0 && c.count == |c.cells| ==> mines == old(mines) + c.cells && safes == old(safes))
              && (c.count != 0 && c.count != |c.cells| ==> mines == old(mines) && safes == old(safes))
              && Facts() == Kept(Concluded(old(Facts()), c))
      ensures var c := old(ConclusionFor(cell, count));
              && (c.count == 0 ==> c.cells <= safes)
              && (c.count == |c.cells| ==> c.cells <= mines)
      ensures fresh(set s | s in knowledge && s !in old(knowledge))
      ensures forall k :: 0 <= k < |knowledge| ==> knowledge[k].cells != {}
      ensures Valid() && Sound(truth)
    {
      var neighbors := GetNeighbors(cell);
      var conclusion := Conclusion(neighbors, count, mines, safes);
      ConclusionHolds(neighbors, count, mines, safes, truth);
      AddConclusion(conclusion, truth);
      Prune(truth);
    }

    /**
     * Step 4 of `add_knowledge`: a conclusion with no mines makes its cells
     * safe, one with only mines makes them mines, and any other is added as
     * a new sentence.
     */
    method AddConclusion(conclusion: Fact, ghost truth: set<Cell>)
      requires Valid() && Sound(truth) && HoldsIn(conclusion, truth)
      requires conclusion.cells !! mines && conclusion.cells !! safes
      requires conclusion.cells <= BoardCells(height, width)
      modifies this, knowledge
      ensures movesMade == old(movesMade)
      ensures conclusion.count == 0 ==> safes == old(safes) + conclusion.cells && mines == old(mines)
      ensures conclusion.count != 0 && conclusion.count == |conclusion.cells| ==>
                mines == old(mines) + conclusion.cells && safes == old(safes)
      ensures conclusion.count != 0 && conclusion.count != |conclusion.cells| ==>
                mines == old(mines) && safes == old(safes)
      ensures Facts() == Concluded(old(Facts()), conclusion)
      ensures fresh(set s | s in knowledge && s !in old(knowledge))
      ensures Valid() && Sound(truth)
    {
      SettledByCount(conclusion, truth);
      if conclusion.count == 0 {
        MarkSafes(conclusion.cells, truth);
      } else if conclusion.count == |conclusion.cells| {
        MarkMines(conclusion.cells, truth);
      } else {
        var newSentence := new Sentence(conclusion.cells, conclusion.count);
        ValuesOfAppend(knowledge, newSentence);
        knowledge := knowledge + [newSentence];
      }
    }

    /** `remove_empty_sentences`, with the knowledge staying tidy and true. */
    method Prune(ghost truth: set<Cell>)
      requires Valid() && Sound(truth)
      modifies this
      ensures mines == old(mines) && safes == old(safes) && movesMade == old(movesMade)
      ensures knowledge == NonEmpty(old(knowledge))
      ensures Facts() == Kept(old(Facts()))
      ensures forall s :: s in knowledge ==> s in old(knowledge)
      ensures forall k :: 0 <= k < |knowledge| ==> knowledge[k].cells != {}
      ensures Valid() && Sound(truth)
    {
      ghost var facts := Facts();
      RemoveEmptySentences();
      SubKnowledge(Facts(), facts, mines, safes, height, width, truth);
    }

    /**
     * Step 5 of `add_knowledge`, then `remove_empty_sentences`: run
     * `infer_new_knowledge` until the knowledge no longer changes.
     */
    method InferUntilStable(ghost truth: set<Cell>)
      requires Valid() && Sound(truth)
      modifies this
      ensures mines == old(mines) && safes == old(safes) && movesMade == old(movesMade)
      ensures fresh(set s | s in knowledge && s !in old(knowledge))
      ensures forall f :: f in old(Facts()) && f.cells != {} ==> f in Facts()
      ensures Closed(Facts()) && Inferred(Facts()) == Facts()
      ensures forall k :: 0 <= k < |knowledge| ==> knowledge[k].cells != {}
      ensures Valid() && Sound(truth)
    {
      ghost var universe := BoardCells(height, width);
      ghost var start := Facts();
      while true
        invariant mines == old(mines) && safes == old(safes) && movesMade == old(movesMade)
        invariant fresh(set s | s in knowledge && s !in old(knowledge))
        invariant forall f :: f in start ==> f in Facts()
        invariant Valid() && Sound(truth)
        decreases Sets.PowerSet(universe) - CellSets(Facts())
      {
        ghost var before := Facts();
        var changed;
        ghost var grown;
        changed, grown := InferRound(truth);
        if !changed {
          break;
        }
        Sets.InPowerSet(grown, universe);
        assert grown in Sets.PowerSet(universe) - CellSets(before);
        assert grown !in Sets.PowerSet(universe) - CellSets(Facts());
      }
      ghost var closed := Facts();
      Prune(truth);
      KeptClosed(closed, truth);
      ClosedMeansStable(Facts());
    }

    /**
     * One turn of the loop of step 5: `infer_new_knowledge`, and whether the
     * knowledge changed.  A change brings in a set of board cells that no
     * sentence had, `grown`, which bounds the number of turns.
     */
    method InferRound(ghost truth: set<Cell>) returns (changed: bool, ghost grown: set<Cell>)
      requires Valid() && Sound(truth)
      modifies this
      ensures mines == old(mines) && safes == old(safes) && movesMade == old(movesMade)
      ensures fresh(set s | s in knowledge && s !in old(knowledge))
      ensures Facts() == Inferred(old(Facts()))
      ensures forall f :: f in old(Facts()) ==> f in Facts()
      ensures !changed <==> Facts() == old(Facts())
      ensures !changed ==> Closed(Facts())
      ensures changed ==> CellSets(old(Facts())) <= CellSets(Facts())
      ensures changed ==> grown in CellSets(Facts()) && grown !in CellSets(old(Facts())) && grown <= BoardCells(height, width)
      ensures Valid() && Sound(truth)
    {
      grown := {};
      var oldKnowledge := knowledge;
      ghost var before := Facts();
      InferNewKnowledge();
      InferredKeeps(before, mines, safes, height, width, truth);
      InferredKeepsAll(before);
      changed := oldKnowledge != knowledge;
      if !changed {
        ClosedMeansStable(before);
      } else {
        assert |knowledge| > |oldKnowledge|;
        InferredGrowsCells(before, truth);
        grown :| grown in CellSets(Facts()) && grown !in CellSets(before);
        ghost var f :| f in Facts() && f.cells == grown;
      }
    }

    /**
     * Step 6 of `add_knowledge`, then `remove_empty_sentences`: for each
     * sentence, mark the cells it shows to be safe, then the cells it shows
     * to be mines.  A sentence with no mines ends up with all its cells
     * safe, and one with only mines with all its cells mines.
     */
    method MarkSettledCells(ghost truth: set<Cell>)
      requires Valid() && Sound(truth)
      modifies this, knowledge
      ensures movesMade == old(movesMade) && old(safes) <= safes && old(mines) <= mines
      ensures forall s :: s in knowledge ==> s in old(knowledge)
      ensures forall f :: f in old(Facts()) && f.count == 0 ==> f.cells <= safes
      ensures forall f :: f in old(Facts()) && f.count == |f.cells| ==> f.cells <= mines
      ensures Facts() == Kept(Reduced(old(Facts()), mines, safes))
      ensures forall k :: 0 <= k < |knowledge| ==> knowledge[k].cells != {}
      ensures Valid() && Sound(truth)
    {
      ghost var start := Facts();
      ReducedUntouched(start, mines, safes);
      for k := 0 to |knowledge|
        invariant movesMade == old(movesMade) && old(safes) <= safes && old(mines) <= mines
        invariant knowledge == old(knowledge)
        invariant Facts() == Reduced(start, mines, safes)
        invariant SettledUpTo(start, k, mines, safes)
        invariant Valid() && Sound(truth)
      {
        ghost var m0, s0 := mines, safes;
        SettleSentence(k, start, truth);
        SettledStep(start, k, m0, s0, mines, safes);
      }
      forall f | f in start
        ensures f.count == 0 ==> f.cells <= safes
        ensures f.count == |f.cells| ==> f.cells <= mines
      {
        var m :| 0 <= m < |start| && start[m] == f;
      }
      Prune(truth);
    }

    /** One pass of step 6: mark what `knowledge[k]` shows to be safe, then what it shows to be mines. */
    method SettleSentence(k: int, ghost start: seq<Fact>, ghost truth: set<Cell>)
      requires 0 <= k < |knowledge| == |start| && AllHold(start, truth)
      requires Valid() && Sound(truth) && Facts() == Reduced(start, mines, safes)
      modifies this, knowledge
      ensures knowledge == old(knowledge) && movesMade == old(movesMade)
      ensures old(safes) <= safes && old(mines) <= mines
      ensures Facts() == Reduced(start, mines, safes)
      ensures start[k].count == 0 ==> start[k].cells <= safes
      ensures start[k].count == |start[k].cells| ==> start[k].cells <= mines
      ensures Valid() && Sound(truth)
    {
      SettleSafes(k, start, truth);
      SettleMines(k, start, truth);
    }

    /** `for safe in tuple(sentence.known_safes()): self.mark_safe(safe)` for `sentence = knowledge[k]`. */
    method SettleSafes(k: int, ghost start: seq<Fact>, ghost truth: set<Cell>)
      requires 0 <= k < |knowledge| == |start| && AllHold(start, truth)
      requires Valid() && Sound(truth) && Facts() == Reduced(start, mines, safes)
      modifies this, knowledge
      ensures knowledge == old(knowledge) && movesMade == old(movesMade)
      ensures old(safes) <= safes && mines == old(mines)
      ensures Facts() == Reduced(start, mines, safes)
      ensures start[k].count == 0 ==> start[k].cells <= safes
      ensures Valid() && Sound(truth)
    {
      var sentence := knowledge[k];
      assert Facts()[k] in Facts();
      var knownSafes := sentence.KnownSafes();
      KnownSafesAreSafe(sentence, truth);
      SafesSettled(start, k, mines, safes, knownSafes, truth);
      MarkSafes(knownSafes, truth);
    }

    /** `for mine in tuple(sentence.known_mines()): self.mark_mine(mine)` for `sentence = knowledge[k]`. */
    method SettleMines(k: int, ghost start: seq<Fact>, ghost truth: set<Cell>)
      requires 0 <= k < |knowledge| == |start| && AllHold(start, truth)
      requires Valid() && Sound(truth) && Facts() == Reduced(start, mines, safes)
      modifies this, knowledge
      ensures knowledge == old(knowledge) && movesMade == old(movesMade)
      ensures old(mines) <= mines && safes == old(safes)
      ensures Facts() == Reduced(start, mines, safes)
      ensures start[k].count == |start[k].cells| ==> start[k].cells <= mines
      ensures Valid() && Sound(truth)
    {
      var sentence := knowledge[k];
      assert Facts()[k] in Facts();
      var knownMines := sentence.KnownMines();
      KnownMinesAreMines(sentence, truth);
      MinesSettled(start, k, mines, safes, knownMines, truth);
      MarkMines(knownMines, truth);
    }
  }
}
