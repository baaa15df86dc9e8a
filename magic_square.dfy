/** The magic-square engine: an N×N grid of integers, its random
    population, the first-row phase of the determined population, and the
    verifier of the magic-square property. */
module MagicSquares {
  import opened RandomValues
  import opened DrawRuns
  import opened GridSums
  import opened RowMajor

  /** Draws values from `src` until one lies outside `avoid`, as the
      retry loops of both population strategies do.  It reads k draws from
      the front of the tape: every draw but the last was rejected, and the
      last decides the result, a fault being the reader's error passed on
      unchanged.  An empty tape ends the retries with `EntropyExhausted`,
      every draw having been rejected. */
  method DrawAvoiding(lowerBound: int, upperBound: int, power: int, avoid: set<int>, src: Entropy)
    returns (r: Result<int>, ghost k: nat)
    requires lowerBound <= upperBound
    modifies src
    ensures r.Ok? ==> Generable(r.value, lowerBound, upperBound, power) && r.value !in avoid
    ensures k <= |old(src.tape)| && src.tape == old(src.tape)[k..]
    ensures r == Err(EntropyExhausted) ==> k == |old(src.tape)|
    ensures forall m :: 0 <= m < k && (m < k - 1 || r == Err(EntropyExhausted)) ==>
              Rejected(lowerBound, upperBound, power, avoid, old(src.tape)[m])
    ensures r != Err(EntropyExhausted) ==>
              0 < k && r == GenerateRandomBigInt(lowerBound, upperBound, power, old(src.tape)[k - 1])
  {
    ghost var tape := src.tape;
    k := 0;
    while true
      invariant k <= |tape| && src.tape == tape[k..]
      invariant forall m :: 0 <= m < k ==> Rejected(lowerBound, upperBound, power, avoid, tape[m])
      decreases |src.tape|
    {
      var d := src.Read();
      if d.None? {
        r := Err(EntropyExhausted);
        return;
      }
      assert d.value == tape[k];
      k := k + 1;
      r := GenerateRandomBigInt(lowerBound, upperBound, power, d.value);
      if r.Err? || r.value !in avoid {
        return;
      }
    }
  }

  /** One cell's draw during a fill from `tape`, whose first c draws are
      already consumed; it leaves the first c' consumed, and a fault among
      them is the reader's error passed on.  Its outcome is the first step
      of the reference fill: going on with `left` cells from draw c on is
      going on with `left - 1` cells from draw c' on once this cell's value
      is placed, or fails with this draw's error. */
  method DrawCell(lowerBound: int, upperBound: int, power: int, avoid: set<int>, src: Entropy,
                  ghost tape: seq<Draw>, ghost c: nat, ghost placed: seq<int>, ghost avoiding: bool,
                  ghost left: nat)
    returns (r: Result<int>, ghost c': nat)
    requires lowerBound <= upperBound
    requires c <= |tape| && src.tape == tape[c..]
    requires avoid == if avoiding then Elements(placed) else {}
    requires left > 0
    modifies src
    ensures r.Ok? ==> Generable(r.value, lowerBound, upperBound, power) && r.value !in avoid
    ensures c <= c' <= |tape| && src.tape == tape[c'..]
    ensures r == Err(EntropyExhausted) ==> src.tape == []
    ensures r == Err(RandomSourceError) ==> Fault in tape[..c']
    ensures Fill(lowerBound, upperBound, power, avoiding, tape, c, left, placed)
            == if r.Ok? then Fill(lowerBound, upperBound, power, avoiding, tape, c', left - 1, placed + [r.value])
               else Err(r.error)
  {
    ghost var k;
    r, k := DrawAvoiding(lowerBound, upperBound, power, avoid, src);
    c' := c + k;
    assert tape[c..][k..] == tape[c'..];
    // The draws the retry loop rejected, before the one that decided.
    ghost var d := if r == Err(EntropyExhausted) then c' else c' - 1;
    assert forall m :: c <= m < d ==> Rejected(lowerBound, upperBound, power, avoid, tape[m]) by {
      forall m | c <= m < d
        ensures Rejected(lowerBound, upperBound, power, avoid, tape[m])
      {
        assert tape[m] == tape[c..][m - c];
      }
    }
    if avoiding {
      SkipRejected(lowerBound, upperBound, power, placed, tape, c, d, left);
    }
    if r != Err(EntropyExhausted) {
      assert tape[c' - 1] == tape[c..][k - 1];
      if r.Err? {
        assert tape[..c'][c' - 1] == Fault;
      }
    }
  }

  class MagicSquare {
    const size: nat
    const square: array2<int>
    const unique: bool
    /** 2 for squares, 3 for cubes, and so on; 1 or less leaves values as drawn. */
    const power: int

    /** The grid is size × size. */
    ghost predicate Valid()
      reads this
    {
      square.Length0 == size && square.Length1 == size
    }

    /** The grid as a sequence of rows. */
    ghost function Grid(): (g: seq<seq<int>>)
      reads this, square
      requires Valid()
      ensures IsSquare(g) && |g| == size
      ensures forall i, j :: 0 <= i < size && 0 <= j < size ==> g[i][j] == square[i, j]
    {
      seq(size, i requires 0 <= i < size reads square =>
        seq(size, j requires 0 <= j < size reads square => square[i, j]))
    }

    /** Allocates a size × size grid with every cell zero. */
    constructor (size: nat, unique: bool, power: int)
      ensures Valid() && fresh(square)
      ensures this.size == size && this.unique == unique && this.power == power
      ensures forall i, j :: 0 <= i < size && 0 <= j < size ==> square[i, j] == 0
    {
      var cells := new int[size, size];
      for i := 0 to size
        invariant forall a, b :: 0 <= a < i && 0 <= b < size ==> cells[a, b] == 0
      {
        for j := 0 to size
          invariant forall a, b :: 0 <= a < i && 0 <= b < size ==> cells[a, b] == 0
          invariant forall b :: 0 <= b < j ==> cells[i, b] == 0
        {
          cells[i, j] := 0;
        }
      }
      this.size := size;
      this.square := cells;
      this.unique := unique;
      this.power := power;
    }

    /** Fills the grid cell by cell in row-major order with values drawn from
        `src`.  When `unique` is set, a cell is redrawn until its value is not
        among those written so far.  A failed draw ends the fill, passing the
        reader's error on unchanged, and may leave the grid partial.  The
        outcome is that of the reference fill of N² cells from the tape:
        without uniqueness it succeeds exactly when the first N² draws are
        good, with it exactly when the good draws before the first failure
        make N² different values. */
    method PopulateSquareRandom(lowerBound: int, upperBound: int, src: Entropy) returns (err: Option<Error>)
      requires Valid()
      requires size == 0 || lowerBound <= upperBound
      modifies square, src
      ensures err.None? ==> forall a, b :: 0 <= a < size && 0 <= b < size ==>
                Generable(square[a, b], lowerBound, upperBound, power)
      ensures err.None? && unique ==> AllDistinct(square)
      ensures err.Some? ==> size > 0
      ensures err == Some(EntropyExhausted) ==> src.tape == []
      ensures |src.tape| <= |old(src.tape)|
      ensures err == Some(RandomSourceError) ==> Fault in old(src.tape)[..|old(src.tape)| - |src.tape|]
      ensures size > 0 ==>
                var run := Fill(lowerBound, upperBound, power, unique, old(src.tape), 0, size * size, []);
                && (err.None? <==> run.Ok?)
                && (err.Some? ==> run == Err(err.value))
      ensures !unique && size > 0 ==> (err.None? <==> GoodDraws(lowerBound, upperBound, power, old(src.tape), size * size))
      ensures unique && size > 0 ==> (err.None? <==> Enough(lowerBound, upperBound, power, old(src.tape), size * size))
      ensures DistinctDraws(lowerBound, upperBound, power, old(src.tape), size * size) ==> err.None?
      ensures size > 0 && err.None? ==>
                var run := Fill(lowerBound, upperBound, power, unique, old(src.tape), 0, size * size, []);
                run.Ok? && HoldsPlaced(square, run.value, size, 0)
    {
      if size == 0 {
        // An empty grid needs no draws.
        return None;
      }
      ghost var tape := src.tape;
      ghost var n := size * size;
      ghost var run := Fill(lowerBound, upperBound, power, unique, tape, 0, n, []);
      var used: set<int> := {};
      // Under uniqueness, each used value is owned by the one cell holding it.
      ghost var owner: map<int, (nat, nat)> := map[];
      // The values placed so far, the number of draws consumed, and the
      // number of cells still to fill.
      ghost var placed: seq<int> := [];
      ghost var c: nat := 0;
      ghost var left: nat := n;
      for i := 0 to size
        invariant used == Written(square, i, 0)
        invariant InRangeBefore(square, i, 0, lowerBound, upperBound, power)
        invariant unique ==> OwnedBefore(square, owner, i, 0)
        invariant c <= |tape| && src.tape == tape[c..]
        invariant i * size + left == n
        invariant used == Elements(placed)
        invariant |placed| == RowStart(i, size) && HoldsPlaced(square, placed, i, 0)
        invariant run == Fill(lowerBound, upperBound, power, unique, tape, c, left, placed)
      {
        CellBeforeEnd(i, size - 1, size);
        err, used, owner, placed, c := FillRow(lowerBound, upperBound, src, i, used, owner, placed, tape, c, left, run);
        if err.Some? {
          FillVerdict(lowerBound, upperBound, power, unique, tape, n);
          return;
        }
        left := left - size;
        assert i * size + size == (i + 1) * size;
      }
      if unique {
        OwnedDistinct(square, owner);
      }
      assert InRangeBefore(square, size, 0, lowerBound, upperBound, power);
      assert run == Ok(placed);
      FillVerdict(lowerBound, upperBound, power, unique, tape, n);
      return None;
    }

    /** Row i of the random fill: draws its cells left to right, each
        avoiding the values in `used` when `unique` is set, and adds their
        values to `used`.  On success it leaves the fill state ready for row
        i + 1 and the reference fill `left - N` cells from its end; a failed
        draw stops it with the outcome of the reference fill. */
    method FillRow(lowerBound: int, upperBound: int, src: Entropy, i: nat, used: set<int>,
                   ghost owner: map<int, (nat, nat)>, ghost placed: seq<int>,
                   ghost tape: seq<Draw>, ghost c: nat, ghost left: nat, ghost run: Result<seq<int>>)
      returns (err: Option<Error>, used': set<int>, ghost owner': map<int, (nat, nat)>,
               ghost placed': seq<int>, ghost c': nat)
      requires Valid() && i < size && lowerBound <= upperBound
      requires used == Written(square, i, 0)
      requires InRangeBefore(square, i, 0, lowerBound, upperBound, power)
      requires unique ==> OwnedBefore(square, owner, i, 0)
      requires c <= |tape| && src.tape == tape[c..]
      requires size <= left
      requires used == Elements(placed)
      requires |placed| == RowStart(i, size) && HoldsPlaced(square, placed, i, 0)
      requires run == Fill(lowerBound, upperBound, power, unique, tape, c, left, placed)
      modifies square, src
      ensures forall a, b :: 0 <= a < size && a != i && 0 <= b < size ==> square[a, b] == old(square[a, b])
      ensures c <= c' <= |tape| && src.tape == tape[c'..]
      ensures err == Some(EntropyExhausted) ==> src.tape == []
      ensures err == Some(RandomSourceError) ==> Fault in tape[..c']
      ensures err.Some? ==> run == Err(err.value)
      ensures err.None? ==>
                && used' == Written(square, i + 1, 0)
                && InRangeBefore(square, i + 1, 0, lowerBound, upperBound, power)
                && (unique ==> OwnedBefore(square, owner', i + 1, 0))
                && used' == Elements(placed')
                && |placed'| == |placed| + size && HoldsPlaced(square, placed', i + 1, 0)
                && run == Fill(lowerBound, upperBound, power, unique, tape, c', left - size, placed')
    {
      used', owner', placed', c' := used, owner, placed, c;
      ghost var rem := left;
      for j := 0 to size
        invariant used' == Written(square, i, j)
        invariant InRangeBefore(square, i, j, lowerBound, upperBound, power)
        invariant unique ==> OwnedBefore(square, owner', i, j)
        invariant c <= c' <= |tape| && src.tape == tape[c'..]
        invariant rem + j == left
        invariant used' == Elements(placed')
        invariant |placed'| == |placed| + j && HoldsPlaced(square, placed', i, j)
        invariant forall a, b :: 0 <= a < size && a != i && 0 <= b < size ==> square[a, b] == old(square[a, b])
        invariant run == Fill(lowerBound, upperBound, power, unique, tape, c', rem, placed')
      {
        err, used', owner', placed', c' := FillCell(lowerBound, upperBound, src, i, j, used', owner', placed', tape, c', rem);
        if err.Some? {
          return;
        }
        rem := rem - 1;
      }
      WrittenNextRow(square, i);
      return None, used', owner', placed', c';
    }

    /** Cell (i, j) of the random fill: draws its value, avoiding `used` when
        `unique` is set, and writes it, taking the fill state and the
        reference fill one cell further; a failed draw writes nothing and ends
        with the outcome of the reference fill. */
    method FillCell(lowerBound: int, upperBound: int, src: Entropy, i: nat, j: nat, used: set<int>,
                    ghost owner: map<int, (nat, nat)>, ghost placed: seq<int>,
                    ghost tape: seq<Draw>, ghost c: nat, ghost left: nat)
      returns (err: Option<Error>, used': set<int>, ghost owner': map<int, (nat, nat)>,
               ghost placed': seq<int>, ghost c': nat)
      requires Valid() && i < size && j < size && lowerBound <= upperBound
      requires used == Written(square, i, j)
      requires InRangeBefore(square, i, j, lowerBound, upperBound, power)
      requires unique ==> OwnedBefore(square, owner, i, j)
      requires c <= |tape| && src.tape == tape[c..]
      requires left > 0
      requires used == Elements(placed)
      requires |placed| == RowStart(i, size) + j && HoldsPlaced(square, placed, i, j)
      modifies square, src
      ensures forall a, b :: 0 <= a < size && 0 <= b < size && (a != i || b != j) ==> square[a, b] == old(square[a, b])
      ensures c <= c' <= |tape| && src.tape == tape[c'..]
      ensures err == Some(EntropyExhausted) ==> src.tape == []
      ensures err == Some(RandomSourceError) ==> Fault in tape[..c']
      ensures err.Some? ==> Fill(lowerBound, upperBound, power, unique, tape, c, left, placed) == Err(err.value)
      ensures err.None? ==>
                && used' == Written(square, i, j + 1)
                && InRangeBefore(square, i, j + 1, lowerBound, upperBound, power)
                && (unique ==> OwnedBefore(square, owner', i, j + 1))
                && used' == Elements(placed')
                && |placed'| == |placed| + 1 && HoldsPlaced(square, placed', i, j + 1)
                && Fill(lowerBound, upperBound, power, unique, tape, c, left, placed)
                   == Fill(lowerBound, upperBound, power, unique, tape, c', left - 1, placed')
    {
      used', owner', placed' := used, owner, placed;
      var r;
      r, c' := DrawCell(lowerBound, upperBound, power, if unique then used else {}, src,
                        tape, c, placed, unique, left);
      if r.Err? {
        return Some(r.error), used', owner', placed', c';
      }
      var num := r.value;
      Place(square, i, j, num, lowerBound, upperBound, power, owner, placed);
      if unique {
        owner' := owner[num := (i, j)];
      }
      ElementsAppend(placed, num);
      used' := used + {num};
      placed' := placed + [num];
      return None, used', owner', placed', c';
    }

    /** The first-row phase of the determined population: fills row 0 with
        drawn values that are pairwise distinct whatever `unique` says, and
        returns their sum.  The other rows are not touched.  A failed draw
        passes the reader's error on unchanged.  Row 0 ends up holding exactly
        the values of the reference fill of N cells avoiding repeats, which
        succeeds exactly when the good draws before the first failure make N
        different values. */
    method PopulateFirstRow(lowerBound: int, upperBound: int, src: Entropy) returns (r: Result<int>)
      requires Valid()
      requires size == 0 || lowerBound <= upperBound
      modifies square, src
      ensures forall a, b :: 1 <= a < size && 0 <= b < size ==> square[a, b] == old(square[a, b])
      ensures r.Ok? && size == 0 ==> r.value == 0
      ensures r.Ok? && size > 0 ==> r.value == Sum(Grid()[0])
      ensures r.Ok? ==> forall b :: 0 <= b < size ==> Generable(square[0, b], lowerBound, upperBound, power)
      ensures r.Ok? ==> forall b, c :: 0 <= b < c < size ==> square[0, b] != square[0, c]
      ensures r.Err? ==> size > 0
      ensures r == Err(EntropyExhausted) ==> src.tape == []
      ensures |src.tape| <= |old(src.tape)|
      ensures r == Err(RandomSourceError) ==> Fault in old(src.tape)[..|old(src.tape)| - |src.tape|]
      ensures size > 0 ==>
                var run := Fill(lowerBound, upperBound, power, true, old(src.tape), 0, size, []);
                && (r.Ok? ==> run == Ok(Grid()[0]))
                && (r.Err? ==> run == Err(r.error))
      ensures size > 0 ==> (r.Ok? <==> Enough(lowerBound, upperBound, power, old(src.tape), size))
      ensures DistinctDraws(lowerBound, upperBound, power, old(src.tape), size) ==> r.Ok?
    {
      if size == 0 {
        // An empty row needs no draws and sums to zero.
        return Ok(0);
      }
      ghost var tape := src.tape;
      ghost var run := Fill(lowerBound, upperBound, power, true, tape, 0, size, []);
      var err, rowSum, row, c := FillFirstRow(lowerBound, upperBound, src, tape, run);
      FillVerdict(lowerBound, upperBound, power, true, tape, size);
      if err.Some? {
        return Err(err.value);
      }
      assert Grid()[0] == row;
      FillValues(lowerBound, upperBound, power, true, tape, 0, size, []);
      return Ok(rowSum);
    }

    /** The loop of the first-row phase: draws the cells of row 0 left to
        right, each avoiding the values already in the row, and adds them up.
        On success row 0 holds the values of the reference fill and `rowSum`
        is their sum; a failed draw stops it with the outcome of the
        reference fill. */
    method FillFirstRow(lowerBound: int, upperBound: int, src: Entropy,
                        ghost tape: seq<Draw>, ghost run: Result<seq<int>>)
      returns (err: Option<Error>, rowSum: int, ghost row: seq<int>, ghost c: nat)
      requires Valid() && size > 0 && lowerBound <= upperBound
      requires src.tape == tape
      requires run == Fill(lowerBound, upperBound, power, true, tape, 0, size, [])
      modifies square, src
      ensures forall a, b :: 1 <= a < size && 0 <= b < size ==> square[a, b] == old(square[a, b])
      ensures c <= |tape| && src.tape == tape[c..]
      ensures err == Some(EntropyExhausted) ==> src.tape == []
      ensures err == Some(RandomSourceError) ==> Fault in tape[..c]
      ensures err.Some? ==> run == Err(err.value)
      ensures err.None? ==>
                && |row| == size
                && (forall b :: 0 <= b < size ==> square[0, b] == row[b])
                && rowSum == Sum(row)
                && run == Ok(row)
    {
      var used: set<int> := {};
      rowSum := 0;
      row := [];
      c := 0;
      for j := 0 to size
        invariant |row| == j
        invariant forall b :: 0 <= b < j ==> square[0, b] == row[b]
        invariant forall a, b :: 1 <= a < size && 0 <= b < size ==> square[a, b] == old(square[a, b])
        invariant rowSum == Sum(row)
        invariant used == Elements(row)
        invariant c <= |tape| && src.tape == tape[c..]
        invariant run == Fill(lowerBound, upperBound, power, true, tape, c, size - j, row)
      {
        var g;
        g, c := DrawCell(lowerBound, upperBound, power, used, src, tape, c, row, true, size - j);
        if g.Err? {
          return Some(g.error), rowSum, row, c;
        }
        var num := g.value;
        square[0, j] := num;
        assert (row + [num])[..j] == row;
        ElementsAppend(row, num);
        rowSum := rowSum + num;
        used := used + {num};
        row := row + [num];
      }
      return None, rowSum, row, c;
    }

    /** The sum of row i of `g`, the current grid, accumulated left to right. */
    method SumOfRow(ghost g: seq<seq<int>>, i: nat) returns (s: int)
      requires Valid() && g == Grid() && i < size
      ensures s == Sum(g[i])
    {
      s := 0;
      for j := 0 to size
        invariant s == Sum(g[i][..j])
      {
        SumExtend(g[i], j);
        s := s + square[i, j];
      }
      SumWhole(g[i]);
    }

    /** The sum of column j of `g`, the current grid, accumulated top to bottom. */
    method SumOfColumn(ghost g: seq<seq<int>>, j: nat) returns (s: int)
      requires Valid() && g == Grid() && j < size
      ensures s == Sum(Column(g, j))
    {
      ghost var column := Column(g, j);
      s := 0;
      for i := 0 to size
        invariant s == Sum(column[..i])
      {
        SumExtend(column, i);
        s := s + square[i, j];
      }
      SumWhole(column);
    }

    /** The sums of the main diagonal and of the anti-diagonal of `g`, the
        current grid, in one pass. */
    method SumOfDiagonals(ghost g: seq<seq<int>>) returns (mainDiag: int, antiDiag: int)
      requires Valid() && g == Grid()
      ensures mainDiag == Sum(MainDiagonal(g))
      ensures antiDiag == Sum(AntiDiagonal(g))
    {
      ghost var main := MainDiagonal(g);
      ghost var anti := AntiDiagonal(g);
      mainDiag, antiDiag := 0, 0;
      for i := 0 to size
        invariant mainDiag == Sum(main[..i])
        invariant antiDiag == Sum(anti[..i])
      {
        SumExtend(main, i);
        SumExtend(anti, i);
        mainDiag := mainDiag + square[i, i];
        antiDiag := antiDiag + square[i, size - i - 1];
      }
      SumWhole(main);
      SumWhole(anti);
    }

    /** Checks rows 1..size-1 of `g`, the current grid, against `target`,
        stopping at the first row whose sum differs. */
    method RowsMatch(ghost g: seq<seq<int>>, target: int) returns (ok: bool)
      requires Valid() && g == Grid() && size > 0 && target == Sum(g[0])
      ensures ok <==> forall a :: 0 <= a < size ==> Sum(g[a]) == target
    {
      var tempSum := 0;
      for i := 1 to size
        invariant forall a :: 0 <= a < i ==> Sum(g[a]) == target
      {
        tempSum := SumOfRow(g, i);
        if tempSum != target {
          return false;
        }
      }
      return true;
    }

    /** Checks every column of `g`, the current grid, against `target`,
        stopping at the first column whose sum differs. */
    method ColumnsMatch(ghost g: seq<seq<int>>, target: int) returns (ok: bool)
      requires Valid() && g == Grid()
      ensures ok <==> forall c :: 0 <= c < size ==> Sum(Column(g, c)) == target
    {
      var tempSum := 0;
      for j := 0 to size
        invariant forall c :: 0 <= c < j ==> Sum(Column(g, c)) == target
      {
        tempSum := SumOfColumn(g, j);
        if tempSum != target {
          return false;
        }
      }
      return true;
    }

    /** The verifier: an empty grid is never magic; otherwise every row
        sum, every column sum and the two diagonal sums are compared with the
        sum of row 0. */
    method IsMagic() returns (b: bool)
      requires Valid()
      ensures b == IsMagicGrid(Grid())
    {
      ghost var g := Grid();
      if size == 0 {
        b := false;
      } else {
        b := CheckLines(g);
      }
    }

    /** Compares the lines of the non-empty grid `g`, the current grid, with
        the sum of row 0, giving up at the first mismatch. */
    method CheckLines(ghost g: seq<seq<int>>) returns (b: bool)
      requires Valid() && g == Grid() && size > 0
      ensures b == IsMagicGrid(g)
    {
      var sum := SumOfRow(g, 0);
      var rowsOk := RowsMatch(g, sum);
      if !rowsOk {
        return false;
      }
      var columnsOk := ColumnsMatch(g, sum);
      if !columnsOk {
        return false;
      }
      var mainDiag, antiDiag := SumOfDiagonals(g);
      DiagonalsDecide(g);
      return mainDiag == sum && antiDiag == sum;
    }
  }

  /** The verifier has no side effects: asking twice gives the same answer. */
  method IsMagicTwice(ms: MagicSquare) returns (first: bool, second: bool)
    requires ms.Valid()
    ensures first == second
  {
    first := ms.IsMagic();
    second := ms.IsMagic();
  }

  /** A grid loaded with the given rows, cell by cell; it has no counterpart
      in the engine and only builds the grids `LoShuVerdicts` runs the
      verifier on. */
  method FromRows(rows: seq<seq<int>>, unique: bool, power: int) returns (ms: MagicSquare)
    requires IsSquare(rows)
    ensures ms.Valid() && fresh(ms.square) && ms.Grid() == rows
  {
    var n := |rows|;
    ms := new MagicSquare(n, unique, power);
    for i := 0 to n
      invariant forall a, b :: 0 <= a < i && 0 <= b < n ==> ms.square[a, b] == rows[a][b]
    {
      for j := 0 to n
        invariant forall a, b :: 0 <= a < i && 0 <= b < n ==> ms.square[a, b] == rows[a][b]
        invariant forall b :: 0 <= b < j ==> ms.square[i, b] == rows[i][b]
      {
        ms.square[i, j] := rows[i][j];
      }
    }
    forall i | 0 <= i < n
      ensures ms.Grid()[i] == rows[i]
    {
    }
  }

  /** Runs the verifier on a grid holding the Lo Shu square, and on one whose
      corner 4 has been changed into a 5. */
  method LoShuVerdicts() returns (loShu: bool, altered: bool)
    ensures loShu && !altered
  {
    var ms := FromRows(LoShu, true, 1);
    LoShuIsMagic();
    loShu := ms.IsMagic();
    var changed := FromRows(LoShu[0 := [5, 9, 2]], true, 1);
    LoShuAlteredIsNotMagic();
    altered := changed.IsMagic();
  }
}
