/** Facts about the cells of a grid that come before a given cell in
    row-major order, the order in which the population loops write. */
module RowMajor {
  import opened RandomValues

  /** Cell (a, b) comes before cell (i, j) in row-major order. */
  predicate Before(a: nat, b: nat, i: nat, j: nat)
  {
    a < i || (a == i && b < j)
  }

  /** The values held by the cells before (i, j). */
  ghost function Written(cells: array2<int>, i: nat, j: nat): (vs: set<int>)
    reads cells
  {
    set a, b | 0 <= a < cells.Length0 && 0 <= b < cells.Length1 && Before(a, b, i, j) :: cells[a, b]
  }

  /** The cells before (i, j) hold values the generator can return. */
  ghost predicate InRangeBefore(cells: array2<int>, i: nat, j: nat, lowerBound: int, upperBound: int, power: int)
    reads cells
  {
    forall a, b :: 0 <= a < cells.Length0 && 0 <= b < cells.Length1 && Before(a, b, i, j) ==>
      Generable(cells[a, b], lowerBound, upperBound, power)
  }

  /** Every cell before (i, j) holds a value that `owner` maps back to that
      cell: a witness that those cells are pairwise distinct. */
  ghost predicate OwnedBefore(cells: array2<int>, owner: map<int, (nat, nat)>, i: nat, j: nat)
    reads cells
  {
    forall a, b :: 0 <= a < cells.Length0 && 0 <= b < cells.Length1 && Before(a, b, i, j) ==>
      cells[a, b] in owner && owner[cells[a, b]] == (a, b)
  }

  /** The row-major position of the first cell of row a, in rows n wide. */
  function RowStart(a: nat, n: nat): (p: nat)
  {
    if a == 0 then 0 else RowStart(a - 1, n) + n
  }

  /** Row a starts after a full rows of n cells. */
  lemma {:induction false} RowStartIsProduct(a: nat, n: nat)
    ensures RowStart(a, n) == a * n
  {
    if a > 0 {
      RowStartIsProduct(a - 1, n);
      assert (a - 1) * n + n == a * n;
    }
  }

  /** Every cell before (i, j) holds the value placed at its row-major
      position: cell (a, b) holds the value at position RowStart(a, N) + b,
      that is a * N + b, of `vs`. */
  ghost predicate HoldsPlaced(cells: array2<int>, vs: seq<int>, i: nat, j: nat)
    reads cells
  {
    forall a, b :: 0 <= a < cells.Length0 && 0 <= b < cells.Length1 && Before(a, b, i, j) ==>
      RowStart(a, cells.Length1) + b < |vs| && cells[a, b] == vs[RowStart(a, cells.Length1) + b]
  }

  /** Once every cell holds its placed value, cell (a, b) holds the value at
      position a * N + b. */
  lemma PlacedAt(cells: array2<int>, vs: seq<int>, a: nat, b: nat)
    requires HoldsPlaced(cells, vs, cells.Length0, 0)
    requires a < cells.Length0 && b < cells.Length1
    ensures a * cells.Length1 + b < |vs| && cells[a, b] == vs[a * cells.Length1 + b]
  {
    RowStartIsProduct(a, cells.Length1);
    assert Before(a, b, cells.Length0, 0);
  }

  /** No two cells of the grid hold the same value. */
  ghost predicate AllDistinct(cells: array2<int>)
    reads cells
  {
    forall a, b, c, d ::
      0 <= a < cells.Length0 && 0 <= b < cells.Length1 && 0 <= c < cells.Length0 && 0 <= d < cells.Length1 &&
      (a != c || b != d) ==>
      cells[a, b] != cells[c, d]
  }

  /** The cells before the end of row i are those before the start of row
      i + 1. */
  lemma WrittenNextRow(cells: array2<int>, i: nat)
    ensures Written(cells, i, cells.Length1) == Written(cells, i + 1, 0)
  {
    forall a, b | 0 <= a < cells.Length0 && 0 <= b < cells.Length1
      ensures Before(a, b, i, cells.Length1) == Before(a, b, i + 1, 0)
    {
    }
  }

  /** Once every cell is owned, no value appears twice. */
  lemma OwnedDistinct(cells: array2<int>, owner: map<int, (nat, nat)>)
    requires OwnedBefore(cells, owner, cells.Length0, 0)
    ensures AllDistinct(cells)
  {
  }

  /** Cell (i, j) of an n × n grid is among the first n * n in row-major order. */
  lemma CellBeforeEnd(i: nat, j: nat, n: nat)
    requires i < n && j < n
    ensures i * n + j < n * n
  {
    assert i * n + j < i * n + n == (i + 1) * n;
    assert (i + 1) * n <= n * n;
  }

  /** Writing `num` into cell (i, j), the next cell in row-major order. */
  method Place(cells: array2<int>, i: nat, j: nat, num: int,
               ghost lowerBound: int, ghost upperBound: int, ghost power: int, ghost owner: map<int, (nat, nat)>,
               ghost vs: seq<int>)
    requires i < cells.Length0 && j < cells.Length1
    modifies cells
    ensures cells[i, j] == num
    ensures forall a, b :: 0 <= a < cells.Length0 && 0 <= b < cells.Length1 && (a != i || b != j) ==>
              cells[a, b] == old(cells[a, b])
    ensures Written(cells, i, j + 1) == old(Written(cells, i, j)) + {num}
    ensures old(InRangeBefore(cells, i, j, lowerBound, upperBound, power)) && Generable(num, lowerBound, upperBound, power) ==>
              InRangeBefore(cells, i, j + 1, lowerBound, upperBound, power)
    ensures old(OwnedBefore(cells, owner, i, j)) && num !in old(Written(cells, i, j)) ==>
              OwnedBefore(cells, owner[num := (i, j)], i, j + 1)
    ensures old(HoldsPlaced(cells, vs, i, j)) && |vs| == RowStart(i, cells.Length1) + j ==>
              HoldsPlaced(cells, vs + [num], i, j + 1)
  {
    cells[i, j] := num;
    // Naming j + 1 lets the cells before it serve as a trigger.
    ghost var next := j + 1;
    assert Written(cells, i, next) == old(Written(cells, i, j)) + {num} by {
      ghost var before := old(Written(cells, i, j));
      forall a, b | 0 <= a < cells.Length0 && 0 <= b < cells.Length1 && Before(a, b, i, j)
        ensures cells[a, b] in before
      {
        assert old(cells[a, b]) in before;
      }
    }
    assert old(InRangeBefore(cells, i, j, lowerBound, upperBound, power)) && Generable(num, lowerBound, upperBound, power) ==>
             InRangeBefore(cells, i, next, lowerBound, upperBound, power) by {
      if old(InRangeBefore(cells, i, j, lowerBound, upperBound, power)) && Generable(num, lowerBound, upperBound, power) {
        forall a, b | 0 <= a < cells.Length0 && 0 <= b < cells.Length1 && Before(a, b, i, next)
          ensures Generable(cells[a, b], lowerBound, upperBound, power)
        {
          if a != i || b != j {
            assert Before(a, b, i, j);
          }
        }
      }
    }
    assert old(OwnedBefore(cells, owner, i, j)) && num !in old(Written(cells, i, j)) ==>
             OwnedBefore(cells, owner[num := (i, j)], i, next) by {
      if old(OwnedBefore(cells, owner, i, j)) && num !in old(Written(cells, i, j)) {
        forall a, b | 0 <= a < cells.Length0 && 0 <= b < cells.Length1 && Before(a, b, i, next)
          ensures cells[a, b] in owner[num := (i, j)] && owner[num := (i, j)][cells[a, b]] == (a, b)
        {
          if a != i || b != j {
            assert Before(a, b, i, j);
            assert old(cells[a, b]) in old(Written(cells, i, j));
          }
        }
      }
    }
    assert old(HoldsPlaced(cells, vs, i, j)) && |vs| == RowStart(i, cells.Length1) + j ==>
             HoldsPlaced(cells, vs + [num], i, next) by {
      if old(HoldsPlaced(cells, vs, i, j)) && |vs| == RowStart(i, cells.Length1) + j {
        forall a, b | 0 <= a < cells.Length0 && 0 <= b < cells.Length1 && Before(a, b, i, next)
          ensures RowStart(a, cells.Length1) + b < |vs + [num]|
          ensures cells[a, b] == (vs + [num])[RowStart(a, cells.Length1) + b]
        {
          if a != i || b != j {
            assert Before(a, b, i, j);
            assert old(cells[a, b]) == vs[RowStart(a, cells.Length1) + b];
          }
        }
      }
    }
  }
}
