/** The magic-square property over a grid given as a sequence of rows.

    These definitions are the specification the engine's verifier is proved
    against: a non-empty N×N grid is magic when every row, every column, the
    main diagonal and the anti-diagonal all add up to the sum of row 0. */
module GridSums {

  /** The sum of a sequence, accumulated from the left as the verifier's loops do. */
  function Sum(s: seq<int>): (total: int)
  {
    if s == [] then 0 else Sum(s[..|s| - 1]) + s[|s| - 1]
  }

  /** Every row has as many cells as there are rows. */
  predicate IsSquare(g: seq<seq<int>>)
  {
    forall i :: 0 <= i < |g| ==> |g[i]| == |g|
  }

  /** Column j, read top to bottom. */
  function Column(g: seq<seq<int>>, j: nat): (c: seq<int>)
    requires IsSquare(g) && j < |g|
    ensures |c| == |g|
  {
    seq(|g|, i requires 0 <= i < |g| => g[i][j])
  }

  /** The cells g[i][i]. */
  function MainDiagonal(g: seq<seq<int>>): (d: seq<int>)
    requires IsSquare(g)
    ensures |d| == |g|
  {
    seq(|g|, i requires 0 <= i < |g| => g[i][i])
  }

  /** The cells g[i][N-1-i]. */
  function AntiDiagonal(g: seq<seq<int>>): (d: seq<int>)
    requires IsSquare(g)
    ensures |d| == |g|
  {
    seq(|g|, i requires 0 <= i < |g| => g[i][|g| - 1 - i])
  }

  /** The magic-square property; an empty grid is never magic. */
  predicate IsMagicGrid(g: seq<seq<int>>)
    requires IsSquare(g)
  {
    && |g| > 0
    && (forall i :: 0 <= i < |g| ==> Sum(g[i]) == Sum(g[0]))
    && (forall j :: 0 <= j < |g| ==> Sum(Column(g, j)) == Sum(g[0]))
    && Sum(MainDiagonal(g)) == Sum(g[0])
    && Sum(AntiDiagonal(g)) == Sum(g[0])
  }

  /** Once every row and column matches row 0, the diagonals decide. */
  lemma DiagonalsDecide(g: seq<seq<int>>)
    requires IsSquare(g) && |g| > 0
    requires forall i :: 0 <= i < |g| ==> Sum(g[i]) == Sum(g[0])
    requires forall j :: 0 <= j < |g| ==> Sum(Column(g, j)) == Sum(g[0])
    ensures IsMagicGrid(g) <==> Sum(MainDiagonal(g)) == Sum(g[0]) && Sum(AntiDiagonal(g)) == Sum(g[0])
  {
  }

  /** Extending a prefix by one element adds that element to the sum. */
  lemma SumExtend(s: seq<int>, k: nat)
    requires k < |s|
    ensures Sum(s[..k + 1]) == Sum(s[..k]) + s[k]
  {
    assert s[..k + 1][..k] == s[..k];
  }

  lemma SumWhole(s: seq<int>)
    ensures Sum(s[..|s|]) == Sum(s)
  {
    assert s[..|s|] == s;
  }

  /** The classical 3×3 Lo Shu square. */
  const LoShu: seq<seq<int>> := [[4, 9, 2], [3, 5, 7], [8, 1, 6]]

  lemma SumOfThree(a: int, b: int, c: int)
    ensures Sum([a, b, c]) == a + b + c
  {
    assert [a, b, c][..2] == [a, b];
    assert [a, b][..1] == [a];
    assert [a][..0] == [];
    assert Sum([a]) == a;
    assert Sum([a, b]) == a + b;
  }

  /** The Lo Shu square is magic, with every line adding up to 15. */
  lemma LoShuIsMagic()
    ensures IsSquare(LoShu) && IsMagicGrid(LoShu)
  {
    SumOfThree(4, 9, 2);
    SumOfThree(3, 5, 7);
    SumOfThree(8, 1, 6);
    assert Column(LoShu, 0) == [4, 3, 8];
    assert Column(LoShu, 1) == [9, 5, 1];
    assert Column(LoShu, 2) == [2, 7, 6];
    SumOfThree(4, 3, 8);
    SumOfThree(9, 5, 1);
    SumOfThree(2, 7, 6);
    assert forall j :: 0 <= j < 3 ==> Sum(Column(LoShu, j)) == 15;
    assert MainDiagonal(LoShu) == [4, 5, 6];
    assert AntiDiagonal(LoShu) == [2, 5, 8];
    SumOfThree(4, 5, 6);
    SumOfThree(2, 5, 8);
  }

  /** Changing the corner 4 into a 5 breaks the property. */
  lemma LoShuAlteredIsNotMagic()
    ensures IsSquare(LoShu[0 := [5, 9, 2]]) && !IsMagicGrid(LoShu[0 := [5, 9, 2]])
  {
    var g := LoShu[0 := [5, 9, 2]];
    SumOfThree(5, 9, 2);
    SumOfThree(3, 5, 7);
    assert Sum(g[1]) != Sum(g[0]);
  }

  /** A grid with no rows is not magic. */
  lemma EmptyIsNotMagic()
    ensures IsSquare([]) && !IsMagicGrid([])
  {
  }

  /** The sum of all cells, row by row. */
  function Total(g: seq<seq<int>>): (total: int)
  {
    if g == [] then 0 else Total(g[..|g| - 1]) + Sum(g[|g| - 1])
  }

  lemma {:induction false} TotalOfEqualRows(g: seq<seq<int>>, t: int)
    requires forall i :: 0 <= i < |g| ==> Sum(g[i]) == t
    ensures Total(g) == |g| * t
  {
    if g != [] {
      var h := g[..|g| - 1];
      assert forall i :: 0 <= i < |h| ==> h[i] == g[i];
      TotalOfEqualRows(h, t);
    }
  }

  /** In a magic grid the cells add up to N times the common line sum. */
  lemma MagicTotal(g: seq<seq<int>>)
    requires IsSquare(g) && IsMagicGrid(g)
    ensures Total(g) == |g| * Sum(g[0])
  {
    TotalOfEqualRows(g, Sum(g[0]));
  }

  /** The grid mirrored along its main diagonal. */
  function Transpose(g: seq<seq<int>>): (t: seq<seq<int>>)
    requires IsSquare(g)
    ensures IsSquare(t) && |t| == |g|
  {
    seq(|g|, i requires 0 <= i < |g| => Column(g, i))
  }

  function Reverse(s: seq<int>): (r: seq<int>)
    ensures |r| == |s|
  {
    if s == [] then [] else [s[|s| - 1]] + Reverse(s[..|s| - 1])
  }

  lemma {:induction false} SumPrepend(x: int, s: seq<int>)
    ensures Sum([x] + s) == x + Sum(s)
  {
    if s != [] {
      assert ([x] + s)[..|s|] == [x] + s[..|s| - 1];
      SumPrepend(x, s[..|s| - 1]);
    }
  }

  lemma {:induction false} SumReverse(s: seq<int>)
    ensures Sum(Reverse(s)) == Sum(s)
  {
    if s != [] {
      SumReverse(s[..|s| - 1]);
      SumPrepend(s[|s| - 1], Reverse(s[..|s| - 1]));
    }
  }

  lemma {:induction false} ReverseAt(s: seq<int>, k: nat)
    requires k < |s|
    ensures Reverse(s)[k] == s[|s| - 1 - k]
  {
    if k > 0 {
      ReverseAt(s[..|s| - 1], k - 1);
    }
  }

  lemma TransposeColumn(g: seq<seq<int>>, j: nat)
    requires IsSquare(g) && j < |g|
    ensures Column(Transpose(g), j) == g[j]
  {
  }

  lemma TransposeDiagonals(g: seq<seq<int>>)
    requires IsSquare(g)
    ensures MainDiagonal(Transpose(g)) == MainDiagonal(g)
    ensures Sum(AntiDiagonal(Transpose(g))) == Sum(AntiDiagonal(g))
  {
    var t := Transpose(g);
    var n := |g|;
    assert MainDiagonal(t) == MainDiagonal(g);
    forall k | 0 <= k < n
      ensures AntiDiagonal(t)[k] == Reverse(AntiDiagonal(g))[k]
    {
      ReverseAt(AntiDiagonal(g), k);
    }
    assert AntiDiagonal(t) == Reverse(AntiDiagonal(g));
    SumReverse(AntiDiagonal(g));
  }

  lemma TransposeTwice(g: seq<seq<int>>)
    requires IsSquare(g)
    ensures Transpose(Transpose(g)) == g
  {
    var tt := Transpose(Transpose(g));
    forall i | 0 <= i < |g|
      ensures tt[i] == g[i]
    {
      TransposeColumn(g, i);
    }
  }

  lemma TransposeKeepsMagic(g: seq<seq<int>>)
    requires IsSquare(g) && IsMagicGrid(g)
    ensures IsMagicGrid(Transpose(g))
  {
    var t := Transpose(g);
    var target := Sum(g[0]);
    forall j | 0 <= j < |g|
      ensures Sum(t[j]) == target && Sum(Column(t, j)) == target
    {
      TransposeColumn(g, j);
    }
    TransposeDiagonals(g);
  }

  /** Mirroring a grid along its main diagonal keeps it magic, and back:
      rows and columns trade places and the anti-diagonal is read in reverse. */
  lemma TransposeMagic(g: seq<seq<int>>)
    requires IsSquare(g)
    ensures IsMagicGrid(g) <==> IsMagicGrid(Transpose(g))
  {
    if IsMagicGrid(g) {
      TransposeKeepsMagic(g);
    }
    if IsMagicGrid(Transpose(g)) {
      TransposeKeepsMagic(Transpose(g));
      TransposeTwice(g);
    }
  }
}
