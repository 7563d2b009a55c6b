/** The finite-volume heat conduction operator of a cylindric block (CylindricBlockBuilder): symmetric, conserving
    heat and dissipating. Values are exact reals. */
module ThermalOperator {
  datatype Entry = Entry(index: nat, value: real)

  type Matrix = seq<seq<Entry>>

  /** A block of `nRho` by `nPhi` elements. */
  datatype Block = Block(nRho: nat, nPhi: nat, rhoStart: real, dRho: real, dPhi: real, dZ: real, lambda: real) {
    ghost predicate Positive() {
      rhoStart >= 0.0 && dRho > 0.0 && dPhi > 0.0 && dZ > 0.0 && lambda > 0.0
    }

    function Index(i: nat, j: nat): nat {
      i + j * nRho
    }

    /** Conductance between the elements `i - 1` and `i` of a ray. */
    function Radial(i: nat): real
      requires dRho != 0.0
    {
      lambda * dZ * (rhoStart + dRho * i as real) * dPhi / dRho
    }

    /** Conductance between two neighbours on the arc of radius index `i`. */
    function Angular(i: nat): real
      requires (rhoStart + (0.5 + i as real) * dRho) * dPhi != 0.0
    {
      lambda * dZ * dRho / ((rhoStart + (0.5 + i as real) * dRho) * dPhi)
    }

    lemma RadialPositive(i: nat)
      requires Positive()
      ensures Radial(i) >= 0.0
    {
      var a := rhoStart + dRho * i as real;
      assert dRho * i as real >= 0.0;
      Product(lambda, dZ);
      Product(lambda * dZ, a);
      Product(lambda * dZ * a, dPhi);
    }

    lemma AngularPositive(i: nat)
      requires Positive()
      ensures (rhoStart + (0.5 + i as real) * dRho) * dPhi > 0.0 && Angular(i) >= 0.0
    {
      assert (0.5 + i as real) * dRho > 0.0;
      assert (rhoStart + (0.5 + i as real) * dRho) * dPhi > 0.0;
      Product(lambda, dZ);
      Product(lambda * dZ, dRho);
    }
  }

  lemma Product(x: real, y: real)
    requires x >= 0.0 && y >= 0.0
    ensures x * y >= 0.0
  {
  }

  // ---------------------------------------------------------------------------------------------
  // The matrix
  // ---------------------------------------------------------------------------------------------

  function Total(b: Block, i: nat, j: nat): real
    requires b.Positive() && i < b.nRho && j < b.nPhi
  {
    b.AngularPositive(i);
    (if i > 0 then b.Radial(i) else 0.0) + (if i < b.nRho - 1 then b.Radial(i + 1) else 0.0)
    + (if j > 0 then b.Angular(i) else 0.0) + (if j < b.nPhi - 1 then b.Angular(i) else 0.0)
  }

  /** The entries of the element `(i, j)`: its neighbours along the ray and along the arc, then itself. */
  function RowOf(b: Block, i: nat, j: nat): seq<Entry>
    requires b.Positive() && i < b.nRho && j < b.nPhi
  {
    b.AngularPositive(i);
    (if i > 0 then [Entry(b.Index(i - 1, j), b.Radial(i))] else [])
    + (if i < b.nRho - 1 then [Entry(b.Index(i + 1, j), b.Radial(i + 1))] else [])
    + (if j > 0 then [Entry(b.Index(i, j - 1), b.Angular(i))] else [])
    + (if j < b.nPhi - 1 then [Entry(b.Index(i, j + 1), b.Angular(i))] else [])
    + [Entry(b.Index(i, j), -Total(b, i, j))]
  }

  lemma IndexInRange(b: Block, i: nat, j: nat)
    requires i < b.nRho && j < b.nPhi
    ensures b.Index(i, j) < b.nRho * b.nPhi
  {
    assert (j + 1) * b.nRho <= b.nPhi * b.nRho;
  }

  lemma RowsApart(n: nat, i: nat, j: nat, k: nat, l: nat)
    requires i < n && j < l
    ensures i + j * n < k + l * n
  {
    Multiply(n, l - j - 1);
    assert l * n == j * n + n + (l - j - 1) * n;
  }

  lemma Multiply(a: nat, b: nat)
    ensures b * a >= 0
  {
  }

  /** Different elements have different indices, in the order in which the elements were made: along a ray first. */
  lemma IndexIsUnique(b: Block, i: nat, j: nat, k: nat, l: nat)
    requires i < b.nRho && k < b.nRho
    ensures b.Index(i, j) == b.Index(k, l) <==> i == k && j == l
    ensures b.Index(i, j) < b.Index(k, l) <==> j < l || (j == l && i < k)
  {
    if j < l {
      RowsApart(b.nRho, i, j, k, l);
    } else if l < j {
      RowsApart(b.nRho, k, l, i, j);
    }
  }

  ghost predicate IsOperator(b: Block, matrix: Matrix)
    requires b.Positive()
  {
    && |matrix| == b.nRho * b.nPhi
    && forall i: nat, j: nat :: i < b.nRho && j < b.nPhi ==>
         b.Index(i, j) < |matrix| && matrix[b.Index(i, j)] == RowOf(b, i, j)
  }

  class CylindricBlockBuilder {
    const nRho: nat
    var conductivityMatrix: Matrix

    constructor (b: Block)
      requires b.Positive()
      ensures nRho == b.nRho && IsOperator(b, conductivityMatrix)
    {
      nRho := b.nRho;
      conductivityMatrix := seq(b.nRho * b.nPhi, k => []);
      new;
      hide RowOf, Block.Index, Filled, Unfilled;
      NothingFilled(b, conductivityMatrix);
      var j := 0;
      while j < b.nPhi
        invariant j <= b.nPhi && |conductivityMatrix| == b.nRho * b.nPhi && Filled(b, conductivityMatrix, j, 0)
        invariant Unfilled(b, conductivityMatrix, j, 0)
      {
        var i := 0;
        while i < b.nRho
          invariant i <= b.nRho && |conductivityMatrix| == b.nRho * b.nPhi && Filled(b, conductivityMatrix, j, i)
          invariant Unfilled(b, conductivityMatrix, j, i)
        {
          FillOne(b, i, j);
          i := i + 1;
        }
        RowFilled(b, conductivityMatrix, j);
        j := j + 1;
      }
      AllFilled(b, conductivityMatrix);
    }

    /** One entry more in the row `k`, which holds `row` so far; the other rows are those of `was`. */
    method PushBack(k: nat, entry: Entry, ghost was: Matrix, ghost row: seq<Entry>)
      requires k < |was| && conductivityMatrix == was[k := row]
      modifies this
      ensures conductivityMatrix == was[k := row + [entry]]
    {
      conductivityMatrix := conductivityMatrix[k := conductivityMatrix[k] + [entry]];
    }

    /** The body of the inner loop: the entries of one element, as far as it has these neighbours. */
    method FillOne(b: Block, i: nat, j: nat)
      requires b.Positive() && i < b.nRho && j < b.nPhi && |conductivityMatrix| == b.nRho * b.nPhi
      requires Filled(b, conductivityMatrix, j, i) && Unfilled(b, conductivityMatrix, j, i)
      modifies this
      ensures |conductivityMatrix| == b.nRho * b.nPhi
      ensures Filled(b, conductivityMatrix, j, i + 1) && Unfilled(b, conductivityMatrix, j, i + 1)
    {
      hide Block.Index, Block.Radial, Block.Angular, Filled, Unfilled, RowOf;
      b.AngularPositive(i);
      IndexInRange(b, i, j);
      StillEmpty(b, conductivityMatrix, i, j);
      ghost var was, here := conductivityMatrix, b.Index(i, j);
      ghost var row: seq<Entry> := [];
      assert conductivityMatrix == was[here := row];
      var totalConductivity := 0.0;
      if i > 0 {
        var conductivity := b.Radial(i);
        totalConductivity := totalConductivity + conductivity;
        PushBack(b.Index(i, j), Entry(b.Index(i - 1, j), conductivity), was, row);
        row := row + [Entry(b.Index(i - 1, j), conductivity)];
      }
      if i < b.nRho - 1 {
        var conductivity := b.Radial(i + 1);
        totalConductivity := totalConductivity + conductivity;
        PushBack(b.Index(i, j), Entry(b.Index(i + 1, j), conductivity), was, row);
        row := row + [Entry(b.Index(i + 1, j), conductivity)];
      }
      if j > 0 {
        var conductivity := b.Angular(i);
        totalConductivity := totalConductivity + conductivity;
        PushBack(b.Index(i, j), Entry(b.Index(i, j - 1), conductivity), was, row);
        row := row + [Entry(b.Index(i, j - 1), conductivity)];
      }
      if j < b.nPhi - 1 {
        var conductivity := b.Angular(i);
        totalConductivity := totalConductivity + conductivity;
        PushBack(b.Index(i, j), Entry(b.Index(i, j + 1), conductivity), was, row);
        row := row + [Entry(b.Index(i, j + 1), conductivity)];
      }
      PushBack(b.Index(i, j), Entry(b.Index(i, j), -totalConductivity), was, row);
      RowIs(b, i, j, row, totalConductivity);
      OneFilled(b, was, i, j);
    }
  }

  lemma RowIs(b: Block, i: nat, j: nat, row: seq<Entry>, total: real)
    requires b.Positive() && i < b.nRho && j < b.nPhi
    requires (b.rhoStart + (0.5 + i as real) * b.dRho) * b.dPhi != 0.0
    requires row == (if i > 0 then [Entry(b.Index(i - 1, j), b.Radial(i))] else [])
                    + (if i < b.nRho - 1 then [Entry(b.Index(i + 1, j), b.Radial(i + 1))] else [])
                    + (if j > 0 then [Entry(b.Index(i, j - 1), b.Angular(i))] else [])
                    + (if j < b.nPhi - 1 then [Entry(b.Index(i, j + 1), b.Angular(i))] else [])
    requires total == Total(b, i, j)
    ensures row + [Entry(b.Index(i, j), -total)] == RowOf(b, i, j)
  {
    hide Block.Index, Block.Radial, Block.Angular, Total;
  }

  /** The rows up to element `(i, j)` in the order of the loops are done. */
  ghost predicate Filled(b: Block, matrix: Matrix, j: nat, i: nat)
    requires b.Positive()
  {
    forall k: nat, l: nat :: k < b.nRho && l < b.nPhi && (l < j || (l == j && k < i)) ==>
      b.Index(k, l) < |matrix| && matrix[b.Index(k, l)] == RowOf(b, k, l)
  }

  ghost predicate Unfilled(b: Block, matrix: Matrix, j: nat, i: nat) {
    forall k: nat, l: nat :: k < b.nRho && l < b.nPhi && !(l < j || (l == j && k < i)) ==>
      b.Index(k, l) < |matrix| && matrix[b.Index(k, l)] == []
  }

  lemma NothingFilled(b: Block, matrix: Matrix)
    requires b.Positive() && |matrix| == b.nRho * b.nPhi && forall k :: 0 <= k < |matrix| ==> matrix[k] == []
    ensures Filled(b, matrix, 0, 0) && Unfilled(b, matrix, 0, 0)
  {
    hide Block.Index;
    forall k: nat, l: nat | k < b.nRho && l < b.nPhi
      ensures b.Index(k, l) < |matrix|
    {
      IndexInRange(b, k, l);
    }
  }

  lemma StillEmpty(b: Block, matrix: Matrix, i: nat, j: nat)
    requires Unfilled(b, matrix, j, i) && i < b.nRho && j < b.nPhi
    ensures b.Index(i, j) < |matrix| && matrix[b.Index(i, j)] == []
  {
  }

  lemma OneFilled(b: Block, matrix: Matrix, i: nat, j: nat)
    requires b.Positive() && i < b.nRho && j < b.nPhi && Filled(b, matrix, j, i) && Unfilled(b, matrix, j, i)
    requires b.Index(i, j) < |matrix|
    ensures var r := matrix[b.Index(i, j) := RowOf(b, i, j)]; Filled(b, r, j, i + 1) && Unfilled(b, r, j, i + 1)
  {
    hide Block.Index, RowOf;
    forall k: nat, l: nat | k < b.nRho && l < b.nPhi
      ensures b.Index(k, l) == b.Index(i, j) <==> k == i && l == j
    {
      IndexIsUnique(b, k, l, i, j);
    }
  }

  lemma RowFilled(b: Block, matrix: Matrix, j: nat)
    requires b.Positive() && Filled(b, matrix, j, b.nRho) && Unfilled(b, matrix, j, b.nRho)
    ensures Filled(b, matrix, j + 1, 0) && Unfilled(b, matrix, j + 1, 0)
  {
    hide Block.Index, RowOf;
  }

  lemma AllFilled(b: Block, matrix: Matrix)
    requires b.Positive() && Filled(b, matrix, b.nPhi, 0) && |matrix| == b.nRho * b.nPhi
    ensures IsOperator(b, matrix)
  {
    hide Block.Index, RowOf;
  }

  // ---------------------------------------------------------------------------------------------
  // Symmetry and row sums
  // ---------------------------------------------------------------------------------------------

  /** The sum of a row's entries with this index: the element of the matrix in that column. */
  function EntryAt(row: seq<Entry>, index: nat): real {
    if row == [] then 0.0 else (if row[0].index == index then row[0].value else 0.0) + EntryAt(row[1..], index)
  }

  function RowSum(row: seq<Entry>): real {
    if row == [] then 0.0 else row[0].value + RowSum(row[1..])
  }

  lemma {:induction false} EntryAppend(r: seq<Entry>, s: seq<Entry>, index: nat)
    ensures EntryAt(r + s, index) == EntryAt(r, index) + EntryAt(s, index)
  {
    if r == [] {
      assert r + s == s;
    } else {
      assert (r + s)[1..] == r[1..] + s;
      EntryAppend(r[1..], s, index);
    }
  }

  lemma {:induction false} SumAppend(r: seq<Entry>, s: seq<Entry>)
    ensures RowSum(r + s) == RowSum(r) + RowSum(s)
  {
    if r == [] {
      assert r + s == s;
    } else {
      assert (r + s)[1..] == r[1..] + s;
      SumAppend(r[1..], s);
    }
  }

  /** What the element `(i, j)` exchanges with `(k, l)`. */
  function Coupling(b: Block, i: nat, j: nat, k: nat, l: nat): real
    requires b.Positive() && i < b.nRho && j < b.nPhi && k < b.nRho && l < b.nPhi
  {
    b.AngularPositive(i);
    if i == k && j == l then -Total(b, i, j)
    else if j == l && i == k + 1 then b.Radial(i)
    else if j == l && k == i + 1 then b.Radial(k)
    else if i == k && (j == l + 1 || l == j + 1) then b.Angular(i)
    else 0.0
  }

  /** A row taken apart. */
  lemma RowPieces(b: Block, i: nat, j: nat)
      returns (p: seq<Entry>, q: seq<Entry>, r: seq<Entry>, s: seq<Entry>, t: seq<Entry>)
    requires b.Positive() && i < b.nRho && j < b.nPhi
    ensures (b.rhoStart + (0.5 + i as real) * b.dRho) * b.dPhi != 0.0
    ensures RowOf(b, i, j) == p + q + r + s + t
    ensures p == if i > 0 then [Entry(b.Index(i - 1, j), b.Radial(i))] else []
    ensures q == if i < b.nRho - 1 then [Entry(b.Index(i + 1, j), b.Radial(i + 1))] else []
    ensures r == if j > 0 then [Entry(b.Index(i, j - 1), b.Angular(i))] else []
    ensures s == if j < b.nPhi - 1 then [Entry(b.Index(i, j + 1), b.Angular(i))] else []
    ensures t == [Entry(b.Index(i, j), -Total(b, i, j))]
  {
    b.AngularPositive(i);
    p := if i > 0 then [Entry(b.Index(i - 1, j), b.Radial(i))] else [];
    q := if i < b.nRho - 1 then [Entry(b.Index(i + 1, j), b.Radial(i + 1))] else [];
    r := if j > 0 then [Entry(b.Index(i, j - 1), b.Angular(i))] else [];
    s := if j < b.nPhi - 1 then [Entry(b.Index(i, j + 1), b.Angular(i))] else [];
    t := [Entry(b.Index(i, j), -Total(b, i, j))];
  }

  lemma EntryOfFive(p: seq<Entry>, q: seq<Entry>, r: seq<Entry>, s: seq<Entry>, t: seq<Entry>, index: nat)
    ensures EntryAt(p + q + r + s + t, index) ==
              EntryAt(p, index) + EntryAt(q, index) + EntryAt(r, index) + EntryAt(s, index) + EntryAt(t, index)
  {
    hide EntryAt;
    EntryAppend(p + q + r + s, t, index);
    EntryAppend(p + q + r, s, index);
    EntryAppend(p + q, r, index);
    EntryAppend(p, q, index);
  }

  lemma EntryOfOne(row: seq<Entry>, index: nat)
    requires |row| <= 1
    ensures EntryAt(row, index) == if row != [] && row[0].index == index then row[0].value else 0.0
  {
  }

  lemma RowCouples(b: Block, i: nat, j: nat, k: nat, l: nat)
    requires b.Positive() && i < b.nRho && j < b.nPhi && k < b.nRho && l < b.nPhi
    ensures EntryAt(RowOf(b, i, j), b.Index(k, l)) == Coupling(b, i, j, k, l)
  {
    hide Block.Index, Block.Radial, Block.Angular, Total, RowOf, EntryAt;
    var c := b.Index(k, l);
    var p, q, r, s, t := RowPieces(b, i, j);
    EntryOfFive(p, q, r, s, t, c);
    EntryOfOne(p, c);
    EntryOfOne(q, c);
    EntryOfOne(r, c);
    EntryOfOne(s, c);
    EntryOfOne(t, c);
    IndexIsUnique(b, i, j, k, l);
    if i > 0 {
      IndexIsUnique(b, i - 1, j, k, l);
    }
    if i < b.nRho - 1 {
      IndexIsUnique(b, i + 1, j, k, l);
    }
    if j > 0 {
      IndexIsUnique(b, i, j - 1, k, l);
    }
    IndexIsUnique(b, i, j + 1, k, l);
  }

  /** The matrix is symmetric. */
  lemma Symmetric(b: Block, matrix: Matrix, i: nat, j: nat, k: nat, l: nat)
    requires b.Positive() && IsOperator(b, matrix) && i < b.nRho && j < b.nPhi && k < b.nRho && l < b.nPhi
    ensures b.Index(i, j) < |matrix| && b.Index(k, l) < |matrix|
    ensures EntryAt(matrix[b.Index(i, j)], b.Index(k, l)) == EntryAt(matrix[b.Index(k, l)], b.Index(i, j))
  {
    hide Block.Index, RowOf;
    RowCouples(b, i, j, k, l);
    RowCouples(b, k, l, i, j);
  }

  /** Every row sums to zero. */
  lemma RowsSumToZero(b: Block, matrix: Matrix, i: nat, j: nat)
    requires b.Positive() && IsOperator(b, matrix) && i < b.nRho && j < b.nPhi
    ensures b.Index(i, j) < |matrix| && RowSum(matrix[b.Index(i, j)]) == 0.0
  {
    hide Block.Index, Block.Radial, Block.Angular, RowOf, RowSum;
    var p, q, r, s, t := RowPieces(b, i, j);
    SumOfFive(p, q, r, s, t);
    SumOfOne(p);
    SumOfOne(q);
    SumOfOne(r);
    SumOfOne(s);
    SumOfOne(t);
  }

  lemma SumOfFive(p: seq<Entry>, q: seq<Entry>, r: seq<Entry>, s: seq<Entry>, t: seq<Entry>)
    ensures RowSum(p + q + r + s + t) == RowSum(p) + RowSum(q) + RowSum(r) + RowSum(s) + RowSum(t)
  {
    hide RowSum;
    SumAppend(p + q + r + s, t);
    SumAppend(p + q + r, s);
    SumAppend(p + q, r);
    SumAppend(p, q);
  }

  lemma SumOfOne(row: seq<Entry>)
    requires |row| <= 1
    ensures RowSum(row) == if row == [] then 0.0 else row[0].value
  {
  }

  // ---------------------------------------------------------------------------------------------
  // Conservation and dissipation
  // ---------------------------------------------------------------------------------------------

  /** A row applied to the temperatures. */
  function Dot(row: seq<Entry>, temperature: seq<real>): real
    requires forall e :: e in row ==> e.index < |temperature|
  {
    if row == [] then 0.0 else Times(row[0].value, temperature[row[0].index]) + Dot(row[1..], temperature)
  }

  function Times(x: real, y: real): real {
    x * y
  }

  /** What flows from one temperature to another through a conductance. */
  function Flow(conductance: real, from: real, to: real): real {
    conductance * (from - to)
  }

  lemma {:induction false} DotAppend(r: seq<Entry>, s: seq<Entry>, temperature: seq<real>)
    requires forall e :: e in r + s ==> e.index < |temperature|
    ensures (forall e :: e in r ==> e.index < |temperature|) && (forall e :: e in s ==> e.index < |temperature|)
    ensures Dot(r + s, temperature) == Dot(r, temperature) + Dot(s, temperature)
  {
    hide Times;
    assert forall e :: e in r ==> e in r + s;
    assert forall e :: e in s ==> e in r + s;
    if r == [] {
      assert r + s == s;
    } else {
      assert (r + s)[1..] == r[1..] + s;
      DotAppend(r[1..], s, temperature);
    }
  }

  ghost predicate Fits(b: Block, temperature: seq<real>) {
    b.Positive() && |temperature| == b.nRho * b.nPhi
  }

  function At(b: Block, temperature: seq<real>, i: nat, j: nat): real
    requires Fits(b, temperature) && i < b.nRho && j < b.nPhi
  {
    IndexInRange(b, i, j);
    temperature[b.Index(i, j)]
  }

  /** Heat that the element gets from its outer neighbour on the ray. */
  function Outer(b: Block, temperature: seq<real>, i: nat, j: nat): real
    requires Fits(b, temperature) && i < b.nRho && j < b.nPhi
  {
    if i + 1 < b.nRho then Flow(b.Radial(i + 1), At(b, temperature, i + 1, j), At(b, temperature, i, j)) else 0.0
  }

  function Inner(b: Block, temperature: seq<real>, i: nat, j: nat): real
    requires Fits(b, temperature) && i < b.nRho && j < b.nPhi
  {
    if i > 0 then Flow(b.Radial(i), At(b, temperature, i - 1, j), At(b, temperature, i, j)) else 0.0
  }

  /** Heat that the element gets from its next neighbour on the arc. */
  function Next(b: Block, temperature: seq<real>, i: nat, j: nat): real
    requires Fits(b, temperature) && i < b.nRho && j < b.nPhi
  {
    b.AngularPositive(i);
    if j + 1 < b.nPhi then Flow(b.Angular(i), At(b, temperature, i, j + 1), At(b, temperature, i, j)) else 0.0
  }

  function Previous(b: Block, temperature: seq<real>, i: nat, j: nat): real
    requires Fits(b, temperature) && i < b.nRho && j < b.nPhi
  {
    b.AngularPositive(i);
    if j > 0 then Flow(b.Angular(i), At(b, temperature, i, j - 1), At(b, temperature, i, j)) else 0.0
  }

  lemma Distribute(r: real, s: real, a: real, c: real, w: real, x: real, y: real, z: real, t: real)
    ensures Times(r, w) + Times(s, x) + Times(a, y) + Times(c, z) + Times(-(r + s + a + c), t) ==
              Flow(r, w, t) + Flow(s, x, t) + Flow(a, y, t) + Flow(c, z, t)
  {
  }

  lemma NoFlow(x: real, y: real)
    ensures Flow(0.0, x, y) == 0.0 && Times(0.0, x) == 0.0
  {
  }

  lemma RowInRange(b: Block, i: nat, j: nat)
    requires b.Positive() && i < b.nRho && j < b.nPhi
    ensures forall e :: e in RowOf(b, i, j) ==> e.index < b.nRho * b.nPhi
  {
    hide Block.Index, Block.Radial, Block.Angular, Total, RowOf;
    var p, q, r, s, t := RowPieces(b, i, j);
    IndexInRange(b, i, j);
    if i > 0 {
      IndexInRange(b, i - 1, j);
    }
    if i + 1 < b.nRho {
      IndexInRange(b, i + 1, j);
    }
    if j > 0 {
      IndexInRange(b, i, j - 1);
    }
    if j + 1 < b.nPhi {
      IndexInRange(b, i, j + 1);
    }
    forall e | e in RowOf(b, i, j)
      ensures e.index < b.nRho * b.nPhi
    {
      assert e in p || e in q || e in r || e in s || e in t;
    }
  }

  lemma DotOfOne(row: seq<Entry>, temperature: seq<real>)
    requires |row| <= 1 && forall e :: e in row ==> e.index < |temperature|
    ensures Dot(row, temperature) == if row == [] then 0.0 else Times(row[0].value, temperature[row[0].index])
  {
    hide Times;
  }

  lemma DotOfFive(p: seq<Entry>, q: seq<Entry>, r: seq<Entry>, s: seq<Entry>, t: seq<Entry>, temperature: seq<real>)
    requires forall e :: e in p + q + r + s + t ==> e.index < |temperature|
    ensures forall x :: x in [p, q, r, s, t] ==> forall e :: e in x ==> e.index < |temperature|
    ensures Dot(p + q + r + s + t, temperature) ==
              Dot(p, temperature) + Dot(q, temperature) + Dot(r, temperature) + Dot(s, temperature)
                  + Dot(t, temperature)
  {
    hide Dot;
    DotAppend(p + q + r + s, t, temperature);
    DotAppend(p + q + r, s, temperature);
    DotAppend(p + q, r, temperature);
    DotAppend(p, q, temperature);
  }

  /** A row gives what the element gets from its four neighbours. */
  lemma RowHeat(b: Block, temperature: seq<real>, i: nat, j: nat)
    requires Fits(b, temperature) && i < b.nRho && j < b.nPhi
    ensures forall e :: e in RowOf(b, i, j) ==> e.index < |temperature|
    ensures Dot(RowOf(b, i, j), temperature) ==
              Inner(b, temperature, i, j) + Outer(b, temperature, i, j) + Previous(b, temperature, i, j)
                  + Next(b, temperature, i, j)
  {
    hide Block.Index, Block.Radial, Block.Angular, RowOf, Flow, Times, Dot, Total, Inner, Outer, Previous, Next,
         Neighbours;
    RowInRange(b, i, j);
    var p, q, r, s, t := RowPieces(b, i, j);
    var here, c := At(b, temperature, i, j), Neighbours(b, temperature, i, j);
    DotOfFive(p, q, r, s, t, temperature);
    NeighbourFlows(b, temperature, i, j);
    NeighbourDots(b, temperature, i, j, p, q, r, s);
    DotOfOne(t, temperature);
    Distribute(c[0].0, c[1].0, c[2].0, c[3].0, c[0].1, c[1].1, c[2].1, c[3].1, here);
  }

  /** The four neighbours: the conductance to each and its temperature, or zeros where there is none. */
  ghost function Neighbours(b: Block, temperature: seq<real>, i: nat, j: nat): (c: seq<(real, real)>)
    requires Fits(b, temperature) && i < b.nRho && j < b.nPhi
    ensures |c| == 4
  {
    b.AngularPositive(i);
    [if i > 0 then (b.Radial(i), At(b, temperature, i - 1, j)) else (0.0, 0.0),
     if i < b.nRho - 1 then (b.Radial(i + 1), At(b, temperature, i + 1, j)) else (0.0, 0.0),
     if j > 0 then (b.Angular(i), At(b, temperature, i, j - 1)) else (0.0, 0.0),
     if j < b.nPhi - 1 then (b.Angular(i), At(b, temperature, i, j + 1)) else (0.0, 0.0)]
  }

  lemma NeighbourFlows(b: Block, temperature: seq<real>, i: nat, j: nat)
    requires Fits(b, temperature) && i < b.nRho && j < b.nPhi
    ensures var c, here := Neighbours(b, temperature, i, j), At(b, temperature, i, j);
            && Inner(b, temperature, i, j) == Flow(c[0].0, c[0].1, here)
            && Outer(b, temperature, i, j) == Flow(c[1].0, c[1].1, here)
            && Previous(b, temperature, i, j) == Flow(c[2].0, c[2].1, here)
            && Next(b, temperature, i, j) == Flow(c[3].0, c[3].1, here)
            && Total(b, i, j) == c[0].0 + c[1].0 + c[2].0 + c[3].0
  {
    hide At, Block.Index, Block.Radial, Block.Angular, Flow, Times;
    NoFlow(0.0, At(b, temperature, i, j));
  }

  lemma NeighbourDots(b: Block, temperature: seq<real>, i: nat, j: nat, p: seq<Entry>, q: seq<Entry>, r: seq<Entry>,
                      s: seq<Entry>)
    requires Fits(b, temperature) && i < b.nRho && j < b.nPhi
    requires (b.rhoStart + (0.5 + i as real) * b.dRho) * b.dPhi != 0.0
    requires p == if i > 0 then [Entry(b.Index(i - 1, j), b.Radial(i))] else []
    requires q == if i < b.nRho - 1 then [Entry(b.Index(i + 1, j), b.Radial(i + 1))] else []
    requires r == if j > 0 then [Entry(b.Index(i, j - 1), b.Angular(i))] else []
    requires s == if j < b.nPhi - 1 then [Entry(b.Index(i, j + 1), b.Angular(i))] else []
    requires forall e :: e in p || e in q || e in r || e in s ==> e.index < |temperature|
    ensures var c := Neighbours(b, temperature, i, j);
            && Dot(p, temperature) == Times(c[0].0, c[0].1) && Dot(q, temperature) == Times(c[1].0, c[1].1)
            && Dot(r, temperature) == Times(c[2].0, c[2].1) && Dot(s, temperature) == Times(c[3].0, c[3].1)
  {
    hide Block.Index, Block.Radial, Block.Angular, Times, Dot;
    DotOfOne(p, temperature);
    DotOfOne(q, temperature);
    DotOfOne(r, temperature);
    DotOfOne(s, temperature);
    NoFlow(0.0, 0.0);
  }

  /** With weights the temperature itself, otherwise 1. */
  function Weight(b: Block, temperature: seq<real>, weighted: bool, i: nat, j: nat): real
    requires Fits(b, temperature) && i < b.nRho && j < b.nPhi
  {
    if weighted then At(b, temperature, i, j) else 1.0
  }

  // Weighted sums over the first `k` elements of row `j`.

  function AlongRay(b: Block, temperature: seq<real>, weighted: bool, j: nat, k: nat): real
    requires Fits(b, temperature) && k <= b.nRho && j < b.nPhi
  {
    if k == 0 then 0.0
    else AlongRay(b, temperature, weighted, j, k - 1)
         + Times(Weight(b, temperature, weighted, k - 1, j),
                 Inner(b, temperature, k - 1, j) + Outer(b, temperature, k - 1, j))
  }

  function FromNext(b: Block, temperature: seq<real>, weighted: bool, j: nat, k: nat): real
    requires Fits(b, temperature) && k <= b.nRho && j < b.nPhi
  {
    if k == 0 then 0.0
    else FromNext(b, temperature, weighted, j, k - 1) + Times(Weight(b, temperature, weighted, k - 1, j),
                                                              Next(b, temperature, k - 1, j))
  }

  function FromPrevious(b: Block, temperature: seq<real>, weighted: bool, j: nat, k: nat): real
    requires Fits(b, temperature) && k <= b.nRho && j < b.nPhi
  {
    if k == 0 then 0.0
    else FromPrevious(b, temperature, weighted, j, k - 1) + Times(Weight(b, temperature, weighted, k - 1, j),
                                                                  Previous(b, temperature, k - 1, j))
  }

  lemma Opposite(c: real, x: real, y: real)
    requires c >= 0.0
    ensures Flow(c, y, x) + Flow(c, x, y) == 0.0
    ensures Times(x, Flow(c, y, x)) + Times(y, Flow(c, x, y)) <= 0.0
  {
    assert x * (c * (y - x)) + y * (c * (x - y)) == -(c * ((y - x) * (y - x)));
    assert (y - x) * (y - x) >= 0.0;
    Product(c, (y - x) * (y - x));
  }

  /** Along a ray heat is only exchanged: up to element `k` all that remains is what it gets from outside. */
  lemma {:induction false} RaySum(b: Block, temperature: seq<real>, j: nat, k: nat)
    requires Fits(b, temperature) && k <= b.nRho && j < b.nPhi
    ensures AlongRay(b, temperature, false, j, k) == if k == 0 then 0.0 else Outer(b, temperature, k - 1, j)
    ensures AlongRay(b, temperature, true, j, k) <= if k == 0 then 0.0
            else Times(At(b, temperature, k - 1, j), Outer(b, temperature, k - 1, j))
    decreases k
  {
    if k > 0 {
      RaySum(b, temperature, j, k - 1);
      hide Block.Radial, At, Flow, Times;
      if k > 1 {
        b.RadialPositive(k - 1);
        Opposite(b.Radial(k - 1), At(b, temperature, k - 2, j), At(b, temperature, k - 1, j));
      }
      Split(At(b, temperature, k - 1, j), Inner(b, temperature, k - 1, j), Outer(b, temperature, k - 1, j));
    }
  }

  lemma Split(x: real, y: real, z: real)
    ensures Times(x, y + z) == Times(x, y) + Times(x, z) && Times(1.0, y) == y && Times(1.0, z) == z
            && Times(1.0, y + z) == y + z
    ensures Times(x, 0.0) == 0.0
  {
  }

  /** What a row gets from the one before is what that one loses to it; weighted, the two together lose. */
  lemma {:induction false} ArcSum(b: Block, temperature: seq<real>, j: nat, k: nat)
    requires Fits(b, temperature) && k <= b.nRho && 0 < j < b.nPhi
    ensures FromPrevious(b, temperature, false, j, k) + FromNext(b, temperature, false, j - 1, k) == 0.0
    ensures FromPrevious(b, temperature, true, j, k) + FromNext(b, temperature, true, j - 1, k) <= 0.0
    decreases k
  {
    if k > 0 {
      ArcSum(b, temperature, j, k - 1);
      hide Block.Angular, At, Flow, Times;
      b.AngularPositive(k - 1);
      Opposite(b.Angular(k - 1), At(b, temperature, k - 1, j - 1), At(b, temperature, k - 1, j));
      Split(1.0, Previous(b, temperature, k - 1, j), Next(b, temperature, k - 1, j - 1));
    }
  }

  lemma {:induction false} EdgeRows(b: Block, temperature: seq<real>, weighted: bool, k: nat)
    requires Fits(b, temperature) && k <= b.nRho && b.nPhi > 0
    ensures FromPrevious(b, temperature, weighted, 0, k) == 0.0
            && FromNext(b, temperature, weighted, b.nPhi - 1, k) == 0.0
    decreases k
  {
    if k > 0 {
      EdgeRows(b, temperature, weighted, k - 1);
    }
  }

  /** All that the first `j` rows get. */
  function Rows(b: Block, temperature: seq<real>, weighted: bool, j: nat): real
    requires Fits(b, temperature) && j <= b.nPhi
  {
    if j == 0 then 0.0
    else Rows(b, temperature, weighted, j - 1) + AlongRay(b, temperature, weighted, j - 1, b.nRho)
         + FromPrevious(b, temperature, weighted, j - 1, b.nRho) + FromNext(b, temperature, weighted, j - 1, b.nRho)
  }

  lemma {:induction false} RowsSum(b: Block, temperature: seq<real>, j: nat)
    requires Fits(b, temperature) && j <= b.nPhi
    ensures Rows(b, temperature, false, j) == if j == 0 then 0.0 else FromNext(b, temperature, false, j - 1, b.nRho)
    ensures Rows(b, temperature, true, j) <= if j == 0 then 0.0 else FromNext(b, temperature, true, j - 1, b.nRho)
    decreases j
  {
    if j > 0 {
      RowsSum(b, temperature, j - 1);
      RaySum(b, temperature, j - 1, b.nRho);
      EdgeRows(b, temperature, false, b.nRho);
      EdgeRows(b, temperature, true, b.nRho);
      if j > 1 {
        ArcSum(b, temperature, j - 1, b.nRho);
      }
      hide AlongRay, FromNext, FromPrevious, At;
    }
  }

  /** The sum of the first `k` components of the matrix times the temperatures, weighted or not. */
  function SumTo(matrix: Matrix, temperature: seq<real>, weighted: bool, k: nat): real
    requires k <= |matrix| == |temperature|
    requires forall r :: r in matrix ==> forall e :: e in r ==> e.index < |temperature|
  {
    if k == 0 then 0.0
    else
      assert matrix[k - 1] in matrix;
      SumTo(matrix, temperature, weighted, k - 1)
      + Times(if weighted then temperature[k - 1] else 1.0, Dot(matrix[k - 1], temperature))
  }

  ghost predicate InRange(matrix: Matrix, n: nat) {
    forall r :: r in matrix ==> forall e :: e in r ==> e.index < n
  }

  lemma OperatorInRange(b: Block, matrix: Matrix)
    requires b.Positive() && IsOperator(b, matrix)
    ensures InRange(matrix, b.nRho * b.nPhi)
  {
    hide Block.Index, RowOf;
    forall r | r in matrix
      ensures forall e :: e in r ==> e.index < b.nRho * b.nPhi
    {
      var k :| 0 <= k < |matrix| && matrix[k] == r;
      var i, j := Coordinates(b, k);
      RowInRange(b, i, j);
    }
  }

  /** Every index belongs to an element. */
  lemma Coordinates(b: Block, k: nat) returns (i: nat, j: nat)
    requires k < b.nRho * b.nPhi
    ensures i < b.nRho && j < b.nPhi && k == b.Index(i, j)
  {
    i, j := k, 0;
    while i >= b.nRho
      invariant k == i + j * b.nRho && b.nRho > 0
    {
      assert (j + 1) * b.nRho == j * b.nRho + b.nRho;
      i, j := i - b.nRho, j + 1;
    }
    if j >= b.nPhi {
      assert (j - b.nPhi) * b.nRho >= 0;
    }
  }

  /** The components up to element `(i, j)` add up to what the rows before and the first `i` elements get. */
  lemma {:induction false} SumIsRows(b: Block, matrix: Matrix, temperature: seq<real>, weighted: bool, j: nat, i: nat)
    requires Fits(b, temperature) && IsOperator(b, matrix) && InRange(matrix, |temperature|) && i <= b.nRho
             && j < b.nPhi
    ensures b.Index(i, j) <= |matrix|
    ensures SumTo(matrix, temperature, weighted, b.Index(i, j)) ==
              Rows(b, temperature, weighted, j) + AlongRay(b, temperature, weighted, j, i)
              + FromPrevious(b, temperature, weighted, j, i) + FromNext(b, temperature, weighted, j, i)
    decreases j, i
  {
    hide RowOf, Flow, Times, Inner, Outer, Previous, Next;
    if i == 0 {
      if j > 0 {
        SumIsRows(b, matrix, temperature, weighted, j - 1, b.nRho);
        NextRow(b, j);
      }
    } else {
      SumIsRows(b, matrix, temperature, weighted, j, i - 1);
      OneMore(b, matrix, temperature, weighted, j, i);
      hide Block.Index, Rows, SumTo;
    }
  }

  /** One element more, along the row. */
  lemma OneMore(b: Block, matrix: Matrix, temperature: seq<real>, weighted: bool, j: nat, i: nat)
    requires Fits(b, temperature) && IsOperator(b, matrix) && InRange(matrix, |temperature|) && 0 < i <= b.nRho
             && j < b.nPhi
    ensures b.Index(i - 1, j) < b.Index(i, j) <= |matrix|
    ensures SumTo(matrix, temperature, weighted, b.Index(i, j)) ==
              var w := Weight(b, temperature, weighted, i - 1, j);
              SumTo(matrix, temperature, weighted, b.Index(i - 1, j))
              + Times(w, Inner(b, temperature, i - 1, j) + Outer(b, temperature, i - 1, j))
              + Times(w, Previous(b, temperature, i - 1, j)) + Times(w, Next(b, temperature, i - 1, j))
  {
    hide RowOf, Flow, Times, Inner, Outer, Previous, Next, Block.Index, InRange;
    StepInRow(b, i, j);
    IndexInRange(b, i - 1, j);
    RowHeat(b, temperature, i - 1, j);
    SplitFour(Weight(b, temperature, weighted, i - 1, j), Inner(b, temperature, i - 1, j),
              Outer(b, temperature, i - 1, j), Previous(b, temperature, i - 1, j), Next(b, temperature, i - 1, j));
  }

  lemma NextRow(b: Block, j: nat)
    requires j > 0
    ensures b.Index(0, j) == b.Index(b.nRho, j - 1)
  {
    assert j * b.nRho == (j - 1) * b.nRho + b.nRho;
  }

  lemma StepInRow(b: Block, i: nat, j: nat)
    requires i > 0
    ensures b.Index(i, j) == b.Index(i - 1, j) + 1
  {
  }

  lemma SplitFour(w: real, a: real, b: real, c: real, d: real)
    ensures Times(w, a + b + c + d) == Times(w, a + b) + Times(w, c) + Times(w, d)
  {
  }

  /** Heat is conserved: whatever the temperatures, the components of the operator applied to them sum to zero. */
  lemma Conserves(b: Block, matrix: Matrix, temperature: seq<real>)
    requires Fits(b, temperature) && IsOperator(b, matrix)
    ensures InRange(matrix, |temperature|) && SumTo(matrix, temperature, false, |matrix|) == 0.0
  {
    WholeSum(b, matrix, temperature, false);
    if b.nPhi > 0 {
      RowsSum(b, temperature, b.nPhi);
      EdgeRows(b, temperature, false, b.nRho);
    }
  }

  /** Heat flows from warm to cold: the temperatures times the operator applied to them is never positive. */
  lemma Dissipates(b: Block, matrix: Matrix, temperature: seq<real>)
    requires Fits(b, temperature) && IsOperator(b, matrix)
    ensures InRange(matrix, |temperature|) && SumTo(matrix, temperature, true, |matrix|) <= 0.0
  {
    WholeSum(b, matrix, temperature, true);
    if b.nPhi > 0 {
      RowsSum(b, temperature, b.nPhi);
      EdgeRows(b, temperature, true, b.nRho);
    }
  }

  lemma WholeSum(b: Block, matrix: Matrix, temperature: seq<real>, weighted: bool)
    requires Fits(b, temperature) && IsOperator(b, matrix)
    ensures InRange(matrix, |temperature|)
            && SumTo(matrix, temperature, weighted, |matrix|) == Rows(b, temperature, weighted, b.nPhi)
  {
    hide SumTo, AlongRay, FromNext, FromPrevious, Rows, Block.Index, RowOf;
    OperatorInRange(b, matrix);
    if b.nPhi > 0 {
      SumIsRows(b, matrix, temperature, weighted, b.nPhi - 1, b.nRho);
      LastRow(b);
      OneMoreRow(b, temperature, weighted, b.nPhi);
    } else {
      NoRows(b, matrix, temperature, weighted);
    }
  }

  lemma OneMoreRow(b: Block, temperature: seq<real>, weighted: bool, j: nat)
    requires Fits(b, temperature) && 0 < j <= b.nPhi
    ensures Rows(b, temperature, weighted, j) ==
              Rows(b, temperature, weighted, j - 1) + AlongRay(b, temperature, weighted, j - 1, b.nRho)
              + FromPrevious(b, temperature, weighted, j - 1, b.nRho)
                  + FromNext(b, temperature, weighted, j - 1, b.nRho)
  {
    hide AlongRay, FromNext, FromPrevious;
  }

  lemma NoRows(b: Block, matrix: Matrix, temperature: seq<real>, weighted: bool)
    requires Fits(b, temperature) && |matrix| == |temperature| && b.nPhi == 0 && InRange(matrix, |temperature|)
    ensures |matrix| == 0 && SumTo(matrix, temperature, weighted, 0) == 0.0 == Rows(b, temperature, weighted, 0)
  {
  }

  lemma LastRow(b: Block)
    requires b.nPhi > 0
    ensures b.Index(b.nRho, b.nPhi - 1) == b.nRho * b.nPhi
  {
    assert b.nPhi * b.nRho == (b.nPhi - 1) * b.nRho + b.nRho;
  }
}
