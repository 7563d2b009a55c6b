/** The heat conduction operator of a cylindric block on fields whose heat flow is known: exact for the square of the
    radius and for the square of the angle. */
module ThermalConsistency {
  import opened ThermalOperator

  /** The radius of the face between the elements `i - 1` and `i` of a ray, and of the centre of element `i`. */
  function FaceRadius(b: Block, i: nat): real {
    b.rhoStart + i as real * b.dRho
  }

  function Rho(b: Block, i: nat): real {
    b.rhoStart + (i as real + 0.5) * b.dRho
  }

  /** The angle of the centre of the elements `j` of the arcs. */
  function Phi(b: Block, j: nat): real {
    (j as real + 0.5) * b.dPhi
  }

  /** The volume of the elements of radius index `i`. */
  function Volume(b: Block, i: nat): real {
    Rho(b, i) * b.dRho * b.dPhi * b.dZ
  }

  function Square(x: real): real {
    Times(x, x)
  }

  /** Every element has the square of its radius as its temperature. */
  ghost predicate IsRadiusSquared(b: Block, temperature: seq<real>) {
    Fits(b, temperature)
    && forall i: nat, j: nat :: i < b.nRho && j < b.nPhi ==> At(b, temperature, i, j) == Square(Rho(b, i))
  }

  ghost predicate IsAngleSquared(b: Block, temperature: seq<real>) {
    Fits(b, temperature)
    && forall i: nat, j: nat :: i < b.nRho && j < b.nPhi ==> At(b, temperature, i, j) == Square(Phi(b, j))
  }

  /** What flows inwards through the face of radius index `i`: the conductivity times the gradient `2 r` times the
      area of the face. */
  function RadialFlux(b: Block, i: nat): real {
    b.lambda * (2.0 * FaceRadius(b, i)) * (FaceRadius(b, i) * b.dPhi * b.dZ)
  }

  /** What flows backwards through the face at the angle `j * dPhi`: the gradient is `2 phi / r`. */
  function AngularFlux(b: Block, i: nat, j: nat): real
    requires Rho(b, i) != 0.0
  {
    ArcFlux(b.lambda, FaceAngle(b, j), Rho(b, i), ArcArea(b))
  }

  function FaceAngle(b: Block, j: nat): real {
    j as real * b.dPhi
  }

  function ArcArea(b: Block): real {
    b.dRho * b.dZ
  }

  function ArcFlux(conductivity: real, angle: real, radius: real, area: real): real
    requires radius != 0.0
  {
    conductivity * (2.0 * angle / radius) * area
  }

  // ---------------------------------------------------------------------------------------------
  // Arithmetic
  // ---------------------------------------------------------------------------------------------

  lemma RhoPositive(b: Block, i: nat)
    requires b.Positive()
    ensures Rho(b, i) > 0.0 && Rho(b, i) == b.rhoStart + (0.5 + i as real) * b.dRho
  {
    assert (i as real + 0.5) * b.dRho > 0.0;
  }

  lemma Squares(a: real, h: real)
    ensures Square(a - h) - Square(a + h) == -4.0 * a * h
  {
  }

  /** Conductance times the difference of the squares is the flux. */
  lemma RadialFlow(b: Block, i: nat)
    requires b.Positive() && i > 0
    ensures var inside, outside := Square(Rho(b, i - 1)), Square(Rho(b, i));
            && Flow(b.Radial(i), inside, outside) == -RadialFlux(b, i)
            && Flow(b.Radial(i), outside, inside) == RadialFlux(b, i)
  {
    var r, h := FaceRadius(b, i), 0.5 * b.dRho;
    CentresBeside(b, i);
    Squares(r, h);
    RadialTimes(b, i);
    var inside, outside, g := Square(Rho(b, i - 1)), Square(Rho(b, i)), b.Radial(i);
    assert inside - outside == -2.0 * r * b.dRho;
    Regroup(g, b.dRho, r, b.lambda, b.dZ, b.dPhi);
    hide Block.Radial, Rho;
    assert g * (outside - inside) == g * (2.0 * r * b.dRho);
    assert g * (inside - outside) == -(g * (2.0 * r * b.dRho));
  }

  lemma CentresBeside(b: Block, i: nat)
    requires i > 0
    ensures Rho(b, i - 1) == FaceRadius(b, i) - 0.5 * b.dRho && Rho(b, i) == FaceRadius(b, i) + 0.5 * b.dRho
  {
    assert ((i - 1) as real + 0.5) * b.dRho == i as real * b.dRho - 0.5 * b.dRho;
  }

  lemma RadialTimes(b: Block, i: nat)
    requires b.dRho != 0.0
    ensures b.Radial(i) * b.dRho == b.lambda * b.dZ * FaceRadius(b, i) * b.dPhi
  {
    var x := b.lambda * b.dZ * FaceRadius(b, i) * b.dPhi;
    assert FaceRadius(b, i) == b.rhoStart + b.dRho * i as real;
    DividedBack(x, b.dRho);
  }

  lemma DividedBack(x: real, y: real)
    requires y != 0.0
    ensures x / y * y == x
  {
  }

  lemma Regroup(g: real, d: real, r: real, l: real, z: real, p: real)
    requires g * d == l * z * r * p
    ensures g * (2.0 * r * d) == l * (2.0 * r) * (r * p * z)
  {
    assert g * (2.0 * r * d) == 2.0 * r * (g * d);
    assert 2.0 * r * (l * z * r * p) == l * (2.0 * r) * (r * p * z);
  }

  /** What flows in through the outer face and not out through the inner one: the Laplacian 4 times the volume. */
  lemma RadialBalance(b: Block, i: nat)
    ensures RadialFlux(b, i + 1) - RadialFlux(b, i) == 4.0 * b.lambda * Volume(b, i)
  {
    var r, d, k := FaceRadius(b, i), b.dRho, b.lambda * b.dPhi * b.dZ;
    assert FaceRadius(b, i + 1) == r + d;
    assert Rho(b, i) == r + 0.5 * d;
    Fluxes(b.lambda, b.dPhi, b.dZ, r);
    Fluxes(b.lambda, b.dPhi, b.dZ, r + d);
    assert (r + d) * (r + d) - r * r == 2.0 * d * (r + 0.5 * d);
    Volumes(b.lambda, b.dPhi, b.dZ, r + 0.5 * d, d);
    Difference(k, (r + d) * (r + d), r * r, 2.0 * d * (r + 0.5 * d));
  }

  lemma Fluxes(l: real, p: real, z: real, r: real)
    ensures l * (2.0 * r) * (r * p * z) == 2.0 * (l * p * z * (r * r))
  {
  }

  lemma Volumes(l: real, p: real, z: real, m: real, d: real)
    ensures 2.0 * (l * p * z * (2.0 * d * m)) == 4.0 * l * (m * d * p * z)
  {
  }

  lemma Difference(k: real, x: real, y: real, w: real)
    requires x - y == w
    ensures k * x - k * y == k * w
  {
  }

  lemma AngularTimes(b: Block, i: nat)
    requires b.Positive()
    ensures (b.rhoStart + (0.5 + i as real) * b.dRho) * b.dPhi != 0.0
    ensures Rho(b, i) > 0.0 && b.Angular(i) * b.dPhi == b.lambda * b.dZ * b.dRho / Rho(b, i)
  {
    b.AngularPositive(i);
    RhoPositive(b, i);
    var x, r := b.lambda * b.dZ * b.dRho, Rho(b, i);
    assert b.Angular(i) == x / (r * b.dPhi);
    DividedTwice(x, r, b.dPhi);
  }

  lemma DividedTwice(x: real, r: real, p: real)
    requires r != 0.0 && p != 0.0 && r * p != 0.0
    ensures x / (r * p) * p == x / r
  {
    DividedBack(x, r * p);
    DividedBack(x, r);
    var y, z := x / (r * p) * p, x / r;
    assert y * r == z * r;
    SameFactor(y, z, r);
  }

  lemma SameFactor(y: real, z: real, r: real)
    requires y * r == z * r && r != 0.0
    ensures y == z
  {
    assert (y - z) * r == 0.0;
  }

  lemma AngularFlow(b: Block, i: nat, j: nat)
    requires b.Positive() && j > 0
    ensures (b.rhoStart + (0.5 + i as real) * b.dRho) * b.dPhi != 0.0 && Rho(b, i) != 0.0
    ensures var back, here := Square(Phi(b, j - 1)), Square(Phi(b, j));
            && Flow(b.Angular(i), back, here) == -AngularFlux(b, i, j)
            && Flow(b.Angular(i), here, back) == AngularFlux(b, i, j)
  {
    AngularTimes(b, i);
    var f, h := FaceAngle(b, j), 0.5 * b.dPhi;
    assert Phi(b, j - 1) == f - h && Phi(b, j) == f + h;
    Squares(f, h);
    var back, here, g := Square(Phi(b, j - 1)), Square(Phi(b, j)), b.Angular(i);
    assert back - here == -2.0 * f * b.dPhi;
    ArcFlow(g, b.dPhi, f, b.lambda, b.dZ, b.dRho, Rho(b, i), ArcArea(b));
    hide Block.Angular, Rho, Phi, ArcArea;
    assert g * (here - back) == g * (2.0 * f * b.dPhi);
    assert g * (back - here) == -(g * (2.0 * f * b.dPhi));
  }

  lemma ArcFlow(g: real, p: real, f: real, l: real, z: real, d: real, r: real, a: real)
    requires r != 0.0 && g * p == l * z * d / r && a == d * z
    ensures g * (2.0 * f * p) == ArcFlux(l, f, r, a)
  {
    assert g * (2.0 * f * p) == 2.0 * f * (g * p);
    var y, w := 2.0 * f * (l * z * d / r), l * (2.0 * f / r) * (d * z);
    DividedBack(l * z * d, r);
    DividedBack(2.0 * f, r);
    assert y * r == 2.0 * f * (l * z * d / r * r);
    assert w * r == l * (2.0 * f / r * r) * (d * z);
    assert 2.0 * f * (l * z * d) == l * (2.0 * f) * (d * z);
    SameFactor(y, w, r);
  }

  /** The angular part of the Laplacian of the squared angle: `2 / r^2` times the volume. */
  lemma AngularBalance(b: Block, i: nat, j: nat)
    requires Rho(b, i) != 0.0
    ensures Square(Rho(b, i)) != 0.0
    ensures AngularFlux(b, i, j + 1) - AngularFlux(b, i, j) == 2.0 * b.lambda * Volume(b, i) / Square(Rho(b, i))
  {
    hide Square, Rho, ArcFlux, FaceAngle, ArcArea, Volume;
    var r, l, a, f := Rho(b, i), b.lambda, ArcArea(b), FaceAngle(b, j);
    NotZero(r);
    ArcStep(b, j);
    ArcVolume(b, i);
    ArcDifference(l, f, b.dPhi, r, a);
  }

  lemma ArcStep(b: Block, j: nat)
    ensures FaceAngle(b, j + 1) == FaceAngle(b, j) + b.dPhi
  {
  }

  lemma ArcVolume(b: Block, i: nat)
    requires Rho(b, i) != 0.0
    ensures Square(Rho(b, i)) != 0.0
    ensures Spread(b.lambda, b.dPhi * ArcArea(b), Rho(b, i)) == Spread(b.lambda, Volume(b, i), Square(Rho(b, i)))
  {
    var r := Rho(b, i);
    NotZero(r);
    ArcSize(b.lambda, b.dPhi, r, b.dRho, b.dZ, ArcArea(b), Square(r), Volume(b, i));
  }

  function Spread(conductivity: real, size: real, radius: real): real
    requires radius != 0.0
  {
    2.0 * conductivity * size / radius
  }

  lemma ArcDifference(l: real, f: real, p: real, r: real, a: real)
    requires r != 0.0
    ensures ArcFlux(l, f + p, r, a) - ArcFlux(l, f, r, a) == Spread(l, p * a, r)
  {
    var x, y, w := l * (2.0 * (f + p) / r) * a, l * (2.0 * f / r) * a, 2.0 * l * (p * a) / r;
    DividedBack(2.0 * (f + p), r);
    DividedBack(2.0 * f, r);
    DividedBack(2.0 * l * (p * a), r);
    assert x * r == l * (2.0 * (f + p) / r * r) * a;
    assert y * r == l * (2.0 * f / r * r) * a;
    assert l * (2.0 * (f + p)) * a - l * (2.0 * f) * a == 2.0 * l * (p * a);
    assert (x - y) * r == x * r - y * r;
    SameFactor(x - y, w, r);
  }

  lemma ArcSize(l: real, p: real, r: real, d: real, z: real, a: real, q: real, v: real)
    requires r != 0.0 && q == Square(r) && q != 0.0 && a == d * z && v == r * d * p * z
    ensures Spread(l, p * a, r) == Spread(l, v, q)
  {
    var x, w := Spread(l, p * a, r), Spread(l, v, q);
    DividedBack(2.0 * l * (p * a), r);
    DividedBack(2.0 * l * v, q);
    assert x * q == x * r * r;
    assert 2.0 * l * (p * a) * r == 2.0 * l * (r * d * p * z);
    SameFactor(x, w, q);
  }

  lemma NotZero(r: real)
    requires r != 0.0
    ensures Square(r) != 0.0
  {
    hide Times;
    if r > 0.0 {
      BothPositive(r, r);
    } else {
      BothPositive(-r, -r);
      Negated(r, r);
    }
  }

  lemma BothPositive(x: real, y: real)
    requires x > 0.0 && y > 0.0
    ensures Times(x, y) > 0.0
  {
  }

  lemma Negated(x: real, y: real)
    ensures Times(-x, -y) == Times(x, y)
  {
  }

  // ---------------------------------------------------------------------------------------------
  // The built matrix
  // ---------------------------------------------------------------------------------------------

  lemma NoDifference(g: real, t: real)
    ensures Flow(g, t, t) == 0.0
  {
  }

  /** The matrix applied to the field of squared radii: what flows in through the outer face and not out again through
      the inner one. */
  lemma RadialNet(b: Block, matrix: Matrix, temperature: seq<real>, i: nat, j: nat)
    requires b.Positive() && IsOperator(b, matrix) && IsRadiusSquared(b, temperature) && i < b.nRho && j < b.nPhi
    ensures b.Index(i, j) < |matrix| && forall e :: e in matrix[b.Index(i, j)] ==> e.index < |temperature|
    ensures Dot(matrix[b.Index(i, j)], temperature) ==
              (if i + 1 < b.nRho then RadialFlux(b, i + 1) else 0.0) - (if i > 0 then RadialFlux(b, i) else 0.0)
  {
    hide Block.Index, Block.Radial, Block.Angular, RowOf, Flow, Dot, At, Rho, Square, RadialFlux, Fits;
    RowHeat(b, temperature, i, j);
    if i + 1 < b.nRho {
      RadialFlow(b, i + 1);
      assert At(b, temperature, i + 1, j) == Square(Rho(b, i + 1));
    }
    if i > 0 {
      RadialFlow(b, i);
    }
    b.AngularPositive(i);
    NoDifference(b.Angular(i), Square(Rho(b, i)));
    assert j + 1 < b.nPhi ==> At(b, temperature, i, j + 1) == Square(Rho(b, i));
  }

  lemma AngularNet(b: Block, matrix: Matrix, temperature: seq<real>, i: nat, j: nat)
    requires b.Positive() && IsOperator(b, matrix) && IsAngleSquared(b, temperature) && i < b.nRho && j < b.nPhi
    ensures b.Index(i, j) < |matrix| && forall e :: e in matrix[b.Index(i, j)] ==> e.index < |temperature|
    ensures Rho(b, i) != 0.0
    ensures Dot(matrix[b.Index(i, j)], temperature) ==
              (if j + 1 < b.nPhi then AngularFlux(b, i, j + 1) else 0.0) - (if j > 0 then AngularFlux(b, i, j) else 0.0)
  {
    hide Block.Index, Block.Radial, Block.Angular, RowOf, Flow, Dot, At, Rho, Phi, Square, AngularFlux, Fits;
    RhoPositive(b, i);
    RowHeat(b, temperature, i, j);
    if j + 1 < b.nPhi {
      AngularFlow(b, i, j + 1);
      assert At(b, temperature, i, j + 1) == Square(Phi(b, j + 1));
    }
    if j > 0 {
      AngularFlow(b, i, j);
    }
    if i > 0 {
      NoDifference(b.Radial(i), Square(Phi(b, j)));
    }
    NoDifference(b.Radial(i + 1), Square(Phi(b, j)));
    assert i + 1 < b.nRho ==> At(b, temperature, i + 1, j) == Square(Phi(b, j));
  }

  /** On the field of squared radii the matrix is exact: the conductivity times the Laplacian, which is 4, times the
      volume, at every element with both radial neighbours, and at the others without the flux of the missing face. */
  lemma RadiusSquared(b: Block, matrix: Matrix, temperature: seq<real>, i: nat, j: nat)
    requires b.Positive() && IsOperator(b, matrix) && IsRadiusSquared(b, temperature) && i < b.nRho && j < b.nPhi
    ensures b.Index(i, j) < |matrix| && forall e :: e in matrix[b.Index(i, j)] ==> e.index < |temperature|
    ensures Dot(matrix[b.Index(i, j)], temperature) ==
              4.0 * b.lambda * Volume(b, i) + (if i == 0 then RadialFlux(b, 0) else 0.0)
                  - (if i + 1 == b.nRho then RadialFlux(b, i + 1) else 0.0)
  {
    hide Block.Index, Dot, RadialFlux, Volume;
    RadialNet(b, matrix, temperature, i, j);
    RadialBalance(b, i);
  }

  /** Likewise on the field of squared angles, whose Laplacian is `2 / r^2`. */
  lemma AngleSquared(b: Block, matrix: Matrix, temperature: seq<real>, i: nat, j: nat)
    requires b.Positive() && IsOperator(b, matrix) && IsAngleSquared(b, temperature) && i < b.nRho && j < b.nPhi
    ensures b.Index(i, j) < |matrix| && forall e :: e in matrix[b.Index(i, j)] ==> e.index < |temperature|
    ensures Rho(b, i) != 0.0 && Square(Rho(b, i)) != 0.0
    ensures Dot(matrix[b.Index(i, j)], temperature) ==
              2.0 * b.lambda * Volume(b, i) / Square(Rho(b, i)) + (if j == 0 then AngularFlux(b, i, 0) else 0.0)
                  - (if j + 1 == b.nPhi then AngularFlux(b, i, j + 1) else 0.0)
  {
    hide Block.Index, Dot, AngularFlux, Volume, Rho, Square;
    AngularNet(b, matrix, temperature, i, j);
    AngularBalance(b, i, j);
  }
}
