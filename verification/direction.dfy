/** Direction Resolver: turns a motion vector into one of four facings and
    gives each facing its fixed row offset inside a directional clip block. */
module Direction {

  datatype Facing = Up | Left | Down | Right

  function Abs(x: real): (r: real)
    ensures r >= 0.0 && (r == x || r == -x)
  {
    if x < 0.0 then -x else x
  }

  /** `Facing::from_direction`: a strictly dominant horizontal component picks
      Left/Right by its sign; otherwise (ties and the zero vector included) the
      vertical sign decides, with "not positive" meaning Down. */
  function FromDirection(x: real, y: real): (f: Facing)
    ensures f == Right <==> Abs(x) > Abs(y) && x > 0.0
    ensures f == Left <==> Abs(x) > Abs(y) && x <= 0.0
    ensures f == Up <==> Abs(x) <= Abs(y) && y > 0.0
    ensures f == Down <==> Abs(x) <= Abs(y) && y <= 0.0
  {
    if Abs(x) > Abs(y) then
      if x > 0.0 then Right else Left
    else
      if y > 0.0 then Up else Down
  }

  /** `Facing::direction_index`: the row offset of a facing inside a block of
      four directional rows, in the order Up, Left, Down, Right. */
  function DirectionIndex(f: Facing): (i: nat)
    ensures i < 4
  {
    match f
    case Up => 0
    case Left => 1
    case Down => 2
    case Right => 3
  }

  /** The facing stored at a given row offset of a directional block. */
  function FacingAt(i: nat): (f: Facing)
    requires i < 4
    ensures DirectionIndex(f) == i
  {
    if i == 0 then Up else if i == 1 then Left else if i == 2 then Down else Right
  }

  /** The row offsets are a bijection between the four facings and 0..3. */
  lemma DirectionIndexBijective(f: Facing, g: Facing)
    ensures FacingAt(DirectionIndex(f)) == f
    ensures DirectionIndex(f) == DirectionIndex(g) ==> f == g
  {
  }

  /** A unit vector pointing towards each facing, using the same axis
      convention as `from_direction` (positive y is Up). */
  function UnitVector(f: Facing): (v: (real, real))
    ensures Abs(v.0) + Abs(v.1) == 1.0
  {
    match f
    case Up => (0.0, 1.0)
    case Left => (-1.0, 0.0)
    case Down => (0.0, -1.0)
    case Right => (1.0, 0.0)
  }

  /** Resolving the unit vector of a facing gives that facing back. */
  lemma FromUnitVector(f: Facing)
    ensures FromDirection(UnitVector(f).0, UnitVector(f).1) == f
  {
  }

  /** The zero vector resolves to Down. */
  lemma ZeroVectorIsDown()
    ensures FromDirection(0.0, 0.0) == Down
  {
  }

  lemma AbsScale(k: real, x: real)
    requires k > 0.0
    ensures Abs(k * x) == k * Abs(x)
    ensures k * x > 0.0 <==> x > 0.0
  {
    if x < 0.0 {
      assert k * x < 0.0;
    } else {
      assert k * x >= 0.0;
    }
  }

  /** Only the signs and the relative magnitudes of the components matter:
      scaling a motion vector by a positive factor keeps its facing. */
  lemma {:induction false} FromDirectionScaleInvariant(k: real, x: real, y: real)
    requires k > 0.0
    ensures FromDirection(k * x, k * y) == FromDirection(x, y)
  {
    var d := Abs(x) - Abs(y);
    AbsScale(k, x);
    AbsScale(k, y);
    assert Abs(k * x) - Abs(k * y) == k * d;
    if d > 0.0 {
      assert k * d > 0.0;
    } else {
      assert k * d <= 0.0;
    }
  }
}
