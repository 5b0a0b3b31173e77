/** Layout constants, boxes and the integer arithmetic of the Python 2 layout
    code (floor division, ceiling of a true division). */
module Geometry {

  /** Global padding unit. */
  const Padding: int := 60
  /** Spacing between stacked resources (three padding units). */
  const ResourceDistribution: int := 3 * Padding
  /** Minimum subnet box. */
  const SubnetMinW: int := 340
  const SubnetMinH: int := 80
  /** Placeholder box of a VPC that owns nothing (used for peered VPCs). */
  const VpcMinW: int := 200
  const VpcMinH: int := 120
  /** Space reserved around the region for route-table and ACL listings. */
  const VpcGutterDim: int := 700
  /** Increment between the connector paths of one route group. */
  const LineBundleSpacing: int := 10
  /** Header band of a side-panel list. */
  const DiagramHeaderSpacing: int := 50
  /** Column widths of side-panel lists. */
  const ColWidthSmall: int := 70
  const ColWidthNormal: int := 120
  const ColWidthOversized: int := 210
  /** Side length of a resource icon (gateways, ACLs, route tables). */
  const IconSize: int := 50

  datatype Option<T> = None | Some(value: T)

  datatype Point = Point(x: int, y: int)

  datatype Size = Size(w: int, h: int)

  /** An axis-aligned box; `w` and `h` are its extent. */
  datatype Rect = Rect(x: int, y: int, w: int, h: int) {
    function Right(): int { x + w }
    function Bottom(): int { y + h }
  }

  /** The two boxes share no interior point. */
  predicate Disjoint(a: Rect, b: Rect) {
    a.Right() <= b.x || b.Right() <= a.x || a.Bottom() <= b.y || b.Bottom() <= a.y
  }

  /** `inner` lies within `outer` (edges may touch). */
  predicate Inside(inner: Rect, outer: Rect) {
    outer.x <= inner.x && inner.Right() <= outer.Right() &&
    outer.y <= inner.y && inner.Bottom() <= outer.Bottom()
  }

  function Max(a: int, b: int): (m: int)
    ensures m >= a && m >= b
    ensures m == a || m == b
  {
    if a >= b then a else b
  }

  /** Python's `a / b` on integers: the quotient rounded toward minus infinity,
      for divisors of either sign. */
  function FloorDiv(a: int, b: int): (q: int)
    requires b != 0
    ensures b > 0 ==> q * b <= a < q * b + b
    ensures b < 0 ==> q * b >= a > q * b + b
  {
    if b > 0 then a / b else (-a) / (-b)
  }

  /** `math.ceil(float(a) / b)` for operands small enough to be exact as floats. */
  function CeilDiv(a: int, b: int): (q: int)
    requires b != 0
    ensures b > 0 ==> (q - 1) * b < a <= q * b
  {
    -FloorDiv(-a, b)
  }

  lemma MulNonNegative(x: int, y: int)
    requires x >= 0 && y >= 0
    ensures x * y >= 0
  {
  }

  lemma {:induction false} FloorDivMonotone(a: int, a': int, b: int)
    requires b > 0 && a <= a'
    ensures FloorDiv(a, b) <= FloorDiv(a', b)
  {
    var q, q' := FloorDiv(a, b), FloorDiv(a', b);
    if q > q' {
      assert (q - q' - 1) * b == q * b - q' * b - b;
      MulNonNegative(q - q' - 1, b);
      assert false;
    }
  }

  lemma {:induction false} FloorDivNonNegative(a: int, b: int)
    requires b > 0 && a >= 0
    ensures 0 <= FloorDiv(a, b) <= a
  {
    var q := FloorDiv(a, b);
    if q > a {
      assert q * (b - 1) == q * b - q;
      MulNonNegative(q, b - 1);
      assert false;
    }
  }

  /** Euclidean division is unique: any quotient and in-range remainder
      that rebuild `a` are the ones Dafny's `/` and `%` give. */
  lemma DivModUnique(a: int, b: int, q: int, r: int)
    requires b > 0 && a == q * b + r && 0 <= r < b
    ensures a / b == q && a % b == r
  {
    var q0 := a / b;
    if q0 > q {
      assert (q0 - q - 1) * b == q0 * b - q * b - b;
      MulNonNegative(q0 - q - 1, b);
      assert false;
    }
    if q0 < q {
      assert (q - q0 - 1) * b == q * b - q0 * b - b;
      MulNonNegative(q - q0 - 1, b);
      assert false;
    }
  }
}
