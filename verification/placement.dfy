/** Top-down placement: where the renderer draws each box inside its parent,
    given the sizes computed bottom-up. Each function returns the
    coordinates the renderer writes out. */
module Placement {
  import opened Geometry
  import opened Sorting
  import Text
  import DiagramLists
  import RouteTables
  import opened Containers

  /** The icon drawn at a point. */
  function Icon(p: Point): Rect {
    Rect(p.x, p.y, IconSize, IconSize)
  }

  /** `a` strides before `b` on a grid of pitch `stride`, so a box of extent
      `ext` < `stride` at stride `a` ends before stride `b` starts. */
  lemma StrideApart(a: int, b: int, stride: int, ext: int)
    requires a < b && 0 <= ext <= stride
    ensures a * stride + ext <= b * stride
  {
    MulNonNegative(b - a - 1, stride);
    assert (b - a - 1) * stride == b * stride - a * stride - stride;
  }

  // ---------------------------------------------------------------------
  // Subnets inside an AZ

  function NameCmp(a: Subnet, b: Subnet): int {
    Text.CmpStr(a.name, b.name)
  }

  lemma NameCmpPreorder(u: seq<Subnet>)
    ensures TotalPreorderOn(NameCmp, u)
  {
    forall x, y | x in u && y in u ensures NameCmp(x, y) < 0 <==> NameCmp(y, x) > 0 {
      Text.CmpStrAntisymmetric(x.name, y.name);
    }
    forall x, y, z | x in u && y in u && z in u && NameCmp(x, y) <= 0 && NameCmp(y, z) <= 0
      ensures NameCmp(x, z) <= 0
    {
      Text.CmpStrTransitive(x.name, y.name, z.name);
    }
  }

  /** The AZ's subnets in name order (a stable sort on the name key). */
  function ByName(subnets: seq<Subnet>): (r: seq<Subnet>)
    ensures multiset(r) == multiset(subnets)
  {
    SortBy(subnets, NameCmp)
  }

  lemma ByNameSpec(subnets: seq<Subnet>)
    ensures multiset(ByName(subnets)) == multiset(subnets)
    ensures forall i, j | 0 <= i < j < |subnets| :: Text.CmpStr(ByName(subnets)[i].name, ByName(subnets)[j].name) <= 0
    ensures forall e | e in subnets :: Tied(ByName(subnets), NameCmp, e) == Tied(subnets, NameCmp, e)
  {
    var r := ByName(subnets);
    assert SortedBy(NameCmp, r) by {
      NameCmpPreorder(subnets);
      SortBySorted(subnets, NameCmp);
    }
    forall i, j | 0 <= i < j < |subnets| ensures Text.CmpStr(r[i].name, r[j].name) <= 0 {
      assert NameCmp(r[i], r[j]) <= 0;
    }
    forall e | e in subnets ensures Tied(r, NameCmp, e) == Tied(subnets, NameCmp, e) {
      NameCmpPreorder(subnets);
      SortByStable(subnets, NameCmp, e);
    }
  }

  /** How far right of the AZ's inner edge a subnet is drawn: its column
      times an equal share (floor division) of the room beside it. */
  function SubnetOffset(azWidth: int, s: Subnet, cols: int): (d: int)
    requires cols != 0
    ensures 0 <= SubnetColumn(s) < cols && azWidth - SubnetSize(s).w - Padding >= 0 ==>
      0 <= d <= azWidth - SubnetSize(s).w - Padding
  {
    if 0 <= SubnetColumn(s) < cols && azWidth - SubnetSize(s).w - Padding >= 0 then
      OffsetBounds(SubnetColumn(s), azWidth - SubnetSize(s).w - Padding, cols);
      SubnetColumn(s) * FloorDiv(azWidth - SubnetSize(s).w - Padding, cols)
    else
      SubnetColumn(s) * FloorDiv(azWidth - SubnetSize(s).w - Padding, cols)
  }

  /** A column below the column count shifts a subnet by no more than the
      room there is. */
  lemma OffsetBounds(c: int, room: int, cols: int)
    requires 0 <= c < cols && room >= 0
    ensures 0 <= c * FloorDiv(room, cols) <= room
  {
    var q := FloorDiv(room, cols);
    FloorDivNonNegative(room, cols);
    MulNonNegative(c, q);
    MulNonNegative(cols - c, q);
    assert (cols - c) * q == cols * q - c * q;
    assert q * cols <= room;
  }

  /** Subnet boxes stacked downward from (x, y), one padding apart. */
  function StackSubnets(subnets: seq<Subnet>, x: int, y: int, azWidth: int, cols: int): (r: seq<Rect>)
    requires cols != 0
    ensures |r| == |subnets|
    ensures |r| > 0 ==> r[0].y == y && r[0].h == SubnetSize(subnets[0]).h
  {
    if |subnets| == 0 then []
    else
      var size := SubnetSize(subnets[0]);
      [Rect(x + SubnetOffset(azWidth, subnets[0], cols), y, size.w, size.h)]
        + StackSubnets(subnets[1..], x, y + size.h + Padding, azWidth, cols)
  }

  /** The k-th box has the k-th subnet's size, at its column's offset. */
  lemma {:induction false} StackSubnetsBoxes(subnets: seq<Subnet>, x: int, y: int, azWidth: int, cols: int)
    requires cols != 0
    ensures var r := StackSubnets(subnets, x, y, azWidth, cols);
      forall i | 0 <= i < |r| :: r[i].w == SubnetSize(subnets[i]).w && r[i].h == SubnetSize(subnets[i]).h
        && r[i].x == x + SubnetOffset(azWidth, subnets[i], cols)
  {
    if |subnets| > 0 {
      var y' := y + SubnetSize(subnets[0]).h + Padding;
      StackSubnetsBoxes(subnets[1..], x, y', azWidth, cols);
      var r := StackSubnets(subnets, x, y, azWidth, cols);
      var rest := StackSubnets(subnets[1..], x, y', azWidth, cols);
      assert forall i | 0 < i < |r| :: r[i] == rest[i - 1] && subnets[i] == subnets[1..][i - 1];
    }
  }

  /** The stack starts at y, each box one padding below the previous, all
      within the stack's height, the last ending one padding above it. */
  lemma {:induction false} StackSubnetsTops(subnets: seq<Subnet>, x: int, y: int, azWidth: int, cols: int)
    requires cols != 0
    ensures var r := StackSubnets(subnets, x, y, azWidth, cols);
      && (|r| > 0 ==> r[0].y == y && r[|r| - 1].Bottom() + Padding == y + StackHeight(subnets))
      && (forall i | 0 <= i < |r| - 1 :: r[i + 1].y == r[i].Bottom() + Padding)
      && (forall i | 0 <= i < |r| :: y <= r[i].y && r[i].Bottom() + Padding <= y + StackHeight(subnets))
  {
    if |subnets| > 0 {
      var y' := y + SubnetSize(subnets[0]).h + Padding;
      StackSubnetsTops(subnets[1..], x, y', azWidth, cols);
      var r := StackSubnets(subnets, x, y, azWidth, cols);
      var rest := StackSubnets(subnets[1..], x, y', azWidth, cols);
      assert forall i | 0 < i < |r| :: r[i] == rest[i - 1];
    }
  }

  /** Any later box starts at least one padding below an earlier one. */
  lemma {:induction false} StackSubnetsOrdered(subnets: seq<Subnet>, x: int, y: int, azWidth: int, cols: int)
    requires cols != 0
    ensures var r := StackSubnets(subnets, x, y, azWidth, cols);
      forall i, j | 0 <= i < j < |r| :: r[i].Bottom() + Padding <= r[j].y
  {
    if |subnets| > 0 {
      var y' := y + SubnetSize(subnets[0]).h + Padding;
      StackSubnetsOrdered(subnets[1..], x, y', azWidth, cols);
      StackSubnetsTops(subnets[1..], x, y', azWidth, cols);
      var r := StackSubnets(subnets, x, y, azWidth, cols);
      var rest := StackSubnets(subnets[1..], x, y', azWidth, cols);
      assert forall i | 0 < i < |r| :: r[i] == rest[i - 1];
    }
  }

  lemma {:induction false} StackHeightRemove(s: seq<Subnet>, j: nat)
    requires j < |s|
    ensures StackHeight(s) == SubnetSize(s[j]).h + Padding + StackHeight(s[..j] + s[j + 1..])
  {
    if j > 0 {
      var t := s[..j] + s[j + 1..];
      StackHeightRemove(s[1..], j - 1);
      assert s[1..][..j - 1] + s[1..][j..] == t[1..];
      assert t[0] == s[0];
      assert StackHeight(t) == SubnetSize(s[0]).h + Padding + StackHeight(t[1..]);
      assert StackHeight(s) == SubnetSize(s[0]).h + Padding + StackHeight(s[1..]);
    } else {
      assert s[..0] + s[1..] == s[1..];
    }
  }

  /** The height of a stack does not depend on the order of its subnets. */
  lemma {:induction false} StackHeightPermutation(a: seq<Subnet>, b: seq<Subnet>)
    requires multiset(a) == multiset(b)
    ensures StackHeight(a) == StackHeight(b)
    decreases |a|
  {
    assert |multiset(a)| == |a| && |multiset(b)| == |b|;
    if |a| > 0 {
      assert a[0] in multiset(b);
      var j :| 0 <= j < |b| && b[j] == a[0];
      var b' := b[..j] + b[j + 1..];
      assert b == b[..j] + [b[j]] + b[j + 1..];
      assert a == [a[0]] + a[1..];
      assert multiset(a) == multiset{a[0]} + multiset(a[1..]);
      assert multiset(b) == multiset(b[..j]) + multiset{b[j]} + multiset(b[j + 1..]);
      assert multiset(b') == multiset(b[..j]) + multiset(b[j + 1..]);
      assert multiset(a[1..]) == multiset(a) - multiset{a[0]};
      assert multiset(b') == multiset(b) - multiset{b[j]};
      StackHeightPermutation(a[1..], b');
      StackHeightRemove(b, j);
    }
  }

  /** The subnet boxes of an AZ drawn at (x, y), in name order. Python fails
      on a zero column count as soon as there is a subnet to place. */
  function PlaceSubnets(a: Az, x: int, y: int, cols: int): (r: Option<seq<Rect>>)
    ensures r.None? <==> cols == 0 && |a.subnets| > 0
    ensures r.Some? ==> |r.value| == |a.subnets|
  {
    if |a.subnets| == 0 then Some([])
    else if cols == 0 then None
    else Some(StackSubnets(ByName(a.subnets), x + Padding, y + Padding, AzWidth(a), cols))
  }

  /** The subnets fill their AZ exactly: the k-th box by name is the k-th
      subnet by name, the first starts one padding below the AZ's top, each
      next one padding below the previous, the last ends one padding above
      the AZ's bottom, and no two overlap. */
  lemma SubnetsFillAz(a: Az, x: int, y: int, cols: int)
    requires cols != 0 && |a.subnets| > 0
    ensures var r := PlaceSubnets(a, x, y, cols).value;
      && (forall i | 0 <= i < |r| :: r[i].h == SubnetSize(ByName(a.subnets)[i]).h)
      && r[0].y == y + Padding
      && (forall i | 0 <= i < |r| - 1 :: r[i + 1].y == r[i].Bottom() + Padding)
      && r[|r| - 1].Bottom() + Padding == y + AzSize(a).h
      && (forall i, j | 0 <= i < j < |r| :: Disjoint(r[i], r[j]))
  {
    var sorted := ByName(a.subnets);
    StackSubnetsBoxes(sorted, x + Padding, y + Padding, AzWidth(a), cols);
    StackSubnetsTops(sorted, x + Padding, y + Padding, AzWidth(a), cols);
    StackSubnetsOrdered(sorted, x + Padding, y + Padding, AzWidth(a), cols);
    StackHeightPermutation(sorted, a.subnets);
  }

  /** One subnet box at its column's offset, within the stack's height,
      lies in the AZ box. */
  lemma SubnetBoxInside(a: Az, x: int, y: int, cols: int, s: Subnet, box: Rect)
    requires cols > 0 && AzWidth(a) >= SubnetMinW + Padding && 0 <= SubnetColumn(s) < cols
    requires box.x == x + Padding + SubnetOffset(AzWidth(a), s, cols) && box.w == SubnetMinW
    requires y + Padding <= box.y && box.Bottom() + Padding <= y + Padding + StackHeight(a.subnets)
    ensures Inside(box, Rect(x, y, AzWidth(a), AzSize(a).h))
  {
    OffsetBounds(SubnetColumn(s), AzWidth(a) - SubnetMinW - Padding, cols);
  }

  /** When the AZ has room for a subnet and a padding, and every subnet's
      column is below the column count, every subnet box lies in the AZ box. */
  lemma SubnetsInsideAz(a: Az, x: int, y: int, cols: int)
    requires cols > 0 && AzWidth(a) >= SubnetMinW + Padding
    requires forall s | s in a.subnets :: 0 <= SubnetColumn(s) < cols
    ensures forall i | 0 <= i < |PlaceSubnets(a, x, y, cols).value| ::
      Inside(PlaceSubnets(a, x, y, cols).value[i], Rect(x, y, AzWidth(a), AzSize(a).h))
  {
    if |a.subnets| > 0 {
      var sorted := ByName(a.subnets);
      assert PlaceSubnets(a, x, y, cols).value == StackSubnets(sorted, x + Padding, y + Padding, AzWidth(a), cols);
      StackHeightPermutation(sorted, a.subnets);
      forall s | s in sorted ensures 0 <= SubnetColumn(s) < cols {
        assert s in multiset(a.subnets);
      }
      StackInsideAz(sorted, a, x, y, x + Padding, y + Padding, cols);
    }
  }

  /** A stack of subnets as tall as the AZ's own, each in a column below
      the column count, lies in the AZ box. */
  lemma StackInsideAz(sorted: seq<Subnet>, a: Az, x: int, y: int, x0: int, y0: int, cols: int)
    requires x0 == x + Padding && y0 == y + Padding
    requires cols > 0 && AzWidth(a) >= SubnetMinW + Padding
    requires forall s | s in sorted :: 0 <= SubnetColumn(s) < cols
    requires StackHeight(sorted) == StackHeight(a.subnets)
    ensures forall i | 0 <= i < |sorted| ::
      Inside(StackSubnets(sorted, x0, y0, AzWidth(a), cols)[i], Rect(x, y, AzWidth(a), AzSize(a).h))
  {
    var r := StackSubnets(sorted, x0, y0, AzWidth(a), cols);
    StackSubnetsBoxes(sorted, x0, y0, AzWidth(a), cols);
    StackSubnetsTops(sorted, x0, y0, AzWidth(a), cols);
    forall i | 0 <= i < |r| ensures Inside(r[i], Rect(x, y, AzWidth(a), AzSize(a).h)) {
      SubnetBoxInside(a, x, y, cols, sorted[i], r[i]);
    }
  }

  // ---------------------------------------------------------------------
  // AZs inside a VPC

  /** The AZ boxes from (x, y) down: an AZ with subnets takes the full
      column; empty AZs go two to a row at the narrow width, and an AZ with
      subnets after a lone empty one first skips a minimal subnet's row. */
  function PackAzs(azs: seq<Az>, x: int, y: int, right: bool, narrow: int): (r: seq<Rect>)
    ensures |r| == |azs|
    ensures |r| > 0 ==> r[0].h == AzSize(azs[0]).h && r[0].y >= y
    decreases |azs|
  {
    if |azs| == 0 then []
    else
      var a := azs[0];
      var h := AzSize(a).h;
      if Empty(a) then
        if right then [Rect(x + narrow + Padding, y, narrow, h)] + PackAzs(azs[1..], x, y + Padding + h, false, narrow)
        else [Rect(x, y, narrow, h)] + PackAzs(azs[1..], x, y, true, narrow)
      else
        var top := if right then y + SubnetMinH + Padding else y;
        [Rect(x, top, AzWidth(a), h)] + PackAzs(azs[1..], x, top + Padding + h, false, narrow)
  }

  /** Every packed AZ lies below the start and within the AZ slots (plus the
      skipped row when a lone empty AZ is pending); AZs with subnets keep
      the left edge and their own width, empty ones take the narrow width in
      the left or right half. */
  lemma PackAzsBounds(azs: seq<Az>, x: int, y: int, right: bool, narrow: int)
    ensures var r := PackAzs(azs, x, y, right, narrow);
      forall i | 0 <= i < |r| ::
        && y <= r[i].y
        && r[i].Bottom() <= y + AzSlots(azs) + (if right then SubnetMinH + Padding else 0)
        && (Empty(azs[i]) ==> r[i].w == narrow && (r[i].x == x || r[i].x == x + narrow + Padding))
        && (!Empty(azs[i]) ==> r[i].x == x && r[i].w == AzWidth(azs[i]))
  {
    PackAzsRows(azs, x, y, right, narrow);
    PackAzsColumns(azs, x, y, right, narrow);
  }

  lemma {:induction false} PackAzsRows(azs: seq<Az>, x: int, y: int, right: bool, narrow: int)
    ensures forall i | 0 <= i < |azs| :: y <= PackAzs(azs, x, y, right, narrow)[i].y
    ensures forall i | 0 <= i < |azs| ::
      PackAzs(azs, x, y, right, narrow)[i].Bottom() <= y + AzSlots(azs) + (if right then SubnetMinH + Padding else 0)
    decreases |azs|
  {
    if |azs| > 0 {
      var a := azs[0];
      var h := AzSize(a).h;
      var r := PackAzs(azs, x, y, right, narrow);
      var y', right' := if Empty(a) then (if right then y + Padding + h else y) else (if right then y + SubnetMinH + Padding else y) + Padding + h,
                        Empty(a) && !right;
      PackAzsRows(azs[1..], x, y', right', narrow);
      var rest := PackAzs(azs[1..], x, y', right', narrow);
      var restBound := y' + AzSlots(azs[1..]) + (if right' then SubnetMinH + Padding else 0);
      assert r == [r[0]] + rest;
      var bound := y + AzSlots(azs) + (if right then SubnetMinH + Padding else 0);
      assert AzSlots(azs) == AzSlot(a) + AzSlots(azs[1..]);
      assert y <= y' && restBound <= bound;
      forall i | 0 < i < |r|
        ensures y <= r[i].y && r[i].Bottom() <= bound
      {
        assert r[i] == rest[i - 1];
        assert y' <= rest[i - 1].y && rest[i - 1].Bottom() <= restBound;
      }
    }
  }

  lemma {:induction false} PackAzsColumns(azs: seq<Az>, x: int, y: int, right: bool, narrow: int)
    ensures var r := PackAzs(azs, x, y, right, narrow);
      forall i | 0 <= i < |r| ::
        && (Empty(azs[i]) ==> r[i].w == narrow && (r[i].x == x || r[i].x == x + narrow + Padding))
        && (!Empty(azs[i]) ==> r[i].x == x && r[i].w == AzWidth(azs[i]))
    decreases |azs|
  {
    if |azs| > 0 {
      var a := azs[0];
      var h := AzSize(a).h;
      var r := PackAzs(azs, x, y, right, narrow);
      var y', right' := if Empty(a) then (if right then y + Padding + h else y) else (if right then y + SubnetMinH + Padding else y) + Padding + h,
                        Empty(a) && !right;
      PackAzsColumns(azs[1..], x, y', right', narrow);
      var rest := PackAzs(azs[1..], x, y', right', narrow);
      assert r == [r[0]] + rest;
      forall i | 0 < i < |r|
        ensures Empty(azs[i]) ==> r[i].w == narrow && (r[i].x == x || r[i].x == x + narrow + Padding)
        ensures !Empty(azs[i]) ==> r[i].x == x && r[i].w == AzWidth(azs[i])
      {
        assert r[i] == rest[i - 1] && azs[i] == azs[1..][i - 1];
      }
    }
  }

  /** The narrow width of an empty AZ: half of the VPC's inner width. */
  function NarrowAzWidth(vpcWidth: int): (n: int)
    ensures 2 * n + 7 * Padding <= vpcWidth < 2 * n + 7 * Padding + 2
  {
    FloorDiv(vpcWidth - 7 * Padding, 2)
  }

  /** The AZ boxes of a VPC drawn at (x, y), after the VPC was sized (the
      AZ boxes do not depend on which of the two sizings ran). */
  function PlaceAzs(v: Vpc, x: int, y: int): (r: seq<Rect>)
    ensures |r| == |v.azs|
    ensures var c := VpcDimensions(v);
      r == PackAzs(c.1.azs, x + ResourceDistribution, y + ResourceDistribution, false, NarrowAzWidth(c.0.w))
  {
    AsWrittenDiffersInHeightOnly(v);
    var sized := VpcDimensionsAsWritten(v);
    PackAzs(sized.1.azs, x + ResourceDistribution, y + ResourceDistribution, false, NarrowAzWidth(sized.0.w))
  }

  /** Every AZ box lies inside the VPC box, however tall the region makes
      the VPC. */
  lemma AzsInsideVpc(v: Vpc, x: int, y: int, heightOverride: int)
    requires !CheckEmpty(v)
    ensures var s := VpcDimensions(v).0;
      forall i | 0 <= i < |v.azs| :: Inside(PlaceAzs(v, x, y)[i], Rect(x, y, s.w, Max(s.h, heightOverride)))
  {
    var (s, v1) := VpcDimensions(v);
    AzSlotsIgnoreWidth(v1.azs, v.azs);
    var narrow := NarrowAzWidth(s.w);
    assert PlaceAzs(v, x, y) == PackAzs(v1.azs, x + ResourceDistribution, y + ResourceDistribution, false, narrow);
    PackedAzsInside(v1.azs, x, y, s.w, Max(s.h, heightOverride), narrow);
  }

  /** AZs packed below the header band of a box lie inside it when the box
      leaves room for two narrow AZs, for each AZ's width and for every
      slot. */
  lemma PackedAzsInside(azs: seq<Az>, x: int, y: int, w: int, h: int, narrow: int)
    requires 0 <= w && 2 * narrow <= w - 7 * Padding < 2 * narrow + 2
    requires forall i | 0 <= i < |azs| :: AzWidth(azs[i]) + 6 * Padding <= w
    requires ResourceDistribution + AzSlots(azs) <= h
    ensures var r := PackAzs(azs, x + ResourceDistribution, y + ResourceDistribution, false, narrow);
      forall i | 0 <= i < |azs| :: Inside(r[i], Rect(x, y, w, h))
  {
    PackAzsBounds(azs, x + ResourceDistribution, y + ResourceDistribution, false, narrow);
  }

  /** An AZ holding one subnet without NAT gateways: 460 wide, 200 tall. */
  function OneSubnetAz(): Az {
    Az("zone", [Subnet("subnet", "10.0.0.0/24", "zone", "subnet", 0, [])], None)
  }

  /** A VPC of six such AZs, and nothing else. */
  function SixZoneVpc(): Vpc {
    var a := OneSubnetAz();
    Vpc("vpc", "", "10.0.0.0/16", [a, a, a, a, a, a], [], [])
  }

  /** With the source's sizing, the sixth AZ of that VPC ends 60 units below
      the VPC's bottom edge (when the region asks for no extra height). */
  lemma AsWrittenSixthAzOverflows()
    ensures var v := SixZoneVpc();
      var s := VpcDimensionsAsWritten(v).0;
      var r := PlaceAzs(v, 0, 0);
      && s.h == 1620 && r[5].Bottom() == 1680
      && !Inside(r[5], Rect(0, 0, s.w, Max(s.h, ResourceDistribution)))
  {
    var v := SixZoneVpc();
    var a := v.azs[0];
    assert AzSize(a).h == 200;
    assert AzHeights(v.azs[5..]) == 200;
    assert AzHeights(v.azs[4..]) == 400;
    assert AzHeights(v.azs[3..]) == 600;
    assert AzHeights(v.azs[2..]) == 800;
    assert AzHeights(v.azs[1..]) == 1000;
    assert AzHeights(v.azs) == 1200;
    var (s, v1) := VpcDimensionsAsWritten(v);
    assert v1.azs == v.azs;
    var n := NarrowAzWidth(s.w);
    var X := ResourceDistribution;
    assert PackAzs(v.azs[5..], X, 1480, false, n)[0].Bottom() == 1680;
    assert PackAzs(v.azs[4..], X, 1220, false, n)[1] == PackAzs(v.azs[5..], X, 1480, false, n)[0];
    assert PackAzs(v.azs[3..], X, 960, false, n)[2] == PackAzs(v.azs[4..], X, 1220, false, n)[1];
    assert PackAzs(v.azs[2..], X, 700, false, n)[3] == PackAzs(v.azs[3..], X, 960, false, n)[2];
    assert PackAzs(v.azs[1..], X, 440, false, n)[4] == PackAzs(v.azs[2..], X, 700, false, n)[3];
    assert PackAzs(v.azs, X, 180, false, n)[5] == PackAzs(v.azs[1..], X, 440, false, n)[4];
  }

  /** In its region, with the region asking for one resource distance of
      height, that VPC is drawn 1620 tall in a region 1740 tall: the sixth
      AZ, drawn one padding below the region's top, runs past the VPC's
      bottom edge down to the region's. */
  lemma AsWrittenSixZoneRegion()
    ensures var v := SixZoneVpc();
      var region := RegionDimensions(v, ResourceDistribution);
      && region.h == 1740 && VpcDrawnHeight(v, region.h) == 1620
      && Padding + PlaceAzs(v, 0, 0)[5].Bottom() == region.h
  {
    AsWrittenSixthAzOverflows();
  }

  /** A VPC of `n` AZs holding one subnet each, and nothing else. */
  function UniformVpc(n: nat): Vpc {
    Vpc("vpc", "", "10.0.0.0/16", seq(n, _ => OneSubnetAz()), [], [])
  }

  lemma {:induction false} UniformHeights(azs: seq<Az>)
    requires forall i | 0 <= i < |azs| :: azs[i] == OneSubnetAz()
    ensures AzHeights(azs) == 200 * |azs|
    decreases |azs|
  {
    if |azs| > 0 {
      UniformHeights(azs[1..]);
    }
  }

  /** Such AZs are stacked one below the other, 260 apart. */
  lemma {:induction false} UniformPack(azs: seq<Az>, x: int, y: int, narrow: int)
    requires forall i | 0 <= i < |azs| :: azs[i] == OneSubnetAz()
    ensures forall i | 0 <= i < |azs| :: PackAzs(azs, x, y, false, narrow)[i] == Rect(x, y + 260 * i, 460, 200)
    decreases |azs|
  {
    if |azs| > 0 {
      var r := PackAzs(azs, x, y, false, narrow);
      var rest := PackAzs(azs[1..], x, y + 260, false, narrow);
      assert AzSize(azs[0]).h == 200 && !Empty(azs[0]);
      assert r == [Rect(x, y, 460, 200)] + rest;
      UniformPack(azs[1..], x, y + 260, narrow);
      forall i | 0 < i < |azs| ensures r[i] == Rect(x, y + 260 * i, 460, 200) {
        assert r[i] == rest[i - 1];
      }
    }
  }

  /** The sizes of such a VPC, as written: 820 wide and 420 + 200 n tall,
      its AZs drawn 260 apart from 180 below its top. */
  lemma UniformVpcLayout(n: nat, x: int, y: int)
    requires n > 0
    ensures VpcDimensionsAsWritten(UniformVpc(n)).0 == Size(820, 420 + 200 * n)
    ensures forall i | 0 <= i < n ::
      PlaceAzs(UniformVpc(n), x, y)[i] == Rect(x + ResourceDistribution, y + ResourceDistribution + 260 * i, 460, 200)
  {
    var v := UniformVpc(n);
    assert forall i | 0 <= i < n :: v.azs[i] == OneSubnetAz();
    assert AzWidth(v.azs[0]) == 460;
    AzMaxWidthAttained(v.azs);
    assert AzMaxWidth(v.azs) == 520;
    assert WidenAzs(v) == (520, v.azs);
    UniformHeights(v.azs);
    var sized := VpcDimensionsAsWritten(v);
    assert sized.1.azs == v.azs;
    UniformPack(v.azs, x + ResourceDistribution, y + ResourceDistribution, NarrowAzWidth(sized.0.w));
  }

  /** As written, a VPC of one-subnet AZs holds all of them exactly when it
      has at most five: from the sixth on, the last AZ sticks out at the
      bottom (when the region asks for no extra height). */
  lemma AsWrittenFitsAtMostFiveZones(n: nat, x: int, y: int)
    requires n > 0
    ensures var s := VpcDimensionsAsWritten(UniformVpc(n)).0;
      (forall i | 0 <= i < n :: Inside(PlaceAzs(UniformVpc(n), x, y)[i], Rect(x, y, s.w, s.h))) <==> n <= 5
  {
    UniformVpcLayout(n, x, y);
    var s := VpcDimensionsAsWritten(UniformVpc(n)).0;
    var r := PlaceAzs(UniformVpc(n), x, y);
    assert r[n - 1].Bottom() == y + 120 + 260 * n;
  }

  // ---------------------------------------------------------------------
  // ACL row and route-table column

  /** `n` icons in a row from (x, y), one resource distance apart. */
  function AclRow(x: int, y: int, n: nat): (r: seq<Point>)
    ensures |r| == n
    decreases n
  {
    if n == 0 then [] else [Point(x, y)] + AclRow(x + ResourceDistribution, y, n - 1)
  }

  lemma {:induction false} AclRowSpaced(x: int, y: int, n: nat)
    ensures forall i | 0 <= i < n :: AclRow(x, y, n)[i] == Point(x + i * ResourceDistribution, y)
    decreases n
  {
    if n > 0 {
      AclRowSpaced(x + ResourceDistribution, y, n - 1);
      var r := AclRow(x, y, n);
      var rest := AclRow(x + ResourceDistribution, y, n - 1);
      forall i | 0 < i < n ensures r[i] == Point(x + i * ResourceDistribution, y) {
        assert r[i] == rest[i - 1];
        assert (i - 1) * ResourceDistribution + ResourceDistribution == i * ResourceDistribution;
      }
    }
  }

  /** The ACL icons of a VPC drawn at (x, y): a row along its top. */
  function PlaceAcls(v: Vpc, x: int, y: int): (r: seq<Point>)
    ensures |r| == |v.acls|
    ensures forall i | 0 <= i < |r| ::
      r[i] == Point(x + ResourceDistribution + 2 * Padding + i * ResourceDistribution, y + Padding)
  {
    AclRowSpaced(x + ResourceDistribution + 2 * Padding, y + Padding, |v.acls|);
    AclRow(x + ResourceDistribution + 2 * Padding, y + Padding, |v.acls|)
  }

  /** The ACL icons lie inside the VPC box and never overlap. */
  lemma AclIconsInsideVpc(v: Vpc, x: int, y: int, heightOverride: int)
    requires !CheckEmpty(v)
    ensures var s := VpcDimensionsAsWritten(v).0;
      var p := PlaceAcls(v, x, y);
      && (forall i | 0 <= i < |p| :: Inside(Icon(p[i]), Rect(x, y, s.w, Max(s.h, heightOverride))))
      && (forall i, j | 0 <= i < j < |p| :: Disjoint(Icon(p[i]), Icon(p[j])))
  {
    var s := VpcDimensionsAsWritten(v).0;
    AclRowInBox(x, y, x + ResourceDistribution + 2 * Padding, y + Padding, |v.acls|, s.w, Max(s.h, heightOverride));
    AclRowDisjoint(x + ResourceDistribution + 2 * Padding, y + Padding, |v.acls|);
  }

  /** A row of `n` ACL icons started one slot and two paddings in fits any
      box wide enough for `n` slots and five paddings. */
  lemma AclRowInBox(x: int, y: int, x0: int, y0: int, n: nat, w: int, h: int)
    requires x0 == x + ResourceDistribution + 2 * Padding && y0 == y + Padding
    requires w >= n * ResourceDistribution + 5 * Padding && h >= IconSize + Padding
    ensures forall i | 0 <= i < n :: Inside(Icon(AclRow(x0, y0, n)[i]), Rect(x, y, w, h))
  {
    AclRowSpaced(x0, y0, n);
    forall i | 0 <= i < n ensures i * ResourceDistribution + ResourceDistribution <= n * ResourceDistribution {
      StrideApart(i, n, ResourceDistribution, ResourceDistribution);
    }
  }

  lemma AclRowDisjoint(x0: int, y0: int, n: nat)
    ensures forall i, j | 0 <= i < j < n :: Disjoint(Icon(AclRow(x0, y0, n)[i]), Icon(AclRow(x0, y0, n)[j]))
  {
    AclRowSpaced(x0, y0, n);
    forall i, j | 0 <= i < j < n ensures i * ResourceDistribution + IconSize <= j * ResourceDistribution {
      StrideApart(i, j, ResourceDistribution, IconSize);
    }
  }

  /** Positions advanced from `start` by each extent, but never by less than
      a resource distance. */
  function Steps(start: int, extents: seq<int>): (r: seq<int>)
    ensures |r| == |extents|
    decreases |extents|
  {
    if |extents| == 0 then []
    else [start] + Steps(start + Max(extents[0], ResourceDistribution), extents[1..])
  }

  lemma {:induction false} StepsApart(start: int, extents: seq<int>)
    ensures var r := Steps(start, extents);
      && (|r| > 0 ==> r[0] == start)
      && (forall i | 0 <= i < |r| - 1 :: r[i + 1] == r[i] + Max(extents[i], ResourceDistribution))
      && (forall i, j | 0 <= i < j < |r| :: r[i] + Max(extents[i], ResourceDistribution) <= r[j])
    decreases |extents|
  {
    if |extents| > 0 {
      var start' := start + Max(extents[0], ResourceDistribution);
      StepsApart(start', extents[1..]);
      var r := Steps(start, extents);
      var rest := Steps(start', extents[1..]);
      assert r == [start] + rest;
      assert forall i | 0 < i < |r| :: r[i] == rest[i - 1] && extents[i] == extents[1..][i - 1];
    }
  }

  /** The list heights of the tables; Python fails on a table without
      routes, whose list height is never assigned. */
  function ListHeights(tables: seq<RouteTables.RouteTable>, lineHeight: int): (r: Option<seq<int>>)
    ensures r.None? <==> exists t | t in tables :: |t.routes| == 0
    ensures r.Some? ==> |r.value| == |tables|
    ensures r.Some? ==> forall i | 0 <= i < |tables| :: r.value[i] == RouteTables.RouteListHeight(tables[i], lineHeight).value
  {
    if |tables| == 0 then Some([])
    else match (RouteTables.RouteListHeight(tables[0], lineHeight), ListHeights(tables[1..], lineHeight))
      case (Some(h), Some(hs)) => Some([h] + hs)
      case _ =>
        assert tables[0] in tables;
        assert forall t | t in tables[1..] :: t in tables;
        None
  }

  /** The route lists of a VPC drawn at y, in the left gutter: each placed
      below the previous one by its height plus padding, or by a resource
      distance when that is more. */
  function PlaceRouteLists(v: Vpc, y: int, lineHeight: int): (r: Option<seq<Rect>>)
    ensures r.None? <==> ListHeights(SortRtResources(v), lineHeight).None?
    ensures r.Some? ==> |r.value| == |SortRtResources(v)|
    ensures r.Some? ==> forall i | 0 <= i < |r.value| ::
      r.value[i].x == 0 && r.value[i].w == DiagramLists.Sum(DiagramLists.RouteColumnWidths)
  {
    match ListHeights(SortRtResources(v), lineHeight)
    case None => None
    case Some(hs) =>
      var tops := Steps(y + ResourceDistribution + Padding, seq(|hs|, i requires 0 <= i < |hs| => Padding + hs[i]));
      Some(seq(|hs|, i requires 0 <= i < |hs| =>
        Rect(0, tops[i] - ResourceDistribution, DiagramLists.Sum(DiagramLists.RouteColumnWidths), hs[i])))
  }

  /** Drawing the lists fails exactly when one of the VPC's tables has no
      routes. */
  lemma RouteListsFail(v: Vpc, y: int, lineHeight: int)
    ensures PlaceRouteLists(v, y, lineHeight).None? <==>
      !CheckEmpty(v) && exists t | t in v.routeTables :: |t.routes| == 0
  {
    var sorted := SortRtResources(v);
    assert forall t :: t in sorted <==> t in multiset(sorted);
    if !CheckEmpty(v) {
      assert multiset(sorted) == multiset(v.routeTables);
    }
  }

  /** The lists keep the tables' order, each list as tall as its table's
      list, and at least one padding separates any two lists. */
  lemma RouteListsSeparated(v: Vpc, y: int, lineHeight: int)
    ensures PlaceRouteLists(v, y, lineHeight).Some? ==>
      var r := PlaceRouteLists(v, y, lineHeight).value;
      && |r| == |SortRtResources(v)|
      && (forall i | 0 <= i < |r| :: r[i].h == RouteTables.RouteListHeight(SortRtResources(v)[i], lineHeight).value)
      && (forall i, j | 0 <= i < j < |r| :: r[i].Bottom() + Padding <= r[j].y && Disjoint(r[i], r[j]))
  {
    match ListHeights(SortRtResources(v), lineHeight)
    case None =>
    case Some(hs) =>
      var extents := seq(|hs|, i requires 0 <= i < |hs| => Padding + hs[i]);
      var tops := Steps(y + ResourceDistribution + Padding, extents);
      var r := seq(|hs|, i requires 0 <= i < |hs| =>
        Rect(0, tops[i] - ResourceDistribution, DiagramLists.Sum(DiagramLists.RouteColumnWidths), hs[i]));
      assert PlaceRouteLists(v, y, lineHeight).value == r;
      StepsApart(y + ResourceDistribution + Padding, extents);
      forall i, j | 0 <= i < j < |r| ensures r[i].Bottom() + Padding <= r[j].y {
        assert tops[i] + Max(extents[i], ResourceDistribution) <= tops[j];
      }
  }

  /** The route-table icons: a column at x + padding/2 from y, each next
      one lower by its table's scaled list height, or by a resource
      distance when that is more. The scaled heights are given. */
  function PlaceRouteTableIcons(x: int, y: int, scaledHeights: seq<int>): (r: seq<Point>)
    ensures |r| == |scaledHeights|
    ensures forall i | 0 <= i < |r| :: r[i].x == x + 30
    ensures |r| > 0 ==> r[0].y == y + ResourceDistribution + Padding
  {
    var ys := Steps(y + ResourceDistribution + Padding, scaledHeights);
    assert FloorDiv(Padding, 2) == 30;
    seq(|ys|, i requires 0 <= i < |ys| => Point(x + FloorDiv(Padding, 2), ys[i]))
  }

  /** Whatever the scaled heights, the icons stand in one column, at least a
      resource distance apart, and never overlap. */
  lemma RouteTableIconsApart(x: int, y: int, scaledHeights: seq<int>)
    ensures var p := PlaceRouteTableIcons(x, y, scaledHeights);
      forall i, j | 0 <= i < j < |p| ::
        p[i].x == p[j].x && p[i].y + ResourceDistribution <= p[j].y && Disjoint(Icon(p[i]), Icon(p[j]))
  {
    StepsApart(y + ResourceDistribution + Padding, scaledHeights);
  }

  // ---------------------------------------------------------------------
  // Peered VPCs

  /** The renderer's walk over the peered VPCs: from (x, y), `count` already
      in the current row; a full row sends the next one to the start of a
      new row below. */
  function PeerWalk(n: nat, x0: int, x: int, y: int, count: int, cell: Size, cols: int): (r: seq<Point>)
    ensures |r| == n
    decreases n
  {
    if n == 0 then []
    else if count == cols then
      [Point(x0, y + cell.h + Padding)] + PeerWalk(n - 1, x0, x0 + cell.w + Padding, y + cell.h + Padding, 1, cell, cols)
    else
      [Point(x, y)] + PeerWalk(n - 1, x0, x + cell.w + Padding, y, count + 1, cell, cols)
  }

  /** Where the peer grid starts: a gutter right of the peering lane, which
      itself lies a gutter and half a padding past the VPC's left edge; a
      second gutter when route-table connections are drawn. The row sits a
      gutter, a padding and a resource distance less 20 down. */
  function PeerOrigin(vpcWidth: int, routeTableConnections: bool): (p: Point)
    ensures !routeTableConnections ==> p == Point(vpcWidth + 1430, 920)
    ensures routeTableConnections ==> p == Point(vpcWidth + 2130, 920)
  {
    assert FloorDiv(Padding, 2) == 30;
    var peeringX := VpcGutterDim + FloorDiv(Padding, 2) + vpcWidth;
    Point(peeringX + VpcGutterDim + (if routeTableConnections then VpcGutterDim else 0),
          VpcGutterDim + Padding + ResourceDistribution - 20)
  }

  /** Every peered VPC gets the cell of the first one. */
  function PeerCell(peers: seq<Vpc>): (c: Size)
    ensures |peers| == 0 ==> c == Size(0, 0)
    ensures |peers| > 0 ==> c.w >= VpcMinW && c.h >= VpcMinH
    ensures |peers| > 0 && CheckEmpty(peers[0]) ==> c == Size(VpcMinW, VpcMinH)
  {
    if |peers| > 0 then VpcDimensionsAsWritten(peers[0]).0 else Size(0, 0)
  }

  /** The column count is taken as given: a positive one fills a grid row by
      row; zero sends every VPC to one row a cell below the start (the first
      step finds its row "full"); a negative one never fills a row, so every
      VPC stays on the starting row. */
  function PlacePeers(peers: seq<Vpc>, origin: Point, cols: int): (r: seq<Point>)
    ensures |r| == |peers|
    ensures cols > 0 ==> forall i | 0 <= i < |r| ::
      r[i] == Point(origin.x + (i % cols) * (PeerCell(peers).w + Padding),
                    origin.y + (i / cols) * (PeerCell(peers).h + Padding))
    ensures cols == 0 ==> forall i | 0 <= i < |r| ::
      r[i] == Point(origin.x + i * (PeerCell(peers).w + Padding), origin.y + PeerCell(peers).h + Padding)
    ensures cols < 0 ==> forall i | 0 <= i < |r| ::
      r[i] == Point(origin.x + i * (PeerCell(peers).w + Padding), origin.y)
  {
    if cols > 0 then
      PeerWalkGrid(|peers|, origin.x, origin.y, PeerCell(peers), cols);
      PeerWalk(|peers|, origin.x, origin.x, origin.y, 0, PeerCell(peers), cols)
    else
      PeerWalkNoColumns(|peers|, origin.x, origin.y, PeerCell(peers), cols);
      PeerWalk(|peers|, origin.x, origin.x, origin.y, 0, PeerCell(peers), cols)
  }

  /** Once the count in the row is past the column count it never meets it
      again: the walk stays on its row, one cell further right each time. */
  lemma {:induction false} PeerWalkOneRow(n: nat, x0: int, x: int, y: int, count: int, cell: Size, cols: int)
    requires cols < count
    ensures forall i | 0 <= i < n :: PeerWalk(n, x0, x, y, count, cell, cols)[i] == Point(x + i * (cell.w + Padding), y)
  {
    if n > 0 {
      var W := cell.w + Padding;
      var r := PeerWalk(n, x0, x, y, count, cell, cols);
      var rest := PeerWalk(n - 1, x0, x + W, y, count + 1, cell, cols);
      PeerWalkOneRow(n - 1, x0, x + W, y, count + 1, cell, cols);
      assert r == [Point(x, y)] + rest;
      forall i | 1 <= i < n
        ensures r[i] == Point(x + i * W, y)
      {
        assert r[i] == rest[i - 1];
        assert x + W + (i - 1) * W == x + i * W;
      }
    }
  }

  /** The walk from the start of the first row when the column count is not
      positive. */
  lemma PeerWalkNoColumns(n: nat, x0: int, y0: int, cell: Size, cols: int)
    requires cols <= 0
    ensures cols == 0 ==> forall i | 0 <= i < n ::
      PeerWalk(n, x0, x0, y0, 0, cell, cols)[i] == Point(x0 + i * (cell.w + Padding), y0 + cell.h + Padding)
    ensures cols < 0 ==> forall i | 0 <= i < n ::
      PeerWalk(n, x0, x0, y0, 0, cell, cols)[i] == Point(x0 + i * (cell.w + Padding), y0)
  {
    var W, H := cell.w + Padding, cell.h + Padding;
    if cols < 0 {
      PeerWalkOneRow(n, x0, x0, y0, 0, cell, cols);
    } else if n > 0 {
      var r := PeerWalk(n, x0, x0, y0, 0, cell, cols);
      var rest := PeerWalk(n - 1, x0, x0 + W, y0 + H, 1, cell, cols);
      PeerWalkOneRow(n - 1, x0, x0 + W, y0 + H, 1, cell, cols);
      assert r == [Point(x0, y0 + H)] + rest;
      forall i | 1 <= i < n
        ensures r[i] == Point(x0 + i * W, y0 + H)
      {
        assert r[i] == rest[i - 1];
        assert x0 + W + (i - 1) * W == x0 + i * W;
      }
    }
  }

  /** A full row further on: one more row, the same column. */
  lemma NextRow(i: int, cols: int)
    requires cols > 0 && i >= 0
    ensures (cols + i) % cols == i % cols && (cols + i) / cols == i / cols + 1
  {
    var q, r := i / cols, i % cols;
    assert cols + i == (q + 1) * cols + r;
    DivModUnique(cols + i, cols, q + 1, r);
  }

  /** From any point of a row, the walk fills a grid: the i-th next VPC
      sits at column (k + i) mod cols and (k + i) div cols rows down. */
  lemma {:induction false} PeerWalkAt(n: nat, x0: int, x: int, y0: int, y: int, row: int, k: int, cell: Size, cols: int, i: nat)
    requires cols > 0 && 0 <= k <= cols && i < n
    requires x == x0 + k * (cell.w + Padding) && y == y0 + row * (cell.h + Padding)
    ensures PeerWalk(n, x0, x, y, k, cell, cols)[i]
      == Point(x0 + ((k + i) % cols) * (cell.w + Padding), y0 + (row + (k + i) / cols) * (cell.h + Padding))
    decreases i, 1
  {
    if k == cols {
      PeerWalkAtRowEnd(n, x0, x, y0, y, row, cell, cols, i);
    } else {
      PeerWalkAtInRow(n, x0, x, y0, y, row, k, cell, cols, i);
    }
  }

  /** A full row: the next VPC opens a new row. */
  lemma {:induction false} PeerWalkAtRowEnd(n: nat, x0: int, x: int, y0: int, y: int, row: int, cell: Size, cols: int, i: nat)
    requires cols > 0 && i < n
    requires y == y0 + row * (cell.h + Padding)
    ensures PeerWalk(n, x0, x, y, cols, cell, cols)[i]
      == Point(x0 + ((cols + i) % cols) * (cell.w + Padding), y0 + (row + (cols + i) / cols) * (cell.h + Padding))
    decreases i, 0
  {
    var W, H := cell.w + Padding, cell.h + Padding;
    NextRow(i, cols);
    var y' := y + H;
    assert y' == y0 + (row + 1) * H;
    if i == 0 {
      DivModUnique(0, cols, 0, 0);
      assert PeerWalk(n, x0, x, y, cols, cell, cols)[0] == Point(x0, y');
    } else {
      assert x0 + W == x0 + 1 * W;
      PeerWalkAt(n - 1, x0, x0 + W, y0, y', row + 1, 1, cell, cols, i - 1);
      assert PeerWalk(n, x0, x, y, cols, cell, cols)[i] == PeerWalk(n - 1, x0, x0 + W, y', 1, cell, cols)[i - 1];
    }
  }

  /** A row with room: the next VPC goes one cell to the right. */
  lemma {:induction false} PeerWalkAtInRow(n: nat, x0: int, x: int, y0: int, y: int, row: int, k: int, cell: Size, cols: int, i: nat)
    requires cols > 0 && 0 <= k < cols && i < n
    requires x == x0 + k * (cell.w + Padding) && y == y0 + row * (cell.h + Padding)
    ensures PeerWalk(n, x0, x, y, k, cell, cols)[i]
      == Point(x0 + ((k + i) % cols) * (cell.w + Padding), y0 + (row + (k + i) / cols) * (cell.h + Padding))
    decreases i, 0
  {
    var W := cell.w + Padding;
    if i == 0 {
      DivModUnique(k, cols, 0, k);
    } else {
      assert x + W == x0 + (k + 1) * W;
      PeerWalkAt(n - 1, x0, x + W, y0, y, row, k + 1, cell, cols, i - 1);
      assert PeerWalk(n, x0, x, y, k, cell, cols)[i] == PeerWalk(n - 1, x0, x + W, y, k + 1, cell, cols)[i - 1];
    }
  }

  /** The walk from the start of the first row. */
  lemma PeerWalkGrid(n: nat, x0: int, y0: int, cell: Size, cols: int)
    requires cols > 0
    ensures forall i | 0 <= i < n ::
      PeerWalk(n, x0, x0, y0, 0, cell, cols)[i] == Point(x0 + (i % cols) * (cell.w + Padding), y0 + (i / cols) * (cell.h + Padding))
  {
    forall i | 0 <= i < n
      ensures PeerWalk(n, x0, x0, y0, 0, cell, cols)[i]
        == Point(x0 + (i % cols) * (cell.w + Padding), y0 + (i / cols) * (cell.h + Padding))
    {
      PeerWalkAt(n, x0, x0, y0, y0, 0, 0, cell, cols, i);
    }
  }

  /** With a positive column count the peered VPCs fill a grid row by row:
      the i-th at column i mod cols of row i div cols. */
  lemma PeerGridCells(peers: seq<Vpc>, origin: Point, cols: int)
    requires cols > 0
    ensures var c := PeerCell(peers);
      var p := PlacePeers(peers, origin, cols);
      forall i | 0 <= i < |p| ::
        p[i] == Point(origin.x + (i % cols) * (c.w + Padding), origin.y + (i / cols) * (c.h + Padding))
  {
    PeerWalkGrid(|peers|, origin.x, origin.y, PeerCell(peers), cols);
  }

  /** Two different grid positions hold non-overlapping cells. */
  lemma GridCellsApart(i: int, j: int, x0: int, y0: int, cell: Size, cols: int)
    requires cols > 0 && 0 <= i < j && cell.w >= 0 && cell.h >= 0
    ensures var W, H := cell.w + Padding, cell.h + Padding;
      Disjoint(Rect(x0 + (i % cols) * W, y0 + (i / cols) * H, cell.w, cell.h),
               Rect(x0 + (j % cols) * W, y0 + (j / cols) * H, cell.w, cell.h))
  {
    var W, H := cell.w + Padding, cell.h + Padding;
    var qi, ri, qj, rj := i / cols, i % cols, j / cols, j % cols;
    if qi == qj {
      assert i == qi * cols + ri && j == qi * cols + rj;
      if ri < rj {
        StrideApart(ri, rj, W, cell.w);
      } else {
        StrideApart(rj, ri, W, cell.w);
      }
    } else if qi < qj {
      StrideApart(qi, qj, H, cell.h);
    } else {
      StrideApart(qj, qi, H, cell.h);
    }
  }

  /** No two peered VPC boxes overlap, whatever the column count: a grid
      when it is positive, a single row otherwise. */
  lemma PeerGridDisjoint(peers: seq<Vpc>, origin: Point, cols: int)
    ensures var c := PeerCell(peers);
      var p := PlacePeers(peers, origin, cols);
      forall i, j | 0 <= i < j < |p| :: Disjoint(Rect(p[i].x, p[i].y, c.w, c.h), Rect(p[j].x, p[j].y, c.w, c.h))
  {
    var c := PeerCell(peers);
    var p := PlacePeers(peers, origin, cols);
    if |peers| > 0 {
      assert c.w >= VpcMinW && c.h >= VpcMinH;
      if cols > 0 {
        PeerGridCells(peers, origin, cols);
        forall i, j | 0 <= i < j < |p|
          ensures Disjoint(Rect(p[i].x, p[i].y, c.w, c.h), Rect(p[j].x, p[j].y, c.w, c.h))
        {
          GridCellsApart(i, j, origin.x, origin.y, c, cols);
        }
      } else {
        forall i, j | 0 <= i < j < |p|
          ensures Disjoint(Rect(p[i].x, p[i].y, c.w, c.h), Rect(p[j].x, p[j].y, c.w, c.h))
        {
          assert p[i].y == p[j].y;
          StrideApart(i, j, c.w + Padding, c.w);
        }
      }
    }
  }

  /** The peered VPCs are drawn right of the region that holds the VPC
      (placed a gutter from the left edge), for any column count. */
  lemma PeersRightOfRegion(v: Vpc, heightOverride: int, routeTableConnections: bool, peers: seq<Vpc>, cols: int)
    ensures var origin := PeerOrigin(VpcDimensionsAsWritten(v).0.w, routeTableConnections);
      origin.x > VpcGutterDim + RegionDimensions(v, heightOverride).w &&
      forall i | 0 <= i < |peers| ::
        PlacePeers(peers, origin, cols)[i].x > VpcGutterDim + RegionDimensions(v, heightOverride).w
  {
    var w := VpcDimensionsAsWritten(v).0.w;
    assert RegionDimensions(v, heightOverride).w == w + 2 * Padding;
    PeersFromOrigin(peers, PeerOrigin(w, routeTableConnections), cols);
  }

  /** No peered VPC is placed left of the grid's start. */
  lemma PeersFromOrigin(peers: seq<Vpc>, origin: Point, cols: int)
    ensures forall i | 0 <= i < |peers| :: PlacePeers(peers, origin, cols)[i].x >= origin.x
  {
    PeerWalkRightOf(|peers|, origin.x, origin.x, origin.y, 0, PeerCell(peers), cols);
  }

  /** The walk only moves right by a cell of non-negative width, or back to
      the row start. */
  lemma {:induction false} PeerWalkRightOf(n: nat, x0: int, x: int, y: int, count: int, cell: Size, cols: int)
    requires x0 <= x && cell.w >= 0
    ensures forall i | 0 <= i < n :: PeerWalk(n, x0, x, y, count, cell, cols)[i].x >= x0
  {
    if n > 0 {
      if count == cols {
        PeerWalkRightOf(n - 1, x0, x0 + cell.w + Padding, y + cell.h + Padding, 1, cell, cols);
      } else {
        PeerWalkRightOf(n - 1, x0, x + cell.w + Padding, y, count + 1, cell, cols);
      }
    }
  }

}
