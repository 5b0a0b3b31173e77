/** Bottom-up sizing of the nested containers — subnet, availability zone,
    VPC, region — each computed from the sizes of its parts. */
module Containers {
  import opened Geometry
  import Acls
  import RouteTables

  /** A subnet, the number of NAT gateways drawn in it, and the ACLs
      associated with it in registration order. */
  datatype Subnet = Subnet(id: string, cidr: string, az: string, name: string,
                           natGateways: nat, naclAssociations: seq<Acls.Acl>)

  /** Every subnet box has the same width; it is the minimum height, or
      taller when its NAT gateways stacked one resource distance apart need
      more. */
  function SubnetSize(s: Subnet): (r: Size)
    ensures r.w == SubnetMinW
    ensures r.h >= SubnetMinH && r.h >= s.natGateways * ResourceDistribution - Padding
    ensures r.h == SubnetMinH || r.h == s.natGateways * ResourceDistribution - Padding
  {
    var need := s.natGateways * ResourceDistribution - Padding;
    Size(SubnetMinW, if need > SubnetMinH then need else SubnetMinH)
  }

  /** The subnet's column: that of its first associated ACL, else 0. */
  function SubnetColumn(s: Subnet): (c: int)
    ensures |s.naclAssociations| == 0 ==> c == 0
    ensures |s.naclAssociations| > 0 ==> c == s.naclAssociations[0].column
  {
    if |s.naclAssociations| > 0 then s.naclAssociations[0].column else 0
  }

  /** When the subnet's ACLs all come out of the column assignment, its
      column is one of the layout's columns. */
  lemma SubnetColumnInRange(s: Subnet, acls: seq<Acls.Acl>, cols: int)
    requires cols > 0
    requires Acls.AssignColumns(acls, cols).Some?
    requires forall a | a in s.naclAssociations :: a in Acls.AssignColumns(acls, cols).value
    ensures 0 <= SubnetColumn(s) < cols
  {
    Acls.ColumnHintsSpec(|acls|, cols);
    if |s.naclAssociations| > 0 {
      var placed := Acls.AssignColumns(acls, cols).value;
      assert s.naclAssociations[0] in s.naclAssociations;
      var i :| 0 <= i < |placed| && placed[i] == s.naclAssociations[0];
      assert placed[i].column == Acls.ColumnHints(|acls|, cols).value[i];
    }
  }

  /** An availability zone: its subnets in registration order and the width
      a VPC may have imposed on it. */
  datatype Az = Az(id: string, subnets: seq<Subnet>, widthOverride: Option<int>)

  function NewAz(id: string): Az {
    Az(id, [], None)
  }

  function RegisterSubnet(a: Az, s: Subnet): (a': Az)
    ensures a'.subnets == a.subnets + [s] && a'.id == a.id && a'.widthOverride == a.widthOverride
  {
    a.(subnets := a.subnets + [s])
  }

  /** The height of a column of subnets, each followed by one padding. */
  function StackHeight(subnets: seq<Subnet>): (h: int)
    ensures h >= |subnets| * (SubnetMinH + Padding)
  {
    if |subnets| == 0 then 0
    else SubnetSize(subnets[0]).h + Padding + StackHeight(subnets[1..])
  }

  /** An AZ's width: a subnet plus padding on both sides unless
      overridden. */
  function AzWidth(a: Az): (w: int)
    ensures a.widthOverride.Some? ==> w == a.widthOverride.value
    ensures a.widthOverride.None? && |a.subnets| > 0 ==> w == SubnetMinW + 2 * Padding
    ensures a.widthOverride.None? && |a.subnets| == 0 ==> w == 2 * Padding
  {
    var sw := if |a.subnets| == 0 then 0 else SubnetSize(a.subnets[|a.subnets| - 1]).w;
    match a.widthOverride
    case Some(ow) => ow
    case None => sw + 2 * Padding
  }

  /** An AZ box: padding above a column of subnets each followed by padding. */
  function AzSize(a: Az): (r: Size)
    ensures r.w == AzWidth(a)
    ensures r.h == Padding + StackHeight(a.subnets)
    ensures r.h >= Padding + |a.subnets| * (SubnetMinH + Padding)
  {
    Size(AzWidth(a), Padding + StackHeight(a.subnets))
  }

  /** Imposes a width; the height and the contents stay as they were. */
  function OverrideWidth(a: Az, width: int): (a': Az)
    ensures AzWidth(a') == width
    ensures AzSize(a').h == AzSize(a).h
    ensures a'.id == a.id && a'.subnets == a.subnets
  {
    a.(widthOverride := Some(width))
  }

  /** An AZ without subnets, which the VPC packs two to a row. */
  function Empty(a: Az): (e: bool)
    ensures e <==> AzSize(a).h == Padding
  {
    |a.subnets| == 0
  }

  /** A VPC with its zones, ACLs and route tables in registration order. */
  datatype Vpc = Vpc(id: string, name: string, cidr: string, azs: seq<Az>,
                     acls: seq<Acls.Acl>, routeTables: seq<RouteTables.RouteTable>)

  function NewVpc(id: string, name: string, cidr: string): Vpc {
    Vpc(id, name, cidr, [], [], [])
  }

  /** A VPC that owns nothing (a peered VPC outside the account). */
  function CheckEmpty(v: Vpc): (e: bool)
    ensures e <==> |v.azs| + |v.acls| + |v.routeTables| == 0
  {
    |v.azs| == 0 && |v.acls| == 0 && |v.routeTables| == 0
  }

  function AzIds(azs: seq<Az>): (ids: seq<string>)
    ensures |ids| == |azs| && forall i | 0 <= i < |azs| :: ids[i] == azs[i].id
  {
    seq(|azs|, i requires 0 <= i < |azs| => azs[i].id)
  }

  /** The route tables ordered by the position of their suggested zone in
      the VPC's zone list, tables without a zone last. */
  function SortRtResources(v: Vpc): (r: seq<RouteTables.RouteTable>)
    ensures CheckEmpty(v) ==> r == []
    ensures !CheckEmpty(v) ==> multiset(r) == multiset(v.routeTables)
  {
    if CheckEmpty(v) then [] else RouteTables.OrderByAz(v.routeTables, AzIds(v.azs))
  }

  lemma SortRtResourcesSpec(v: Vpc)
    requires forall t | t in v.routeTables :: RouteTables.SuggestedAz(t) in AzIds(v.azs) + [RouteTables.NoAz]
    ensures CheckEmpty(v) ==> SortRtResources(v) == []
    ensures multiset(SortRtResources(v)) == multiset(v.routeTables)
    ensures var order := AzIds(v.azs) + [RouteTables.NoAz];
      forall i, j | 0 <= i < j < |SortRtResources(v)| ::
        RouteTables.AzRank(order, SortRtResources(v)[i]) <= RouteTables.AzRank(order, SortRtResources(v)[j])
    ensures RouteTables.NoAz !in AzIds(v.azs) ==> forall i, j | 0 <= i < j < |SortRtResources(v)| ::
      RouteTables.SuggestedAz(SortRtResources(v)[i]) == RouteTables.NoAz ==>
      RouteTables.SuggestedAz(SortRtResources(v)[j]) == RouteTables.NoAz
  {
    if !CheckEmpty(v) {
      RouteTables.OrderByAzSpec(v.routeTables, AzIds(v.azs));
    }
  }

  /** The widest AZ plus one padding, and never less than a resource slot
      plus padding. */
  function AzMaxWidth(azs: seq<Az>): (m: int)
    ensures m >= ResourceDistribution + Padding
    ensures forall i | 0 <= i < |azs| :: m >= AzWidth(azs[i]) + Padding
  {
    if |azs| == 0 then ResourceDistribution + Padding
    else
      var front := azs[..|azs| - 1];
      assert forall i | 0 <= i < |front| :: front[i] == azs[i];
      Max(AzMaxWidth(front), AzWidth(azs[|azs| - 1]) + Padding)
  }

  /** The maximum is attained: by the floor or by some AZ. */
  lemma {:induction false} AzMaxWidthAttained(azs: seq<Az>)
    ensures AzMaxWidth(azs) == ResourceDistribution + Padding
      || exists i | 0 <= i < |azs| :: AzMaxWidth(azs) == AzWidth(azs[i]) + Padding
  {
    if |azs| > 0 {
      var front := azs[..|azs| - 1];
      AzMaxWidthAttained(front);
      if AzMaxWidth(azs) != AzWidth(azs[|azs| - 1]) + Padding
         && AzMaxWidth(front) != ResourceDistribution + Padding {
        var i :| 0 <= i < |front| && AzMaxWidth(front) == AzWidth(front[i]) + Padding;
        assert front[i] == azs[i];
      }
    }
  }

  function OverrideAll(azs: seq<Az>, width: int): (r: seq<Az>)
    ensures |r| == |azs|
    ensures forall i | 0 <= i < |azs| :: r[i] == OverrideWidth(azs[i], width)
  {
    seq(|azs|, i requires 0 <= i < |azs| => OverrideWidth(azs[i], width))
  }

  /** The width the VPC's contents need (before its margins) and its AZs
      afterwards: when the ACL row is wider than every AZ, each AZ is
      stretched to the row's width less one padding. */
  function WidenAzs(v: Vpc): (r: (int, seq<Az>))
    ensures |r.1| == |v.azs|
    ensures r.0 == Max(|v.acls| * ResourceDistribution, AzMaxWidth(v.azs))
    ensures forall i | 0 <= i < |v.azs| :: r.1[i].id == v.azs[i].id && r.1[i].subnets == v.azs[i].subnets
    ensures forall i | 0 <= i < |v.azs| :: AzWidth(r.1[i]) + Padding <= r.0
  {
    var azMax := AzMaxWidth(v.azs);
    var aclWidth := |v.acls| * ResourceDistribution;
    if aclWidth > azMax then (aclWidth, OverrideAll(v.azs, aclWidth - Padding))
    else (azMax, v.azs)
  }

  /** The vertical slot an AZ takes in the VPC: its height plus padding,
      and never less than a minimal subnet plus padding, the row the
      renderer gives a pair of empty AZs. */
  function AzSlot(a: Az): (h: int)
    ensures h >= AzSize(a).h + Padding && h >= SubnetMinH + Padding
    ensures !Empty(a) ==> h == AzSize(a).h + Padding
  {
    Max(AzSize(a).h, SubnetMinH) + Padding
  }

  function AzSlots(azs: seq<Az>): (h: int)
    ensures h >= 0
  {
    if |azs| == 0 then 0 else AzSlot(azs[0]) + AzSlots(azs[1..])
  }

  /** The sum of the AZ heights alone, as the source adds them up. */
  function AzHeights(azs: seq<Az>): (h: int)
    ensures h >= |azs| * Padding
  {
    if |azs| == 0 then 0 else AzSize(azs[0]).h + AzHeights(azs[1..])
  }

  /** A non-empty VPC's box, given the height its AZ column asks for, and
      the VPC afterwards (sizing may stretch its AZs): as wide as the wider
      of the ACL row and the AZs plus margins, and as tall as the header
      band and the AZ column or the route-table column, plus margins. */
  function SizeWith(v: Vpc, column: int): (r: (Size, Vpc))
    requires !CheckEmpty(v)
  {
    var w := WidenAzs(v);
    (Size(w.0 + 5 * Padding, Max(ResourceDistribution + 2 * Padding + column,
                                 |v.routeTables| * ResourceDistribution) + 2 * Padding),
     v.(azs := w.1))
  }

  /** The VPC box and the VPC afterwards. An empty VPC is a fixed
      placeholder; otherwise the AZ column asks for every AZ's slot. */
  function VpcDimensions(v: Vpc): (r: (Size, Vpc))
    ensures CheckEmpty(v) ==> r == (Size(VpcMinW, VpcMinH), v)
    ensures r.0.w >= VpcMinW && r.0.h >= VpcMinH
    ensures r.1 == v.(azs := r.1.azs) && |r.1.azs| == |v.azs|
    ensures forall i | 0 <= i < |v.azs| :: r.1.azs[i].id == v.azs[i].id && r.1.azs[i].subnets == v.azs[i].subnets
    ensures !CheckEmpty(v) ==> r.0.w >= |v.acls| * ResourceDistribution + 5 * Padding
    ensures !CheckEmpty(v) ==> r.0.w == WidenAzs(v).0 + 5 * Padding
    ensures !CheckEmpty(v) ==> forall i | 0 <= i < |v.azs| :: r.0.w >= AzWidth(v.azs[i]) + 6 * Padding
    ensures !CheckEmpty(v) ==> forall i | 0 <= i < |v.azs| :: r.0.w >= AzWidth(r.1.azs[i]) + 6 * Padding
    ensures !CheckEmpty(v) ==> r.0.h >= |v.routeTables| * ResourceDistribution + 2 * Padding
    ensures !CheckEmpty(v) ==> r.0.h >= ResourceDistribution + 4 * Padding + AzSlots(v.azs)
  {
    if CheckEmpty(v) then (Size(VpcMinW, VpcMinH), v) else SizeWith(v, AzSlots(v.azs))
  }

  /** The source's sizing: the same, except that the AZ column asks only
      for the AZ heights, without the padding the renderer puts after each
      AZ. */
  function VpcDimensionsAsWritten(v: Vpc): (r: (Size, Vpc))
    ensures CheckEmpty(v) ==> r == (Size(VpcMinW, VpcMinH), v)
    ensures r.0.w >= VpcMinW && r.0.h >= VpcMinH
    ensures r.1 == v.(azs := r.1.azs) && |r.1.azs| == |v.azs|
    ensures forall i | 0 <= i < |v.azs| :: r.1.azs[i].id == v.azs[i].id && r.1.azs[i].subnets == v.azs[i].subnets
    ensures !CheckEmpty(v) ==> r.0.w >= |v.acls| * ResourceDistribution + 5 * Padding
    ensures !CheckEmpty(v) ==> r.0.w == WidenAzs(v).0 + 5 * Padding
    ensures !CheckEmpty(v) ==> forall i | 0 <= i < |v.azs| :: r.0.w >= AzWidth(v.azs[i]) + 6 * Padding
    ensures !CheckEmpty(v) ==> r.0.h >= |v.routeTables| * ResourceDistribution + 2 * Padding
    ensures !CheckEmpty(v) ==> r.0.h >= ResourceDistribution + 4 * Padding + AzHeights(v.azs)
    ensures !CheckEmpty(v) ==> r.0.h == |v.routeTables| * ResourceDistribution + 2 * Padding
                               || r.0.h == ResourceDistribution + 4 * Padding + AzHeights(v.azs)
  {
    if CheckEmpty(v) then (Size(VpcMinW, VpcMinH), v) else SizeWith(v, AzHeights(v.azs))
  }

  /** The AZ heights fall short of the AZ slots by at least one padding per
      AZ. */
  lemma {:induction false} AzHeightsBelowSlots(azs: seq<Az>)
    ensures AzHeights(azs) + |azs| * Padding <= AzSlots(azs)
  {
    if |azs| > 0 {
      AzHeightsBelowSlots(azs[1..]);
    }
  }

  /** The two sizings agree on everything but the height, and the source's
      height is never the larger. */
  lemma AsWrittenDiffersInHeightOnly(v: Vpc)
    ensures VpcDimensionsAsWritten(v).0.w == VpcDimensions(v).0.w
    ensures VpcDimensionsAsWritten(v).1 == VpcDimensions(v).1
    ensures VpcDimensionsAsWritten(v).0.h <= VpcDimensions(v).0.h
  {
    AzHeightsBelowSlots(v.azs);
  }

  lemma {:induction false} AzSlotsIgnoreWidth(a: seq<Az>, b: seq<Az>)
    requires |a| == |b| && forall i | 0 <= i < |a| :: a[i].subnets == b[i].subnets
    ensures AzSlots(a) == AzSlots(b) && AzHeights(a) == AzHeights(b)
  {
    if |a| > 0 {
      AzSlotsIgnoreWidth(a[1..], b[1..]);
    }
  }

  /** Once stretched to a common width, the widest AZ is that width. */
  lemma {:induction false} AzMaxWidthOfOverridden(azs: seq<Az>, width: int)
    requires |azs| > 0
    ensures AzMaxWidth(OverrideAll(azs, width)) == Max(ResourceDistribution + Padding, width + Padding)
  {
    var o := OverrideAll(azs, width);
    if |azs| > 1 {
      var front := azs[..|azs| - 1];
      AzMaxWidthOfOverridden(front, width);
      assert o[..|o| - 1] == OverrideAll(front, width);
    }
  }

  /** Stretching is settled after one round: the AZs stretched to the ACL
      row's width are exactly as wide as the row asks. */
  lemma WidenAzsSettles(v: Vpc)
    ensures WidenAzs(v.(azs := WidenAzs(v).1)) == WidenAzs(v)
  {
    if |v.acls| * ResourceDistribution > AzMaxWidth(v.azs) {
      StretchedSettle(v);
    } else {
      assert v.(azs := WidenAzs(v).1) == v;
    }
  }

  lemma StretchedSettle(v: Vpc)
    requires |v.acls| * ResourceDistribution > AzMaxWidth(v.azs)
    ensures WidenAzs(v.(azs := WidenAzs(v).1)) == WidenAzs(v)
  {
    var aclWidth := |v.acls| * ResourceDistribution;
    var o := OverrideAll(v.azs, aclWidth - Padding);
    if |v.azs| > 0 {
      AzMaxWidthOfOverridden(v.azs, aclWidth - Padding);
    } else {
      assert |o| == 0;
    }
    assert WidenAzs(v) == (aclWidth, o);
    StretchedOnce(v, o);
  }

  lemma StretchedOnce(v: Vpc, o: seq<Az>)
    requires |v.acls| * ResourceDistribution > AzMaxWidth(v.azs)
    requires o == OverrideAll(v.azs, |v.acls| * ResourceDistribution - Padding)
    requires AzMaxWidth(o) <= |v.acls| * ResourceDistribution
    ensures WidenAzs(v.(azs := o)) == (|v.acls| * ResourceDistribution, o)
  {
    var u := v.(azs := o);
    assert u.azs == o;
    assert u.acls == v.acls;
    assert AzMaxWidth(u.azs) <= |u.acls| * ResourceDistribution;
  }

  /** Sizing is settled after one round. */
  lemma SizeWithSettles(v: Vpc, column: int)
    requires !CheckEmpty(v)
    ensures !CheckEmpty(SizeWith(v, column).1)
    ensures SizeWith(SizeWith(v, column).1, column) == SizeWith(v, column)
  {
    WidenAzsSettles(v);
  }

  /** Sizing a second time changes nothing, although the first call may
      have stretched the AZs: the same box and the same VPC come out. */
  lemma VpcDimensionsIdempotent(v: Vpc)
    ensures VpcDimensions(VpcDimensions(v).1) == VpcDimensions(v)
  {
    if !CheckEmpty(v) {
      var v1 := SizeWith(v, AzSlots(v.azs)).1;
      SizeWithSettles(v, AzSlots(v.azs));
      AzSlotsIgnoreWidth(v1.azs, v.azs);
    }
  }

  /** The same holds for the source's sizing. */
  lemma VpcDimensionsAsWrittenIdempotent(v: Vpc)
    ensures VpcDimensionsAsWritten(VpcDimensionsAsWritten(v).1) == VpcDimensionsAsWritten(v)
  {
    if !CheckEmpty(v) {
      var v1 := SizeWith(v, AzHeights(v.azs)).1;
      SizeWithSettles(v, AzHeights(v.azs));
      AzSlotsIgnoreWidth(v1.azs, v.azs);
    }
  }

  /** The region box: the VPC box as the source sizes it, stretched to at
      least `heightOverride` tall, with one padding all round. */
  function RegionDimensions(v: Vpc, heightOverride: int): (r: Size)
    ensures r.w == VpcDimensionsAsWritten(v).0.w + 2 * Padding
    ensures r.h >= VpcDimensionsAsWritten(v).0.h + 2 * Padding && r.h >= heightOverride + 2 * Padding
    ensures r.h == VpcDimensionsAsWritten(v).0.h + 2 * Padding || r.h == heightOverride + 2 * Padding
    ensures !CheckEmpty(v) ==> r.h >= |v.routeTables| * ResourceDistribution + 4 * Padding
  {
    var s := VpcDimensionsAsWritten(v).0;
    Size(s.w + 2 * Padding, Max(s.h, heightOverride) + 2 * Padding)
  }

  /** The height the VPC is drawn with inside its region. */
  function VpcDrawnHeight(v: Vpc, regionHeight: int): (h: int)
    ensures h >= VpcDimensionsAsWritten(v).0.h && h >= regionHeight - 2 * Padding
    ensures h == VpcDimensionsAsWritten(v).0.h || h == regionHeight - 2 * Padding
  {
    Max(VpcDimensionsAsWritten(v).0.h, regionHeight - 2 * Padding)
  }

  /** The VPC, drawn one padding inside the region with the region's inner
      height, leaves exactly one padding on every side. */
  lemma RegionHoldsVpc(v: Vpc, heightOverride: int, x: int, y: int)
    ensures var region := RegionDimensions(v, heightOverride);
      var outer := Rect(x, y, region.w, region.h);
      var inner := Rect(x + Padding, y + Padding, VpcDimensionsAsWritten(v).0.w,
                        VpcDrawnHeight(v, region.h));
      && Inside(inner, outer)
      && inner.x - outer.x == Padding && outer.Right() - inner.Right() == Padding
      && inner.y - outer.y == Padding && outer.Bottom() - inner.Bottom() == Padding
      && inner.h >= VpcDimensionsAsWritten(v).0.h && inner.h >= heightOverride
  {
  }
}
