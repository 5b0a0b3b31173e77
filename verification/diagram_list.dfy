/** The side-panel tables (ACL rules, routes): a titled box with one lane per
    column, a header band, and one line per row. Only the box's geometry is
    modelled; the text it holds is not. */
module DiagramLists {
  import opened Geometry

  /** A row of a list: a rule or route entry, or the separator line that
      the ACL list puts between its egress and ingress rules. */
  datatype Row<T> = Entry(entry: T) | HorizontalLine

  function Sum(s: seq<int>): int {
    if |s| == 0 then 0 else Sum(s[..|s| - 1]) + s[|s| - 1]
  }

  lemma {:induction false} SumBounds(s: seq<int>, i: nat)
    requires forall k | 0 <= k < |s| :: s[k] >= 0
    requires i <= |s|
    ensures 0 <= Sum(s[..i]) <= Sum(s)
  {
    if |s| > 0 {
      assert s[..|s| - 1][..if i < |s| then i else |s| - 1] == s[..if i < |s| then i else |s| - 1];
      SumBounds(s[..|s| - 1], if i < |s| then i else |s| - 1);
      if i == |s| {
        assert s[..i] == s;
      }
    } else {
      assert s[..i] == [];
    }
  }

  lemma SumCoversEach(s: seq<int>)
    ensures (forall k | 0 <= k < |s| :: s[k] >= 0) ==> Sum(s) >= 0 && forall k | 0 <= k < |s| :: Sum(s) >= s[k]
  {
    if forall k | 0 <= k < |s| :: s[k] >= 0 {
      forall k | 0 <= k < |s| ensures Sum(s) >= s[k] {
        SumBounds(s, k);
        SumBounds(s, k + 1);
        assert s[..k + 1][..k] == s[..k];
      }
      SumBounds(s, 0);
    }
  }

  /** Column widths of the ACL rule list (number, protocol, egress, CIDR,
      action) and of the route list (destination, state, gateway, origin). */
  const AclColumnWidths: seq<int> := [ColWidthNormal, ColWidthSmall, ColWidthSmall, ColWidthOversized, ColWidthSmall]
  const RouteColumnWidths: seq<int> := [ColWidthOversized, ColWidthSmall, ColWidthNormal, ColWidthNormal]

  /** The list box: as wide as its columns together, and a header band plus
      one line per row tall. */
  function ListSize(widths: seq<int>, rows: nat, lineHeight: int): (s: Size)
    ensures (forall k | 0 <= k < |widths| :: widths[k] >= 0) ==>
      s.w >= 0 && forall k | 0 <= k < |widths| :: s.w >= widths[k]
    ensures lineHeight >= 0 ==> s.h >= DiagramHeaderSpacing
    ensures s.h - DiagramHeaderSpacing == lineHeight * rows
  {
    SumCoversEach(widths);
    Size(Sum(widths), DiagramHeaderSpacing + lineHeight * rows)
  }

  /** The horizontal offset of lane `f` inside the box. */
  function LaneX(widths: seq<int>, f: nat): int
    requires f <= |widths|
  {
    Sum(widths[..f])
  }

  /** The lanes tile the box: the first starts at its left edge, each starts
      where the previous one ends, and the last ends at its right edge. */
  lemma LanesTile(widths: seq<int>, rows: nat, lineHeight: int)
    ensures LaneX(widths, 0) == 0
    ensures forall f | 0 <= f < |widths| :: LaneX(widths, f + 1) == LaneX(widths, f) + widths[f]
    ensures LaneX(widths, |widths|) == ListSize(widths, rows, lineHeight).w
  {
    assert widths[..0] == [];
    forall f | 0 <= f < |widths| ensures LaneX(widths, f + 1) == LaneX(widths, f) + widths[f] {
      assert widths[..f + 1][..f] == widths[..f];
    }
    assert widths[..|widths|] == widths;
  }

  /** The height of an entry's text cell. */
  const EntryHeight: int := 26

  /** The vertical offset of row `k` (0-based) inside its lane. */
  function RowY(k: nat, lineHeight: int): int {
    lineHeight * (k + 1)
  }

  /** The top of row `k`'s entries measured from the box's top: the lanes
      start one line below it. */
  function EntryTop(k: nat, lineHeight: int): int {
    lineHeight + RowY(k, lineHeight)
  }

  /** The y coordinate of a separator drawn at row `k` of a box placed at
      `y`; the line is drawn in the diagram's frame, not in a lane. */
  function SeparatorY(y: int, k: nat, lineHeight: int): int {
    y + RowY(k, lineHeight) + FloorDiv(DiagramHeaderSpacing, 2) + 5
  }

  /** Rows are one line apart. Every entry ends inside the box exactly when
      a line and an entry together are no taller than the header band, and
      neighbouring entries are clear of each other exactly when a line is
      at least an entry tall. */
  lemma RowsFit(rows: nat, lineHeight: int)
    requires rows > 0 && lineHeight >= 0
    ensures forall k | 0 <= k < rows - 1 :: EntryTop(k + 1, lineHeight) == EntryTop(k, lineHeight) + lineHeight
    ensures (forall k | 0 <= k < rows :: EntryTop(k, lineHeight) + EntryHeight <= ListSize([], rows, lineHeight).h)
      <==> lineHeight + EntryHeight <= DiagramHeaderSpacing
    ensures rows > 1 ==>
      ((forall k | 0 <= k < rows - 1 :: EntryTop(k, lineHeight) + EntryHeight <= EntryTop(k + 1, lineHeight))
       <==> lineHeight >= EntryHeight)
  {
    var h := ListSize([], rows, lineHeight).h;
    if lineHeight + EntryHeight <= DiagramHeaderSpacing {
      forall k | 0 <= k < rows ensures EntryTop(k, lineHeight) + EntryHeight <= h {
        assert lineHeight * (k + 1) <= lineHeight * rows by {
          MulNonNegative(lineHeight, rows - k - 1);
        }
      }
    } else {
      assert EntryTop(rows - 1, lineHeight) + EntryHeight > h;
    }
    if rows > 1 && lineHeight < EntryHeight {
      assert EntryTop(0, lineHeight) + EntryHeight > EntryTop(1, lineHeight);
    }
  }

  /** A separator at row `k` of a box at `y` lies inside the box, four units
      below the end of the entries of the row before it, and above the
      entries of the row after it exactly when two lines exceed 30. */
  lemma SeparatorBetweenEntries(y: int, k: nat, rows: nat, lineHeight: int)
    requires k < rows && lineHeight >= 0
    ensures y <= SeparatorY(y, k, lineHeight) <= y + ListSize([], rows, lineHeight).h
    ensures k > 0 ==> SeparatorY(y, k, lineHeight) == y + EntryTop(k - 1, lineHeight) + EntryHeight + 4
    ensures SeparatorY(y, k, lineHeight) < y + EntryTop(k + 1, lineHeight) <==> 2 * lineHeight > 30
  {
    assert lineHeight * (k + 1) <= lineHeight * rows by {
      MulNonNegative(lineHeight, rows - k - 1);
    }
    MulNonNegative(lineHeight, k + 1);
  }

  /** The list's title: "name  |  id", or the bare id when the name is empty. */
  function ListTitle(name: string, id: string): (t: string)
    ensures name == "" ==> t == id
    ensures name != "" ==> |t| == |name| + 5 + |id| && t[..|name|] == name && t[|name|..|name| + 5] == "  |  " && t[|t| - |id|..] == id
  {
    if name == "" then id else name + "  |  " + id
  }
}
