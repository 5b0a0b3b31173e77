/** Network ACLs: their rules split by direction, the rule list drawn beside
    the VPC (egress rules, a separator, ingress rules, each part by rule
    number), and the column each ACL suggests to the subnets it guards. */
module Acls {
  import opened Geometry
  import opened Sorting
  import opened DiagramLists

  datatype AclRule = AclRule(number: int, protocol: string, egress: bool, cidr: string, action: string)

  /** `column` is the column suggestion, 0 until one is assigned. */
  datatype Acl = Acl(id: string, name: string, column: int, ingress: seq<AclRule>, egress: seq<AclRule>)

  function NewAcl(id: string, name: string): Acl {
    Acl(id, name, 0, [], [])
  }

  /** Each rule sits in the list of its own direction. */
  predicate RulesFiled(a: Acl) {
    (forall i | 0 <= i < |a.egress| :: a.egress[i].egress) &&
    (forall i | 0 <= i < |a.ingress| :: !a.ingress[i].egress)
  }

  /** Appends a rule to the egress or the ingress list by its flag. */
  function AddRule(a: Acl, number: int, protocol: string, egress: bool, cidr: string, action: string): (a': Acl)
    ensures RulesFiled(a) ==> RulesFiled(a')
    ensures a'.id == a.id && a'.name == a.name && a'.column == a.column
    ensures |a'.egress| + |a'.ingress| == |a.egress| + |a.ingress| + 1
  {
    var rule := AclRule(number, protocol, egress, cidr, action);
    if egress then a.(egress := a.egress + [rule]) else a.(ingress := a.ingress + [rule])
  }

  /** No rule is lost or duplicated. */
  lemma AddRuleKeepsRules(a: Acl, number: int, protocol: string, egress: bool, cidr: string, action: string)
    ensures var a' := AddRule(a, number, protocol, egress, cidr, action);
      multiset(a'.egress + a'.ingress) == multiset(a.egress + a.ingress) + multiset{AclRule(number, protocol, egress, cidr, action)}
  {
  }

  function AddRules(a: Acl, rules: seq<AclRule>): Acl {
    if |rules| == 0 then a
    else
      var r := rules[|rules| - 1];
      AddRule(AddRules(a, rules[..|rules| - 1]), r.number, r.protocol, r.egress, r.cidr, r.action)
  }

  /** The rules of a response that go one way, in their order. */
  function RulesGoing(rules: seq<AclRule>, egress: bool): (r: seq<AclRule>)
    ensures forall i | 0 <= i < |r| :: r[i].egress == egress
  {
    if |rules| == 0 then []
    else RulesGoing(rules[..|rules| - 1], egress) + (if rules[|rules| - 1].egress == egress then [rules[|rules| - 1]] else [])
  }

  /** Adding a response's rules to an ACL extends its egress list by the
      egress rules and its ingress list by the others, each in order. */
  lemma {:induction false} AddRulesSplits(a: Acl, rules: seq<AclRule>)
    ensures AddRules(a, rules).egress == a.egress + RulesGoing(rules, true)
    ensures AddRules(a, rules).ingress == a.ingress + RulesGoing(rules, false)
  {
    if |rules| > 0 {
      var n := |rules| - 1;
      var r := rules[n];
      AddRulesSplits(a, rules[..n]);
      var p := AddRules(a, rules[..n]);
      assert AddRules(a, rules) == AddRule(p, r.number, r.protocol, r.egress, r.cidr, r.action);
      assert RulesGoing(rules, true) == RulesGoing(rules[..n], true) + (if r.egress then [r] else []);
      assert RulesGoing(rules, false) == RulesGoing(rules[..n], false) + (if r.egress then [] else [r]);
      assert r == AclRule(r.number, r.protocol, r.egress, r.cidr, r.action);
    }
  }

  /** `sorted(rules, key=lambda rule: rule[0])`. */
  function RuleCmp(x: AclRule, y: AclRule): int {
    CmpInt(x.number, y.number)
  }

  function Entries(rules: seq<AclRule>): (rows: seq<Row<AclRule>>)
    ensures |rows| == |rules|
    ensures forall i | 0 <= i < |rules| :: rows[i] == Entry(rules[i])
  {
    if |rules| == 0 then [] else [Entry(rules[0])] + Entries(rules[1..])
  }

  /** The rows of the ACL's rule list. */
  function PanelRows(a: Acl): (r: seq<Row<AclRule>>)
    ensures |r| == |a.egress| + 1 + |a.ingress|
    ensures forall i | 0 <= i < |r| :: r[i].HorizontalLine? <==> i == |a.egress|
  {
    Entries(SortBy(a.egress, RuleCmp)) + [HorizontalLine] + Entries(SortBy(a.ingress, RuleCmp))
  }

  lemma RuleCmpPreorder(u: seq<AclRule>)
    ensures TotalPreorderOn(RuleCmp, u)
  {
  }

  /** The rules a list of rows shows, separators skipped. */
  function RulesOf(rows: seq<Row<AclRule>>): seq<AclRule> {
    if |rows| == 0 then []
    else (if rows[0].Entry? then [rows[0].entry] else []) + RulesOf(rows[1..])
  }

  lemma {:induction false} RulesOfEntries(rules: seq<AclRule>)
    ensures RulesOf(Entries(rules)) == rules
  {
    if |rules| > 0 {
      RulesOfEntries(rules[1..]);
      assert Entries(rules)[1..] == Entries(rules[1..]);
    }
  }

  /** The separator sits right after the egress rules and is the only one. */
  lemma PanelRowsShape(a: Acl)
    ensures var rows := PanelRows(a);
      && |rows| == |a.egress| + 1 + |a.ingress|
      && rows[|a.egress|] == HorizontalLine
      && (forall i | 0 <= i < |rows| && i != |a.egress| :: rows[i].Entry?)
  {
  }

  lemma SortedByNumber(s: seq<AclRule>)
    ensures forall i, j | 0 <= i < j < |s| :: SortBy(s, RuleCmp)[i].number <= SortBy(s, RuleCmp)[j].number
  {
    var e := SortBy(s, RuleCmp);
    assert SortedBy(RuleCmp, e) by {
      RuleCmpPreorder(s);
      SortBySorted(s, RuleCmp);
    }
    forall i, j | 0 <= i < j < |s| ensures e[i].number <= e[j].number {
      assert RuleCmp(e[i], e[j]) <= 0;
    }
  }

  lemma PrefixOfConcat<T>(front: seq<T>, back: seq<T>)
    ensures (front + back)[..|front|] == front
  {
  }

  lemma PanelRowsFront(a: Acl)
    ensures PanelRows(a)[..|a.egress|] == Entries(SortBy(a.egress, RuleCmp))
  {
    var front := Entries(SortBy(a.egress, RuleCmp));
    var back := [HorizontalLine] + Entries(SortBy(a.ingress, RuleCmp));
    PanelRowsBack(a);
    PrefixOfConcat(front, back);
  }

  /** The part before the separator shows the egress rules by number. */
  lemma PanelRowsEgress(a: Acl)
    ensures var rows := PanelRows(a);
      && multiset(RulesOf(rows[..|a.egress|])) == multiset(a.egress)
      && (forall i, j | 0 <= i < j < |a.egress| :: rows[i].entry.number <= rows[j].entry.number)
  {
    var e := SortBy(a.egress, RuleCmp);
    PanelRowsFront(a);
    RulesOfEntries(e);
    SortedByNumber(a.egress);
    var rows := PanelRows(a);
    forall i, j | 0 <= i < j < |a.egress| ensures rows[i].entry.number <= rows[j].entry.number {
      assert rows[i] == rows[..|a.egress|][i];
      assert rows[j] == rows[..|a.egress|][j];
    }
  }

  lemma PanelRowsBack(a: Acl)
    ensures PanelRows(a) == (Entries(SortBy(a.egress, RuleCmp)) + [HorizontalLine]) + Entries(SortBy(a.ingress, RuleCmp))
  {
  }

  /** Rows appended after any prefix keep their order by number. */
  lemma EntriesAfter(front: seq<Row<AclRule>>, g: seq<AclRule>)
    requires forall i, j | 0 <= i < j < |g| :: g[i].number <= g[j].number
    ensures (front + Entries(g))[|front|..] == Entries(g)
    ensures forall i, j | |front| <= i < j < |front + Entries(g)| ::
      (front + Entries(g))[i].entry.number <= (front + Entries(g))[j].entry.number
  {
    var rows := front + Entries(g);
    forall i, j | |front| <= i < j < |rows| ensures rows[i].entry.number <= rows[j].entry.number {
      assert rows[i] == Entry(g[i - |front|]) && rows[j] == Entry(g[j - |front|]);
    }
  }

  /** The part after the separator shows the ingress rules by number. */
  lemma PanelRowsIngress(a: Acl)
    ensures var rows := PanelRows(a);
      && multiset(RulesOf(rows[|a.egress| + 1..])) == multiset(a.ingress)
      && (forall i, j | |a.egress| < i < j < |rows| :: rows[i].entry.number <= rows[j].entry.number)
  {
    var g := SortBy(a.ingress, RuleCmp);
    var front := Entries(SortBy(a.egress, RuleCmp)) + [HorizontalLine];
    PanelRowsBack(a);
    RulesOfEntries(g);
    SortedByNumber(a.ingress);
    EntriesAfter(front, g);
  }

  /** Rules with the same number keep their order within each part. */
  lemma PanelRowsStable(a: Acl, r: AclRule)
    ensures r in a.egress ==> Tied(SortBy(a.egress, RuleCmp), RuleCmp, r) == Tied(a.egress, RuleCmp, r)
    ensures r in a.ingress ==> Tied(SortBy(a.ingress, RuleCmp), RuleCmp, r) == Tied(a.ingress, RuleCmp, r)
  {
    RuleCmpPreorder(a.egress);
    RuleCmpPreorder(a.ingress);
    if r in a.egress {
      SortByStable(a.egress, RuleCmp, r);
    }
    if r in a.ingress {
      SortByStable(a.ingress, RuleCmp, r);
    }
  }

  /** The list always holds the separator, so it is always drawn, and its
      box is one line taller than the rules need. */
  lemma PanelAlwaysDrawn(a: Acl, lineHeight: int)
    ensures |PanelRows(a)| > 0
    ensures ListSize(AclColumnWidths, |PanelRows(a)|, lineHeight).h ==
      DiagramHeaderSpacing + lineHeight * (|a.egress| + |a.ingress| + 1)
  {
  }

  // ---------------------------------------------------------------------
  // Column suggestions

  /** The column hint of the i-th of n ACLs for `cols` columns: consecutive
      ACLs share a column, ceil(n / cols) to a column. Python raises on a
      zero divisor, which is `None` here. */
  function ColumnHints(n: nat, cols: int): (hints: Option<seq<int>>)
    ensures cols == 0 ==> hints.None?
    ensures hints.Some? ==> |hints.value| == n
  {
    if cols == 0 then None
    else if n == 0 then Some([])
    else
      var size := CeilDiv(n, cols);
      if size == 0 then None
      else Some(seq(n, i => FloorDiv(i, size)))
  }

  lemma MulLess(q: int, size: int, cols: int)
    requires size > 0 && q * size < size * cols
    ensures q < cols
  {
    if q >= cols {
      assert (q - cols) * size == q * size - size * cols;
      MulNonNegative(q - cols, size);
      assert false;
    }
  }

  /** With a positive column count the hints exist, never decrease, stay
      below the column count, and the i-th lies in the bucket of width
      ceil(n / cols) that holds i. */
  lemma ColumnHintsSpec(n: nat, cols: int)
    requires cols > 0
    ensures ColumnHints(n, cols).Some?
    ensures var h := ColumnHints(n, cols).value;
      && (forall i, j | 0 <= i < j < n :: h[i] <= h[j])
      && (forall i | 0 <= i < n :: 0 <= h[i] < cols)
      && (forall i | 0 <= i < n :: h[i] * CeilDiv(n, cols) <= i < (h[i] + 1) * CeilDiv(n, cols))
  {
    if n > 0 {
      var size := CeilDiv(n, cols);
      assert size > 0 by {
        assert (size - 1) * cols < n;
        if size <= 0 {
          MulNonNegative(-size, cols);
          assert false;
        }
      }
      var h := ColumnHints(n, cols).value;
      forall i, j | 0 <= i < j < n ensures h[i] <= h[j] {
        FloorDivMonotone(i, j, size);
      }
      forall i | 0 <= i < n ensures 0 <= h[i] < cols {
        FloorDivNonNegative(i, size);
        assert h[i] * size <= i < n <= size * cols;
        MulLess(h[i], size, cols);
      }
      forall i | 0 <= i < n ensures h[i] * size <= i < (h[i] + 1) * size {
        assert (h[i] + 1) * size == h[i] * size + size;
      }
    }
  }

  /** Seven ACLs over three columns. */
  lemma ColumnHintsExample()
    ensures ColumnHints(7, 3) == Some([0, 0, 0, 1, 1, 1, 2])
  {
    assert CeilDiv(7, 3) == 3;
    assert ColumnHints(7, 3) == Some(seq(7, i => FloorDiv(i, 3)));
    var h := seq(7, i => FloorDiv(i, 3));
    assert |h| == 7;
    assert h[0] == 0 && h[1] == 0 && h[2] == 0;
    assert h[3] == 1 && h[4] == 1 && h[5] == 1;
    assert h[6] == 2;
    assert h == [0, 0, 0, 1, 1, 1, 2];
  }

  /** Gives each ACL its hint, in order. */
  function AssignColumns(acls: seq<Acl>, cols: int): (r: Option<seq<Acl>>)
    ensures r.Some? <==> ColumnHints(|acls|, cols).Some?
    ensures r.Some? ==> |r.value| == |acls|
    ensures r.Some? ==> forall i | 0 <= i < |acls| :: r.value[i] == acls[i].(column := ColumnHints(|acls|, cols).value[i])
  {
    match ColumnHints(|acls|, cols)
    case None => None
    case Some(h) => Some(seq(|acls|, i requires 0 <= i < |acls| => acls[i].(column := h[i])))
  }
}
