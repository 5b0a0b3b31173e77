# Layout and ordering core of the AWS network visualizer

`visualize_network.py` reads an AWS account's VPCs through boto3 and writes a
draw.io diagram. Between fetching and writing XML sits the logic that decides
where everything goes. This project models that logic in Dafny and proves
properties of it:

- **Route groups** (`RouteGroups`). A route group is a state record that hands
  out bent connector paths of one to three points. After each call it moves its
  stacking coordinates by the bundle spacing. A coordinate of -1 means "unset"
  and is never moved.
- **Route tables** (`RouteTables`):
  - `simplify_origin`, `add_route` and `register_rt_association`.
  - The majority-vote zone of a table (`get_suggested_az`).
  - The CIDR comparator `cmp_cidr` and `sort_routes`, which sorts the routes and
    then pins the `local` routes to the front.
  - The order of a VPC's tables by their zone's position, with `no_az` last.
- **ACL rule lists** (`Acls`):
  - `add_rule` files each rule as egress or ingress.
  - The list panel holds the sorted egress rules, a separator row and the sorted
    ingress rules. The separator is a variant of the `Row` datatype.
  - The column hints `i div ceil(n / cols)`.
- **Bottom-up sizing** (`Containers`, `DiagramLists`). This covers subnet, AZ,
  VPC and region dimensions, including the AZ width override that VPC sizing
  applies. It also covers the width and height of a list box and its lanes.
  The region, the drawn VPC, the AZ boxes and the peer cells are sized as the
  program sizes them; `Containers.VpcDimensions` is the corrected VPC sizing
  of the second finding below, kept beside it.
- **Top-down placement** (`Placement`):
  - Subnets stacked in name order inside an AZ, shifted right by their column.
  - Empty AZs packed two per row.
  - The ACL icon row, the route-table icon column and the route-table list
    column.
  - The peered-VPC grid.
- **Helpers** (`Tags`, `Text`, `Sorting`, `Geometry`):
  - `if_in` and `name_from_tags`.
  - Python 2's `str.split`, `int()` and string comparison.
  - A stable comparator sort standing in for `sorted(..., cmp=..., key=...)`.
  - Floor division standing in for Python 2 `/` on integers.
  - The layout constants: `PADDING` 60, `RESOURCE_DISTRIBUTION` 180, subnet
    minimum 340 by 80, VPC minimum 200 by 120, gutter 700, bundle spacing 10,
    list header 50.

Every operation is a pure function over immutable datatypes. Where the program
mutates an object, the model returns the updated value: route-group state,
AZ width overrides and rule lists. A subnet in the program holds references
to its network ACL objects, registered before their columns are assigned, so it
sees the columns assigned later. The model has no shared objects: a `Subnet`
must carry its ACLs as `Acls.AssignColumns` returns them, which is what
`Containers.SubnetColumnInRange` requires. Where the program raises an exception, the
model returns `None`:
- a route table with no routes never assigns its list height;
- a zero column count makes the column arithmetic divide by zero.

Configuration values that come from the command line are parameters:
- the list line height;
- the subnet alignment column count;
- the peer column count;
- the route-table connection flag.

## Model

| member | source | states |
|---|---|---|
| Geometry.FloorDiv | visualize_network.py:966 | Python 2 integer `/` rounds toward minus infinity for either sign of the divisor. |
| Geometry.CeilDiv | visualize_network.py:1432 | `ceil(float(a) / b)` for a positive `b` is the least `q` with `a <= q * b`. |
| Text.Split | visualize_network.py:835 | `str.split(sep)` gives at least one part and no part contains the separator. |
| Text.JoinSplit | visualize_network.py:835 | Joining the parts of a split with the separator gives back the original string, so splitting loses nothing. |
| Text.SplitJoin | visualize_network.py:835 | Splitting the join of separator-free parts gives back exactly those parts. |
| Text.ParseShowInt | visualize_network.py:816 | `int()` reads every signed decimal numeral back as the integer it denotes. |
| Text.ParseInt | visualize_network.py:816 | `int()` fails on a blank string, and every number it reads ends in a digit. |
| Text.CmpStr | visualize_network.py:961 | Python 2 string comparison answers 0 exactly when the strings are equal. |
| Text.CmpStrLexicographic | visualize_network.py:961 | The first differing character decides the order, and a proper prefix comes before the longer string. |
| Text.CmpStrAntisymmetric | visualize_network.py:961 | Swapping the operands negates the comparison, which is always -1, 0 or 1. |
| Text.CmpStrTransitive | visualize_network.py:961 | String order is transitive, so sorting by name is well defined. |
| Tags.IfIn | visualize_network.py:212 | When none of the keys is in the record, the result is the empty string. |
| Tags.IfInFirstPresent | visualize_network.py:207-212 | The first key that is present decides the result, whatever the later keys hold. |
| Tags.FirstWithKey | visualize_network.py:231-236 | There is no value exactly when no tag carries the key. |
| Tags.FirstWithKeyAt | visualize_network.py:231-236 | The value is that of the earliest tag carrying the key. |
| Tags.NameFromTags | visualize_network.py:238-239 | A record without a tag list has the empty name. |
| Tags.NameTagWins | visualize_network.py:230-233 | The first `Name` tag gives the name, wherever it stands among the tags. |
| Tags.NameFallback | visualize_network.py:234-237 | Without a `Name` tag, the first CloudFormation logical-id tag gives the name. Without either tag the name is empty. |
| RouteGroups.NextRoute | visualize_network.py:280-303 | Shape of one route. In the X direction it starts at the stacking x on the origin's row, turns at `(x, y)` when y is set, and ends at `(break, y)` when the break is set. The Y direction mirrors this: it starts at `(origin_x, y)`, turns at `(x, y)` when x is set and ends at `(x, break)`. Any other direction gives no points. Afterwards x has grown by the spacing, y and the break have shrunk by it, and unset coordinates are untouched. |
| RouteGroups.NextRouteAxisParallel | visualize_network.py:282-294 | Drawn from its origin, a route bends only at right angles, unless a break is set while the coordinate before it is not. |
| RouteGroups.Routes | visualize_network.py:280-303 | A sequence of calls yields one route per origin, each with at least one point when the direction is valid. |
| RouteGroups.RoutesInOrder | visualize_network.py:280-303 | The i-th call sees the state as it is after i earlier calls. After all calls the state has advanced once per origin. |
| RouteGroups.AdvanceKeeps | visualize_network.py:270-274 | The spacing and the direction never change. |
| RouteGroups.AdvanceCoordinates | visualize_network.py:296-301 | After k calls each coordinate has taken k guarded steps: x up, y and the break down. |
| RouteGroups.ClearAfterStep | visualize_network.py:296-301 | A coordinate that no sequence of steps can bring onto -1 is set, and stays that way after a step either way. |
| RouteGroups.ClearProgression | visualize_network.py:296-301 | A coordinate that is clear of -1 moves by exactly `k * step` after k calls. |
| RouteGroups.AdvanceMoves | visualize_network.py:296-301 | After k calls a clear x has grown by `k * spacing`, and a clear y or break has shrunk by it, so no two calls stack on the same coordinate. |
| RouteGroups.UnsetStaysUnset | visualize_network.py:296-301 | A coordinate that is -1 stays -1 through any number of calls. |
| RouteGroups.FirstWaypoint | visualize_network.py:282-290 | The i-th route starts at `(x + i * spacing, origin_y)` in the X direction and at `(origin_x, y - i * spacing)` in the Y direction. |
| RouteGroups.StaggeredAlongX | visualize_network.py:282-297 | In the X direction consecutive routes start exactly one spacing apart. |
| RouteGroups.StaggeredAlongY | visualize_network.py:289-299 | In the Y direction consecutive routes start exactly one spacing apart. |
| RouteGroups.BadDirectionGivesDirectEdges | visualize_network.py:276-303 | With a direction other than X or Y every route is empty, yet the state still advances once per call. |
| RouteGroups.SentinelFreezes | visualize_network.py:296-301 | A coordinate that steps onto -1 freezes there. Starting at -21 with spacing 10, the routes start at -21, -11, -1 and again -1. |
| DiagramLists.SumCoversEach | visualize_network.py:493-495 | The list width is at least each column's width. |
| DiagramLists.ListSize | visualize_network.py:493-496 | The list box is the header spacing plus one line per row tall, and is at least as wide as each of its columns. |
| DiagramLists.LanesTile | visualize_network.py:510-514 | The lanes tile the list width: the first at 0, each starting where the previous one ends, the last ending at the full width. |
| DiagramLists.RowsFit | visualize_network.py:475-526 | In the box's frame, where lanes start one line down and entries are 26 tall, rows are one line apart. Every entry ends inside the box exactly when a line plus an entry is at most the 50-unit header, that is a line height of at most 24. Neighbouring entries are clear of each other exactly when a line is at least 26. |
| DiagramLists.SeparatorBetweenEntries | visualize_network.py:516-526 | A separator lies inside the box, 4 below the end of the previous row's entries, and above the next row's entries exactly when two lines exceed 30. |
| DiagramLists.ListTitle | visualize_network.py:596-598 | The title is the name, a bar between two-space gaps, then the id, or just the id when the name is empty. |
| RouteTables.SimplifyOrigin | visualize_network.py:853-861 | The three API origins get their display labels. Any other origin is returned unchanged. |
| RouteTables.SimplifyOriginIdempotent | visualize_network.py:853-861 | A simplified origin is a fixed point, so simplifying twice changes nothing. |
| RouteTables.AddRoute | visualize_network.py:863-864 | The route is appended after the existing ones with its origin simplified, and nothing else in the table changes. |
| RouteTables.AddRoutesKeepsOrder | visualize_network.py:863-864 | A sequence of additions keeps the earlier routes and the rest of the table. It appends each new route in call order, changed only by simplifying its origin, so every stored origin is a display label. |
| RouteTables.RegisterAssociation | visualize_network.py:843-845 | The association and its zone are appended to their two lists, and the routes are untouched. |
| RouteTables.RegisterAssociationPairs | visualize_network.py:843-845 | The two lists stay the same length. The zone's vote count rises by one and every other zone's count is unchanged. |
| RouteTables.Count | visualize_network.py:851 | `list.count` is at most the length and is positive exactly when the item occurs. |
| RouteTables.MostVoted | visualize_network.py:851 | `max(..., key=count)` returns a candidate whose count no other candidate exceeds. |
| RouteTables.SuggestedAz | visualize_network.py:847-851 | A table without associations gets `no_az`. Otherwise it gets one of its associated zones with a maximal count. |
| RouteTables.SuggestedAzMajority | visualize_network.py:847-851 | A zone holding more than half of the associations is the suggestion, however ties are broken. |
| RouteTables.CmpCidr | visualize_network.py:810-830 | An exhausted list gives 0. A non-integer first head gives -1. A non-integer second head alone gives 1. |
| RouteTables.CmpCidrNumeric | visualize_network.py:810-830 | On all-integer lists the comparator is -1 exactly when the first list is lexicographically smaller by value, and 1 exactly when it is larger. |
| RouteTables.CmpCidrSelf | visualize_network.py:810-830 | A list compares equal to itself only when every segment is an integer. Otherwise it compares below itself. |
| RouteTables.SplitDestination | visualize_network.py:835 | A destination in `10.0.0.x` splits at dots into its three leading octets and whatever follows the last dot, prefix length included. |
| RouteTables.SplitExample | visualize_network.py:835 | Splitting `10.0.0.0/16` at dots gives four segments, the last being `0/16`. |
| RouteTables.NotAnInteger | visualize_network.py:816 | `int()` rejects a digit string with any non-digit inside it. |
| RouteTables.PrefixSegmentNotInteger | visualize_network.py:816 | `int("0/16")` fails. |
| RouteTables.CmpCidrSelfComparison | visualize_network.py:834-836 | As written, the destination `10.0.0.0/16` compares below itself. |
| RouteTables.CmpCidrNonIntegerFirst | visualize_network.py:814-830 | Two lists that agree up to a segment that is not an integer in the first list: the first compares below the second, whatever the second holds there. |
| RouteTables.CmpCidrPrefixLengthsBothBelow | visualize_network.py:834-836 | As written, `10.0.0.0/16` and `10.0.0.0/24` each compare below the other. |
| RouteTables.CmpSegmentAntisymmetric | visualize_network.py:814-827 | The corrected segment comparison is antisymmetric: integers by value, non-integers before integers, and non-integers among themselves by string order. |
| RouteTables.CmpSegmentTransitive | visualize_network.py:814-827 | The corrected segment comparison is transitive. |
| RouteTables.CmpCidrCorrectedAntisymmetric | visualize_network.py:810-830 | The corrected destination comparison is antisymmetric. |
| RouteTables.CmpCidrCorrectedTransitive | visualize_network.py:810-830 | The corrected destination comparison is transitive. |
| RouteTables.CmpCidrCorrectedAgrees | visualize_network.py:810-830 | On all-integer lists of equal length, the corrected comparison gives the same answer as the comparison as written. |
| RouteTables.CmpCidrCorrected | visualize_network.py:810-830 | The corrected destination comparison answers -1, 0 or 1. A list ties with itself, and a proper prefix comes first. |
| RouteTables.RouteOrderIsPreorder | visualize_network.py:834-836 | The corrected route order is a total preorder on any routes and every route ties with itself, so sorting by it is well defined. |
| RouteTables.PinLocals | visualize_network.py:838-840 | The loop that moves each `local` route to the front yields the local routes in reverse order, followed by the other routes in their original order. |
| RouteTables.PinnedProperties | visualize_network.py:838-840 | Pinning permutes the routes and puts every local route before every non-local one. The local routes end up reversed and the non-local routes keep their order. |
| RouteTables.NonLocalsSorted | visualize_network.py:834-840 | Dropping the local routes from a sorted list leaves it sorted. |
| RouteTables.SortRoutesSpec | visualize_network.py:832-841 | With the corrected order, `sort_routes` returns a permutation with every local route first. The non-local routes are sorted by destination. Non-local routes with equal destinations keep their insertion order; the local routes come out in reverse. |
| RouteTables.SortRoutesAsWrittenSpec | visualize_network.py:832-841 | As written, `sort_routes` still returns a permutation with every local route first. The non-local routes keep the order the comparator sort gave them. |
| RouteTables.SortRoutes | visualize_network.py:832-841 | With the corrected comparator, `sort_routes` returns a permutation of the routes with every local route first. |
| RouteTables.SortRoutesAsWritten | visualize_network.py:832-841 | With `cmp_cidr` as written, `sort_routes` still returns a permutation of the routes with every local route first. |
| RouteTables.RouteListHeight | visualize_network.py:875-902 | A table without routes has no list height, because Python fails on the unassigned variable. Otherwise the height is the header plus one line per route, `50 + lh * routes`, and so at least the header plus one line. |
| RouteTables.IndexOf | visualize_network.py:1030 | `list.index` gives the first position holding the item. The list length means the item is absent. |
| RouteTables.AzCmpPreorder | visualize_network.py:1030-1031 | Comparing tables by their zone's position is a total preorder. |
| RouteTables.OrderByAzSpec | visualize_network.py:1028-1031 | The ordered tables are a permutation sorted by zone position, with `no_az` tables after all others. Tables of the same zone keep their order. |
| RouteTables.OrderByAz | visualize_network.py:1028-1031 | Ordering tables by zone position permutes them. |
| Acls.AddRule | visualize_network.py:562-566 | The rule goes to the egress or the ingress list by its flag. The ACL's identity is unchanged and exactly one rule is added. |
| Acls.AddRuleKeepsRules | visualize_network.py:562-566 | The ACL's rules grow by exactly the new rule. |
| Acls.AddRulesSplits | visualize_network.py:562-566 | A sequence of additions appends the egress rules, in call order, to the egress list and the other rules to the ingress list. |
| Acls.RulesOfEntries | visualize_network.py:588-589 | Wrapping rules as list rows and unwrapping them gives the rules back. |
| Acls.RuleCmpPreorder | visualize_network.py:584-585 | Ordering rules by rule number is a total preorder. |
| Acls.PanelRowsShape | visualize_network.py:584-589 | The panel has one row per egress rule, one separator and one row per ingress rule. The separator sits right after the egress rules and every other row is a rule. |
| Acls.PanelRows | visualize_network.py:584-589 | The panel has one row per rule plus one, and the only separator sits right after the egress rules. |
| Acls.SortedByNumber | visualize_network.py:584-585 | Sorted rules have non-decreasing rule numbers. |
| Acls.PanelRowsEgress | visualize_network.py:584-588 | The rows before the separator are exactly the egress rules, by rule number. |
| Acls.PanelRowsIngress | visualize_network.py:585-589 | The rows after the separator are exactly the ingress rules, by rule number. |
| Acls.PanelRowsStable | visualize_network.py:584-585 | Rules with the same number keep their insertion order. |
| Acls.PanelAlwaysDrawn | visualize_network.py:595-600 | The panel is never empty, so its list is always drawn, one line taller than the rule count. |
| Acls.ColumnHints | visualize_network.py:1431-1436 | A zero column count fails, and a result has one hint per ACL. |
| Acls.ColumnHintsSpec | visualize_network.py:1431-1436 | Hints never decrease and stay below the column count. The i-th hint is the bucket of size `ceil(n / cols)` that holds i. |
| Acls.ColumnHintsExample | visualize_network.py:1431-1436 | Seven ACLs over three columns get the columns 0, 0, 0, 1, 1, 1, 2. |
| Acls.AssignColumns | visualize_network.py:1433-1434 | Each ACL receives its own hint and nothing else about it changes. Assignment fails exactly when the hints do. |
| Containers.SubnetSize | visualize_network.py:717-722 | A subnet is as wide as the minimum. It is as tall as the larger of the minimum height and its NAT gateways' requirement. |
| Containers.SubnetColumnInRange | visualize_network.py:730-734 | A subnet's column, taken from its first ACL association or 0, lies among the columns when its ACLs were bucketed. |
| Containers.SubnetColumn | visualize_network.py:730-734 | A subnet takes the column of its first ACL association, or 0 without one. |
| Containers.RegisterSubnet | visualize_network.py:910-911 | The subnet is appended and nothing else about the AZ changes. |
| Containers.StackHeight | visualize_network.py:928-931 | The subnet stack is at least a minimal subnet plus padding per subnet tall. |
| Containers.AzWidth | visualize_network.py:925-935 | An AZ's width is its override if any. Otherwise it is a subnet plus two paddings, or two paddings when it has no subnets. |
| Containers.AzSize | visualize_network.py:925-936 | An AZ is padding plus the subnet stack tall, at least a minimal subnet plus padding per subnet. |
| Containers.OverrideWidth | visualize_network.py:916-917 | An override fixes the width and leaves the height and the subnets alone. |
| Containers.Empty | visualize_network.py:919-920 | An AZ is empty exactly when its height is a bare padding. |
| Containers.CheckEmpty | visualize_network.py:1015-1016 | A VPC is empty exactly when it has no AZ, no ACL and no route table. |
| Containers.AzIds | visualize_network.py:1028 | The zone list has one entry per AZ, its id, in order. |
| Containers.SortRtResourcesSpec | visualize_network.py:1024-1031 | An empty VPC has no tables to order. Otherwise the tables are a permutation ordered by their zone's position among the VPC's AZs, with `no_az` last. |
| Containers.SortRtResources | visualize_network.py:1024-1031 | An empty VPC yields no tables. Otherwise the tables come out permuted. |
| Containers.AzMaxWidth | visualize_network.py:1039-1045 | The AZ column width is at least a resource distance plus padding, and at least each AZ's width plus padding. |
| Containers.AzMaxWidthAttained | visualize_network.py:1039-1045 | The AZ column width is the floor value or some AZ's width plus padding, so it is a maximum and not just a bound. |
| Containers.WidenAzs | visualize_network.py:1046-1052 | The AZ column is exactly as wide as the wider of the ACL row and the widest AZ plus a padding. Every AZ then fits in it with a padding to spare, keeping its id and subnets. |
| Containers.AzSlot | visualize_network.py:1136-1150 | An AZ takes its height plus padding in the column, and at least a minimal subnet plus padding. |
| Containers.AzHeights | visualize_network.py:1041-1043 | The AZ heights as the source adds them come to at least one padding per AZ. |
| Containers.VpcDimensions | visualize_network.py:1033-1060 | An empty VPC is the minimum box. Otherwise the box is exactly the widened AZ column plus five paddings, so at least as wide as the ACL row plus five paddings and each AZ plus six paddings. It is at least as tall as the route tables plus two paddings and as the corrected AZ column. The AZs keep their ids and subnets. |
| Containers.VpcDimensionsAsWritten | visualize_network.py:1033-1060 | The source's sizing. An empty VPC is the minimum box. Otherwise the box is exactly the widened AZ column plus five paddings, so at least as wide as the ACL row plus five paddings and each AZ plus six paddings. It is as tall as the larger of the route tables plus two paddings and the header band plus the bare AZ heights plus four paddings. The AZs keep their ids and subnets. |
| Containers.AsWrittenDiffersInHeightOnly | visualize_network.py:1038-1043 | The corrected sizing changes only the VPC's height, never its width or AZs, and never makes the VPC shorter. |
| Containers.AzHeightsBelowSlots | visualize_network.py:1041-1043 | The bare AZ heights the source adds up fall short of the AZs' slots by at least one padding per AZ. |
| Containers.AzSlotsIgnoreWidth | visualize_network.py:1051-1052 | Width overrides leave the AZ column's height unchanged. |
| Containers.AzMaxWidthOfOverridden | visualize_network.py:1044-1052 | After every AZ is overridden to one width, the column width is that width plus padding, or the floor value when that is more. |
| Containers.WidenAzsSettles | visualize_network.py:1047-1052 | Widening the already widened AZs changes nothing. |
| Containers.SizeWithSettles | visualize_network.py:1033-1060 | Sizing the sized VPC again gives the same box and the same VPC. |
| Containers.VpcDimensionsIdempotent | visualize_network.py:1033-1060 | Two consecutive calls return the same dimensions, even though the first may override the AZ widths. |
| Containers.VpcDimensionsAsWrittenIdempotent | visualize_network.py:1033-1060 | The same holds for the sizing as written. |
| Containers.RegionHoldsVpc | visualize_network.py:1161-1186 | The region box, sized from the source's VPC height, holds the VPC drawn inside it with exactly one padding on every side. The drawn VPC is at least as tall as both its own height and the override. |
| Containers.RegionDimensions | visualize_network.py:1161-1165 | The region is the source's VPC box widened by two paddings. Its height is two paddings more than the larger of the VPC height and the override, so it is at least the route tables plus four paddings. |
| Containers.VpcDrawnHeight | visualize_network.py:1064-1068 | The VPC is drawn as tall as the larger of its own height, as the source sizes it, and the override. |
| Sorting.SortBy | visualize_network.py:834-836 | The comparator sort returns a permutation of its input. |
| Sorting.SortBySorted | visualize_network.py:834-836 | With a total-preorder comparator, the result is sorted. |
| Sorting.SortByStable | visualize_network.py:834-836 | Elements the comparator ties keep their input order, as Python's sort promises. |
| Sorting.SortedStableUnique | visualize_network.py:834-836 | Two sorted, stable permutations of the same input under a total preorder are equal, so the model gives exactly the order Python's sort gives. |
| Placement.NameCmpPreorder | visualize_network.py:961 | Ordering subnets by name is a total preorder. |
| Placement.ByNameSpec | visualize_network.py:961 | The subnets are drawn as a permutation in name order, and equal names keep their registration order. |
| Placement.ByName | visualize_network.py:961 | Sorting by name permutes the subnets. |
| Placement.OffsetBounds | visualize_network.py:966 | A subnet's column offset lies between 0 and the spare width. |
| Placement.SubnetOffset | visualize_network.py:966 | A subnet whose column is in range is shifted right by between 0 and the spare width. |
| Placement.StackSubnetsBoxes | visualize_network.py:963-967 | Each subnet box has the subnet's size and sits at the AZ's left edge plus its column offset. |
| Placement.StackSubnets | visualize_network.py:963-968 | One box per subnet, the first at the stack's top and as tall as its subnet. |
| Placement.StackSubnetsTops | visualize_network.py:958-968 | The first subnet starts at the stack's top. Each next one starts a padding below the previous bottom. The last ends a padding above the stack's height. |
| Placement.StackSubnetsOrdered | visualize_network.py:968 | Any later subnet starts at least a padding below any earlier one. |
| Placement.StackHeightPermutation | visualize_network.py:928-931 | The stack height does not depend on the subnets' order, so sorting by name does not change the AZ height. |
| Placement.PlaceSubnets | visualize_network.py:958-968 | Placing fails exactly when there are subnets and zero columns. Otherwise there is one box per subnet. |
| Placement.SubnetsFillAz | visualize_network.py:958-968 | In name order the subnets start a padding below the AZ top, a padding apart. The last ends exactly a padding above the AZ bottom, and no two overlap. |
| Placement.SubnetsInsideAz | visualize_network.py:958-968 | When the AZ is at least a subnet plus padding wide and every column is in range, every subnet box lies inside the AZ box. |
| Placement.PackAzsBounds | visualize_network.py:1136-1150 | The AZs start below the column top and end within its slots. Empty AZs get the narrow width, left or right. Other AZs sit at the left with their own width. |
| Placement.PackAzs | visualize_network.py:1136-1150 | One box per AZ; the first is as tall as its AZ and starts at or below the column top. |
| Placement.NarrowAzWidth | visualize_network.py:1125 | Two empty AZs side by side plus seven paddings fit in the VPC width, with less than 2 to spare. |
| Placement.PlaceAzs | visualize_network.py:1122-1150 | The AZ boxes, drawn from the source's sizing, are exactly those the corrected sizing would give. |
| Placement.PackedAzsInside | visualize_network.py:1122-1150 | AZs packed below the header band lie inside any box of non-negative width whose narrow width is the source's half, that leaves six paddings beside every AZ, and that is as tall as the band plus every slot. |
| Placement.AzsInsideVpc | visualize_network.py:1122-1150 | With the corrected height, every AZ box lies inside the VPC box, however tall the region makes it. |
| Placement.AsWrittenSixthAzOverflows | visualize_network.py:1136-1150 | As written, six AZs of one subnet each give a 1620-tall VPC whose sixth AZ ends at 1680, outside the box. |
| Placement.AsWrittenSixZoneRegion | visualize_network.py:1161-1186 | As written, with a region override of one resource distance, the six-AZ VPC sits in a region 1740 tall and is drawn 1620 tall. Its sixth AZ runs past the VPC's bottom down to the region's. |
| Placement.UniformPack | visualize_network.py:1145-1150 | AZs holding one subnet each are drawn at the column's left edge, one below the other, 260 apart and 200 tall. |
| Placement.UniformVpcLayout | visualize_network.py:1038-1060 | As written, a VPC of n one-subnet AZs is 820 wide and 420 + 200 n tall, and its i-th AZ is drawn 180 + 260 i below the VPC top. |
| Placement.AsWrittenFitsAtMostFiveZones | visualize_network.py:1038-1043 | As written, a VPC of n one-subnet AZs holds all its AZs exactly when n is at most 5. |
| Placement.AclRowSpaced | visualize_network.py:1097-1103 | The i-th ACL icon sits i resource distances to the right of the first. |
| Placement.AclIconsInsideVpc | visualize_network.py:1097-1103 | The ACL icons lie inside the VPC box as the source sizes and draws it, and no two overlap. |
| Placement.PlaceAcls | visualize_network.py:1097-1103 | The i-th ACL icon is at `(x + 300 + 180 i, y + 60)`. |
| Placement.StepsApart | visualize_network.py:1117-1120 | Each position follows the previous one by its extent, or by a resource distance when that is more. Later positions are never closer. |
| Placement.ListHeights | visualize_network.py:1117-1119 | The tables' list heights, one per table, fail exactly when some table has no routes. |
| Placement.RouteListsFail | visualize_network.py:1117-1119 | Drawing a VPC's route lists fails exactly when it is non-empty and one of its tables has no routes. |
| Placement.RouteListsSeparated | visualize_network.py:1105-1119 | The lists follow the tables' order, each as tall as its table's list, with at least a padding between any two. |
| Placement.PlaceRouteLists | visualize_network.py:1105-1119 | Placing the lists fails exactly when some table's list height does. Otherwise there is one list per table, each at the left edge and as wide as the route columns. |
| Placement.RouteTableIconsApart | visualize_network.py:1105-1120 | The route-table icons stand in one column, at least a resource distance apart, and no two overlap. |
| Placement.PlaceRouteTableIcons | visualize_network.py:1105-1120 | The icons stand at `x + 30`, the first at `y + 240`. |
| Placement.PeerWalkGrid | visualize_network.py:1503-1511 | The walk puts the i-th peer at column `i mod cols` and row `i div cols`. |
| Placement.PeerWalk | visualize_network.py:1503-1511 | The walk gives one position per peered VPC. |
| Placement.PeerGridCells | visualize_network.py:1493-1511 | The i-th peered VPC sits in the grid cell at column `i mod cols` and row `i div cols`, cells being the first peer's size plus padding. |
| Placement.PeerCell | visualize_network.py:1499-1501 | The cell is the first peer's box as the source sizes it: at least the minimum VPC box, exactly that box for an empty peer, and nothing without peers. |
| Placement.PlacePeers | visualize_network.py:1493-1511 | With a positive column count, the i-th peer sits at column `i mod cols` and row `i div cols` of the grid of cells. The unchecked `--peercols` value may be zero or negative. With zero, every peer lands in one row a cell below the start. With a negative count, every peer stays in one row at the start. |
| Placement.PeerWalkOneRow | visualize_network.py:1503-1511 | Once the row count is past the column count, the walk stays on its row and moves one cell right per peer. |
| Placement.PeerWalkNoColumns | visualize_network.py:1503-1511 | With a column count of zero, the first step opens a new row and every peer follows on it. With a negative count, every peer stays on the starting row. |
| Placement.PeerGridDisjoint | visualize_network.py:1499-1511 | No two peered VPC cells overlap, for any column count: a grid when it is positive, one row otherwise. |
| Placement.PeerOrigin | visualize_network.py:1460-1498 | The peer grid starts at `(w + 1430, 920)` for a VPC of width `w`. With route-table connections it starts at `(w + 2130, 920)`. |
| Placement.PeersRightOfRegion | visualize_network.py:1457-1511 | The start of the peer grid, and every peer placed from it, lies right of the region box. The region is drawn a gutter from the left edge. This holds for any column count. |
| Placement.PeersFromOrigin | visualize_network.py:1497-1511 | No peered VPC is placed left of the grid's start, for any column count. |
| Placement.PeerWalkRightOf | visualize_network.py:1503-1511 | The walk only moves right by a cell of non-negative width or back to the row start, so it never goes left of the row start. |

## Left out

- Fetching from AWS (boto3, STS, Direct Connect), the graph-building loops over
  API responses, `main` and the Lambda handler. These are network I/O.
- Command-line and Lambda configuration. Its values are parameters of the model
  or constants in `Geometry`.
- All XML emission, text labels, connection drawing and file or S3 output. Only
  the coordinates these compute are modelled.
- The concrete start coordinates of the route groups that `render_xml` creates.
  The route group itself is modelled for any start.
- The float scaling of list and icon positions. The ACL list x at line 604 is
  not modelled.
- The `int(h / 1.3)` scaling at line 1120: the route-table icon column takes
  the scaled heights as a parameter rather than computing them.
- NAT gateway icon positions inside a subnet (lines 760-764), and the domain
  name text lines (1084-1095).
- `NetworkInterfaceResource`, which the program does not use.
- The `render_xml` of peering, internet gateway, endpoint, VPN, egress gateway,
  flow log and Direct Connect resources, and the account box sizing
  (1442-1457).
- Deduplicating gateway connections when route-table connections are enabled
  (890-897).
- The width override that `render_xml` puts on empty AZs (line 1138). The
  model draws from the sized VPC and does not carry that override back into
  the VPC record.
- RouteGroups.Routes: its own contract gives only the number of routes and
  that each has a point. RouteGroups.RoutesInOrder states what each route is.
- Containers.StackHeight: its contract gives only a lower bound. The exact
  height is tied to the drawn boxes by Placement.StackSubnetsTops.
- Containers.AzHeights: its contract gives only a lower bound. It exists to
  state the height as written, which Placement.AsWrittenSixthAzOverflows
  evaluates exactly.
- Acls.ColumnHints: its contract gives only the failure case and the length.
  The hints themselves are stated by Acls.ColumnHintsSpec.
- RouteTables.SuggestedAz: the result is stated only to have a maximal count.
  Python breaks ties by set iteration order, which depends on string hashes.
  The model takes the first maximal zone in association order.
- RouteTables.SortRoutesAsWrittenSpec: the order of non-local routes is not
  stated to be sorted. The comparator as written is not a preorder. CPython's
  sort (binary insertion on short lists, run merging on longer ones) then
  gives an order that depends on which pairs it happens to compare. The
  model's linear insertion sort need not match it in that case.
- Containers.SortRtResourcesSpec: requires every table's zone to be one of the
  VPC's AZs or `no_az`. Python's `list.index` raises otherwise, which happens
  for a subnet whose zone was not found.
- Text.ParseInt: accepts ASCII whitespace, an optional sign and ASCII digits.
  Non-ASCII digits and whitespace between the sign and the digits are not
  modelled.
- Geometry.CeilDiv: exact, whereas `math.ceil` over a float can round wrongly
  beyond 2^53.

## Findings

| source | as written | input that shows it | evidently intended | confidence | as-written member | corrected member |
|---|---|---|---|---|---|---|
| visualize_network.py:816-818 | `cmp_cidr` answers -1 whenever the first list's head is not an integer. Splitting a destination at dots leaves the prefix inside the last segment (`0/16`), so two destinations sharing three octets compare below each other, and each compares below itself. | `10.0.0.0/16` against `10.0.0.0/24` gives -1 in both orders, and `10.0.0.0/16` against itself gives -1. | Compare the octets and then the prefix length as numbers, giving a consistent order in which each destination ties with itself. | medium, not executed | RouteTables.CmpCidrPrefixLengthsBothBelow | RouteTables.RouteOrderIsPreorder |
| visualize_network.py:1043 | `get_dimensions` adds up the bare AZ heights. `render_xml` moves down by each AZ's height plus a padding (lines 1141 and 1150), and by a minimal subnet plus padding after a lone empty AZ (line 1147). | Six or more AZs with one subnet each, no ACLs and no route tables. With six, the VPC is 1620 tall but the sixth AZ ends at 1680. | Let each AZ take its height plus a padding, and at least a minimal subnet plus padding, so every AZ fits in the VPC. | high, not executed | Placement.AsWrittenFitsAtMostFiveZones | Placement.AzsInsideVpc |
