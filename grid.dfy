/**
 * The answer formatter of the command-line runner: a solution over
 * variables named `House_<n>_<attribute>` becomes a grid with a header row
 * and one row per house.
 */
module Grid {
  import opened Wrappers
  import opened Strings
  import opened Ints

  type Assignment = map<string, string>

  /** The `{"header": ..., "rows": ...}` dictionary the runner writes out. */
  datatype Grid = Grid(header: seq<string>, rows: seq<seq<string>>)

  /** The placeholder for a house/attribute pair the solution does not mention. */
  const Missing: string := "___"

  const Prefix: string := "House_"

  /** The attributes listed first, in this order, when present. */
  const Priority: seq<string> := ["Name", "Color", "Pet"]

  // ---------------------------------------------------------------------
  // Attribute order
  // ---------------------------------------------------------------------

  /** `[a for a in priority if a in attributes]` */
  function PresentPriority(ps: seq<string>, attributes: set<string>): (r: seq<string>)
    ensures forall x :: x in r <==> x in ps && x in attributes
  {
    if ps == [] then []
    else
      var rest := PresentPriority(ps[1..], attributes);
      assert forall x :: x in ps <==> x == ps[0] || x in ps[1..];
      if ps[0] in attributes then [ps[0]] + rest else rest
  }

  /** No element occurs twice. */
  predicate Distinct(r: seq<string>)
  {
    forall i, j :: 0 <= i < j < |r| ==> r[i] != r[j]
  }

  /** Position of a priority attribute in `Priority`. */
  function Rank(x: string): nat
  {
    if x == "Name" then 0 else if x == "Color" then 1 else 2
  }

  /** Ranks strictly ascend along `r`. */
  predicate Ranked(r: seq<string>)
  {
    forall i, j :: 0 <= i < j < |r| ==> Rank(r[i]) < Rank(r[j])
  }

  /** The tail of a ranked sequence is ranked and outranks its head. */
  lemma RankedTail(ps: seq<string>)
    requires Ranked(ps) && ps != []
    ensures Ranked(ps[1..])
    ensures forall x :: x in ps[1..] ==> Rank(ps[0]) < Rank(x)
  {
    forall x | x in ps[1..]
      ensures Rank(ps[0]) < Rank(x)
    {
      var j :| 0 <= j < |ps[1..]| && ps[1..][j] == x;
      assert ps[j + 1] == x;
    }
  }

  /** A ranked sequence stays ranked under a head that every element outranks. */
  lemma RankedCons(x: string, rest: seq<string>)
    requires Ranked(rest)
    requires forall y :: y in rest ==> Rank(x) < Rank(y)
    ensures Ranked([x] + rest)
  {
    var r := [x] + rest;
    forall i, j | 0 <= i < j < |r|
      ensures Rank(r[i]) < Rank(r[j])
    {
      assert r[j] == rest[j - 1];
      if i > 0 {
        assert r[i] == rest[i - 1];
      }
    }
  }

  /** Filtering keeps the order: ascending ranks stay ascending. */
  lemma {:induction false} PresentRanked(ps: seq<string>, attributes: set<string>)
    requires Ranked(ps)
    ensures Ranked(PresentPriority(ps, attributes))
  {
    if ps != [] {
      RankedTail(ps);
      PresentRanked(ps[1..], attributes);
      var rest := PresentPriority(ps[1..], attributes);
      if ps[0] in attributes {
        RankedCons(ps[0], rest);
      }
    }
  }

  /** The present priority attributes come in the order `Name`, `Color`, `Pet`, each once. */
  lemma PresentPriorityRanked(attributes: set<string>)
    ensures Ranked(PresentPriority(Priority, attributes)) && Distinct(PresentPriority(Priority, attributes))
  {
    assert |"Name"| == 4 && |"Color"| == 5 && |"Pet"| == 3;
    assert Rank(Priority[0]) == 0 && Rank(Priority[1]) == 1 && Rank(Priority[2]) == 2;
    PresentRanked(Priority, attributes);
  }

  /**
   * `_ordered_attributes(attributes)`: every attribute exactly once;
   * `OrderedAttributesLayout` states the order.
   */
  function OrderedAttributes(attributes: set<string>): (r: seq<string>)
    ensures forall x :: x in r <==> x in attributes
    ensures Distinct(r)
  {
    var first := PresentPriority(Priority, attributes);
    var others := set x | x in attributes && x !in Priority;
    var sorted := SortStrings(others);
    PresentPriorityRanked(attributes);
    AscendingDistinct(sorted);
    var r := first + sorted;
    forall i, j | 0 <= i < j < |r|
      ensures r[i] != r[j]
    {
      if j >= |first| && i < |first| {
        assert r[j] == sorted[j - |first|] && sorted[j - |first|] in others;
        assert r[i] in Priority && r[j] !in Priority;
      } else if j >= |first| {
        assert r[i] == sorted[i - |first|] && r[j] == sorted[j - |first|];
      }
    }
    r
  }

  /**
   * The order of `_ordered_attributes`: the present members of `Name`,
   * `Color`, `Pet` first and in that order, then the other attributes in
   * ascending order.
   */
  lemma OrderedAttributesLayout(attributes: set<string>)
    ensures var r, k := OrderedAttributes(attributes), |PresentPriority(Priority, attributes)|;
      && k <= |r|
      && (forall i :: 0 <= i < k ==> r[i] in Priority)
      && Ranked(r[..k])
      && (forall i :: k <= i < |r| ==> r[i] !in Priority)
      && StrictlyAscending(r[k..])
  {
    var r := OrderedAttributes(attributes);
    var first := PresentPriority(Priority, attributes);
    var sorted := SortStrings(set x | x in attributes && x !in Priority);
    PresentPriorityRanked(attributes);
    assert r == first + sorted;
    assert r[..|first|] == first && r[|first|..] == sorted;
    forall i | 0 <= i < |r|
      ensures i < |first| ==> r[i] in Priority
      ensures i >= |first| ==> r[i] !in Priority
    {
      if i >= |first| {
        assert r[i] == sorted[i - |first|];
      }
    }
  }

  // ---------------------------------------------------------------------
  // House keys
  // ---------------------------------------------------------------------

  /** `var_name.startswith("House_")` */
  predicate IsHouseKey(k: string)
  {
    |k| >= |Prefix| && k[..|Prefix|] == Prefix
  }

  /**
   * `_, house, attr = var_name.split("_", 2)` followed by `int(house)`: the
   * house number and the attribute, which is everything after the second
   * underscore; `None` where Python raises `ValueError` (no second
   * underscore, or a house part `int` rejects).
   */
  function ParseHouseKey(k: string): (r: Option<(int, string)>)
    requires IsHouseKey(k)
    ensures r.Some? ==> exists h :: k == Prefix + h + "_" + r.value.1 && '_' !in h && ParseInt(h) == Some(r.value.0)
  {
    match SplitFirst(k[|Prefix|..], '_')
    case None => None
    case Some((h, attr)) =>
      assert k == k[..|Prefix|] + k[|Prefix|..];
      match ParseInt(h)
      case None => None
      case Some(n) => Some((n, attr))
  }

  /** `f"House_{h}_{attr}"` */
  function HouseKey(h: int, attr: string): string
  {
    Prefix + IntToString(h) + "_" + attr
  }

  /** A key the formatter builds starts with `House_`. */
  lemma HouseKeyPrefix(h: int, attr: string)
    ensures IsHouseKey(HouseKey(h, attr))
  {
    assert HouseKey(h, attr)[..|Prefix|] == Prefix;
  }

  /** A key the formatter builds parses back into its house and attribute. */
  lemma HouseKeyRoundTrip(h: int, attr: string)
    ensures IsHouseKey(HouseKey(h, attr))
    ensures ParseHouseKey(HouseKey(h, attr)) == Some((h, attr))
  {
    var k := HouseKey(h, attr);
    assert k[..|Prefix|] == Prefix;
    assert k[|Prefix|..] == IntToString(h) + "_" + attr;
    assert '_' !in IntToString(h);
    SplitFirstJoin(IntToString(h), '_', attr);
    IntToStringRoundTrip(h);
  }

  // ---------------------------------------------------------------------
  // The grid a solution formats to
  // ---------------------------------------------------------------------

  /** Every `House_` key among `ks` has a house number and an attribute. */
  predicate WellFormedKeys(ks: set<string>)
  {
    forall k :: k in ks && IsHouseKey(k) ==> ParseHouseKey(k).Some?
  }

  /** The house numbers named by the `House_` keys among `ks`. */
  ghost function HousesIn(ks: set<string>): set<int>
  {
    set k | k in ks && IsHouseKey(k) && ParseHouseKey(k).Some? :: ParseHouseKey(k).value.0
  }

  /** The attributes named by the `House_` keys among `ks`. */
  ghost function AttributesIn(ks: set<string>): set<string>
  {
    set k | k in ks && IsHouseKey(k) && ParseHouseKey(k).Some? :: ParseHouseKey(k).value.1
  }

  /** `assignment.get(key, "___")` */
  function Cell(a: Assignment, key: string): string
  {
    if key in a then a[key] else Missing
  }

  /** The row of house `h`: its number, then one cell per attribute. */
  function RowFor(a: Assignment, h: int, attrs: seq<string>): (row: seq<string>)
    ensures |row| == |attrs| + 1 && row[0] == IntToString(h)
    ensures forall j :: 0 <= j < |attrs| ==> row[j + 1] == Cell(a, HouseKey(h, attrs[j]))
  {
    [IntToString(h)] + seq(|attrs|, j requires 0 <= j < |attrs| => Cell(a, HouseKey(h, attrs[j])))
  }

  /** One row per house, in the order of `houses`. */
  function Rows(a: Assignment, houses: seq<int>, attrs: seq<string>): (rows: seq<seq<string>>)
    ensures |rows| == |houses|
    ensures forall i :: 0 <= i < |houses| ==> rows[i] == RowFor(a, houses[i], attrs)
  {
    seq(|houses|, i requires 0 <= i < |houses| => RowFor(a, houses[i], attrs))
  }

  /** What `reformat_to_grid(assignment)` returns; `None` where it raises `ValueError`. */
  ghost function GridFor(a: Assignment): Option<Grid>
  {
    if !WellFormedKeys(a.Keys) then None
    else Some(Grid(["House"] + Attrs(a), Rows(a, Houses(a), Attrs(a))))
  }

  /** The house numbers of a solution, ascending. */
  ghost function Houses(a: Assignment): seq<int>
  {
    SortInts(HousesIn(a.Keys))
  }

  /** The attributes of a solution, in column order. */
  ghost function Attrs(a: Assignment): seq<string>
  {
    OrderedAttributes(AttributesIn(a.Keys))
  }

  // ---------------------------------------------------------------------
  // reformat_to_grid
  // ---------------------------------------------------------------------

  lemma KeysStep(ks: set<string>, k: string)
    requires IsHouseKey(k) ==> ParseHouseKey(k).Some?
    ensures HousesIn(ks + {k}) == HousesIn(ks) + (if IsHouseKey(k) then {ParseHouseKey(k).value.0} else {})
    ensures AttributesIn(ks + {k}) == AttributesIn(ks) + (if IsHouseKey(k) then {ParseHouseKey(k).value.1} else {})
  {
  }

  /** The key loop of `reformat_to_grid`: collect house numbers and attributes, or fail. */
  method CollectKeys(a: Assignment) returns (r: Option<(set<int>, set<string>)>)
    ensures r.None? <==> !WellFormedKeys(a.Keys)
    ensures r.Some? ==> r.value == (HousesIn(a.Keys), AttributesIn(a.Keys))
  {
    var todo := a.Keys;
    var houses: set<int>, attributes: set<string> := {}, {};
    while todo != {}
      invariant todo <= a.Keys
      invariant WellFormedKeys(a.Keys - todo)
      invariant houses == HousesIn(a.Keys - todo) && attributes == AttributesIn(a.Keys - todo)
      decreases todo
    {
      var k :| k in todo;
      if IsHouseKey(k) {
        var parsed := ParseHouseKey(k);
        if parsed.None? {
          return None;
        }
        houses := houses + {parsed.value.0};
        attributes := attributes + {parsed.value.1};
      }
      KeysStep(a.Keys - todo, k);
      assert a.Keys - (todo - {k}) == (a.Keys - todo) + {k};
      todo := todo - {k};
    }
    assert a.Keys - todo == a.Keys;
    return Some((houses, attributes));
  }

  /** The row loop of `reformat_to_grid` for house `h`. */
  method BuildRow(a: Assignment, h: int, attrs: seq<string>) returns (row: seq<string>)
    ensures row == RowFor(a, h, attrs)
  {
    row := [IntToString(h)];
    for j := 0 to |attrs|
      invariant |row| == j + 1 && row[0] == IntToString(h)
      invariant forall t :: 0 <= t < j ==> row[t + 1] == Cell(a, HouseKey(h, attrs[t]))
    {
      var key := HouseKey(h, attrs[j]);
      if key in a {
        row := row + [a[key]];
      } else {
        row := row + [Missing];
      }
    }
  }

  /** `reformat_to_grid(assignment)` */
  method ReformatToGrid(a: Assignment) returns (g: Option<Grid>)
    ensures g == GridFor(a)
  {
    var collected := CollectKeys(a);
    if collected.None? {
      return None;
    }
    var houses := SortInts(collected.value.0);
    var attrs := OrderedAttributes(collected.value.1);
    var rows: seq<seq<string>> := [];
    for i := 0 to |houses|
      invariant |rows| == i
      invariant forall t :: 0 <= t < i ==> rows[t] == RowFor(a, houses[t], attrs)
    {
      var row := BuildRow(a, houses[i], attrs);
      rows := rows + [row];
    }
    assert rows == Rows(a, houses, attrs);
    return Some(Grid(["House"] + attrs, rows));
  }

  // ---------------------------------------------------------------------
  // Properties of the grid
  // ---------------------------------------------------------------------

  /**
   * The header is `House` followed by the attributes, each once; every row
   * is as long as the header and starts with its house number; the rows
   * follow the house numbers in strictly ascending order, and each house
   * named by a key has a row.
   */
  lemma GridShape(a: Assignment)
    requires GridFor(a).Some?
    ensures var g := GridFor(a).value;
      && |g.header| > 0 && g.header[0] == "House"
      && (forall x :: x in g.header[1..] <==> x in AttributesIn(a.Keys))
      && |g.rows| == |HousesIn(a.Keys)|
      && (forall i :: 0 <= i < |g.rows| ==> |g.rows[i]| == |g.header|)
      && (forall i :: 0 <= i < |g.rows| ==> ParseInt(g.rows[i][0]).Some? && ParseInt(g.rows[i][0]).value in HousesIn(a.Keys))
      && (forall i, j :: 0 <= i < j < |g.rows| ==> ParseInt(g.rows[i][0]).value < ParseInt(g.rows[j][0]).value)
  {
    var g := GridFor(a).value;
    var houses := SortInts(HousesIn(a.Keys));
    assert g.header[1..] == OrderedAttributes(AttributesIn(a.Keys));
    forall i | 0 <= i < |g.rows|
      ensures ParseInt(g.rows[i][0]) == Some(houses[i])
    {
      IntToStringRoundTrip(houses[i]);
    }
  }

  /** The grid of a solution with well-formed keys, spelled out. */
  lemma GridParts(a: Assignment)
    requires GridFor(a).Some?
    ensures GridFor(a).value.header == ["House"] + Attrs(a)
    ensures GridFor(a).value.rows == Rows(a, Houses(a), Attrs(a))
  {
  }

  /**
   * Cell `j + 1` of row `i` is the value of `House_<h>_<attr>` for the
   * `i`-th house and the `j`-th attribute, or `___` when the solution lacks
   * that key.
   */
  lemma GridCells(a: Assignment, i: nat, j: nat)
    requires GridFor(a).Some? && i < |Houses(a)| && j < |Attrs(a)|
    ensures var g, key := GridFor(a).value, HouseKey(Houses(a)[i], Attrs(a)[j]);
      && i < |g.rows| && j + 1 < |g.header| && j + 1 < |g.rows[i]|
      && g.header[j + 1] == Attrs(a)[j]
      && g.rows[i][j + 1] == (if key in a then a[key] else Missing)
  {
    GridParts(a);
  }

  /** Every value stored under a key the formatter would build shows up in the grid. */
  lemma GridShowsValue(a: Assignment, h: int, attr: string)
    requires GridFor(a).Some? && HouseKey(h, attr) in a
    ensures var g := GridFor(a).value;
      exists i, j :: 0 <= i < |g.rows| && 0 < j < |g.header| && j < |g.rows[i]| && g.header[j] == attr
        && g.rows[i][0] == IntToString(h) && g.rows[i][j] == a[HouseKey(h, attr)]
  {
    HouseKeyRoundTrip(h, attr);
    assert h in HousesIn(a.Keys) && attr in AttributesIn(a.Keys);
    var houses, attrs := Houses(a), Attrs(a);
    var i :| 0 <= i < |houses| && houses[i] == h;
    var j :| 0 <= j < |attrs| && attrs[j] == attr;
    GridCells(a, i, j);
    GridParts(a);
    var g := GridFor(a).value;
    assert g.rows[i] == RowFor(a, h, attrs);
    assert g.rows[i][0] == IntToString(h);
  }

  /** Keys that do not start with `House_` play no part in the grid. */
  lemma NonHouseKeysIgnored(a: Assignment, b: Assignment)
    requires forall k :: IsHouseKey(k) ==> (k in a <==> k in b)
    requires forall k :: IsHouseKey(k) && k in a ==> a[k] == b[k]
    ensures GridFor(a) == GridFor(b)
  {
    SameHouseKeys(a.Keys, b.Keys);
    if WellFormedKeys(a.Keys) {
      var houses, attrs := Houses(a), Attrs(a);
      assert houses == Houses(b) && attrs == Attrs(b);
      forall i | 0 <= i < |houses|
        ensures RowFor(a, houses[i], attrs) == RowFor(b, houses[i], attrs)
      {
        SameRow(a, b, houses[i], attrs);
      }
      assert Rows(a, houses, attrs) == Rows(b, houses, attrs);
    }
  }

  /** Solutions that agree on their `House_` keys give every house the same row. */
  lemma SameRow(a: Assignment, b: Assignment, h: int, attrs: seq<string>)
    requires forall k :: IsHouseKey(k) ==> (k in a <==> k in b)
    requires forall k :: IsHouseKey(k) && k in a ==> a[k] == b[k]
    ensures RowFor(a, h, attrs) == RowFor(b, h, attrs)
  {
    forall j | 0 <= j < |attrs|
      ensures Cell(a, HouseKey(h, attrs[j])) == Cell(b, HouseKey(h, attrs[j]))
    {
      HouseKeyPrefix(h, attrs[j]);
    }
  }

  /** Key sets that agree on their `House_` keys give the same houses and attributes. */
  lemma SameHouseKeys(ks: set<string>, ls: set<string>)
    requires forall k :: IsHouseKey(k) ==> (k in ks <==> k in ls)
    ensures WellFormedKeys(ks) <==> WellFormedKeys(ls)
    ensures HousesIn(ks) == HousesIn(ls) && AttributesIn(ks) == AttributesIn(ls)
  {
  }

  // ---------------------------------------------------------------------
  // format_solution
  // ---------------------------------------------------------------------

  /**
   * The `"solution"` entry of a puzzle, as far as `format_solution` reads
   * it; a missing key reads as an empty list.
   */
  datatype Template = Template(header: Option<seq<string>>, rows: Option<seq<seq<string>>>)

  function OrEmpty<T>(o: Option<seq<T>>): seq<T>
  {
    if o.Some? then o.value else []
  }

  /**
   * `format_solution(solution, puzzle)`: an empty solution takes the shape
   * of the puzzle's template when there is one (`template` is `None` when
   * the puzzle has none, or a falsy one), else an empty grid; any other
   * solution is reformatted. `None` where reformatting raises.
   */
  method FormatSolution(solution: Assignment, template: Option<Template>) returns (g: Option<Grid>)
    ensures solution == map[] && template.Some? ==>
              g == Some(Grid(OrEmpty(template.value.header), OrEmpty(template.value.rows)))
    ensures solution == map[] && template.None? ==> g == Some(Grid([], []))
    ensures solution != map[] ==> g == GridFor(solution)
  {
    if solution == map[] {
      if template.Some? {
        return Some(Grid(OrEmpty(template.value.header), OrEmpty(template.value.rows)));
      }
      return Some(Grid([], []));
    }
    g := ReformatToGrid(solution);
  }
}
