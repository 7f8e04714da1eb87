/** Grouping the tables of an election's results region into wards
    (scraper.py:87-101). A group is a list of tables whose first element is read
    as the ward's information table and whose last is read as its results table. */
module Layout {
  import opened Common
  import opened Html

  const MarkerClass := "waecModTable"
  const InfoClass := "election_info"
  const ResultsClass := "election_results"

  /** Matched by `findAll('table', {'class': 'waecModTable'})`: one of the table's
      classes is the marker. */
  predicate IsMarker(t: Table) { MarkerClass in t.classes }

  /** Matched by `findAll('table', {'class': lambda x: x != 'waecModTable'})`: the
      parser tries the test on every class and on the classes joined by spaces (and
      on None for a table without classes), so only a table whose class list is
      exactly the marker fails it. */
  predicate IsNonMarker(t: Table) { t.classes != [MarkerClass] }

  /** The page uses the legacy layout when some table carries the marker class. */
  predicate IsLegacy(tables: seq<Table>) { exists t :: t in tables && IsMarker(t) }

  /** Python's `zip` of two lists, each pair as a two-table group. */
  function Zip(xs: seq<Table>, ys: seq<Table>): (r: seq<seq<Table>>)
    ensures |r| == if |xs| < |ys| then |xs| else |ys|
    ensures forall i :: 0 <= i < |r| ==> r[i] == [xs[i], ys[i]]
  {
    if xs == [] || ys == [] then [] else [[xs[0], ys[0]]] + Zip(xs[1..], ys[1..])
  }

  /** Legacy grouping (scraper.py:89): the non-marker tables except the first,
      paired position by position with the marker tables. */
  function LegacyGroups(tables: seq<Table>): (groups: seq<seq<Table>>)
    ensures var infos := Filter(IsNonMarker, tables);
            var results := Filter(IsMarker, tables);
            && |groups| == (if infos == [] then 0 else if |infos| - 1 < |results| then |infos| - 1 else |results|)
            && forall i :: 0 <= i < |groups| ==> groups[i] == [infos[i + 1], results[i]]
  {
    var infos := Filter(IsNonMarker, tables);
    Zip(if infos == [] then [] else infos[1..], Filter(IsMarker, tables))
  }

  predicate IsInfo(t: Table) { |t.classes| > 0 && t.classes[0] == InfoClass }

  predicate IsResults(t: Table) { |t.classes| > 0 && t.classes[0] == ResultsClass }

  /** A table the current-layout walk appends to a group. */
  predicate IsWardTable(t: Table) { IsInfo(t) || IsResults(t) }

  /** The current-layout walk over `tables` (scraper.py:93-99): the groups built so
      far, the last of them still open. It fails on the first table without a class. */
  function Walk(tables: seq<Table>): (r: Result<seq<seq<Table>>>)
    ensures r.Ok? ==> |r.value| > 0
  {
    if tables == [] then Ok([[]])
    else
      match Walk(tables[..|tables| - 1])
      case Err(f) => Err(f)
      case Ok(groups) =>
        var t := tables[|tables| - 1];
        var closed, open := groups[..|groups| - 1], groups[|groups| - 1];
        if t.classes == [] then Err(MissingTableClass)
        else if t.classes[0] == InfoClass then Ok(closed + [open + [t]])
        else if t.classes[0] == ResultsClass then Ok(closed + [open + [t]] + [[]])
        else Ok(groups)
  }

  /** Current grouping (scraper.py:93-101): the walk, with its last group dropped. */
  function CurrentGroups(tables: seq<Table>): Result<seq<seq<Table>>>
  {
    match Walk(tables)
    case Err(f) => Err(f)
    case Ok(groups) => Ok(groups[..|groups| - 1])
  }

  /** A closed ward group: information tables, then exactly one results table. */
  predicate IsClosedGroup(g: seq<Table>)
  {
    |g| > 0 && IsResults(g[|g| - 1]) && forall k :: 0 <= k < |g| - 1 ==> IsInfo(g[k])
  }

  /** The groups' tables, one group after another. */
  function Concat(groups: seq<seq<Table>>): seq<Table>
  {
    if groups == [] then [] else Concat(groups[..|groups| - 1]) + groups[|groups| - 1]
  }

  /** The last table of each non-empty group, in order. */
  function Lasts(groups: seq<seq<Table>>): seq<Table>
  {
    if groups == [] then []
    else
      var g := groups[|groups| - 1];
      Lasts(groups[..|groups| - 1]) + (if g == [] then [] else [g[|g| - 1]])
  }

  lemma ConcatSnoc(groups: seq<seq<Table>>, g: seq<Table>)
    ensures Concat(groups + [g]) == Concat(groups) + g
  {
    assert (groups + [g])[..|groups|] == groups;
  }

  lemma LastsSnoc(groups: seq<seq<Table>>, g: seq<Table>)
    ensures Lasts(groups + [g]) == Lasts(groups) + (if g == [] then [] else [g[|g| - 1]])
  {
    assert (groups + [g])[..|groups|] == groups;
  }

  /** What the walk keeps true after every table: the closed groups are ward
      groups, the open one holds only information tables, all groups together hold
      the ward tables seen so far, and the closed groups end in the results tables
      seen so far. */
  predicate WalkState(tables: seq<Table>, groups: seq<seq<Table>>)
  {
    && |groups| > 0
    && var closed, open := groups[..|groups| - 1], groups[|groups| - 1];
    && (forall i :: 0 <= i < |closed| ==> IsClosedGroup(closed[i]))
    && (forall k :: 0 <= k < |open| ==> IsInfo(open[k]))
    && Concat(closed) + open == Filter(IsWardTable, tables)
    && Lasts(closed) == Filter(IsResults, tables)
  }

  lemma InfoStep(tables: seq<Table>, groups: seq<seq<Table>>, t: Table)
    requires WalkState(tables, groups) && IsInfo(t)
    ensures WalkState(tables + [t], groups[..|groups| - 1] + [groups[|groups| - 1] + [t]])
  {
    var closed, open := groups[..|groups| - 1], groups[|groups| - 1];
    var next := closed + [open + [t]];
    assert next[..|next| - 1] == closed;
    FilterSnoc(IsWardTable, tables, t);
    FilterSnoc(IsResults, tables, t);
  }

  lemma ResultsStep(tables: seq<Table>, groups: seq<seq<Table>>, t: Table)
    requires WalkState(tables, groups) && IsResults(t)
    ensures WalkState(tables + [t], groups[..|groups| - 1] + [groups[|groups| - 1] + [t]] + [[]])
  {
    var closed, open := groups[..|groups| - 1], groups[|groups| - 1];
    var mid := closed + [open + [t]];
    var next := mid + [[]];
    assert next[..|next| - 1] == mid;
    ConcatSnoc(closed, open + [t]);
    LastsSnoc(closed, open + [t]);
    FilterSnoc(IsWardTable, tables, t);
    FilterSnoc(IsResults, tables, t);
    forall i | 0 <= i < |mid| ensures IsClosedGroup(mid[i]) {
      if i == |closed| {
        assert mid[i] == open + [t];
      }
    }
  }

  lemma OtherStep(tables: seq<Table>, groups: seq<seq<Table>>, t: Table)
    requires WalkState(tables, groups) && !IsWardTable(t)
    ensures WalkState(tables + [t], groups)
  {
    FilterSnoc(IsWardTable, tables, t);
    FilterSnoc(IsResults, tables, t);
  }

  lemma {:induction false} WalkInvariant(tables: seq<Table>)
    requires Walk(tables).Ok?
    ensures WalkState(tables, Walk(tables).value)
  {
    if tables == [] {
      assert Filter(IsWardTable, tables) == [];
      assert Filter(IsResults, tables) == [];
    } else {
      var front := tables[..|tables| - 1];
      var t := tables[|tables| - 1];
      assert tables == front + [t];
      WalkInvariant(front);
      var groups := Walk(front).value;
      if IsInfo(t) {
        InfoStep(front, groups, t);
      } else if IsResults(t) {
        ResultsStep(front, groups, t);
      } else {
        OtherStep(front, groups, t);
      }
    }
  }

  /** The walk fails exactly when some table has no class. */
  lemma {:induction false} WalkFails(tables: seq<Table>)
    ensures Walk(tables).Err? <==> exists i :: 0 <= i < |tables| && tables[i].classes == []
  {
    if tables != [] {
      var front := tables[..|tables| - 1];
      WalkFails(front);
      assert forall i :: 0 <= i < |front| ==> front[i] == tables[i];
    }
  }

  /** The current-layout grouping (scraper.py:93-101), stated without the walk:
      every group is information tables closed by one results table; the groups'
      last tables are the page's results tables, one each, in order; and the groups
      hold, in order, the page's information and results tables up to the last
      results table, so that what follows it and every table of another class is
      in no group. */
  lemma CurrentGroupsShape(tables: seq<Table>)
    requires CurrentGroups(tables).Ok?
    ensures var groups := CurrentGroups(tables).value;
            var kept := Filter(IsWardTable, tables);
            && (forall i :: 0 <= i < |groups| ==> IsClosedGroup(groups[i]))
            && Lasts(groups) == Filter(IsResults, tables)
            && |Concat(groups)| <= |kept| && kept[..|Concat(groups)|] == Concat(groups)
            && forall k :: |Concat(groups)| <= k < |kept| ==> IsInfo(kept[k])
  {
    WalkInvariant(tables);
  }

  /** A failure partway through the walk is the walk's result. */
  lemma {:induction false} WalkFailureSticks(tables: seq<Table>, n: nat)
    requires n <= |tables| && Walk(tables[..n]).Err?
    ensures Walk(tables) == Walk(tables[..n])
    decreases |tables| - n
  {
    if n < |tables| {
      var next := tables[..n + 1];
      assert next[..n] == tables[..n];
      WalkFailureSticks(tables, n + 1);
    } else {
      assert tables[..n] == tables;
    }
  }

  /** The walk as the scraper runs it: append to the open group, open a new group
      after each results table, and drop the open group at the end. */
  method GroupCurrent(tables: seq<Table>) returns (r: Result<seq<seq<Table>>>)
    ensures r == CurrentGroups(tables)
  {
    var groups: seq<seq<Table>> := [[]];
    for i := 0 to |tables|
      invariant Walk(tables[..i]) == Ok(groups)
    {
      var t := tables[i];
      assert tables[..i + 1][..i] == tables[..i];
      if t.classes == [] {
        WalkFailureSticks(tables, i + 1);
        return Err(MissingTableClass);
      }
      if t.classes[0] == InfoClass {
        groups := groups[..|groups| - 1] + [groups[|groups| - 1] + [t]];
      } else if t.classes[0] == ResultsClass {
        groups := groups[..|groups| - 1] + [groups[|groups| - 1] + [t]];
        groups := groups + [[]];
      }
    }
    assert tables[..|tables|] == tables;
    r := Ok(groups[..|groups| - 1]);
  }

  /** The tables grouped into wards (scraper.py:87-101): the legacy grouping when
      the page has a marker table, the current-layout walk otherwise. Every group
      is non-empty. */
  function Groups(tables: seq<Table>): (r: Result<seq<seq<Table>>>)
    ensures r.Ok? ==> forall i :: 0 <= i < |r.value| ==> |r.value[i]| > 0
    ensures IsLegacy(tables) ==> r == Ok(LegacyGroups(tables))
    ensures !IsLegacy(tables) ==> r == CurrentGroups(tables)
  {
    if IsLegacy(tables) then Ok(LegacyGroups(tables))
    else
      var r := CurrentGroups(tables);
      if r.Ok? then CurrentGroupsShape(tables); r else r
  }
}
