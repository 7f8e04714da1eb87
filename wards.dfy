/** Reading one ward out of a group of tables, and all wards of an election's
    results region (scraper.py:103-140). */
module Wards {
  import opened Common
  import opened Text
  import opened Html
  import opened Layout

  const HeaderClass := "waecModTableHeader"
  const FooterClass := "waecModTableFooter"
  const ElectedPosClass := "Elected_Pos"
  const ElectedBrownClass := "backGroundLightBrown"

  /** One candidate row of a results table; the percentage cell is read and dropped. */
  datatype Candidate = Candidate(name: string, votes: string, expiry: string, elected: bool)

  /** A ward: the key/value pairs of its information table and its candidates. */
  datatype Ward = Ward(info: map<string, string>, candidates: seq<Candidate>)

  /** A row with exactly two `td` cells, as its (key, value) pair, both stripped. */
  function InfoPair(row: Row): Option<(string, string)>
  {
    var tds := Tds(row);
    if |tds| == 2 then Some((Strip(tds[0].text), Strip(tds[1].text))) else None
  }

  /** Each row's pair, if it has one, in row order. */
  function InfoPairs(rows: seq<Row>): (pairs: seq<Option<(string, string)>>)
  {
    seq(|rows|, i requires 0 <= i < |rows| => InfoPair(rows[i]))
  }

  /** The ward's information (scraper.py:108-114): every two-cell row, in order, sets
      its key to its value. */
  function InfoOf(rows: seq<Row>): map<string, string>
  {
    Assign(InfoPairs(rows))
  }

  lemma InfoOfSnoc(rows: seq<Row>, row: Row)
    ensures InfoOf(rows + [row]) == match InfoPair(row)
                                    case None => InfoOf(rows)
                                    case Some((key, value)) => InfoOf(rows)[key := value]
  {
    var pairs := InfoPairs(rows + [row]);
    assert pairs[..|rows|] == InfoPairs(rows);
  }

  /** The ward's information holds the key of every two-cell row, only those keys,
      and under each key the value of the last row that names it. */
  lemma InfoOfLastWins(rows: seq<Row>)
    ensures var info := InfoOf(rows);
            var pairs := InfoPairs(rows);
            && (forall i :: 0 <= i < |rows| && |Tds(rows[i])| == 2 ==> pairs[i].value.0 in info)
            && forall key :: key in info ==>
                 exists i :: LastUpdateOf(pairs, key, i) && |Tds(rows[i])| == 2 && info[key] == pairs[i].value.1
  {
    AssignLastWins(InfoPairs(rows));
  }

  predicate IsElectedClass(cls: string) { cls == ElectedPosClass || cls == ElectedBrownClass }

  predicate IsHeaderFooterClass(cls: string) { cls == FooterClass || cls == HeaderClass }

  /** What the results loop does with one row. */
  datatype RowVerdict = Skip | Keep(candidate: Candidate) | Reject(cls: string)

  /** One row of a results table (scraper.py:117-133). Only rows with exactly four
      `td` cells are read; a header or footer row is skipped; a row without a class
      is a candidate who was not elected; a row whose first class is an elected
      marker is an elected candidate; any other class fails the `assert`. */
  function Classify(row: Row): (v: RowVerdict)
    ensures v.Keep? <==> |Tds(row)| == 4 && (row.classes == [] || IsElectedClass(row.classes[0]))
    ensures v.Reject? <==> && |Tds(row)| == 4 && row.classes != []
                           && !IsElectedClass(row.classes[0]) && !IsHeaderFooterClass(row.classes[0])
    ensures v.Reject? ==> v.cls == row.classes[0]
    ensures v.Keep? ==> var tds := Tds(row);
                        && v.candidate.name == Strip(tds[0].text)
                        && v.candidate.votes == Strip(tds[1].text)
                        && v.candidate.expiry == Strip(tds[3].text)
                        && (v.candidate.elected <==> row.classes != [])
  {
    var tds := Tds(row);
    if |tds| != 4 then Skip
    else
      var candidate := Candidate(Strip(tds[0].text), Strip(tds[1].text), Strip(tds[3].text), false);
      if row.classes == [] then Keep(candidate)
      else if row.classes[0] in {FooterClass, HeaderClass} then Skip
      else if row.classes[0] in {ElectedPosClass, ElectedBrownClass} then Keep(candidate.(elected := true))
      else Reject(row.classes[0])
  }

  /** The candidates of a results table, in row order; the first rejected row
      fails the whole table. */
  function CandidatesOf(rows: seq<Row>): Result<seq<Candidate>>
  {
    if rows == [] then Ok([])
    else
      match CandidatesOf(rows[..|rows| - 1])
      case Err(f) => Err(f)
      case Ok(candidates) =>
        match Classify(rows[|rows| - 1])
        case Skip => Ok(candidates)
        case Keep(c) => Ok(candidates + [c])
        case Reject(cls) => Err(UnexpectedRowClass(cls))
  }

  lemma CandidatesOfSnoc(rows: seq<Row>, row: Row)
    ensures CandidatesOf(rows + [row]) == match CandidatesOf(rows)
                                         case Err(f) => Err(f)
                                         case Ok(candidates) =>
                                           match Classify(row)
                                           case Skip => Ok(candidates)
                                           case Keep(c) => Ok(candidates + [c])
                                           case Reject(cls) => Err(UnexpectedRowClass(cls))
  {
    assert (rows + [row])[..|rows|] == rows;
  }

  /** A results table fails exactly when one of its rows is rejected; otherwise its
      candidates are exactly those of the rows kept. */
  lemma {:induction false} CandidatesOfRows(rows: seq<Row>)
    ensures var r := CandidatesOf(rows);
            && (r.Err? <==> exists i :: 0 <= i < |rows| && Classify(rows[i]).Reject?)
            && (r.Ok? ==> forall c :: c in r.value <==> exists i :: 0 <= i < |rows| && Classify(rows[i]) == Keep(c))
  {
    if rows != [] {
      var front := rows[..|rows| - 1];
      var last := |rows| - 1;
      CandidatesOfRows(front);
      assert rows == front + [rows[last]];
      CandidatesOfSnoc(front, rows[last]);
      assert forall i :: 0 <= i < last ==> rows[i] == front[i];
    }
  }

  /** The texts of some cells, in order. */
  function Texts(cells: seq<Cell>): seq<string>
  {
    seq(|cells|, i requires 0 <= i < |cells| => cells[i].text)
  }

  /** Ward name in the legacy layout (scraper.py:136): the texts of the first row's
      `td` cells joined by spaces, and of that what follows the last " - " at which
      a left-to-right split cuts. It is the end of that header text and holds no
      " - ". */
  function LegacyWardName(info: Table): (r: Result<string>)
    ensures r.Err? <==> info.rows == []
    ensures r.Ok? ==> var header := Join(Texts(Tds(info.rows[0])), " ");
                      && |r.value| <= |header| && header[|header| - |r.value|..] == r.value
                      && !Contains(r.value, " - ")
  {
    if info.rows == [] then Err(MissingRow)
    else
      var header := Join(Texts(Tds(info.rows[0])), " ");
      LastFieldIsSuffix(header, " - ");
      Ok(LastField(header, " - "))
  }

  /** The legacy ward name is what follows the last " - " at which a left-to-right
      split of the header cuts: either the whole header, when that has no " - ", or
      the end of the header that follows a " - " and holds none. When no two " - "
      of the header overlap, every " - " ends before the name, so the name is what
      follows the last " - " of all. */
  lemma LegacyWardNameAfterLastDash(info: Table)
    requires info.rows != []
    ensures var header := Join(Texts(Tds(info.rows[0])), " ");
            var name := LegacyWardName(info).value;
            var n := |header| - |name|;
            && |name| <= |header| && header[n..] == name && !Contains(name, " - ")
            && ((name == header && !Contains(header, " - "))
                || (3 <= n && header[n - 3..n] == " - "))
            && (NoOverlap(header, " - ") ==> forall j :: OccursAt(header, " - ", j) ==> j + 3 <= n)
  {
    var header := Join(Texts(Tds(info.rows[0])), " ");
    LastFieldIsSuffix(header, " - ");
    if NoOverlap(header, " - ") {
      LastFieldAfterEveryOccurrence(header, " - ");
    }
  }

  /** Ward name in the current layout (scraper.py:138): the text of the table's
      first `th` cell, or of its first `td` cell when it has no `th`. It fails only
      on a table without cells. */
  function CurrentWardName(info: Table): (r: Result<string>)
    ensures r.Err? <==> AllCells(info.rows) == []
    ensures r.Ok? ==> var cells := AllCells(info.rows);
                      exists i :: && 0 <= i < |cells| && cells[i].text == r.value
                                  && (cells[i].kind == Th ==> forall j :: 0 <= j < i ==> cells[j].kind != Th)
                                  && (cells[i].kind == Td ==> forall j :: 0 <= j < |cells| ==> cells[j].kind != Th)
                                  && (cells[i].kind == Td ==> forall j :: 0 <= j < i ==> cells[j].kind != Td)
  {
    var cells := AllCells(info.rows);
    match FirstOfKind(cells, Th)
    case Some(c) => Ok(c.text)
    case None =>
      match FirstOfKind(cells, Td)
      case Some(c) => Ok(c.text)
      case None => Err(MissingNameCell)
  }

  /** One ward group (scraper.py:104-140): information from the group's first
      table, candidates from its last, and the ward name as the layout reads it. */
  function WardOf(legacy: bool, group: seq<Table>): Result<(string, Ward)>
    requires |group| > 0
  {
    var info := group[0];
    var results := group[|group| - 1];
    match CandidatesOf(results.rows)
    case Err(f) => Err(f)
    case Ok(candidates) =>
      match (if legacy then LegacyWardName(info) else CurrentWardName(info))
      case Err(f) => Err(f)
      case Ok(name) => Ok((name, Ward(InfoOf(info.rows), candidates)))
  }

  predicate NonEmptyGroups(groups: seq<seq<Table>>)
  {
    forall i :: 0 <= i < |groups| ==> |groups[i]| > 0
  }

  /** A group's named ward, `None` when the group fails. */
  function WardUpdate(legacy: bool, group: seq<Table>): Option<(string, Ward)>
    requires |group| > 0
  {
    var w := WardOf(legacy, group);
    if w.Ok? then Some(w.value) else None
  }

  /** Each group's named ward, `None` for a group that fails, in group order. */
  function WardUpdates(legacy: bool, groups: seq<seq<Table>>): seq<Option<(string, Ward)>>
    requires NonEmptyGroups(groups)
  {
    seq(|groups|, i requires 0 <= i < |groups| && NonEmptyGroups(groups) => WardUpdate(legacy, groups[i]))
  }

  /** The election's wards (scraper.py:103-140): every group's ward is stored under
      its name, so a later ward of the same name replaces an earlier one, and the
      first group that fails fails the election. */
  function WardsOf(legacy: bool, groups: seq<seq<Table>>): Result<map<string, Ward>>
    requires NonEmptyGroups(groups)
  {
    if groups == [] then Ok(map[])
    else
      match WardsOf(legacy, groups[..|groups| - 1])
      case Err(f) => Err(f)
      case Ok(wards) =>
        match WardOf(legacy, groups[|groups| - 1])
        case Err(f) => Err(f)
        case Ok((name, ward)) => Ok(wards[name := ward])
  }

  lemma WardsOfSnoc(legacy: bool, groups: seq<seq<Table>>, group: seq<Table>)
    requires NonEmptyGroups(groups) && |group| > 0
    ensures NonEmptyGroups(groups + [group])
    ensures WardsOf(legacy, groups + [group]) == match WardsOf(legacy, groups)
                                                 case Err(f) => Err(f)
                                                 case Ok(wards) =>
                                                   match WardOf(legacy, group)
                                                   case Err(f) => Err(f)
                                                   case Ok((name, ward)) => Ok(wards[name := ward])
  {
    assert (groups + [group])[..|groups|] == groups;
  }

  /** The wards fail exactly when some group fails. */
  lemma {:induction false} WardsOfFails(legacy: bool, groups: seq<seq<Table>>)
    requires NonEmptyGroups(groups)
    ensures WardsOf(legacy, groups).Err? <==> exists i :: 0 <= i < |groups| && WardOf(legacy, groups[i]).Err?
  {
    if groups != [] {
      var front := groups[..|groups| - 1];
      var last := |groups| - 1;
      WardsOfFails(legacy, front);
      assert groups == front + [groups[last]];
      WardsOfSnoc(legacy, front, groups[last]);
      assert forall i :: 0 <= i < last ==> groups[i] == front[i];
    }
  }

  /** Storing the wards one after another, when no group fails, is the dictionary
      built from the groups' named wards. */
  lemma {:induction false} WardsOfAssign(legacy: bool, groups: seq<seq<Table>>)
    requires NonEmptyGroups(groups) && WardsOf(legacy, groups).Ok?
    ensures WardsOf(legacy, groups).value == Assign(WardUpdates(legacy, groups))
  {
    if groups != [] {
      var front := groups[..|groups| - 1];
      var last := |groups| - 1;
      var updates := WardUpdates(legacy, groups);
      assert NonEmptyGroups(front);
      assert WardsOf(legacy, front).Ok?;
      WardsOfAssign(legacy, front);
      assert updates[..last] == WardUpdates(legacy, front);
      assert updates[last] == WardUpdate(legacy, groups[last]);
    }
  }

  /** The wards fail exactly when some group fails; otherwise they hold every
      group's ward name, only those, and under each name the ward of the last group
      that has it. */
  lemma WardsOfLastWins(legacy: bool, groups: seq<seq<Table>>)
    requires NonEmptyGroups(groups)
    ensures var r := WardsOf(legacy, groups);
            var updates := WardUpdates(legacy, groups);
            && (r.Err? <==> exists i :: 0 <= i < |groups| && WardOf(legacy, groups[i]).Err?)
            && (r.Ok? ==> forall i :: 0 <= i < |groups| ==> WardOf(legacy, groups[i]).value.0 in r.value)
            && (r.Ok? ==> forall name :: name in r.value ==>
                  exists i :: LastUpdateOf(updates, name, i) && r.value[name] == WardOf(legacy, groups[i]).value.1)
  {
    WardsOfFails(legacy, groups);
    var r := WardsOf(legacy, groups);
    var updates := WardUpdates(legacy, groups);
    AssignLastWins(updates);
    if r.Ok? {
      WardsOfAssign(legacy, groups);
      forall i | 0 <= i < |groups| ensures WardOf(legacy, groups[i]).value.0 in r.value {
        assert updates[i] == Some(WardOf(legacy, groups[i]).value);
      }
      forall name | name in r.value
        ensures exists i :: LastUpdateOf(updates, name, i) && r.value[name] == WardOf(legacy, groups[i]).value.1
      {
        var i :| LastUpdateOf(updates, name, i) && r.value[name] == updates[i].value.1;
        assert updates[i] == Some(WardOf(legacy, groups[i]).value);
      }
    }
  }

  /** The wards of one election's results region, by whichever layout it uses. */
  function ElectionWards(tables: seq<Table>): Result<map<string, Ward>>
  {
    match Groups(tables)
    case Err(f) => Err(f)
    case Ok(groups) => WardsOf(IsLegacy(tables), groups)
  }

  /** The information loop (scraper.py:108-114). */
  method ReadInfo(info: Table) returns (pairs: map<string, string>)
    ensures pairs == InfoOf(info.rows)
  {
    pairs := map[];
    for i := 0 to |info.rows|
      invariant pairs == InfoOf(info.rows[..i])
    {
      assert info.rows[..i + 1] == info.rows[..i] + [info.rows[i]];
      InfoOfSnoc(info.rows[..i], info.rows[i]);
      var tds := Tds(info.rows[i]);
      if |tds| == 2 {
        pairs := pairs[Strip(tds[0].text) := Strip(tds[1].text)];
      }
    }
    assert info.rows[..|info.rows|] == info.rows;
  }

  /** The results loop (scraper.py:116-133). */
  method ReadCandidates(results: Table) returns (r: Result<seq<Candidate>>)
    ensures r == CandidatesOf(results.rows)
  {
    var rows := results.rows;
    var candidates: seq<Candidate> := [];
    for i := 0 to |rows|
      invariant CandidatesOf(rows[..i]) == Ok(candidates)
    {
      assert rows[..i + 1] == rows[..i] + [rows[i]];
      CandidatesOfSnoc(rows[..i], rows[i]);
      var tds := Tds(rows[i]);
      if |tds| != 4 {
        continue;
      }
      var candidate := Candidate(Strip(tds[0].text), Strip(tds[1].text), Strip(tds[3].text), false);
      if rows[i].classes != [] {
        var cls := rows[i].classes[0];
        if cls == FooterClass || cls == HeaderClass {
          continue;
        }
        if !(cls == ElectedPosClass || cls == ElectedBrownClass) {
          CandidatesFailureSticks(rows, i + 1);
          return Err(UnexpectedRowClass(cls));
        }
        candidate := candidate.(elected := true);
      }
      candidates := candidates + [candidate];
    }
    assert rows[..|rows|] == rows;
    r := Ok(candidates);
  }

  /** A row rejected partway through the table fails the whole table. */
  lemma {:induction false} CandidatesFailureSticks(rows: seq<Row>, n: nat)
    requires n <= |rows| && CandidatesOf(rows[..n]).Err?
    ensures CandidatesOf(rows) == CandidatesOf(rows[..n])
    decreases |rows| - n
  {
    if n < |rows| {
      assert rows[..n + 1] == rows[..n] + [rows[n]];
      CandidatesOfSnoc(rows[..n], rows[n]);
      CandidatesFailureSticks(rows, n + 1);
    } else {
      assert rows[..n] == rows;
    }
  }

  /** One ward group, read as the scraper reads it. */
  method ExtractWard(legacy: bool, group: seq<Table>) returns (r: Result<(string, Ward)>)
    requires |group| > 0
    ensures r == WardOf(legacy, group)
  {
    var info := group[0];
    var pairs := ReadInfo(info);
    var candidates := ReadCandidates(group[|group| - 1]);
    if candidates.Err? {
      return Err(candidates.fault);
    }
    var name := if legacy then LegacyWardName(info) else CurrentWardName(info);
    if name.Err? {
      return Err(name.fault);
    }
    r := Ok((name.value, Ward(pairs, candidates.value)));
  }

  /** A ward failing partway through the groups fails the election. */
  lemma {:induction false} WardsFailureSticks(legacy: bool, groups: seq<seq<Table>>, n: nat)
    requires NonEmptyGroups(groups)
    requires n <= |groups| && WardsOf(legacy, groups[..n]).Err?
    ensures WardsOf(legacy, groups) == WardsOf(legacy, groups[..n])
    decreases |groups| - n
  {
    if n < |groups| {
      assert groups[..n + 1] == groups[..n] + [groups[n]];
      WardsOfSnoc(legacy, groups[..n], groups[n]);
      WardsFailureSticks(legacy, groups, n + 1);
    } else {
      assert groups[..n] == groups;
    }
  }

  /** The ward loop (scraper.py:103-140): read each group's ward and store it
      under its name. */
  method StoreWards(legacy: bool, groups: seq<seq<Table>>) returns (r: Result<map<string, Ward>>)
    requires NonEmptyGroups(groups)
    ensures r == WardsOf(legacy, groups)
  {
    var wards: map<string, Ward> := map[];
    for i := 0 to |groups|
      invariant WardsOf(legacy, groups[..i]) == Ok(wards)
    {
      assert groups[..i + 1] == groups[..i] + [groups[i]];
      WardsOfSnoc(legacy, groups[..i], groups[i]);
      var ward := ExtractWard(legacy, groups[i]);
      if ward.Err? {
        WardsFailureSticks(legacy, groups, i + 1);
        return Err(ward.fault);
      }
      wards := wards[ward.value.0 := ward.value.1];
    }
    assert groups[..|groups|] == groups;
    r := Ok(wards);
  }

  /** The wards of one election (scraper.py:87-140): pick the layout, group the
      tables, and store each group's ward under its name. */
  method ParseResults(tables: seq<Table>) returns (r: Result<map<string, Ward>>)
    ensures r == ElectionWards(tables)
  {
    var legacy := exists t :: t in tables && IsMarker(t);
    var groups: seq<seq<Table>>;
    if legacy {
      groups := LegacyGroups(tables);
    } else {
      var grouped := GroupCurrent(tables);
      if grouped.Err? {
        return Err(grouped.fault);
      }
      groups := grouped.value;
    }
    assert Groups(tables) == Ok(groups);
    r := StoreWards(legacy, groups);
  }
}
