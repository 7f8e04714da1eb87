/** Shared vocabulary: optional values, results with the scraper's failure kinds, and filtering. */
module Common {

  datatype Option<+T> = None | Some(value: T)

  /** Why parsing one election's page (or normalising a council) stopped. In the
      scraper each of these is a Python exception that nothing catches. */
  datatype Fault =
    | MissingTableClass     // `table.attrs['class'][0]` on a table with no class
    | UnexpectedRowClass(cls: string)  // the `assert` on a results row's class
    | MissingRow            // `find('tr')` found no row, so `.findAll` is called on None
    | MissingNameCell       // neither `find('th')` nor `find('td')` found a cell
    | MissingExpiryOfTerm   // `ward_results['Expiry of term']` on a ward without that key
    | UnreadableExpiry      // `parseExpiryDate` raised while comparing stored rows
    | ListingRowShape       // unpacking the `td` cells of a listing row that has not two
    | MissingElectionLink   // a listing row's first cell has no link with an `href`

  datatype Result<+T> = Ok(value: T) | Err(fault: Fault)

  /** The elements of `s` that satisfy `p`, in order. */
  function Filter<T(!new)>(p: T -> bool, s: seq<T>): (r: seq<T>)
    ensures |r| <= |s|
    ensures forall i :: 0 <= i < |r| ==> p(r[i])
  {
    if s == [] then []
    else
      var front := Filter(p, s[..|s| - 1]);
      assert s == s[..|s| - 1] + [s[|s| - 1]];
      if p(s[|s| - 1]) then front + [s[|s| - 1]] else front
  }

  lemma FilterSnoc<T(!new)>(p: T -> bool, s: seq<T>, x: T)
    ensures Filter(p, s + [x]) == Filter(p, s) + (if p(x) then [x] else [])
  {
    assert (s + [x])[..|s|] == s;
  }

  /** One more element of `xs` extends its prefix by that element. */
  lemma PrefixSnoc<T>(xs: seq<T>, i: nat)
    requires i < |xs|
    ensures xs[..i + 1] == xs[..i] + [xs[i]]
  {
  }

  /** A dictionary built by applying `updates` in order, each `Some((k, v))` setting
      `k` to `v` and each `None` leaving it alone. */
  function Assign<K, V>(updates: seq<Option<(K, V)>>): map<K, V>
  {
    if updates == [] then map[]
    else
      var before := Assign(updates[..|updates| - 1]);
      match updates[|updates| - 1]
      case None => before
      case Some((k, v)) => before[k := v]
  }

  /** Update `i` is the last of `updates` that sets `key`. */
  predicate LastUpdateOf<K(==), V>(updates: seq<Option<(K, V)>>, key: K, i: int)
  {
    && 0 <= i < |updates| && updates[i].Some? && updates[i].value.0 == key
    && forall j :: i < j < |updates| && updates[j].Some? ==> updates[j].value.0 != key
  }

  /** The dictionary holds every key some update sets, no other key, and under each
      key the value of the last update that sets it. */
  lemma {:induction false} AssignLastWins<K, V>(updates: seq<Option<(K, V)>>)
    ensures var m := Assign(updates);
            && (forall i :: 0 <= i < |updates| && updates[i].Some? ==> updates[i].value.0 in m)
            && forall key :: key in m ==>
                 exists i :: LastUpdateOf(updates, key, i) && m[key] == updates[i].value.1
  {
    if updates != [] {
      var front := updates[..|updates| - 1];
      var last := |updates| - 1;
      AssignLastWins(front);
      assert forall i :: 0 <= i < last ==> updates[i] == front[i];
      match updates[last]
      case None =>
        assert forall key, i :: LastUpdateOf(front, key, i) ==> LastUpdateOf(updates, key, i);
      case Some((k, v)) =>
        assert LastUpdateOf(updates, k, last);
        assert forall key, i :: key != k && LastUpdateOf(front, key, i) ==> LastUpdateOf(updates, key, i);
    }
  }
}
