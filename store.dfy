/** The keyed store of officeholders and the rule that writes into it
    (scraper.py:199-206): a record is written when no row has its name and council,
    or when the stored row's expiry date is strictly earlier than the record's. */
module Store {
  import opened Common
  import opened Dates
  import opened Normalize

  /** Rows are unique by (name, council). */
  type Key = (string, string)

  function KeyOf(o: Officeholder): Key { (o.name, o.council) }

  /** Every row is stored under its own key. */
  predicate Keyed(rows: map<Key, Officeholder>)
  {
    forall k :: k in rows ==> KeyOf(rows[k]) == k
  }

  /** Every stored expiry parses. */
  predicate Readable(rows: map<Key, Officeholder>, parse: string -> Option<Date>)
  {
    forall k :: k in rows ==> parse(rows[k].expiry).Some?
  }

  /** One upsert (scraper.py:200-206). A record whose key is absent is inserted
      without its expiry being read. Otherwise both expiries are parsed, the run
      stopping if either does not parse, and the record replaces the row only when
      the row's date is strictly earlier. */
  function Merge(rows: map<Key, Officeholder>, rec: Officeholder, parse: string -> Option<Date>)
    : (r: Result<map<Key, Officeholder>>)
    ensures r.Err? <==> KeyOf(rec) in rows && (parse(rows[KeyOf(rec)].expiry).None? || parse(rec.expiry).None?)
    ensures r.Err? ==> r.fault == UnreadableExpiry
    ensures r.Ok? ==> r.value.Keys == rows.Keys + {KeyOf(rec)}
    ensures r.Ok? ==> forall k :: k in rows && k != KeyOf(rec) ==> r.value[k] == rows[k]
    ensures r.Ok? ==> (r.value[KeyOf(rec)] == rec <==>
                        || KeyOf(rec) !in rows || rows[KeyOf(rec)] == rec
                        || DateBefore(parse(rows[KeyOf(rec)].expiry).value, parse(rec.expiry).value))
    ensures r.Ok? && r.value[KeyOf(rec)] != rec ==> r.value[KeyOf(rec)] == rows[KeyOf(rec)]
  {
    var k := KeyOf(rec);
    if k !in rows then Ok(rows[k := rec])
    else
      match (parse(rows[k].expiry), parse(rec.expiry))
      case (Some(stored), Some(incoming)) =>
        if DateBefore(stored, incoming) then Ok(rows[k := rec]) else Ok(rows)
      case _ => Err(UnreadableExpiry)
  }

  /** An upsert keeps every row under its own key and every stored expiry
      readable, given a record whose expiry is readable. */
  lemma MergeKeepsInvariants(rows: map<Key, Officeholder>, rec: Officeholder, parse: string -> Option<Date>)
    requires Keyed(rows) && Merge(rows, rec, parse).Ok?
    ensures Keyed(Merge(rows, rec, parse).value)
    ensures Readable(rows, parse) && parse(rec.expiry).Some? ==> Readable(Merge(rows, rec, parse).value, parse)
  {
  }

  /** A stored expiry never moves to an earlier date: after an upsert every key is
      still present, and its date is the old one or a later one. */
  lemma MergeMonotonic(rows: map<Key, Officeholder>, rec: Officeholder, parse: string -> Option<Date>)
    requires Readable(rows, parse) && parse(rec.expiry).Some? && Merge(rows, rec, parse).Ok?
    ensures var after := Merge(rows, rec, parse).value;
            forall k :: k in rows ==>
              k in after && !DateBefore(parse(after[k].expiry).value, parse(rows[k].expiry).value)
  {
    var after := Merge(rows, rec, parse).value;
    forall k | k in rows
      ensures k in after && !DateBefore(parse(after[k].expiry).value, parse(rows[k].expiry).value)
    {
      DateBeforeIsStrictOrder(parse(after[k].expiry).value, parse(rows[k].expiry).value, parse(rows[k].expiry).value);
    }
  }

  /** A record whose expiry date equals the stored one changes nothing. */
  lemma MergeSameExpiry(rows: map<Key, Officeholder>, rec: Officeholder, parse: string -> Option<Date>)
    requires KeyOf(rec) in rows && parse(rec.expiry).Some?
    requires parse(rows[KeyOf(rec)].expiry) == parse(rec.expiry)
    ensures Merge(rows, rec, parse) == Ok(rows)
  {
    DateBeforeIsStrictOrder(parse(rec.expiry).value, parse(rec.expiry).value, parse(rec.expiry).value);
  }

  /** Upserting the same readable record twice is upserting it once. */
  lemma MergeIdempotent(rows: map<Key, Officeholder>, rec: Officeholder, parse: string -> Option<Date>)
    requires parse(rec.expiry).Some? && Merge(rows, rec, parse).Ok?
    ensures var once := Merge(rows, rec, parse).value;
            Merge(once, rec, parse) == Ok(once)
  {
    var once := Merge(rows, rec, parse).value;
    var k := KeyOf(rec);
    if once[k] == rec {
      MergeSameExpiry(once, rec, parse);
    }
  }

  /** The upsert loop over a run's records, in order (scraper.py:199-206). */
  function MergeAll(rows: map<Key, Officeholder>, recs: seq<Officeholder>, parse: string -> Option<Date>)
    : Result<map<Key, Officeholder>>
  {
    if recs == [] then Ok(rows)
    else
      match MergeAll(rows, recs[..|recs| - 1], parse)
      case Err(f) => Err(f)
      case Ok(before) => Merge(before, recs[|recs| - 1], parse)
  }

  lemma MergeAllSnoc(rows: map<Key, Officeholder>, recs: seq<Officeholder>, rec: Officeholder,
                     parse: string -> Option<Date>)
    ensures MergeAll(rows, recs + [rec], parse) == match MergeAll(rows, recs, parse)
                                                  case Err(f) => Err(f)
                                                  case Ok(before) => Merge(before, rec, parse)
  {
    assert (recs + [rec])[..|recs|] == recs;
  }

  /** Every record of `recs` has a readable expiry. */
  predicate AllReadable(recs: seq<Officeholder>, parse: string -> Option<Date>)
  {
    forall i :: 0 <= i < |recs| ==> parse(recs[i].expiry).Some?
  }

  /** The store already holds, for every record, a row of its key whose date is
      no earlier than the record's. */
  predicate Dominates(rows: map<Key, Officeholder>, recs: seq<Officeholder>, parse: string -> Option<Date>)
  {
    forall i :: 0 <= i < |recs| ==>
      && KeyOf(recs[i]) in rows && parse(rows[KeyOf(recs[i])].expiry).Some? && parse(recs[i].expiry).Some?
      && !DateBefore(parse(rows[KeyOf(recs[i])].expiry).value, parse(recs[i].expiry).value)
  }

  /** With readable stored and incoming expiries the loop never stops early. */
  lemma {:induction false} MergeAllSucceeds(rows: map<Key, Officeholder>, recs: seq<Officeholder>,
                                           parse: string -> Option<Date>)
    requires Readable(rows, parse) && AllReadable(recs, parse)
    ensures MergeAll(rows, recs, parse).Ok? && Readable(MergeAll(rows, recs, parse).value, parse)
  {
    if recs != [] {
      MergeAllSucceeds(rows, recs[..|recs| - 1], parse);
    }
  }

  /** After the loop the store dominates every record it was given. */
  lemma {:induction false} MergeAllDominates(rows: map<Key, Officeholder>, recs: seq<Officeholder>,
                                            parse: string -> Option<Date>)
    requires Readable(rows, parse) && AllReadable(recs, parse)
    ensures MergeAll(rows, recs, parse).Ok? && Dominates(MergeAll(rows, recs, parse).value, recs, parse)
  {
    MergeAllSucceeds(rows, recs, parse);
    if recs != [] {
      var front := recs[..|recs| - 1];
      var rec := recs[|recs| - 1];
      MergeAllDominates(rows, front, parse);
      MergeAllSucceeds(rows, front, parse);
      var before := MergeAll(rows, front, parse).value;
      var after := Merge(before, rec, parse).value;
      MergeMonotonic(before, rec, parse);
      forall i | 0 <= i < |recs|
        ensures && KeyOf(recs[i]) in after && parse(after[KeyOf(recs[i])].expiry).Some? && parse(recs[i].expiry).Some?
                && !DateBefore(parse(after[KeyOf(recs[i])].expiry).value, parse(recs[i].expiry).value)
      {
        if i < |front| {
          var k := KeyOf(front[i]);
          DateBeforeIsStrictOrder(parse(after[k].expiry).value, parse(before[k].expiry).value, parse(front[i].expiry).value);
        } else {
          var k := KeyOf(rec);
          DateBeforeIsStrictOrder(parse(after[k].expiry).value, parse(rec.expiry).value, parse(rec.expiry).value);
        }
      }
    }
  }

  /** A store that dominates the records is left as it is by the loop. */
  lemma {:induction false} MergeAllDominated(rows: map<Key, Officeholder>, recs: seq<Officeholder>,
                                            parse: string -> Option<Date>)
    requires Dominates(rows, recs, parse)
    ensures MergeAll(rows, recs, parse) == Ok(rows)
  {
    if recs != [] {
      var front := recs[..|recs| - 1];
      assert Dominates(rows, front, parse) by {
        assert forall i :: 0 <= i < |front| ==> front[i] == recs[i];
      }
      MergeAllDominated(rows, front, parse);
      var rec := recs[|recs| - 1];
      DateBeforeIsStrictOrder(parse(rows[KeyOf(rec)].expiry).value, parse(rec.expiry).value, parse(rec.expiry).value);
    }
  }

  /** Running the same records through the store a second time changes nothing. */
  lemma MergeAllIdempotent(rows: map<Key, Officeholder>, recs: seq<Officeholder>, parse: string -> Option<Date>)
    requires Readable(rows, parse) && AllReadable(recs, parse)
    ensures MergeAll(rows, recs, parse).Ok?
    ensures MergeAll(MergeAll(rows, recs, parse).value, recs, parse) == MergeAll(rows, recs, parse)
  {
    MergeAllDominates(rows, recs, parse);
    MergeAllDominated(MergeAll(rows, recs, parse).value, recs, parse);
  }

  /** The store, one row per (name, council). */
  class OfficeholderStore {
    var rows: map<Key, Officeholder>

    predicate Valid()
      reads this
    {
      Keyed(rows)
    }

    constructor ()
      ensures Valid() && rows == map[]
    {
      rows := map[];
    }

    /** One upsert: `true` when the record is written ("Adding councillor"). On
        failure the store is unchanged. */
    method Upsert(rec: Officeholder, parse: string -> Option<Date>) returns (r: Result<bool>)
      requires Valid()
      modifies this
      ensures Valid()
      ensures r.Err? <==> Merge(old(rows), rec, parse).Err?
      ensures r.Err? ==> rows == old(rows)
      ensures r.Ok? ==> rows == Merge(old(rows), rec, parse).value
      ensures r.Ok? ==> (r.value <==> KeyOf(rec) !in old(rows)
                                      || DateBefore(parse(old(rows)[KeyOf(rec)].expiry).value, parse(rec.expiry).value))
    {
      var k := KeyOf(rec);
      var write: bool;
      if k !in rows {
        write := true;
      } else {
        var stored := parse(rows[k].expiry);
        var incoming := parse(rec.expiry);
        if stored.None? || incoming.None? {
          return Err(UnreadableExpiry);
        }
        write := DateBefore(stored.value, incoming.value);
      }
      if write {
        rows := rows[k := rec];
      }
      r := Ok(write);
    }

    /** The upsert loop (scraper.py:199-206): the records in order, stopping at the
        first one that fails; the store then holds what the records before it
        wrote. */
    method UpsertAll(recs: seq<Officeholder>, parse: string -> Option<Date>) returns (r: Result<()>)
      requires Valid()
      modifies this
      ensures Valid()
      ensures r.Err? <==> MergeAll(old(rows), recs, parse).Err?
      ensures r.Ok? ==> rows == MergeAll(old(rows), recs, parse).value
      ensures r.Err? ==> exists n :: && 0 <= n < |recs| && MergeAll(old(rows), recs[..n], parse) == Ok(rows)
                                      && Merge(rows, recs[n], parse).Err?
    {
      for i := 0 to |recs|
        invariant Valid()
        invariant MergeAll(old(rows), recs[..i], parse) == Ok(rows)
      {
        assert recs[..i + 1] == recs[..i] + [recs[i]];
        MergeAllSnoc(old(rows), recs[..i], recs[i], parse);
        var written := Upsert(recs[i], parse);
        if written.Err? {
          MergeAllFailureSticks(old(rows), recs, i + 1, parse);
          return Err(written.fault);
        }
      }
      assert recs[..|recs|] == recs;
      r := Ok(());
    }
  }

  /** A record failing partway through the loop fails the whole loop. */
  lemma {:induction false} MergeAllFailureSticks(rows: map<Key, Officeholder>, recs: seq<Officeholder>, n: nat,
                                                parse: string -> Option<Date>)
    requires n <= |recs| && MergeAll(rows, recs[..n], parse).Err?
    ensures MergeAll(rows, recs, parse).Err?
    decreases |recs| - n
  {
    if n < |recs| {
      assert recs[..n + 1] == recs[..n] + [recs[n]];
      MergeAllSnoc(rows, recs[..n], recs[n], parse);
      MergeAllFailureSticks(rows, recs, n + 1, parse);
    } else {
      assert recs[..n] == recs;
    }
  }

  /** One of the councils yields record `o`. */
  ghost predicate CouncilsEmit(today: Moment, parse: string -> Option<Date>, councils: seq<Council>, o: Officeholder)
  {
    exists k :: 0 <= k < |councils| && CouncilEmits(today, parse, councils[k], o)
  }

  /** A record some council yields has a readable expiry. */
  lemma EmittedReadable(today: Moment, parse: string -> Option<Date>, councils: seq<Council>, o: Officeholder)
    requires CouncilsEmit(today, parse, councils, o)
    ensures parse(o.expiry).Some?
  {
    var k :| 0 <= k < |councils| && CouncilEmits(today, parse, councils[k], o);
    var e :| e in councils[k].elections && ElectionEmits(today, parse, councils[k], e, o);
    var w :| w in e.wards && WardEmits(today, parse, councils[k], w, e.wards[w], o);
    var c :| c in e.wards[w].candidates && Consider(today, parse, councils[k], w, e.wards[w], c) == Ok(Some(o));
    RecordIsCurrent(today, parse, councils[k], w, e.wards[w], c, o);
  }

  /** Every record the councils yield has a readable expiry, so a run never stops
      in the upsert loop on a store whose expiries are readable, and running the
      same records through the store again changes nothing. */
  lemma RerunChangesNothing(today: Moment, parse: string -> Option<Date>, councils: seq<Council>,
                            recs: seq<Officeholder>, rows: map<Key, Officeholder>)
    requires forall i :: 0 <= i < |recs| ==> CouncilsEmit(today, parse, councils, recs[i])
    requires Readable(rows, parse)
    ensures MergeAll(rows, recs, parse).Ok?
    ensures MergeAll(MergeAll(rows, recs, parse).value, recs, parse) == MergeAll(rows, recs, parse)
  {
    forall i | 0 <= i < |recs| ensures parse(recs[i].expiry).Some? {
      EmittedReadable(today, parse, councils, recs[i]);
    }
    MergeAllIdempotent(rows, recs, parse);
  }

  /** After the loop over `recs`, any records drawn from `recs`, in any order and
      with any repetition, change nothing. */
  lemma RerunSubsetChangesNothing(rows: map<Key, Officeholder>, recs: seq<Officeholder>, again: seq<Officeholder>,
                                  parse: string -> Option<Date>)
    requires Readable(rows, parse) && AllReadable(recs, parse)
    requires forall i :: 0 <= i < |again| ==> again[i] in recs
    ensures MergeAll(rows, recs, parse).Ok?
    ensures MergeAll(MergeAll(rows, recs, parse).value, again, parse) == MergeAll(rows, recs, parse)
  {
    MergeAllDominates(rows, recs, parse);
    var after := MergeAll(rows, recs, parse).value;
    assert Dominates(after, again, parse) by {
      forall i | 0 <= i < |again|
        ensures && KeyOf(again[i]) in after && parse(after[KeyOf(again[i])].expiry).Some?
                && parse(again[i].expiry).Some?
                && !DateBefore(parse(after[KeyOf(again[i])].expiry).value, parse(again[i].expiry).value)
      {
        var j :| 0 <= j < |recs| && recs[j] == again[i];
      }
    }
    MergeAllDominated(after, again, parse);
  }

  /** A record a council yields at some moment it also yields at every earlier
      moment. */
  lemma EmittedEarlier(earlier: Moment, later: Moment, parse: string -> Option<Date>, council: Council,
                       o: Officeholder)
    requires earlier == later || Earlier(earlier, later)
    requires CouncilEmits(later, parse, council, o)
    ensures CouncilEmits(earlier, parse, council, o)
  {
    var e :| e in council.elections && ElectionEmits(later, parse, council, e, o);
    var w :| w in e.wards && WardEmits(later, parse, council, w, e.wards[w], o);
    var c :| c in e.wards[w].candidates && Consider(later, parse, council, w, e.wards[w], c) == Ok(Some(o));
    if earlier != later {
      KeptEarlier(later, earlier, parse, council, w, e.wards[w], c);
    }
    assert Consider(earlier, parse, council, w, e.wards[w], c) == Ok(Some(o));
    assert WardEmits(earlier, parse, council, w, e.wards[w], o);
    assert ElectionEmits(earlier, parse, council, e, o);
  }

  /** A run over the same councils at the same or a later moment, after a run that
      upserted every record the councils yielded, changes nothing: a record kept
      later was kept earlier, and the store already holds its date or a later one. */
  lemma LaterRunChangesNothing(earlier: Moment, later: Moment, parse: string -> Option<Date>, councils: seq<Council>,
                               first: seq<Officeholder>, second: seq<Officeholder>, rows: map<Key, Officeholder>)
    requires earlier == later || Earlier(earlier, later)
    requires forall i :: 0 <= i < |first| ==> CouncilsEmit(earlier, parse, councils, first[i])
    requires forall o :: CouncilsEmit(earlier, parse, councils, o) ==> o in first
    requires forall i :: 0 <= i < |second| ==> CouncilsEmit(later, parse, councils, second[i])
    requires Readable(rows, parse)
    ensures MergeAll(rows, first, parse).Ok?
    ensures MergeAll(MergeAll(rows, first, parse).value, second, parse) == MergeAll(rows, first, parse)
  {
    forall i | 0 <= i < |first| ensures parse(first[i].expiry).Some? {
      EmittedReadable(earlier, parse, councils, first[i]);
    }
    forall i | 0 <= i < |second| ensures second[i] in first {
      var k :| 0 <= k < |councils| && CouncilEmits(later, parse, councils[k], second[i]);
      EmittedEarlier(earlier, later, parse, councils[k], second[i]);
      assert CouncilsEmit(earlier, parse, councils, second[i]);
    }
    RerunSubsetChangesNothing(rows, first, second, parse);
  }

  /** One run of the scraper over already scraped councils (scraper.py:195-206):
      the current officeholders of every council, in council order, upserted into
      the store one by one. The run returns exactly the records the councils yield,
      as a set. */
  method Refresh(store: OfficeholderStore, today: Moment, parse: string -> Option<Date>, councils: seq<Council>)
    returns (r: Result<seq<Officeholder>>)
    requires store.Valid()
    modifies store
    ensures store.Valid()
    ensures r.Ok? ==> forall i :: 0 <= i < |r.value| ==> CouncilsEmit(today, parse, councils, r.value[i])
    ensures r.Ok? ==> forall o :: CouncilsEmit(today, parse, councils, o) ==> o in r.value
    ensures r.Ok? ==> MergeAll(old(store.rows), r.value, parse) == Ok(store.rows)
    ensures Readable(old(store.rows), parse) ==>
              (r.Err? <==> exists k :: 0 <= k < |councils| && CouncilFails(today, parse, councils[k]))
    ensures Readable(old(store.rows), parse) && r.Err? ==> store.rows == old(store.rows)
  {
    var recs: seq<Officeholder> := [];
    for k := 0 to |councils|
      invariant store.rows == old(store.rows)
      invariant forall i :: 0 <= i < |recs| ==> CouncilsEmit(today, parse, councils, recs[i])
      invariant forall o :: CouncilsEmit(today, parse, councils[..k], o) ==> o in recs
      invariant forall k' :: 0 <= k' < k ==> !CouncilFails(today, parse, councils[k'])
    {
      var found := GetCurrent(today, parse, councils[k]);
      if found.Err? {
        return Err(found.fault);
      }
      forall o | CouncilsEmit(today, parse, councils[..k + 1], o) ensures o in recs + found.value {
        var j :| 0 <= j < k + 1 && CouncilEmits(today, parse, councils[..k + 1][j], o);
        if j < k {
          assert councils[..k][j] == councils[j];
          assert CouncilsEmit(today, parse, councils[..k], o);
        }
      }
      recs := recs + found.value;
    }
    assert councils[..|councils|] == councils;
    if Readable(store.rows, parse) {
      RerunChangesNothing(today, parse, councils, recs, store.rows);
    }
    var stored := store.UpsertAll(recs, parse);
    if stored.Err? {
      return Err(stored.fault);
    }
    r := Ok(recs);
  }
}
