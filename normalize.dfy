/** Picking the current officeholders out of a council's scraped elections
    (`get_current`, scraper.py:147-182). */
module Normalize {
  import opened Common
  import opened Text
  import opened Dates
  import opened Wards

  const MayoralWard := "MAYORAL"
  const ExpiryOfTermKey := "Expiry of term"
  const WebsiteKey := "website"

  /** One election of a council: its listing name, date text and page address, and
      its wards by name. */
  datatype Election = Election(name: string, date: string, url: string, wards: map<string, Ward>)

  /** A council: its name, the contact details read from its page, and its
      elections in listing order. */
  datatype Council = Council(name: string, info: map<string, string>, elections: seq<Election>)

  /** One current officeholder as `get_current` reports it. */
  datatype Officeholder = Officeholder(name: string, council: string, ward: string, councilWebsite: string, expiry: string)

  /** The expiry text a candidate is judged by: the ward's "Expiry of term" for the
      mayoral ward, the candidate's own otherwise. */
  function ExpiryText(wardName: string, ward: Ward, c: Candidate): string
    requires wardName == MayoralWard ==> ExpiryOfTermKey in ward.info
  {
    if wardName == MayoralWard then ward.info[ExpiryOfTermKey] else c.expiry
  }

  /** The council's website, or the empty text when it has none. */
  function WebsiteOf(council: Council): string
  {
    if WebsiteKey in council.info then council.info[WebsiteKey] else ""
  }

  /** What `get_current` does with one candidate (scraper.py:152-180): `None` when it
      skips the candidate, the record it appends otherwise. The only failure is a
      mayoral ward without an "Expiry of term" entry, which the loop does not catch.
      An elected candidate whose name has a space yields a record exactly when the
      expiry text parses to a date that is not earlier than `today`. */
  function Consider(today: Moment, parse: string -> Option<Date>, council: Council,
                    wardName: string, ward: Ward, c: Candidate): (r: Result<Option<Officeholder>>)
    ensures r.Err? <==> c.elected && ' ' in c.name && wardName == MayoralWard && ExpiryOfTermKey !in ward.info
    ensures r.Err? ==> r.fault == MissingExpiryOfTerm
    ensures r.Ok? && r.value.Some? <==>
              && c.elected && ' ' in c.name
              && (wardName == MayoralWard ==> ExpiryOfTermKey in ward.info)
              && parse(ExpiryText(wardName, ward, c)).Some?
              && !Earlier(Midnight(parse(ExpiryText(wardName, ward, c)).value), today)
    ensures r.Ok? && r.value.Some? ==>
              var o := r.value.value;
              && o.name == c.name && o.council == council.name && o.ward == wardName
              && o.expiry == ExpiryText(wardName, ward, c)
              && (WebsiteKey in council.info ==> o.councilWebsite == council.info[WebsiteKey])
              && (WebsiteKey !in council.info ==> o.councilWebsite == "")
  {
    SplitOnSpace(c.name);
    if !c.elected then Ok(None)
    else if |Split(c.name, " ")| < 2 then Ok(None)
    else if wardName == MayoralWard && ExpiryOfTermKey !in ward.info then Err(MissingExpiryOfTerm)
    else
      var expiry := ExpiryText(wardName, ward, c);
      match parse(expiry)
      case None => Ok(None)
      case Some(d) =>
        if Earlier(Midnight(d), today) then Ok(None)
        else Ok(Some(Officeholder(c.name, council.name, wardName, WebsiteOf(council), expiry)))
  }

  /** Every record `get_current` yields has a name with a space and an expiry that
      parses to a date no earlier than today's date; on today's date itself only
      when the run starts exactly at midnight. */
  lemma RecordIsCurrent(today: Moment, parse: string -> Option<Date>, council: Council,
                        wardName: string, ward: Ward, c: Candidate, o: Officeholder)
    requires Consider(today, parse, council, wardName, ward, c) == Ok(Some(o))
    ensures ' ' in o.name && parse(o.expiry).Some?
    ensures !DateBefore(parse(o.expiry).value, today.date)
    ensures parse(o.expiry).value == today.date ==> today.micros == 0
  {
    ExpiredIff(parse(o.expiry).value, today);
  }

  /** A record kept at some moment is kept at every earlier moment. */
  lemma {:induction false} KeptEarlier(later: Moment, earlier: Moment, parse: string -> Option<Date>, council: Council,
                                      wardName: string, ward: Ward, c: Candidate)
    requires Earlier(earlier, later)
    ensures Consider(later, parse, council, wardName, ward, c).Ok? ==>
              Consider(later, parse, council, wardName, ward, c) == Consider(earlier, parse, council, wardName, ward, c)
              || Consider(later, parse, council, wardName, ward, c) == Ok(None)
    ensures Consider(later, parse, council, wardName, ward, c).Ok? ==>
              Consider(earlier, parse, council, wardName, ward, c).Ok?
    ensures forall o :: Consider(later, parse, council, wardName, ward, c) == Ok(Some(o)) ==>
              Consider(earlier, parse, council, wardName, ward, c) == Ok(Some(o))
  {
    var r := Consider(later, parse, council, wardName, ward, c);
    if r.Ok? && r.value.Some? {
      var d := parse(ExpiryText(wardName, ward, c)).value;
      if Earlier(Midnight(d), earlier) {
        EarlierTransitive(Midnight(d), earlier, later);
      }
    }
  }

  /** The ward yields record `o` from one of its candidates. */
  ghost predicate WardEmits(today: Moment, parse: string -> Option<Date>, council: Council,
                            wardName: string, ward: Ward, o: Officeholder)
  {
    exists c :: c in ward.candidates && Consider(today, parse, council, wardName, ward, c) == Ok(Some(o))
  }

  /** One of the ward's candidates stops the run. */
  ghost predicate WardFails(today: Moment, parse: string -> Option<Date>, council: Council,
                            wardName: string, ward: Ward)
  {
    exists c :: c in ward.candidates && Consider(today, parse, council, wardName, ward, c).Err?
  }

  ghost predicate ElectionEmits(today: Moment, parse: string -> Option<Date>, council: Council,
                                e: Election, o: Officeholder)
  {
    exists w :: w in e.wards && WardEmits(today, parse, council, w, e.wards[w], o)
  }

  ghost predicate ElectionFails(today: Moment, parse: string -> Option<Date>, council: Council, e: Election)
  {
    exists w :: w in e.wards && WardFails(today, parse, council, w, e.wards[w])
  }

  /** Some candidate of some ward of some election of the council yields `o`. */
  ghost predicate CouncilEmits(today: Moment, parse: string -> Option<Date>, council: Council, o: Officeholder)
  {
    exists e :: e in council.elections && ElectionEmits(today, parse, council, e, o)
  }

  ghost predicate CouncilFails(today: Moment, parse: string -> Option<Date>, council: Council)
  {
    exists e :: e in council.elections && ElectionFails(today, parse, council, e)
  }

  /** The candidate loop (scraper.py:151-180). */
  method WardCurrent(today: Moment, parse: string -> Option<Date>, council: Council,
                     wardName: string, ward: Ward) returns (r: Result<seq<Officeholder>>)
    ensures r.Err? <==> WardFails(today, parse, council, wardName, ward)
    ensures r.Err? ==> r.fault == MissingExpiryOfTerm
    ensures r.Ok? ==> forall o :: o in r.value <==> WardEmits(today, parse, council, wardName, ward, o)
  {
    var candidates := ward.candidates;
    var current: seq<Officeholder> := [];
    for i := 0 to |candidates|
      invariant forall k :: 0 <= k < i ==> Consider(today, parse, council, wardName, ward, candidates[k]).Ok?
      invariant forall o :: o in current <==>
                  exists k :: 0 <= k < i && Consider(today, parse, council, wardName, ward, candidates[k]) == Ok(Some(o))
    {
      var c := candidates[i];
      var verdict := Consider(today, parse, council, wardName, ward, c);
      if !c.elected {
        continue;
      }
      if |Split(c.name, " ")| < 2 {
        continue;
      }
      var expiry;
      if wardName == MayoralWard {
        if ExpiryOfTermKey !in ward.info {
          return Err(MissingExpiryOfTerm);
        }
        expiry := ward.info[ExpiryOfTermKey];
      } else {
        expiry := c.expiry;
      }
      var date := parse(expiry);
      if date.None? || Earlier(Midnight(date.value), today) {
        continue;
      }
      assert verdict == Ok(Some(Officeholder(c.name, council.name, wardName, WebsiteOf(council), expiry)));
      current := current + [Officeholder(c.name, council.name, wardName, WebsiteOf(council), expiry)];
    }
    r := Ok(current);
  }

  /** The ward loop of one election (scraper.py:150-180), over the wards in
      whatever order the dictionary yields them. */
  method ElectionCurrent(today: Moment, parse: string -> Option<Date>, council: Council, e: Election)
    returns (r: Result<seq<Officeholder>>)
    ensures r.Err? <==> ElectionFails(today, parse, council, e)
    ensures r.Err? ==> r.fault == MissingExpiryOfTerm
    ensures r.Ok? ==> forall o :: o in r.value <==> ElectionEmits(today, parse, council, e, o)
  {
    var current: seq<Officeholder> := [];
    var remaining := e.wards.Keys;
    var done: set<string> := {};
    while remaining != {}
      invariant remaining + done == e.wards.Keys && remaining !! done
      invariant forall w :: w in done ==> !WardFails(today, parse, council, w, e.wards[w])
      invariant forall o :: o in current <==> exists w :: w in done && WardEmits(today, parse, council, w, e.wards[w], o)
      decreases remaining
    {
      var w :| w in remaining;
      var found := WardCurrent(today, parse, council, w, e.wards[w]);
      if found.Err? {
        return found;
      }
      current := current + found.value;
      remaining := remaining - {w};
      done := done + {w};
    }
    r := Ok(current);
  }

  /** `get_current` (scraper.py:147-182): the records of every election's wards.
      The run fails exactly when some candidate fails, and otherwise yields exactly
      the records the candidates yield; their order follows the dictionary's and is
      not stated. */
  method GetCurrent(today: Moment, parse: string -> Option<Date>, council: Council)
    returns (r: Result<seq<Officeholder>>)
    ensures r.Err? <==> CouncilFails(today, parse, council)
    ensures r.Err? ==> r.fault == MissingExpiryOfTerm
    ensures r.Ok? ==> forall o :: o in r.value <==> CouncilEmits(today, parse, council, o)
  {
    var elections := council.elections;
    var current: seq<Officeholder> := [];
    for i := 0 to |elections|
      invariant forall k :: 0 <= k < i ==> !ElectionFails(today, parse, council, elections[k])
      invariant forall o :: o in current <==>
                  exists k :: 0 <= k < i && ElectionEmits(today, parse, council, elections[k], o)
    {
      var found := ElectionCurrent(today, parse, council, elections[i]);
      if found.Err? {
        return found;
      }
      current := current + found.value;
    }
    r := Ok(current);
  }
}
