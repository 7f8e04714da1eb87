# WA local-government election scraper, modelled in Dafny

The scraper (`scraper.py`) walks the Western Australian Electoral Commission's
council list, reads every council's election list and every election's results
page, and turns the results into wards and candidates. From those it picks the
councillors whose term has not yet expired (`get_current`) and upserts them into
a store keyed by (name, council). A stored row is replaced only by a record with
a strictly later expiry date.

This project models the parts of that pipeline that are pure logic or in-memory
state:

- `text.dfy`: the Python string operations the scraper uses, including `sanify`.
- `html.dfy`: parsed pages stood in for by tables of rows of `td`/`th` cells, each
  with its class list, text and first link.
- `layout.dfy`: the two page layouts and how each one groups tables into wards.
  - Legacy layout: the `waecModTable` tables zipped with the other tables.
  - Current layout: the `election_info`/`election_results` walk.
- `wards.dfy`: reading one ward's information, candidates and name. It also
  stores an election's wards by name.
- `listing.dfy`: a council's election list, the election page addresses, and the
  elections read from those pages.
- `dates.dfy`: dates, and the moment a run starts.
- `normalize.dfy`: `get_current`, the choice of current officeholders.
- `store.dfy`: the upsert rule, as a function, as a loop, and as a class holding
  the store's `map`. It also has one run over already-scraped councils.

Each loop of the scraper that the model covers is a method. Most are proved equal
to a function that defines what they compute, and lemmas state what that
function promises. The three loops of `get_current` are instead specified by
which records they yield (see below). The contact-block loop (scraper.py:46-62)
and the council-list comprehension (scraper.py:191) are not modelled.

`get_current` iterates over a Python 2 dictionary, whose order is not defined.
Its methods are therefore specified by which records they yield, not by the
order of those records.

Two behaviours of the code are worth stating plainly:

- `get_current` compares the midnight of a term's expiry date with
  `datetime.today()`, which carries the time of day. So a term ending on the day
  of the run is dropped unless the run starts exactly at midnight.
  `Dates.ExpiredIff` and `Normalize.RecordIsCurrent` state this.
- An election's page is read from a file named after the sanified council and
  election names (scraper.py:81-82), and downloaded only when that file is
  missing. Two elections of one council whose `council + '-' + name + '.html'`
  sanify alike, that is whose `Listing.CacheName`s agree, are therefore read from
  the same page and get the same wards. The election name is the link text
  unstripped, so " A" and "A" give different files. `Listing.ElectionOfRowCases`
  states this by reading the wards of `pages(CacheName(...))`.

## Model

| member | source | states |
|---|---|---|
| Text.Lower | scraper.py:37 | `lower()` keeps the length, turns each capital A to Z into its small letter, and keeps every other character |
| Text.TrimLeftDrops | scraper.py:114 | `lstrip()` removes a leading run of whitespace and nothing else, and what is left does not start with whitespace |
| Text.TrimRightDrops | scraper.py:114 | `rstrip()` removes a trailing run of whitespace and nothing else, and what is left does not end with whitespace |
| Text.StripFramed | scraper.py:114 | `strip()` gives the part of the text between leading and trailing whitespace, which neither starts nor ends with whitespace |
| Text.Words | scraper.py:37 | `split()` gives non-empty words without whitespace, made of the text's characters |
| Text.WordsSeparated | scraper.py:37 | `split()` gives exactly the text's maximal runs of non-whitespace, in order: the text is those words with whitespace-only runs before, between and after them, each run between two words non-empty |
| Text.JoinKeepsCase | scraper.py:37 | joining words that have no whitespace and no capitals with such a separator gives text that has neither |
| Text.Sanify | scraper.py:36-37 | `sanify` output contains no whitespace and no capital letter |
| Text.SanifyIdempotent | scraper.py:36-37 | applying `sanify` twice gives the same result as applying it once |
| Text.SanifyFields | scraper.py:36-37 | `sanify` gives the empty text exactly when the lowered name has no words; when no word holds a hyphen, splitting the result on "-" gives the words of the lowered name, in order |
| Text.Find | scraper.py:136 | the search finds the first occurrence of the separator, and `None` means it does not occur |
| Text.Split | scraper.py:136 | `split(sep)` gives at least one field |
| Text.SplitFieldsFree | scraper.py:136 | no field of `split(sep)` contains the separator |
| Text.SplitJoin | scraper.py:136 | joining the fields of `split(sep)` with `sep` gives the text back |
| Text.LastFieldIsSuffix | scraper.py:136 | `split(sep)[-1]` is the end of the text and contains no separator. It is either the whole text, which then has no separator, or what follows an occurrence of the separator. |
| Text.LastFieldAfterEveryOccurrence | scraper.py:136 | when no two occurrences of the separator overlap, every occurrence ends before `split(sep)[-1]` begins |
| Text.SplitOnSpace | scraper.py:155 | `len(name.split(' ')) >= 2` holds exactly when the name contains a space |
| Text.SplitJoinChar | scraper.py:37 | splitting on one character the join of fields that do not hold it gives the fields back |
| Html.FirstOfKind | scraper.py:138 | `find(kind)` gives the first cell of that kind, and `None` when there is none |
| Common.AssignLastWins | scraper.py:113-114 | a dictionary filled by assignments in order holds exactly the assigned keys, each with the value of its last assignment |
| Layout.Zip | scraper.py:89 | `zip` has the length of the shorter list, and pair `i` holds both lists' element `i` |
| Layout.LegacyGroups | scraper.py:87-89 | legacy groups number min(max(non-marker count − 1, 0), marker count); group `i` is non-marker table `i+1` followed by marker table `i` |
| Layout.WalkInvariant | scraper.py:93-99 | after each table, the closed groups are information tables ended by one results table. The open group holds only information tables. Together the groups hold the information and results tables seen so far, in order. |
| Layout.WalkFails | scraper.py:95 | the current-layout walk fails exactly when some table has no class |
| Layout.CurrentGroupsShape | scraper.py:93-101 | every current-layout group ends in a results table and has no other results table. The groups' last tables are exactly the page's results tables, in order. The groups hold the information and results tables in order, up to the last results table; only information tables follow it. |
| Layout.WalkFailureSticks | scraper.py:94-95 | once the walk fails on a table, the result for the whole page is that failure |
| Layout.GroupCurrent | scraper.py:93-101 | the loop with its appends and final `pop` computes the current-layout grouping |
| Layout.Groups | scraper.py:87-101 | every group is non-empty; a page with a marker table uses the legacy grouping, and any other page the current-layout walk |
| Wards.InfoOfLastWins | scraper.py:108-114 | the information holds a key exactly for rows with two `td` cells, and the value of the last such row with that key |
| Wards.Classify | scraper.py:117-133 | a row is kept exactly when it has four `td` cells and either no class or an elected class. It is rejected exactly when it has four cells and a class that is neither elected nor header/footer. `elected` holds exactly when the row has a class. The name, votes and expiry are the stripped cell texts. |
| Wards.CandidatesOfRows | scraper.py:116-133 | a results table fails exactly when some row is rejected; otherwise its candidates are exactly those of the kept rows |
| Wards.CandidatesFailureSticks | scraper.py:128 | a rejected row fails the whole table whatever follows it |
| Wards.LegacyWardName | scraper.py:135-136 | the legacy ward name fails exactly on a table with no row. Otherwise it is the end of the first row's space-joined cell texts and contains no " - ". |
| Wards.LegacyWardNameAfterLastDash | scraper.py:136 | the legacy ward name is what follows the last " - " at which a left-to-right split of the header cuts: either the whole space-joined header (when it has no " - ") or the end of the header that follows a " - " and holds none. When no two " - " of the header overlap, every " - " ends before the name, so it is what follows the last " - " of all. |
| Wards.CurrentWardName | scraper.py:137-138 | the current ward name fails exactly on a table with no cell. Otherwise it is the first `th`'s text, or, when there is no `th`, the first `td`'s text. |
| Wards.WardsOfFails | scraper.py:103-140 | an election fails exactly when one of its groups fails |
| Wards.WardsOfAssign | scraper.py:103-140 | when no group fails, the wards are the dictionary built by storing each group's ward under its name, in order |
| Wards.WardsOfLastWins | scraper.py:140 | the wards hold every group's ward name and no other, each with the ward of the last group of that name |
| Wards.WardsFailureSticks | scraper.py:104-140 | a failing group fails the election whatever follows it |
| Wards.ReadInfo | scraper.py:108-114 | the information loop computes the ward's information |
| Wards.ReadCandidates | scraper.py:116-133 | the candidate loop computes the table's candidates, or its first failure |
| Wards.ExtractWard | scraper.py:104-140 | one group's reading gives its name and ward: information from its first table, candidates from its last |
| Wards.StoreWards | scraper.py:103-140 | the ward loop computes the election's wards, or the first failure |
| Wards.ParseResults | scraper.py:87-140 | layout choice, grouping and the ward loop together compute the election's wards |
| Listing.SlashesAppend | scraper.py:64 | the slash count of a concatenation is the sum of the parts' counts |
| Listing.LastSlash | scraper.py:64 | the search finds the last slash, with no slash after it; `None` means there is no slash |
| Listing.UrlBaseCutsTwoSlashes | scraper.py:64 | `rsplit('/', 2)[0]` is a beginning of the address ending just before a slash. Exactly two of the address's slashes follow it, or all of them when there are fewer. |
| Listing.FindSlash | scraper.py:76 | searching for "/" finds the first slash, and `None` means there is none |
| Listing.AfterFirstSlash | scraper.py:76 | `split('/', 1)[-1]` is the link unchanged when it has no slash; otherwise it is what follows the link's first slash |
| Listing.ElectionUrlSharesBase | scraper.py:64-76 | an election's address agrees with the list page's address up to and including that address's second slash from the end |
| Listing.ElectionOfRow | scraper.py:67-86 | a listing row is skipped exactly when it has no `td` cell, and fails when it has cells but not two of them or no link. An election it yields has the row's two texts and the address built from its link. |
| Listing.ElectionOfRowCases | scraper.py:67-86 | a row with other than two cells fails with the row-shape fault, and one without a link with the missing-link fault. A row with two cells and a link yields an election exactly when the page in its cache file (scraper.py:81-82) gives wards; the election then has those wards, and otherwise the row fails with that page's fault. |
| Listing.ElectionsOfRows | scraper.py:66-86 | the listing fails exactly when some row fails; otherwise its elections are exactly those of its rows |
| Listing.ElectionsFailureSticks | scraper.py:67-86 | a failing row fails the listing whatever follows it |
| Listing.ReadRow | scraper.py:67-86 | the body of the listing loop computes one row's result |
| Listing.ReadElections | scraper.py:64-86 | the listing loop computes the council's elections, or the first failure |
| Dates.DateBeforeIsStrictOrder | scraper.py:167 | date order is irreflexive, asymmetric, transitive and total |
| Dates.ExpiredIff | scraper.py:167 | an expiry compares earlier than `today` exactly when it is a past date, or is today's date and the run started after midnight |
| Dates.EarlierTransitive | scraper.py:167 | the order on moments is transitive |
| Normalize.Consider | scraper.py:152-180 | a candidate fails exactly when elected, named with a space, in the mayoral ward, and that ward has no "Expiry of term". It yields a record exactly when elected, named with a space, and its expiry text parses to a date not earlier than `today`. The expiry text is the ward's for the mayoral ward and the candidate's own otherwise. The record carries the candidate's name, the council's name, the ward's name and that expiry text, with the council website defaulting to "". |
| Normalize.RecordIsCurrent | scraper.py:152-172 | every record has a name with a space and an expiry that parses to a date no earlier than today's; a date equal to today's only when the run starts at midnight |
| Normalize.KeptEarlier | scraper.py:165-180 | a record kept at some moment is kept, unchanged, at every earlier moment; a run that succeeds at a later moment succeeds at an earlier one |
| Normalize.WardCurrent | scraper.py:151-180 | the candidate loop fails exactly when some candidate fails; otherwise it yields exactly the candidates' records |
| Normalize.ElectionCurrent | scraper.py:150-180 | the ward loop, in any key order, fails exactly when some ward fails; otherwise it yields exactly the wards' records |
| Normalize.GetCurrent | scraper.py:147-182 | `get_current` fails exactly when some candidate of some ward of some election fails; otherwise it yields exactly the records the candidates yield |
| Store.Merge | scraper.py:200-206 | an upsert fails exactly when the key is stored and either expiry does not parse. Otherwise the store gains the key and keeps every other row. The key holds the record exactly when the key was absent, the stored row equals the record, or the stored date is strictly earlier; otherwise it keeps the stored row. |
| Store.MergeKeepsInvariants | scraper.py:206 | an upsert keeps each row under its own (name, council) key and keeps every stored expiry readable |
| Store.MergeMonotonic | scraper.py:204-206 | an upsert removes no key and never moves a stored expiry to an earlier date |
| Store.MergeSameExpiry | scraper.py:204 | a record whose expiry date equals the stored one changes nothing |
| Store.MergeIdempotent | scraper.py:204-206 | upserting the same readable record twice is upserting it once |
| Store.MergeAllSucceeds | scraper.py:199-206 | with readable stored and incoming expiries, the loop never fails and the store stays readable |
| Store.MergeAllDominates | scraper.py:199-206 | after the loop, every record's key is stored with a date no earlier than the record's |
| Store.MergeAllDominated | scraper.py:199-206 | a store that already has such a date for every record is left unchanged by the loop |
| Store.MergeAllIdempotent | scraper.py:199-206 | running the same records through the store twice gives what running them once gives |
| Store.MergeAllFailureSticks | scraper.py:199-206 | a failing upsert fails the loop whatever follows it |
| Store.RerunChangesNothing | scraper.py:195-206 | the records `get_current` yields never fail the upsert loop on a readable store, and running them through the store again changes nothing |
| Store.EmittedReadable | scraper.py:165-168 | every record a council yields has an expiry that parses |
| Store.RerunSubsetChangesNothing | scraper.py:199-206 | after the upsert loop over some records, a second loop over any records drawn from them, in any order, changes nothing |
| Store.EmittedEarlier | scraper.py:147-182 | a record a council yields at some moment it also yields at every earlier moment |
| Store.LaterRunChangesNothing | scraper.py:195-206 | after a run that upserted every record the councils yield, a run over the same councils at the same or a later moment changes nothing |
| Store.OfficeholderStore.constructor | scraper.py:199-206 | the store starts empty |
| Store.OfficeholderStore.Upsert | scraper.py:200-206 | the store becomes the upsert's result, or stays unchanged on failure. It reports a write exactly when the key was absent or the stored date strictly earlier. |
| Store.OfficeholderStore.UpsertAll | scraper.py:199-206 | the loop leaves the store as the upserts of all records in order. On failure it leaves the upserts of the records before the failing one, and that record's upsert fails on it. |
| Store.Refresh | scraper.py:195-206 | a run returns exactly the records some council yields, as a set, and leaves the store as their upserts in order. On a readable store it fails exactly when some council's `get_current` fails, and a failed run leaves the store unchanged. |

## Left out

- `get_page` (scraper.py:13-34) is left out: file caching, downloads and the retry loop are I/O. A parsed page is a parameter, `pages`, that maps a cache file name to the tables of the results region of the page that file holds. Which address's download fills a missing file is not modelled, so the model does not relate an election's page to its address: a page cached by an earlier run is whatever that file holds.
- HTML parsing is left out, along with the lookups the code does on the parsed page: `find('div', {'id': 'council-results'})`, the election-list table, and `.text`. Each table arrives already reduced to its class list and rows.
- Tables nested inside a cell are not modelled, so `findAll('tr')` sees only the table's own rows.
- The council list (scraper.py:39-45, 184-193) is not part of this model.
- The contact-block scraping (scraper.py:46-62) is not modelled; the council's contact details are a given map. In the code a second address-like block is only printed, so `other` keeps its first value, while `website` and `email` keep the last one seen.
- `urllib2.quote` is the parameter `quote`, and `datetime.strptime('%d %B %Y')` is the parameter `parse`, a partial function to dates. `datetime.today()` is the parameter `today`, a date plus microseconds past midnight.
- Persistence is not modelled: `pickle` of the scraped councils, and the `scraperwiki.sqlite` select and save calls. The store is an in-memory map keyed by (name, council).
- Wards.LegacyWardNameAfterLastDash: where occurrences of " - " overlap the lemma does not pin the name. The header "A - - B" splits into "A" and "- B", so the code's ward name is "- B", yet "B" also meets the lemma's end-field clause, and its no-overlap clause, which would rule "B" out, does not apply to this header.
- `Store.Merge`: the code looks up the stored row with an SQL query it builds by pasting the name and council into the text. A name or council containing `"` breaks that query. The exception is swallowed, and the record is then written as if no row existed. The model looks the key up exactly.
- `print` diagnostics are left out, including the "Invalid candidate name" and "Invalid expiry date" messages and "Adding councillor".
- `Normalize.GetCurrent` states which records the run yields, not their order or how often each repeats. The order follows Python 2 dictionary iteration, which is not defined.
- `Text.Lower` lowers only the letters A to Z. `unicode.lower()` lowers other scripts as well; `Sanify` therefore states "no capital A to Z".
- Ward information: the code keeps a ward's information and its candidate list in one dictionary, so an information row whose key is "candidates" is overwritten by the list. The model keeps the two apart.
- Council name: the code keeps the council's name in the same dictionary as its contact details, so a contact field labelled "name" would replace it. The model keeps the name apart.
- Crashes are modelled as the `Err` results of `Common.Fault`:
  - uncaught exceptions: `KeyError`, `AttributeError` on `None`, and the candidate-row `assert`;
  - the tuple unpacking of a listing row.
- A results page without its results `div` crashes the code. The model has no such case, because `pages` gives the tables of that `div` directly.
