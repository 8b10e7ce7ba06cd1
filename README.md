# Pokémon log tracker: a verified model of its data core

PokemonLogTracker is a desktop helper for Pokémon randomizer runs. It reads
the randomizer's pipe-delimited log into a dict of creature entries keyed
by lower-case NAME. It keeps two histories, "yours" (player) and "enemy",
saved as JSON. A search box and a list resolve a name to an entry. The first
time a log entry is looked at, a dialog asks whether it is yours or an
enemy's, and the entry is copied into that history.

This project models that core in Dafny:

- `text.dfy` (`Wrappers`, `Text`): the Python string operations the code
  relies on, on ASCII: `strip`, `lower`, `upper`, `split` on one character,
  `join`, `startswith`, substring `in`, `isdigit`, `int()` and `str()`.
- `ordered_map.dfy` (`OrderedMaps`): Python's insertion-ordered dict as a key
  sequence plus a map. Assigning to an existing key keeps its place. It also
  defines the first-match search, the order-keeping filter and
  `list(dict.fromkeys(...))`.
- `entries.dfy` (`Entries`): an entry (field name to text), `get` with a
  default, and the NAME key.
- `log_parser.dfy` (`LogParser`): `load_pokemon_data`. A specification read
  from the back of the file is proved equal to the line-by-line loop.
- `stats.dfy` (`Stats`): `calculate_bst`, with its `isdigit` guard and an
  `int()` that may raise.
- `info_format.dfy` (`InfoFormat`): `format_full_info` (two loops with a
  `seen` set) and `format_enemy_info`.
- `lookup.dfy` (`Lookup`): the three dicts and the ways of resolving a key:
  - `find_exact`;
  - `key_from_display`;
  - `collect_matches` with first-seen deduplication.
- `outcome.dfy` (`Outcomes`): what `search_pokemon` and `on_list_select`
  decide, as an `Outcome` value, and how a classification changes the
  dicts.
- `tracker.dfy` (`Tracking`): the class `Tracker`. It holds the three dicts
  as fields, which `open_file`, the classification writes and
  `clear_history` update in place. A ghost counter records the
  `save_history` calls.

The classification dialog is a parameter `Option<Choice>`, where `None` is
a dismissed dialog. The file dialog of `open_file` is a parameter
`Option<seq<string>>`: the file's lines, or `None` when no file was chosen
or it could not be read.

## Model

| member | source | states |
|---|---|---|
| LogParser.LoadPokemonData | PokemonLogTracker.py:110-135 | the line-by-line loop, with its `header_found` and `headers` state and the dict it fills, returns exactly `Parse(lines)` |
| LogParser.Parse | PokemonLogTracker.py:110-135 | the log a file's lines give: nothing without a header line; otherwise the data lines after the first header line, each read against it and filed in turn into an empty dict |
| LogParser.ScanIsParse | PokemonLogTracker.py:111-134 | the line-by-line reading state determines the parsed log: no header seen means nothing, otherwise the collected lines are read against the header |
| LogParser.ScanHeader | PokemonLogTracker.py:116-123 | reading line by line finds the first header line, keeps its stripped, upper-cased field names, and collects every line after it |
| LogParser.ParseFirstHeader | PokemonLogTracker.py:119-123 | lines before the first header line produce nothing; every line after it, later header lines included, is read against it |
| LogParser.ParseNoHeader | PokemonLogTracker.py:119-123 | without a header line the log is empty |
| LogParser.BlankLineDropped | PokemonLogTracker.py:117-118 | a blank line is neither a header nor a kept row |
| LogParser.HeaderFields | PokemonLogTracker.py:121 | there is one header field per `|`-separated part |
| LogParser.RowParts | PokemonLogTracker.py:125 | there is one value per `|`-separated part |
| LogParser.LastIndexOf | PokemonLogTracker.py:128 | gives the last column carrying a field name, which is the one `dict(zip(...))` keeps |
| LogParser.ZipFields | PokemonLogTracker.py:128 | the zipped row has exactly the header's fields, each with the value of its last column |
| LogParser.ZipOrder | PokemonLogTracker.py:128 | `dict(zip(...))` lists a repeated header field once, at its first column: the fields come in the order of their first occurrence |
| LogParser.WithDefaultsFields | PokemonLogTracker.py:132-133 | `setdefault` adds exactly the missing default fields, as "", and keeps every present value |
| LogParser.SetDefaults | PokemonLogTracker.py:132-133 | the `setdefault` loop computes `WithDefaults` over TYPE, NUM, HP, ATK, DEF, SPE, SATK, SDEF |
| LogParser.DefaultFieldsNoDup | PokemonLogTracker.py:132 | the eight default fields are distinct |
| LogParser.WithDefaultsOrder | PokemonLogTracker.py:132-133 | `setdefault` appends the fields it adds after the present ones, in the order of the default fields |
| LogParser.RowEntryFields | PokemonLogTracker.py:125-133 | a row's entry has exactly the header fields plus the default fields; header values are the stripped values of their last column; defaults the header lacks are "" |
| LogParser.RowEntryOrder | PokemonLogTracker.py:128-133 | an entry lists the header's fields in the order of their first column, then the default fields the header lacks, in their own order |
| LogParser.RowEntryName | PokemonLogTracker.py:129-133 | a row's entry has every default field, and its stripped, lower-cased NAME is the row's key |
| LogParser.LineRowKept | PokemonLogTracker.py:124-131 | a kept data line is non-blank, has as many fields as the header, and is filed under the non-empty lower-cased NAME of its entry |
| LogParser.ReadRow | PokemonLogTracker.py:124-134 | one data line updates the dict exactly as `ParseLine` says |
| LogParser.LineRowsAppend | PokemonLogTracker.py:116 | reading two runs of lines one after the other reads each line on its own |
| LogParser.ParseRowsSnoc | PokemonLogTracker.py:116-134 | reading one more data line applies `ParseLine` to the dict read so far |
| LogParser.FileRowsKeys | PokemonLogTracker.py:134 | the keys filed are exactly the keys of the kept lines, and each holds the entry of one of them |
| LogParser.FileRowsLastWins | PokemonLogTracker.py:134 | a key holds the entry of the last kept line filed under it |
| LogParser.FileRowsOrder | PokemonLogTracker.py:134 | a re-filed key keeps the place where it was first filed: the keys come in the order of their first kept line |
| LogParser.FileRowsDropped | PokemonLogTracker.py:126-131 | a dropped line changes nothing, wherever it stands |
| LogParser.ParseRowsDomain | PokemonLogTracker.py:124-134 | a key is in the log exactly when some data line is kept under it |
| LogParser.ParseRowsEntries | PokemonLogTracker.py:129-134 | every key is non-empty and equals the lower-cased NAME of its entry, and every entry has the default fields |
| LogParser.ParseRowsLastWins | PokemonLogTracker.py:134 | a later row with the same key replaces an earlier one |
| LogParser.ParseRowsOrder | PokemonLogTracker.py:124-134 | the log lists its keys in the order of the first data line kept under each; a later line for a key replaces its entry but not its place |
| LogParser.ParseRowsDropped | PokemonLogTracker.py:117-131 | a blank line, a line with the wrong field count or one with an empty NAME changes nothing, wherever it stands |
| Stats.CalculateBst | PokemonLogTracker.py:137-145 | the accumulating loop returns `BaseStatTotal(e)` |
| Stats.StatOfIsInteger | PokemonLogTracker.py:140-144 | the guard lets through every string of ASCII digits and '-' that `int()` accepts, so a stat adds the integer value of its stripped text when that is an optional '-' followed by digits, and 0 otherwise |
| Stats.DigitsHaveNoDash | PokemonLogTracker.py:142 | removing '-' from a digit string changes nothing |
| Stats.StatOfInt | PokemonLogTracker.py:140-142 | a stat whose stripped text is `str(n)` adds n, for any integer n |
| Stats.StatOfMalformed | PokemonLogTracker.py:142-144 | a stat whose stripped text is not an optional '-' followed by digits (so also "" and a lone "-") adds 0, whether `int()` rejects it or the guard turns it away first |
| Stats.StatSumSnoc | PokemonLogTracker.py:139-142 | adding one more field adds its value |
| Stats.BaseStatTotalSix | PokemonLogTracker.py:139 | the total is the values of HP, ATK, DEF, SPE, SATK and SDEF added up |
| Stats.StatSumOnlyStats | PokemonLogTracker.py:139 | entries that agree on the six stat fields have the same total |
| Stats.StatEntryTotal | PokemonLogTracker.py:137-145 | an entry built from six stat texts totals the six texts' values |
| Stats.BulbasaurTotal | PokemonLogTracker.py:137-145 | stats 45, 49, 49, 45, 65 and 65 total 318 |
| Stats.NonNumericStatsAddNothing | PokemonLogTracker.py:142 | "abc" and "" fail the guard and add 0 |
| Stats.SignedOrGroupedStatsAddNothing | PokemonLogTracker.py:142 | "+5" and "1_000", which `int()` would accept, fail the guard and add 0 |
| Stats.GuardedStatsAddNothing | PokemonLogTracker.py:142-144 | "1-2" and "--5" pass the guard, `int()` raises on them, and they add 0 |
| Text.IntLiteralIntToString | PokemonLogTracker.py:142 | the model's `int()` reads back the model's `str()` of every integer, as Python's do below the 4300-digit limit |
| Text.DigitsValueNatToString | PokemonLogTracker.py:142 | the digits of `str(n)` read back as n |
| InfoFormat.FormatFullInfo | PokemonLogTracker.py:147-159 | the two loops, the BST line and the join return `FullInfoText(e)` |
| InfoFormat.ListFixed | PokemonLogTracker.py:148-154 | the first loop lists the non-empty fields of the fixed order, in that order, and `seen` holds exactly those fields |
| InfoFormat.ListRest | PokemonLogTracker.py:155-157 | the second loop lists the entry's other non-empty fields in the entry's order |
| InfoFormat.FixedStep | PokemonLogTracker.py:151-153 | one field of the fixed order adds its `k: v` line exactly when it is present and non-blank |
| InfoFormat.RestStep | PokemonLogTracker.py:155-157 | one field of the entry is listed exactly when it is unseen and non-blank |
| InfoFormat.FieldOrderNoDup | PokemonLogTracker.py:149 | the fixed order names no field twice |
| InfoFormat.ListedKeysExact | PokemonLogTracker.py:150-157 | every field with a non-blank value is listed, exactly once, and no other field is |
| InfoFormat.ListedKeysOrder | PokemonLogTracker.py:150-157 | the fields of the fixed order come first, in that order; the others follow in the entry's order |
| InfoFormat.InfoLinesAt | PokemonLogTracker.py:153 | the i-th line is `k: v` for the i-th listed field, with the value as stored |
| InfoFormat.FullInfoTextEnds | PokemonLogTracker.py:158-159 | the text is the field lines, then the BST line, and it ends with a newline |
| InfoFormat.BstLineOneLine | PokemonLogTracker.py:158 | the BST line holds no newline |
| InfoFormat.FullInfoTextSplits | PokemonLogTracker.py:158-159 | when no listed name or value holds a newline, the text without its final newline splits back into exactly the field lines and the BST line |
| InfoFormat.CardLines | PokemonLogTracker.py:164 | a name and a type free of newlines make exactly two newline-ended lines |
| InfoFormat.EnemyInfoText | PokemonLogTracker.py:161-164 | `format_enemy_info`: the stripped NAME, then "Type: " and the stripped TYPE ("Unknown" when there is no TYPE field), each ended by a newline |
| InfoFormat.EnemyInfoLines | PokemonLogTracker.py:161-164 | the enemy card is the stripped NAME, then "Type: " and the stripped TYPE ("Unknown" when missing), one line each |
| OrderedMaps.FirstWhereFirst | PokemonLogTracker.py:317-319 | the first-match search finds the first position that matches, and nothing exactly when no position does |
| OrderedMaps.FilterOrdered | PokemonLogTracker.py:326-329 | filtering a dict's keys keeps exactly the matching keys, once each, in insertion order |
| OrderedMaps.FilterEmpty | PokemonLogTracker.py:326-330 | the filter is empty exactly when no element matches |
| OrderedMaps.DedupNoDup | PokemonLogTracker.py:337 | `list(dict.fromkeys(m))` holds each element once and starts with m's first element |
| OrderedMaps.DedupFirstSeen | PokemonLogTracker.py:337 | `list(dict.fromkeys(m))` keeps the elements in the order of their first occurrence |
| Lookup.FirstKeyFirst | PokemonLogTracker.py:243-245 | the scan of one dict finds a matching key with no matching key before it, and nothing exactly when no key matches |
| Lookup.FirstHitFirst | PokemonLogTracker.py:240-249 | the scan over player, enemy, log finds a matching key of the first dict holding one, the first in that dict, and nothing exactly when no dict holds one |
| Lookup.FirstHitNone | PokemonLogTracker.py:240-249 | the scan finds nothing exactly when no key of any dict matches |
| Lookup.FirstHitSome | PokemonLogTracker.py:240-249 | what the scan finds matches, and no earlier dict and no earlier key of its dict does |
| Lookup.FirstHitHolds | PokemonLogTracker.py:240-249 | what the scan finds is a key of the dict it names |
| Lookup.FindExactSound | PokemonLogTracker.py:312-320 | `find_exact` finds a key of the dict it names whose key or NAME is q, and finds nothing exactly when q is neither a key nor a NAME anywhere |
| Lookup.FindExact | PokemonLogTracker.py:312-320 | `find_exact`: q as a key of the player history, the enemy history or the log, in that order; failing that, the first entry whose NAME is q, in the same order of dicts |
| Lookup.FindExactMissing | PokemonLogTracker.py:316-320 | when q is no key and no NAME matches it, q is neither a key nor a NAME anywhere |
| Lookup.FindExactHolds | PokemonLogTracker.py:312-320 | what `find_exact` finds is a key of the dict it names |
| Lookup.FindExactKeyFirst | PokemonLogTracker.py:313-315 | a query that is a key is found as that key in the first of player, enemy, log holding it, so a history takes precedence over the log |
| Lookup.FindExactNameFirst | PokemonLogTracker.py:316-319 | a query that is no key is found by NAME: in the first dict with such an entry, as the first such entry in insertion order |
| Lookup.KeyFromDisplayFirst | PokemonLogTracker.py:240-249 | `key_from_display` finds the first entry, in the first dict holding one, whose NAME or key is the display text, and nothing exactly when there is none |
| Lookup.KeyFromDisplay | PokemonLogTracker.py:240-249 | `key_from_display`: the first entry, one dict at a time in the order player, enemy, log, whose NAME or key is the stripped, lower-cased display text |
| Lookup.ResolversDiffer | PokemonLogTracker.py:240-249 | the two resolvers can disagree: a player entry with NAME q wins in `key_from_display`, while an enemy key q wins in `find_exact` |
| Lookup.CollectMembers | PokemonLogTracker.py:324-330 | `collect_matches` keeps exactly the keys whose NAME or key holds q |
| Lookup.CollectMatches | PokemonLogTracker.py:324-330 | `collect_matches`: the keys of one dict whose NAME or key holds q, in insertion order |
| Lookup.Matches | PokemonLogTracker.py:332-337 | the matches of the player history, then the enemy history, then the log, with repeats removed at their first occurrence |
| Lookup.CollectEmpty | PokemonLogTracker.py:324-330 | `collect_matches` is empty exactly when no key of the dict matches |
| Lookup.CollectOrder | PokemonLogTracker.py:326-329 | collected keys keep their insertion order |
| Lookup.MatchesExact | PokemonLogTracker.py:332-337 | the deduplicated matches are exactly the keys that match in some dict, once each |
| Lookup.MatchesEmpty | PokemonLogTracker.py:332-338 | there are no matches exactly when no key of any dict matches |
| Lookup.MatchesHeld | PokemonLogTracker.py:332-337 | every match is a key of one of the dicts |
| Lookup.MatchPosition | PokemonLogTracker.py:332-336 | a key's place among the gathered matches is its place in the first dict it matches in, after the matches of the dicts before it |
| Lookup.MatchPairOrder | PokemonLogTracker.py:332-336 | of two gathered keys, the one gathered first matches in an earlier dict, or at an earlier position of the same dict |
| Lookup.MatchesOrder | PokemonLogTracker.py:332-337 | the deduplicated matches are ordered by the first dict they match in (player, enemy, log), then by insertion order |
| Lookup.ExactIsMatch | PokemonLogTracker.py:312-329 | whatever `find_exact` finds also holds the query as a substring of its NAME or of itself |
| Outcomes.ResolveHolds | PokemonLogTracker.py:322-353 | a resolution to one hit names a key of the dict it names |
| Outcomes.Resolve | PokemonLogTracker.py:322-353 | the exact hit when it has a non-empty key; otherwise no match, several matches, or the single match in the first dict holding it |
| Outcomes.ResolveQuery | PokemonLogTracker.py:312-353 | `Resolve` applied to the query's exact hit and its deduplicated matches |
| Outcomes.Decide | PokemonLogTracker.py:338-391 | no match gives "No matches found.", several give the list, one hit is shown as `ShowHit` says |
| Outcomes.SearchOutcome | PokemonLogTracker.py:303-391 | `search_pokemon` on the stripped, lower-cased text: an empty query is reported, any other is resolved and decided |
| Outcomes.ShowHit | PokemonLogTracker.py:355-391 | a history hit is shown; a log key with a missing or empty entry gives "Not found in current log."; any other log key is settled |
| Outcomes.Settle | PokemonLogTracker.py:366-391 | a log key held by a history is shown from it; otherwise a dismissed dialog cancels and an answer classifies the key into the history it names |
| Outcomes.Pick | PokemonLogTracker.py:259-301 | a missing or empty key is ignored, a history hit is shown, a log key is settled |
| Outcomes.SelectOutcome | PokemonLogTracker.py:251-301 | `on_list_select`: a section label is ignored; other text is resolved by `key_from_display` and picked |
| Outcomes.After | PokemonLogTracker.py:380-391 | the state after an outcome: a classification stores the log entry under its key in the history it names; every other outcome changes nothing |
| Outcomes.ResolveQueryHolds | PokemonLogTracker.py:322-353 | a query resolves to a key of the dict it names |
| Outcomes.ResolveNoMatch | PokemonLogTracker.py:322-340 | a query resolves to nothing exactly when no key of any dict holds it in its NAME or in itself |
| Outcomes.SearchNotFound | PokemonLogTracker.py:338-340 | a non-empty search answers "No matches found." exactly when no key of any dict holds the query in its NAME or in itself |
| Outcomes.ResolveSeveral | PokemonLogTracker.py:341-346 | a list is shown exactly when there is no exact hit and more than one match, and it is those matches |
| Outcomes.DecideSeveral | PokemonLogTracker.py:341-346 | only several matches give a list, and the list is those matches |
| Outcomes.SearchAmbiguous | PokemonLogTracker.py:341-346 | a list comes only without an exact hit and with more than one match; the list is the deduplicated matches, and nothing changes |
| Outcomes.ResolveSingle | PokemonLogTracker.py:347-353 | a single match without an exact hit resolves to the first dict holding it |
| Outcomes.SingleMatchPrecedence | PokemonLogTracker.py:347-353 | a single match is shown from the first of player, enemy, log holding it, so a history takes precedence over the log |
| Outcomes.ResolveExact | PokemonLogTracker.py:322-323 | an exact hit with a non-empty key is taken as it is |
| Outcomes.SearchShowsHistory | PokemonLogTracker.py:355-362 | a search resolved to a history entry shows that entry |
| Outcomes.ShowHitClassifies | PokemonLogTracker.py:355-391 | showing a hit classifies only a log key that is in neither history, into the history the dialog names, and cancels only for such a key when the dialog is dismissed |
| Outcomes.DecideClassifies | PokemonLogTracker.py:355-391 | what a search shows for a resolution classifies or cancels only such a key |
| Outcomes.SearchClassifies | PokemonLogTracker.py:303-391 | a search classifies only a log key that is in neither history, into the history the dialog names, and cancels only for such a key when the dialog is dismissed |
| Outcomes.PickClassifies | PokemonLogTracker.py:258-301 | what a selection does with a resolved key classifies or cancels only such a key |
| Outcomes.SelectClassifies | PokemonLogTracker.py:251-301 | a selection classifies only a log key that is in neither history, into the history the dialog names, and cancels only for such a key when the dialog is dismissed |
| Outcomes.ClassifyKeepsDisjoint | PokemonLogTracker.py:284-301 | a classification keeps the histories key-disjoint and the log unchanged, adds only the key to the chosen history, and stores exactly the log entry |
| Outcomes.AfterKeeps | PokemonLogTracker.py:284-301 | an outcome that classifies only new keys keeps the log and keeps disjoint histories disjoint |
| Outcomes.SearchKeeps | PokemonLogTracker.py:374-391 | a search never changes the log and never puts a key in both histories |
| Outcomes.SelectKeeps | PokemonLogTracker.py:284-301 | a selection never changes the log and never puts a key in both histories |
| Outcomes.ClassifiedThenResolved | PokemonLogTracker.py:312-314 | once classified, a key is found in its history by `find_exact`, and searching for it shows it from there without asking again |
| Outcomes.DecideNotFound | PokemonLogTracker.py:338-340 | "No matches found." comes only from a query with no match |
| Outcomes.DecideLogOnly | PokemonLogTracker.py:355-391 | with both histories empty, what a search shows is never a history entry |
| Outcomes.ClearedFindsLogOnly | PokemonLogTracker.py:408-412 | after the histories are cleared, `find_exact` finds only log keys, and a search never shows a history entry |
| Tracking.Tracker.constructor | PokemonLogTracker.py:15-17 | the tracker starts with the histories as loaded and an empty log |
| Tracking.Tracker.OpenFile | PokemonLogTracker.py:393-406 | the chosen file's parsed lines replace the log; the histories stay as they are; no file changes nothing |
| Tracking.Tracker.ResolveQuery | PokemonLogTracker.py:322-353 | the lookup returns `ResolveQuery(q, State())` and changes nothing |
| Tracking.Tracker.ShowHit | PokemonLogTracker.py:355-391 | showing a hit gives `ShowHit`, and the new state is `After` that outcome |
| Tracking.Tracker.SettleLog | PokemonLogTracker.py:374-391 | settling a log key gives `Settle`; the new state is `After` that outcome; it saves once exactly when it classifies |
| Tracking.Tracker.CopyToHistory | PokemonLogTracker.py:381-382 | the log entry is stored in the chosen history under its key, and the histories are saved |
| Tracking.Tracker.Search | PokemonLogTracker.py:303-391 | a search gives `SearchOutcome`; the new state is `After` that outcome; it saves once exactly when it classifies; it keeps the log and keeps disjoint histories disjoint |
| Tracking.Tracker.Select | PokemonLogTracker.py:251-301 | a selection gives `SelectOutcome`; the new state is `After` that outcome; it saves once exactly when it classifies; it keeps the log and keeps disjoint histories disjoint |
| Tracking.Tracker.ClearHistory | PokemonLogTracker.py:408-412 | once confirmed, both histories are empty and saved; otherwise nothing changes; the log is never touched |

## Left out

- The Tk user interface is not modelled. This covers the window, the list box and `populate_listbox` with its sorted listing. It also covers every text written to the output widget: the rendered entries, the messages and the "Multiple matches found:" list with its labels. The model returns an `Outcome` in place of those writes.
- Themes, settings and the theme editor are UI styling backed by JSON files, and are not modelled.
- `show_pokemon_image` fetches an image over the network, and is not modelled.
- `ask_classification` is a blocking dialog. It is the `Option<Choice>` parameter.
- `load_history` and `save_history` are JSON file I/O. The histories loaded are the constructor's parameters, and each save is counted in the ghost field `saves`. Opening and reading the log file is likewise replaced by its lines.
- Python's `strip`, `lower`, `upper` and `isdigit` are modelled on ASCII only, with no Unicode whitespace, case or digits.
- The startup load of the default log file, when it exists, is the constructor followed by `OpenFile` with the file's lines. Its message boxes are not modelled.
- Entry values are strings. History entries read from JSON may hold any JSON value, and an entry itself need not be a dict. `str(...)` is applied before stripping only in `calculate_bst` (PokemonLogTracker.py:141), `format_full_info` (:152, :156) and `format_enemy_info` (:162-163). The model takes every stored value to be that text already. The lookups call `.strip()` directly on `v.get("NAME", "")`: `key_from_display` at :244 and :247, `find_exact` at :318 and `collect_matches` at :327. So a history entry whose NAME is not a string can make `search_pokemon` and `on_list_select` raise AttributeError when the lookup reaches that entry, and an entry that is not a dict can make them raise at `v.get` in the same way. An exact key hit at :313, for one, returns before any NAME is read. Typing every value as a string leaves out those exceptions.
- `Text.IntLiteral` reads only strings of ASCII digits and '-'. Python's `int()` also accepts a leading '+' and '_' between digits (`int("+5") == 5`, `int("1_000") == 1000`). The guard at PokemonLogTracker.py:142 turns those away before `int()` is called, because `isdigit()` is false for them. Such a stat therefore adds 0 in the source, and it adds 0 in the model too.
- `Text.IntLiteral` and `Text.IntToString` have no limit on the number of digits. CPython 3.11 and later, and the security releases 3.7.14, 3.8.14, 3.9.14 and 3.10.7 onward, refuse to convert between `int` and decimal text beyond 4300 digits. Two effects are not modelled. First, `int(v)` at :142 raises ValueError on a longer stat, :143 catches it, and the field adds 0, where the model adds its value. Second, `str()` of a total over 4300 digits raises ValueError in the BST line at :158, uncaught, where the model renders the line. `Stats.StatOfIsInteger`, `Stats.StatOfInt` and `Text.IntLiteralIntToString` hold for the model's conversions, which agree with Python's on strings of digits and '-' below that limit.
- `key.title()` only gives the dialog's display name, which the dialog parameter makes irrelevant.
- `data.copy()` is a copy of a value here, so aliasing between the log and the histories is not modelled. The model's entries are immutable values, so a later change to one could not show through the other anyway.
- `Tracking.Tracker.ClearHistory`: the dicts are emptied by assigning an empty dict to the field, not by `.clear()` on a shared object. The effect on the tracker's state is the same.
- Histories read from JSON may share keys, because the source does not prevent it. Disjointness is therefore proved as preserved by every operation, not as an invariant that always holds.
