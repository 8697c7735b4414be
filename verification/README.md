# bgg_collection2pdf_stat_plays — a Dafny model of the collection and play-statistics core

The program reads a BoardGameGeek user's collection and logged plays. It
produces printable pages, an index and play statistics. This project models
the parts of `generate_pdf.py` that decide what is fetched, stored, counted
and coloured:

- **Adaptive backoff (`backoff.dfy`).** `bgg_getter` doubles its delay
  (capped at the maximum) on every non-200 answer and resets the success
  counter. On every 15th consecutive success it halves the delay, floored at
  10. The process-wide `config` fields become the class `Backoff.Backoff`.
  The pure functions `AfterFailure`, `AfterSuccess` and `Run` state the rule.
- **Batch resolution (`batch_resolver.dfy`).** The collection walk queues
  every game id without a cached file. It sends a `thing` request whenever
  more than 100 ids are queued, then one last request for the remainder. The
  split step stores each returned item under its own id, either as a file or
  in `config.dict_game_info` under `--no_cache`. The class
  `BatchResolver.GameCache` holds the files, that dictionary and the requests
  sent.
- **Play extraction (`plays.dfy`).** `download_and_store_plays_object_info`
  appends one row per player per play to `playsArrays`, modelled as the class
  `Plays.PlayLog`. It returns the game's last play date.
- **Statistics (`tables.dfy`, `aggregation.dfy`).**
  - A current-period filter.
  - Last-played tables: current, and before the period.
  - Play counts per game, counting distinct sessions.
  - Play counts per (game, player).
  - The two-step victory tally per (game, player).
  - The per-player victory ranking.
  
  Every pandas `pivot_table` with `sum` or `max` is one generic group-by
  (`Tables.GroupSum`, `Tables.GroupMax`). Its result is proved equal to a
  per-group reference sum or maximum.
- **Meeple colours (`meeples.dfy`).** The shared name→colour dictionary and
  the list of free colours, used by the ranking loop and the per-game result
  loops. Modelled as the class `Meeples.MeepleColors`.
- **Index and entry helpers (`game_index.dfy`).**
  - `get_links` and `get_value_in_list`.
  - The choice of two, three or four mechanics that fit the line.
  - The duration text.
  - `gather_index_info`, which fills the player-count and category buckets
    (the class `GameIndex.IndexBuckets`).
- **Shared support.** `wrappers.dfy` holds `Option` and `Result`. `lex.dfy`
  holds Python's ordering on strings, which is how dates (`YYYY-MM-DD`) are
  compared.

At these points the code differs from what its options suggest (the
`--minsleep` help at line 152 calls it the minimum sleep); the model follows
the code:

- **Halving floor.** The floor applied when the delay is halved is the
  literal 10, not the configured `--minsleep`. With `--maxsleep` below 10, a
  halving can therefore raise the delay above the maximum
  (`Backoff.HalvingCanExceedMaximum`). A minimum above 10 is ignored
  (`Backoff.HalvingIgnoresMinimum`).
- **Success counter.** Halving does not reset the counter. The test is
  `successful_responses % 15 == 0`, so the delay halves again every further
  15 successes.
- **Batch size.** A request is sent when more than 100 ids are queued, so a
  full request carries 101 ids.
- **Index range.** The player-count index uses `range(min, max)`, which
  excludes the maximum player count.
- **Ranking.** The ranking sums the raw `Victory` column. It is not weighted
  by `Quantity` as the per-game tallies are.

## Model

| member | source | states |
|---|---|---|
| Backoff.Min | generate_pdf.py:131 | Python's `min` of two numbers, which returns the first unless the second is strictly smaller (a definition; AfterFailure states its property) |
| Backoff.Max | generate_pdf.py:137 | Python's `max` of two numbers, which returns the first unless the second is strictly larger (a definition; AfterSuccess states its property) |
| Backoff.AfterFailure | generate_pdf.py:122-132 | a non-200 answer resets the success counter; the new delay is the doubled delay or the maximum, whichever is smaller |
| Backoff.AfterSuccess | generate_pdf.py:134-137 | a 200 answer adds one to the counter; the delay is unchanged unless the counter reaches a multiple of 15, when it becomes half the delay or 10, whichever is larger |
| Backoff.ConsecutiveFailures | generate_pdf.py:129-132 | after k ≥ 1 failures in a row the delay is min(max, d·2^k) and the counter is 0 |
| Backoff.WaitsDouble | generate_pdf.py:128-131 | the sleeps of a failure streak are d, then min(max, d·2^j) for the j-th retry |
| Backoff.SuccessesBeforeHalving | generate_pdf.py:134-135 | fewer than 15 successes after a multiple of 15 leave the delay unchanged and count up |
| Backoff.FifteenSuccessesHalve | generate_pdf.py:134-137 | 15 successes from a multiple of 15 halve the delay once, floored at 10; the counter is not reset |
| Backoff.RunStaysInBand | generate_pdf.py:130-137 | no sequence of answers takes the delay out of (0, max(maxDelay, 10)] |
| Backoff.HalvingCanExceedMaximum | generate_pdf.py:134-137 | with a configured maximum below 10, every success that brings the counter to a multiple of 15 leaves a delay above that maximum |
| Backoff.HalvingIgnoresMinimum | generate_pdf.py:134-137 | with a configured minimum above 10, every halving of a delay below twice that minimum leaves a delay below the minimum |
| Backoff.Step | generate_pdf.py:121-137 | one answer: AfterSuccess for a 200, AfterFailure otherwise (a definition; its properties are those of the two branches) |
| Backoff.Run | generate_pdf.py:112-138 | the state after a sequence of answers, one Step each (a definition; ConsecutiveFailures, SuccessesBeforeHalving, FifteenSuccessesHalve and RunStaysInBand state its properties) |
| Backoff.FirstOk | generate_pdf.py:112-121 | the position of the first 200: it is a 200 and no earlier answer is |
| Backoff.FirstOkAt | generate_pdf.py:112-121 | a 200 at or before the first 200 is the first 200 |
| Backoff.FailureStep | generate_pdf.py:127-132 | one more failure extends the streak state by AfterFailure and the waits by the delay held before it |
| Backoff.Backoff.FailedAttempt | generate_pdf.py:122-132 | the non-200 branch within a streak of n failures: the state is that after n + 1 failures and the wait is appended to the n earlier ones |
| Backoff.Backoff.constructor | generate_pdf.py:57-58 | the delay starts at the configured minimum (the `--minsleep` value, 10 by default) and the cap is the configured maximum; the counter starts at 0 (line 30) |
| Backoff.Backoff.OnFailure | generate_pdf.py:128-132 | sleeps the delay held before the update; the new state is AfterFailure of the old one, at most the maximum, counter 0 |
| Backoff.Backoff.OnSuccess | generate_pdf.py:134-137 | the new state is AfterSuccess of the old one |
| Backoff.Backoff.Get | generate_pdf.py:112-138 | the loop stops at the first 200; no earlier answer was 200; the sleeps are the failure-streak waits; the final state is one success after the streak |
| BatchResolver.Visit | generate_pdf.py:425-435 | one collection item: its id joins the pending set unless it has a file, and more than 100 pending ids are sent as one request (a definition; VisitQueued states its property) |
| BatchResolver.Scan | generate_pdf.py:424-435 | the walk over the collection, one Visit per item (a definition; ScanSizes, ScanQueued, ScanOnDisk, ScanCount and ScanDisjoint state its properties) |
| BatchResolver.Batches | generate_pdf.py:423-438 | the requests of the walk followed by the remainder request when ids are left (a definition; BatchesRequestExactlyUncached, BatchSizes and BatchCount state its properties) |
| BatchResolver.Stored | generate_pdf.py:388-395 | the split step: each item stored under its own id, a later one replacing an earlier one (a definition; StoredUnderOwnId states its property) |
| BatchResolver.ScanSizes | generate_pdf.py:432-435 | during the walk at most 100 ids are pending, and every request sent holds exactly 101 |
| BatchResolver.ScanQueued | generate_pdf.py:424-435 | during the walk the pending ids together with the requested ones are exactly the walked ids that had no file at the start |
| BatchResolver.VisitQueued | generate_pdf.py:427-435 | one step of the walk adds the id to the pending or requested ids exactly when it had no file at the start |
| BatchResolver.ScanOnDisk | generate_pdf.py:427 | the ids with a file are the initial ones plus, when caching, every id requested |
| BatchResolver.ScanCount | generate_pdf.py:432-435 | with distinct ids, 101 × requests + pending = number of uncached ids |
| BatchResolver.ScanDisjoint | generate_pdf.py:424-435 | with distinct ids, no id is in two requests or in a request and the pending set |
| BatchResolver.BatchesRequestExactlyUncached | generate_pdf.py:423-438 | the ids requested are exactly the collection's ids without a cached file |
| BatchResolver.BatchSizes | generate_pdf.py:432-438 | every request but the last holds 101 ids; every request is non-empty and holds at most 101; the remainder request of lines 436-438 holds at most 100 |
| BatchResolver.BatchCount | generate_pdf.py:432-438 | with distinct ids, n uncached ids take ⌈n/101⌉ pairwise disjoint requests |
| BatchResolver.StoredUnderOwnId | generate_pdf.py:388-395 | the split step adds exactly the returned ids as keys, each holding an item with that id, and leaves other keys unchanged |
| BatchResolver.Answer | generate_pdf.py:387 | the upstream's items for the joined ids, one per id, in the joined order (a definition; StoredAnswer states its property) |
| BatchResolver.StoredAnswer | generate_pdf.py:387-395 | storing the answer to a request adds exactly the requested ids with their items |
| BatchResolver.JoinOrder | generate_pdf.py:387 | the joined id list holds each pending id exactly once |
| BatchResolver.Filled | generate_pdf.py:389-395 | the requested items written to the game files, or to the game-info dictionary under `--no_cache` (a definition; FilledFiles and Flushed state its properties) |
| BatchResolver.FilledFiles | generate_pdf.py:389-395 | the split step adds the ids as files, or adds no file under `--no_cache` |
| BatchResolver.Flushed | generate_pdf.py:434-435 | storing requests one after another equals storing their union |
| BatchResolver.GameCache.constructor | generate_pdf.py:33 | the game-info dictionary starts empty and no request has been sent |
| BatchResolver.GameCache.DownloadAndSplit | generate_pdf.py:386-395 | one request is recorded; the store in use gains exactly the requested items |
| BatchResolver.GameCache.VisitItem | generate_pdf.py:425-435 | one step of the walk: the pending set, the requests and the stores follow Visit |
| BatchResolver.GameCache.Walk | generate_pdf.py:424-435 | the loop: the pending set it leaves is Scan's, the requests it sent are Scan's full batches, and the stores gained exactly their items |
| BatchResolver.GameCache.FindAndDownloadNew | generate_pdf.py:423-438 | the requests sent are Batches(collection); the stores hold exactly their union's items on top of the old ones |
| Plays.PlayRows | generate_pdf.py:404-416 | all rows of a game's plays, in document order (a definition; PlayRowsAppend, PlayRowsFromPlays and PlayRowsCoverPlayers state its properties) |
| Plays.LastPlayed | generate_pdf.py:402-421 | the running maximum of the dates of the plays that produce rows, from "" (a definition; LastPlayedIsMaxOfRows states its property) |
| Plays.RowOf | generate_pdf.py:410-416 | a row carries the game id, the item name, the play's id, date and quantity, and the player's name and win flag |
| Plays.RowsOf | generate_pdf.py:408-416 | one row per player, in document order |
| Plays.PlayRowsAppend | generate_pdf.py:404-416 | extracting concatenated plays concatenates their rows, so document order is kept |
| Plays.PlayRowsFromPlays | generate_pdf.py:404-416 | every row comes from a player of a play that has a `<players>` child |
| Plays.PlayRowsCoverPlayers | generate_pdf.py:405-416 | every player of every such play gets its row |
| Plays.LastPlayedIsMaxOfRows | generate_pdf.py:402-421 | the returned date is the greatest date of the rows produced, and "" when there are none |
| Plays.RowsStep | generate_pdf.py:404-416 | the rows of one more play come after the rows of the plays before it |
| Plays.LastStep | generate_pdf.py:418-419 | one more play raises the last date only if it has players and a later date |
| Plays.ExtendByOne | generate_pdf.py:404-419 | the accumulated rows and last date after k plays, updated by play k, are those after k + 1 plays |
| Plays.PlayLog.constructor | generate_pdf.py:568 | the row log starts empty |
| Plays.PlayLog.StorePlayers | generate_pdf.py:407-419 | appends one row per player; the date is raised iff there is a player and it is later |
| Plays.PlayLog.StorePlay | generate_pdf.py:405-419 | one `<play>`: appends its players' rows (none without a `<players>` child) and raises the last date only if it emits rows with a later date |
| Plays.PlayLog.DownloadAndStorePlays | generate_pdf.py:397-421 | appends exactly PlayRows(plays) and returns LastPlayed(plays) |
| Tables.Groups | generate_pdf.py:682 | the distinct-index step: no key is listed twice (GroupsSpec states that exactly the keys of the rows are listed) |
| Tables.Upsert | generate_pdf.py:683 | one row folded into a pivot table: combined into its key's entry, or appended as a new entry (a definition; UpsertFind states its property) |
| Tables.GroupSum | generate_pdf.py:683 | a `sum` pivot table built by one Upsert per row (a definition; GroupSumSpec states its property) |
| Tables.GroupMax | generate_pdf.py:677 | a `max` pivot table built by one Upsert per row (a definition; GroupMaxSpec states its property) |
| Tables.Find | generate_pdf.py:677 | a lookup in a grouped table succeeds iff the key is present, and returns a value stored under that key |
| Tables.FindDistinct | generate_pdf.py:677 | with one entry per key, each entry is what the lookup of its key returns |
| Tables.GroupsSpec | generate_pdf.py:682 | the distinct-index step keeps exactly the keys of the rows, each once |
| Tables.UpsertFind | generate_pdf.py:683 | one aggregation step changes only its key: combined, or inserted when absent |
| Tables.GroupSumSpec | generate_pdf.py:683 | a summing pivot table has one entry per key present, holding the sum over that key's rows |
| Tables.GroupSumWeighted | generate_pdf.py:691-693 | regrouping a summed table by a coarser key, weighted by the key, equals aggregating the rows directly |
| Tables.SumWhereAppend | generate_pdf.py:683 | a group sum over a concatenation is the sum of the parts |
| Tables.MaxWhereSpec | generate_pdf.py:677 | a group's maximum exists iff the group is non-empty; it is attained and bounds every member |
| Tables.GroupMaxSpec | generate_pdf.py:677 | a `max` pivot table has one entry per key present, holding that key's maximum |
| Tables.SortDesc | generate_pdf.py:701 | the sorted table is non-increasing by value and a permutation of the input |
| Tables.SortDescEntries | generate_pdf.py:701 | sorting keeps exactly the entries of the table |
| Tables.SortDescKeys | generate_pdf.py:701 | sorting keeps exactly the keys of the table |
| Tables.PermutationDistinct | generate_pdf.py:701 | a permutation of a table with one entry per key has one entry per key |
| Tables.SortDescDistinct | generate_pdf.py:701 | sorting a table with one entry per key keeps one entry per key |
| Aggregation.InPeriod | generate_pdf.py:675 | keeps exactly the rows dated on or after the period start, each as many times as it occurs |
| Aggregation.LastPlays | generate_pdf.py:677 | one entry per game, holding the game's latest date |
| Aggregation.LastPlaysCurrent | generate_pdf.py:675-677 | the last-played table of the rows in the period (a definition; CurrentPeriodTable states its property) |
| Aggregation.LastPlaysBefore | generate_pdf.py:679-680 | the overall last-played table, filtered to dates before the period (a definition; BeforePeriodTable states its property) |
| Aggregation.Earlier | generate_pdf.py:680 | keeps exactly the entries dated before the start |
| Aggregation.FindEarlier | generate_pdf.py:679-680 | the filter keeps or drops each game's entry whole |
| Aggregation.CurrentPeriodTable | generate_pdf.py:675-677 | a game is in the current table iff it has a row in the period; the value is the latest such date |
| Aggregation.BeforePeriodTable | generate_pdf.py:679-680 | a game is in the "before" table iff all its rows predate the period; the value is its overall latest date |
| Aggregation.PeriodPartition | generate_pdf.py:675-680 | every game with rows is in exactly one of the two last-played tables |
| Aggregation.PlaysPerGame | generate_pdf.py:688-689 | one entry per played game, holding the sum of quantities over its distinct (play id, quantity) sessions |
| Aggregation.RepeatedSessionAddsNothing | generate_pdf.py:688 | a further participant's row of a counted session changes no total |
| Aggregation.NewSessionUpserts | generate_pdf.py:688-689 | a row of a new session is one more session folded into the per-game table: its game's total is raised by its quantity |
| Aggregation.NewSessionGroups | generate_pdf.py:688 | a row of a new session appends that session to the distinct sessions |
| Tables.UpsertPlus | generate_pdf.py:689 | adding a quantity under a key raises that key's total by it (from 0 when new) and leaves every other key's total unchanged |
| Aggregation.PlaysPerGameCurrent | generate_pdf.py:682-683 | PlaysPerGame of the rows in the period (a definition; PlaysPerGame and InPeriod state its properties) |
| Aggregation.PlaysPerPlayerCurrent | generate_pdf.py:685 | PlaysPerPlayer of the rows in the period (a definition; PlaysPerPlayer and InPeriod state its properties) |
| Aggregation.PlaysPerPlayer | generate_pdf.py:685-686 | one entry per (game, player) pair with rows, holding the sum of their quantities |
| Aggregation.WinsPerQuantity | generate_pdf.py:695 | raw `Victory` summed per (game, player, quantity), the first step of both tallies (also line 691) (a definition; WinsPerQuantityPlayers and TwoStepTally state its properties) |
| Aggregation.WinsPerQuantityPlayers | generate_pdf.py:695 | the intermediate win table has a player iff the player has rows |
| Aggregation.TwoStepTally | generate_pdf.py:695-697 | the two-step tally for a (game, player) pair is the sum of Quantity × Victory over its rows |
| Aggregation.VictoryPlays | generate_pdf.py:695-697 | one entry per (game, player) pair with rows, holding the sum of Quantity × Victory |
| Aggregation.VictoryPlaysCurrent | generate_pdf.py:691-693 | VictoryPlays of the rows in the period (a definition; CurrentTallyPlayers states its property) |
| Aggregation.CurrentTallyPlayers | generate_pdf.py:691-693 | a pair is in the current tally iff it has a row in the period |
| Aggregation.GameTally | generate_pdf.py:695-697 | summed over one game's players, the tally is the sum of Quantity × Victory over the game's rows |
| Aggregation.Ranking | generate_pdf.py:700-701 | one entry per player name that appears, holding the sum of raw Victory; no name twice; sorted non-increasing |
| Aggregation.RankedNames | generate_pdf.py:700-701 | a player name is ranked exactly when it has a row |
| Meeples.Assign | generate_pdf.py:719-726 | a known name leaves the state unchanged; a new name gets the head of the free list, which loses exactly that head, or white when the list is empty; no other name changes |
| Meeples.AssignAll | generate_pdf.py:716-728 | the loop over the names, one Assign each (a definition; AssignAllKeys, AssignAllAvailable and AssignAllColours state its properties) |
| Meeples.FirstIndex | generate_pdf.py:716-719 | the position of a name's first occurrence: it holds the name and no earlier position does |
| Meeples.NewNames | generate_pdf.py:716-719 | exactly the names not yet coloured, each once, ordered by the position of their first occurrence |
| Meeples.NewNamesOrderStep | generate_pdf.py:716-719 | one more name keeps the new names in first-appearance order |
| Meeples.AssignAllKeys | generate_pdf.py:716-728 | a run of names adds exactly those names and leaves existing colours alone |
| Meeples.AssignAllAvailable | generate_pdf.py:720-722 | the free list loses one head per new name until it runs out |
| Meeples.AssignAllColours | generate_pdf.py:719-726 | the j-th new name gets the j-th free colour, or white past the end of the list |
| Meeples.FromStart | generate_pdf.py:710-728 | from the initial state, the first eight new names get the palette in order and later ones get white |
| Meeples.FirstColoursDistinct | generate_pdf.py:711 | the first eight new names get pairwise different colours |
| Meeples.Names | generate_pdf.py:716-717 | the player names of the ranking, in table order |
| Meeples.MeepleColors.constructor | generate_pdf.py:710-711 | no name is coloured; all eight colours are free |
| Meeples.MeepleColors.ColorFor | generate_pdf.py:791-800 | the state becomes Assign(old state, name); returns the name's colour, unchanged if it was already coloured |
| Meeples.MeepleColors.AssignRanking | generate_pdf.py:716-728 | the state becomes AssignAll(old state, names of the ranking in order) |
| GameIndex.GetLinks | generate_pdf.py:184-191 | keeps exactly the links of the type |
| GameIndex.GetLinksAppend | generate_pdf.py:187-190 | selection keeps document order |
| GameIndex.GetLinksOfOneKind | generate_pdf.py:187-190 | a list of one type selects to itself |
| GameIndex.GetLinksIdempotent | generate_pdf.py:184-191 | selecting twice is selecting once |
| GameIndex.ValueAt | generate_pdf.py:168-172 | the `value` of the i-th link, None past the end (a definition; TagOfType states its property) |
| GameIndex.MechanicsListMaxLength | generate_pdf.py:209-213 | 65 characters in card mode, 75 otherwise (a definition; MechanicsTextBound states its property) |
| GameIndex.OrEmpty | generate_pdf.py:99-100 | `x or ""`: the name, or "" when absent (a definition; PrefixLengths states its property) |
| GameIndex.ThreeLength | generate_pdf.py:99 | the length of the first three names concatenated, absent ones as "" (a definition; PrefixLengths states its property) |
| GameIndex.FourLength | generate_pdf.py:100 | the length of the four names concatenated, absent ones as "" (a definition; PrefixLengths states its property) |
| GameIndex.Mechanics | generate_pdf.py:92-95 | exactly four slots, `mechanic1` to `mechanic4`; slot i is ValueAt of the mechanic links at i, and TagOfType states what it holds |
| GameIndex.ChooseMechanics | generate_pdf.py:242-247 | four mechanics if they fit, else three if they fit, else two (a definition; ChoiceIsLongestFit states its property) |
| GameIndex.NonEmpty | generate_pdf.py:249 | the `if item` filter: at most as many parts as slots, none empty (NonEmptyLength states that no character is lost) |
| GameIndex.Join | generate_pdf.py:249 | `",".join` (a definition; JoinLength and SplitJoin state its properties) |
| GameIndex.MechanicsText | generate_pdf.py:249 | the kept mechanics without absent or empty names, joined by commas (a definition; MechanicsTextBound and MechanicsTextFields state its properties) |
| GameIndex.Duration | generate_pdf.py:251 | the duration text (a definition; DurationSpec states its property) |
| GameIndex.AppendUnder | generate_pdf.py:443-451 | appends the game to the bucket of each key in turn, creating missing buckets (a definition; AppendUnderSpec states its property) |
| GameIndex.TagOfType | generate_pdf.py:168-172 | the i-th tag is absent iff there are at most i links of the type; otherwise it is the value of one of them |
| GameIndex.PrefixLengths | generate_pdf.py:99-100 | the three- and four-mechanics lengths are the lengths of the concatenated present names |
| GameIndex.ChoiceIsLongestFit | generate_pdf.py:242-247 | keeps a prefix of two to four mechanics; three or four are kept only if they fit, and the next longer prefix would not fit |
| GameIndex.JoinLength | generate_pdf.py:249 | the joined text is the parts plus one comma between neighbours |
| GameIndex.Split | generate_pdf.py:249 | an independent reading of a comma-joined text: always at least one field, a comma closing the current field |
| GameIndex.SplitSnoc | generate_pdf.py:249 | a character other than a comma extends the last field |
| GameIndex.SplitComma | generate_pdf.py:249 | a comma opens a new, empty field |
| GameIndex.SplitAppendPlain | generate_pdf.py:249 | comma-free text extends the last field by exactly that text |
| GameIndex.SplitJoinStep | generate_pdf.py:249 | a comma and one more comma-free part add that part as one more field |
| GameIndex.SplitJoin | generate_pdf.py:249 | reading back the join of one or more comma-free parts gives exactly the parts, in order |
| GameIndex.NonEmptyLength | generate_pdf.py:249 | dropping absent and empty names loses no characters |
| GameIndex.MechanicsTextBound | generate_pdf.py:209-213 | with three or four kept, the text is at most the mode's limit (65 in card mode, 75 otherwise) plus three |
| GameIndex.MechanicsTextFields | generate_pdf.py:242-249 | when at least one kept name is present and none holds a comma, the text's comma-separated fields are exactly the kept names, in order |
| GameIndex.ParseNat | generate_pdf.py:251 | `int()` on a string of ASCII digits; None where the model reports Python's error (a definition; DurationSpec states its property) |
| GameIndex.DurationSpec | generate_pdf.py:251 | fails iff a bound is not a number; otherwise starts with the minimum and shows a range iff min < max |
| GameIndex.Range | generate_pdf.py:442 | lo, lo+1, …, hi−1, empty when hi ≤ lo |
| GameIndex.AppendUnderSpec | generate_pdf.py:443-451 | new buckets are created exactly for the new keys; each bucket gains the game once per occurrence of its key |
| GameIndex.RangeCount | generate_pdf.py:442 | each count in [min, max) occurs once; no other count occurs |
| GameIndex.IndexBuckets.constructor | generate_pdf.py:31-32 | both index dictionaries start empty |
| GameIndex.IndexBuckets.GatherIndexInfo | generate_pdf.py:441-451 | the game is appended under each count of range(min, max) and under each of its categories |
| GameIndex.IndexBuckets.AddToPlayerCounts | generate_pdf.py:442-445 | the first loop, leaving the category buckets unchanged |
| GameIndex.IndexBuckets.AddToCategories | generate_pdf.py:447-451 | the second loop, leaving the player-count buckets unchanged |
| GameIndex.PlayerCountBuckets | generate_pdf.py:442-445 | the counts from min up to but excluding max each gain the game once at the end; every other bucket is unchanged |
| Lex.Less | generate_pdf.py:418 | Python's `<` on strings: code-point lexicographic, with a proper prefix smaller (a definition; LessIrreflexive, LessAsymmetric, LessTransitive and LessTotal state its properties) |
| Lex.LessEq | generate_pdf.py:675 | Python's `<=` on strings, which the `>=` filter uses with its operands swapped (a definition; LessEqTransitive and NotLessIsGreaterEq state its properties) |
| Lex.LessIrreflexive | generate_pdf.py:418 | no string is less than itself |
| Lex.LessAsymmetric | generate_pdf.py:418 | if a < b then not b < a |
| Lex.LessTransitive | generate_pdf.py:418 | a < b and b < c give a < c |
| Lex.LessTotal | generate_pdf.py:418 | any two strings are equal or one is less than the other |
| Lex.EmptyIsLeast | generate_pdf.py:402 | "", the starting value of the last-played date, is at most every string |
| Lex.LessEqTransitive | generate_pdf.py:675 | <= is transitive |
| Lex.NotLessIsGreaterEq | generate_pdf.py:680 | not a < b exactly when b <= a, so the `<` filter at line 680 and the `>=` filter at line 675 split the dates |
| Lex.Max | generate_pdf.py:677 | the greater of two strings, as the `max` aggregation picks it: at least both arguments and equal to one of them |

## Left out

- GameIndex.MechanicsTextFields requires comma-free names. The source does not escape commas, so a mechanic name that holds a comma cannot be told apart from two names in the joined text.
- HTTP, `sleep` and the 0.3 s pause are not modelled. The upstream's answers are a sequence of status codes (`Backoff.Backoff.Get`) or a catalogue function from id to item (`BatchResolver`).
- Backoff.Backoff.Get requires a 200 somewhere in the answers. The source loops forever otherwise, and the model does not express non-termination.
- Backoff.Backoff.Get: the source parses every non-200 body as XML at line 123, outside the `try` of lines 124-127, so a non-200 answer whose body is not XML raises there; the model retries instead. The message extracted from an XML body only feeds logging and is not modelled.
- XML parsing is not modelled. Elements arrive already decoded: `Thing`, `Play`, `Player` and `Link`.
- BatchResolver.GameCache.DownloadAndSplit requires that the upstream answers with one item per requested id, in order, each carrying the id it was requested under. An omitted id is not modelled: when caching it gets no file and is fetched again one at a time at lines 587-596; under `--no_cache` it gets no dictionary entry and the lookup at line 598 raises `KeyError`. The same lookup raises for an id that already had a file from an earlier cached run, because under `--no_cache` such an id is never requested (BatchResolver.BatchesRequestExactlyUncached) yet the file is not read (line 584).
- `int()` conversion of the play columns and `astype` (lines 660-665) are not modelled: rows hold integers. Malformed numbers, which raise in Python, are not modelled.
- GameIndex.ParseNat accepts ASCII digits only. Python's `int` also accepts surrounding whitespace, a sign, underscores and non-ASCII Unicode decimal digits (Arabic-Indic digits, for example), and those inputs are reported as errors here.
- GameIndex.IndexBuckets.GatherIndexInfo takes the player counts already converted to integers.
- File contents, paths and the Excel cache of plays are not modelled. A cached file is a key of the `files` map.
- Output is not modelled: HTML templates, the Excel workbook, matplotlib charts, text wrapping, and the rating and weight computations, which use floating point.
- Argument parsing, `clean_up`, username validation and logging are not modelled.
- `datetime.now()` is not modelled: the start of the current period is a parameter.
- pandas orders the rows of a pivot table by key. Here a table keeps first-appearance order, and the properties are stated per key through `Tables.Find`, so they do not depend on the order.
- Tables.SortDesc: the order between equal sums is unspecified, because the source's sort is not stable.
- Aggregation.GameTally states the per-game total of the victory tally. The per-(game, player) total is stated by Aggregation.TwoStepTally, and nothing is stated for the intermediate per-quantity table beyond Aggregation.WinsPerQuantityPlayers.
- Meeples: the colour list's `remove(color)` always removes the head, because the removed colour is the head and the palette has no repeats. It is modelled as dropping the head.
