# Football championship core, modelled in Dafny

The program keeps football teams (`Time`) and matches (`Partida`) in memory. It derives a
standings table from them. This project models its sequential core:

- The generic singly linked list (`LinkedLists`). It is a class with `first`, `last` and
  `size` over a chain of nodes, with a ghost sequence of payloads and a ghost footprint.
- The divergences of the earlier list copy (`EarlyLinkedLists`): the unsigned index of
  `llGet`, and the `last` pointer that `llRemoveFirstFound` leaves behind.
- The team record (`TimeModel`) and the match record (`PartidaModel`), as classes whose
  setters change their fields.
- The team repository (`TimeRepo`): sequential ids, the 11-byte search prefix, prefix
  searches and lookup by id.
- The match repository (`PartidaRepo`): the single-slot insert journal with commit and
  rollback, the validation order of `addPartida`, the three prefix searches and lookup by id.
  `EarlyPartidaRepo` holds the earlier copy's commit.
- The per-team statistics of the team view (`TeamStats`): win, draw and loss counts, goals,
  points and balance.
- The paginated classification table (`Classification`): loading one record per team,
  the sort by points, the page arithmetic and the page-prompt loop.
- The match removal view (`RemoveMatchView`): removal by id through `removePredicate`, and
  who frees which list.

The C globals become explicit state:

- `prefixSearch`, `timeIDSearch`, `partidaIDSearch` and `partidaJournal` are fields of the
  repository objects.
- `gContext` and `gCalcContext` are passed in and returned by the view methods.

Other modelling choices:

- A NULL list, team or match is a `null` reference. A NULL payload or callback is `None`.
- A failing `malloc` is a boolean parameter (`memOk`, or the `Allocs` functions), so every
  allocation failure path is modelled.
- Callbacks are Dafny functions. The comparator `Order` and `TIME_MAX_NAME_SIZE = 11` keep
  their C values.
- `llFullFree` returns the payloads it hands to the destructor. It marks the header as
  released once its nodes are gone.

The `scripts/` tree is the maintained copy. The views of `src/views/` include the earlier
`src/` list and repositories. The model's views run on the maintained ones:

- Their searches, lookups and appends behave the same.
- The one divergence that matters is the earlier `llRemoveFirstFound` (see Findings). The
  removal view is modelled on the corrected removal.

## Model

| member | source | states |
|---|---|---|
| Types.OrderValue | scripts/shared/types.h:89 | The comparator results are -1, 0 and 1: negative exactly for less_than, zero exactly for equal, positive exactly for greater_than. |
| CStrings.CStr | scripts/src/repo/TimeDB.c:131-138 | The C string held in an array is a NUL-free prefix of it, followed by a NUL when it is shorter than the array. |
| LinkedLists.LinkedList.constructor | scripts/src/collections/LinkedList.c:41-43 | A new header has first = last = NULL and size 0, and describes the empty list. |
| LinkedLists.NewLinkedList | scripts/src/collections/LinkedList.c:35-46 | NULL exactly when the allocation fails; otherwise a fresh valid empty list with first = last = NULL and size 0. |
| LinkedLists.Filter | scripts/src/collections/LinkedList.c:294-301 | The filtered sequence is never longer than the source. |
| LinkedLists.FilterMember | scripts/src/collections/LinkedList.c:294-301 | An element is in the filter result iff it is in the list and satisfies the callback. |
| LinkedLists.FilterAllOrNone | scripts/src/collections/LinkedList.c:294-301 | A callback true everywhere keeps the whole list; one false everywhere keeps nothing. |
| LinkedLists.FilterIsSelect | scripts/src/collections/LinkedList.c:294-301 | Filtering equals keeping the elements whose callback value, taken beforehand, is true. |
| LinkedLists.RemoveFirstAt | scripts/src/collections/LinkedList.c:367-383 | When the first element satisfying the callback is at k, removal leaves the list without exactly position k. |
| LinkedLists.RemoveFirstNone | scripts/src/collections/LinkedList.c:367-388 | When no element satisfies the callback, removal leaves the list as it was. |
| LinkedLists.Append | scripts/src/collections/LinkedList.c:57-67 | llAddN keeps the header valid and appends the payload after the earlier ones, which are unchanged. |
| LinkedLists.Add | scripts/src/collections/LinkedList.c:82-98 | True iff the list and the payload are non-NULL and the node is allocated; then the payload is appended; otherwise nothing changes. |
| LinkedLists.SAdd | scripts/src/collections/LinkedList.c:114-119 | The same outcome as llAdd in every case, including the NULL payload. |
| LinkedLists.GetAt | scripts/src/collections/LinkedList.c:136-146 | The node at the index, or the first node for a negative index, whose loop never runs. |
| LinkedLists.Get | scripts/src/collections/LinkedList.c:160-175 | NULL for a NULL list or index >= size; element i for 0 <= i < size; the first element, or NULL on an empty list, for a negative index. |
| LinkedLists.GetLast | scripts/src/collections/LinkedList.c:188-193 | NULL for a NULL list. |
| LinkedLists.GetLastIsLast | scripts/src/collections/LinkedList.c:188-193 | On a valid list llGetLast gives the last element, and NULL exactly when the list is empty. |
| LinkedLists.IsEmpty | scripts/src/collections/LinkedList.c:207-212 | False for a NULL list. |
| LinkedLists.IsEmptyIffNoElements | scripts/src/collections/LinkedList.c:207-212 | On a valid list llIsEmpty holds iff the list has no elements. |
| LinkedLists.GetSize | scripts/src/collections/LinkedList.c:519-524 | -1 for a NULL list. |
| LinkedLists.GetSizeCounts | scripts/src/collections/LinkedList.c:519-524 | On a valid list llGetSize is the number of elements. |
| LinkedLists.SearchAll | scripts/src/collections/LinkedList.c:287-304 | Non-NULL iff the list, the callback and the memory are there; then a fresh valid list of exactly the elements satisfying the callback, in order, sharing the payloads. |
| LinkedLists.SelectInto | scripts/src/collections/LinkedList.c:294-301 | The loop appends exactly the elements whose callback value is true, in order, to a fresh list. |
| LinkedLists.Foreach | scripts/src/collections/LinkedList.c:315-322 | The callback is applied to each element in list order; nothing happens for a NULL list or callback. |
| LinkedLists.FindFirst | scripts/src/collections/LinkedList.c:336-346 | The earliest element satisfying the callback, or NULL when none does or for a NULL list or callback. |
| LinkedLists.FindNode | scripts/src/collections/LinkedList.c:367-386 | The walk stops at the first satisfying node, with b its predecessor; it runs off the end exactly when none satisfies. |
| LinkedLists.Unlink | scripts/src/collections/LinkedList.c:368-381 | Unlinking node k keeps the header valid and removes exactly position k from nodes and contents. |
| LinkedLists.UnlinkFirst | scripts/src/collections/LinkedList.c:369-373 | Unlinking the head moves first on and clears last when the list becomes empty. |
| LinkedLists.UnlinkAfter | scripts/src/collections/LinkedList.c:374-378 | Unlinking a later node relinks its predecessor, which becomes last when the tail was removed. |
| LinkedLists.RemoveFirstFound | scripts/src/collections/LinkedList.c:361-389 | True iff some element satisfies the callback; exactly the first such element leaves the list, which stays valid; a NULL list or callback changes nothing. |
| LinkedLists.RemoveFirstMatch | scripts/src/collections/LinkedList.c:367-388 | The search and unlink of llRemoveFirstFound remove exactly the first satisfying element. |
| LinkedLists.SwapIfGreater | scripts/src/collections/LinkedList.c:414-418 | One comparison leaves a permutation of the payloads. |
| LinkedLists.InnerStep | scripts/src/collections/LinkedList.c:413-418 | One step of the inner loop keeps the sorting invariant of the all-pairs exchange. |
| LinkedLists.SwapData | scripts/src/collections/LinkedList.c:415-417 | The payloads of nodes i and j are exchanged; the nodes and the footprint stay. |
| LinkedLists.CompareAndSwap | scripts/src/collections/LinkedList.c:414-418 | The payloads are swapped exactly when the comparator says greater_than. |
| LinkedLists.SortPass | scripts/src/collections/LinkedList.c:413-418 | One outer pass keeps a permutation and extends the sorted prefix by one. |
| LinkedLists.BubbleSort | scripts/src/collections/LinkedList.c:404-421 | False only for a NULL list or comparator; the nodes stay and the payloads are a permutation of the old ones; for a comparator consistent with a key they end greatest-first. |
| LinkedLists.CopyLimit | scripts/src/collections/LinkedList.c:489-492 | The copy runs to end inclusive, or stops at the size. |
| LinkedLists.CopyOneMore | scripts/src/collections/LinkedList.c:493-499 | One loop step links one fresh node holding the next payload after the tail. |
| LinkedLists.CopyNodes | scripts/src/collections/LinkedList.c:477-500 | The two loops copy the payloads from start to end inclusive, or to the last index. |
| LinkedLists.StartCopy | scripts/src/collections/LinkedList.c:473-488 | The new header holds one fresh node with the payload at start. |
| LinkedLists.CopyRest | scripts/src/collections/LinkedList.c:489-500 | The second loop appends the copies after node i up to the copy limit. |
| LinkedLists.DeepCopy | scripts/src/collections/LinkedList.c:463-506 | NULL for the refused arguments (NULL or empty list, start < 0, end < start, end > size), for start == size and on allocation failure; otherwise a fresh valid list sharing the payloads from start to end inclusive, or to the last index when end == size. |
| LinkedLists.DeepCopyAsWritten | scripts/src/collections/LinkedList.c:463-506 | The same cases and payloads, but size = end - start; the header is valid iff end == size. |
| LinkedLists.FullFree | scripts/src/collections/LinkedList.c:263-273 | The destructor receives every payload in order when given, none otherwise; the nodes are released when there were any; a NULL list is a no-op. |
| EarlyLinkedLists.ToUnsigned | src/collections/LinkedList.c:99 | The conversion to unsigned int lies in 0..2^32-1; it keeps a non-negative value and adds 2^32 to a negative int. |
| EarlyLinkedLists.GetUnsigned | src/collections/LinkedList.c:99-114 | NULL for a NULL list and when the converted index is not below the size, so a negative index gives NULL on any list of at most 2^31 elements; otherwise the element at the converted index. |
| EarlyLinkedLists.RemoveFirstFoundAsWritten | src/collections/LinkedList.c:207-235 | The same removal as the maintained copy, but removing the only element leaves last at the unlinked node; the header is then invalid and llGetLast still gives the removed payload. |
| EarlyLinkedLists.RemoveFirstMatchAsWritten | src/collections/LinkedList.c:213-232 | The search and unlink as written; the header stays valid unless the only element was removed. |
| EarlyLinkedLists.UnlinkFirstAsWritten | src/collections/LinkedList.c:215-219 | Unlinking the head moves first and drops size but keeps last; valid iff other nodes remain. |
| TimeModel.Time.constructor | scripts/src/model/Time.c:51-55 | A new team carries the given id. |
| TimeModel.Time.SetName | scripts/src/model/Time.c:23-36 | tSetName, with its terminator at the last index: the array receives exactly the character writes of the copy, and the id stays. |
| TimeModel.NewTime | scripts/src/model/Time.c:50-59 | NULL exactly when malloc fails; otherwise a fresh team with the id unchanged (negative ids included), named by the C string of the argument cut to ten characters. |
| TimeModel.GetId | scripts/src/model/Time.c:87-92 | TIME_NOT_FOUND_FLAG for NULL, otherwise the id. |
| TimeModel.SetId | scripts/src/model/Time.c:107-113 | False and nothing changed for NULL or a negative id; otherwise only the id changes and reads back. |
| TimeModel.GetName | scripts/src/model/Time.c:126-131 | NULL exactly for a NULL team; otherwise the team's name. |
| TimeModel.SetTimeName | scripts/src/model/Time.c:146-152 | Fails only for a NULL team; otherwise the name becomes the argument's C string cut to ten characters, with no other check, and the id stays. |
| TimeModel.NameStores | scripts/src/model/Time.c:27-35 | The writes of tSetName's loop are never empty; they stay inside the array when the terminator index is inside it. |
| TimeModel.SetNameReadsBack | scripts/src/model/Time.c:23-36 | Reading the name back after tSetName gives the C string of the argument, cut to at most ten characters. |
| TimeModel.StoresEndAtTerm | scripts/src/model/Time.c:35 | When no NUL is met, the last write is the terminator's. |
| TimeModel.StoresStopAtNul | scripts/src/model/Time.c:29-32 | The copy writes nothing past the first NUL. |
| TimeModel.StoresAsWrittenOverrun | scripts/src/model/Time.c:35 | As written, a write falls outside the 11-byte array exactly when the argument holds no NUL. |
| TimeModel.ElevenLetterNameOverruns | scripts/src/model/Time.c:11-35 | The eleven-letter name "Corinthians" makes tSetName as written write outside the array. |
| TimeRepo.NextIdKeepsIncreasing | scripts/src/repo/TimeDB.c:72-90 | The next id (0 when empty, last + 1 otherwise) is not taken and keeps the ids increasing. |
| TimeRepo.PrefixOfArrays | scripts/src/repo/TimeDB.c:127-139 | checkPrefix's meaning is that the prefix's C string is a prefix of the name array. |
| TimeRepo.MatchingTeamsMember | scripts/src/repo/TimeDB.c:169-173 | A team is in the search result iff it is in the list and its name begins with the prefix. |
| TimeRepo.EmptyPrefixMatchesAll | scripts/src/repo/TimeDB.c:131-133 | The empty prefix accepts every team. |
| TimeRepo.SearchFindsStoredName | scripts/src/repo/TimeDB.c:149-156 | A team created under a name is found by a search for that name, because both are cut the same way. |
| TimeRepo.PrefixStores | scripts/src/repo/TimeDB.c:152-155 | setPrefix writes all eleven characters in order, then its terminator. |
| TimeRepo.SetPrefixAsWrittenOverruns | scripts/src/repo/TimeDB.c:155 | As written, setPrefix writes outside the 11-byte prefix array for every prefix. |
| TimeRepo.SetPrefixReadsBack | scripts/src/repo/TimeDB.c:149-156 | Reading back the corrected prefix gives the argument's C string cut to ten characters. |
| TimeRepo.AddFirstTime | scripts/src/repo/TimeDB.c:44-58 | Succeeds iff both allocations do; then a team with id 0 and the given name is appended; otherwise the list is unchanged. |
| TimeRepo.AddNewTime | scripts/src/repo/TimeDB.c:72-90 | The same, with id = last team's id + 1. |
| TimeRepo.AppendTeam | scripts/src/repo/TimeDB.c:78-89 | newTime then sllAdd: the team is appended at the tail iff both allocations succeed, and freed otherwise. |
| TimeRepo.CopyPrefix | scripts/src/repo/TimeDB.c:152-155 | The prefix array becomes the argument with a NUL at its last index. |
| TimeRepo.ComparePrefix | scripts/src/repo/TimeDB.c:131-138 | The loop accepts iff the prefix's C string begins the name array. |
| TimeRepo.TimeDB.constructor | scripts/src/repo/TimeDB.c:15-17 | Before any call there is no team list. |
| TimeRepo.TimeDB.Started | scripts/src/repo/TimeDB.c:28-30 | True iff the team list exists. |
| TimeRepo.TimeDB.Start | scripts/src/repo/TimeDB.c:203-213 | The empty list is created the first time, and then it exists iff memory was found; an existing list is kept; the result says whether a list exists. |
| TimeRepo.TimeDB.AddTime | scripts/src/repo/TimeDB.c:105-113 | False and nothing changed when not started; otherwise the new team gets the next id and is appended at the tail iff both allocations succeed. |
| TimeRepo.TimeDB.SetPrefix | scripts/src/repo/TimeDB.c:149-156 | The stored prefix is the argument with its terminator at the last index; nothing else changes. |
| TimeRepo.TimeDB.CheckPrefix | scripts/src/repo/TimeDB.c:127-139 | True iff the team's name begins with the stored prefix's C string. |
| TimeRepo.TimeDB.SearchByPrefix | scripts/src/repo/TimeDB.c:169-173 | The prefix is stored; the result is NULL iff not started or out of memory, otherwise exactly the accepted teams in order, shared. |
| TimeRepo.TimeDB.GetById | scripts/src/repo/TimeDB.c:250-268 | The id is stored; the result is the first team with that id, or NULL when there is none or no list. |
| TimeRepo.TimeDB.GetAllTimes | scripts/src/repo/TimeDB.c:278-280 | The repository's own list, not a copy. |
| TimeRepo.GetByIdUnique | scripts/src/repo/TimeDB.c:250-268 | With increasing ids, the team found by id is the only one with that id. |
| PartidaModel.Partida.constructor | scripts/src/model/Partida.c:37-41 | The five fields hold the arguments. |
| PartidaModel.NewPartida | scripts/src/model/Partida.c:32-44 | NULL exactly when malloc fails; otherwise the getters return the arguments verbatim, with no check on the teams or the goals. |
| PartidaModel.GetId | scripts/src/model/Partida.c:72-77 | -1 for a NULL match, otherwise its id. |
| PartidaModel.GetT1 | scripts/src/model/Partida.c:90-95 | NULL for a NULL match, otherwise its home team. |
| PartidaModel.GetT2 | scripts/src/model/Partida.c:108-113 | NULL for a NULL match, otherwise its visiting team. |
| PartidaModel.GetGolsT1 | scripts/src/model/Partida.c:126-131 | -1 for a NULL match, otherwise the home team's goals. |
| PartidaModel.GetGolsT2 | scripts/src/model/Partida.c:144-149 | -1 for a NULL match, otherwise the visiting team's goals. |
| PartidaModel.SetGolsT1 | scripts/src/model/Partida.c:164-171 | False and nothing changed for NULL or negative goals; otherwise only the home goals change and read back. |
| PartidaModel.SetGolsT2 | scripts/src/model/Partida.c:186-193 | The same for the visiting goals. |
| PartidaRepo.EitherIsHomeOrAway | scripts/src/repo/PartidaDB.c:293-298 | A match is in the either-side result iff it is in the home or the away result. |
| PartidaRepo.HomeMatchesMember | scripts/src/repo/PartidaDB.c:217-241 | A match is in the home result iff it is in the list and its home team's name begins with the prefix. |
| PartidaRepo.HomeCheck | scripts/src/repo/PartidaDB.c:217-222 | True iff the home team's name begins with the stored prefix's C string; a match with no home team passes only the empty prefix. |
| PartidaRepo.AwayCheck | scripts/src/repo/PartidaDB.c:255-260 | The same for the visiting team. |
| PartidaRepo.EitherCheck | scripts/src/repo/PartidaDB.c:293-298 | True iff either team's name begins with the prefix, or a team is missing and the prefix is empty. |
| PartidaRepo.Commit | scripts/src/repo/PartidaDB.c:46-49 | sllAdd of the staged match succeeds iff there is a list, a staged match and memory; the list grows by exactly that match and stays sound. |
| PartidaRepo.NextMatchKeepsIncreasing | scripts/src/repo/PartidaDB.c:116-119 | A match carrying the next id keeps the committed ids increasing. |
| PartidaRepo.FindMatch | scripts/src/repo/PartidaDB.c:331-355 | The first match with the id, NULL iff no match has it. |
| PartidaRepo.NextPartidaID | scripts/src/repo/PartidaDB.c:75-78 | One more than the last committed id, which is -1 for an empty list. |
| PartidaRepo.NewStaged | scripts/src/repo/PartidaDB.c:116-123 | Id 0 on an empty list, the next id otherwise, the given teams and goals; NULL iff malloc fails. |
| PartidaRepo.StorePrefix | scripts/src/repo/PartidaDB.c:239 | setPrefix changes only the stored prefix: the repositories stay sound and the matches a search by that prefix selects are those of the name it was given. |
| PartidaRepo.SearchRole | scripts/src/repo/PartidaDB.c:240 | NULL iff memory is short; otherwise a fresh valid list of exactly the committed matches whose team in the searched role passes checkPrefix, in order. |
| PartidaRepo.StoreAndSearch | scripts/src/repo/PartidaDB.c:239-240 | The prefix cut to the array is stored, the repositories stay sound, and the result is NULL iff memory is short, otherwise the matches selected by the name given. |
| PartidaRepo.PartidaDB.constructor | scripts/src/repo/PartidaDB.c:15-17 | Before any call there is no list and no staged match. |
| PartidaRepo.PartidaDB.Start | scripts/src/repo/PartidaDB.c:170-180 | The empty list is created the first time, and then it exists iff memory was found; an existing list is kept; the journal stays. |
| PartidaRepo.PartidaDB.StartInsertTransaction | scripts/src/repo/PartidaDB.c:28-32 | True iff no match is staged; nothing changes. |
| PartidaRepo.PartidaDB.AddPartida | scripts/src/repo/PartidaDB.c:95-126 | The result is the first failing check in the order not started, staged, equal ids, home missing, away missing, then memory; the committed list never changes; the journal is set iff SUCCESS, to a match with the next id, the first team with each id and the goals as given; the searched match id stays. |
| PartidaRepo.PartidaDB.LookupAndStage | scripts/src/repo/PartidaDB.c:108-125 | The two lookups, then staging, with the same result order; on SUCCESS the staged teams are the first with each id. |
| PartidaRepo.PartidaDB.LookupAwayAndStage | scripts/src/repo/PartidaDB.c:112-125 | The away lookup, then staging; on SUCCESS the away team is the first with its id. |
| PartidaRepo.PartidaDB.FindTeam | scripts/src/repo/PartidaDB.c:108-114 | The first team with that id, NULL iff none; only the searched team id changes. |
| PartidaRepo.PartidaDB.Stage | scripts/src/repo/PartidaDB.c:116-125 | SUCCESS and a staged match with the next id when memory is there, MEMORY_NOT_ENOUGH_EXCEPTION and no journal otherwise. |
| PartidaRepo.PartidaDB.InsertCommit | scripts/src/repo/PartidaDB.c:43-53 | True iff a list, a staged match and memory are there; then the match is at the tail and the journal cleared; otherwise both are unchanged. |
| PartidaRepo.PartidaDB.InsertRollBack | scripts/src/repo/PartidaDB.c:60-65 | The staged match, if any, is destroyed and the journal cleared; a no-op when idle; the committed list stays. |
| PartidaRepo.PartidaDB.SearchMandante | scripts/src/repo/PartidaDB.c:235-241 | NULL unless both repositories are started (or without memory); otherwise exactly the matches whose home team passes checkPrefix, in order. |
| PartidaRepo.PartidaDB.SearchVisitante | scripts/src/repo/PartidaDB.c:273-279 | The same by the visiting team. |
| PartidaRepo.PartidaDB.SearchMandanteOrVisitante | scripts/src/repo/PartidaDB.c:311-317 | The same by either team. |
| PartidaRepo.PartidaDB.GetById | scripts/src/repo/PartidaDB.c:349-356 | NULL when not started; otherwise the id is stored and the result is a committed match with that id, NULL iff none has it. |
| PartidaRepo.PartidaDB.GetAllPartidas | scripts/src/repo/PartidaDB.c:381-383 | The repository's own list, not a copy. |
| PartidaRepo.PartidaIdsUnique | scripts/src/repo/PartidaDB.c:331-356 | Increasing ids leave at most one match per id. |
| EarlyPartidaRepo.InsertCommitAsWritten | src/repo/PartidaDB.c:35-43 | The earlier commit gives no result on success (the append is done and the journal cleared) and false on failure, with nothing changed. |
| TeamStats.StrCpy | src/views/1_time.c:65 | strcpy leaves a terminated array whose C string equals the source's. |
| TeamStats.Points | src/views/1_time.c:91 | With non-negative counters, the points lie between three per win and three per win or draw. |
| TeamStats.Balance | src/views/1_time.c:90 | The balance is positive iff more goals were scored than conceded, and zero iff as many. |
| TeamStats.ProcessPartida | src/views/1_time.c:33-54 | gm and gs grow by the goals scored and conceded, seen from the home side iff the names are equal, and exactly one of win (more scored), draw (equal) or loss (fewer) grows. |
| TeamStats.TallyCounts | src/views/1_time.c:48-53 | Over a list of matches each counter grows by its count or sum, and the id and name stay. |
| TeamStats.FoldIsTally | src/views/1_time.c:74 | llForeach with processPartida computes the tally. |
| TeamStats.ResultsCoverMatches | src/views/1_time.c:51-53 | Wins + draws + losses equals the number of matches. |
| TeamStats.TallyFromZero | src/views/1_time.c:59-74 | From zero counters, wins + draws + losses equals the matches processed, and the points 3w + d are between 0 and three per match. |
| TeamStats.BothSidesAgree | src/views/1_time.c:40-53 | Seen from two differently named teams, one's goals for are the other's goals against, and one wins iff the other loses. |
| TeamStats.EitherMatchesByName | src/views/1_time.c:67 | The either-side search depends on the name only through its C string. |
| TeamStats.TallyCountedIsSearchThenTally | src/views/1_time.c:67-74 | One pass counting the matches either of whose names begins with the team's equals the search followed by the tally. |
| TeamStats.TallyByName | src/views/1_time.c:65-74 | The tally depends on the name only through its C string. |
| TeamStats.Reset | src/views/1_time.c:59-65 | The context is reset to the team's id and name, with all five counters 0. |
| TeamStats.StoredPrefixIsName | src/views/1_time.c:65-67 | The prefix stored from the copied name selects by that name. |
| TeamStats.CountedMatchesShareName | src/views/1_time.c:67 | Every counted match has a team whose name begins with this team's name. |
| TeamStats.PrefixNameCountedAsAway | src/views/1_time.c:40-67 | A home match of "Flamengo" counts for "Fla" as an away match: a 2-0 home win becomes a 0-2 loss. |
| TeamStats.TallyList | src/views/1_time.c:69-74 | An empty result leaves the context; otherwise it is tallied in order; the repositories are unchanged. |
| TeamStats.CalcularEstatisticas | src/views/1_time.c:57-77 | The context holds the team's id and name; a NULL result (not started, no memory) or an empty one leaves the counters at 0; otherwise they are the tally over the either-side search by the name. |
| Classification.CtxCp | scripts/src/views/6_imprimirTabelaClassificacao.c:16-24 | All seven fields are copied, the name by strcpy. |
| Classification.RecordOfStats | scripts/src/views/6_imprimirTabelaClassificacao.c:37-38 | The copy after calcularEstatisticas is the team's record, whatever the previous context held. |
| Classification.RecordPoints | scripts/src/views/6_imprimirTabelaClassificacao.c:67-68 | A record's points are 3w + d over its counted matches, at most three per match. |
| Classification.LoadedRecords | scripts/src/views/6_imprimirTabelaClassificacao.c:26-56 | At most one record per team; with every allocation successful, exactly one per team in team order, each the team's record. |
| Classification.StatsOf | scripts/src/views/6_imprimirTabelaClassificacao.c:37-38 | calcularEstatisticas then ctxcp gives the team's record, counted iff the repository is started and the search finds memory. |
| Classification.StatsBefore | scripts/src/views/6_imprimirTabelaClassificacao.c:37-38 | The copy after calcularEstatisticas is the team's record over the repositories as they stood before the call. |
| Classification.StatsRecord | scripts/src/views/6_imprimirTabelaClassificacao.c:33-38 | No record iff its allocation fails; otherwise the team's record. |
| Classification.AddRecord | scripts/src/views/6_imprimirTabelaClassificacao.c:40-42 | The record is appended iff it exists and its node is allocated. |
| Classification.AddPending | scripts/src/views/6_imprimirTabelaClassificacao.c:40-42 | The appends, in team order, keep exactly the records whose node was allocated. |
| Classification.NewRecords | scripts/src/views/6_imprimirTabelaClassificacao.c:49-51 | A fresh empty list apart from the repositories. |
| Classification.StatsRecords | scripts/src/views/6_imprimirTabelaClassificacao.c:26-43 | One entry per team in list order; the kept ones are the records loadContext collects. |
| Classification.LoadContext | scripts/src/views/6_imprimirTabelaClassificacao.c:45-56 | False iff a list is loaded or cannot be allocated, and then the global is kept; otherwise a fresh list of the teams' records in team order, skipping those whose allocation fails. |
| Classification.OrderResult | scripts/src/views/6_imprimirTabelaClassificacao.c:62-76 | greater_than iff more points, less_than iff fewer, equal on ties, with no id tie-break. |
| Classification.TotalPagesBounds | scripts/src/views/6_imprimirTabelaClassificacao.c:99-101 | No pages iff no records; otherwise the last page holds between one and five records. |
| Classification.TotalPages | scripts/src/views/6_imprimirTabelaClassificacao.c:101 | The fewest pages of five that hold the records: they hold them all, with less than a page to spare. |
| Classification.PageStart | scripts/src/views/6_imprimirTabelaClassificacao.c:109 | For a page from 1 on, the first record index is the multiple of five that counts the pages before it. |
| Classification.PageEnd | scripts/src/views/6_imprimirTabelaClassificacao.c:110-111 | The smaller of the page's fifth record index and the list size. |
| Classification.PageRecords | scripts/src/views/6_imprimirTabelaClassificacao.c:109-114 | A page holds at most five records. |
| Classification.PagesPartition | scripts/src/views/6_imprimirTabelaClassificacao.c:109-114 | Record k is on page k/5 + 1 at position k%5; pages before the last hold five records, the last holds the rest, and other page numbers show nothing. |
| Classification.PageCopy | scripts/src/views/6_imprimirTabelaClassificacao.c:109-114 | llDeepCopy accepts a page's start and end, and its inclusive copy is the page's records. |
| Classification.NextPage | scripts/src/views/6_imprimirTabelaClassificacao.c:132-139 | A number in 1..totalPaginas becomes the page; any other answer leaves it. |
| Classification.Visited | scripts/src/views/6_imprimirTabelaClassificacao.c:104-140 | The session shows at most one page per answer. |
| Classification.VisitedPages | scripts/src/views/6_imprimirTabelaClassificacao.c:134-139 | Every page shown is page 1 or a page of the table. |
| Classification.VisitedAll | scripts/src/views/6_imprimirTabelaClassificacao.c:104-140 | Without Q, one page is shown per answer. |
| Classification.VisitedUntilQuit | scripts/src/views/6_imprimirTabelaClassificacao.c:127-128 | Pages are shown up to and including the first Q, and no more. |
| Classification.PrintedInOrder | scripts/src/views/6_imprimirTabelaClassificacao.c:117 | llForeach with printCalcWrapper shows exactly the page's records, in order. |
| Classification.ShowPage | scripts/src/views/6_imprimirTabelaClassificacao.c:109-119 | One pass shows the page's records when the copy is allocated, nothing otherwise, and the records stay. |
| Classification.PageLoop | scripts/src/views/6_imprimirTabelaClassificacao.c:99-140 | The loop shows the visited pages in order and ends by Q iff some answer is Q. |
| Classification.ShowStandings | scripts/src/views/6_imprimirTabelaClassificacao.c:97-143 | The records freed are a permutation of the loaded ones, by points descending, and the pages shown are taken from that order. |
| Classification.ViewTabelaClassificacao | scripts/src/views/6_imprimirTabelaClassificacao.c:86-144 | When loadContext refuses, nothing is shown and the global stays; otherwise the sorted records are shown page by page, freed, and the global is NULL again. |
| RemoveMatchView.WithoutIsRemoveFirst | src/views/4_excluirPartida.c:18-28 | llRemoveFirstFound with removePredicate drops the first match with the id. |
| RemoveMatchView.RemovePredicate | src/views/4_excluirPartida.c:18-28 | True exactly for a non-NULL match whose id (partidaGetId) is the searched id. |
| RemoveMatchView.RemoveById | src/views/4_excluirPartida.c:22-25 | On increasing ids a match with the id exists iff removePredicate accepts some match; that match is unique, so exactly one match is removed and freed once. |
| RemoveMatchView.RemovedAtKeepsIncreasing | src/views/4_excluirPartida.c:118 | The other matches keep their order and increasing ids, and the removed id is gone. |
| RemoveMatchView.RemoveFromList | src/views/4_excluirPartida.c:118 | True iff a committed match has the id; exactly that match leaves the list, which stays sound; otherwise nothing changes. |
| RemoveMatchView.Search | src/views/4_excluirPartida.c:65-84 | Options 1 to 3 give a fresh list of the home, away or either-side search, NULL iff a repository is not started or memory is short; option 4 gives the repository's own list; the result is NULL or empty iff nothing is found; the committed matches are unchanged. |
| RemoveMatchView.Expected | src/views/4_excluirPartida.c:54-124 | The view's outcome: Cancelled iff Q; otherwise NoneFound iff the result is NULL or empty; otherwise Declined iff N; otherwise Removed iff a committed match has the id, NotRemoved if none has. |
| RemoveMatchView.ViewExcluirPartida | src/views/4_excluirPartida.c:34-128 | The outcome follows the Q, empty, N and S answers; on S the first match with the typed id, and only it, leaves the list; the repositories stay sound. |
| RemoveMatchView.SearchAndRemove | src/views/4_excluirPartida.c:62-128 | The search, then what follows it, as in the view. |
| RemoveMatchView.AfterSearch | src/views/4_excluirPartida.c:86-127 | An empty or NULL result ends with nothing removed; otherwise the confirmation decides. |
| RemoveMatchView.ConfirmAndRemove | src/views/4_excluirPartida.c:101-127 | On N nothing changes; on S the id is stored and the match with it removed, if present. |
| RemoveMatchView.ReleaseResult | src/views/4_excluirPartida.c:126-127 | Only a search's own list is freed; the repository's list stays intact. |
| RemoveMatchView.WithoutRemovesId | src/views/4_excluirPartida.c:118 | On increasing ids, a match stays iff its id differs from the target; no match with the id means no change. |
| RemoveMatchView.TypedIdIgnored | src/views/4_excluirPartida.c:101 | With matches 0 and k present, typing k and confirming as written keeps match k and removes match 0. |
| RemoveMatchView.ViewExcluirPartidaAsWritten | src/views/4_excluirPartida.c:34-128 | As written: the removal targets the stored id (0 as the program starts), and option 4 followed by N releases the repository's own nodes. |
| RemoveMatchView.SearchAndRemoveAsWritten | src/views/4_excluirPartida.c:62-128 | The search, then what follows it, as written. |
| RemoveMatchView.AfterSearchAsWritten | src/views/4_excluirPartida.c:86-127 | What follows the search, as written. |
| RemoveMatchView.ConfirmAndRemoveAsWritten | src/views/4_excluirPartida.c:106-127 | On S the match with the stored id, not the typed one, is removed. |
| RemoveMatchView.DeclineAsWritten | src/views/4_excluirPartida.c:111-115 | The N path frees the result list; in option 4 that is the repository's list, which is then released and no longer sound. |

## Left out

- Console I/O: `readChar`, `readString`, `readInt`, `strtol` and all `printf` output become parameters (`Choice`, `confirm`, `id`, `PageInput`) or what the views return. The re-prompting loops are modelled by the answer they end with.
- The "Página x de y" and "Itens restantes" lines of the classification view (scripts/src/views/6_imprimirTabelaClassificacao.c:105-106) are output only. The remaining count `(totalPaginas-paginaAtual)*5` overcounts a partial last page and is -5 with no records.
- The page loop of the classification view runs until Q. The model ends the session when the sequence of answers runs out.
- CSV loading: `timeFromFile`, `partidaFromFile` and the file reading of `startTimeDB` / `startPartidaDB` are file I/O. Only the creation of the empty list is modelled, and the `fopen` failure result is not.
- Memory release as such: `free`, `freeTime`, `freePartida`, and the `free(f)` that `llFullFree` applies to its callback pointer. A freed match or team is reported in the ghost results (`destroyed`), not removed from the heap.
- The `llFullFree` of the search result at the end of calcularEstatisticas (src/views/1_time.c:70, 76). It frees the nodes of a list the model drops; no payload is destroyed.
- `llSearchAll` allocates its new header before its NULL checks, which leaks it on a NULL list. The model only states the NULL result.
- `int` overflow of ids, goal sums and page arithmetic, and the truncating `(int)p` cast: all are unbounded integers here.
- `printPartida`, `printCalc`'s formatting, `viewPartidas` and the menus.
- The NULL check on the team in `forEachTimeLoadContext`: team lists never hold NULL teams in the model.
- RemoveMatchView.ViewExcluirPartida: requires that no insert is staged. The insert view always commits or rolls back before returning.
- RemoveMatchView.ReleaseResult: the `llFullFree` of an empty live list in option 4 (src/views/4_excluirPartida.c:88) frees no node and is not modelled.
- PartidaRepo.MatchList: the repository invariant includes increasing match ids. Lists grown only through `addPartida` have them, since each new match takes the next id. Lists loaded from CSV, which is not modelled, need not have them.
- RemoveMatchView.RemoveById: the removal of exactly one match relies on the increasing ids of `MatchList`. With repeated ids, `llRemoveFirstFound` would remove only the first match with the id.
- RemoveMatchView.ViewExcluirPartidaAsWritten: removes through the maintained `llRemoveFirstFound` (`LinkedLists.RemoveFirstFound`), not through the src/collections/LinkedList.c copy, which leaves `last` pointing at the freed node after the only match is removed (line 218, see `EarlyLinkedLists.RemoveFirstFoundAsWritten`). Its list stays valid after S only because of this.
- RemoveMatchView.SearchAndRemoveAsWritten: removes with the maintained `llRemoveFirstFound`, as `ViewExcluirPartidaAsWritten` does.
- RemoveMatchView.AfterSearchAsWritten: removes with the maintained `llRemoveFirstFound`, as `ViewExcluirPartidaAsWritten` does.
- RemoveMatchView.ConfirmAndRemoveAsWritten: removes with the maintained `llRemoveFirstFound`, as `ViewExcluirPartidaAsWritten` does.
- Classification.ShowPage: copies a page with the corrected `LinkedLists.DeepCopy`, not with the `llDeepCopy` whose `size` is one short (`LinkedLists.DeepCopyAsWritten`). The page shown and the records kept are the same either way, because `llForeach` and `llFullFree` walk the nodes and never read `size`.
- The earlier src/model/Time.c and src/model/Partida.c, and src/repo/TimeDB.c, behave as the maintained copies. They are not modelled separately.

## Findings

| source | as written | input that shows it | evidently intended | confidence | as-written member | corrected member |
|---|---|---|---|---|---|---|
| scripts/src/collections/LinkedList.c:503 | `size = end-start` after copying start..end inclusive | a 3-element list, start 0, end 1: two nodes copied, size 1 | size equals the number of nodes copied | not executed | LinkedLists.DeepCopyAsWritten | LinkedLists.DeepCopy |
| scripts/src/repo/TimeDB.c:155 | `prefixSearch[TIME_MAX_NAME_SIZE] = '\0'` on an 11-byte array | any call of setPrefix | terminator at index 10 | not executed | TimeRepo.SetPrefixAsWrittenOverruns | TimeRepo.TimeDB.SetPrefix |
| scripts/src/model/Time.c:35 | `t->name[TIME_MAX_NAME_SIZE] = '\0'` when no NUL is met | the name "Corinthians" (11 letters) | terminator at index 10 | not executed | TimeModel.ElevenLetterNameOverruns | TimeModel.Time.SetName |
| src/repo/PartidaDB.c:35-43 | a successful commit reaches the end with no `return` | a commit with a staged match and a started list | `return true` | not executed | EarlyPartidaRepo.InsertCommitAsWritten | PartidaRepo.PartidaDB.InsertCommit |
| src/collections/LinkedList.c:218 | `l->last == NULL;` compares instead of assigning | removing the only element of a one-element list | `l->last = NULL;` | not executed | EarlyLinkedLists.RemoveFirstFoundAsWritten | LinkedLists.RemoveFirstFound |
| src/views/4_excluirPartida.c:101 | the typed id goes into a local; `gSearchID` stays 0 | matches with ids 0 and 1, type 1, confirm S: match 0 is removed | store the typed id in `gSearchID` | not executed | RemoveMatchView.TypedIdIgnored | RemoveMatchView.ViewExcluirPartida |
| src/views/4_excluirPartida.c:111-115 | the N answer frees the result list in every mode | option 4 with matches present, then N: the repository's nodes are freed | free only a search's own list, as line 126 does | not executed | RemoveMatchView.DeclineAsWritten | RemoveMatchView.ReleaseResult |
