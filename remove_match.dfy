/**
 * The match removal view (src/views/4_excluirPartida.c): removePredicate, which recognises the
 * match whose id is the global `gSearchID`, and viewExcluirPartida, which searches the match
 * repository, asks for an id and a confirmation, and unlinks the first match with that id from
 * the repository's list with llRemoveFirstFound.
 *
 * The console answers are parameters: the menu option with the name typed for it (`Choice`),
 * the id typed (`id`) and the confirmation (`confirm`, true for S). The option and the
 * confirmation prompts repeat until a valid answer comes; what they end with is what is
 * modelled. `memOk` says whether the search finds memory for its result list.
 *
 * `ViewExcluirPartidaAsWritten` and the methods whose names end in `AsWritten` model the view
 * as written: it never stores the id typed in `gSearchID`, and in mode 4 its N answer frees the
 * nodes of the repository's own list. `ViewExcluirPartida` and the methods it calls model the
 * view as evidently intended: the id typed is stored before the removal, and only the lists a
 * search allocated are freed. Both remove with the maintained llRemoveFirstFound of
 * scripts/src/collections/LinkedList.c (`LinkedLists.RemoveFirstFound`).
 */
module RemoveMatchView {
  import opened Wrappers
  import opened Types
  import opened LinkedLists
  import opened TimeModel
  import opened PartidaModel
  import opened TimeRepo
  import opened PartidaRepo

  /** `gSearchID` when the program starts: a static `int` is zero, and no code assigns it. */
  const INITIAL_SEARCH_ID: int := 0

  /** The option of the menu, with the name read for the three searches. */
  datatype Choice = Home(name: NameBuf) | Away(name: NameBuf) | Either(name: NameBuf) | All | Cancel

  /** How the view ends: cancelled at the menu, nothing found, declined, removed, or not removed. */
  datatype Outcome = Cancelled | NoneFound | Declined | Removed | NotRemoved

  // ------------------------------------------------------------------
  // removePredicate
  // ------------------------------------------------------------------

  /**
   * removePredicate with `gSearchID` as `searchId`: false for NULL, true exactly for a match with
   * that id. The match it accepts is freed before it returns.
   */
  predicate RemovePredicate(searchId: int, p: Partida?): (r: bool)
    ensures p == null ==> !r
    ensures p != null ==> (r <==> PartidaModel.GetId(p) == searchId)
  {
    p != null && p.id == searchId
  }

  /** removePredicate as the callback llRemoveFirstFound applies to the list's payloads. */
  function ById(searchId: int): Partida -> bool {
    (m: Partida) => RemovePredicate(searchId, m)
  }

  /** The matches of `s` but the first whose id is `id`, if one has it. */
  function Without(s: seq<Partida>, id: int): seq<Partida> {
    if s == [] then [] else if s[0].id == id then s[1..] else [s[0]] + Without(s[1..], id)
  }

  /** llRemoveFirstFound with removePredicate unlinks from any list of matches what `Without` leaves out. */
  lemma {:induction false} WithoutIsRemoveFirst(s: seq<Partida>, id: int)
    ensures RemoveFirst(s, ById(id)) == Without(s, id)
  {
    if s != [] && s[0].id != id {
      WithoutIsRemoveFirst(s[1..], id);
    }
  }

  /**
   * llRemoveFirstFound with removePredicate on matches with increasing ids. When a match has
   * the id, it is the only one: it sits at `k` and is the one match unlinked, so
   * removePredicate frees exactly one match, once. Otherwise nothing is removed (`k` is -1).
   */
  lemma RemoveById(s: seq<Partida>, id: int) returns (k: int)
    requires Increasing(PartidaIds(s))
    ensures AnySatisfies(s, ById(id)) <==> id in PartidaIds(s)
    ensures id !in PartidaIds(s) ==> k == -1 && RemoveFirst(s, ById(id)) == s
    ensures id in PartidaIds(s) ==>
      && 0 <= k < |s| && s[k].id == id
      && (forall j :: 0 <= j < |s| && j != k ==> s[j].id != id)
      && RemoveFirst(s, ById(id)) == s[..k] + s[k + 1..]
  {
    var ids := PartidaIds(s);
    if id in ids {
      k :| 0 <= k < |ids| && ids[k] == id;
      forall j | 0 <= j < |s| && j != k ensures s[j].id != id {
        if j < k { assert ids[j] < ids[k]; } else { assert ids[k] < ids[j]; }
      }
      assert forall j :: 0 <= j < k ==> !RemovePredicate(id, s[j]);
      RemoveFirstAt(s, ById(id), k);
    } else {
      k := -1;
      assert forall j :: 0 <= j < |s| ==> !RemovePredicate(id, s[j]) by {
        forall j | 0 <= j < |s| ensures !RemovePredicate(id, s[j]) {
          assert ids[j] == s[j].id;
        }
      }
      RemoveFirstNone(s, ById(id));
    }
  }

  /** Unlinking the match at `k` keeps the ids increasing and leaves the other matches in order. */
  lemma RemovedAtKeepsIncreasing(s: seq<Partida>, k: int)
    requires Increasing(PartidaIds(s)) && 0 <= k < |s|
    ensures var r := s[..k] + s[k + 1..];
      && Increasing(PartidaIds(r))
      && s[k].id !in PartidaIds(r)
      && forall j :: 0 <= j < |r| ==> r[j] == s[if j < k then j else j + 1]
  {
    var ids := PartidaIds(s);
    var r := s[..k] + s[k + 1..];
    assert forall j :: 0 <= j < |r| ==> r[j] == s[if j < k then j else j + 1];
    forall p, q | 0 <= p < q < |r| ensures PartidaIds(r)[p] < PartidaIds(r)[q] {
      var p', q' := if p < k then p else p + 1, if q < k then q else q + 1;
      assert r[p] == s[p'] && r[q] == s[q'] && p' < q';
      assert ids[p'] < ids[q'];
    }
    forall j | 0 <= j < |r| ensures PartidaIds(r)[j] != s[k].id {
      var j' := if j < k then j else j + 1;
      if j' < k { assert ids[j'] < ids[k]; } else { assert ids[k] < ids[j']; }
    }
  }

  /** Unlinking the match at `k` keeps what a committed list promises of its payloads. */
  lemma RemovedAtKeepsMatches(s: seq<Partida>, k: int, repr: set<object>)
    requires Increasing(PartidaIds(s)) && 0 <= k < |s|
    requires forall j :: 0 <= j < |s| ==> s[j] !in repr
    requires forall j :: 0 <= j < |s| ==> s[j].t1 != null && s[j].t2 != null
    ensures var r := s[..k] + s[k + 1..];
      && Increasing(PartidaIds(r))
      && (forall j :: 0 <= j < |r| ==> r[j] !in repr)
      && (forall j :: 0 <= j < |r| ==> r[j].t1 != null && r[j].t2 != null)
  {
    RemovedAtKeepsIncreasing(s, k);
  }

  /**
   * llRemoveFirstFound with removePredicate on a repository's committed list `l`, no match
   * being staged: the first match whose id is `searchId` leaves the list, which stays sound;
   * with no such match nothing changes.
   */
  method RemoveFromList(teams: TimeDB, l: LinkedList<Partida>, searchId: int) returns (removed: bool)
    requires Repo(teams, l, null)
    modifies l.Repr
    ensures teams.times == old(teams.times) && ListRepr(teams.times) == old(ListRepr(teams.times))
    ensures Repo(teams, l, null) && l.Repr == old(l.Repr)
    ensures removed <==> searchId in old(PartidaIds(l.Contents))
    ensures l.Contents == old(Without(l.Contents, searchId))
    ensures !removed ==> l.Contents == old(l.Contents)
  {
    ghost var s := l.Contents;
    ghost var k := RemoveById(s, searchId);
    WithoutIsRemoveFirst(s, searchId);
    if k >= 0 {
      RemovedAtKeepsMatches(s, k, l.Repr);
    }
    ghost var tr := ListRepr(teams.times);
    assert teams !in l.Repr && tr !! l.Repr;
    removed := RemoveFirstFound(l, Some(ById(searchId)));
    assert teams.times == old(teams.times) && ListRepr(teams.times) == tr;
  }

  // ------------------------------------------------------------------
  // viewExcluirPartida
  // ------------------------------------------------------------------

  /** The matches the chosen search returns over the committed matches `s`. */
  ghost function Found(choice: Choice, s: seq<Partida>): seq<Partida>
    reads Sides(s)
  {
    match choice
    case Home(name) => HomeMatches(name[TIME_MAX_NAME_SIZE - 1 := NUL], s)
    case Away(name) => AwayMatches(name[TIME_MAX_NAME_SIZE - 1 := NUL], s)
    case Either(name) => EitherMatches(name[TIME_MAX_NAME_SIZE - 1 := NUL], s)
    case All => s
    case Cancel => []
  }

  /**
   * The search of viewExcluirPartida: one of the three prefix searches, each a new list, or in
   * mode 4 the repository's own list.
   */
  method Search(db: PartidaDB, choice: Choice, memOk: bool) returns (r: LinkedList?<Partida>)
    requires db.Valid() && !choice.Cancel?
    modifies db.teams
    ensures db.Valid() && db.teams.times == old(db.teams.times)
    ensures db.partidas != null ==> db.partidas.Contents == old(db.partidas.Contents)
    ensures choice.All? ==> r == db.partidas
    ensures !choice.All? ==> (r != null <==> db.teams.times != null && db.partidas != null && memOk)
    ensures !choice.All? && r != null ==> fresh(r.Repr) && r.Valid() && r.Contents == old(Found(choice, db.partidas.Contents))
    ensures !choice.All? && r != null ==> r !in ListRepr(db.teams.times) && r.Repr !! ListRepr(db.partidas)
    ensures (r == null || IsEmpty(r)) <==> old(NothingFound(db, choice, memOk))
  {
    match choice {
      case Home(name) => r := db.SearchMandante(name, memOk);
      case Away(name) => r := db.SearchVisitante(name, memOk);
      case Either(name) => r := db.SearchMandanteOrVisitante(name, memOk);
      case All => r := db.GetAllPartidas();
    }
    if r != null {
      IsEmptyIffNoElements(r);
    }
  }

  /** The view finds nothing to remove: no list (repository not started, or no memory for the search), or an empty one. */
  ghost predicate NothingFound(db: PartidaDB, choice: Choice, memOk: bool)
    reads db, db.teams, db.partidas, ListRepr(db.partidas)
    reads if db.partidas == null then {} else Sides(db.partidas.Contents)
  {
    || db.partidas == null
    || (!choice.All? && (db.teams.times == null || !memOk))
    || Found(choice, db.partidas.Contents) == []
  }

  /**
   * The outcome viewExcluirPartida reports: cancelled at the menu; else nothing found; else
   * declined at the confirmation; else removed or not, as the id typed names a committed match.
   */
  function Expected(cancel: bool, nothing: bool, confirm: bool, present: bool): (o: Outcome)
    ensures o == Cancelled <==> cancel
    ensures o == NoneFound <==> !cancel && nothing
    ensures o == Declined <==> !cancel && !nothing && !confirm
    ensures o == Removed <==> !cancel && !nothing && confirm && present
  {
    if cancel then Cancelled
    else if nothing then NoneFound
    else if !confirm then Declined
    else if present then Removed
    else NotRemoved
  }

  /**
   * viewExcluirPartida as evidently intended, with no match staged (the insert view closes
   * every transaction it opens): the id typed becomes `gSearchID` (returned as `searchId`)
   * before the removal, and only a list the search allocated is freed. Cancelled at the menu,
   * or nothing found, or declined, the committed matches stay as they were; confirmed, the
   * first match with the id typed is removed, if there is one.
   */
  method ViewExcluirPartida(db: PartidaDB, choice: Choice, memOk: bool, id: int, confirm: bool, gSearchID: int)
    returns (outcome: Outcome, searchId: int)
    requires db.Valid() && db.journal == null
    modifies db.teams, ListRepr(db.partidas)
    ensures db.Valid() && db.journal == null && db.partidas == old(db.partidas)
    ensures outcome == Expected(choice.Cancel?, old(NothingFound(db, choice, memOk)), confirm,
      old(db.partidas != null && id in PartidaIds(db.partidas.Contents)))
    ensures searchId == if outcome in {Removed, NotRemoved} then id else gSearchID
    ensures db.partidas != null ==>
      db.partidas.Contents == old(if outcome == Removed then Without(db.partidas.Contents, id) else db.partidas.Contents)
  {
    if choice.Cancel? {
      return Cancelled, gSearchID;
    }
    outcome, searchId := SearchAndRemove(db, choice, memOk, id, confirm, gSearchID);
  }

  /**
   * viewExcluirPartida past the menu, as evidently intended: the search, then what the view
   * does with its result.
   */
  method SearchAndRemove(db: PartidaDB, choice: Choice, memOk: bool, id: int, confirm: bool, gSearchID: int)
    returns (outcome: Outcome, searchId: int)
    requires db.Valid() && db.journal == null && !choice.Cancel?
    modifies db.teams, ListRepr(db.partidas)
    ensures db.Valid() && db.journal == null && db.partidas == old(db.partidas)
    ensures outcome == Expected(false, old(NothingFound(db, choice, memOk)), confirm,
      old(db.partidas != null && id in PartidaIds(db.partidas.Contents)))
    ensures searchId == if outcome in {Removed, NotRemoved} then id else gSearchID
    ensures db.partidas != null ==>
      db.partidas.Contents == old(if outcome == Removed then Without(db.partidas.Contents, id) else db.partidas.Contents)
  {
    var resultado := Search(db, choice, memOk);
    outcome, searchId := AfterSearch(db.teams, db.partidas, choice, resultado, id, confirm, gSearchID);
  }

  /**
   * viewExcluirPartida once the search has returned, as evidently intended, on the repository's
   * teams and committed list `l`: with nothing found (a NULL or empty list) the result is
   * released; otherwise the confirmation and removal.
   */
  method AfterSearch(teams: TimeDB, l: LinkedList?<Partida>, choice: Choice, resultado: LinkedList?<Partida>,
                     id: int, confirm: bool, gSearchID: int)
    returns (outcome: Outcome, searchId: int)
    requires Repo(teams, l, null) && (choice.All? ==> resultado == l)
    requires !choice.All? && resultado != null ==> Disjoint(teams, l, resultado)
    requires resultado != null ==> l != null
    modifies ListRepr(l), if choice.All? then {} else {resultado}
    ensures teams.times == old(teams.times) && ListRepr(teams.times) == old(ListRepr(teams.times))
    ensures Repo(teams, l, null) && (l != null ==> l.Repr == old(l.Repr))
    ensures outcome == Expected(false, old(resultado == null || IsEmpty(resultado)), confirm,
      old(l != null && id in PartidaIds(l.Contents)))
    ensures searchId == if outcome in {Removed, NotRemoved} then id else gSearchID
    ensures l != null ==> l.Contents == old(if outcome == Removed then Without(l.Contents, id) else l.Contents)
  {
    if resultado == null || IsEmpty(resultado) {
      ReleaseResult(teams, l, choice, resultado);
      return NoneFound, gSearchID;
    }
    outcome, searchId := ConfirmAndRemove(teams, l, choice, resultado, id, confirm, gSearchID);
  }

  /**
   * The confirmation and removal of viewExcluirPartida as evidently intended, once the search
   * has found matches: declined, nothing changes; confirmed, `gSearchID` takes the id typed
   * and the first match with that id is unlinked from the repository's list.
   */
  method ConfirmAndRemove(teams: TimeDB, l: LinkedList<Partida>, choice: Choice, resultado: LinkedList<Partida>,
                          id: int, confirm: bool, gSearchID: int)
    returns (outcome: Outcome, searchId: int)
    requires Repo(teams, l, null) && (choice.All? ==> resultado == l)
    requires !choice.All? ==> Disjoint(teams, l, resultado)
    modifies l.Repr, if choice.All? then {} else {resultado}
    ensures teams.times == old(teams.times) && ListRepr(teams.times) == old(ListRepr(teams.times))
    ensures Repo(teams, l, null) && l.Repr == old(l.Repr)
    ensures outcome == Expected(false, false, confirm, id in old(PartidaIds(l.Contents)))
    ensures searchId == if confirm then id else gSearchID
    ensures l.Contents == old(if outcome == Removed then Without(l.Contents, id) else l.Contents)
  {
    if !confirm {
      ReleaseResult(teams, l, choice, resultado);
      return Declined, gSearchID;
    }
    searchId := id;
    var removed := RemoveFromList(teams, l, searchId);
    outcome := if removed then Removed else NotRemoved;
    ReleaseResult(teams, l, choice, resultado);
  }

  /** A list the search allocated: sound, and sharing nothing with the repository. */
  ghost predicate Disjoint(teams: TimeDB, l: LinkedList?<Partida>, r: LinkedList<Partida>)
    reads teams, teams.times, ListRepr(teams.times), l, ListRepr(l), r, r.Repr
  {
    r.Valid() && r !in ListRepr(teams.times) && r.Repr !! ListRepr(l)
  }

  /**
   * llFullFree without a destructor of what the search returned, in every mode but 4: the
   * list a search allocated is freed, the repository's own list is left alone.
   */
  method ReleaseResult(teams: TimeDB, l: LinkedList?<Partida>, choice: Choice, resultado: LinkedList?<Partida>)
    requires Repo(teams, l, null) && (choice.All? ==> resultado == l)
    requires !choice.All? && resultado != null ==> Disjoint(teams, l, resultado)
    modifies if choice.All? then {} else {resultado}
    ensures teams.times == old(teams.times) && ListRepr(teams.times) == old(ListRepr(teams.times))
    ensures Repo(teams, l, null)
    ensures l != null ==> l.Contents == old(l.Contents) && l.Repr == old(l.Repr)
  {
    if !choice.All? {
      var destroyed := FullFree(resultado, false);
    }
  }

  // ------------------------------------------------------------------
  // viewExcluirPartida as written
  // ------------------------------------------------------------------

  /** With increasing ids, the first match has the smallest id, and the rest still increase. */
  lemma HeadIdSmallest(s: seq<Partida>)
    requires Increasing(PartidaIds(s)) && s != []
    ensures Increasing(PartidaIds(s[1..]))
    ensures forall m :: m in s[1..] ==> m.id > s[0].id
  {
    var ids, t := PartidaIds(s), PartidaIds(s[1..]);
    forall p, q | 0 <= p < q < |t| ensures t[p] < t[q] {
      assert t[p] == ids[p + 1] && t[q] == ids[q + 1];
    }
    forall m | m in s[1..] ensures m.id > s[0].id {
      var j :| 0 <= j < |t| && s[1..][j] == m;
      assert ids[0] < ids[j + 1] && ids[j + 1] == m.id;
    }
  }

  /**
   * On matches with increasing ids, removing the first match with `id` takes out exactly the
   * match with that id, when there is one, and keeps every other.
   */
  lemma {:induction false} WithoutRemovesId(s: seq<Partida>, id: int)
    requires Increasing(PartidaIds(s))
    ensures forall m :: m in s ==> (m in Without(s, id) <==> m.id != id)
    ensures id !in PartidaIds(s) ==> Without(s, id) == s
  {
    if s != [] {
      HeadIdSmallest(s);
      WithoutRemovesId(s[1..], id);
      var w := Without(s, id);
      assert w == if s[0].id == id then s[1..] else [s[0]] + Without(s[1..], id);
      forall m | m in s ensures m in w <==> m.id != id {
        if m != s[0] {
          assert m in s[1..];
        }
      }
    }
  }

  /**
   * The removal as written unlinks the match whose id is `gSearchID`, which keeps its initial
   * value: with matches 0 and `id` committed, typing `id` at the prompt and confirming removes
   * match 0 and keeps match `id`.
   */
  lemma TypedIdIgnored(s: seq<Partida>, id: int)
    requires Increasing(PartidaIds(s)) && INITIAL_SEARCH_ID in PartidaIds(s) && id in PartidaIds(s)
    requires id != INITIAL_SEARCH_ID
    ensures exists m :: m in s && m.id == id && m in Without(s, INITIAL_SEARCH_ID)
    ensures exists m :: m in s && m.id == INITIAL_SEARCH_ID && m !in Without(s, INITIAL_SEARCH_ID)
  {
    WithoutRemovesId(s, INITIAL_SEARCH_ID);
    var ids := PartidaIds(s);
    var i :| 0 <= i < |ids| && ids[i] == id;
    var j :| 0 <= j < |ids| && ids[j] == INITIAL_SEARCH_ID;
    assert s[i] in s && s[i].id == id;
    assert s[j] in s && s[j].id == INITIAL_SEARCH_ID;
  }

  /**
   * viewExcluirPartida as written: the id typed is read but never stored, so the removal looks
   * for the match whose id is `gSearchID`; answering N in mode 4 frees the nodes of the
   * repository's own list, which then no longer describes a list, so the repository is left
   * unsound. The removal uses the maintained llRemoveFirstFound (`RemoveFirstFound`), not the
   * copy in src/collections/LinkedList.c, whose `last` dangles once the only match is removed
   * (`EarlyLinkedLists.RemoveFirstFoundAsWritten`).
   */
  method ViewExcluirPartidaAsWritten(db: PartidaDB, choice: Choice, memOk: bool, id: int, confirm: bool, gSearchID: int)
    returns (outcome: Outcome)
    requires db.Valid() && db.journal == null
    modifies db.teams, ListRepr(db.partidas)
    ensures db.journal == null && db.partidas == old(db.partidas)
    ensures outcome == Expected(choice.Cancel?, old(NothingFound(db, choice, memOk)), confirm,
      old(db.partidas != null && gSearchID in PartidaIds(db.partidas.Contents)))
    ensures choice.All? && outcome == Declined ==> db.partidas.released && !db.Valid()
    ensures !(choice.All? && outcome == Declined) ==> db.Valid()
    ensures !(choice.All? && outcome == Declined) && db.partidas != null ==>
      db.partidas.Contents == old(if outcome == Removed then Without(db.partidas.Contents, gSearchID) else db.partidas.Contents)
  {
    if choice.Cancel? {
      return Cancelled;
    }
    outcome := SearchAndRemoveAsWritten(db, choice, memOk, confirm, gSearchID);
  }

  /** viewExcluirPartida as written, past the menu. */
  method SearchAndRemoveAsWritten(db: PartidaDB, choice: Choice, memOk: bool, confirm: bool, gSearchID: int)
    returns (outcome: Outcome)
    requires db.Valid() && db.journal == null && !choice.Cancel?
    modifies db.teams, ListRepr(db.partidas)
    ensures db.journal == null && db.partidas == old(db.partidas)
    ensures outcome == Expected(false, old(NothingFound(db, choice, memOk)), confirm,
      old(db.partidas != null && gSearchID in PartidaIds(db.partidas.Contents)))
    ensures choice.All? && outcome == Declined ==> db.partidas.released && !db.Valid()
    ensures !(choice.All? && outcome == Declined) ==> db.Valid()
    ensures !(choice.All? && outcome == Declined) && db.partidas != null ==>
      db.partidas.Contents == old(if outcome == Removed then Without(db.partidas.Contents, gSearchID) else db.partidas.Contents)
  {
    var resultado := Search(db, choice, memOk);
    outcome := AfterSearchAsWritten(db.teams, db.partidas, choice, resultado, confirm, gSearchID);
  }

  /**
   * viewExcluirPartida as written once the search has returned: N frees the result whatever
   * the mode, the repository's list in mode 4; S unlinks the first match whose id is `gSearchID`.
   */
  method AfterSearchAsWritten(teams: TimeDB, l: LinkedList?<Partida>, choice: Choice, resultado: LinkedList?<Partida>,
                              confirm: bool, gSearchID: int)
    returns (outcome: Outcome)
    requires Repo(teams, l, null) && (choice.All? ==> resultado == l)
    requires !choice.All? && resultado != null ==> Disjoint(teams, l, resultado)
    requires resultado != null ==> l != null
    modifies ListRepr(l), if choice.All? then {} else {resultado}
    ensures teams.times == old(teams.times) && ListRepr(teams.times) == old(ListRepr(teams.times))
    ensures l != null ==> l.Repr == old(l.Repr)
    ensures outcome == Expected(false, old(resultado == null || IsEmpty(resultado)), confirm,
      old(l != null && gSearchID in PartidaIds(l.Contents)))
    ensures choice.All? && outcome == Declined ==> l.released && !Repo(teams, l, null)
    ensures !(choice.All? && outcome == Declined) ==> Repo(teams, l, null)
    ensures !(choice.All? && outcome == Declined) && l != null ==>
      l.Contents == old(if outcome == Removed then Without(l.Contents, gSearchID) else l.Contents)
  {
    if resultado == null || IsEmpty(resultado) {
      ReleaseResult(teams, l, choice, resultado);
      return NoneFound;
    }
    outcome := ConfirmAndRemoveAsWritten(teams, l, choice, resultado, confirm, gSearchID);
  }

  /**
   * The confirmation and removal as written, once the search has found matches: N frees
   * `resultado` whatever the mode; S unlinks the first match whose id is `gSearchID`.
   */
  method ConfirmAndRemoveAsWritten(teams: TimeDB, l: LinkedList<Partida>, choice: Choice, resultado: LinkedList<Partida>,
                                   confirm: bool, gSearchID: int)
    returns (outcome: Outcome)
    requires Repo(teams, l, null) && (choice.All? ==> resultado == l)
    requires !choice.All? ==> Disjoint(teams, l, resultado)
    requires !IsEmpty(resultado)
    modifies l.Repr, if choice.All? then {} else {resultado}
    ensures teams.times == old(teams.times) && ListRepr(teams.times) == old(ListRepr(teams.times))
    ensures l.Repr == old(l.Repr)
    ensures outcome == Expected(false, false, confirm, gSearchID in old(PartidaIds(l.Contents)))
    ensures choice.All? && !confirm ==> l.released && !Repo(teams, l, null)
    ensures !(choice.All? && !confirm) ==> Repo(teams, l, null)
    ensures !(choice.All? && !confirm) ==>
      l.Contents == old(if outcome == Removed then Without(l.Contents, gSearchID) else l.Contents)
  {
    if !confirm {
      DeclineAsWritten(teams, l, choice, resultado);
      return Declined;
    }
    var removed := RemoveFromList(teams, l, gSearchID);
    outcome := if removed then Removed else NotRemoved;
    ReleaseResult(teams, l, choice, resultado);
  }

  /**
   * The N answer as written: `resultado` is freed whatever the mode, so in mode 4 the nodes of
   * the repository's own list are released.
   */
  method DeclineAsWritten(teams: TimeDB, l: LinkedList<Partida>, choice: Choice, resultado: LinkedList<Partida>)
    requires Repo(teams, l, null) && (choice.All? ==> resultado == l)
    requires !choice.All? ==> Disjoint(teams, l, resultado)
    requires !IsEmpty(resultado)
    modifies resultado
    ensures l.Repr == old(l.Repr)
    ensures teams.times == old(teams.times) && ListRepr(teams.times) == old(ListRepr(teams.times))
    ensures choice.All? ==> l.released && !Repo(teams, l, null)
    ensures !choice.All? ==> Repo(teams, l, null) && l.Contents == old(l.Contents)
  {
    if choice.All? {
      IsEmptyIffNoElements(resultado);
    }
    var destroyed := FullFree(resultado, false);
  }
}
