/**
 * The match repository (scripts/src/repo/PartidaDB.c): the committed list of matches, the
 * single-slot insert journal and the searched id, which the C code keeps in globals, are the
 * fields of one `PartidaDB` object, next to the team repository it looks teams up in.
 */
module PartidaRepo {
  import opened Wrappers
  import opened Types
  import opened CStrings
  import opened LinkedLists
  import opened TimeModel
  import opened PartidaModel
  import opened TimeRepo

  /** The ids of a sequence of matches, in order (a match's id never changes). */
  function PartidaIds(s: seq<Partida>): (r: seq<int>)
    ensures |r| == |s| && forall k :: 0 <= k < |s| ==> r[k] == s[k].id
  {
    if s == [] then [] else [s[0].id] + PartidaIds(s[1..])
  }

  /** The teams the matches `s` name, on either side. */
  ghost function Sides(s: seq<Partida>): set<Time?> {
    (set p | p in s :: p.t1) + (set p | p in s :: p.t2)
  }

  /**
   * checkPrefix applied to one side of a match. A NULL team is accepted only by the empty
   * prefix, the one case in which checkPrefix returns before reading the name.
   */
  predicate SideMatches(prefix: NameBuf, t: Time?)
    reads t
  {
    if t == null then CStr(prefix) == [] else TeamMatches(prefix, t)
  }

  /** partidaDBMandantePrefixCheck: the home team passes checkPrefix. */
  predicate HomeCheck(prefix: NameBuf, p: Partida): (r: bool)
    reads p.t1
    ensures p.t1 != null ==> (r <==> CStr(prefix) <= CStr(p.t1.name))
    ensures p.t1 == null ==> (r <==> CStr(prefix) == [])
  {
    SideMatches(prefix, p.t1)
  }

  /** partidaDBVisitantePrefixCheck: the visiting team passes checkPrefix. */
  predicate AwayCheck(prefix: NameBuf, p: Partida): (r: bool)
    reads p.t2
    ensures p.t2 != null ==> (r <==> CStr(prefix) <= CStr(p.t2.name))
    ensures p.t2 == null ==> (r <==> CStr(prefix) == [])
  {
    SideMatches(prefix, p.t2)
  }

  /** partidaDBMandanteOrVisitantePrefixCheck: either team passes checkPrefix. */
  predicate EitherCheck(prefix: NameBuf, p: Partida): (r: bool)
    reads p.t1, p.t2
    ensures r <==>
      || (p.t1 != null && CStr(prefix) <= CStr(p.t1.name))
      || (p.t2 != null && CStr(prefix) <= CStr(p.t2.name))
      || ((p.t1 == null || p.t2 == null) && CStr(prefix) == [])
  {
    HomeCheck(prefix, p) || AwayCheck(prefix, p)
  }

  /** The matches of `s` whose home team passes checkPrefix, in order. */
  ghost function HomeMatches(prefix: NameBuf, s: seq<Partida>): seq<Partida>
    reads set k | 0 <= k < |s| :: s[k].t1
  {
    Filter(s, (p: Partida) reads p.t1 => HomeCheck(prefix, p))
  }

  /** The matches of `s` whose visiting team passes checkPrefix, in order. */
  ghost function AwayMatches(prefix: NameBuf, s: seq<Partida>): seq<Partida>
    reads set k | 0 <= k < |s| :: s[k].t2
  {
    Filter(s, (p: Partida) reads p.t2 => AwayCheck(prefix, p))
  }

  /** The matches of `s` in which either team passes checkPrefix, in order. */
  ghost function EitherMatches(prefix: NameBuf, s: seq<Partida>): seq<Partida>
    reads set k | 0 <= k < |s| :: s[k].t1, set k | 0 <= k < |s| :: s[k].t2
  {
    Filter(s, (p: Partida) reads p.t1, p.t2 => EitherCheck(prefix, p))
  }

  /** A match is in the either-side result exactly when it is in the home result or in the away result. */
  lemma EitherIsHomeOrAway(prefix: NameBuf, s: seq<Partida>, p: Partida)
    ensures p in EitherMatches(prefix, s) <==> p in HomeMatches(prefix, s) || p in AwayMatches(prefix, s)
  {
    FilterMember(s, (p: Partida) reads p.t1, p.t2 => EitherCheck(prefix, p), p);
    FilterMember(s, (p: Partida) reads p.t1 => HomeCheck(prefix, p), p);
    FilterMember(s, (p: Partida) reads p.t2 => AwayCheck(prefix, p), p);
  }

  /** A match is in the home result exactly when it is in `s` and its home team's name begins with the prefix. */
  lemma HomeMatchesMember(prefix: NameBuf, s: seq<Partida>, p: Partida)
    requires p.t1 != null
    ensures p in HomeMatches(prefix, s) <==> p in s && CStr(prefix) <= CStr(p.t1.name)
  {
    FilterMember(s, (p: Partida) reads p.t1 => HomeCheck(prefix, p), p);
  }

  /**
   * A started match list is valid, none of its matches is part of the list's own structure,
   * every match names two teams and the ids increase along the list.
   */
  ghost predicate MatchList(l: LinkedList?<Partida>)
    reads l, ListRepr(l)
  {
    l != null ==>
      && l.Valid()
      && (forall k :: 0 <= k < |l.Contents| ==> l.Contents[k] !in l.Repr)
      && (forall k :: 0 <= k < |l.Contents| ==> l.Contents[k].t1 != null && l.Contents[k].t2 != null)
      && Increasing(PartidaIds(l.Contents))
  }

  /** A staged match belongs to a started repository, is not in its list, names two teams and has the next id. */
  ghost predicate Staged(j: Partida?, l: LinkedList?<Partida>)
    reads l
  {
    j != null ==>
      && l != null && j !in l.Repr
      && j.id == NextId(PartidaIds(l.Contents))
      && j.t1 != null && j.t2 != null
  }

  /**
   * The state of the match repository apart from its own object: the team repository is sound,
   * the committed list is sound and apart from the team list, and `j` is a match fit to stage.
   */
  ghost predicate Repo(teams: TimeDB, l: LinkedList?<Partida>, j: Partida?)
    reads teams, teams.times, ListRepr(teams.times), l, ListRepr(l)
  {
    && teams.Valid()
    && MatchList(l)
    && Staged(j, l)
    && (l != null ==> teams !in l.Repr && ListRepr(teams.times) !! l.Repr)
  }

  /** The sllAdd of partidaDBInsertCommit: appends the staged match, keeping the list sound. */
  method Commit(teams: TimeDB, l: LinkedList?<Partida>, j: Partida?, memOk: bool, ghost others: set<object>) returns (ok: bool)
    requires Repo(teams, l, j) && others !! ListRepr(l)
    modifies ListRepr(l)
    ensures Repo(teams, l, if ok then null else j) && others !! ListRepr(l)
    ensures ok <==> l != null && j != null && memOk
    ensures l != null ==> fresh(l.Repr - old(l.Repr))
    ensures ok ==> l.Contents == old(l.Contents) + [j]
    ensures l != null && !ok ==> l.Contents == old(l.Contents)
  {
    var staged: Option<Partida> := None;
    if j != null {
      staged := Some(j);
    }
    ghost var before := if l == null then [] else l.Contents;
    ok := SAdd(l, staged, memOk);
    if ok {
      NextMatchKeepsIncreasing(before, j);
    }
  }

  /** Appending a match carrying the next id keeps the ids increasing. */
  lemma NextMatchKeepsIncreasing(s: seq<Partida>, j: Partida)
    requires Increasing(PartidaIds(s)) && j.id == NextId(PartidaIds(s))
    ensures Increasing(PartidaIds(s + [j]))
  {
    var ids := PartidaIds(s);
    assert PartidaIds(s + [j]) == ids + [j.id] by {
      assert PartidaIds(s + [j])[..|ids|] == ids;
    }
    NextIdKeepsIncreasing(ids);
  }

  /** The llFindFirst of partidaDBGetById: the first match of the list with id `id`, or NULL. */
  method FindMatch(l: LinkedList<Partida>, id: int) returns (r: Partida?)
    requires MatchList(l)
    ensures r == null <==> id !in PartidaIds(l.Contents)
    ensures r != null ==> r.id == id && r in l.Contents
  {
    var found := FindFirst(l, Some((p: Partida) => p.id == id));
    r := if found.Some? then found.value else null;
  }

  /**
   * nextPartidaID: one more than the id of the last committed match, where the id of the last
   * match of an empty list reads as -1; it is thus `NextId` of the committed ids in every case.
   */
  method NextPartidaID(l: LinkedList<Partida>) returns (r: int)
    requires MatchList(l)
    ensures r == NextId(PartidaIds(l.Contents))
  {
    GetLastIsLast(l);
    var last := GetLast(l);
    r := PartidaModel.GetId(if last.Some? then last.value else null) + 1;
  }

  /**
   * The match addPartida stages: id 0 for an empty list, `nextPartidaID` otherwise, and the
   * given teams and goals; NULL when `malloc` fails.
   */
  method NewStaged(teams: TimeDB, l: LinkedList<Partida>, t1: Time, t2: Time, gT1: int, gT2: int, memOk: bool) returns (j: Partida?)
    requires Repo(teams, l, null)
    ensures Repo(teams, l, j)
    ensures j != null <==> memOk
    ensures j != null ==> fresh(j) && j.id == NextId(PartidaIds(l.Contents))
    ensures j != null ==> j.t1 == t1 && j.t2 == t2 && j.golsT1 == gT1 && j.golsT2 == gT2
  {
    var id;
    if IsEmpty(l) {
      IsEmptyIffNoElements(l);
      id := 0;
    } else {
      id := NextPartidaID(l);
    }
    j := NewPartida(id, t1, t2, gT1, gT2, memOk);
  }

  /** The side of a match a search compares the prefix with: the home team, the visiting team or either. */
  datatype Role = Home | Away | Either

  /** The matches of `s`, in order, whose team in the role `role` passes checkPrefix with `prefix`. */
  ghost function RoleMatches(role: Role, prefix: NameBuf, s: seq<Partida>): seq<Partida>
    reads set k | 0 <= k < |s| :: s[k].t1, set k | 0 <= k < |s| :: s[k].t2
  {
    match role
    case Home => HomeMatches(prefix, s)
    case Away => AwayMatches(prefix, s)
    case Either => EitherMatches(prefix, s)
  }

  /**
   * setPrefix as the match searches call it: only the stored prefix changes, so the repository
   * stays sound and the matches of `l` that pass checkPrefix with the prefix it stores stay the same.
   */
  method StorePrefix(teams: TimeDB, timeName: NameBuf, ghost l: LinkedList<Partida>, ghost j: Partida?, ghost role: Role)
    requires Repo(teams, l, j)
    modifies teams
    ensures Repo(teams, l, j) && teams.times == old(teams.times) && teams.timeIdSearch == old(teams.timeIdSearch)
    ensures teams.prefixSearch == timeName[TIME_MAX_NAME_SIZE - 1 := NUL]
    ensures RoleMatches(role, teams.prefixSearch, l.Contents) == old(RoleMatches(role, timeName[TIME_MAX_NAME_SIZE - 1 := NUL], l.Contents))
  {
    teams.SetPrefix(timeName);
  }

  /** The llSearchAll call of a match search: a new list of the matches of `l` whose team in the role `role` passes checkPrefix with `p`. */
  method SearchRole(l: LinkedList<Partida>, p: NameBuf, memOk: bool, role: Role) returns (r: LinkedList?<Partida>)
    requires l.Valid()
    ensures r != null <==> memOk
    ensures r != null ==> fresh(r.Repr) && r.Valid() && r.Contents == RoleMatches(role, p, l.Contents)
  {
    match role
    case Home =>
      r := SearchAll(l, Some((m: Partida) reads m.t1 => HomeCheck(p, m)), memOk);
    case Away =>
      r := SearchAll(l, Some((m: Partida) reads m.t2 => AwayCheck(p, m)), memOk);
    case Either =>
      r := SearchAll(l, Some((m: Partida) reads m.t1, m.t2 => EitherCheck(p, m)), memOk);
  }

  /**
   * The body of the three match searches once both repositories are started: stores the
   * prefix, then lets llSearchAll filter the committed matches by the team in the role `role`.
   */
  method StoreAndSearch(teams: TimeDB, l: LinkedList<Partida>, j: Partida?, timeName: NameBuf, memOk: bool, role: Role)
    returns (r: LinkedList?<Partida>)
    requires Repo(teams, l, j) && teams.times != null
    modifies teams
    ensures Repo(teams, l, j) && teams.times == old(teams.times) && teams.timeIdSearch == old(teams.timeIdSearch)
    ensures teams.prefixSearch == timeName[TIME_MAX_NAME_SIZE - 1 := NUL]
    ensures r != null <==> memOk
    ensures r != null ==> fresh(r.Repr) && r.Valid() && r.Contents == RoleMatches(role, teams.prefixSearch, l.Contents)
    ensures r != null ==> r.Contents == old(RoleMatches(role, timeName[TIME_MAX_NAME_SIZE - 1 := NUL], l.Contents))
  {
    StorePrefix(teams, timeName, l, j, role);
    r := SearchRole(l, teams.prefixSearch, memOk, role);
  }

  class PartidaDB {
    /** The team repository the matches refer to. */
    const teams: TimeDB
    /** `partidaDB.partidas`: NULL until the repository is started. */
    var partidas: LinkedList?<Partida>
    /** `partidaJournal`: the match staged by addPartida and not yet committed; NULL when idle. */
    var journal: Partida?
    /** `partidaIDSearch`: the id partidaGetById compares against. */
    var partidaIdSearch: int

    /**
     * The repository invariant: the committed list is sound and apart from the team repository,
     * and a staged match carries the id the next commit gives.
     */
    ghost predicate Valid()
      reads this, teams, teams.times, ListRepr(teams.times), partidas, ListRepr(partidas)
    {
      && Repo(teams, partidas, journal)
      && this !in ListRepr(teams.times)
      && (partidas != null ==> this !in partidas.Repr)
    }

    /** The static globals before any call: no list, no staged match. */
    constructor (teams: TimeDB)
      requires teams.Valid()
      ensures Valid() && this.teams == teams && partidas == null && journal == null
    {
      this.teams := teams;
      partidas := null;
      journal := null;
      partidaIdSearch := 0;
    }

    /**
     * startPartidaDB without its CSV rows: creates the empty list the first time, and reports
     * whether a list exists.
     */
    method Start(memOk: bool) returns (ok: bool)
      requires Valid()
      modifies this
      ensures Valid() && ok == (partidas != null)
      ensures journal == old(journal) && partidaIdSearch == old(partidaIdSearch)
      ensures old(partidas) != null ==> partidas == old(partidas)
      ensures old(partidas) == null ==> (partidas != null <==> memOk)
      ensures old(partidas) == null && partidas != null ==> fresh(partidas.Repr) && partidas.Contents == []
    {
      if partidas == null {
        partidas := NewLinkedList(memOk);
      }
      ok := partidas != null;
    }

    /** partidaDBStartInsertTransaction: a new insert may start exactly when no match is staged. */
    method StartInsertTransaction() returns (r: bool)
      ensures r <==> journal == null
    {
      if journal == null {
        return true;
      }
      return false;
    }

    /**
     * addPartida: stages a new match after its checks, made in this order: the repository is
     * started, no match is staged, the two ids differ, the home team exists, the visiting team
     * exists; the first that fails decides the result. The committed list never changes; the
     * team lookups store the searched id in the team repository.
     */
    method AddPartida(t1Id: int, t2Id: int, gT1: int, gT2: int, memOk: bool) returns (resp: AddPartidaResponse)
      requires Valid()
      modifies this, teams
      ensures Valid()
      ensures partidas == old(partidas) && (partidas != null ==> partidas.Contents == old(partidas.Contents))
      ensures teams.times == old(teams.times) && teams.prefixSearch == old(teams.prefixSearch)
      ensures resp == (
        if old(partidas) == null then PartidaDatabaseNotStartedYet
        else if old(journal) != null then AnotherTransactionNotClose
        else if t1Id == t2Id then Time1EqualsTime2
        else if old(teams.times) == null || t1Id !in old(teams.TeamIds()) then Time1DoesNotExists
        else if t2Id !in old(teams.TeamIds()) then Time2DoesNotExists
        else if !memOk then MemoryNotEnoughException
        else Success)
      ensures resp == AnotherTransactionNotClose ==> journal == old(journal)
      ensures resp != AnotherTransactionNotClose ==> (journal != null <==> resp == Success)
      ensures resp == Success ==> fresh(journal) && journal.id == NextId(PartidaIds(partidas.Contents))
      ensures resp == Success ==> journal.t1 != null && journal.t2 != null
      ensures resp == Success ==> FirstWithId(old(teams.times.Contents), old(teams.TeamIds()), t1Id, journal.t1)
      ensures resp == Success ==> FirstWithId(old(teams.times.Contents), old(teams.TeamIds()), t2Id, journal.t2)
      ensures resp == Success ==> journal.golsT1 == gT1 && journal.golsT2 == gT2
      ensures partidaIdSearch == old(partidaIdSearch)
    {
      if partidas == null {
        return PartidaDatabaseNotStartedYet;
      }
      if journal != null {
        return AnotherTransactionNotClose;
      }
      if t1Id == t2Id {
        return Time1EqualsTime2;
      }
      resp := LookupAndStage(t1Id, t2Id, gT1, gT2, memOk);
    }

    /** The team lookups of addPartida, then the staging, once the first three checks have passed. */
    method LookupAndStage(t1Id: int, t2Id: int, gT1: int, gT2: int, memOk: bool) returns (resp: AddPartidaResponse)
      requires Valid() && partidas != null && journal == null && t1Id != t2Id
      modifies this, teams
      ensures Valid() && partidas == old(partidas)
      ensures teams.times == old(teams.times) && teams.prefixSearch == old(teams.prefixSearch)
      ensures resp == (
        if old(teams.times) == null || t1Id !in old(teams.TeamIds()) then Time1DoesNotExists
        else if t2Id !in old(teams.TeamIds()) then Time2DoesNotExists
        else if !memOk then MemoryNotEnoughException
        else Success)
      ensures journal != null <==> resp == Success
      ensures resp == Success ==> fresh(journal) && journal.id == NextId(PartidaIds(partidas.Contents))
      ensures resp == Success ==> journal.t1 != null && journal.t2 != null
      ensures resp == Success ==> FirstWithId(old(teams.times.Contents), old(teams.TeamIds()), t1Id, journal.t1)
      ensures resp == Success ==> FirstWithId(old(teams.times.Contents), old(teams.TeamIds()), t2Id, journal.t2)
      ensures resp == Success ==> journal.golsT1 == gT1 && journal.golsT2 == gT2
      ensures partidaIdSearch == old(partidaIdSearch)
    {
      var t1 := FindTeam(t1Id);
      if t1 == null {
        return Time1DoesNotExists;
      }
      resp := LookupAwayAndStage(t1, t2Id, gT1, gT2, memOk);
    }

    /** The visiting team's lookup of addPartida, then the staging, once the home team is found. */
    method LookupAwayAndStage(t1: Time, t2Id: int, gT1: int, gT2: int, memOk: bool) returns (resp: AddPartidaResponse)
      requires Valid() && partidas != null && journal == null && teams.times != null
      modifies this, teams
      ensures Valid() && partidas == old(partidas)
      ensures teams.times == old(teams.times) && teams.prefixSearch == old(teams.prefixSearch)
      ensures resp == (
        if t2Id !in old(teams.TeamIds()) then Time2DoesNotExists
        else if !memOk then MemoryNotEnoughException
        else Success)
      ensures journal != null <==> resp == Success
      ensures resp == Success ==> fresh(journal) && journal.id == NextId(PartidaIds(partidas.Contents))
      ensures resp == Success ==> journal.t1 == t1 && journal.t2 != null
      ensures resp == Success ==> FirstWithId(old(teams.times.Contents), old(teams.TeamIds()), t2Id, journal.t2)
      ensures resp == Success ==> journal.golsT1 == gT1 && journal.golsT2 == gT2
      ensures partidaIdSearch == old(partidaIdSearch)
    {
      var t2 := FindTeam(t2Id);
      if t2 == null {
        return Time2DoesNotExists;
      }
      resp := Stage(t1, t2, gT1, gT2, memOk);
    }

    /** timeDBGetByID as addPartida calls it: the team with that id, or NULL; only the team repository's searched id changes. */
    method FindTeam(id: int) returns (t: Time?)
      requires Valid()
      modifies teams
      ensures Valid() && teams.times == old(teams.times) && teams.prefixSearch == old(teams.prefixSearch)
      ensures teams.times != null ==> teams.TeamIds() == old(teams.TeamIds())
      ensures t == null <==> teams.times == null || id !in teams.TeamIds()
      ensures t != null ==> teams.times != null && FirstWithId(teams.times.Contents, teams.TeamIds(), id, t)
      ensures partidaIdSearch == old(partidaIdSearch)
    {
      t := teams.GetById(id);
    }

    /** The end of addPartida: stages a match between the two found teams, with the next id. */
    method Stage(t1: Time, t2: Time, gT1: int, gT2: int, memOk: bool) returns (resp: AddPartidaResponse)
      requires Valid() && partidas != null && journal == null
      modifies this
      ensures Valid() && partidas == old(partidas) && partidaIdSearch == old(partidaIdSearch)
      ensures resp == (if memOk then Success else MemoryNotEnoughException)
      ensures journal != null <==> memOk
      ensures memOk ==> fresh(journal) && journal.id == NextId(PartidaIds(partidas.Contents))
      ensures memOk ==> journal.t1 == t1 && journal.t2 == t2 && journal.golsT1 == gT1 && journal.golsT2 == gT2
    {
      var j := NewStaged(teams, partidas, t1, t2, gT1, gT2, memOk);
      journal := j;
      resp := if j == null then MemoryNotEnoughException else Success;
    }

    /**
     * partidaDBInsertCommit: appends the staged match at the tail and clears the journal. When
     * sllAdd refuses (no list, nothing staged, or no memory for the node) it returns false and
     * changes neither.
     */
    method InsertCommit(memOk: bool) returns (ok: bool)
      requires Valid()
      modifies this, ListRepr(partidas)
      ensures Valid() && partidas == old(partidas)
      ensures ok <==> old(partidas) != null && old(journal) != null && memOk
      ensures ok ==> journal == null && partidas.Contents == old(partidas.Contents) + [old(journal)]
      ensures !ok ==> journal == old(journal) && (partidas != null ==> partidas.Contents == old(partidas.Contents))
      ensures partidas != null ==> fresh(partidas.Repr - old(partidas.Repr))
    {
      ok := Commit(teams, partidas, journal, memOk, {this});
      if !ok {
        return false;
      }
      journal := null;
      return true;
    }

    /**
     * partidaDBInsertRollBack: destroys the staged match, if any, and clears the journal; the
     * committed list is untouched. `destroyed` is the match freed.
     */
    method InsertRollBack() returns (ghost destroyed: Option<Partida>)
      requires Valid()
      modifies this
      ensures Valid() && journal == null
      ensures destroyed.None? <==> old(journal) == null
      ensures destroyed.Some? ==> destroyed.value == old(journal)
      ensures partidas == old(partidas) && partidaIdSearch == old(partidaIdSearch)
    {
      destroyed := None;
      if journal != null {
        destroyed := Some(journal);
        journal := null;
      }
    }

    /**
     * partidaDBSearchMandante: NULL unless both repositories are started; otherwise stores the
     * prefix and filters the committed matches by their home team.
     */
    method SearchMandante(timeName: NameBuf, memOk: bool) returns (r: LinkedList?<Partida>)
      requires Valid()
      modifies teams
      ensures Valid() && teams.times == old(teams.times) && teams.timeIdSearch == old(teams.timeIdSearch)
      ensures teams.times == null || partidas == null ==> teams.prefixSearch == old(teams.prefixSearch)
      ensures r != null <==> teams.times != null && partidas != null && memOk
      ensures r != null ==> teams.prefixSearch == timeName[TIME_MAX_NAME_SIZE - 1 := NUL]
      ensures r != null ==> fresh(r.Repr) && r.Valid() && r.Contents == HomeMatches(teams.prefixSearch, partidas.Contents)
      ensures r != null ==> r.Contents == old(HomeMatches(timeName[TIME_MAX_NAME_SIZE - 1 := NUL], partidas.Contents))
    {
      if !teams.Started() || partidas == null {
        return null;
      }
      r := StoreAndSearch(teams, partidas, journal, timeName, memOk, Home);
    }

    /**
     * partidaDBSearchVisitante: NULL unless both repositories are started; otherwise stores the
     * prefix and filters the committed matches by their visiting team.
     */
    method SearchVisitante(timeName: NameBuf, memOk: bool) returns (r: LinkedList?<Partida>)
      requires Valid()
      modifies teams
      ensures Valid() && teams.times == old(teams.times) && teams.timeIdSearch == old(teams.timeIdSearch)
      ensures teams.times == null || partidas == null ==> teams.prefixSearch == old(teams.prefixSearch)
      ensures r != null <==> teams.times != null && partidas != null && memOk
      ensures r != null ==> teams.prefixSearch == timeName[TIME_MAX_NAME_SIZE - 1 := NUL]
      ensures r != null ==> fresh(r.Repr) && r.Valid() && r.Contents == AwayMatches(teams.prefixSearch, partidas.Contents)
      ensures r != null ==> r.Contents == old(AwayMatches(timeName[TIME_MAX_NAME_SIZE - 1 := NUL], partidas.Contents))
    {
      if !teams.Started() || partidas == null {
        return null;
      }
      r := StoreAndSearch(teams, partidas, journal, timeName, memOk, Away);
    }

    /**
     * partidaDBSearchMandanteOrVisitante: NULL unless both repositories are started; otherwise
     * stores the prefix and filters the committed matches by either team.
     */
    method SearchMandanteOrVisitante(timeName: NameBuf, memOk: bool) returns (r: LinkedList?<Partida>)
      requires Valid()
      modifies teams
      ensures Valid() && teams.times == old(teams.times) && teams.timeIdSearch == old(teams.timeIdSearch)
      ensures teams.times == null || partidas == null ==> teams.prefixSearch == old(teams.prefixSearch)
      ensures r != null <==> teams.times != null && partidas != null && memOk
      ensures r != null ==> teams.prefixSearch == timeName[TIME_MAX_NAME_SIZE - 1 := NUL]
      ensures r != null ==> fresh(r.Repr) && r.Valid() && r.Contents == EitherMatches(teams.prefixSearch, partidas.Contents)
      ensures r != null ==> r.Contents == old(EitherMatches(timeName[TIME_MAX_NAME_SIZE - 1 := NUL], partidas.Contents))
    {
      if !teams.Started() || partidas == null {
        return null;
      }
      r := StoreAndSearch(teams, partidas, journal, timeName, memOk, Either);
    }

    /** partidaDBGetById: NULL when the repository is not started; otherwise the first match with that id, or NULL. */
    method GetById(id: int) returns (r: Partida?)
      requires Valid()
      modifies this
      ensures Valid() && partidas == old(partidas) && journal == old(journal)
      ensures partidas != null ==> partidaIdSearch == id
      ensures partidas == null ==> r == null
      ensures partidas != null ==> (r == null <==> id !in PartidaIds(partidas.Contents))
      ensures r != null ==> partidas != null && r.id == id && r in partidas.Contents
    {
      if partidas == null {
        return null;
      }
      partidaIdSearch := id;
      r := FindMatch(partidas, id);
    }

    /** partidaDBGetAllPartidas: the repository's own list, not a copy. */
    function GetAllPartidas(): (r: LinkedList?<Partida>)
      reads this
      ensures r == partidas
    {
      partidas
    }
  }

  /** Matches are found by id without ambiguity: increasing ids leave at most one match per id. */
  lemma PartidaIdsUnique(s: seq<Partida>, j: int, k: int)
    requires Increasing(PartidaIds(s)) && 0 <= j < |s| && 0 <= k < |s| && s[j].id == s[k].id
    ensures j == k
  {
    assert PartidaIds(s)[j] == PartidaIds(s)[k];
  }
}
