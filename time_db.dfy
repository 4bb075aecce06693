/**
 * The team repository (scripts/src/repo/TimeDB.c, and the earlier src/repo/TimeDB.c, which
 * behaves the same): the list of teams, the search prefix and the searched id, which the C
 * code keeps in module globals, are the fields of one `TimeDB` object.
 */
module TimeRepo {
  import opened Wrappers
  import opened Types
  import opened CStrings
  import opened LinkedLists
  import opened TimeModel

  /** The ids of a sequence of teams, in order. */
  ghost function Ids(s: seq<Time>): (r: seq<int>)
    reads set k | 0 <= k < |s| :: s[k]
    ensures |r| == |s| && forall k :: 0 <= k < |s| ==> r[k] == s[k].id
  {
    if s == [] then [] else [s[0].id] + Ids(s[1..])
  }

  /**
   * `t` is the first team of `s` whose id is `id`, the ids of `s` being `ids`: the team a
   * lookup by id walking `s` stops at.
   */
  ghost predicate FirstWithId(s: seq<Time>, ids: seq<int>, id: int, t: Time) {
    |ids| == |s| && exists k :: 0 <= k < |s| && s[k] == t && ids[k] == id && id !in ids[..k]
  }

  /** Every id is smaller than the ids after it. */
  ghost predicate Increasing(ids: seq<int>) {
    forall p, q :: 0 <= p < q < |ids| ==> ids[p] < ids[q]
  }

  /** The id addTime gives a new team: 0 for an empty repository, otherwise the last team's id plus one. */
  function NextId(ids: seq<int>): int {
    if ids == [] then 0 else ids[|ids| - 1] + 1
  }

  /** Appending `NextId` keeps the ids increasing, and the new id is not taken yet. */
  lemma NextIdKeepsIncreasing(ids: seq<int>)
    requires Increasing(ids)
    ensures NextId(ids) !in ids
    ensures Increasing(ids + [NextId(ids)])
  {
    if ids != [] {
      forall k | 0 <= k < |ids|
        ensures ids[k] < NextId(ids)
      {
        if k < |ids| - 1 {
          assert ids[k] < ids[|ids| - 1];
        }
      }
    }
  }

  /**
   * checkPrefix's meaning: the C string held in `prefix` (at most `TIME_MAX_NAME_SIZE`
   * characters) begins the team name held in `name`.
   */
  predicate PrefixOf(prefix: NameBuf, name: NameBuf) {
    CStr(prefix) <= CStr(name)
  }

  /** The prefix seen as the first characters of the name array, as checkPrefix compares them. */
  lemma PrefixOfArrays(prefix: NameBuf, name: NameBuf)
    ensures PrefixOf(prefix, name) <==> CStr(prefix) <= name
  {
    var p := CStr(prefix);
    if p <= name {
      assert forall j :: 0 <= j < |p| ==> name[j] == p[j] != NUL;
    }
  }

  /** The team accepted by checkPrefix for the given search prefix. */
  predicate TeamMatches(prefix: NameBuf, t: Time)
    reads t
  {
    PrefixOf(prefix, t.name)
  }

  /** The teams of `s` that checkPrefix accepts for `prefix`, in their order in `s`. */
  ghost function MatchingTeams(prefix: NameBuf, s: seq<Time>): (r: seq<Time>)
    reads set k | 0 <= k < |s| :: s[k]
  {
    Filter(s, (t: Time) reads t => TeamMatches(prefix, t))
  }

  /** A team is in the result of a prefix search exactly when it is in `s` and its name begins with the prefix. */
  lemma MatchingTeamsMember(prefix: NameBuf, s: seq<Time>, t: Time)
    ensures t in MatchingTeams(prefix, s) <==> t in s && CStr(prefix) <= CStr(t.name)
  {
    FilterMember(s, (t: Time) reads t => TeamMatches(prefix, t), t);
  }

  /** The empty prefix accepts every team, and the search returns the whole list. */
  lemma EmptyPrefixMatchesAll(prefix: NameBuf, s: seq<Time>)
    requires prefix[0] == NUL
    ensures MatchingTeams(prefix, s) == s
  {
    assert CStr(prefix) == [];
    FilterAllOrNone(s, (t: Time) reads t => TeamMatches(prefix, t));
  }

  /**
   * A team created under `name` is found by a search for `name`: the search prefix and the
   * team name are cut to the same length when they are stored.
   */
  lemma SearchFindsStoredName(b: NameBuf, c: NameBuf, name: NameBuf)
    ensures PrefixOf(ApplyStores(b, PrefixStores(name, TIME_MAX_NAME_SIZE - 1)),
                     ApplyStores(c, NameStores(name, 0, TIME_MAX_NAME_SIZE - 1)))
  {
    SetPrefixReadsBack(b, name);
    SetNameReadsBack(c, name);
  }

  /**
   * The character stores setPrefix makes: all `TIME_MAX_NAME_SIZE` characters of `prefix`,
   * then a NUL at `term`.
   */
  function PrefixStores(prefix: NameBuf, term: int): (r: seq<(int, char)>)
    ensures |r| == TIME_MAX_NAME_SIZE + 1 && r[TIME_MAX_NAME_SIZE] == (term, NUL)
    ensures forall k :: 0 <= k < TIME_MAX_NAME_SIZE ==> r[k] == (k, prefix[k])
    ensures 0 <= term < TIME_MAX_NAME_SIZE ==> InBounds(r)
  {
    seq(TIME_MAX_NAME_SIZE, k requires 0 <= k < TIME_MAX_NAME_SIZE => (k, prefix[k])) + [(term, NUL)]
  }

  /** setPrefix as written stores its terminator at index `TIME_MAX_NAME_SIZE`, outside the array, whatever the prefix. */
  lemma SetPrefixAsWrittenOverruns(prefix: NameBuf)
    ensures !InBounds(PrefixStores(prefix, TIME_MAX_NAME_SIZE))
  {
    var st := PrefixStores(prefix, TIME_MAX_NAME_SIZE);
    assert st[TIME_MAX_NAME_SIZE].0 == TIME_MAX_NAME_SIZE;
  }

  /** The prefix array after the corrected setPrefix: `prefix` with its last character replaced by NUL. */
  lemma {:induction false} PrefixStoresResult(b: NameBuf, prefix: NameBuf, i: nat)
    requires i <= TIME_MAX_NAME_SIZE + 1
    ensures ApplyStores(b, PrefixStores(prefix, TIME_MAX_NAME_SIZE - 1)[i..]) ==
      (if i == TIME_MAX_NAME_SIZE + 1 then b
       else if i == TIME_MAX_NAME_SIZE then b[..TIME_MAX_NAME_SIZE - 1] + [NUL]
       else b[..i] + prefix[i..TIME_MAX_NAME_SIZE - 1] + [NUL])
    decreases TIME_MAX_NAME_SIZE + 1 - i
  {
    var st := PrefixStores(prefix, TIME_MAX_NAME_SIZE - 1);
    if i <= TIME_MAX_NAME_SIZE {
      assert st[i..][1..] == st[i + 1..];
      PrefixStoresResult(b[st[i].0 := st[i].1], prefix, i + 1);
    }
  }

  /** Reading back the corrected search prefix gives the C string of `prefix`, cut like a team name. */
  lemma SetPrefixReadsBack(b: NameBuf, prefix: NameBuf)
    ensures CStr(ApplyStores(b, PrefixStores(prefix, TIME_MAX_NAME_SIZE - 1))) == CStr(prefix)[..StoredLength(prefix)]
  {
    PrefixStoresResult(b, prefix, 0);
    var st := PrefixStores(prefix, TIME_MAX_NAME_SIZE - 1);
    assert st[0..] == st;
    var r := ApplyStores(b, st);
    assert r == prefix[..TIME_MAX_NAME_SIZE - 1] + [NUL];
    var c := CStr(prefix);
    var s := c[..StoredLength(prefix)];
    assert s <= r by {
      forall j | 0 <= j < |s|
        ensures s[j] == r[j]
      {
        assert s[j] == prefix[j];
      }
    }
    CStrUnique(r, s);
  }

  /** A started team list is valid and none of its teams is part of the list's own structure. */
  ghost predicate TeamList(l: LinkedList?<Time>)
    reads l, ListRepr(l)
  {
    l != null ==>
      && l.Valid()
      && forall k :: 0 <= k < |l.Contents| ==> l.Contents[k] !in l.Repr
  }

  /**
   * addFirstTime: creates a team with id 0 and appends it. A failing `newTime` or `sllAdd`
   * returns false and leaves the list's contents as they were (the team is freed).
   */
  method AddFirstTime(l: LinkedList<Time>, name: NameBuf, memOkTeam: bool, memOkNode: bool) returns (ok: bool, ghost t: Time?)
    requires TeamList(l)
    modifies l.Repr
    ensures TeamList(l) && fresh(l.Repr - old(l.Repr))
    ensures ok <==> memOkTeam && memOkNode
    ensures !ok ==> l.Contents == old(l.Contents)
    ensures ok ==> t != null && fresh(t) && l.Contents == old(l.Contents) + [t]
    ensures ok ==> t.id == 0 && NameOf(t) == CStr(name)[..StoredLength(name)]
    ensures ok ==> Ids(l.Contents) == old(Ids(l.Contents)) + [0]
  {
    ok, t := AppendTeam(l, 0, name, memOkTeam, memOkNode);
  }

  /**
   * addNewTime: creates a team whose id is one more than the last team's (`timeGetId` of the
   * NULL that llGetLast gives for an empty list is -1) and appends it; failures as in addFirstTime.
   */
  method AddNewTime(l: LinkedList<Time>, name: NameBuf, memOkTeam: bool, memOkNode: bool) returns (ok: bool, ghost t: Time?)
    requires TeamList(l)
    modifies l.Repr
    ensures TeamList(l) && fresh(l.Repr - old(l.Repr))
    ensures ok <==> memOkTeam && memOkNode
    ensures !ok ==> l.Contents == old(l.Contents)
    ensures ok ==> t != null && fresh(t) && l.Contents == old(l.Contents) + [t]
    ensures ok ==> t.id == NextId(old(Ids(l.Contents))) && NameOf(t) == CStr(name)[..StoredLength(name)]
    ensures ok ==> Ids(l.Contents) == old(Ids(l.Contents)) + [NextId(old(Ids(l.Contents)))]
  {
    GetLastIsLast(l);
    var last := GetLast(l);
    var id := GetId(if last.Some? then last.value else null) + 1;
    assert id == NextId(Ids(l.Contents));
    ok, t := AppendTeam(l, id, name, memOkTeam, memOkNode);
  }

  /** The `newTime` and `sllAdd` that addFirstTime and addNewTime share. */
  method AppendTeam(l: LinkedList<Time>, id: int, name: NameBuf, memOkTeam: bool, memOkNode: bool) returns (ok: bool, ghost t: Time?)
    requires TeamList(l)
    modifies l.Repr
    ensures TeamList(l) && fresh(l.Repr - old(l.Repr))
    ensures ok <==> memOkTeam && memOkNode
    ensures !ok ==> l.Contents == old(l.Contents)
    ensures ok ==> t != null && fresh(t) && l.Contents == old(l.Contents) + [t]
    ensures ok ==> t.id == id && NameOf(t) == CStr(name)[..StoredLength(name)]
    ensures ok ==> Ids(l.Contents) == old(Ids(l.Contents)) + [id]
  {
    t := null;
    ghost var before := l.Contents;
    ghost var oldIds := Ids(before);
    var nt := NewTime(id, name, memOkTeam);
    if nt == null {
      return false, t;
    }
    assert Ids(before) == oldIds;
    ok := SAdd(l, Some(nt), memOkNode);
    t := nt;
    if ok {
      assert Ids(l.Contents) == oldIds + [nt.id] by {
        assert l.Contents[..|before|] == before;
      }
    }
  }

  /** The stores of setPrefix, made on the array `b`: every character of `prefix`, then the terminator. */
  method CopyPrefix(b: NameBuf, prefix: NameBuf) returns (r: NameBuf)
    ensures r == ApplyStores(b, PrefixStores(prefix, TIME_MAX_NAME_SIZE - 1))
    ensures r == prefix[TIME_MAX_NAME_SIZE - 1 := NUL]
  {
    r := b;
    for i := 0 to TIME_MAX_NAME_SIZE
      invariant r == prefix[..i] + b[i..]
    {
      r := r[i := prefix[i]];
    }
    r := r[TIME_MAX_NAME_SIZE - 1 := NUL];
    PrefixStoresResult(b, prefix, 0);
    assert PrefixStores(prefix, TIME_MAX_NAME_SIZE - 1)[0..] == PrefixStores(prefix, TIME_MAX_NAME_SIZE - 1);
    assert r == prefix[..TIME_MAX_NAME_SIZE - 1] + [NUL];
  }

  /** The loop of checkPrefix over the two arrays. */
  method ComparePrefix(prefix: NameBuf, name: NameBuf) returns (r: bool)
    ensures r <==> CStr(prefix) <= name
  {
    var i := 0;
    while i < TIME_MAX_NAME_SIZE
      invariant 0 <= i <= TIME_MAX_NAME_SIZE
      invariant forall j :: 0 <= j < i ==> prefix[j] != NUL && name[j] == prefix[j]
    {
      if prefix[i] == NUL {
        CStrUnique(prefix, prefix[..i]);
        assert prefix[..i] == name[..i];
        return true;
      }
      if name[i] != prefix[i] {
        ghost var c := CStr(prefix);
        assert |c| > i && c[i] == prefix[i] by {
          assert forall j :: 0 <= j <= i ==> prefix[j] != NUL;
        }
        return false;
      }
      i := i + 1;
    }
    CStrUnique(prefix, prefix);
    assert prefix == name;
    return true;
  }

  class TimeDB {
    /** `timeDB.times`: NULL until the repository is started. */
    var times: LinkedList?<Time>
    /** `prefixSearch`: the prefix checkPrefix compares against. */
    var prefixSearch: NameBuf
    /** `timeIDSearch`: the id timeGetById compares against. */
    var timeIdSearch: int

    /** The repository invariant: the team list, when there is one, is sound and does not hold the repository itself. */
    ghost predicate Valid()
      reads this, times, ListRepr(times)
    {
      TeamList(times) && (times != null ==> this !in times.Repr)
    }

    /** The ids of the teams, in list order. */
    ghost function TeamIds(): seq<int>
      requires times != null
      reads this, times, set k | 0 <= k < |times.Contents| :: times.Contents[k]
    {
      Ids(times.Contents)
    }

    /** The static globals before any call: no list, a zeroed prefix, id 0. */
    constructor ()
      ensures Valid() && times == null
    {
      times := null;
      prefixSearch := seq(TIME_MAX_NAME_SIZE, _ => NUL);
      timeIdSearch := 0;
    }

    /** timeDBStarted. */
    predicate Started(): (r: bool)
      reads this
      ensures r <==> times != null
    {
      times != null
    }

    /**
     * startTimeDB without its CSV rows: creates the empty list the first time, and reports whether
     * a list exists.
     */
    method Start(memOk: bool) returns (ok: bool)
      requires Valid()
      modifies this
      ensures Valid() && ok == Started()
      ensures old(times) != null ==> times == old(times)
      ensures old(times) == null ==> (times != null <==> memOk)
      ensures old(times) == null && times != null ==> fresh(times.Repr) && times.Contents == []
      ensures prefixSearch == old(prefixSearch) && timeIdSearch == old(timeIdSearch)
    {
      if times == null {
        times := NewLinkedList(memOk);
      }
      ok := times != null;
    }

    /**
     * addTime: refuses when the repository is not started; otherwise creates a team named
     * `name` with id `NextId` of the current ids and appends it at the tail. `memOkTeam` and
     * `memOkNode` say whether the team and its list node can be allocated; a failure leaves the
     * list as it was.
     */
    method AddTime(name: NameBuf, memOkTeam: bool, memOkNode: bool) returns (ok: bool, ghost t: Time?)
      requires Valid()
      modifies this, ListRepr(times)
      ensures Valid() && times == old(times)
      ensures prefixSearch == old(prefixSearch) && timeIdSearch == old(timeIdSearch)
      ensures ok <==> old(times) != null && memOkTeam && memOkNode
      ensures times != null ==> fresh(times.Repr - old(times.Repr))
      ensures times != null && !ok ==> times.Contents == old(times.Contents)
      ensures ok ==> t != null && fresh(t) && times.Contents == old(times.Contents) + [t]
      ensures ok ==> t.id == NextId(old(TeamIds())) && NameOf(t) == CStr(name)[..StoredLength(name)]
      ensures ok ==> TeamIds() == old(TeamIds()) + [NextId(old(TeamIds()))]
    {
      t := null;
      if times == null {
        return false, t;
      }
      if IsEmpty(times) {
        IsEmptyIffNoElements(times);
        ok, t := AddFirstTime(times, name, memOkTeam, memOkNode);
      } else {
        ok, t := AddNewTime(times, name, memOkTeam, memOkNode);
      }
    }

    /**
     * setPrefix with its terminator stored at the last index of the array: copies every
     * character of `prefix` into the search prefix.
     */
    method SetPrefix(prefix: NameBuf)
      requires Valid()
      modifies this
      ensures Valid() && times == old(times) && timeIdSearch == old(timeIdSearch)
      ensures prefixSearch == ApplyStores(old(prefixSearch), PrefixStores(prefix, TIME_MAX_NAME_SIZE - 1))
      ensures prefixSearch == prefix[TIME_MAX_NAME_SIZE - 1 := NUL]
    {
      var buf := CopyPrefix(prefixSearch, prefix);
      prefixSearch := buf;
    }

    /**
     * checkPrefix: compares the search prefix with the team's name character by character,
     * accepting at the prefix's first NUL or after `TIME_MAX_NAME_SIZE` equal characters.
     */
    method CheckPrefix(t: Time) returns (r: bool)
      ensures r <==> TeamMatches(prefixSearch, t)
    {
      r := ComparePrefix(prefixSearch, t.name);
      PrefixOfArrays(prefixSearch, t.name);
    }

    /** searchByPrefix: stores the prefix, then filters the teams with checkPrefix into a new list. */
    method SearchByPrefix(prefix: NameBuf, memOk: bool) returns (r: LinkedList?<Time>)
      requires Valid()
      modifies this
      ensures Valid() && times == old(times) && timeIdSearch == old(timeIdSearch)
      ensures prefixSearch == prefix[TIME_MAX_NAME_SIZE - 1 := NUL]
      ensures r != null <==> times != null && memOk
      ensures r != null ==> fresh(r.Repr) && r.Valid() && r.Contents == MatchingTeams(prefixSearch, times.Contents)
    {
      SetPrefix(prefix);
      var p := prefixSearch;
      r := SearchAll(times, Some((t: Time) reads t => TeamMatches(p, t)), memOk);
    }

    /** timeDBGetByID: stores the id, then returns the first team that has it, or NULL. */
    method GetById(id: int) returns (r: Time?)
      requires Valid()
      modifies this
      ensures Valid() && times == old(times) && prefixSearch == old(prefixSearch) && timeIdSearch == id
      ensures times == null ==> r == null
      ensures times != null ==> (r == null <==> id !in TeamIds())
      ensures r != null ==> times != null && FirstWithId(times.Contents, TeamIds(), id, r)
    {
      timeIdSearch := id;
      var found := FindFirst(times, Some((t: Time) reads t => t.id == id));
      r := if found.Some? then found.value else null;
    }

    /** timeDBGetAllTimes: the repository's own list, not a copy. */
    function GetAllTimes(): (r: LinkedList?<Time>)
      reads this
      ensures r == times
    {
      times
    }
  }

  /** With increasing ids, the team a lookup by id returns is the only one that has the id. */
  lemma GetByIdUnique(s: seq<Time>, k: int, id: int)
    requires Increasing(Ids(s)) && 0 <= k < |s| && s[k].id == id
    ensures forall j :: 0 <= j < |s| && s[j].id == id ==> j == k
  {
    forall j | 0 <= j < |s| && s[j].id == id
      ensures j == k
    {
      assert Ids(s)[j] == Ids(s)[k];
    }
  }
}
