/**
 * A team (`Time`): an id and a name held in a `char[TIME_MAX_NAME_SIZE]` array inside the
 * struct (scripts/src/model/Time.c, src/model/Time.c).
 */
module TimeModel {
  import opened Wrappers
  import opened Types
  import opened CStrings

  class Time {
    var id: int
    var name: NameBuf

    /** The struct as `malloc` returns it, with its id set; the name bytes are taken to be NUL. */
    constructor (id: int)
      ensures this.id == id && name == seq(TIME_MAX_NAME_SIZE, _ => NUL)
    {
      this.id := id;
      name := seq(TIME_MAX_NAME_SIZE, _ => NUL);
    }

    /**
     * tSetName with its terminator stored at the last index of the array: copies `n` up to and
     * including its first NUL, at most `TIME_MAX_NAME_SIZE` characters.
     */
    method SetName(n: NameBuf)
      modifies this
      ensures id == old(id)
      ensures name == ApplyStores(old(name), NameStores(n, 0, TIME_MAX_NAME_SIZE - 1))
    {
      var i := 0;
      while i < TIME_MAX_NAME_SIZE
        invariant 0 <= i <= TIME_MAX_NAME_SIZE && id == old(id)
        invariant ApplyStores(name, NameStores(n, i, TIME_MAX_NAME_SIZE - 1))
               == ApplyStores(old(name), NameStores(n, 0, TIME_MAX_NAME_SIZE - 1))
      {
        var c := n[i];
        var rest := if c == NUL then [] else NameStores(n, i + 1, TIME_MAX_NAME_SIZE - 1);
        assert NameStores(n, i, TIME_MAX_NAME_SIZE - 1) == [(i, c)] + rest;
        assert ([(i, c)] + rest)[1..] == rest;
        name := name[i := c];
        if c == NUL {
          return;
        }
        i := i + 1;
      }
      name := name[TIME_MAX_NAME_SIZE - 1 := NUL];
    }
  }

  /** newTime: a team with id `id` and name `name`, or NULL when `malloc` fails (`memOk` false). */
  method NewTime(id: int, name: NameBuf, memOk: bool) returns (t: Time?)
    ensures t != null <==> memOk
    ensures t != null ==> fresh(t) && t.id == id && NameOf(t) == CStr(name)[..StoredLength(name)]
  {
    if !memOk {
      return null;
    }
    t := new Time(id);
    ghost var before := t.name;
    t.SetName(name);
    SetNameReadsBack(before, name);
  }

  /** The name of a team, as the C string its array holds. */
  function NameOf(t: Time): seq<char>
    reads t
  {
    CStr(t.name)
  }

  /** timeGetId: the id of the team, or `TIME_NOT_FOUND_FLAG` for NULL. */
  function GetId(t: Time?): (r: int)
    reads t
    ensures t == null ==> r == TIME_NOT_FOUND_FLAG
    ensures t != null ==> r == t.id
  {
    if t == null then TIME_NOT_FOUND_FLAG else t.id
  }

  /** timeSetId: refuses a NULL team and a negative id; otherwise sets the id. */
  method SetId(t: Time?, id: int) returns (ok: bool)
    modifies t
    ensures ok <==> t != null && 0 <= id
    ensures ok ==> GetId(t) == id && GetId(t) != TIME_NOT_FOUND_FLAG && t.name == old(t.name)
    ensures t != null && !ok ==> unchanged(t)
  {
    if t == null || id < 0 {
      return false;
    }
    t.id := id;
    return true;
  }

  /** timeGetName: the name array of the team, or NULL. */
  function GetName(t: Time?): (r: Option<NameBuf>)
    reads t
    ensures r.None? <==> t == null
    ensures t != null ==> CStr(r.value) == NameOf(t)
  {
    if t == null then None else Some(t.name)
  }

  /** timeSetName: refuses a NULL team; otherwise stores the new name as `SetName` does. */
  method SetTimeName(t: Time?, newName: NameBuf) returns (ok: bool)
    modifies t
    ensures ok <==> t != null
    ensures ok ==> t.id == old(t.id) && NameOf(t) == CStr(newName)[..StoredLength(newName)]
  {
    if t == null {
      return false;
    }
    ghost var before := t.name;
    t.SetName(newName);
    SetNameReadsBack(before, newName);
    return true;
  }

  /**
   * The character stores tSetName makes when copying `n`, from index `i` on: `n[i]` goes to
   * index `i` and the copy stops after a NUL; when no NUL was met, a final NUL goes to `term`.
   */
  function NameStores(n: NameBuf, i: nat, term: int): (r: seq<(int, char)>)
    requires i <= TIME_MAX_NAME_SIZE
    ensures |r| > 0
    ensures 0 <= term < TIME_MAX_NAME_SIZE ==> InBounds(r)
    decreases TIME_MAX_NAME_SIZE - i
  {
    if i == TIME_MAX_NAME_SIZE then [(term, NUL)]
    else [(i, n[i])] + (if n[i] == NUL then [] else NameStores(n, i + 1, term))
  }

  /** Every store of `st` lies inside a `char[TIME_MAX_NAME_SIZE]` array. */
  predicate InBounds(st: seq<(int, char)>) {
    forall k :: 0 <= k < |st| ==> 0 <= st[k].0 < TIME_MAX_NAME_SIZE
  }

  /** The array `b` after the stores `st`, made in order. */
  function ApplyStores(b: NameBuf, st: seq<(int, char)>): (r: NameBuf)
    requires InBounds(st)
    decreases |st|
    ensures forall j :: 0 <= j < TIME_MAX_NAME_SIZE && (forall k :: 0 <= k < |st| ==> st[k].0 != j) ==> r[j] == b[j]
  {
    if st == [] then b else ApplyStores(b[st[0].0 := st[0].1], st[1..])
  }

  /** The length of the name `SetName` leaves: the C string of `n`, cut to fit with its terminator. */
  function StoredLength(n: NameBuf): (k: int)
    ensures 0 <= k < TIME_MAX_NAME_SIZE
    ensures k <= |CStr(n)|
  {
    if |CStr(n)| < TIME_MAX_NAME_SIZE - 1 then |CStr(n)| else TIME_MAX_NAME_SIZE - 1
  }

  /**
   * The stores from index `i` on, applied to an array that already holds the first `i`
   * characters of the name, leave the whole name followed by a terminator.
   */
  lemma {:induction false} StoresFromWriteName(b: NameBuf, n: NameBuf, i: nat)
    requires i <= TIME_MAX_NAME_SIZE && forall j :: 0 <= j < i ==> n[j] != NUL
    requires forall j :: 0 <= j < i && j < StoredLength(n) ==> b[j] == n[j]
    ensures var r := ApplyStores(b, NameStores(n, i, TIME_MAX_NAME_SIZE - 1));
      (forall j :: 0 <= j < StoredLength(n) ==> r[j] == n[j]) && r[StoredLength(n)] == NUL
    decreases TIME_MAX_NAME_SIZE - i
  {
    var c := CStr(n);
    assert |c| >= i;
    var st := NameStores(n, i, TIME_MAX_NAME_SIZE - 1);
    if i == TIME_MAX_NAME_SIZE {
      assert ApplyStores(b, st) == ApplyStores(b[TIME_MAX_NAME_SIZE - 1 := NUL], []);
    } else if n[i] == NUL {
      assert |c| == i by {
        assert forall k :: 0 <= k < |c| ==> c[k] == n[k] && n[k] != NUL;
      }
      assert ApplyStores(b, st) == ApplyStores(b[i := NUL], []);
    } else {
      var rest := NameStores(n, i + 1, TIME_MAX_NAME_SIZE - 1);
      assert st[1..] == rest;
      StoresFromWriteName(b[i := n[i]], n, i + 1);
    }
  }

  /** Reading the name back after `SetName(n)` gives the C string of `n`, cut to at most ten characters. */
  lemma SetNameReadsBack(b: NameBuf, n: NameBuf)
    ensures CStr(ApplyStores(b, NameStores(n, 0, TIME_MAX_NAME_SIZE - 1))) == CStr(n)[..StoredLength(n)]
  {
    var r := ApplyStores(b, NameStores(n, 0, TIME_MAX_NAME_SIZE - 1));
    StoresFromWriteName(b, n, 0);
    var s := CStr(n)[..StoredLength(n)];
    assert s <= r;
    assert NUL !in s;
    CStrUnique(r, s);
  }

  /** When no NUL is met from index `i` on, the last store tSetName makes is the terminator's, at `term`. */
  lemma {:induction false} StoresEndAtTerm(n: NameBuf, i: nat, term: int)
    requires i <= TIME_MAX_NAME_SIZE
    requires forall j :: i <= j < TIME_MAX_NAME_SIZE ==> n[j] != NUL
    ensures var st := NameStores(n, i, term); st[|st| - 1] == (term, NUL)
    decreases TIME_MAX_NAME_SIZE - i
  {
    if i < TIME_MAX_NAME_SIZE {
      StoresEndAtTerm(n, i + 1, term);
    }
  }

  /** When `n[j]` is a NUL, tSetName stores nothing beyond index `j`. */
  lemma {:induction false} StoresStopAtNul(n: NameBuf, i: nat, term: int, j: int)
    requires i <= j < TIME_MAX_NAME_SIZE && n[j] == NUL
    ensures forall k :: 0 <= k < |NameStores(n, i, term)| ==> i <= NameStores(n, i, term)[k].0 <= j
    decreases TIME_MAX_NAME_SIZE - i
  {
    if n[i] != NUL {
      var rest := NameStores(n, i + 1, term);
      StoresStopAtNul(n, i + 1, term, j);
      var st := [(i, n[i])] + rest;
      assert NameStores(n, i, term) == st;
      assert forall k :: 1 <= k < |st| ==> st[k] == rest[k - 1];
    } else {
      assert NameStores(n, i, term) == [(i, NUL)];
    }
  }

  /**
   * With the terminator at index `TIME_MAX_NAME_SIZE`, as tSetName is written, a store falls
   * outside the array exactly when `n` holds no NUL.
   */
  lemma StoresAsWrittenOverrun(n: NameBuf)
    ensures !InBounds(NameStores(n, 0, TIME_MAX_NAME_SIZE)) <==> NUL !in n
  {
    if NUL in n {
      var j :| 0 <= j < |n| && n[j] == NUL;
      StoresStopAtNul(n, 0, TIME_MAX_NAME_SIZE, j);
    } else {
      StoresEndAtTerm(n, 0, TIME_MAX_NAME_SIZE);
    }
  }

  /** The eleven-letter name "Corinthians" fills the array, and tSetName as written then stores outside it. */
  lemma ElevenLetterNameOverruns()
    ensures !InBounds(NameStores("Corinthians", 0, TIME_MAX_NAME_SIZE))
  {
    var n: NameBuf := "Corinthians";
    assert NUL !in n;
    StoresAsWrittenOverrun(n);
  }
}
