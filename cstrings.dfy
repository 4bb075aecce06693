/**
 * C strings kept in fixed-size character arrays: the characters that count are those
 * before the first NUL.
 */
module CStrings {
  import opened Types

  /** The C string stored in `b`: every character before the first NUL, or all of `b` when it holds none. */
  function CStr(b: seq<char>): (r: seq<char>)
    ensures r <= b
    ensures NUL !in r
    ensures |r| < |b| ==> b[|r|] == NUL
  {
    if b == [] || b[0] == NUL then [] else [b[0]] + CStr(b[1..])
  }

  /** The three properties in `CStr`'s contract determine its result. */
  lemma {:induction false} CStrUnique(b: seq<char>, r: seq<char>)
    requires r <= b && NUL !in r && (|r| < |b| ==> b[|r|] == NUL)
    ensures r == CStr(b)
  {
    if b != [] && b[0] != NUL {
      assert r != [] && r[0] == b[0];
      CStrUnique(b[1..], r[1..]);
    }
  }

  /** A string of at most `TIME_MAX_NAME_SIZE` characters, padded with NULs to a full array. */
  function ToBuf(s: seq<char>): (r: NameBuf)
    requires |s| <= TIME_MAX_NAME_SIZE
    ensures r[..|s|] == s
    ensures forall k :: |s| <= k < TIME_MAX_NAME_SIZE ==> r[k] == NUL
  {
    s + seq(TIME_MAX_NAME_SIZE - |s|, _ => NUL)
  }

  /** Storing a NUL-free string in an array and reading it back as a C string gives the string again. */
  lemma CStrToBuf(s: seq<char>)
    requires |s| <= TIME_MAX_NAME_SIZE && NUL !in s
    ensures CStr(ToBuf(s)) == s
  {
    var b := ToBuf(s);
    assert s <= b;
    CStrUnique(b, s);
  }

  /** Truth of `strcmp(a, b) == 0` on two arrays. */
  predicate StrEq(a: seq<char>, b: seq<char>) {
    CStr(a) == CStr(b)
  }
}
