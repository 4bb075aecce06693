/**
 * The generic singly linked list of scripts/src/collections/LinkedList.c: a header with a
 * first node, a last node and a size, and nodes that each hold one payload.
 *
 * A NULL list is a `null` reference, a NULL payload or a NULL callback is `None`, and a
 * failing `malloc` is a `memOk` parameter that is false.
 */
module LinkedLists {
  import opened Wrappers
  import opened Types

  class Node<T> {
    var data: T
    var next: Node?<T>

    constructor (data: T)
      ensures this.data == data && next == null
    {
      this.data := data;
      next := null;
    }
  }

  class LinkedList<T> {
    var first: Node?<T>
    var last: Node?<T>
    var size: int

    /** The nodes from `first` to `last`, in order. */
    ghost var nodes: seq<Node<T>>
    /** The payloads of `nodes`, in order. */
    ghost var Contents: seq<T>
    ghost var Repr: set<object>
    /** True once the nodes have been handed back to the allocator. */
    ghost var released: bool

    /**
     * The header describes its nodes: they are distinct and linked from `first` to `last`,
     * each holds its payload, `size` counts them, and they have not been released.
     */
    ghost predicate Valid()
      reads this, Repr
    {
      && this in Repr
      && (forall k :: 0 <= k < |nodes| ==> nodes[k] in Repr)
      && |Contents| == |nodes| == size
      && !released
      && (forall k, m :: 0 <= k < m < |nodes| ==> nodes[k] != nodes[m])
      && (forall k :: 0 <= k < |nodes| ==> nodes[k].data == Contents[k])
      && (forall k :: 0 <= k < |nodes| - 1 ==> nodes[k].next == nodes[k + 1])
      && (|nodes| > 0 ==> nodes[|nodes| - 1].next == null)
      && first == (if |nodes| == 0 then null else nodes[0])
      && last == (if |nodes| == 0 then null else nodes[|nodes| - 1])
    }

    /** `Valid` without its claim about `size`: the chain of nodes alone is intact. */
    ghost predicate Chain()
      reads this, Repr
    {
      && this in Repr
      && (forall k :: 0 <= k < |nodes| ==> nodes[k] in Repr)
      && |Contents| == |nodes|
      && (forall k, m :: 0 <= k < m < |nodes| ==> nodes[k] != nodes[m])
      && (forall k :: 0 <= k < |nodes| ==> nodes[k].data == Contents[k])
      && (forall k :: 0 <= k < |nodes| - 1 ==> nodes[k].next == nodes[k + 1])
      && (|nodes| > 0 ==> nodes[|nodes| - 1].next == null)
      && first == (if |nodes| == 0 then null else nodes[0])
      && last == (if |nodes| == 0 then null else nodes[|nodes| - 1])
    }

    constructor ()
      ensures Valid() && fresh(Repr)
      ensures nodes == [] && Contents == []
      ensures first == null && last == null && size == 0
    {
      first := null;
      last := null;
      size := 0;
      nodes := [];
      Contents := [];
      Repr := {this};
      released := false;
    }
  }

  ghost function ListRepr<T>(l: LinkedList?<T>): set<object>
    reads l
  {
    if l == null then {} else l.Repr
  }

  ghost predicate ValidOrNull<T>(l: LinkedList?<T>)
    reads l, ListRepr(l)
  {
    l != null ==> l.Valid()
  }

  // ------------------------------------------------------------------
  // Specification functions
  // ------------------------------------------------------------------

  /** The elements of `s` that satisfy `f`, in their order in `s`. */
  ghost function Filter<T>(s: seq<T>, f: T ~> bool): (r: seq<T>)
    requires forall k :: 0 <= k < |s| ==> f.requires(s[k])
    reads set k, o | 0 <= k < |s| && o in f.reads(s[k]) :: o
    ensures |r| <= |s|
  {
    if s == [] then [] else (if f(s[0]) then [s[0]] else []) + Filter(s[1..], f)
  }

  /** An element is kept by `Filter` exactly when it is in `s` and satisfies `f`. */
  lemma {:induction false} FilterMember<T>(s: seq<T>, f: T ~> bool, x: T)
    requires forall k :: 0 <= k < |s| ==> f.requires(s[k])
    ensures x in Filter(s, f) <==> x in s && f.requires(x) && f(x)
  {
    if s != [] {
      FilterMember(s[1..], f, x);
      assert s == [s[0]] + s[1..];
    }
  }

  /** `Filter` keeps everything when every element satisfies `f`, and nothing when none does. */
  lemma {:induction false} FilterAllOrNone<T>(s: seq<T>, f: T ~> bool)
    requires forall k :: 0 <= k < |s| ==> f.requires(s[k])
    ensures (forall k :: 0 <= k < |s| ==> f(s[k])) ==> Filter(s, f) == s
    ensures (forall k :: 0 <= k < |s| ==> !f(s[k])) ==> Filter(s, f) == []
  {
    if s != [] {
      FilterAllOrNone(s[1..], f);
      assert forall k :: 0 <= k < |s| - 1 ==> s[1..][k] == s[k + 1];
      assert s == [s[0]] + s[1..];
    }
  }

  /** The elements of `s` whose mark is set: `Filter` with its predicate evaluated beforehand. */
  function Select<T>(s: seq<T>, marks: seq<bool>): (r: seq<T>)
    requires |marks| == |s|
    ensures |r| <= |s|
  {
    if s == [] then [] else (if marks[0] then [s[0]] else []) + Select(s[1..], marks[1..])
  }

  /** The value of `f` at every element of `s`. */
  ghost function Marks<T>(s: seq<T>, f: T ~> bool): (r: seq<bool>)
    requires forall k :: 0 <= k < |s| ==> f.requires(s[k])
    reads set k, o | 0 <= k < |s| && o in f.reads(s[k]) :: o
    ensures |r| == |s| && forall k :: 0 <= k < |s| ==> r[k] == f(s[k])
  {
    if s == [] then [] else [f(s[0])] + Marks(s[1..], f)
  }

  lemma {:induction false} FilterIsSelect<T>(s: seq<T>, f: T ~> bool)
    requires forall k :: 0 <= k < |s| ==> f.requires(s[k])
    ensures Filter(s, f) == Select(s, Marks(s, f))
  {
    if s != [] {
      FilterIsSelect(s[1..], f);
      assert Marks(s, f)[1..] == Marks(s[1..], f);
    }
  }

  lemma {:induction false} SelectAppend<T>(s: seq<T>, m: seq<bool>, x: T, b: bool)
    requires |m| == |s|
    ensures Select(s + [x], m + [b]) == Select(s, m) + (if b then [x] else [])
  {
    if s == [] {
      assert s + [x] == [x] && m + [b] == [b];
    } else {
      assert (s + [x])[1..] == s[1..] + [x];
      assert (m + [b])[1..] == m[1..] + [b];
      SelectAppend(s[1..], m[1..], x, b);
    }
  }

  lemma SelectSnoc<T>(s: seq<T>, marks: seq<bool>, i: nat)
    requires |marks| == |s| && i < |s|
    ensures Select(s[..i + 1], marks[..i + 1]) == Select(s[..i], marks[..i]) + (if marks[i] then [s[i]] else [])
  {
    assert s[..i + 1] == s[..i] + [s[i]];
    assert marks[..i + 1] == marks[..i] + [marks[i]];
    SelectAppend(s[..i], marks[..i], s[i], marks[i]);
  }

  /** `s` with its first element that satisfies `f` taken out; `s` itself when there is none. */
  ghost function RemoveFirst<T>(s: seq<T>, f: T ~> bool): (r: seq<T>)
    requires forall k :: 0 <= k < |s| ==> f.requires(s[k])
    reads set k, o | 0 <= k < |s| && o in f.reads(s[k]) :: o
  {
    if s == [] then [] else if f(s[0]) then s[1..] else [s[0]] + RemoveFirst(s[1..], f)
  }

  /** Some element of `s` satisfies `f`. */
  ghost predicate AnySatisfies<T>(s: seq<T>, f: T ~> bool)
    requires forall k :: 0 <= k < |s| ==> f.requires(s[k])
    reads set k, o | 0 <= k < |s| && o in f.reads(s[k]) :: o
  {
    exists k :: 0 <= k < |s| && f(s[k])
  }

  /** When the first element satisfying `f` sits at `k`, `RemoveFirst` removes exactly that position. */
  lemma {:induction false} RemoveFirstAt<T>(s: seq<T>, f: T ~> bool, k: int)
    requires forall j :: 0 <= j < |s| ==> f.requires(s[j])
    requires 0 <= k < |s| && f(s[k]) && forall j :: 0 <= j < k ==> !f(s[j])
    ensures RemoveFirst(s, f) == s[..k] + s[k + 1..]
  {
    if k > 0 {
      RemoveFirstAt(s[1..], f, k - 1);
      assert s[1..][..k - 1] == s[1..k];
      assert s[1..][k..] == s[k + 1..];
      assert s[..k] == [s[0]] + s[1..k];
    }
  }

  /** `RemoveFirst` changes nothing when no element satisfies `f`. */
  lemma {:induction false} RemoveFirstNone<T>(s: seq<T>, f: T ~> bool)
    requires forall j :: 0 <= j < |s| ==> f.requires(s[j])
    requires forall j :: 0 <= j < |s| ==> !f(s[j])
    ensures RemoveFirst(s, f) == s
  {
    if s != [] {
      assert forall j :: 0 <= j < |s| - 1 ==> s[1..][j] == s[j + 1];
      RemoveFirstNone(s[1..], f);
    }
  }

  /** `init` updated by `f` with each element of `s` in turn. */
  ghost function FoldLeft<S(!new), T>(f: (S, T) ~> S, init: S, s: seq<T>): S
    requires forall a, k :: 0 <= k < |s| ==> f.requires(a, s[k])
    reads *
  {
    if s == [] then init else FoldLeft(f, f(init, s[0]), s[1..])
  }

  lemma {:induction false} FoldLeftSnoc<S(!new), T>(f: (S, T) ~> S, init: S, s: seq<T>, i: nat)
    requires forall a, k :: 0 <= k < |s| ==> f.requires(a, s[k])
    requires i < |s|
    ensures FoldLeft(f, init, s[..i + 1]) == f(FoldLeft(f, init, s[..i]), s[i])
  {
    if i > 0 {
      assert s[..i + 1][1..] == s[1..][..i];
      assert s[..i][1..] == s[1..][..i - 1];
      FoldLeftSnoc(f, f(init, s[0]), s[1..], i - 1);
    }
  }

  /** Descending order by `key`. */
  ghost predicate SortedDesc<T>(key: T -> int, s: seq<T>) {
    forall p, q :: 0 <= p < q < |s| ==> key(s[p]) >= key(s[q])
  }

  // ------------------------------------------------------------------
  // Operations
  // ------------------------------------------------------------------

  /** newLinkedList: an empty list, or NULL when the header cannot be allocated. */
  method NewLinkedList<T>(memOk: bool) returns (l: LinkedList?<T>)
    ensures l != null <==> memOk
    ensures l != null ==> fresh(l.Repr) && l.Valid() && l.Contents == []
    ensures l != null ==> l.first == null && l.last == null && l.size == 0
  {
    if !memOk {
      return null;
    }
    l := new LinkedList();
  }

  /** What appending to `l` writes: its header and its last node. */
  ghost function TailFrame<T>(l: LinkedList?<T>): set<object>
    reads l
  {
    if l == null then {} else if l.last == null then {l} else {l, l.last}
  }

  /** llAdd past its checks: allocates a node for `e` and links it after the last one (llAddN). */
  method Append<T>(l: LinkedList<T>, e: T)
    requires l.Valid()
    modifies TailFrame(l)
    ensures l.Valid() && l.Contents == old(l.Contents) + [e]
    ensures fresh(l.Repr - old(l.Repr))
  {
    var n := new Node(e);
    if l.first == null {
      l.first := n;
      l.last := n;
    } else {
      l.last.next := n;
      l.last := n;
    }
    l.size := l.size + 1;
    l.nodes := l.nodes + [n];
    l.Contents := l.Contents + [e];
    l.Repr := l.Repr + {n};
  }

  /**
   * llAdd: appends a payload. Refused (false, list unchanged) for a NULL list, a NULL payload
   * or a failed node allocation.
   */
  method Add<T>(l: LinkedList?<T>, e: Option<T>, memOk: bool) returns (ok: bool)
    requires ValidOrNull(l)
    modifies TailFrame(l)
    ensures ok <==> l != null && e.Some? && memOk
    ensures ValidOrNull(l)
    ensures l != null ==> fresh(l.Repr - old(l.Repr))
    ensures ok ==> l.Contents == old(l.Contents) + [e.value]
    ensures l != null && !ok ==> unchanged(l)
  {
    if l == null || e.None? {
      return false;
    }
    if !memOk {
      return false;
    }
    Append(l, e.value);
    ok := true;
  }

  /** sllAdd: `llAdd` behind an explicit NULL-payload check; the same outcome in every case. */
  method SAdd<T>(l: LinkedList?<T>, e: Option<T>, memOk: bool) returns (ok: bool)
    requires ValidOrNull(l)
    modifies ListRepr(l)
    ensures ok <==> l != null && e.Some? && memOk
    ensures ValidOrNull(l)
    ensures l != null ==> fresh(l.Repr - old(l.Repr))
    ensures ok ==> l.Contents == old(l.Contents) + [e.value]
    ensures l != null && !ok ==> unchanged(l)
  {
    if e.None? {
      return false;
    }
    ok := Add(l, e, memOk);
  }

  /** getAt: walks `idx` links from the first node; a negative `idx` walks none. */
  method GetAt<T>(l: LinkedList<T>, idx: int) returns (n: Node?<T>)
    requires l.Valid() && idx < |l.nodes|
    ensures n == (if idx <= 0 then l.first else l.nodes[idx])
  {
    n := l.first;
    var i := 0;
    while i < idx
      invariant 0 <= i <= (if idx < 0 then 0 else idx)
      invariant n == (if i < |l.nodes| then l.nodes[i] else null)
      invariant i == 0 ==> n == l.first
    {
      n := n.next;
      i := i + 1;
    }
  }

  /**
   * llGet: the payload at `index`. NULL for a NULL list and for `index >= size`; a negative
   * index passes the bound check and yields the first payload.
   */
  method Get<T>(l: LinkedList?<T>, index: int) returns (r: Option<T>)
    requires ValidOrNull(l)
    ensures l == null ==> r == None
    ensures l != null && index >= |l.Contents| ==> r == None
    ensures l != null && 0 <= index < |l.Contents| ==> r == Some(l.Contents[index])
    ensures l != null && index < 0 ==> r == (if l.Contents == [] then None else Some(l.Contents[0]))
  {
    if l == null {
      return None;
    }
    if index >= l.size {
      return None;
    }
    var n := GetAt(l, index);
    if n == null {
      return None;
    }
    r := Some(n.data);
  }

  /** llGetLast: the payload of the node `last` points to. */
  function GetLast<T>(l: LinkedList?<T>): (r: Option<T>)
    reads l, if l != null && l.last != null then {l.last} else {}
    ensures l == null ==> r == None
  {
    if l == null || l.last == null then None else Some(l.last.data)
  }

  /** On a valid list `GetLast` is the last element, and NULL exactly when the list is empty. */
  lemma GetLastIsLast<T>(l: LinkedList<T>)
    requires l.Valid()
    ensures GetLast(l) == if l.Contents == [] then None else Some(l.Contents[|l.Contents| - 1])
  {
  }

  /** llIsEmpty: true when `first` is NULL; false for a NULL list. */
  function IsEmpty<T>(l: LinkedList?<T>): (r: bool)
    reads l
    ensures l == null ==> !r
  {
    l != null && l.first == null
  }

  lemma IsEmptyIffNoElements<T>(l: LinkedList<T>)
    requires l.Valid()
    ensures IsEmpty(l) <==> l.Contents == []
  {
  }

  /** llGetSize: -1 for a NULL list, otherwise the size field. */
  function GetSize<T>(l: LinkedList?<T>): (r: int)
    reads l
    ensures l == null ==> r == -1
  {
    if l == null then -1 else l.size
  }

  lemma GetSizeCounts<T>(l: LinkedList<T>)
    requires l.Valid()
    ensures GetSize(l) == |l.Contents| >= 0
  {
  }

  /**
   * llSearchAll: a new list holding, in order, the payloads that satisfy `f` (the payloads
   * are shared, not copied). NULL for a NULL list, a NULL callback or a failed allocation.
   */
  method SearchAll<T>(l: LinkedList?<T>, f: Option<T ~> bool>, memOk: bool) returns (r: LinkedList?<T>)
    requires ValidOrNull(l)
    requires f.Some? ==> forall x :: f.value.requires(x)
    ensures r != null <==> l != null && f.Some? && memOk
    ensures r != null ==> l != null && f.Some? && fresh(r.Repr) && r.Valid()
    ensures r != null ==> r.Contents == Filter(l.Contents, f.value)
  {
    if l == null || f.None? || !memOk {
      return null;
    }
    FilterIsSelect(l.Contents, f.value);
    r := SelectInto(l, f.value, Marks(l.Contents, f.value));
  }

  /** The loop of llSearchAll: appends to a new list every payload that satisfies `f`. */
  method SelectInto<T>(l: LinkedList<T>, f: T ~> bool, ghost marks: seq<bool>) returns (r: LinkedList<T>)
    requires l.Valid()
    requires forall x :: f.requires(x)
    requires |marks| == |l.Contents| && forall k :: 0 <= k < |marks| ==> marks[k] == f(l.Contents[k])
    ensures fresh(r.Repr) && r.Valid() && r.Contents == Select(l.Contents, marks)
  {
    ghost var s := l.Contents;
    r := new LinkedList();
    var n := l.first;
    ghost var i := 0;
    while n != null
      invariant 0 <= i <= |l.nodes|
      invariant n == (if i < |l.nodes| then l.nodes[i] else null)
      invariant fresh(r.Repr) && r.Valid()
      invariant r.Contents == Select(s[..i], marks[..i])
      decreases |l.nodes| - i
    {
      var keep := f(n.data);
      assert keep == marks[i];
      SelectSnoc(s, marks, i);
      if keep {
        Append(r, n.data);
      }
      n := n.next;
      i := i + 1;
    }
    assert s[..i] == s;
    assert marks[..i] == marks;
  }

  /**
   * llForeach: calls `f` on every payload in order. The callback's effect is modelled as a
   * state it threads from one call to the next; a NULL list or callback leaves it as it was.
   */
  method Foreach<S(!new), T>(l: LinkedList?<T>, f: Option<(S, T) ~> S>, init: S) returns (acc: S)
    requires ValidOrNull(l)
    requires f.Some? ==> forall a, x :: f.value.requires(a, x)
    ensures l == null || f.None? ==> acc == init
    ensures l != null && f.Some? ==> acc == FoldLeft(f.value, init, l.Contents)
  {
    acc := init;
    if l == null || f.None? {
      return;
    }
    var n := l.first;
    ghost var i := 0;
    while n != null
      invariant 0 <= i <= |l.nodes|
      invariant n == (if i < |l.nodes| then l.nodes[i] else null)
      invariant acc == FoldLeft(f.value, init, l.Contents[..i])
      decreases |l.nodes| - i
    {
      FoldLeftSnoc(f.value, init, l.Contents, i);
      acc := f.value(acc, n.data);
      n := n.next;
      i := i + 1;
    }
    assert l.Contents[..i] == l.Contents;
  }

  /** llFindFirst: the first payload that satisfies `f`; NULL when none does or for a NULL list or callback. */
  method FindFirst<T>(l: LinkedList?<T>, f: Option<T ~> bool>) returns (r: Option<T>)
    requires ValidOrNull(l)
    requires f.Some? ==> forall x :: f.value.requires(x)
    ensures l == null || f.None? ==> r == None
    ensures l != null && f.Some? ==>
      (r == None <==> forall k :: 0 <= k < |l.Contents| ==> !f.value(l.Contents[k]))
    ensures l != null && f.Some? && r.Some? ==>
      exists k :: 0 <= k < |l.Contents| && l.Contents[k] == r.value && f.value(r.value) &&
        forall j :: 0 <= j < k ==> !f.value(l.Contents[j])
  {
    if l == null || f.None? {
      return None;
    }
    var n := l.first;
    ghost var i := 0;
    while n != null
      invariant 0 <= i <= |l.nodes|
      invariant n == (if i < |l.nodes| then l.nodes[i] else null)
      invariant forall j :: 0 <= j < i ==> !f.value(l.Contents[j])
      decreases |l.nodes| - i
    {
      if f.value(n.data) {
        return Some(n.data);
      }
      n := n.next;
      i := i + 1;
    }
    return None;
  }

  /** Walks to the first node whose payload satisfies `f`, remembering the node before it. */
  method FindNode<T>(l: LinkedList<T>, f: T ~> bool) returns (n: Node?<T>, b: Node?<T>, ghost k: int)
    requires l.Valid()
    requires forall x :: f.requires(x)
    ensures 0 <= k <= |l.nodes|
    ensures forall j :: 0 <= j < k ==> !f(l.Contents[j])
    ensures n == (if k < |l.nodes| then l.nodes[k] else null)
    ensures k < |l.nodes| ==> f(l.Contents[k])
    ensures b == (if k == 0 then null else l.nodes[k - 1])
    ensures AnySatisfies(l.Contents, f) <==> k < |l.nodes|
    ensures RemoveFirst(l.Contents, f) == l.Contents[..k] + (if k < |l.nodes| then l.Contents[k + 1..] else [])
  {
    n := l.first;
    b := null;
    k := 0;
    while n != null && !f(n.data)
      invariant 0 <= k <= |l.nodes|
      invariant n == (if k < |l.nodes| then l.nodes[k] else null)
      invariant b == (if k == 0 then null else l.nodes[k - 1])
      invariant forall j :: 0 <= j < k ==> !f(l.Contents[j])
      decreases |l.nodes| - k
    {
      b := n;
      n := n.next;
      k := k + 1;
    }
    if n == null {
      RemoveFirstNone(l.Contents, f);
      assert l.Contents[..k] == l.Contents;
    } else {
      RemoveFirstAt(l.Contents, f, k);
    }
  }

  /** The unlinking step of llRemoveFirstFound: takes node `k` out of the chain, `b` being the node before it. */
  method Unlink<T>(l: LinkedList<T>, n: Node<T>, b: Node?<T>, ghost k: int)
    requires l.Valid() && 0 <= k < |l.nodes| && n == l.nodes[k]
    requires b == (if k == 0 then null else l.nodes[k - 1])
    modifies l, b
    ensures l.Valid() && l.Repr == old(l.Repr)
    ensures l.nodes == old(l.nodes[..k] + l.nodes[k + 1..])
    ensures l.Contents == old(l.Contents[..k] + l.Contents[k + 1..])
  {
    if b == null {
      assert l.nodes[..0] + l.nodes[1..] == l.nodes[1..];
      assert l.Contents[..0] + l.Contents[1..] == l.Contents[1..];
      UnlinkFirst(l);
    } else {
      UnlinkAfter(l, b, k);
    }
  }

  /** Unlinking the head: `first` moves to the second node, and `last` is cleared when none is left. */
  method UnlinkFirst<T>(l: LinkedList<T>)
    requires l.Valid() && |l.nodes| > 0
    modifies l
    ensures l.Valid() && l.Repr == old(l.Repr)
    ensures l.nodes == old(l.nodes[1..]) && l.Contents == old(l.Contents[1..])
  {
    l.first := l.first.next;
    if l.first == null {
      l.last := null;
    }
    l.size := l.size - 1;
    l.nodes := l.nodes[1..];
    l.Contents := l.Contents[1..];
  }

  /** Unlinking node `k > 0`: its predecessor `b` skips it, and becomes `last` when it was the tail. */
  method UnlinkAfter<T>(l: LinkedList<T>, b: Node<T>, ghost k: int)
    requires l.Valid() && 0 < k < |l.nodes| && b == l.nodes[k - 1]
    modifies l, b
    ensures l.Valid() && l.Repr == old(l.Repr)
    ensures l.nodes == old(l.nodes[..k] + l.nodes[k + 1..])
    ensures l.Contents == old(l.Contents[..k] + l.Contents[k + 1..])
  {
    var n := b.next;
    assert n == l.nodes[k];
    var after := n.next;
    assert after == (if k + 1 < |l.nodes| then l.nodes[k + 1] else null);
    b.next := after;
    if after == null {
      l.last := b;
    }
    l.size := l.size - 1;
    l.nodes := l.nodes[..k] + l.nodes[k + 1..];
    l.Contents := l.Contents[..k] + l.Contents[k + 1..];
  }

  /**
   * llRemoveFirstFound: unlinks the first node whose payload satisfies `f` and reports whether
   * one was found. Removing the head clears `last` when the list becomes empty; removing the tail
   * moves `last` to the node before it.
   */
  method RemoveFirstFound<T>(l: LinkedList?<T>, f: Option<T ~> bool>) returns (ok: bool)
    requires ValidOrNull(l)
    requires f.Some? ==> forall x :: f.value.requires(x)
    modifies ListRepr(l)
    ensures ValidOrNull(l)
    ensures l != null ==> l.Repr == old(l.Repr)
    ensures ok <==> l != null && f.Some? && old(AnySatisfies(l.Contents, f.value))
    ensures l != null && f.Some? ==> l.Contents == old(RemoveFirst(l.Contents, f.value))
    ensures l == null || f.None? ==> unchanged(ListRepr(l))
  {
    if l == null || f.None? {
      return false;
    }
    ok := RemoveFirstMatch(l, f.value);
  }

  /** The search and the unlinking of llRemoveFirstFound, on a list and a callback that are there. */
  method RemoveFirstMatch<T>(l: LinkedList<T>, f: T ~> bool) returns (ok: bool)
    requires l.Valid() && forall x :: f.requires(x)
    modifies l.Repr
    ensures l.Valid() && l.Repr == old(l.Repr)
    ensures ok <==> old(AnySatisfies(l.Contents, f))
    ensures l.Contents == old(RemoveFirst(l.Contents, f))
  {
    var n, b, k := FindNode(l, f);
    if n == null {
      return false;
    }
    Unlink(l, n, b, k);
    ok := true;
  }

  // ------------------------------------------------------------------
  // llBoubleSort
  // ------------------------------------------------------------------

  /** The first `n` elements of `c` are in descending order by `key`. */
  ghost predicate SortedPrefix<T>(key: T -> int, c: seq<T>, n: int)
    requires 0 <= n <= |c|
  {
    forall p, q :: 0 <= p < q < n ==> key(c[p]) >= key(c[q])
  }

  /** One comparison of llBoubleSort: position `i` holds the larger payload of `c[i]` and `c[j]` afterwards. */
  function SwapIfGreater<T>(key: T -> int, c: seq<T>, i: int, j: int): (r: seq<T>)
    requires 0 <= i < |c| && 0 <= j < |c|
    ensures |r| == |c| && multiset(r) == multiset(c)
  {
    if key(c[i]) > key(c[j]) then c[j := c[i]][i := c[j]] else c
  }

  /**
   * What holds after the payload at position `i` has been compared with positions `0..j-1`,
   * `s` being the sequence when that pass over `j` began.
   */
  ghost predicate InnerInv<T>(key: T -> int, s: seq<T>, c: seq<T>, i: int, j: int) {
    && |c| == |s| && 0 <= i < |s| && 0 <= j <= |s|
    && if j <= i then
      && SortedPrefix(key, c, j)
      && (forall k :: j <= k < |c| && k != i ==> c[k] == s[k])
      && (j > 0 ==> key(c[j - 1]) >= key(c[i]))
      && (forall k :: 0 <= k < j ==> key(c[k]) >= key(s[k]))
    else
      SortedPrefix(key, c, i + 1)
  }

  lemma InnerInvStart<T>(key: T -> int, s: seq<T>, i: int)
    requires 0 <= i < |s|
    ensures InnerInv(key, s, s, i, 0)
  {
  }

  /** A pass over `j` that starts with the first `i` payloads sorted ends with the first `i + 1` sorted. */
  lemma InnerInvEnd<T>(key: T -> int, s: seq<T>, c: seq<T>, i: int)
    requires InnerInv(key, s, c, i, |s|)
    ensures SortedPrefix(key, c, i + 1)
  {
  }

  lemma {:induction false} InnerStep<T>(key: T -> int, s: seq<T>, c: seq<T>, i: int, j: int)
    requires 0 <= i < |s| && SortedPrefix(key, s, i)
    requires InnerInv(key, s, c, i, j) && j < |s|
    ensures InnerInv(key, s, SwapIfGreater(key, c, i, j), i, j + 1)
  {
    var c' := SwapIfGreater(key, c, i, j);
    if j < i {
      assert c[j] == s[j];
      if key(c[i]) > key(c[j]) {
        assert c'[j] == c[i] && c'[i] == c[j];
        forall p, q | 0 <= p < q < j + 1
          ensures key(c'[p]) >= key(c'[q])
        {
          if q == j && p < j - 1 {
            assert key(c[p]) >= key(c[j - 1]);
          }
        }
      } else {
        forall p, q | 0 <= p < q < j + 1
          ensures key(c'[p]) >= key(c'[q])
        {
          if q == j {
            assert key(c[j - 1]) >= key(s[j - 1]) >= key(s[j]);
            if p < j - 1 {
              assert key(c[p]) >= key(c[j - 1]);
            }
          }
        }
      }
    } else if j == i {
      assert c' == c;
      forall p, q | 0 <= p < q < i + 1
        ensures key(c[p]) >= key(c[q])
      {
        if q == i && p < i - 1 {
          assert key(c[p]) >= key(c[i - 1]);
        }
      }
    } else {
      if key(c[i]) > key(c[j]) {
        forall p, q | 0 <= p < q < i + 1
          ensures key(c'[p]) >= key(c'[q])
        {
          if q == i {
            assert key(c[p]) >= key(c[i]);
          }
        }
      }
    }
  }

  /** The two payload swaps of llBoubleSort: nodes `a` (position `i`) and `b` (position `j`) exchange payloads. */
  method SwapData<T(!new)>(l: LinkedList<T>, a: Node<T>, b: Node<T>, ghost i: int, ghost j: int)
    requires l.Valid() && 0 <= i < |l.nodes| && 0 <= j < |l.nodes|
    requires a == l.nodes[i] && b == l.nodes[j]
    modifies l, a, b
    ensures l.Valid() && l.nodes == old(l.nodes) && l.Repr == old(l.Repr)
    ensures l.Contents == old(l.Contents)[j := old(l.Contents)[i]][i := old(l.Contents)[j]]
  {
    var swapAux := b.data;
    b.data := a.data;
    a.data := swapAux;
    l.Contents := l.Contents[j := l.Contents[i]][i := l.Contents[j]];
  }

  /** The body of llBoubleSort's inner loop: compares the payloads of nodes `a` and `b` and swaps them on `greater_than`. */
  method CompareAndSwap<T(!new)>(l: LinkedList<T>, a: Node<T>, b: Node<T>, f: (T, T) -> Order, ghost key: T -> int,
                           ghost i: int, ghost j: int)
    requires l.Valid() && 0 <= i < |l.nodes| && 0 <= j < |l.nodes|
    requires a == l.nodes[i] && b == l.nodes[j]
    requires forall x, y :: f(x, y) == GreaterThan <==> key(x) > key(y)
    modifies l, a, b
    ensures l.Valid() && l.nodes == old(l.nodes) && l.Repr == old(l.Repr)
    ensures l.Contents == SwapIfGreater(key, old(l.Contents), i, j)
  {
    if f(a.data, b.data) == GreaterThan {
      SwapData(l, a, b, i, j);
    }
  }

  /** One pass of llBoubleSort's outer loop, for node `a` at position `i`: the first `i + 1` payloads end up sorted. */
  method SortPass<T(!new)>(l: LinkedList<T>, a: Node<T>, f: (T, T) -> Order, ghost key: T -> int, ghost i: int)
    requires l.Valid() && 0 <= i < |l.nodes| && a == l.nodes[i]
    requires forall x, y :: f(x, y) == GreaterThan <==> key(x) > key(y)
    requires SortedPrefix(key, l.Contents, i)
    modifies l.Repr
    ensures l.Valid() && l.nodes == old(l.nodes) && l.Repr == old(l.Repr)
    ensures multiset(l.Contents) == multiset(old(l.Contents))
    ensures SortedPrefix(key, l.Contents, i + 1)
  {
    ghost var s := l.Contents;
    InnerInvStart(key, s, i);
    var b := l.first;
    ghost var j := 0;
    while b != null
      invariant 0 <= j <= |l.nodes|
      invariant b == (if j < |l.nodes| then l.nodes[j] else null)
      invariant l.Valid() && l.nodes == old(l.nodes) && l.Repr == old(l.Repr)
      invariant multiset(l.Contents) == multiset(s)
      invariant InnerInv(key, s, l.Contents, i, j)
      decreases |l.nodes| - j
    {
      InnerStep(key, s, l.Contents, i, j);
      CompareAndSwap(l, a, b, f, key, i, j);
      b := b.next;
      j := j + 1;
    }
    InnerInvEnd(key, s, l.Contents, i);
  }

  /**
   * llBoubleSort: for every node `a` and then every node `b`, swaps their payloads when
   * `f(a, b)` is `greater_than`. False, and nothing changed, for a NULL list or comparator.
   * For a comparator that says `greater_than` exactly when a key is larger, the payloads
   * end up in descending order by that key, as a permutation of what they were.
   */
  method BubbleSort<T(!new)>(l: LinkedList?<T>, f: Option<(T, T) -> Order>, ghost key: T -> int) returns (ok: bool)
    requires ValidOrNull(l)
    requires f.Some? ==> forall a, b :: f.value(a, b) == GreaterThan <==> key(a) > key(b)
    modifies ListRepr(l)
    ensures ok <==> l != null && f.Some?
    ensures ValidOrNull(l)
    ensures l != null ==> l.nodes == old(l.nodes) && l.Repr == old(l.Repr)
    ensures l != null ==> multiset(l.Contents) == multiset(old(l.Contents))
    ensures l != null && !ok ==> l.Contents == old(l.Contents)
    ensures ok ==> SortedDesc(key, l.Contents)
  {
    if l == null || f.None? {
      return false;
    }
    var a := l.first;
    ghost var i := 0;
    while a != null
      invariant 0 <= i <= |l.nodes|
      invariant a == (if i < |l.nodes| then l.nodes[i] else null)
      invariant l.Valid() && l.nodes == old(l.nodes) && l.Repr == old(l.Repr)
      invariant multiset(l.Contents) == multiset(old(l.Contents))
      invariant SortedPrefix(key, l.Contents, i)
      decreases |l.nodes| - i
    {
      SortPass(l, a, f.value, key, i);
      a := a.next;
      i := i + 1;
    }
    ok := true;
  }

  // ------------------------------------------------------------------
  // llDeepCopy
  // ------------------------------------------------------------------

  /** One past the last index llDeepCopy copies: `end` itself is copied when it is an index of the list. */
  function CopyLimit(end: int, n: int): (r: int)
    requires end <= n
    ensures r <= n && (r == end + 1 || r == n)
  {
    if end < n then end + 1 else n
  }

  /** The arguments llDeepCopy refuses: a NULL or empty list, a negative start, `end < start`, `end > size`. */
  predicate DeepCopyRefuses(isNull: bool, size: int, start: int, end: int) {
    isNull || size == 0 || start < 0 || end < start || end > size
  }

  /** A header being filled by llDeepCopy: its nodes are linked from `first`, `tail` is the last of them, `last` is not yet set. */
  ghost predicate Building<T>(r: LinkedList<T>, tail: Node<T>)
    reads r, r.Repr
  {
    && r in r.Repr && !r.released
    && (forall k :: 0 <= k < |r.nodes| ==> r.nodes[k] in r.Repr)
    && |r.nodes| == |r.Contents| > 0
    && (forall k, m :: 0 <= k < m < |r.nodes| ==> r.nodes[k] != r.nodes[m])
    && (forall k :: 0 <= k < |r.nodes| ==> r.nodes[k].data == r.Contents[k])
    && (forall k :: 0 <= k < |r.nodes| - 1 ==> r.nodes[k].next == r.nodes[k + 1])
    && r.first == r.nodes[0] && tail == r.nodes[|r.nodes| - 1] && tail.next == null
  }

  /** Copies one more node after `tail`, as the loop of llDeepCopy does with each node after the first. */
  method CopyOneMore<T>(r: LinkedList<T>, tail: Node<T>, x: T) returns (copy: Node<T>)
    requires Building(r, tail)
    modifies r, tail
    ensures fresh(copy) && Building(r, copy)
    ensures r.nodes == old(r.nodes) + [copy] && r.Contents == old(r.Contents) + [x]
    ensures r.Repr == old(r.Repr) + {copy}
    ensures r.first == old(r.first) && r.last == old(r.last) && r.size == old(r.size)
  {
    copy := new Node(x);
    tail.next := copy;
    r.nodes := r.nodes + [copy];
    r.Contents := r.Contents + [x];
    r.Repr := r.Repr + {copy};
  }

  /**
   * The two copying loops of llDeepCopy: walks to node `start`, copies it, then copies the
   * following nodes while fewer than `end - start` have been added and the list goes on. The
   * new header's `size` is left for the caller to set; `count` is the number of nodes copied.
   */
  method CopyNodes<T>(l: LinkedList<T>, start: int, end: int) returns (r: LinkedList<T>, count: int)
    requires l.Valid() && 0 <= start < |l.nodes| && start <= end <= |l.nodes|
    ensures fresh(r.Repr) && r.Chain() && !r.released
    ensures r.Contents == l.Contents[start..CopyLimit(end, |l.nodes|)]
    ensures count == |r.Contents|
  {
    var n := GetAt(l, start);
    var tail;
    r, tail := StartCopy(n.data);
    tail, count := CopyRest(l, n, start, end, r, tail);
    r.last := tail;
  }

  /** The new header of llDeepCopy with the copy of its first node. */
  method StartCopy<T>(x: T) returns (r: LinkedList<T>, tail: Node<T>)
    ensures fresh(r.Repr) && Building(r, tail) && r.last == null && r.Contents == [x]
  {
    r := new LinkedList();
    tail := new Node(x);
    r.first := tail;
    r.nodes := [tail];
    r.Contents := [x];
    r.Repr := r.Repr + {tail};
  }

  /** The second loop of llDeepCopy: appends copies of the nodes after `n`, node `i` of `l`, up to node `end`. */
  method CopyRest<T>(l: LinkedList<T>, n: Node<T>, i: int, end: int, r: LinkedList<T>, tail: Node<T>)
    returns (newTail: Node<T>, count: int)
    requires l.Valid() && 0 <= i <= end <= |l.nodes| && i < |l.nodes| && n == l.nodes[i]
    requires Building(r, tail) && r.last == null && r.Repr !! l.Repr && r.Contents == [n.data]
    modifies r.Repr
    ensures fresh(r.Repr - old(r.Repr)) && Building(r, newTail) && r.last == null
    ensures r.Contents == l.Contents[i..CopyLimit(end, |l.nodes|)]
    ensures count == |r.Contents|
  {
    var cur, j := n, i;
    newTail := tail;
    count := 1;
    while j < end
      invariant l.Valid() && r.Repr !! l.Repr
      invariant i <= j <= end && j < |l.nodes| && cur == l.nodes[j]
      invariant fresh(r.Repr - old(r.Repr)) && Building(r, newTail) && r.last == null
      invariant count == |r.Contents| && r.Contents == l.Contents[i..j + 1]
    {
      var after := cur.next;
      assert after == (if j + 1 < |l.nodes| then l.nodes[j + 1] else null);
      if after == null {
        break;
      }
      cur := after;
      newTail := CopyOneMore(r, newTail, cur.data);
      count := count + 1;
      j := j + 1;
      assert r.Contents == l.Contents[i..j + 1];
    }
  }

  /**
   * llDeepCopy with its size corrected: a new list of new nodes holding the payloads at indices
   * `start` to `end` inclusive, or to the last index when `end` is the size. NULL for the refused
   * arguments, for `start == size` (no node to copy) and when an allocation fails.
   */
  method DeepCopy<T>(l: LinkedList?<T>, start: int, end: int, memOk: bool) returns (r: LinkedList?<T>)
    requires ValidOrNull(l)
    ensures r != null <==> l != null && !DeepCopyRefuses(false, |l.Contents|, start, end) && start < |l.Contents| && memOk
    ensures r != null ==> l != null && 0 <= start < |l.Contents| && start <= end <= |l.Contents|
    ensures r != null ==> fresh(r.Repr) && r.Valid()
    ensures r != null ==> r.Contents == l.Contents[start..CopyLimit(end, |l.Contents|)]
  {
    if l == null || l.first == null || start < 0 || end < start || end > l.size {
      return null;
    }
    if start == l.size || !memOk {
      return null;
    }
    var count;
    r, count := CopyNodes(l, start, end);
    r.size := count;
  }

  /**
   * llDeepCopy as written: the same copy, but the header's size is set to `end - start`, one
   * less than the number of nodes whenever `end` is an index of the list.
   */
  method DeepCopyAsWritten<T>(l: LinkedList?<T>, start: int, end: int, memOk: bool) returns (r: LinkedList?<T>)
    requires ValidOrNull(l)
    ensures r != null <==> l != null && !DeepCopyRefuses(false, |l.Contents|, start, end) && start < |l.Contents| && memOk
    ensures r != null ==> l != null && 0 <= start < |l.Contents| && start <= end <= |l.Contents|
    ensures r != null ==> fresh(r.Repr) && r.Chain() && !r.released && r.size == end - start
    ensures r != null ==> r.Contents == l.Contents[start..CopyLimit(end, |l.Contents|)]
    ensures r != null ==> (r.Valid() <==> end == |l.Contents|)
  {
    if l == null || l.first == null || start < 0 || end < start || end > l.size {
      return null;
    }
    if start == l.size || !memOk {
      return null;
    }
    var count;
    r, count := CopyNodes(l, start, end);
    r.size := end - start;
  }

  // ------------------------------------------------------------------
  // llFullFree
  // ------------------------------------------------------------------

  /**
   * llFullFree: frees every node, first applying the destructor to each payload when one is
   * given (`destroy`). Returns the payloads handed to the destructor, in order. The header is
   * not freed; its nodes, when it has any, are released and it no longer describes a list.
   */
  method FullFree<T>(l: LinkedList?<T>, destroy: bool) returns (destroyed: seq<T>)
    requires ValidOrNull(l)
    modifies l
    ensures l == null ==> destroyed == []
    ensures l != null ==> destroyed == (if destroy then old(l.Contents) else [])
    ensures l != null ==> l.released == (old(l.nodes) != [])
    ensures l != null ==> l.nodes == old(l.nodes) && l.Contents == old(l.Contents) && l.Repr == old(l.Repr)
    ensures l != null ==> l.first == old(l.first) && l.last == old(l.last) && l.size == old(l.size)
  {
    destroyed := [];
    if l == null {
      return;
    }
    var current := l.first;
    ghost var i := 0;
    while current != null
      invariant 0 <= i <= |l.nodes|
      invariant current == (if i < |l.nodes| then l.nodes[i] else null)
      invariant destroyed == (if destroy then l.Contents[..i] else [])
      decreases |l.nodes| - i
    {
      if destroy {
        destroyed := destroyed + [current.data];
      }
      current := current.next;
      i := i + 1;
    }
    assert l.Contents[..i] == l.Contents;
    l.released := l.first != null;
  }
}
