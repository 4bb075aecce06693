/**
 * The earlier copy of the linked list (src/collections/LinkedList.c), where it differs from the
 * maintained one: the header's size and llGet's index are `unsigned int`, and llRemoveFirstFound
 * compares `last` with NULL where it means to clear it. Every other operation of that copy
 * behaves as the one in `LinkedLists`.
 */
module EarlyLinkedLists {
  import opened Wrappers
  import opened LinkedLists

  /** The number of values of a 32-bit `unsigned int`. */
  const UINT_RANGE: int := 0x1_0000_0000

  /** The conversion of an `int` argument to `unsigned int`: the value modulo 2^32. */
  function ToUnsigned(i: int): (u: int)
    ensures 0 <= u < UINT_RANGE
    ensures 0 <= i < UINT_RANGE ==> u == i
    ensures -0x8000_0000 <= i < 0 ==> u == i + UINT_RANGE
  {
    i % UINT_RANGE
  }

  /**
   * llGet with its `unsigned int` index: NULL for a NULL list and whenever the converted index
   * is not below the size, so a negative index gives NULL rather than the first payload.
   */
  method GetUnsigned<T>(l: LinkedList?<T>, index: int) returns (r: Option<T>)
    requires ValidOrNull(l)
    ensures l == null ==> r == None
    ensures l != null && ToUnsigned(index) >= |l.Contents| ==> r == None
    ensures l != null && ToUnsigned(index) < |l.Contents| ==> r == Some(l.Contents[ToUnsigned(index)])
    ensures l != null && -0x8000_0000 <= index < 0 && |l.Contents| <= 0x8000_0000 ==> r == None
  {
    if l == null {
      return None;
    }
    var u := ToUnsigned(index);
    if u >= l.size {
      return None;
    }
    var n := GetAt(l, u);
    if n == null {
      return None;
    }
    r := Some(n.data);
  }

  /**
   * llRemoveFirstFound as written: the first matching payload leaves the chain as in the
   * maintained copy, but when it was the only one, `first` and `size` are cleared while `last`
   * still designates the unlinked node, so the header no longer describes its nodes and
   * llGetLast still returns the removed payload.
   */
  method RemoveFirstFoundAsWritten<T>(l: LinkedList?<T>, f: Option<T ~> bool>) returns (ok: bool)
    requires ValidOrNull(l)
    requires f.Some? ==> forall x :: f.value.requires(x)
    modifies ListRepr(l)
    ensures ok <==> l != null && f.Some? && old(AnySatisfies(l.Contents, f.value))
    ensures l != null && f.Some? ==> l.Contents == old(RemoveFirst(l.Contents, f.value))
    ensures l != null ==> (l.Valid() <==> !(ok && |old(l.Contents)| == 1))
    ensures l != null && ok && |old(l.Contents)| == 1 ==>
      l.Contents == [] && IsEmpty(l) && GetSize(l) == 0 && GetLast(l) == Some(old(l.Contents[0]))
  {
    if l == null || f.None? {
      return false;
    }
    ok := RemoveFirstMatchAsWritten(l, f.value);
  }

  /** The search and the unlinking of llRemoveFirstFound as written, on a list and a callback that are there. */
  method RemoveFirstMatchAsWritten<T>(l: LinkedList<T>, f: T ~> bool) returns (ok: bool)
    requires l.Valid() && forall x :: f.requires(x)
    modifies l.Repr
    ensures ok <==> old(AnySatisfies(l.Contents, f))
    ensures l.Contents == old(RemoveFirst(l.Contents, f))
    ensures l.Valid() <==> !(ok && |old(l.Contents)| == 1)
    ensures ok && |old(l.Contents)| == 1 ==>
      l.Contents == [] && IsEmpty(l) && GetSize(l) == 0 && GetLast(l) == Some(old(l.Contents[0]))
  {
    var n, b, k := FindNode(l, f);
    if n == null {
      return false;
    }
    if b == null {
      assert l.Contents[..0] + l.Contents[1..] == l.Contents[1..];
      UnlinkFirstAsWritten(l);
    } else {
      UnlinkAfter(l, b, k);
    }
    ok := true;
  }

  /** Unlinking the head as written: `first` moves on and `size` drops, but `last` is left as it was. */
  method UnlinkFirstAsWritten<T>(l: LinkedList<T>)
    requires l.Valid() && |l.nodes| > 0
    modifies l
    ensures l.nodes == old(l.nodes[1..]) && l.Contents == old(l.Contents[1..])
    ensures l.first == old(l.first.next) && l.last == old(l.last) && l.size == old(l.size) - 1
    ensures l.Valid() <==> |old(l.nodes)| > 1
    ensures |old(l.nodes)| == 1 ==>
      l.Contents == [] && IsEmpty(l) && GetSize(l) == 0 && GetLast(l) == Some(old(l.Contents[0]))
  {
    l.first := l.first.next;
    l.size := l.size - 1;
    l.nodes := l.nodes[1..];
    l.Contents := l.Contents[1..];
  }
}
