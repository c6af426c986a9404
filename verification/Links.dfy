/** List elements and the link shapes of utlist.h and uthash.h. */
module Links {

  /** An element with its link fields. A list of utlist.h uses next and prev; a
      table of uthash.h also uses the fields of the embedded hash handle. */
  class Node<K, V> {
    const key: K
    var val: V
    var next: Node?<K, V>
    var prev: Node?<K, V>
    var hashv: nat
    var hhNext: Node?<K, V>
    var hhPrev: Node?<K, V>

    constructor (key: K, val: V)
      ensures this.key == key && this.val == val
    {
      this.key, this.val := key, val;
      next, prev, hashv, hhNext, hhPrev := null, null, 0, null, null;
    }
  }

  /** The four list shapes: LL (singly linked), DL (doubly linked, head.prev is
      the last element), CDL (circular) and the application order of a hash
      table (doubly linked, null at both ends). */
  datatype Shape = Single | Double | Circular | AppOrder

  ghost predicate Distinct<T>(s: seq<T>) {
    forall i, j | 0 <= i < j < |s| :: s[i] != s[j]
  }

  ghost function Elements<T>(s: seq<T>): set<T> { set n | n in s }

  ghost predicate Apart<T>(a: seq<T>, b: seq<T>) {
    forall i, j | 0 <= i < |a| && 0 <= j < |b| :: a[i] != b[j]
  }

  /** Each element's next is its successor; nothing is said of the last one's. */
  ghost predicate NextChain<K, V>(s: seq<Node<K, V>>)
    reads s`next
  {
    forall i | 0 <= i < |s| - 1 :: s[i].next == s[i + 1]
  }

  /** Each element's prev is its predecessor; nothing is said of the first one's. */
  ghost predicate PrevChain<K, V>(s: seq<Node<K, V>>)
    reads s`prev
  {
    forall i | 0 < i < |s| :: s[i].prev == s[i - 1]
  }

  /** head and the next links spell s in the given shape. */
  ghost predicate NextShape<K, V>(shape: Shape, head: Node?<K, V>, s: seq<Node<K, V>>)
    reads s`next
  {
    && Distinct(s)
    && (head == if s == [] then null else s[0])
    && NextChain(s)
    && (s != [] ==> s[|s| - 1].next == if shape.Circular? then s[0] else null)
  }

  /** head and all links spell s in the given shape. */
  ghost predicate Shaped<K, V>(shape: Shape, head: Node?<K, V>, s: seq<Node<K, V>>)
    reads s`next, s`prev
  {
    && NextShape(shape, head, s)
    && (!shape.Single? && s != [] ==>
          PrevChain(s) && s[0].prev == if shape.AppOrder? then null else s[|s| - 1])
  }

  /** s without its element k. */
  function RemoveAt<T>(s: seq<T>, k: nat): (r: seq<T>)
    requires k < |s|
    ensures |r| == |s| - 1
    ensures forall i {:trigger r[i]} | 0 <= i < k :: r[i] == s[i]
    ensures forall i {:trigger r[i]} | k <= i < |r| :: r[i] == s[i + 1]
  {
    s[..k] + s[k + 1..]
  }

  lemma RemovedMembers<T>(s: seq<T>, k: nat, x: T)
    requires k < |s| && Distinct(s)
    ensures x in RemoveAt(s, k) <==> x in s && x != s[k]
  {
    if x in s && x != s[k] {
      var i :| 0 <= i < |s| && s[i] == x;
      assert RemoveAt(s, k)[if i < k then i else i - 1] == x;
    }
  }

  /** The element at k is bypassed, which leaves the links of RemoveAt(s, k); `next`
      and `prev` are the links of s before that. */
  lemma Bypassed<K, V>(shape: Shape, s: seq<Node<K, V>>, k: nat, next: seq<Node?<K, V>>, prev: seq<Node?<K, V>>)
    requires shape.Double? || shape.AppOrder?
    requires k < |s| == |next| == |prev| && Distinct(s)
    requires prev[0] == (if shape.AppOrder? then null else s[|s| - 1]) && next[|s| - 1] == null
    requires forall i | 0 <= i < |s| - 1 :: next[i] == s[i + 1]
    requires forall i | 0 < i < |s| :: prev[i] == s[i - 1]
    requires forall i {:trigger s[i].next} | 0 <= i < |s| && i != k :: s[i].next == next[if i == k - 1 then k else i]
    requires forall i {:trigger s[i].prev} | 0 <= i < |s| && i != k ::
               s[i].prev == prev[if i == k + 1 || (shape.Double? && i == 0 && k == |s| - 1) then k else i]
    ensures Shaped(shape, if |s| == 1 then null else if k > 0 then s[0] else s[1], RemoveAt(s, k))
  {
    var d := RemoveAt(s, k);
    forall i | 0 <= i < |d| - 1 ensures d[i].next == d[i + 1] {
      assert next[i] == s[i + 1];
      if i + 2 < |s| { assert next[i + 1] == s[i + 1 + 1]; }
    }
    forall i | 0 < i < |d| ensures d[i].prev == d[i - 1] {
      assert prev[i] == s[i - 1];
      if i + 1 < |s| { assert prev[i + 1] == s[i]; }
    }
  }
}
