/** The operations of utlist.h on doubly linked lists, in whose shape head.prev
    is the last element. */
module DoubleList {
  import opened Links

  /** DL_PREPEND2 */
  method Prepend<K, V>(head: Node?<K, V>, n: Node<K, V>, ghost s: seq<Node<K, V>>) returns (head': Node<K, V>)
    requires Shaped(Double, head, s) && n !in s
    modifies n`next, n`prev, s`prev
    ensures Shaped(Double, head', [n] + s)
  {
    n.next := head;
    if head != null {
      n.prev := head.prev;
      head.prev := n;
    } else {
      n.prev := n;
    }
    head' := n;
    if s != [] { Prepended(n, s); }
  }

  lemma Prepended<K, V>(n: Node<K, V>, s: seq<Node<K, V>>)
    requires s != [] && n !in s && Distinct(s) && NextChain(s) && PrevChain(s)
    requires n.next == s[0] && n.prev == s[|s| - 1] && s[0].prev == n && s[|s| - 1].next == null
    ensures Shaped(Double, n, [n] + s)
  {
    var t := [n] + s;
    forall i | 0 <= i < |t| - 1 ensures t[i].next == t[i + 1] {
      if i > 0 { assert t[i] == s[i - 1]; }
    }
    forall i | 0 < i < |t| ensures t[i].prev == t[i - 1] {
      assert t[i] == s[i - 1];
    }
  }

  /** DL_APPEND2 */
  method Append<K, V>(head: Node?<K, V>, n: Node<K, V>, ghost s: seq<Node<K, V>>) returns (head': Node<K, V>)
    requires Shaped(Double, head, s) && n !in s
    modifies n`next, n`prev, s`next, s`prev
    ensures Shaped(Double, head', s + [n])
  {
    if head != null {
      n.prev := head.prev;
      head.prev.next := n;
      head.prev := n;
      n.next := null;
      head' := head;
    } else {
      head' := n;
      head'.prev := head';
      head'.next := null;
    }
  }

  /** DL_CONCAT2 */
  method Concat<K, V>(head1: Node?<K, V>, head2: Node?<K, V>, ghost s: seq<Node<K, V>>, ghost t: seq<Node<K, V>>)
    returns (head': Node?<K, V>)
    requires Shaped(Double, head1, s) && Shaped(Double, head2, t) && Apart(s, t)
    modifies s`next, s`prev, t`prev
    ensures Shaped(Double, head', s + t)
  {
    head' := head1;
    if head2 != null {
      if head1 != null {
        var tmp := head2.prev;
        head2.prev := head1.prev;
        head1.prev.next := head2;
        head1.prev := tmp;
      } else {
        head' := head2;
      }
    }
    assert s == [] ==> s + t == t;
    assert t == [] ==> s + t == s;
  }

  /** DL_DELETE2 of the element at position k. */
  method Delete<K, V>(head: Node<K, V>, del: Node<K, V>, ghost s: seq<Node<K, V>>, ghost k: nat) returns (head': Node?<K, V>)
    requires Shaped(Double, head, s) && k < |s| && s[k] == del
    modifies s`next, s`prev
    ensures Shaped(Double, head', RemoveAt(s, k))
    ensures del.next == old(del.next) && del.prev == old(del.prev)
  {
    NeighboursOf(head, s, k);
    ghost var next := seq(|s|, i requires 0 <= i < |s| reads s => s[i].next);
    ghost var prev := seq(|s|, i requires 0 <= i < |s| reads s => s[i].prev);
    assert del.prev != null;
    head' := head;
    if del.prev == del {
      head' := null;
    } else if del == head {
      del.next.prev := del.prev;
      head' := del.next;
    } else {
      del.prev.next := del.next;
      if del.next != null {
        del.next.prev := del.prev;
      } else {
        head.prev := del.prev;
      }
    }
    Bypassed(Double, s, k, next, prev);
  }

  lemma NeighboursOf<K, V>(head: Node<K, V>, s: seq<Node<K, V>>, k: nat)
    requires Shaped(Double, head, s) && k < |s|
    ensures s[k].next == if k + 1 < |s| then s[k + 1] else null
    ensures s[k].prev == if k > 0 then s[k - 1] else s[|s| - 1]
    ensures k > 0 ==> s[k - 1] in s
  {
  }

  /** DL_REPLACE_ELEM2 of the element at position k. */
  method Replace<K, V>(head: Node<K, V>, el: Node<K, V>, add: Node<K, V>, ghost s: seq<Node<K, V>>, ghost k: nat)
    returns (head': Node<K, V>)
    requires Shaped(Double, head, s) && k < |s| && s[k] == el && add !in s
    modifies s`next, s`prev, add`next, add`prev
    ensures Shaped(Double, head', s[k := add])
  {
    NeighboursOf(head, s, k);
    head' := head;
    if head == el {
      head' := add;
      add.next := el.next;
      if el.next == null {
        add.prev := add;
      } else {
        add.prev := el.prev;
        add.next.prev := add;
      }
    } else {
      add.next := el.next;
      add.prev := el.prev;
      add.prev.next := add;
      if el.next == null {
        head.prev := add;
      } else {
        add.next.prev := add;
      }
    }
  }
}
