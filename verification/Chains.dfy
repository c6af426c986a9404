/** Bucket chains of src/libut/include/uthash.h. */
module Chains {
  import opened Links
  import opened Bits

  const HASH_BKT_CAPACITY_THRESH := 10

  datatype Bucket<K, V> = Bucket(hhHead: Node?<K, V>, count: nat, expandMult: nat)

  /** HASH_TO_BKT */
  function Slot<K>(hash: K -> nat, key: K, numBuckets: nat): (b: nat)
    requires numBuckets > 0
    ensures b < numBuckets
  {
    And(hash(key), numBuckets - 1)
  }

  /** h and the hhNext links spell c; hhPrev is not considered. */
  ghost predicate Tail<K, V>(h: Node?<K, V>, c: seq<Node<K, V>>)
    reads c`hhNext
  {
    && Distinct(c)
    && (h == if c == [] then null else c[0])
    && (c != [] ==> c[|c| - 1].hhNext == null)
    && forall i | 0 <= i < |c| - 1 :: c[i].hhNext == c[i + 1]
  }

  /** Chain b of numBuckets: its links, its count, and only elements of nodes that hash to b. */
  ghost predicate ChainOK<K, V>(hash: K -> nat, bk: Bucket<K, V>, c: seq<Node<K, V>>, numBuckets: nat, b: int, nodes: set<Node<K, V>>)
    requires numBuckets > 0
    reads nodes`hhNext, nodes`hhPrev
  {
    && (forall n | n in c :: n in nodes && Slot(hash, n.key, numBuckets) == b)
    && bk.count == |c|
    && Tail(bk.hhHead, c)
    && (c != [] ==> c[0].hhPrev == null)
    && forall i | 0 <= i < |c| - 1 :: c[i + 1].hhPrev == c[i]
  }

  /** The buckets hold exactly the elements of nodes, each in the chain its hash selects. */
  ghost predicate ChainsOK<K, V>(hash: K -> nat, bks: seq<Bucket<K, V>>, chains: seq<seq<Node<K, V>>>, nodes: set<Node<K, V>>)
    reads nodes`hhNext, nodes`hhPrev
  {
    && |bks| == |chains| > 0
    && (forall b | 0 <= b < |bks| :: ChainOK(hash, bks[b], chains[b], |bks|, b, nodes))
    && Covered(hash, chains, nodes)
  }

  ghost predicate Covered<K, V>(hash: K -> nat, chains: seq<seq<Node<K, V>>>, nodes: set<Node<K, V>>)
    requires |chains| > 0
  {
    forall n | n in nodes :: n in chains[Slot(hash, n.key, |chains|)]
  }

  /** The four link statements shared by HASH_ADD_TO_BKT and HASH_EXPAND_BUCKETS,
      and the increment of the count in front of them. */
  method PushFront<K, V>(hash: K -> nat, bks: array<Bucket<K, V>>, b: nat, n: Node<K, V>,
                         ghost chains: seq<seq<Node<K, V>>>, ghost nodes: set<Node<K, V>>)
    requires ChainsOK(hash, bks[..], chains, nodes) && n !in nodes
    requires b < bks.Length && b == Slot(hash, n.key, bks.Length)
    modifies bks, n`hhNext, n`hhPrev, (if bks[b].hhHead == null then {} else {bks[b].hhHead})`hhPrev
    ensures bks[..] == old(bks[..])[b := Bucket(n, old(bks[b]).count + 1, old(bks[b]).expandMult)]
    ensures ChainsOK(hash, bks[..], chains[b := [n] + chains[b]], nodes + {n})
  {
    ghost var c, chains' := chains[b], chains[b := [n] + chains[b]];
    assert ChainOK(hash, bks[b], c, |chains|, b, nodes);
    var head := bks[b].hhHead;
    bks[b] := bks[b].(count := bks[b].count + 1);
    n.hhNext := head;
    n.hhPrev := null;
    if head != null { head.hhPrev := n; }
    bks[b] := bks[b].(hhHead := n);
    PushedChain(hash, bks[b], c, n, |chains|, b, nodes);
    forall k | 0 <= k < |chains| ensures ChainOK(hash, bks[k], chains'[k], |chains|, k, nodes + {n}) {
      if k != b {
        assert old(ChainOK(hash, bks[k], chains[k], |chains|, k, nodes));
        forall i | 0 <= i < |chains[k]| ensures chains[k][i] != n && chains[k][i] != head {
          assert chains[k][i] in chains[k] && (head != null ==> head in c);
        }
      }
    }
  }

  lemma PushedChain<K, V>(hash: K -> nat, bk: Bucket<K, V>, c: seq<Node<K, V>>, n: Node<K, V>, numBuckets: nat, b: int, nodes: set<Node<K, V>>)
    requires numBuckets > 0 && n !in nodes && Slot(hash, n.key, numBuckets) == b
    requires forall m | m in c :: m in nodes && Slot(hash, m.key, numBuckets) == b
    requires bk.hhHead == n && bk.count == |c| + 1 && n.hhPrev == null
    requires Tail(n.hhNext, c)
    requires c != [] ==> c[0].hhPrev == n
    requires forall i | 0 <= i < |c| - 1 :: c[i + 1].hhPrev == c[i]
    ensures ChainOK(hash, bk, [n] + c, numBuckets, b, nodes + {n})
  {
    var d := [n] + c;
    forall i | 0 <= i < |d| - 1 ensures d[i].hhNext == d[i + 1] && d[i + 1].hhPrev == d[i] {
      if i > 0 {
        assert d[i] == c[i - 1] && d[i + 1] == c[i - 1 + 1];
      }
    }
  }

  /** The link statements of HASH_DEL_IN_BKT. */
  method Unlink<K, V>(n: Node<K, V>, ghost k: nat, ghost c: seq<Node<K, V>>)
    requires k < |c| && n == c[k] && Distinct(c) && c[0].hhPrev == null && c[|c| - 1].hhNext == null
    requires forall i | 0 <= i < |c| - 1 :: c[i].hhNext == c[i + 1] && c[i + 1].hhPrev == c[i]
    modifies (if n.hhPrev == null then {} else {n.hhPrev})`hhNext
    modifies (if n.hhNext == null then {} else {n.hhNext})`hhPrev
    ensures forall i {:trigger c[i].hhNext} | 0 <= i < |c| && i != k :: c[i].hhNext == old(c[if i == k - 1 then k else i].hhNext)
    ensures forall i {:trigger c[i].hhPrev} | 0 <= i < |c| && i != k :: c[i].hhPrev == old(c[if i == k + 1 then k else i].hhPrev)
  {
    assert k > 0 ==> c[k - 1].hhNext == n && c[k - 1 + 1].hhPrev == c[k - 1];
    assert k + 1 < |c| ==> n.hhNext == c[k + 1];
    if n.hhPrev != null {
      n.hhPrev.hhNext := n.hhNext;
    }
    if n.hhNext != null {
      n.hhNext.hhPrev := n.hhPrev;
    }
    assert forall i | 0 <= i < |c| && i != k - 1 :: c[i].hhNext == old(c[i].hhNext);
    assert forall i | 0 <= i < |c| && i != k + 1 :: c[i].hhPrev == old(c[i].hhPrev);
  }

  /** HASH_DEL_IN_BKT on the bucket bk, from which the element n at position k
      of its chain c is taken. */
  method DelInBkt<K, V>(hash: K -> nat, bk: Bucket<K, V>, n: Node<K, V>, ghost k: nat, ghost c: seq<Node<K, V>>,
                        ghost numBuckets: nat, ghost b: int, ghost nodes: set<Node<K, V>>)
    returns (bk': Bucket<K, V>)
    requires numBuckets > 0 && ChainOK(hash, bk, c, numBuckets, b, nodes)
    requires k < |c| && n == c[k]
    modifies (if n.hhPrev == null then {} else {n.hhPrev})`hhNext
    modifies (if n.hhNext == null then {} else {n.hhNext})`hhPrev
    ensures bk'.expandMult == bk.expandMult
    ensures ChainOK(hash, bk', RemoveAt(c, k), numBuckets, b, nodes - {n})
  {
    ghost var next := seq(|c|, i requires 0 <= i < |c| reads c => c[i].hhNext);
    ghost var prev := seq(|c|, i requires 0 <= i < |c| reads c => c[i].hhPrev);
    bk' := bk.(count := bk.count - 1);
    if bk'.hhHead == n {
      bk' := bk'.(hhHead := n.hhNext);
    }
    Unlink(n, k, c);
    UnlinkedChain(c, k, next, prev);
    forall m ensures m in RemoveAt(c, k) <==> m in c && m != n { RemovedMembers(c, k, m); }
  }

  /** The neighbours of an element in its chain belong to no other chain. */
  lemma NeighboursInChain<K, V>(hash: K -> nat, bks: seq<Bucket<K, V>>, chains: seq<seq<Node<K, V>>>, nodes: set<Node<K, V>>, b: nat, k: nat)
    requires ChainsOK(hash, bks, chains, nodes) && b < |bks| && k < |chains[b]|
    ensures var n := chains[b][k];
            && (n.hhPrev == if k > 0 then chains[b][k - 1] else null)
            && (n.hhNext == if k + 1 < |chains[b]| then chains[b][k + 1] else null)
            && forall j | 0 <= j < |bks| && j != b :: n !in chains[j] && n.hhPrev !in chains[j] && n.hhNext !in chains[j]
  {
    var c := chains[b];
    assert ChainOK(hash, bks[b], c, |bks|, b, nodes);
    assert k > 0 ==> c[k - 1 + 1].hhPrev == c[k - 1];
    assert c[k] in c && (k > 0 ==> c[k - 1] in c) && (k + 1 < |c| ==> c[k + 1] in c);
    forall j, m | 0 <= j < |bks| && j != b && m in c ensures m !in chains[j] {
      assert ChainOK(hash, bks[j], chains[j], |bks|, j, nodes);
    }
  }

  /** HASH_DEL_IN_BKT within the bucket array. */
  method DelFromBuckets<K, V>(hash: K -> nat, bks: array<Bucket<K, V>>, b: nat, n: Node<K, V>, ghost k: nat,
                              ghost chains: seq<seq<Node<K, V>>>, ghost nodes: set<Node<K, V>>)
    requires ChainsOK(hash, bks[..], chains, nodes)
    requires b < bks.Length && k < |chains[b]| && n == chains[b][k]
    modifies bks
    modifies (if n.hhPrev == null then {} else {n.hhPrev})`hhNext
    modifies (if n.hhNext == null then {} else {n.hhNext})`hhPrev
    ensures ChainsOK(hash, bks[..], chains[b := RemoveAt(chains[b], k)], nodes - {n})
  {
    ghost var bks0 := bks[..];
    NeighboursInChain(hash, bks0, chains, nodes, b, k);
    assert ChainOK(hash, bks0[b], chains[b], |chains|, b, nodes);
    var bk := DelInBkt(hash, bks[b], n, k, chains[b], bks.Length, b, nodes);
    forall j | 0 <= j < |chains| && j != b ensures ChainOK(hash, bks0[j], chains[j], |chains|, j, nodes - {n}) {
      assert old(ChainOK(hash, bks0[j], chains[j], |chains|, j, nodes));
      assert forall i | 0 <= i < |chains[j]| :: chains[j][i] in chains[j];
    }
    bks[b] := bk;
    RemovedCover(hash, chains, nodes, b, k);
  }

  lemma RemovedCover<K, V>(hash: K -> nat, chains: seq<seq<Node<K, V>>>, nodes: set<Node<K, V>>, b: nat, k: nat)
    requires b < |chains| && k < |chains[b]| && Distinct(chains[b]) && Covered(hash, chains, nodes)
    ensures Covered(hash, chains[b := RemoveAt(chains[b], k)], nodes - {chains[b][k]})
  {
    forall m ensures m in RemoveAt(chains[b], k) <==> m in chains[b] && m != chains[b][k] {
      RemovedMembers(chains[b], k, m);
    }
  }

  /** Bypassing the element at k leaves the links of RemoveAt(c, k); `next` and
      `prev` are the links of c before that. */
  lemma UnlinkedChain<K, V>(c: seq<Node<K, V>>, k: nat, next: seq<Node?<K, V>>, prev: seq<Node?<K, V>>)
    requires k < |c| == |next| == |prev| && Distinct(c)
    requires prev[0] == null && next[|c| - 1] == null
    requires forall i | 0 <= i < |c| - 1 :: next[i] == c[i + 1] && prev[i + 1] == c[i]
    requires forall i {:trigger c[i].hhNext} | 0 <= i < |c| && i != k :: c[i].hhNext == next[if i == k - 1 then k else i]
    requires forall i {:trigger c[i].hhPrev} | 0 <= i < |c| && i != k :: c[i].hhPrev == prev[if i == k + 1 then k else i]
    ensures var d := RemoveAt(c, k);
            && Tail(if k > 0 then c[0] else next[0], d)
            && (d != [] ==> d[0].hhPrev == null)
            && forall i | 0 <= i < |d| - 1 :: d[i + 1].hhPrev == d[i]
  {
    var d := RemoveAt(c, k);
    forall i | 0 <= i < |d| - 1 ensures d[i + 1].hhPrev == d[i] && d[i].hhNext == d[i + 1] {
      assert next[i] == c[i + 1] && prev[i + 1] == c[i];
      if i + 2 < |c| { assert next[i + 1] == c[i + 1 + 1] && prev[i + 1 + 1] == c[i + 1]; }
    }
  }

  /** HASH_FIND_IN_BKT: the first element of the chain with that hash and key. */
  method FindInBkt<K(==), V>(head: Node?<K, V>, key: K, hashval: nat, ghost c: seq<Node<K, V>>) returns (out: Node?<K, V>)
    requires Tail(head, c)
    ensures out == null ==> forall n | n in c :: n.hashv != hashval || n.key != key
    ensures out != null ==> out in c && out.hashv == hashval && out.key == key
  {
    out := head;
    ghost var i := 0;
    while out != null
      invariant 0 <= i <= |c| && out == if i < |c| then c[i] else null
      invariant forall j | 0 <= j < i :: c[j].hashv != hashval || c[j].key != key
      decreases |c| - i
    {
      if out.hashv == hashval {
        if out.key == key {
          break;
        }
      }
      assert i + 1 < |c| ==> c[i].hhNext == c[i + 1];
      out := out.hhNext;
      i := i + 1;
    }
  }

  function MonusOf(a: nat, b: nat): nat { if a > b then a - b else 0 }

  /** The number of elements beyond position `ideal` of their chain. */
  ghost function Excess<T>(chains: seq<seq<T>>, ideal: nat): nat {
    if chains == [] then 0 else MonusOf(|chains[0]|, ideal) + Excess(chains[1..], ideal)
  }

  lemma {:induction false} ExcessPush<T>(chains: seq<seq<T>>, ideal: nat, b: nat, n: T)
    requires b < |chains|
    ensures Excess(chains[b := [n] + chains[b]], ideal)
         == Excess(chains, ideal) + if |chains[b]| + 1 > ideal then 1 else 0
  {
    var chains' := chains[b := [n] + chains[b]];
    if b == 0 {
      assert chains'[1..] == chains[1..];
    } else {
      assert chains'[1..] == chains[1..][b - 1 := [n] + chains[b]];
      ExcessPush(chains[1..], ideal, b - 1, n);
    }
  }

  lemma {:induction false} ExcessEmpty<T>(chains: seq<seq<T>>, ideal: nat)
    requires forall b | 0 <= b < |chains| :: chains[b] == []
    ensures Excess(chains, ideal) == 0
  {
    if chains != [] {
      ExcessEmpty(chains[1..], ideal);
    }
  }

  /** The accounting of an expansion: the excess so far, and a multiplier in each
      bucket whose chain is longer than the ideal. */
  ghost predicate Accounted<K, V>(bks: seq<Bucket<K, V>>, chains: seq<seq<Node<K, V>>>, ideal: nat, nonideal: nat) {
    && ideal > 0 && |bks| == |chains|
    && nonideal == Excess(chains, ideal)
    && forall b | 0 <= b < |bks| :: bks[b].expandMult == if |chains[b]| > ideal then |chains[b]| / ideal else 0
  }

  /** One round of the inner loop of HASH_EXPAND_BUCKETS. */
  method MoveOne<K, V>(hash: K -> nat, bks: array<Bucket<K, V>>, ideal: nat, nonideal: nat, n: Node<K, V>,
                       ghost chains: seq<seq<Node<K, V>>>, ghost moved: set<Node<K, V>>)
    returns (nonideal': nat, ghost chains': seq<seq<Node<K, V>>>)
    requires ChainsOK(hash, bks[..], chains, moved) && n !in moved
    requires Accounted(bks[..], chains, ideal, nonideal)
    modifies bks, n`hhNext, (moved + {n})`hhPrev
    ensures |chains'| == |chains|
    ensures ChainsOK(hash, bks[..], chains', moved + {n})
    ensures Accounted(bks[..], chains', ideal, nonideal')
  {
    var b := Slot(hash, n.key, bks.Length);
    ExcessPush(chains, ideal, b, n);
    nonideal' := CountMove(hash, bks, ideal, nonideal, b, chains, moved);
    chains' := chains[b := [n] + chains[b]];
    PushFront(hash, bks, b, n, chains, moved);
  }

  /** The counting of one round: excess and multiplier of the bucket about to grow. */
  method CountMove<K, V>(hash: K -> nat, bks: array<Bucket<K, V>>, ideal: nat, nonideal: nat, b: nat,
                         ghost chains: seq<seq<Node<K, V>>>, ghost moved: set<Node<K, V>>)
    returns (nonideal': nat)
    requires ChainsOK(hash, bks[..], chains, moved) && Accounted(bks[..], chains, ideal, nonideal) && b < bks.Length
    modifies bks
    ensures ChainsOK(hash, bks[..], chains, moved)
    ensures var long := |chains[b]| + 1 > ideal;
            && nonideal' == nonideal + (if long then 1 else 0)
            && bks[..] == old(bks[..])[b := if long then old(bks[b]).(expandMult := (|chains[b]| + 1) / ideal) else old(bks[b])]
  {
    ghost var bks0 := bks[..];
    assert ChainOK(hash, bks[b], chains[b], |chains|, b, moved);
    var count := bks[b].count + 1;
    nonideal' := nonideal;
    if count > ideal {
      nonideal' := nonideal + 1;
      bks[b] := bks[b].(expandMult := count / ideal);
    }
    forall j | 0 <= j < |chains| ensures ChainOK(hash, bks[j], chains[j], |chains|, j, moved) {
      assert ChainOK(hash, bks0[j], chains[j], |chains|, j, moved);
    }
  }

  /** The inner loop of HASH_EXPAND_BUCKETS: the chain c moves to the new buckets. */
  method MoveChain<K, V>(hash: K -> nat, bks: array<Bucket<K, V>>, ideal: nat, nonideal: nat, head: Node?<K, V>,
                         ghost chains: seq<seq<Node<K, V>>>, ghost moved: set<Node<K, V>>, ghost c: seq<Node<K, V>>, ghost nodes: set<Node<K, V>>)
    returns (nonideal': nat, ghost chains': seq<seq<Node<K, V>>>)
    requires ChainsOK(hash, bks[..], chains, moved) && Accounted(bks[..], chains, ideal, nonideal)
    requires Tail(head, c) && (forall n | n in c :: n !in moved && n in nodes) && moved <= nodes
    modifies bks, nodes`hhNext, nodes`hhPrev
    ensures |chains'| == |chains|
    ensures ChainsOK(hash, bks[..], chains', moved + Elements(c)) && Accounted(bks[..], chains', ideal, nonideal')
    ensures forall n | n in nodes && n !in c :: n.hhNext == old(n.hhNext)
  {
    var thh := head;
    nonideal', chains' := nonideal, chains;
    ghost var done, rest := moved, c;
    while thh != null
      invariant Tail(thh, rest) && |chains'| == |chains|
      invariant forall n | n in rest :: n !in done && n in c
      invariant done <= nodes && done + Elements(rest) == moved + Elements(c)
      invariant ChainsOK(hash, bks[..], chains', done) && Accounted(bks[..], chains', ideal, nonideal')
      invariant forall n | n in nodes && n !in c :: n.hhNext == old(n.hhNext)
      decreases |rest|
    {
      var next := thh.hhNext;
      TailTail(thh, rest);
      nonideal', chains' := MoveOne(hash, bks, ideal, nonideal', thh, chains', done);
      done := done + {thh};
      thh := next;
      rest := rest[1..];
    }
  }

  lemma TailTail<K, V>(h: Node?<K, V>, c: seq<Node<K, V>>)
    requires Tail(h, c) && c != []
    ensures Tail(c[0].hhNext, c[1..])
    ensures forall i | 0 <= i < |c[1..]| :: c[1..][i] != c[0]
    ensures Elements(c) == {c[0]} + Elements(c[1..])
  {
    var d := c[1..];
    assert c == [c[0]] + d;
    assert forall i | 0 <= i < |d| :: d[i] == c[i + 1];
    if |c| > 1 { assert c[0].hhNext == c[0 + 1]; }
    forall i | 0 <= i < |d| - 1 ensures d[i].hhNext == d[i + 1] {
      assert c[i + 1].hhNext == c[i + 1 + 1];
    }
  }

  /** The elements whose chain among numBuckets comes before chain i. */
  ghost function Before<K, V>(hash: K -> nat, nodes: set<Node<K, V>>, numBuckets: nat, i: nat): set<Node<K, V>>
    requires numBuckets > 0
  {
    set n | n in nodes && Slot(hash, n.key, numBuckets) < i
  }

  /** Which elements a chain holds, links aside. */
  ghost predicate Distributed<K, V>(hash: K -> nat, chains: seq<seq<Node<K, V>>>, nodes: set<Node<K, V>>) {
    && |chains| > 0 && Covered(hash, chains, nodes)
    && forall b | 0 <= b < |chains| :: forall k | 0 <= k < |chains[b]| ::
         chains[b][k] in nodes && Slot(hash, chains[b][k].key, |chains|) == b
  }

  lemma ChainsDistributed<K, V>(hash: K -> nat, bks: seq<Bucket<K, V>>, chains: seq<seq<Node<K, V>>>, nodes: set<Node<K, V>>)
    requires ChainsOK(hash, bks, chains, nodes)
    ensures Distributed(hash, chains, nodes)
    ensures forall k | 0 <= k < |bks| :: Tail(bks[k].hhHead, chains[k])
  {
    forall b | 0 <= b < |chains| ensures Tail(bks[b].hhHead, chains[b])
      ensures forall k | 0 <= k < |chains[b]| :: chains[b][k] in nodes && Slot(hash, chains[b][k].key, |chains|) == b
    {
      assert ChainOK(hash, bks[b], chains[b], |bks|, b, nodes);
      assert forall k | 0 <= k < |chains[b]| :: chains[b][k] in chains[b];
    }
  }

  lemma BeforeNext<K, V>(hash: K -> nat, chains: seq<seq<Node<K, V>>>, nodes: set<Node<K, V>>, i: nat)
    requires Distributed(hash, chains, nodes) && i < |chains|
    ensures Before(hash, nodes, |chains|, i) + Elements(chains[i]) == Before(hash, nodes, |chains|, i + 1)
    ensures forall n | n in chains[i] :: n !in Before(hash, nodes, |chains|, i) && n in nodes
    ensures forall j | 0 <= j < |chains| && j != i :: forall k | 0 <= k < |chains[j]| :: chains[j][k] !in chains[i] && chains[j][k] in nodes
  {
    forall n ensures n in Before(hash, nodes, |chains|, i) + Elements(chains[i]) <==> n in Before(hash, nodes, |chains|, i + 1) {
      if n in nodes && Slot(hash, n.key, |chains|) == i {
        assert n in chains[Slot(hash, n.key, |chains|)];
      }
    }
  }

  /** The outer loop of HASH_EXPAND_BUCKETS: all chains move to twice as many buckets. */
  method Rehash<K, V>(hash: K -> nat, bks: array<Bucket<K, V>>, newBks: array<Bucket<K, V>>, ideal: nat,
                      ghost chains: seq<seq<Node<K, V>>>, ghost nodes: set<Node<K, V>>)
    returns (nonideal: nat, ghost newChains: seq<seq<Node<K, V>>>)
    requires ChainsOK(hash, bks[..], chains, nodes) && ideal > 0
    requires bks != newBks && newBks.Length > 0 && forall b | 0 <= b < newBks.Length :: newBks[b] == Bucket(null, 0, 0)
    modifies newBks, nodes`hhNext, nodes`hhPrev
    ensures ChainsOK(hash, newBks[..], newChains, nodes) && Accounted(newBks[..], newChains, ideal, nonideal)
  {
    nonideal, newChains := 0, seq(newBks.Length, _ => []);
    ExcessEmpty(newChains, ideal);
    ChainsDistributed(hash, bks[..], chains, nodes);
    ghost var moved: set<Node<K, V>> := {};
    ghost var bks0 := bks[..];
    var i := 0;
    while i < bks.Length
      invariant 0 <= i <= bks.Length && moved == Before(hash, nodes, bks.Length, i) && bks[..] == bks0
      invariant ChainsOK(hash, newBks[..], newChains, moved) && Accounted(newBks[..], newChains, ideal, nonideal)
      invariant forall k | i <= k < bks.Length :: Tail(bks0[k].hhHead, chains[k])
      invariant |newChains| == newBks.Length
    {
      BeforeNext(hash, chains, nodes, i);
      nonideal, newChains := MoveChain(hash, newBks, ideal, nonideal, bks[i].hhHead, newChains, moved, chains[i], nodes);
      moved := moved + Elements(chains[i]);
      i := i + 1;
    }
  }
}
