/** The hash table of src/libut/include/uthash.h: bucket chains and the list in
    application order, interleaved over the same elements. */
module HashTable {
  import opened Links
  import opened Bits
  import opened Chains
  import opened MergeSpec
  import ListSort

  const HASH_INITIAL_NUM_BUCKETS := 32
  const HASH_INITIAL_NUM_BUCKETS_LOG2 := 5

  /** HASH_TO_BKT is the remainder modulo the number of buckets. */
  lemma SlotIsRemainder<K>(hash: K -> nat, key: K, log2: nat)
    ensures Slot(hash, key, Pow2(log2)) == hash(key) % Pow2(log2)
  {
    AndMask(hash(key), log2);
  }

  /** The chain length that HASH_EXPAND_BUCKETS takes for ideal, by shift and mask. */
  function IdealLength(numItems: nat, numBuckets: nat, log2: nat): nat
    requires numBuckets > 0
  {
    Shr(numItems, log2 + 1) + if And(numItems, 2 * numBuckets - 1) != 0 then 1 else 0
  }

  /** It is the number of items per doubled number of buckets, rounded up, and
      at least 1, so that it can be divided by. */
  lemma IdealLengthIsCeil(numItems: nat, numBuckets: nat, log2: nat)
    requires numBuckets == Pow2(log2) && numItems > 0
    ensures IsCeilDiv(numItems, 2 * numBuckets, IdealLength(numItems, numBuckets, log2))
    ensures IdealLength(numItems, numBuckets, log2) >= 1
  {
    ShiftMaskCeil(numItems, log2 + 1);
  }

  lemma EmptyBuckets<K, V>(hash: K -> nat, bks: seq<Bucket<K, V>>, chains: seq<seq<Node<K, V>>>)
    requires |bks| == |chains| > 0
    requires forall b | 0 <= b < |bks| :: bks[b] == Bucket(null, 0, 0) && chains[b] == []
    ensures ChainsOK(hash, bks, chains, {})
  {
  }

  lemma InitialPow2()
    ensures Pow2(HASH_INITIAL_NUM_BUCKETS_LOG2) == HASH_INITIAL_NUM_BUCKETS
  {
    assert Pow2(3) == 8;
  }

  /** The sizes and accounts of a table. */
  datatype Books = Books(numBuckets: nat, log2: nat, ideal: nat, nonideal: nat, ineffExpands: nat, noexpand: nat)

  const FIRST_BOOKS := Books(HASH_INITIAL_NUM_BUCKETS, HASH_INITIAL_NUM_BUCKETS_LOG2, 0, 0, 0, 0)

  /** What an expansion does to the accounts of a table of numItems elements. */
  ghost predicate Expanded<K, V>(before: Books, numItems: nat, after: Books, bks: seq<Bucket<K, V>>, chains: seq<seq<Node<K, V>>>)
    requires before.numBuckets > 0
  {
    && after.numBuckets == 2 * before.numBuckets && after.log2 == before.log2 + 1
    && after.ideal == IdealLength(numItems, before.numBuckets, before.log2)
    && Accounted(bks, chains, after.ideal, after.nonideal)
    && after.ineffExpands == (if after.nonideal > numItems / 2 then before.ineffExpands + 1 else 0)
    && after.noexpand == if after.ineffExpands > 1 then 1 else before.noexpand
  }

  /** One more element brings the bucket to its threshold. */
  ghost predicate Filling<K, V>(bk: Bucket<K, V>) {
    bk.count + 1 >= (bk.expandMult + 1) * HASH_BKT_CAPACITY_THRESH
  }

  ghost predicate UniqueKeys<K, V>(s: seq<Node<K, V>>) {
    forall i, j | 0 <= i < j < |s| :: s[i].key != s[j].key
  }

  /** The mapping that elements with unique keys spell, whatever their order. */
  ghost function AsMap<K, V>(s: seq<Node<K, V>>): map<K, Node<K, V>> {
    if s == [] then map[] else AsMap(s[..|s| - 1])[s[|s| - 1].key := s[|s| - 1]]
  }

  lemma {:induction false} MapMembers<K, V>(s: seq<Node<K, V>>)
    requires UniqueKeys(s)
    ensures forall n | n in s :: n.key in AsMap(s) && AsMap(s)[n.key] == n
    ensures forall k | k in AsMap(s) :: AsMap(s)[k] in s && AsMap(s)[k].key == k
  {
    if s != [] {
      var t, last := s[..|s| - 1], s[|s| - 1];
      assert s == t + [last];
      MapMembers(t);
      forall n | n in s ensures n.key in AsMap(s) && AsMap(s)[n.key] == n {
        if n != last { assert n in t; }
      }
    }
  }

  lemma MapOfAdded<K, V>(s: seq<Node<K, V>>, n: Node<K, V>)
    ensures AsMap(s + [n]) == AsMap(s)[n.key := n]
  {
    assert (s + [n])[..|s|] == s;
  }

  lemma MapOfRemoved<K, V>(s: seq<Node<K, V>>, k: nat)
    requires UniqueKeys(s) && k < |s|
    ensures AsMap(RemoveAt(s, k)) == AsMap(s) - {s[k].key}
  {
    var r := RemoveAt(s, k);
    RemovedElements(s, k);
    forall n ensures n in r <==> n in s && n != s[k] {
      assert n in Elements(r) <==> n in Elements(s) - {s[k]};
    }
    SameMap(r, s, {s[k].key});
  }

  lemma SameMap<K, V>(r: seq<Node<K, V>>, s: seq<Node<K, V>>, gone: set<K>)
    requires UniqueKeys(r) && UniqueKeys(s)
    requires forall n :: n in r <==> n in s && n.key !in gone
    ensures AsMap(r) == AsMap(s) - gone
  {
    MapMembers(r);
    MapMembers(s);
    var a, b := AsMap(r), AsMap(s) - gone;
    forall k | k in a ensures k in b && b[k] == a[k] { assert a[k] in s; }
    forall k | k in b ensures k in a && b[k] == a[k] { assert b[k] in r; }
  }

  lemma MapOfSorted<K, V>(cmp: Cmp<Node<K, V>>, s: seq<Node<K, V>>)
    requires UniqueKeys(s)
    ensures AsMap(SortFrom(cmp, s, 1)) == AsMap(s)
  {
    var r := SortFrom(cmp, s, 1);
    SortedElements(cmp, s);
    forall n ensures n in r <==> n in s {
      assert n in Elements(r) <==> n in Elements(s);
    }
    SameMap(r, s, {});
  }

  /** The table and the head pointer through which the macros reach it. While
      head is null there is no table, and the other fields mean nothing. */
  class Table<K(==), V> {
    const hash: K -> nat
    var head: Node?<K, V>
    var buckets: array<Bucket<K, V>>
    var numBuckets: nat
    var log2NumBuckets: nat
    var numItems: nat
    var tail: Node?<K, V>
    var idealChainMaxlen: nat
    var nonidealItems: nat
    var ineffExpands: nat
    var noexpand: nat
    ghost var app: seq<Node<K, V>>
    ghost var chains: seq<seq<Node<K, V>>>

    /** The list in application order. */
    ghost predicate ValidApp()
      reads this`head, this`tail, this`app, app`next, app`prev
    {
      && Shaped(AppOrder, head, app)
      && (head != null ==> tail == app[|app| - 1])
    }

    /** The bucket array and its chains over the given elements. */
    ghost predicate ValidBuckets(nodes: set<Node<K, V>>)
      reads this`buckets, this`numBuckets, this`log2NumBuckets, this`chains, buckets, nodes`hhNext, nodes`hhPrev
    {
      && buckets.Length == numBuckets == Pow2(log2NumBuckets)
      && ChainsOK(hash, buckets[..], chains, nodes)
    }

    ghost predicate ValidItems()
      reads this`app, this`numItems, app`hashv
    {
      numItems == |app| && UniqueKeys(app) && forall n | n in app :: n.hashv == hash(n.key)
    }

    /** What HASH_FSCK checks, and that keys are unique and their hashes cached. */
    ghost predicate Valid()
      reads this, buckets, app
    {
      && ValidApp()
      && (head != null ==> ValidBuckets(Elements(app)) && ValidItems())
    }

    ghost function Accounts(): Books
      reads this`numBuckets, this`log2NumBuckets, this`idealChainMaxlen, this`nonidealItems, this`ineffExpands, this`noexpand
    {
      Books(numBuckets, log2NumBuckets, idealChainMaxlen, nonidealItems, ineffExpands, noexpand)
    }

    constructor (hash: K -> nat)
      ensures this.hash == hash && app == [] && Valid() && fresh(buckets)
    {
      this.hash := hash;
      head, tail := null, null;
      buckets := new Bucket<K, V>[0];
      numBuckets, log2NumBuckets, numItems := 0, 0, 0;
      idealChainMaxlen, nonidealItems, ineffExpands, noexpand := 0, 0, 0, 0;
      app, chains := [], [];
    }

    /** The assignments to the table that end HASH_EXPAND_BUCKETS. */
    method InstallBuckets(newBuckets: array<Bucket<K, V>>, ghost newChains: seq<seq<Node<K, V>>>, ideal: nat, nonideal: nat,
                          ghost nodes: set<Node<K, V>>)
      requires numBuckets == Pow2(log2NumBuckets) && newBuckets.Length == 2 * numBuckets
      requires ChainsOK(hash, newBuckets[..], newChains, nodes) && Accounted(newBuckets[..], newChains, ideal, nonideal)
      modifies this`buckets, this`numBuckets, this`log2NumBuckets, this`idealChainMaxlen, this`nonidealItems
      modifies this`ineffExpands, this`noexpand, this`chains
      ensures buckets == newBuckets && numBuckets == 2 * old(numBuckets) && log2NumBuckets == old(log2NumBuckets) + 1
      ensures ValidBuckets(nodes) && Accounted(buckets[..], chains, idealChainMaxlen, nonidealItems) && idealChainMaxlen == ideal
      ensures ineffExpands == if nonidealItems > numItems / 2 then old(ineffExpands) + 1 else 0
      ensures noexpand == if ineffExpands > 1 then 1 else old(noexpand)
    {
      ghost var bks := newBuckets[..];
      idealChainMaxlen, nonidealItems := ideal, nonideal;
      numBuckets := numBuckets * 2;
      log2NumBuckets := log2NumBuckets + 1;
      buckets, chains := newBuckets, newChains;
      ShrDiv(numItems, 1);
      ineffExpands := if nonidealItems > Shr(numItems, 1) then ineffExpands + 1 else 0;
      if ineffExpands > 1 {
        noexpand := 1;
      }
      assert buckets[..] == bks;
    }

    /** HASH_EXPAND_BUCKETS */
    method ExpandBuckets(ghost nodes: set<Node<K, V>>)
      requires ValidBuckets(nodes) && numItems > 0
      modifies this`buckets, this`numBuckets, this`log2NumBuckets, this`idealChainMaxlen, this`nonidealItems
      modifies this`ineffExpands, this`noexpand, this`chains, nodes`hhNext, nodes`hhPrev
      ensures ValidBuckets(nodes) && fresh(buckets)
      ensures Expanded(old(Accounts()), numItems, Accounts(), buckets[..], chains)
    {
      var newBuckets := new Bucket<K, V>[2 * numBuckets](_ => Bucket(null, 0, 0));
      var ideal := IdealLength(numItems, numBuckets, log2NumBuckets);
      IdealLengthIsCeil(numItems, numBuckets, log2NumBuckets);
      var nonideal;
      ghost var newChains;
      nonideal, newChains := Rehash(hash, buckets, newBuckets, ideal, chains, nodes);
      InstallBuckets(newBuckets, newChains, ideal, nonideal, nodes);
    }

    /** HASH_MAKE_TABLE, for the first element n. */
    method MakeTable(n: Node<K, V>)
      modifies this`tail, this`numBuckets, this`log2NumBuckets, this`numItems, this`buckets, this`chains
      modifies this`idealChainMaxlen, this`nonidealItems, this`ineffExpands, this`noexpand
      ensures tail == n && numItems == 0 && fresh(buckets)
      ensures ValidBuckets({}) && Accounts() == FIRST_BOOKS
      ensures forall b | 0 <= b < buckets.Length :: buckets[b] == Bucket(null, 0, 0)
    {
      idealChainMaxlen, nonidealItems, ineffExpands, noexpand := 0, 0, 0, 0;
      numItems := 0;
      tail := n;
      numBuckets := HASH_INITIAL_NUM_BUCKETS;
      log2NumBuckets := HASH_INITIAL_NUM_BUCKETS_LOG2;
      var empty := new Bucket<K, V>[HASH_INITIAL_NUM_BUCKETS](_ => Bucket(null, 0, 0));
      buckets, chains := empty, seq(HASH_INITIAL_NUM_BUCKETS, _ => []);
      InitialPow2();
      EmptyBuckets(hash, empty[..], chains);
    }

    /** HASH_APPEND_LIST */
    method AppendList(n: Node<K, V>)
      requires ValidApp() && head != null && n !in app
      modifies n`next, n`prev, tail`next, this`tail, this`app
      ensures ValidApp() && app == old(app) + [n]
    {
      ghost var last := |app| - 1;
      assert forall i | 0 <= i < last :: app[i] != tail;
      n.next := null;
      n.prev := tail;
      tail.next := n;
      tail := n;
      app := app + [n];
      assert forall i | 0 <= i <= last :: app[i] == old(app[i]);
    }

    /** HASH_ADD_TO_BKT */
    method AddToBkt(b: nat, n: Node<K, V>, ghost nodes: set<Node<K, V>>)
      requires ValidBuckets(nodes) && n !in nodes && numItems > 0 && b == Slot(hash, n.key, numBuckets)
      modifies this`buckets, this`numBuckets, this`log2NumBuckets, this`idealChainMaxlen, this`nonidealItems
      modifies this`ineffExpands, this`noexpand, this`chains, buckets, (nodes + {n})`hhNext, (nodes + {n})`hhPrev
      ensures ValidBuckets(nodes + {n})
      ensures buckets == old(buckets) || fresh(buckets)
      ensures if old(noexpand) != 1 && Filling(old(buckets[b]))
              then Expanded(old(Accounts()), numItems, Accounts(), buckets[..], chains)
              else Accounts() == old(Accounts())
    {
      PushToBkt(b, n, nodes);
      ExpandIfFull(b, nodes + {n});
    }

    /** The end of HASH_ADD_TO_BKT. */
    method ExpandIfFull(b: nat, ghost nodes: set<Node<K, V>>)
      requires ValidBuckets(nodes) && numItems > 0 && b < buckets.Length
      modifies this`buckets, this`numBuckets, this`log2NumBuckets, this`idealChainMaxlen, this`nonidealItems
      modifies this`ineffExpands, this`noexpand, this`chains, nodes`hhNext, nodes`hhPrev
      ensures ValidBuckets(nodes)
      ensures buckets == old(buckets) || fresh(buckets)
      ensures if old(noexpand) != 1 && old(buckets[b].count) >= (old(buckets[b].expandMult) + 1) * HASH_BKT_CAPACITY_THRESH
              then Expanded(old(Accounts()), numItems, Accounts(), buckets[..], chains)
              else Accounts() == old(Accounts())
    {
      if buckets[b].count >= (buckets[b].expandMult + 1) * HASH_BKT_CAPACITY_THRESH && noexpand != 1 {
        ExpandBuckets(nodes);
      }
    }

    /** HASH_ADD_TO_BKT up to the test for an expansion. */
    method PushToBkt(b: nat, n: Node<K, V>, ghost nodes: set<Node<K, V>>)
      requires ValidBuckets(nodes) && n !in nodes && b == Slot(hash, n.key, numBuckets)
      modifies this`chains, buckets, (nodes + {n})`hhNext, (nodes + {n})`hhPrev
      ensures ValidBuckets(nodes + {n})
      ensures buckets[b] == Bucket(n, old(buckets[b]).count + 1, old(buckets[b]).expandMult)
    {
      assert ChainOK(hash, buckets[b], chains[b], numBuckets, b, nodes);
      PushFront(hash, buckets, b, n, chains, nodes);
      chains := chains[b := [n] + chains[b]];
      assert buckets[b] == buckets[..][b];
    }

    /** The part of HASH_ADD_KEYPTR_BYHASHVALUE that concerns the list. */
    method AddToList(n: Node<K, V>)
      requires Valid() && n !in app
      modifies this`head, this`tail, this`app, this`chains, this`buckets, this`numBuckets, this`log2NumBuckets, this`numItems
      modifies this`idealChainMaxlen, this`nonidealItems, this`ineffExpands, this`noexpand
      modifies (Elements(app) + {n})`next, n`prev
      ensures head != null && ValidApp() && app == old(app) + [n] && numItems == |old(app)|
      ensures ValidBuckets(Elements(old(app)))
      ensures old(head) == null ==>
                fresh(buckets) && Accounts() == FIRST_BOOKS && forall b | 0 <= b < buckets.Length :: buckets[b] == Bucket(null, 0, 0)
      ensures old(head) != null ==> buckets == old(buckets) && Accounts() == old(Accounts())
    {
      if head == null {
        n.next := null;
        n.prev := null;
        head := n;
        MakeTable(n);
        app := [n];
      } else {
        AppendList(n);
      }
    }

    /** HASH_ADD_KEYPTR_BYHASHVALUE up to the increment of num_items. */
    method AddItem(n: Node<K, V>)
      requires Valid() && n !in app && forall m | m in app :: m.key != n.key
      modifies this`head, this`tail, this`app, this`chains, this`buckets, this`numBuckets, this`log2NumBuckets, this`numItems
      modifies this`idealChainMaxlen, this`nonidealItems, this`ineffExpands, this`noexpand
      modifies (Elements(app) + {n})`next, n`prev, n`hashv
      ensures head != null && ValidApp() && app == old(app) + [n] && ValidItems()
      ensures Elements(app) == Elements(old(app)) + {n}
      ensures ValidBuckets(Elements(old(app)))
      ensures old(head) == null ==>
                fresh(buckets) && Accounts() == FIRST_BOOKS && forall b | 0 <= b < buckets.Length :: buckets[b] == Bucket(null, 0, 0)
      ensures old(head) != null ==> buckets == old(buckets) && Accounts() == old(Accounts())
    {
      AddedElements(app, n);
      StampHash(n);
      AddToList(n);
      CountItem();
    }

    method StampHash(n: Node<K, V>)
      requires Valid() && n !in app
      modifies n`hashv
      ensures Valid() && n.hashv == hash(n.key)
      ensures forall m | m in app :: m.hashv == hash(m.key)
    {
      n.hashv := hash(n.key);
    }

    method CountItem()
      requires numItems + 1 == |app| && UniqueKeys(app) && forall m | m in app :: m.hashv == hash(m.key)
      modifies this`numItems
      ensures ValidItems()
    {
      numItems := numItems + 1;
    }

    /** HASH_ADD of an element with a fresh key. The first element makes a table of
        32 buckets; any other one expands the table if and only if it brings its
        bucket to the threshold and expansion has not been switched off. */
    method Add(n: Node<K, V>)
      requires Valid() && n !in app && forall m | m in app :: m.key != n.key
      modifies this`head, this`tail, this`app, this`chains, this`buckets, this`numBuckets, this`log2NumBuckets, this`numItems
      modifies this`idealChainMaxlen, this`nonidealItems, this`ineffExpands, this`noexpand, buckets, n`hashv
      modifies (Elements(app) + {n})`next, n`prev, (Elements(app) + {n})`hhNext, (Elements(app) + {n})`hhPrev
      ensures Valid() && app == old(app) + [n] && AsMap(app) == AsMap(old(app))[n.key := n]
      ensures buckets == old(buckets) || fresh(buckets)
      ensures old(head) == null ==> Accounts() == FIRST_BOOKS
      ensures old(head) != null ==>
                if old(noexpand) != 1 && Filling(old(buckets[hash(n.key) % numBuckets]))
                then Expanded(old(Accounts()), |app|, Accounts(), buckets[..], chains)
                else Accounts() == old(Accounts())
    {
      MapOfAdded(app, n);
      AddElement(n);
    }

    /** HASH_ADD_KEYPTR_BYHASHVALUE */
    method AddElement(n: Node<K, V>)
      requires Valid() && n !in app && forall m | m in app :: m.key != n.key
      modifies this`head, this`tail, this`app, this`chains, this`buckets, this`numBuckets, this`log2NumBuckets, this`numItems
      modifies this`idealChainMaxlen, this`nonidealItems, this`ineffExpands, this`noexpand, buckets, n`hashv
      modifies (Elements(app) + {n})`next, n`prev, (Elements(app) + {n})`hhNext, (Elements(app) + {n})`hhPrev
      ensures Valid() && app == old(app) + [n]
      ensures buckets == old(buckets) || fresh(buckets)
      ensures old(head) == null ==> Accounts() == FIRST_BOOKS
      ensures old(head) != null ==>
                if old(noexpand) != 1 && Filling(old(buckets[hash(n.key) % numBuckets]))
                then Expanded(old(Accounts()), |app|, Accounts(), buckets[..], chains)
                else Accounts() == old(Accounts())
    {
      ghost var nodes := Elements(app);
      AddItem(n);
      AddToTable(n, nodes);
    }

    /** The statements of HASH_ADD_KEYPTR_BYHASHVALUE behind the increment of num_items. */
    method AddToTable(n: Node<K, V>, ghost nodes: set<Node<K, V>>)
      requires ValidBuckets(nodes) && n !in nodes && n.hashv == hash(n.key)
      requires head != null && ValidApp() && ValidItems() && Elements(app) == nodes + {n}
      modifies this`buckets, this`numBuckets, this`log2NumBuckets, this`idealChainMaxlen, this`nonidealItems
      modifies this`ineffExpands, this`noexpand, this`chains, buckets, (nodes + {n})`hhNext, (nodes + {n})`hhPrev
      ensures Valid()
      ensures buckets == old(buckets) || fresh(buckets)
      ensures if old(noexpand) != 1 && Filling(old(buckets[hash(n.key) % numBuckets]))
              then Expanded(old(Accounts()), numItems, Accounts(), buckets[..], chains)
              else Accounts() == old(Accounts())
    {
      HashToBkt(n, nodes);
      assert ValidApp();
      assert ValidItems() && ValidBuckets(Elements(app));
    }

    /** HASH_TO_BKT, then HASH_ADD_TO_BKT. */
    method HashToBkt(n: Node<K, V>, ghost nodes: set<Node<K, V>>)
      requires ValidBuckets(nodes) && n !in nodes && numItems > 0 && n.hashv == hash(n.key)
      modifies this`buckets, this`numBuckets, this`log2NumBuckets, this`idealChainMaxlen, this`nonidealItems
      modifies this`ineffExpands, this`noexpand, this`chains, buckets, (nodes + {n})`hhNext, (nodes + {n})`hhPrev
      ensures ValidBuckets(nodes + {n})
      ensures buckets == old(buckets) || fresh(buckets)
      ensures if old(noexpand) != 1 && Filling(old(buckets[hash(n.key) % numBuckets]))
              then Expanded(old(Accounts()), numItems, Accounts(), buckets[..], chains)
              else Accounts() == old(Accounts())
    {
      var b := And(n.hashv, numBuckets - 1);
      SlotIsRemainder(hash, n.key, log2NumBuckets);
      AddToBkt(b, n, nodes);
    }

    /** HASH_FIND: the element with that key, or null when there is none. */
    method Find(key: K) returns (out: Node?<K, V>)
      requires Valid()
      ensures out == null ==> forall n | n in app :: n.key != key
      ensures out != null ==> out in app && out.key == key
      ensures out == if key in AsMap(app) then AsMap(app)[key] else null
    {
      MapMembers(app);
      out := null;
      if head != null {
        var hashval := hash(key);
        var b := And(hashval, numBuckets - 1);
        assert ChainOK(hash, buckets[b], chains[b], numBuckets, b, Elements(app));
        out := FindInBkt(buckets[b].hhHead, key, hashval, chains[b]);
        assert forall n | n in app && n.key == key :: n in chains[b];
      }
    }

    /** The bucket part of HASH_DELETE. */
    method DeleteFromTable(n: Node<K, V>, ghost nodes: set<Node<K, V>>)
      requires ValidBuckets(nodes) && n in nodes && n.hashv == hash(n.key)
      modifies this`chains, buckets, nodes`hhNext, nodes`hhPrev
      ensures ValidBuckets(nodes - {n})
      ensures unchanged(this`head, this`tail, this`app, this`numItems, this`numBuckets, this`noexpand)
    {
      var b := And(n.hashv, numBuckets - 1);
      ghost var j :| 0 <= j < |chains[b]| && chains[b][j] == n;
      ghost var bks := buckets[..];
      NeighboursInChain(hash, bks, chains, nodes, b, j);
      assert ChainOK(hash, bks[b], chains[b], numBuckets, b, nodes);
      assert j > 0 ==> chains[b][j - 1] in chains[b];
      assert j + 1 < |chains[b]| ==> chains[b][j + 1] in chains[b];
      DelFromBuckets(hash, buckets, b, n, j, chains, nodes);
      chains := chains[b := RemoveAt(chains[b], j)];
    }

    /** The list part of HASH_DELETE, and the decrement of num_items. */
    method DeleteFromApp(n: Node<K, V>, ghost k: nat)
      requires ValidApp() && ValidItems() && k < |app| && app[k] == n && |app| > 1
      modifies this`head, this`tail, this`app, this`numItems
      modifies (if n.prev == null then {} else {n.prev})`next
      modifies (if n.next == null then {} else {n.next})`prev
      ensures head != null && ValidApp() && ValidItems() && app == RemoveAt(old(app), k)
      ensures Elements(app) == Elements(old(app)) - {n}
      ensures unchanged(this`buckets, this`chains, this`numBuckets, this`log2NumBuckets, this`noexpand)
    {
      RemovedElements(app, k);
      UnlinkApp(n, k);
      numItems := numItems - 1;
    }

    /** The list statements of HASH_DELETE. */
    method UnlinkApp(n: Node<K, V>, ghost k: nat)
      requires ValidApp() && k < |app| && app[k] == n && |app| > 1
      modifies this`head, this`tail, this`app
      modifies (if n.prev == null then {} else {n.prev})`next
      modifies (if n.next == null then {} else {n.next})`prev
      ensures head != null && ValidApp() && app == RemoveAt(old(app), k)
    {
      ghost var s := app;
      app := RemoveAt(app, k);
      var head', tail' := DeleteFromList(head, tail, n, s, k);
      head, tail := head', tail';
    }

    /** HASH_DELETE. */
    method Delete(n: Node<K, V>) returns (ghost k: nat)
      requires Valid() && n in app
      modifies this`head, this`tail, this`app, this`chains, this`numItems, buckets
      modifies Elements(app)`next, Elements(app)`prev, Elements(app)`hhNext, Elements(app)`hhPrev
      ensures Valid() && k < |old(app)| && old(app)[k] == n && app == RemoveAt(old(app), k)
      ensures AsMap(app) == AsMap(old(app)) - {n.key}
    {
      k :| 0 <= k < |app| && app[k] == n;
      MapOfRemoved(app, k);
      HasNeighbours(head, app, k);
      if n.prev == null && n.next == null {
        head := null;
        app := RemoveAt(app, k);
      } else {
        DeleteOfMany(n, k);
      }
    }

    /** HASH_DELETE of an element that is not the only one. */
    method DeleteOfMany(n: Node<K, V>, ghost k: nat)
      requires Valid() && k < |app| && app[k] == n && |app| > 1
      modifies this`head, this`tail, this`app, this`chains, this`numItems, buckets
      modifies Elements(app)`next, Elements(app)`prev, Elements(app)`hhNext, Elements(app)`hhPrev
      ensures Valid() && app == RemoveAt(old(app), k)
    {
      HasNeighbours(head, app, k);
      ghost var nodes := Elements(app);
      DeleteFromApp(n, k);
      DeleteFromTable(n, nodes);
      assert ValidApp() && ValidItems();
    }

    /** The list part of HASH_SRT. */
    method SortApp(cmp: Cmp<Node<K, V>>)
      requires ValidApp() && ValidItems() && head != null
      modifies this`head, this`tail, this`app, Elements(app)`next, Elements(app)`prev
      ensures head != null && ValidApp() && ValidItems() && app == SortFrom(cmp, old(app), 1)
      ensures Elements(app) == Elements(old(app))
      ensures unchanged(this`buckets, this`chains, this`numBuckets, this`log2NumBuckets)
    {
      SortedElements(cmp, app);
      Relink(cmp);
    }

    method Relink(cmp: Cmp<Node<K, V>>)
      requires ValidApp() && head != null
      modifies this`head, this`tail, this`app, Elements(app)`next, Elements(app)`prev
      ensures head != null && ValidApp() && app == SortFrom(cmp, old(app), 1)
    {
      ghost var s, passes := app, 0;
      var list, last;
      list, last, passes := ListSort.Sort(AppOrder, cmp, head, s);
      head, tail := list, last;
      app := SortFrom(cmp, s, 1);
    }

    /** HASH_SRT. The bucket chains are not within its frame. */
    method Sort(cmp: Cmp<Node<K, V>>)
      requires Valid()
      modifies this`head, this`tail, this`app, Elements(app)`next, Elements(app)`prev
      ensures Valid() && app == SortFrom(cmp, old(app), 1)
      ensures AsMap(app) == AsMap(old(app)) && Elements(app) == Elements(old(app))
    {
      MapOfSorted(cmp, app);
      if head != null {
        SortApp(cmp);
      }
    }

    /** HASH_DEL of the head. */
    method DeleteHead(n: Node<K, V>)
      requires Valid() && n == head
      modifies this`head, this`tail, this`app, this`chains, this`numItems, buckets
      modifies Elements(app)`next, Elements(app)`prev, Elements(app)`hhNext, Elements(app)`hhPrev
      ensures Valid() && old(app) == [n] + app
      ensures Elements(app) <= Elements(old(app))
      ensures unchanged(this`buckets)
    {
      ghost var s := app;
      assert s[0] == n;
      ghost var k := Delete(n);
      assert k == 0;
      assert s == [n] + app;
    }

    /** One round of the iteration: el is deleted, tmp is next. */
    method DeleteStep(el: Node<K, V>, tmp: Node?<K, V>) returns (tmp': Node?<K, V>)
      requires Valid() && el == head && tmp == if |app| > 1 then app[1] else null
      modifies this`head, this`tail, this`app, this`chains, this`numItems, buckets
      modifies Elements(app)`next, Elements(app)`prev, Elements(app)`hhNext, Elements(app)`hhPrev
      ensures Valid() && old(app) == [el] + app && head == tmp
      ensures tmp' == if |app| > 1 then app[1] else null
      ensures Elements(app) <= Elements(old(app))
      ensures unchanged(this`buckets)
    {
      DeleteHead(el);
      tmp' := SecondOf(tmp);
    }

    /** HASH_ITER with a HASH_DEL in its body, as at the end of print_stats:
        every element is visited once, in order, and the table ends up empty. */
    method DeleteAll() returns (visited: seq<Node<K, V>>)
      requires Valid()
      modifies this`head, this`tail, this`app, this`chains, this`numItems, buckets
      modifies Elements(app)`next, Elements(app)`prev, Elements(app)`hhNext, Elements(app)`hhPrev
      ensures Valid() && head == null && app == [] && visited == old(app)
    {
      visited := [];
      var el := head;
      var tmp := SecondOf(el);
      ghost var all := app;
      while el != null
        invariant Valid() && el == head && tmp == if |app| > 1 then app[1] else null
        invariant |visited| + |app| == |all| && visited == all[..|visited|] && app == all[|visited|..]
        invariant Elements(app) <= Elements(all) && buckets == old(buckets)
        decreases |app|
      {
        var n: Node<K, V> := el;
        ghost var before := app;
        var next := DeleteStep(n, tmp);
        IterStep(all, visited, n, before, app);
        visited := visited + [n];
        el := tmp;
        tmp := next;
      }
    }

    /** The head of what is left of all moves to what has been visited. */
    static lemma IterStep<T>(all: seq<T>, visited: seq<T>, n: T, before: seq<T>, after: seq<T>)
      requires |visited| + |before| == |all| && visited == all[..|visited|] && before == all[|visited|..]
      requires before == [n] + after
      ensures visited + [n] == all[..|visited| + 1] && after == all[|visited| + 1..]
    {
    }

    /** The step of HASH_ITER. */
    method SecondOf(tmp: Node?<K, V>) returns (next: Node?<K, V>)
      requires Valid() && tmp == head
      ensures next == if |app| > 1 then app[1] else null
    {
      next := null;
      if tmp != null {
        NeighboursInList(head, app, 0);
        next := tmp.next;
      }
    }

    /** HASH_FSCK: none of its checks fails. */
    method Fsck() returns (ok: bool)
      requires Valid()
      ensures ok
    {
      ok := true;
      if head != null {
        var count;
        ok, count := FsckBuckets(Elements(app));
        DistinctSize(app);
        if count != numItems { ok := false; }
        var fine := FsckList();
        ok := ok && fine;
      }
    }

    /** The checks of HASH_FSCK on the buckets, and the number of elements in them. */
    method FsckBuckets(ghost nodes: set<Node<K, V>>) returns (ok: bool, count: nat)
      requires ValidBuckets(nodes)
      ensures ok && count == |nodes|
    {
      ok, count := true, 0;
      for i := 0 to numBuckets
        invariant ok && count == |Before(hash, nodes, numBuckets, i)|
      {
        var fine, bktCount := FsckBucket(buckets[i], chains[i], numBuckets, i);
        ok := ok && fine;
        count := count + bktCount;
        NextBucketSize(hash, buckets[..], chains, nodes, i);
      }
      assert Before(hash, nodes, numBuckets, numBuckets) == nodes;
    }

    /** The checks of HASH_FSCK on the application order. */
    method FsckList() returns (ok: bool)
      requires ValidApp() && ValidItems()
      ensures ok
    {
      ok := true;
      var count := 0;
      var prev, thh := null, head;
      while thh != null
        invariant ok && count <= |app| && thh == (if count < |app| then app[count] else null)
        invariant prev == if count > 0 then app[count - 1] else null
        decreases |app| - count
      {
        NeighboursInList(head, app, count);
        if prev != thh.prev { ok := false; }
        count := count + 1;
        prev := thh;
        thh := thh.next;
      }
      if count != numItems { ok := false; }
    }

    /** The checks of HASH_FSCK on one bucket. */
    method FsckBucket(bk: Bucket<K, V>, ghost c: seq<Node<K, V>>, ghost numBuckets: nat, ghost b: int) returns (ok: bool, bktCount: nat)
      requires numBuckets > 0 && ChainOK(hash, bk, c, numBuckets, b, Elements(c))
      ensures ok && bktCount == |c|
    {
      ok, bktCount := true, 0;
      var prev, thh := null, bk.hhHead;
      while thh != null
        invariant ok && bktCount <= |c| && thh == (if bktCount < |c| then c[bktCount] else null)
        invariant prev == if bktCount > 0 then c[bktCount - 1] else null
        decreases |c| - bktCount
      {
        assert bktCount > 0 ==> c[bktCount - 1 + 1].hhPrev == c[bktCount - 1];
        assert bktCount + 1 < |c| ==> c[bktCount].hhNext == c[bktCount + 1];
        if prev != thh.hhPrev { ok := false; }
        bktCount := bktCount + 1;
        prev := thh;
        thh := thh.hhNext;
      }
      if bk.count != bktCount { ok := false; }
    }
  }

  lemma {:induction false} DistinctSize<T>(s: seq<T>)
    requires Distinct(s)
    ensures |Elements(s)| == |s|
  {
    if s != [] {
      assert s == [s[0]] + s[1..] && s[0] !in s[1..];
      DistinctSize(s[1..]);
      assert Elements(s) == {s[0]} + Elements(s[1..]);
    }
  }

  lemma NextBucketSize<K, V>(hash: K -> nat, bks: seq<Bucket<K, V>>, chains: seq<seq<Node<K, V>>>, nodes: set<Node<K, V>>, i: nat)
    requires ChainsOK(hash, bks, chains, nodes) && i < |bks|
    ensures |Before(hash, nodes, |bks|, i)| + |chains[i]| == |Before(hash, nodes, |bks|, i + 1)|
  {
    ChainsDistributed(hash, bks, chains, nodes);
    BeforeNext(hash, chains, nodes, i);
    DistinctSize(chains[i]);
  }

  lemma SortedElements<K, V>(cmp: Cmp<Node<K, V>>, s: seq<Node<K, V>>)
    requires UniqueKeys(s)
    ensures UniqueKeys(SortFrom(cmp, s, 1)) && Elements(SortFrom(cmp, s, 1)) == Elements(s)
    ensures forall n | n in SortFrom(cmp, s, 1) :: n in s
  {
    SortPermutes(cmp, s, 1);
    PermutedKeys(s, SortFrom(cmp, s, 1));
  }

  /** A permutation keeps the elements and the uniqueness of their keys. */
  lemma PermutedKeys<K, V>(s: seq<Node<K, V>>, r: seq<Node<K, V>>)
    requires UniqueKeys(s) && multiset(r) == multiset(s)
    ensures UniqueKeys(r) && Elements(r) == Elements(s)
    ensures forall n | n in r :: n in s
  {
    assert forall n | n in r :: n in multiset(s);
    assert forall n | n in s :: n in multiset(r);
    forall i, j | 0 <= i < j < |r| ensures r[i].key != r[j].key {
      assert r[i] in r && r[j] in r;
      assert r[i] in s && r[j] in s;
      assert r == r[..j] + [r[j]] + r[j + 1..] && r[i] in r[..j];
      UniqueOnce(s, r[i]);
    }
  }

  lemma {:induction false} UniqueOnce<K, V>(s: seq<Node<K, V>>, n: Node<K, V>)
    requires UniqueKeys(s)
    ensures multiset(s)[n] <= 1
  {
    if s != [] {
      var t := s[1..];
      assert s == [s[0]] + t;
      UniqueOnce(t, n);
      assert s[0] == n ==> forall i | 0 <= i < |t| :: t[i] == s[i + 1] && t[i] != n;
    }
  }

  lemma HasNeighbours<K, V>(head: Node?<K, V>, s: seq<Node<K, V>>, k: nat)
    requires Shaped(AppOrder, head, s) && k < |s|
    ensures s[k].prev == null && s[k].next == null <==> |s| == 1
    ensures s[k].prev != null ==> s[k].prev in Elements(s)
    ensures s[k].next != null ==> s[k].next in Elements(s)
  {
    NeighboursInList(head, s, k);
  }

  lemma NeighboursInList<K, V>(head: Node?<K, V>, s: seq<Node<K, V>>, k: nat)
    requires Shaped(AppOrder, head, s) && k < |s|
    ensures s[k].prev == if k > 0 then s[k - 1] else null
    ensures s[k].next == if k + 1 < |s| then s[k + 1] else null
  {
  }

  /** The list part of HASH_DELETE, when n is not the only element. */
  method DeleteFromList<K, V>(head: Node<K, V>, tail: Node?<K, V>, n: Node<K, V>, ghost s: seq<Node<K, V>>, ghost k: nat)
    returns (head': Node?<K, V>, tail': Node?<K, V>)
    requires Shaped(AppOrder, head, s) && k < |s| && s[k] == n && |s| > 1 && tail == s[|s| - 1]
    modifies (if n.prev == null then {} else {n.prev})`next
    modifies (if n.next == null then {} else {n.next})`prev
    ensures Shaped(AppOrder, head', RemoveAt(s, k)) && tail' == RemoveAt(s, k)[|s| - 2]
  {
    head', tail' := head, tail;
    NeighboursInList(head, s, k);
    ghost var next := seq(|s|, i requires 0 <= i < |s| reads s => s[i].next);
    ghost var prev := seq(|s|, i requires 0 <= i < |s| reads s => s[i].prev);
    if n == tail {
      tail' := n.prev;
    }
    if n.prev != null {
      n.prev.next := n.next;
    } else {
      head' := n.next;
    }
    if n.next != null {
      n.next.prev := n.prev;
    }
    Bypassed(AppOrder, s, k, next, prev);
  }

  lemma RemovedElements<K, V>(s: seq<Node<K, V>>, k: nat)
    requires UniqueKeys(s) && k < |s|
    ensures UniqueKeys(RemoveAt(s, k)) && Elements(RemoveAt(s, k)) == Elements(s) - {s[k]}
  {
    assert forall i, j | 0 <= i < j < |s| :: s[i] != s[j];
    forall n ensures n in Elements(RemoveAt(s, k)) <==> n in Elements(s) - {s[k]} {
      RemovedMembers(s, k, n);
    }
  }

  lemma AddedElements<K, V>(s: seq<Node<K, V>>, n: Node<K, V>)
    requires UniqueKeys(s) && forall m | m in s :: m.key != n.key
    ensures UniqueKeys(s + [n]) && Elements(s + [n]) == Elements(s) + {n}
  {
    assert forall i | 0 <= i < |s| :: s[i] in s;
  }
}
