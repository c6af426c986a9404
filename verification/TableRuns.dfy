/** Whole runs of a hash table: any sequence of additions of fresh keys,
    deletions and sorts. */
module TableRuns {
  import opened Links
  import opened MergeSpec
  import opened Chains
  import opened HashTable

  datatype Op<!K(==), !V> = AddOp(n: Node<K, V>) | DelOp(n: Node<K, V>) | SortOp(cmp: Cmp<Node<K, V>>)

  ghost function Without<T>(s: seq<T>, x: T): seq<T> {
    if s == [] then [] else if s[0] == x then Without(s[1..], x) else [s[0]] + Without(s[1..], x)
  }

  /** The elements in application order after an operation: new ones come last. */
  ghost function OrderNext<K, V>(s: seq<Node<K, V>>, op: Op<K, V>): seq<Node<K, V>> {
    match op
    case AddOp(n) => s + [n]
    case DelOp(n) => Without(s, n)
    case SortOp(cmp) => SortFrom(cmp, s, 1)
  }

  ghost function MapNext<K, V>(m: map<K, Node<K, V>>, op: Op<K, V>): map<K, Node<K, V>> {
    match op
    case AddOp(n) => m[n.key := n]
    case DelOp(n) => m - {n.key}
    case SortOp(_) => m
  }

  ghost function OrderAfter<K, V>(s: seq<Node<K, V>>, ops: seq<Op<K, V>>): seq<Node<K, V>>
    decreases |ops|
  {
    if ops == [] then s else OrderAfter(OrderNext(s, ops[0]), ops[1..])
  }

  ghost function MapAfter<K, V>(m: map<K, Node<K, V>>, ops: seq<Op<K, V>>): map<K, Node<K, V>>
    decreases |ops|
  {
    if ops == [] then m else MapAfter(MapNext(m, ops[0]), ops[1..])
  }

  /** What the macros ask: an added key is not in the table, a deleted element is. */
  ghost predicate Allowed<K, V>(m: map<K, Node<K, V>>, op: Op<K, V>) {
    match op
    case AddOp(n) => n.key !in m
    case DelOp(n) => n.key in m && m[n.key] == n
    case SortOp(_) => true
  }

  ghost predicate AllAllowed<K, V>(m: map<K, Node<K, V>>, ops: seq<Op<K, V>>)
    decreases |ops|
  {
    ops == [] || (Allowed(m, ops[0]) && AllAllowed(MapNext(m, ops[0]), ops[1..]))
  }

  ghost function NodesOf<K, V>(ops: seq<Op<K, V>>): set<Node<K, V>> {
    set op | op in ops && !op.SortOp? :: op.n
  }

  lemma {:induction false} WithoutAbsent<T>(s: seq<T>, x: T)
    requires x !in s
    ensures Without(s, x) == s
  {
    if s != [] { WithoutAbsent(s[1..], x); }
  }

  lemma {:induction false} WithoutOne<T>(s: seq<T>, k: nat)
    requires k < |s| && Distinct(s)
    ensures Without(s, s[k]) == RemoveAt(s, k)
  {
    if k == 0 {
      assert s[0] !in s[1..];
      WithoutAbsent(s[1..], s[0]);
      assert RemoveAt(s, 0) == s[1..];
    } else {
      WithoutOne(s[1..], k - 1);
      assert RemoveAt(s, k) == [s[0]] + RemoveAt(s[1..], k - 1);
    }
  }

  method Remove<K(==), V>(t: Table<K, V>, n: Node<K, V>, ghost nodes: set<Node<K, V>>)
    requires t.Valid() && n in t.app && Elements(t.app) <= nodes
    modifies t, t.buckets, nodes
    ensures t.Valid() && t.app == Without(old(t.app), n) && AsMap(t.app) == AsMap(old(t.app)) - {n.key}
    ensures Elements(t.app) <= nodes && t.buckets == old(t.buckets)
  {
    ghost var s := t.app;
    ghost var k := t.Delete(n);
    WithoutOne(s, k);
  }

  /** One operation on a table. */
  method Apply<K(==), V>(t: Table<K, V>, op: Op<K, V>, ghost nodes: set<Node<K, V>>)
    requires t.Valid() && Allowed(AsMap(t.app), op)
    requires Elements(t.app) <= nodes && (!op.SortOp? ==> op.n in nodes)
    modifies t, t.buckets, nodes
    ensures t.Valid() && t.app == OrderNext(old(t.app), op) && AsMap(t.app) == MapNext(AsMap(old(t.app)), op)
    ensures Elements(t.app) <= nodes
    ensures t.buckets == old(t.buckets) || fresh(t.buckets)
  {
    MapMembers(t.app);
    match op
    case AddOp(n) => t.Add(n);
    case DelOp(n) => Remove(t, n, nodes);
    case SortOp(cmp) =>
      SortedElements(cmp, t.app);
      t.Sort(cmp);
  }

  /** From an empty table, any run of allowed operations keeps what HASH_FSCK
      checks; the table then holds the mapping the run spells, in the order of
      insertion or of the last sort and insertions since. */
  method Replay<K(==), V>(t: Table<K, V>, ops: seq<Op<K, V>>)
    requires t.Valid() && t.app == [] && AllAllowed(map[], ops)
    modifies t, t.buckets, NodesOf(ops)
    ensures t.Valid() && t.app == OrderAfter([], ops) && AsMap(t.app) == MapAfter(map[], ops)
  {
    ghost var nodes := NodesOf(ops);
    assert ops[0..] == ops;
    for i := 0 to |ops|
      invariant t.Valid() && Elements(t.app) <= nodes && (t.buckets == old(t.buckets) || fresh(t.buckets))
      invariant AllAllowed(AsMap(t.app), ops[i..])
      invariant OrderAfter(t.app, ops[i..]) == OrderAfter([], ops)
      invariant MapAfter(AsMap(t.app), ops[i..]) == MapAfter(map[], ops)
    {
      assert ops[i..][0] == ops[i] && ops[i..][1..] == ops[i + 1..];
      assert !ops[i].SortOp? ==> ops[i].n in nodes;
      Apply(t, ops[i], nodes);
    }
  }
}
