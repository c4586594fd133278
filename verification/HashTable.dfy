/** The chained hash table on the heap, as lookup, install/ht_set and undef change it in
    96. bitcask/db.c and 8. redis server/redis_clone/src/db.c. */
module HashTable {
  import opened Framing
  import opened Chains

  class Node<V> {
    const key: string
    var value: V
    var next: Node?<V>

    constructor (key: string, value: V, next: Node?<V>)
      ensures this.key == key && this.value == value && this.next == next
    {
      this.key := key;
      this.value := value;
      this.next := next;
    }
  }

  /** From `head` the nodes c follow one another to the end, and hold the entries e. */
  ghost predicate IsList<V>(head: Node?<V>, c: seq<Node<V>>, e: Chain<V>)
    reads c
  {
    && |e| == |c|
    && head == First(c, 0)
    && (forall j {:trigger c[j].next} :: 0 <= j < |c| ==> c[j].next == First(c, j + 1))
    && (forall j :: 0 <= j < |c| ==> e[j] == Entry(c[j].key, c[j].value))
  }

  /** Node j of a list, or null past its end. */
  ghost function First<V>(c: seq<Node<V>>, j: nat): Node?<V> {
    if j < |c| then c[j] else null
  }

  class Table<V> {
    const heads: array<Node?<V>>
    ghost var chains: seq<seq<Node<V>>>  // the nodes of each bucket, in order
    ghost var view: Buckets<V>           // their keys and values
    ghost var repr: set<Node<V>>

    /** Every bucket is a list that ends; keys are in the bucket of their hash and no list
        repeats one, so no node is on two lists or twice on one. */
    ghost predicate Valid()
      reads this, heads, repr
    {
      && heads.Length == |chains| == |view| > 0
      && (forall i, j :: 0 <= i < |chains| && 0 <= j < |chains[i]| ==> chains[i][j] in repr)
      && (forall i :: 0 <= i < |chains| ==> IsList(heads[i], chains[i], view[i]))
      && WellFormed(view)
    }

    lemma NodesDistinct(i: nat, j: nat, k: nat, l: nat)
      requires Valid()
      requires i < |chains| && j < |chains[i]| && k < |chains| && l < |chains[k]|
      ensures chains[i][j] == chains[k][l] <==> i == k && j == l
    {
      assert IsList(heads[i], chains[i], view[i]) && IsList(heads[k], chains[k], view[k]);
      if chains[i][j] == chains[k][l] {
        assert Bucket(view[i][j].key, |view|) == i && Bucket(view[k][l].key, |view|) == k;
        assert DistinctKeys(view[i]);
      }
    }

    constructor (size: nat)
      requires size > 0
      ensures Valid() && fresh(heads) && fresh(repr)
      ensures heads.Length == size && view == seq(size, _ => [])
    {
      heads := new Node?<V>[size](_ => null);
      chains := seq(size, _ => []);
      view := seq(size, _ => []);
      repr := {};
    }

    /** lookup: the entry of the key, or null. */
    method Lookup(key: string) returns (p: Node?<V>, ghost j: nat)
      requires Valid()
      ensures Get(view, key) == (if p == null then None else Some(p.value))
      ensures var b := Bucket(key, heads.Length);
        j == Position(view[b], key) && p == First(chains[b], j)
    {
      var b := ComputeBucket(key, heads.Length);
      ghost var c, e := chains[b], view[b];
      assert IsList(heads[b], c, e);
      p := heads[b];
      j := 0;
      while p != null && key != p.key
        invariant j <= |c| && p == First(c, j)
        invariant forall l :: 0 <= l < j ==> e[l].key != key
        decreases |c| - j
      {
        assert e[j] == Entry(c[j].key, c[j].value);
        p := p.next;
        j := j + 1;
      }
      assert j < |c| ==> e[j] == Entry(c[j].key, c[j].value);
      PositionIs(e, key, j);
      FindAt(e, key, j);
    }

    /** The branch of install for a stored key: the node keeps its place. */
    method Overwrite(p: Node<V>, value: V, ghost b: nat, ghost j: nat)
      requires Valid() && b < |chains| && j < |chains[b]| == |view[b]| && p == chains[b][j]
      requires WellFormed(view[b := view[b][j := Entry(p.key, value)]])
      modifies this, p
      ensures Valid() && repr == old(repr)
      ensures view == old(view)[b := old(view)[b][j := Entry(p.key, value)]]
    {
      forall i, l | 0 <= i < |chains| && 0 <= l < |chains[i]|
        ensures chains[i][l] == p <==> i == b && l == j
      {
        NodesDistinct(i, l, b, j);
      }
      p.value := value;
      view := view[b := view[b][j := Entry(p.key, value)]];
      forall i | 0 <= i < |chains| ensures IsList(heads[i], chains[i], view[i]) {
        assert old(IsList(heads[i], chains[i], view[i]));
      }
    }

    /** The branch of install for a new key: a node at the front of its chain. */
    method Prepend(key: string, value: V)
      requires Valid()
      requires var b := Bucket(key, heads.Length); WellFormed(view[b := [Entry(key, value)] + view[b]])
      modifies this, heads
      ensures Valid() && fresh(repr - old(repr))
      ensures var b := Bucket(key, heads.Length); view == old(view)[b := [Entry(key, value)] + old(view)[b]]
    {
      var b := ComputeBucket(key, heads.Length);
      var p := new Node(key, value, heads[b]);
      heads[b] := p;
      repr := repr + {p};
      chains := chains[b := [p] + chains[b]];
      view := view[b := [Entry(key, value)] + view[b]];
      forall i | 0 <= i < |chains| ensures IsList(heads[i], chains[i], view[i]) {
        assert old(IsList(heads[i], chains[i], view[i]));
      }
    }

    /** install, ht_set: sets the key, at the front of its chain when it is new. */
    method Install(key: string, value: V)
      requires Valid()
      modifies this, heads, repr
      ensures Valid() && fresh(repr - old(repr))
      ensures view == Set(old(view), key, value)
    {
      var p, j := Lookup(key);
      ghost var b := Bucket(key, heads.Length);
      SetIsUpdate(view, key, value);
      FindAt(view[b], key, j);
      assert IsList(heads[b], chains[b], view[b]);
      if p == null {
        Prepend(key, value);
      } else {
        Overwrite(p, value, b, j);
      }
    }

    /** The first node of a bucket loses its place: the bucket skips it. */
    method UnlinkFirst(cur: Node<V>, ghost b: nat)
      requires Valid() && b < |chains| && 0 < |chains[b]| == |view[b]| && cur == chains[b][0]
      requires WellFormed(view[b := view[b][1..]])
      modifies this, heads
      ensures Valid() && repr == old(repr)
      ensures view == old(view)[b := old(view)[b][1..]]
    {
      assert IsList(heads[b], chains[b], view[b]);
      assert Bucket(view[b][0].key, |view|) == b;
      var hashed := ComputeBucket(cur.key, heads.Length);
      heads[hashed] := cur.next;
      chains := chains[b := chains[b][1..]];
      view := view[b := view[b][1..]];
      forall i | 0 <= i < |chains| ensures IsList(heads[i], chains[i], view[i]) {
        assert old(IsList(heads[i], chains[i], view[i]));
      }
    }

    /** A later node loses its place: its predecessor skips it. */
    method UnlinkAfter(prev: Node<V>, cur: Node<V>, ghost b: nat, ghost j: nat)
      requires Valid() && b < |chains| && 0 < j < |chains[b]| == |view[b]|
      requires prev == chains[b][j - 1] && cur == chains[b][j]
      requires WellFormed(view[b := view[b][..j] + view[b][j + 1..]])
      modifies this, prev
      ensures Valid() && repr == old(repr)
      ensures view == old(view)[b := old(view)[b][..j] + old(view)[b][j + 1..]]
    {
      forall i, l | 0 <= i < |chains| && 0 <= l < |chains[i]|
        ensures chains[i][l] == prev <==> i == b && l == j - 1
      {
        NodesDistinct(i, l, b, j - 1);
      }
      forall i | 0 <= i < |chains| && i != b ensures prev !in chains[i] {}
      SkipNode(prev, cur, heads[b], chains[b], view[b], j);
      chains := chains[b := chains[b][..j] + chains[b][j + 1..]];
      view := view[b := view[b][..j] + view[b][j + 1..]];
      forall i | 0 <= i < |chains| && i != b ensures IsList(heads[i], chains[i], view[i]) {
        assert old(IsList(heads[i], chains[i], view[i]));
      }
    }

    /** Where undef finds the key, and the node before it. */
    method FindWithPrevious(key: string) returns (prev: Node?<V>, cur: Node?<V>, ghost j: nat)
      requires Valid()
      ensures cur != null <==> Get(view, key).Some?
      ensures cur != null ==> cur.key == key
      ensures var b := Bucket(key, heads.Length);
        && j == Position(view[b], key) && j <= |chains[b]| == |view[b]|
        && cur == First(chains[b], j)
        && prev == if j == 0 then null else chains[b][j - 1]
    {
      var b := ComputeBucket(key, heads.Length);
      ghost var c, e := chains[b], view[b];
      assert IsList(heads[b], c, e);
      prev, cur, j := null, heads[b], 0;
      while cur != null && cur.key != key
        invariant j <= |c| && cur == First(c, j)
        invariant prev == if j == 0 then null else c[j - 1]
        invariant forall l :: 0 <= l < j ==> e[l].key != key
        decreases |c| - j
      {
        assert e[j] == Entry(c[j].key, c[j].value);
        prev := cur;
        cur := cur.next;
        j := j + 1;
      }
      assert j < |c| ==> e[j] == Entry(c[j].key, c[j].value);
      PositionIs(e, key, j);
      FindAt(e, key, j);
    }

    /** undef: removes the key wherever it is in its chain; tells whether it was there. */
    method Undef(key: string) returns (removed: bool)
      requires Valid()
      modifies this, heads, repr
      ensures Valid() && repr == old(repr)
      ensures removed <==> Get(old(view), key).Some?
      ensures view == Remove(old(view), key)
    {
      var prev, cur, j := FindWithPrevious(key);
      ghost var b := Bucket(key, heads.Length);
      FindAt(view[b], key, j);
      RemoveIsMinus(view, key);
      if cur == null {
        return false;
      }
      if prev == null {
        assert view[b][..0] + view[b][1..] == view[b][1..];
        UnlinkFirst(cur, b);
      } else {
        UnlinkAfter(prev, cur, b, j);
      }
      removed := true;
    }
  }

  /** prev.next = cur.next on one list. */
  method SkipNode<V>(prev: Node<V>, cur: Node<V>, ghost head: Node?<V>, ghost c: seq<Node<V>>, ghost e: Chain<V>, ghost j: nat)
    requires IsList(head, c, e) && 0 < j < |c|
    requires prev == c[j - 1] && cur == c[j] && forall l :: 0 <= l < |c| && c[l] == prev ==> l == j - 1
    modifies prev
    ensures IsList(head, c[..j] + c[j + 1..], e[..j] + e[j + 1..])
  {
    assert cur.next == c[j].next && prev.next == c[j - 1].next;
    ghost var c' := c[..j] + c[j + 1..];
    prev.next := cur.next;
    forall l | 0 <= l < |c'| ensures c'[l].next == First(c', l + 1) {
      assert c'[l] == c[if l < j then l else l + 1];
      assert old(c[if l < j then l else l + 1].next) == First(c, if l < j then l + 1 else l + 2);
    }
  }

  lemma {:induction false} PositionIs<V>(c: Chain<V>, key: string, j: nat)
    requires j <= |c| && (forall l :: 0 <= l < j ==> c[l].key != key) && (j < |c| ==> c[j].key == key)
    ensures Position(c, key) == j
  {
    if j > 0 {
      PositionIs(c[1..], key, j - 1);
    }
  }
}
