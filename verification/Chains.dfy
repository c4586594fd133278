/** Hash tables with chained buckets as values: the buckets in order, each a list of entries,
    front first. Both 96. bitcask/db.c and 8. redis server/redis_clone/src/db.c keep one. */
module Chains {
  import opened Framing

  datatype Entry<+V> = Entry(key: string, value: V)

  type Chain<+V> = seq<Entry<V>>

  type Buckets<+V> = seq<Chain<V>>

  // ----- the hash -----

  const WORD: nat := 0x1_0000_0000_0000_0000

  /** The djb2 loop from state h, on 64-bit unsigned words. */
  function Djb2(h: nat, s: string): nat
    decreases s
  {
    if s == "" then h else Djb2((h * 33 + s[0] as int) % WORD, s[1..])
  }

  /** The bucket of a key among `size`. */
  function Bucket(key: string, size: nat): (b: nat)
    requires size > 0
    ensures b < size
  {
    Djb2(5381, key) % size
  }

  function Pow33(k: nat): nat {
    if k == 0 then 1 else 33 * Pow33(k - 1)
  }

  /** The characters weighted by powers of 33, the last by 1. */
  function Weighted(s: string): nat {
    if s == "" then 0 else s[0] as int * Pow33(|s| - 1) + Weighted(s[1..])
  }

  lemma Wraps(k: nat, r: nat)
    ensures (k * WORD + r) % WORD == r % WORD
  {}

  /** Reducing a factor first changes nothing modulo a word. */
  lemma ReducedFactor(x: nat, p: nat, q: nat)
    ensures (x % WORD * p + q) % WORD == (x * p + q) % WORD
  {
    var k, y := x / WORD, x % WORD;
    assert x == k * WORD + y;
    Distributes(k * WORD, y, p);
    Commutes(k, p);
    assert x * p + q == (k * p) * WORD + (y * p + q);
    Wraps(k * p, y * p + q);
  }

  lemma Distributes(a: nat, b: nat, p: nat)
    ensures (a + b) * p == a * p + b * p
  {}

  lemma Commutes(k: nat, p: nat)
    ensures k * WORD * p == (k * p) * WORD
  {}

  lemma {:induction false} Djb2Sum(h: nat, s: string)
    ensures Djb2(h, s) % WORD == (h * Pow33(|s|) + Weighted(s)) % WORD
    decreases s
  {
    if s != "" {
      var c, rest := s[0] as int, s[1..];
      Djb2Sum((h * 33 + c) % WORD, rest);
      ReducedFactor(h * 33 + c, Pow33(|rest|), Weighted(rest));
      Distributes(h * 33, c, Pow33(|rest|));
      Thirtythree(h, Pow33(|rest|));
    }
  }

  lemma Thirtythree(h: nat, p: nat)
    ensures h * 33 * p == h * (33 * p)
  {}

  lemma {:induction false} Djb2Small(h: nat, s: string)
    requires h < WORD
    ensures Djb2(h, s) < WORD
    decreases s
  {
    if s != "" {
      Djb2Small((h * 33 + s[0] as int) % WORD, s[1..]);
    }
  }

  /** The hash in closed form: 5381 and the characters weighted by powers of 33, modulo 2^64. */
  lemma {:induction false} HashIs(key: string)
    ensures Djb2(5381, key) == (5381 * Pow33(|key|) + Weighted(key)) % 18446744073709551616
  {
    Djb2Sum(5381, key);
    Djb2Small(5381, key);
    SmallMod(Djb2(5381, key));
  }

  lemma SmallMod(n: nat)
    requires n < WORD
    ensures n % WORD == n
  {}

  /** The bucket is the hash modulo the size of the table. */
  lemma BucketIs(key: string, size: nat)
    requires size > 0
    ensures var hash := (5381 * Pow33(|key|) + Weighted(key)) % 18446744073709551616;
      Bucket(key, size) == hash % size
  {
    HashIs(key);
  }

  /** ht_hash and hash. */
  method ComputeBucket(key: string, size: nat) returns (b: nat)
    requires size > 0
    ensures b == Bucket(key, size)
  {
    var h: nat := 5381;
    for i := 0 to |key|
      invariant Djb2(h, key[i..]) == Djb2(5381, key)
    {
      assert key[i..][1..] == key[i + 1..];
      h := (h * 33 + key[i] as int) % WORD;
    }
    b := h % size;
  }

  // ----- one chain -----

  ghost predicate DistinctKeys<V>(c: Chain<V>) {
    forall j, k :: 0 <= j < k < |c| ==> c[j].key != c[k].key
  }

  /** The first entry of a chain with this key. */
  function Find<V>(c: Chain<V>, key: string): Option<V> {
    if c == [] then None
    else if c[0].key == key then Some(c[0].value)
    else Find(c[1..], key)
  }

  function Update<V>(c: Chain<V>, key: string, value: V): (r: Chain<V>)
    ensures |r| == |c|
  {
    if c == [] then []
    else if c[0].key == key then [Entry(key, value)] + c[1..]
    else [c[0]] + Update(c[1..], key, value)
  }

  /** A stored key gets the new value in place; a new key goes to the front. */
  function Put<V>(c: Chain<V>, key: string, value: V): Chain<V> {
    if Find(c, key).Some? then Update(c, key, value) else [Entry(key, value)] + c
  }

  /** Unlinks the first entry with this key. */
  function Drop<V>(c: Chain<V>, key: string): Chain<V> {
    if c == [] then []
    else if c[0].key == key then c[1..]
    else [c[0]] + Drop(c[1..], key)
  }

  lemma {:induction false} FindAt<V>(c: Chain<V>, key: string, j: nat)
    requires j <= |c| && forall l :: 0 <= l < j ==> c[l].key != key
    ensures j == |c| ==> Find(c, key) == None && Drop(c, key) == c
    ensures j < |c| && c[j].key == key ==> Find(c, key) == Some(c[j].value)
    ensures j < |c| && c[j].key == key ==> Drop(c, key) == c[..j] + c[j + 1..]
    ensures j < |c| && c[j].key == key ==> forall v :: Update(c, key, v) == c[j := Entry(key, v)]
  {
    if j > 0 {
      FindAt(c[1..], key, j - 1);
      if j < |c| && c[j].key == key {
        assert [c[0]] + (c[1..][..j - 1] + c[1..][j..]) == c[..j] + c[j + 1..];
        forall v ensures Update(c, key, v) == c[j := Entry(key, v)] {
          assert [c[0]] + c[1..][j - 1 := Entry(key, v)] == c[j := Entry(key, v)];
        }
      } else if j == |c| {
        assert [c[0]] + c[1..] == c;
      }
    }
  }

  /** Where a key sits in a chain: the index of its first entry, or the length. */
  function Position<V>(c: Chain<V>, key: string): (j: nat)
    ensures j <= |c| && (forall l :: 0 <= l < j ==> c[l].key != key) && (j < |c| ==> c[j].key == key)
  {
    if c == [] || c[0].key == key then 0 else 1 + Position(c[1..], key)
  }

  lemma {:induction false} FindDrop<V>(c: Chain<V>, key: string, x: string)
    requires DistinctKeys(c)
    ensures Find(Drop(c, key), x) == if x == key then None else Find(c, x)
  {
    if c == [] {
    } else if c[0].key == key {
      if x == key && Find(c[1..], key).Some? {
        FindAt(c[1..], key, Position(c[1..], key));
      }
    } else {
      FindDrop(c[1..], key, x);
    }
  }

  lemma {:induction false} FindUpdate<V>(c: Chain<V>, key: string, value: V, x: string)
    ensures Find(Update(c, key, value), x) ==
      if x == key && Find(c, key).Some? then Some(value) else Find(c, x)
  {
    if c != [] && c[0].key != key {
      FindUpdate(c[1..], key, value, x);
    }
  }

  lemma FindPut<V>(c: Chain<V>, key: string, value: V, x: string)
    ensures Find(Put(c, key, value), x) == if x == key then Some(value) else Find(c, x)
  {
    FindUpdate(c, key, value, x);
    assert ([Entry(key, value)] + c)[1..] == c;
  }

  // ----- the table -----

  /** Every entry is in the bucket of its hash, and no chain repeats a key. */
  ghost predicate WellFormed<V>(t: Buckets<V>) {
    && |t| > 0
    && (forall i, j :: 0 <= i < |t| && 0 <= j < |t[i]| ==> Bucket(t[i][j].key, |t|) == i)
    && (forall i :: 0 <= i < |t| ==> DistinctKeys(t[i]))
  }

  function Get<V>(t: Buckets<V>, key: string): Option<V>
    requires |t| > 0
  {
    Find(t[Bucket(key, |t|)], key)
  }

  function Set<V>(t: Buckets<V>, key: string, value: V): (r: Buckets<V>)
    requires |t| > 0
    ensures |r| == |t|
  {
    var b := Bucket(key, |t|);
    t[b := Put(t[b], key, value)]
  }

  function Remove<V>(t: Buckets<V>, key: string): (r: Buckets<V>)
    requires |t| > 0
    ensures |r| == |t|
  {
    var b := Bucket(key, |t|);
    t[b := Drop(t[b], key)]
  }

  function Keys<V>(t: Buckets<V>): set<string> {
    set i, j | 0 <= i < |t| && 0 <= j < |t[i]| :: t[i][j].key
  }

  /** The map a table stands for. */
  ghost function Contents<V>(t: Buckets<V>): (m: map<string, V>)
    requires |t| > 0
  {
    map k | k in Keys(t) && Get(t, k).Some? :: Get(t, k).value
  }

  /** A lookup in the table is a lookup in the map. */
  lemma GetIsLookup<V>(t: Buckets<V>, key: string)
    requires |t| > 0
    ensures key in Contents(t) <==> Get(t, key).Some?
    ensures key in Contents(t) ==> Contents(t)[key] == Get(t, key).value
  {
    var c := t[Bucket(key, |t|)];
    var j := Position(c, key);
    FindAt(c, key, j);
    if j < |c| {
      assert c[j].key in Keys(t);
    }
  }

  /** The table answers a lookup of x as the map m does. */
  ghost predicate Answers<V>(t: Buckets<V>, m: map<string, V>, x: string)
    requires |t| > 0
  {
    Get(t, x) == if x in m then Some(m[x]) else None
  }

  /** A map that answers every lookup as the table does is what the table stands for. */
  lemma ContentsAre<V>(t: Buckets<V>, m: map<string, V>)
    requires |t| > 0
    requires forall x :: Answers(t, m, x)
    ensures Contents(t) == m
  {
    forall x ensures x in Contents(t) <==> x in m {
      GetIsLookup(t, x);
      assert Answers(t, m, x);
    }
    forall x | x in m ensures Contents(t)[x] == m[x] {
      GetIsLookup(t, x);
      assert Answers(t, m, x);
    }
  }

  lemma GetSet<V>(t: Buckets<V>, key: string, value: V, x: string)
    requires |t| > 0
    ensures Get(Set(t, key, value), x) == if x == key then Some(value) else Get(t, x)
  {
    FindPut(t[Bucket(key, |t|)], key, value, x);
  }

  lemma GetRemove<V>(t: Buckets<V>, key: string, x: string)
    requires WellFormed(t)
    ensures Get(Remove(t, key), x) == if x == key then None else Get(t, x)
  {
    FindDrop(t[Bucket(key, |t|)], key, x);
  }

  /** A chain that may stand at index b of a table of this size. */
  ghost predicate Belongs<V>(c: Chain<V>, b: nat, size: nat)
    requires size > 0
  {
    DistinctKeys(c) && forall j :: 0 <= j < |c| ==> Bucket(c[j].key, size) == b
  }

  lemma PutBelongs<V>(c: Chain<V>, key: string, value: V, b: nat, size: nat)
    requires size > 0 && Belongs(c, b, size) && Bucket(key, size) == b
    ensures Belongs(Put(c, key, value), b, size)
  {
    var p := Position(c, key);
    var e := Entry(key, value);
    FindAt(c, key, p);
    if p == |c| {
      assert Belongs([e] + c, b, size);
    } else {
      assert Belongs(c[p := e], b, size);
    }
  }

  lemma DropBelongs<V>(c: Chain<V>, key: string, b: nat, size: nat)
    requires size > 0 && Belongs(c, b, size)
    ensures Belongs(Drop(c, key), b, size)
  {
    FindAt(c, key, Position(c, key));
  }

  lemma WellFormedWith<V>(t: Buckets<V>, b: nat, c: Chain<V>)
    requires WellFormed(t) && b < |t| && Belongs(c, b, |t|)
    ensures WellFormed(t[b := c])
  {
  }

  /** Setting a key is the map update, on a well-formed table that stays well-formed. */
  lemma SetIsUpdate<V>(t: Buckets<V>, key: string, value: V)
    requires WellFormed(t)
    ensures WellFormed(Set(t, key, value))
    ensures Contents(Set(t, key, value)) == Contents(t)[key := value]
  {
    var b := Bucket(key, |t|);
    PutBelongs(t[b], key, value, b, |t|);
    WellFormedWith(t, b, Put(t[b], key, value));
    var m := Contents(t)[key := value];
    forall x ensures Answers(Set(t, key, value), m, x) {
      GetIsLookup(t, x);
      GetSet(t, key, value, x);
    }
    ContentsAre(Set(t, key, value), m);
  }

  /** Removing a key removes exactly that key from the map. */
  lemma {:induction false} RemoveIsMinus<V>(t: Buckets<V>, key: string)
    requires WellFormed(t)
    ensures WellFormed(Remove(t, key))
    ensures Contents(Remove(t, key)) == Contents(t) - {key}
  {
    var b := Bucket(key, |t|);
    DropBelongs(t[b], key, b, |t|);
    WellFormedWith(t, b, Drop(t[b], key));
    var m := Contents(t) - {key};
    forall x ensures Answers(Remove(t, key), m, x) {
      GetIsLookup(t, x);
      GetRemove(t, key, x);
    }
    ContentsAre(Remove(t, key), m);
  }

  // ----- runs -----

  datatype Change<+V> = Install(key: string, value: V) | Undef(key: string)

  function ApplyAll<V>(t: Buckets<V>, cs: seq<Change<V>>): (r: Buckets<V>)
    requires |t| > 0
    ensures |r| == |t|
    decreases cs
  {
    if cs == [] then t
    else match cs[0]
      case Install(k, v) => ApplyAll(Set(t, k, v), cs[1..])
      case Undef(k) => ApplyAll(Remove(t, k), cs[1..])
  }

  function ApplyToMap<V>(m: map<string, V>, cs: seq<Change<V>>): map<string, V>
    decreases cs
  {
    if cs == [] then m
    else match cs[0]
      case Install(k, v) => ApplyToMap(m[k := v], cs[1..])
      case Undef(k) => ApplyToMap(m - {k}, cs[1..])
  }

  /** Over any run of installs and removals the table stays well-formed and stands for the
      map after the same run. */
  lemma {:induction false} TableRefinesMap<V>(t: Buckets<V>, cs: seq<Change<V>>)
    requires WellFormed(t)
    ensures WellFormed(ApplyAll(t, cs))
    ensures Contents(ApplyAll(t, cs)) == ApplyToMap(Contents(t), cs)
    decreases cs
  {
    if cs != [] {
      match cs[0]
      case Install(k, v) =>
        SetIsUpdate(t, k, v);
        TableRefinesMap(Set(t, k, v), cs[1..]);
      case Undef(k) =>
        RemoveIsMinus(t, k);
        TableRefinesMap(Remove(t, k), cs[1..]);
    }
  }
}
