/** The text form of the table in 96. bitcask/db.c: what db_save writes, what db_load makes of
    it, and exactly which tables survive the trip. */
module BitcaskStore {
  import opened Framing
  import opened Chains
  import HashTable

  const HT_BUCKETS: nat := 1024
  const ITEM_SZ: nat := 1024

  type Item = Entry<string>

  // ----- saving -----

  /** One entry as snprintf leaves it in the item buffer: cut to fit. */
  function ItemText(e: Item): string {
    var full := e.key + ":" + e.value + "\r\n";
    if |full| < ITEM_SZ then full else full[..ITEM_SZ - 1]
  }

  /** The entries of a table in the order db_save visits them. */
  function Listing(t: Buckets<string>): seq<Item> {
    if t == [] then [] else t[0] + Listing(t[1..])
  }

  function Save(t: Buckets<string>): string {
    FlatMap(ItemText, Listing(t))
  }

  // ----- loading -----

  /** How much fgets takes with room for `room` characters: through the first newline, if one
      comes in time. */
  function LineLength(s: string, room: nat): (n: nat)
    ensures n <= |s| && n <= room && (s != "" && room > 0 ==> n > 0)
    decreases s
  {
    if s == "" || room == 0 then 0
    else if s[0] == '\n' then 1
    else 1 + LineLength(s[1..], room - 1)
  }

  /** A character at which strcspn(s, "\r\n") stops; the NUL that ends a C string is one. */
  predicate EndsItem(c: char) {
    c == '\r' || c == '\n' || c == '\0'
  }

  /** strcspn(s, "\r\n"), for a line that may hold NULs. */
  function LineEnd(s: string): (n: nat)
    ensures n <= |s| && (forall i :: 0 <= i < n ==> !EndsItem(s[i]))
  {
    if s == "" || EndsItem(s[0]) then 0 else 1 + LineEnd(s[1..])
  }

  /** Index of the first separator, or the length. */
  function Separator(s: string): (n: nat)
    ensures n <= |s| && (forall i :: 0 <= i < n ==> s[i] != ':') && (n < |s| ==> s[n] == ':')
  {
    if s == "" || s[0] == ':' then 0 else 1 + Separator(s[1..])
  }

  function LoadLine(t: Buckets<string>, line: string): (r: Buckets<string>)
    requires |t| > 0
    ensures |r| == |t|
  {
    var item := line[..LineEnd(line)];
    var i := Separator(item);
    if i == |item| then t else Set(t, item[..i], item[i + 1..])
  }

  /** The lines fgets delivers with room for `room` characters each. */
  function Lines(file: string, room: nat): seq<string>
    requires room > 0
    decreases |file|
  {
    if file == "" then []
    else
      var n := LineLength(file, room);
      [file[..n]] + Lines(file[n..], room)
  }

  function LoadLines(t: Buckets<string>, lines: seq<string>): (r: Buckets<string>)
    requires |t| > 0
    ensures |r| == |t|
    decreases lines
  {
    if lines == [] then t else LoadLines(LoadLine(t, lines[0]), lines[1..])
  }

  function Load(t: Buckets<string>, file: string): (r: Buckets<string>)
    requires |t| > 0
    ensures |r| == |t|
  {
    LoadLines(t, Lines(file, ITEM_SZ - 1))
  }

  /** ht_new, for any number of buckets. */
  function Empty(size: nat): (t: Buckets<string>)
    ensures |t| == size && forall i :: 0 <= i < size ==> t[i] == []
  {
    seq(size, _ => [])
  }

  // ----- one item -----

  /** What an entry must be to survive: a key without separator, line ends or NULs, a value
      without line ends or NULs, and both with the separator short enough for the buffer. */
  predicate Clean(e: Item) {
    && (forall i :: 0 <= i < |e.key| ==> e.key[i] != ':' && !EndsItem(e.key[i]))
    && (forall i :: 0 <= i < |e.value| ==> !EndsItem(e.value[i]))
    && |e.key| + 1 + |e.value| < ITEM_SZ
  }

  lemma {:induction false} LineLengthPlain(a: string, b: string, room: nat)
    requires |a| <= room && forall i :: 0 <= i < |a| ==> a[i] != '\n'
    ensures LineLength(a + b, room) == |a| + LineLength(b, room - |a|)
    decreases |a|
  {
    if a == "" {
      assert a + b == b;
    } else {
      assert (a + b)[1..] == a[1..] + b;
      LineLengthPlain(a[1..], b, room - 1);
    }
  }

  lemma {:induction false} LineEndPlain(a: string, b: string)
    requires forall i :: 0 <= i < |a| ==> !EndsItem(a[i])
    requires b == "" || EndsItem(b[0])
    ensures LineEnd(a + b) == |a|
    decreases |a|
  {
    if a == "" {
      assert a + b == b;
    } else {
      assert (a + b)[1..] == a[1..] + b;
      LineEndPlain(a[1..], b);
    }
  }

  lemma {:induction false} SeparatorPlain(a: string, b: string)
    requires (forall i :: 0 <= i < |a| ==> a[i] != ':') && b != "" && b[0] == ':'
    ensures Separator(a + b) == |a|
    decreases |a|
  {
    if a == "" {
      assert a + b == b;
    } else {
      assert (a + b)[1..] == a[1..] + b;
      SeparatorPlain(a[1..], b);
    }
  }

  /** The part of a clean item after its value: the line end, or what the buffer left of it. */
  function Ending(e: Item): string
    requires Clean(e)
  {
    var n := |e.key| + 1 + |e.value|;
    if n + 2 < ITEM_SZ then "\r\n" else if n + 1 < ITEM_SZ then "\r" else ""
  }

  lemma CleanItem(e: Item)
    requires Clean(e)
    ensures ItemText(e) == e.key + ":" + e.value + Ending(e)
  {
    var body := e.key + ":" + e.value;
    var full := body + "\r\n";
    if |full| >= ITEM_SZ {
      assert full[..ITEM_SZ - 1] == body + "\r\n"[..ITEM_SZ - 1 - |body|];
    }
  }

  /** fgets takes exactly one clean item, even one that lost its newline to the buffer. */
  lemma ItemIsLine(e: Item, rest: string)
    requires Clean(e)
    ensures LineLength(ItemText(e) + rest, ITEM_SZ - 1) == |ItemText(e)|
  {
    CleanItem(e);
    var body := e.key + ":" + e.value;
    var room := ITEM_SZ - 1 - |body|;
    assert ItemText(e) + rest == body + (Ending(e) + rest);
    LineLengthPlain(body, Ending(e) + rest, ITEM_SZ - 1);
    if Ending(e) == "\r\n" {
      LineLengthPlain("\r", "\n" + rest, room);
      assert "\r\n" + rest == "\r" + ("\n" + rest);
    } else if Ending(e) == "\r" {
      LineLengthPlain("\r", rest, room);
    }
  }

  lemma ItemLoads(t: Buckets<string>, e: Item)
    requires Clean(e) && |t| > 0
    ensures LoadLine(t, ItemText(e)) == Set(t, e.key, e.value)
  {
    CleanItem(e);
    var body := e.key + ":" + e.value;
    LineEndPlain(body, Ending(e));
    assert ItemText(e)[..|body|] == body;
    assert body == e.key + (":" + e.value);
    SeparatorPlain(e.key, ":" + e.value);
    assert body[..|e.key|] == e.key && body[|e.key| + 1..] == e.value;
  }

  // ----- any item -----

  /** No colon, and no character that ends an item. */
  predicate PlainKey(s: string) {
    forall i :: 0 <= i < |s| ==> s[i] != ':' && s[i] != '\r' && s[i] != '\n' && s[i] != '\0'
  }

  predicate PlainText(s: string) {
    forall i :: 0 <= i < |s| ==> s[i] != '\r' && s[i] != '\n' && s[i] != '\0'
  }

  /** CR, LF or NUL first, or nothing at all: what can follow the part of a line that counts. */
  predicate EndsThere(s: string) {
    s == "" || s[0] == '\r' || s[0] == '\n' || s[0] == '\0'
  }

  /** A line loads the text before its first colon as the key and the text after it as the value, up
      to CR, LF, NUL or the end. */
  lemma {:induction false} LineLoads(t: Buckets<string>, key: string, value: string, ending: string)
    requires |t| > 0 && PlainKey(key) && PlainText(value) && EndsThere(ending)
    ensures LoadLine(t, key + (":" + value) + ending) == Set(t, key, value)
  {
    var body := key + (":" + value);
    LineEndPlain(body, ending);
    assert (body + ending)[..|body|] == body;
    SeparatorPlain(key, ":" + value);
    assert body[..|key|] == key && body[|key| + 1..] == value;
  }

  lemma {:induction false} NoSeparator(s: string)
    requires forall i :: 0 <= i < |s| ==> s[i] != ':'
    ensures Separator(s) == |s|
  {
    if s != "" {
      NoSeparator(s[1..]);
    }
  }

  /** A line without a colon before that loads nothing. */
  lemma {:induction false} LineSkipped(t: Buckets<string>, text: string, ending: string)
    requires |t| > 0 && PlainKey(text) && EndsThere(ending)
    ensures LoadLine(t, text + ending) == t
  {
    LineEndPlain(text, ending);
    assert (text + ending)[..|text|] == text;
    NoSeparator(text);
  }

  /** The item of an entry that fits the buffer is the key, a colon, the value and a line end. */
  lemma {:induction false} ItemTextIs(key: string, value: string)
    requires |key| + |value| + 3 < 1024
    ensures ItemText(Entry(key, value)) == key + (":" + value) + "\r\n"
  {
    assert key + ":" + value + "\r\n" == key + (":" + value) + "\r\n";
  }

  /** A key with a colon comes back cut at its first colon, the rest of it in front of the value. */
  lemma {:induction false} ColonKeyLoads(t: Buckets<string>, k: string, l: string, value: string)
    requires |t| > 0 && |k| + 1 + |l| + |value| + 3 < 1024 && PlainKey(k) && PlainText(l) && PlainText(value)
    ensures LoadLine(t, ItemText(Entry(k + (":" + l), value))) == Set(t, k, l + (":" + value))
  {
    ItemTextIs(k + (":" + l), value);
    assert (k + (":" + l)) + (":" + value) == k + (":" + (l + (":" + value)));
    LineLoads(t, k, l + (":" + value), "\r\n");
  }

  /** A longer item is cut at 1023 characters. */
  lemma {:induction false} LongItemCut(key: string, value: string)
    requires |key| + |value| + 3 >= 1024
    ensures ItemText(Entry(key, value)) == (key + (":" + value) + "\r\n")[..1023]
  {
    assert key + ":" + value + "\r\n" == key + (":" + value) + "\r\n";
  }

  /** An entry whose value has a line feed is read as two lines: its key with the front of the value,
      and the rest of the value with the line end. */
  lemma {:induction false} BrokenValueReads(key: string, v: string, w: string, rest: string)
    requires |key| + |v| + |w| + 4 < 1024 && PlainKey(key) && PlainText(v) && PlainText(w)
    ensures Lines(ItemText(Entry(key, v + ("\n" + w))) + rest, 1023)
         == [key + (":" + v) + "\n"] + ([w + "\r\n"] + Lines(rest, 1023))
  {
    var first, second := key + (":" + v) + "\n", w + "\r\n";
    ItemTextIs(key, v + ("\n" + w));
    assert ItemText(Entry(key, v + ("\n" + w))) + rest == first + (second + rest);
    LineTaken(key + (":" + v), second + rest, 1023);
    LinesFront(first, second + rest, 1023);
    LineTaken(w + "\r", rest, 1023);
    assert second == w + "\r" + "\n" && second + rest == (w + "\r") + "\n" + rest;
    LinesFront(second, rest, 1023);
  }

  lemma LineTaken(text: string, rest: string, room: nat)
    requires |text| < room && forall i :: 0 <= i < |text| ==> text[i] != '\n'
    ensures LineLength(text + "\n" + rest, room) == |text| + 1
  {
    assert text + "\n" + rest == text + ("\n" + rest);
    LineLengthPlain(text, "\n" + rest, room);
  }

  // ----- the whole file -----

  function SetAll(t: Buckets<string>, es: seq<Item>): (r: Buckets<string>)
    requires |t| > 0
    ensures |r| == |t|
    decreases es
  {
    if es == [] then t else SetAll(Set(t, es[0].key, es[0].value), es[1..])
  }

  predicate AllClean(es: seq<Item>) {
    forall e :: e in es ==> Clean(e)
  }

  lemma LinesFront(line: string, rest: string, room: nat)
    requires room > 0 && line != "" && LineLength(line + rest, room) == |line|
    ensures Lines(line + rest, room) == [line] + Lines(rest, room)
  {
    assert (line + rest)[..|line|] == line && (line + rest)[|line|..] == rest;
  }

  lemma LoadFront(t: Buckets<string>, line: string, lines: seq<string>)
    requires |t| > 0
    ensures LoadLines(t, [line] + lines) == LoadLines(LoadLine(t, line), lines)
  {
    assert ([line] + lines)[1..] == lines;
  }

  lemma {:induction false} LoadListing(t: Buckets<string>, es: seq<Item>)
    requires |t| > 0 && AllClean(es)
    ensures Load(t, FlatMap(ItemText, es)) == SetAll(t, es)
    decreases es
  {
    if es != [] {
      var e, rest := es[0], FlatMap(ItemText, es[1..]);
      assert e in es;
      ItemIsLine(e, rest);
      ItemLoads(t, e);
      CleanItem(e);
      LinesFront(ItemText(e), rest, ITEM_SZ - 1);
      LoadFront(t, ItemText(e), Lines(rest, ITEM_SZ - 1));
      LoadListing(Set(t, e.key, e.value), es[1..]);
    }
  }

  // ----- prepending reverses every chain -----

  function Reverse(c: Chain<string>): (r: Chain<string>)
    ensures |r| == |c|
  {
    if c == [] then [] else Reverse(c[1..]) + [c[0]]
  }

  function Mirror(t: Buckets<string>): (r: Buckets<string>)
    ensures |r| == |t|
  {
    seq(|t|, i requires 0 <= i < |t| => Reverse(t[i]))
  }

  lemma {:induction false} ReverseAt(c: Chain<string>, j: nat)
    requires j < |c|
    ensures Reverse(c)[j] == c[|c| - 1 - j]
  {
    if j < |c| - 1 {
      ReverseAt(c[1..], j);
    }
  }

  lemma ReverseTwice(c: Chain<string>)
    ensures Reverse(Reverse(c)) == c
  {
    forall j | 0 <= j < |c| ensures Reverse(Reverse(c))[j] == c[j] {
      ReverseAt(Reverse(c), j);
      ReverseAt(c, |c| - 1 - j);
    }
  }

  /** The entries that belong in bucket b of a table of this size, in order. */
  function InBucket(es: seq<Item>, b: nat, size: nat): seq<Item>
    requires size > 0
  {
    if es == [] then []
    else if Bucket(es[0].key, size) == b then [es[0]] + InBucket(es[1..], b, size)
    else InBucket(es[1..], b, size)
  }

  /** No listed key repeats, and none is in the table yet. */
  ghost predicate AllNew(t: Buckets<string>, es: seq<Item>)
    requires |t| > 0
  {
    DistinctKeys(es) && forall i :: 0 <= i < |es| ==> Get(t, es[i].key) == None
  }

  lemma ReverseFront(e: Item, c: Chain<string>, d: Chain<string>)
    ensures Reverse([e] + c) + d == Reverse(c) + ([e] + d)
  {
    assert ([e] + c)[1..] == c;
  }

  lemma {:induction false} SetAllReverses(t: Buckets<string>, es: seq<Item>, b: nat)
    requires |t| > 0 && AllNew(t, es) && b < |t|
    ensures SetAll(t, es)[b] == Reverse(InBucket(es, b, |t|)) + t[b]
    decreases es
  {
    if es != [] {
      var e, r := es[0], Set(t, es[0].key, es[0].value);
      forall i | 0 <= i < |es[1..]| ensures Get(r, es[1..][i].key) == None {
        GetSet(t, e.key, e.value, es[i + 1].key);
      }
      SetAllReverses(r, es[1..], b);
      var later := InBucket(es[1..], b, |t|);
      if Bucket(e.key, |t|) == b {
        assert Get(t, e.key) == None;
        assert r[b] == [e] + t[b];
        ReverseFront(e, later, t[b]);
      } else {
        assert r[b] == t[b];
        assert InBucket(es, b, |t|) == later;
      }
    }
  }

  /** The buckets from index `from` on, each in its place. */
  ghost predicate Placed(t: Buckets<string>, from: nat, size: nat)
    requires size > 0
  {
    && from + |t| == size
    && (forall i, j :: 0 <= i < |t| && 0 <= j < |t[i]| ==> Bucket(t[i][j].key, size) == from + i)
    && (forall i :: 0 <= i < |t| ==> DistinctKeys(t[i]))
  }

  lemma {:induction false} InBucketAppend(s: seq<Item>, u: seq<Item>, b: nat, size: nat)
    requires size > 0
    ensures InBucket(s + u, b, size) == InBucket(s, b, size) + InBucket(u, b, size)
  {
    if s == [] {
      assert s + u == u;
    } else {
      assert (s + u)[1..] == s[1..] + u;
      InBucketAppend(s[1..], u, b, size);
    }
  }

  lemma {:induction false} InBucketUniform(c: seq<Item>, home: nat, b: nat, size: nat)
    requires size > 0 && forall j :: 0 <= j < |c| ==> Bucket(c[j].key, size) == home
    ensures InBucket(c, b, size) == if b == home then c else []
  {
    if c != [] {
      InBucketUniform(c[1..], home, b, size);
    }
  }

  lemma PlacedRest(t: Buckets<string>, from: nat, size: nat)
    requires t != [] && size > 0 && Placed(t, from, size)
    ensures Placed(t[1..], from + 1, size)
    ensures forall j :: 0 <= j < |t[0]| ==> Bucket(t[0][j].key, size) == from
  {
    forall i | 0 <= i < |t[1..]| ensures t[1..][i] == t[i + 1] {}
  }

  /** Listing a table and sorting the listing by bucket gives back the buckets. */
  lemma {:induction false} ListingInBucket(t: Buckets<string>, from: nat, b: nat, size: nat)
    requires size > 0 && Placed(t, from, size)
    ensures InBucket(Listing(t), b, size) == if from <= b < size then t[b - from] else []
    decreases t
  {
    if t != [] {
      PlacedRest(t, from, size);
      var rest := Listing(t[1..]);
      InBucketAppend(t[0], rest, b, size);
      InBucketUniform(t[0], from, b, size);
      ListingInBucket(t[1..], from + 1, b, size);
      assert InBucket(Listing(t), b, size) == (if b == from then t[0] else []) + InBucket(rest, b, size);
    }
  }

  /** Each listed entry comes from some bucket at or after `from`. */
  lemma {:induction false} ListingFrom(t: Buckets<string>, k: nat) returns (i: nat, j: nat)
    requires k < |Listing(t)|
    ensures i < |t| && j < |t[i]| && t[i][j] == Listing(t)[k]
  {
    if k < |t[0]| {
      i, j := 0, k;
    } else {
      i, j := ListingFrom(t[1..], k - |t[0]|);
      i := i + 1;
    }
  }

  lemma {:induction false} ListingDistinct(t: Buckets<string>, from: nat, size: nat)
    requires size > 0 && Placed(t, from, size)
    ensures DistinctKeys(Listing(t))
    decreases t
  {
    if t != [] {
      var c, rest := t[0], Listing(t[1..]);
      PlacedRest(t, from, size);
      ListingDistinct(t[1..], from + 1, size);
      forall k | 0 <= k < |rest| ensures Bucket(rest[k].key, size) > from {
        var i, j := ListingFrom(t[1..], k);
        assert t[1..][i] == t[i + 1];
      }
    }
  }

  lemma EmptyHasNone(size: nat, key: string)
    requires size > 0
    ensures Get(Empty(size), key) == None
  {}

  lemma ListingAllNew(t: Buckets<string>)
    requires WellFormed(t)
    ensures AllNew(Empty(|t|), Listing(t))
  {
    var empty, es := Empty(|t|), Listing(t);
    ListingDistinct(t, 0, |t|);
    forall i | 0 <= i < |es| ensures Get(empty, es[i].key) == None {
      EmptyHasNone(|t|, es[i].key);
    }
  }

  lemma ListingSorted(t: Buckets<string>, b: nat)
    requires WellFormed(t) && b < |t|
    ensures InBucket(Listing(t), b, |t|) == t[b]
  {
    ListingInBucket(t, 0, b, |t|);
  }

  lemma SetAllFills(t: Buckets<string>, es: seq<Item>, b: nat, c: Chain<string>)
    requires |t| > 0 && AllNew(t, es) && b < |t| && t[b] == [] && InBucket(es, b, |t|) == c
    ensures SetAll(t, es)[b] == Reverse(c)
  {
    SetAllReverses(t, es, b);
    assert Reverse(c) + t[b] == Reverse(c);
  }

  lemma SetAllMirrorsAt(t: Buckets<string>, es: seq<Item>, b: nat)
    requires b < |t| && AllNew(Empty(|t|), es) && InBucket(es, b, |t|) == t[b]
    ensures SetAll(Empty(|t|), es)[b] == Reverse(t[b])
  {
    SetAllFills(Empty(|t|), es, b, t[b]);
  }

  lemma SetAllMirrors(t: Buckets<string>)
    requires WellFormed(t)
    ensures SetAll(Empty(|t|), Listing(t)) == Mirror(t)
  {
    var es := Listing(t);
    ListingAllNew(t);
    forall b | 0 <= b < |t| ensures SetAll(Empty(|t|), es)[b] == Reverse(t[b]) {
      ListingSorted(t, b);
      SetAllMirrorsAt(t, es, b);
    }
  }

  /** Loading a saved clean table into a fresh one gives every chain reversed. */
  lemma {:induction false} LoadSaveMirrors(t: Buckets<string>)
    requires WellFormed(t) && AllClean(Listing(t))
    ensures Load(Empty(|t|), Save(t)) == Mirror(t)
  {
    LoadListing(Empty(|t|), Listing(t));
    SetAllMirrors(t);
  }

  // ----- what survives -----

  lemma {:induction false} ListingMembers(t: Buckets<string>, i: nat, j: nat)
    requires i < |t| && j < |t[i]|
    ensures t[i][j] in Listing(t)
  {
    if i > 0 {
      ListingMembers(t[1..], i - 1, j);
    }
  }

  lemma MirrorWellFormed(t: Buckets<string>)
    requires WellFormed(t)
    ensures WellFormed(Mirror(t))
  {
    var m := Mirror(t);
    forall i, j | 0 <= i < |m| && 0 <= j < |m[i]| ensures m[i][j] == t[i][|t[i]| - 1 - j] {
      ReverseAt(t[i], j);
    }
  }

  lemma MirrorClean(t: Buckets<string>)
    requires AllClean(Listing(t))
    ensures AllClean(Listing(Mirror(t)))
  {
    var m := Mirror(t);
    forall e | e in Listing(m) ensures Clean(e) {
      var k :| 0 <= k < |Listing(m)| && Listing(m)[k] == e;
      var i, j := ListingFrom(m, k);
      ReverseAt(t[i], j);
      ListingMembers(t, i, |t[i]| - 1 - j);
    }
  }

  lemma MirrorContents(t: Buckets<string>)
    requires WellFormed(t)
    ensures Contents(Mirror(t)) == Contents(t)
  {
    var m := Mirror(t);
    MirrorWellFormed(t);
    forall x ensures Answers(m, Contents(t), x) {
      GetIsLookup(t, x);
      SameFind(t[Bucket(x, |t|)], x);
    }
    ContentsAre(m, Contents(t));
  }

  lemma UniqueFind(c: Chain<string>, key: string, j: nat)
    requires DistinctKeys(c) && j < |c| && c[j].key == key
    ensures Find(c, key) == Some(c[j].value)
  {
    FindAt(c, key, j);
  }

  lemma SameFind(c: Chain<string>, x: string)
    requires DistinctKeys(c)
    ensures Find(Reverse(c), x) == Find(c, x)
  {
    var r := Reverse(c);
    forall j | 0 <= j < |c| ensures r[j] == c[|c| - 1 - j] {
      ReverseAt(c, j);
    }
    var p := Position(c, x);
    FindAt(c, x, p);
    if p < |c| {
      assert r[|c| - 1 - p] == c[p];
      UniqueFind(r, x, |c| - 1 - p);
    } else {
      FindAt(r, x, |r|);
    }
  }

  /** Two passes through a file restore the table down to the order of its chains, so a third
      save writes the first file again. */
  lemma {:induction false} TwoPassesRestore(t: Buckets<string>)
    requires WellFormed(t) && AllClean(Listing(t))
    ensures var once := Load(Empty(|t|), Save(t));
      Load(Empty(|t|), Save(once)) == t
  {
    LoadSaveMirrors(t);
    MirrorWellFormed(t);
    MirrorClean(t);
    LoadSaveMirrors(Mirror(t));
    forall i | 0 <= i < |t| ensures Mirror(Mirror(t))[i] == t[i] {
      ReverseTwice(t[i]);
    }
  }

  /** Every entry of a table is clean. */
  ghost predicate CleanTable(t: Buckets<string>) {
    forall i, j :: 0 <= i < |t| && 0 <= j < |t[i]| ==> Clean(t[i][j])
  }

  lemma SetClean(t: Buckets<string>, key: string, value: string)
    requires |t| > 0 && CleanTable(t) && Clean(Entry(key, value))
    ensures CleanTable(Set(t, key, value))
  {
    var c := t[Bucket(key, |t|)];
    FindAt(c, key, Position(c, key));
  }

  lemma LineCleans(line: string)
    requires |line| < ITEM_SZ
    ensures var item := line[..LineEnd(line)];
      var i := Separator(item);
      i < |item| ==> Clean(Entry(item[..i], item[i + 1..]))
  {
  }

  lemma LoadLineCleans(t: Buckets<string>, line: string)
    requires |t| > 0 && CleanTable(t) && |line| < ITEM_SZ
    ensures CleanTable(LoadLine(t, line))
  {
    LineCleans(line);
    var item := line[..LineEnd(line)];
    var i := Separator(item);
    if i < |item| {
      SetClean(t, item[..i], item[i + 1..]);
    }
  }

  lemma {:induction false} LinesShort(file: string, room: nat)
    requires room > 0
    ensures forall l :: l in Lines(file, room) ==> |l| <= room
    decreases |file|
  {
    if file != "" {
      LinesShort(file[LineLength(file, room)..], room);
    }
  }

  lemma {:induction false} LoadLinesCleans(t: Buckets<string>, lines: seq<string>)
    requires |t| > 0 && CleanTable(t) && forall l :: l in lines ==> |l| < ITEM_SZ
    ensures CleanTable(LoadLines(t, lines))
    decreases lines
  {
    if lines != [] {
      assert lines[0] in lines;
      LoadLineCleans(t, lines[0]);
      LoadLinesCleans(LoadLine(t, lines[0]), lines[1..]);
    }
  }

  /** Whatever the file, loading stores only clean entries. */
  lemma LoadCleans(t: Buckets<string>, file: string)
    requires |t| > 0 && CleanTable(t)
    ensures CleanTable(Load(t, file))
  {
    LinesShort(file, ITEM_SZ - 1);
    LoadLinesCleans(t, Lines(file, ITEM_SZ - 1));
  }

  lemma FoundIsEntry(t: Buckets<string>, key: string) returns (i: nat, j: nat)
    requires |t| > 0 && Get(t, key).Some?
    ensures i < |t| && j < |t[i]| && t[i][j] == Entry(key, Get(t, key).value)
  {
    i := Bucket(key, |t|);
    j := Position(t[i], key);
    FindAt(t[i], key, j);
  }

  /** A table comes back from its file as the same map exactly when every entry is clean. */
  lemma {:induction false} RoundTripIff(t: Buckets<string>)
    requires WellFormed(t)
    ensures Contents(Load(Empty(|t|), Save(t))) == Contents(t) <==> AllClean(Listing(t))
  {
    var r := Load(Empty(|t|), Save(t));
    if AllClean(Listing(t)) {
      LoadSaveMirrors(t);
      MirrorContents(t);
    }
    if Contents(r) == Contents(t) {
      LoadCleans(Empty(|t|), Save(t));
      forall e | e in Listing(t) ensures Clean(e) {
        var k :| 0 <= k < |Listing(t)| && Listing(t)[k] == e;
        var i, j := ListingFrom(t, k);
        UniqueFind(t[i], e.key, j);
        GetIsLookup(t, e.key);
        GetIsLookup(r, e.key);
        var p, q := FoundIsEntry(r, e.key);
      }
    }
  }

  // ----- the code -----

  lemma {:induction false} ListingAppend(t: Buckets<string>, c: Chain<string>)
    ensures Listing(t + [c]) == Listing(t) + c
  {
    if t == [] {
      assert t + [c] == [c];
      assert Listing([c]) == c + Listing([]);
    } else {
      assert (t + [c])[1..] == t[1..] + [c];
      ListingAppend(t[1..], c);
    }
  }

  /** db_save's walk along one chain. */
  method SaveChain(head: HashTable.Node?<string>, ghost c: seq<HashTable.Node<string>>, ghost e: Chain<string>)
    returns (text: string)
    requires HashTable.IsList(head, c, e)
    ensures text == FlatMap(ItemText, e)
  {
    text := "";
    var cur := head;
    ghost var j := 0;
    while cur != null
      invariant j <= |c| && cur == HashTable.First(c, j)
      invariant text == FlatMap(ItemText, e[..j])
      decreases |c| - j
    {
      assert e[j] == Entry(c[j].key, c[j].value);
      assert e[..j + 1] == e[..j] + [e[j]];
      FlatMapAppend(ItemText, e[..j], [e[j]]);
      FlatMapOne(ItemText, e[j]);
      text := text + ItemText(Entry(cur.key, cur.value));
      cur := cur.next;
      j := j + 1;
    }
    assert e[..j] == e;
  }

  /** db_save: the bytes written, for a file truncated on opening. */
  method SaveTable(t: HashTable.Table<string>) returns (file: string)
    requires t.Valid()
    ensures file == Save(t.view)
  {
    file := "";
    for i := 0 to t.heads.Length
      invariant file == Save(t.view[..i])
    {
      assert HashTable.IsList(t.heads[i], t.chains[i], t.view[i]);
      var text := SaveChain(t.heads[i], t.chains[i], t.view[i]);
      assert t.view[..i + 1] == t.view[..i] + [t.view[i]];
      ListingAppend(t.view[..i], t.view[i]);
      FlatMapAppend(ItemText, Listing(t.view[..i]), t.view[i]);
      file := file + text;
    }
    assert t.view[..t.heads.Length] == t.view;
  }

  /** fgets on what is left of the file: a line, and what is left then. */
  method ReadLine(file: string, room: nat) returns (line: string, rest: string)
    requires file != "" && room > 0
    ensures line != "" && line + rest == file && |line| == LineLength(file, room)
    ensures Lines(file, room) == [line] + Lines(rest, room)
  {
    var n := 0;
    var open := true;
    while open && n < |file| && n < room
      invariant n <= |file| && n <= room
      invariant LineLength(file, room) == n + (if open then LineLength(file[n..], room - n) else 0)
      decreases |file| - n, open
    {
      assert file[n..][1..] == file[n + 1..];
      open := file[n] != '\n';
      n := n + 1;
    }
    line, rest := file[..n], file[n..];
  }

  /** ht_new. */
  method HtNew() returns (t: HashTable.Table<string>)
    ensures t.Valid() && fresh(t) && fresh(t.heads) && fresh(t.repr)
    ensures t.heads.Length == 1024 && t.view == Empty(1024) && Contents(t.view) == map[]
  {
    t := new HashTable.Table(HT_BUCKETS);
    assert t.view == Empty(HT_BUCKETS);
    assert Keys(t.view) == {};
  }

  /** ht_get: the value the table's map has for the key, if any. */
  method HtGet(t: HashTable.Table<string>, key: string) returns (value: Option<string>)
    requires t.Valid()
    ensures value == if key in Contents(t.view) then Some(Contents(t.view)[key]) else None
  {
    var p, j := t.Lookup(key);
    GetIsLookup(t.view, key);
    value := if p == null then None else Some(p.value);
  }

  /** The body of db_load's loop. */
  method LoadItem(t: HashTable.Table<string>, line: string)
    requires t.Valid()
    modifies t, t.heads, t.repr
    ensures t.Valid() && fresh(t.repr - old(t.repr))
    ensures t.view == LoadLine(old(t.view), line)
  {
    var item := line[..LineEnd(line)];
    var i := Separator(item);
    if i < |item| {
      t.Install(item[..i], item[i + 1..]);
    }
  }

  /** db_load's loop, for an item buffer with room for `room` characters. */
  method LoadWith(t: HashTable.Table<string>, file: string, room: nat)
    requires t.Valid() && room > 0
    modifies t, t.heads, t.repr
    ensures t.Valid() && t.view == LoadLines(old(t.view), Lines(file, room))
  {
    var unread := file;
    ghost var all := LoadLines(t.view, Lines(file, room));
    while unread != ""
      invariant t.Valid() && fresh(t.repr - old(t.repr))
      invariant LoadLines(t.view, Lines(unread, room)) == all
      decreases |unread|
    {
      var line, rest := ReadLine(unread, room);
      LoadFront(t.view, line, Lines(rest, room));
      LoadItem(t, line);
      unread := rest;
    }
  }

  /** db_load. */
  method LoadTable(t: HashTable.Table<string>, file: string)
    requires t.Valid()
    modifies t, t.heads, t.repr
    ensures t.Valid() && t.view == Load(old(t.view), file)
  {
    LoadWith(t, file, ITEM_SZ - 1);
  }
}
