/** The store of 8. redis server/redis_clone/src/db.c: operations on the chained table, what
    they mean on a map, and lazy expiry against eager expiry. */
module RedisStore {
  import opened Framing
  import opened Decimal
  import Chains
  import HashTable

  const HASH_SIZE: nat := 1000

  /** A stored value and the time it expires at, in milliseconds; 0 is never. */
  datatype Cell = Cell(value: string, expiresAt: nat)

  type Db = map<string, Cell>

  // ----- operations as functions -----

  predicate Expired(c: Cell, now: nat) {
    c.expiresAt != 0 && c.expiresAt <= now
  }

  /** db_get: an expired entry is deleted on the way. */
  function Get(m: Db, key: string, now: nat): (Option<string>, Db) {
    if key !in m then (None, m)
    else if Expired(m[key], now) then (None, m - {key})
    else (Some(m[key].value), m)
  }

  /** db_set_ex. */
  function SetEx(m: Db, key: string, value: string, expiresAt: nat): Db {
    m[key := Cell(value, expiresAt)]
  }

  /** db_del: whether the key was there, expired or not. */
  function Del(m: Db, key: string): (bool, Db) {
    (key in m, m - {key})
  }

  /** What INCR makes of a stored value: a text, a refusal of a value that is no int, or an int
      overflow, which C leaves undefined. */
  datatype Increment = Done(text: string) | Refused | Overflow

  function NextText(value: string): Increment {
    if !IsNumber(value) then Refused
    else if Atoi(value) == INT_MAX then Overflow
    else Done(Text(Atoi(value) + 1))
  }

  /** db_incr: a missing key starts at 1; a stored one keeps its expiry. */
  function IncrWith(next: string -> Increment, m: Db, key: string): (Increment, Db) {
    if key !in m then (Done("1"), m[key := Cell("1", 0)])
    else
      var n := next(m[key].value);
      (n, if n.Done? then m[key := Cell(n.text, m[key].expiresAt)] else m)
  }

  function Incr(m: Db, key: string): (Increment, Db) {
    IncrWith(NextText, m, key)
  }

  // ----- lazy expiry refines eager expiry -----

  /** What is left of a store when every expired entry is dropped at once. */
  function Live(m: Db, now: nat): Db {
    map k | k in m && !Expired(m[k], now) :: m[k]
  }

  datatype Command = SetCmd(key: string, value: string, expiresAt: nat) | GetCmd(key: string) | ExistsCmd(key: string)

  datatype Reply = Stored | Value(v: Option<string>) | Count(n: nat)

  /** A command as the code runs it. */
  function Lazy(m: Db, now: nat, c: Command): (Reply, Db) {
    match c
    case SetCmd(k, v, e) => (Stored, SetEx(m, k, v, e))
    case GetCmd(k) => var (v, m') := Get(m, k, now); (Value(v), m')
    case ExistsCmd(k) => var (v, m') := Get(m, k, now); (Count(if v.Some? then 1 else 0), m')
  }

  /** The same command on a store that forgets entries the instant they expire, and otherwise
      is a plain map. */
  function Eager(m: Db, now: nat, c: Command): (Reply, Db) {
    var live := Live(m, now);
    match c
    case SetCmd(k, v, e) => (Stored, live[k := Cell(v, e)])
    case GetCmd(k) => (Value(if k in live then Some(live[k].value) else None), live)
    case ExistsCmd(k) => (Count(if k in live then 1 else 0), live)
  }

  datatype Timed = Timed(now: nat, command: Command)

  function LazyRun(m: Db, run: seq<Timed>): (rs: seq<Reply>)
    ensures |rs| == |run|
    decreases run
  {
    if run == [] then []
    else
      var (r, m') := Lazy(m, run[0].now, run[0].command);
      [r] + LazyRun(m', run[1..])
  }

  function EagerRun(m: Db, run: seq<Timed>): (rs: seq<Reply>)
    ensures |rs| == |run|
    decreases run
  {
    if run == [] then []
    else
      var (r, m') := Eager(m, run[0].now, run[0].command);
      [r] + EagerRun(m', run[1..])
  }

  predicate Nondecreasing(run: seq<Timed>) {
    forall i :: 0 < i < |run| ==> run[i - 1].now <= run[i].now
  }

  lemma LiveLater(m: Db, t: nat, u: nat)
    requires t <= u
    ensures Live(Live(m, t), u) == Live(m, u)
  {}

  lemma StepAgrees(m: Db, e: Db, now: nat, c: Command)
    requires Live(m, now) == Live(e, now)
    ensures Lazy(m, now, c).0 == Eager(e, now, c).0
    ensures Live(Lazy(m, now, c).1, now) == Live(Eager(e, now, c).1, now)
  {
    var live := Live(e, now);
    LiveLater(e, now, now);
    var k := c.key;
    assert k in live <==> k in m && !Expired(m[k], now);
    match c
    case SetCmd(_, v, x) =>
      assert Live(m[k := Cell(v, x)], now) == Live(live[k := Cell(v, x)], now);
    case GetCmd(_) =>
      assert k in m && Expired(m[k], now) ==> Live(m - {k}, now) == Live(m, now);
    case ExistsCmd(_) =>
      assert k in m && Expired(m[k], now) ==> Live(m - {k}, now) == Live(m, now);
  }

  lemma {:induction false} RunsAgree(m: Db, e: Db, run: seq<Timed>)
    requires Nondecreasing(run)
    requires run != [] ==> Live(m, run[0].now) == Live(e, run[0].now)
    ensures LazyRun(m, run) == EagerRun(e, run)
    decreases run
  {
    if run != [] {
      var now, c := run[0].now, run[0].command;
      StepAgrees(m, e, now, c);
      var m', e' := Lazy(m, now, c).1, Eager(e, now, c).1;
      if |run| > 1 {
        LiveLater(m', now, run[1].now);
        LiveLater(e', now, run[1].now);
      }
      RunsAgree(m', e', run[1..]);
    }
  }

  /** Deleting expired entries only when they are read is invisible: over every run of SET, GET
      and EXISTS with a clock that never goes back, the replies are those of eager expiry. */
  lemma LazyRefinesEager(m: Db, run: seq<Timed>)
    requires Nondecreasing(run)
    ensures LazyRun(m, run) == EagerRun(m, run)
  {
    RunsAgree(m, m, run);
  }

  /** And it needs the clock: whenever time can step back, some run tells the two apart. */
  lemma ClockMustNotGoBack(t: nat, u: nat) returns (m: Db, run: seq<Timed>)
    requires u < t
    ensures |run| == 2 && run[0].now == t && run[1].now == u
    ensures LazyRun(m, run) != EagerRun(m, run)
  {
    m := map["k" := Cell("v", t)];
    var first, second := GetCmd("j"), GetCmd("k");
    run := [Timed(t, first), Timed(u, second)];
    assert run[1..] == [Timed(u, second)];
    assert Lazy(m, t, first).1 == m;
    assert Live(m, t) == map[];
    assert LazyRun(m, run)[1] == LazyRun(m, [Timed(u, second)])[0] == Value(Some("v"));
    assert EagerRun(m, run)[1] == EagerRun(Live(m, t), [Timed(u, second)])[0] == Value(None);
  }

  // ----- where the code is not eager -----

  /** DEL does not look at the expiry: its reply is the eager one exactly when the key is not a
      stored expired one. The stores agree in any case. */
  lemma DelAgreesIff(m: Db, key: string, now: nat)
    ensures Del(m, key).0 == Del(Live(m, now), key).0 <==> !(key in m && Expired(m[key], now))
    ensures Live(Del(m, key).1, now) == Del(Live(m, now), key).1
  {}

  /** INCR neither: reply and live store are the eager ones exactly when the key is not a stored
      expired one. */
  lemma IncrAgreesIff(next: string -> Increment, m: Db, key: string, now: nat)
    ensures IncrWith(next, m, key).0 == IncrWith(next, Live(m, now), key).0
         && Live(IncrWith(next, m, key).1, now) == Live(IncrWith(next, Live(m, now), key).1, now)
        <==> !(key in m && Expired(m[key], now))
  {
    var live := Live(m, now);
    var a, b := IncrWith(next, m, key), IncrWith(next, live, key);
    if key in m && Expired(m[key], now) {
      assert b.1[key] == Cell("1", 0);
      assert key in Live(b.1, now);
      assert key !in Live(a.1, now);
    } else {
      assert key in m ==> live[key] == m[key];
      assert Live(a.1, now) == Live(b.1, now);
    }
  }

  /** Read back at the same time, an INCR is seen exactly when the key was not a stored expired
      one: eager expiry would have started it afresh. */
  lemma IncrSeenIff(m: Db, key: string, now: nat)
    ensures Get(Incr(m, key).1, key, now).0 == Get(Incr(Live(m, now), key).1, key, now).0
        <==> !(key in m && Expired(m[key], now))
  {
    var live := Live(m, now);
    if key in m && Expired(m[key], now) {
      assert Get(Incr(live, key).1, key, now).0 == Some("1");
      assert Expired(Incr(m, key).1[key], now);
    } else if key in m {
      assert live[key] == m[key];
    }
  }

  // ----- counting with INCR -----

  /** The text of an int is a number, and atoi gives the int back. */
  lemma TextIsNumber(i: int)
    requires INT_MIN <= i <= INT_MAX
    ensures IsNumber(Text(i)) && Atoi(Text(i)) == i
  {
    StrtolText(i, "");
    assert Text(i) + "" == Text(i);
  }

  /** A stored int below INT_MAX, however it is spelled, becomes the plain text of the next one,
      an int again; its expiry and every other key stay. A value that is no int leaves the store
      alone, and at INT_MAX the addition overflows. */
  lemma IncrIsSuccessor(m: Db, key: string)
    requires key in m
    ensures var v := m[key].value;
      && (!IsNumber(v) ==> Incr(m, key) == (Refused, m))
      && (IsNumber(v) && Atoi(v) == INT_MAX ==> Incr(m, key) == (Overflow, m))
      && (IsNumber(v) && Atoi(v) != INT_MAX ==>
          var text := Text(Atoi(v) + 1);
          && Incr(m, key) == (Done(text), m[key := Cell(text, m[key].expiresAt)])
          && IsNumber(text) && Atoi(text) == Atoi(v) + 1)
  {
    var v := m[key].value;
    if IsNumber(v) && Atoi(v) != INT_MAX {
      TextIsNumber(Atoi(v) + 1);
    }
  }

  function IncrTimes(next: string -> Increment, m: Db, key: string, n: nat): Db {
    if n == 0 then m else IncrWith(next, IncrTimes(next, m, key, n - 1), key).1
  }

  lemma {:induction false} IncrSteps(next: string -> Increment, text: int -> string, m: Db, key: string, n: nat)
    requires key !in m && n > 0 && text(1) == "1"
    requires forall i :: 0 < i < n ==> next(text(i)) == Done(text(i + 1))
    ensures IncrTimes(next, m, key, n) == m[key := Cell(text(n), 0)]
  {
    if n == 1 {
      assert IncrTimes(next, m, key, 0) == m;
    } else {
      IncrSteps(next, text, m, key, n - 1);
      assert next(text(n - 1)) == Done(text(n - 1 + 1));
    }
  }

  /** n INCRs on a missing key store the decimal text of n, with no expiry. */
  lemma {:induction false} IncrCounts(m: Db, key: string, n: nat)
    requires key !in m && 0 < n <= INT_MAX
    ensures IncrTimes(NextText, m, key, n) == m[key := Cell(Text(n), 0)]
  {
    assert Text(1) == "1";
    forall i | 0 < i < n ensures NextText(Text(i)) == Done(Text(i + 1)) {
      TextIsNumber(i);
    }
    IncrSteps(NextText, Text, m, key, n);
  }

  // ----- the code -----

  class Store {
    const table: HashTable.Table<Cell>

    ghost predicate Valid()
      reads this, table, table.heads, table.repr
    {
      table.Valid()
    }

    /** The map the table stands for. */
    ghost function Db(): Db
      requires Valid()
      reads this, table, table.heads, table.repr
    {
      Chains.Contents(table.view)
    }

    constructor ()
      ensures Valid() && fresh(table) && fresh(table.heads) && fresh(table.repr)
      ensures Db() == map[] && table.heads.Length == 1000
    {
      table := new HashTable.Table(HASH_SIZE);
      new;
      assert Chains.Keys(table.view) == {};
    }

    /** install under the lock: db_set_ex, and db_set with no expiry. */
    method SetExpiring(key: string, value: string, expiresAt: nat)
      requires Valid()
      modifies table, table.heads, table.repr
      ensures Valid() && fresh(table.repr - old(table.repr))
      ensures Db() == SetEx(old(Db()), key, value, expiresAt)
    {
      Chains.SetIsUpdate(table.view, key, Cell(value, expiresAt));
      table.Install(key, Cell(value, expiresAt));
    }

    /** db_get at time `now`. */
    method Fetch(key: string, now: nat) returns (copy: Option<string>)
      requires Valid()
      modifies table, table.heads, table.repr
      ensures Valid() && fresh(table.repr - old(table.repr))
      ensures (copy, Db()) == Get(old(Db()), key, now)
    {
      var p, j := table.Lookup(key);
      Chains.GetIsLookup(table.view, key);
      if p == null {
        copy := None;
      } else if Expired(p.value, now) {
        Chains.RemoveIsMinus(table.view, key);
        var removed := table.Undef(key);
        copy := None;
      } else {
        copy := Some(p.value.value);
      }
    }

    /** db_del. */
    method Delete(key: string) returns (removed: bool)
      requires Valid()
      modifies table, table.heads, table.repr
      ensures Valid() && fresh(table.repr - old(table.repr))
      ensures (removed, Db()) == Del(old(Db()), key)
    {
      Chains.RemoveIsMinus(table.view, key);
      Chains.GetIsLookup(table.view, key);
      removed := table.Undef(key);
    }

    /** db_incr. */
    method Increment(key: string) returns (result: Increment)
      requires Valid()
      modifies table, table.heads, table.repr
      ensures Valid() && fresh(table.repr - old(table.repr))
      ensures (result, Db()) == Incr(old(Db()), key)
    {
      var p, j := table.Lookup(key);
      Chains.GetIsLookup(table.view, key);
      if p == null {
        SetExpiring(key, "1", 0);
        result := Done("1");
      } else {
        result := NextText(p.value.value);
        if result.Done? {
          SetExpiring(key, result.text, p.value.expiresAt);
        }
      }
    }
  }
}
