/** Runs of requests to the server of 8. redis server/redis_clone/src: deleting expired keys only
    when they are read, against dropping them at once. */
module RedisRuns {
  import opened Framing
  import opened Decimal
  import opened Resp
  import opened RedisStore
  import opened RedisCommands

  // ----- runs of requests, lazily and eagerly -----

  /** The text of a request, and the time read while each of its arguments is handled. */
  datatype Message = Message(clock: nat -> nat, text: string)

  /** A request as parse reads it. */
  datatype Arrival = Arrival(clock: nat -> nat, request: Parsed)

  function Read(msg: Message): Arrival {
    Arrival(msg.clock, ParseText(msg.text))
  }

  function ReadAll(msgs: seq<Message>): (run: seq<Arrival>)
    ensures |run| == |msgs| && forall i :: 0 <= i < |msgs| ==> run[i] == Read(msgs[i])
  {
    seq(|msgs|, i requires 0 <= i < |msgs| => Read(msgs[i]))
  }

  /** The time of a request: what its GET or EXISTS would read. */
  function Time(a: Arrival): nat { a.clock(1) }

  predicate InOrder(run: seq<Arrival>) {
    forall i :: 0 < i < |run| ==> Time(run[i - 1]) <= Time(run[i])
  }

  /** What the server makes of a request on a store. */
  function React(m: Db, a: Arrival): (Reaction, Db) {
    ExecParsed(m, a.request, a.clock)
  }

  /** What a server that reacts like this does with a run of requests; an exit or an undefined step
      ends it. */
  function Serve(react: (Db, Arrival) -> (Reaction, Db), m: Db, run: seq<Arrival>): seq<Reaction>
    decreases |run|
  {
    if |run| == 0 then []
    else
      var (r, m') := react(m, run[0]);
      [r] + if r.Sent? then Serve(react, m', run[1..]) else []
  }

  /** The same with every expired entry dropped before each request. */
  function ServeEagerly(react: (Db, Arrival) -> (Reaction, Db), m: Db, run: seq<Arrival>): seq<Reaction>
    decreases |run|
  {
    if |run| == 0 then []
    else
      var (r, m') := react(Live(m, Time(run[0])), run[0]);
      [r] + if r.Sent? then ServeEagerly(react, m', run[1..]) else []
  }

  /** The words of a request that is a command given as an array. */
  function CommandWords(request: Parsed): Option<seq<string>> {
    match request
    case Ok(Array(count, items)) => if 0 < count == |items| then Some(items) else None
    case _ => None
  }

  predicate Stale(m: Db, key: string, now: nat) {
    key in m && Expired(m[key], now)
  }

  predicate DelHits(m: Db, args: seq<string>, now: nat)
    requires args != []
  {
    VerbOf(args[0]) == Deletes && exists k :: 1 <= k < |args| && Stale(m, args[k], now)
  }

  predicate IncrHits(m: Db, args: seq<string>, now: nat)
    requires args != []
  {
    VerbOf(args[0]) == Counts && |args| > 1 && Stale(m, args[1], now)
  }

  /** The request is a DEL that lists a stored expired key. */
  predicate DelMeetsStale(m: Db, a: Arrival) {
    var words := CommandWords(a.request);
    words.Some? && words.value != [] && DelHits(m, words.value, Time(a))
  }

  /** The request is an INCR of a stored expired key. */
  predicate IncrMeetsStale(m: Db, a: Arrival) {
    var words := CommandWords(a.request);
    words.Some? && words.value != [] && IncrHits(m, words.value, Time(a))
  }

  /** Some request of the run, when the server comes to it, is hit. */
  predicate Meets(react: (Db, Arrival) -> (Reaction, Db), hit: (Db, Arrival) -> bool, m: Db, run: seq<Arrival>)
    decreases |run|
  {
    |run| > 0 &&
    (hit(m, run[0]) ||
      var (r, m') := react(m, run[0]);
      r.Sent? && Meets(react, hit, m', run[1..]))
  }

  lemma ServeNext(react: (Db, Arrival) -> (Reaction, Db), done: seq<Reaction>, m: Db, run: seq<Arrival>, i: nat)
    requires i < |run|
    ensures var (r, m') := react(m, run[i]);
      && (r.Sent? ==> (done + [r]) + Serve(react, m', run[i + 1..]) == done + Serve(react, m, run[i..]))
      && (!r.Sent? ==> done + [r] == done + Serve(react, m, run[i..]))
  {
    var (r, m') := react(m, run[i]);
    assert run[i..][1..] == run[i + 1..];
    assert [r] + [] == [r];
    Associates(done, [r], Serve(react, m', run[i + 1..]));
  }

  /** exec_command on the message that is next. */
  method ServeOne(store: Store, msg: Message, ghost done: seq<Reaction>, ghost run: seq<Arrival>, ghost i: nat)
    returns (r: Reaction)
    requires store.Valid() && i < |run| && Read(msg) == run[i]
    modifies store.table, store.table.heads, store.table.repr
    ensures store.Valid() && fresh(store.table.repr - old(store.table.repr))
    ensures r.Sent? ==> (done + [r]) + Serve(React, store.Db(), run[i + 1..]) == done + Serve(React, old(store.Db()), run[i..])
    ensures !r.Sent? ==> done + [r] == done + Serve(React, old(store.Db()), run[i..])
  {
    ghost var m := store.Db();
    r := ExecCommand(store, msg.text, msg.clock);
    ServeNext(React, done, m, run, i);
  }

  /** per_client: one message after another, on the heap store. */
  method ServeAll(store: Store, msgs: seq<Message>) returns (rs: seq<Reaction>)
    requires store.Valid()
    modifies store.table, store.table.heads, store.table.repr
    ensures store.Valid() && rs == Serve(React, old(store.Db()), ReadAll(msgs))
  {
    rs := [];
    ghost var run := ReadAll(msgs);
    assert run[0..] == run;
    for i := 0 to |msgs|
      invariant store.Valid() && fresh(store.table.repr - old(store.table.repr))
      invariant rs + Serve(React, store.Db(), run[i..]) == Serve(React, old(store.Db()), run)
    {
      var r := ServeOne(store, msgs[i], rs, run, i);
      rs := rs + [r];
      if !r.Sent? {
        return;
      }
    }
  }

  lemma SetAgrees(m: Db, args: seq<string>, clock: nat -> nat, now: nat)
    ensures ExecSet(m, args, clock).0 == ExecSet(Live(m, now), args, clock).0
    ensures Live(ExecSet(m, args, clock).1, now) == Live(ExecSet(Live(m, now), args, clock).1, now)
  {
    LiveLater(m, now, now);
    if |args| >= 3 {
      match ReadOptions(args, 3, 0, clock)
      case Bad(_) =>
      case Good(e) => StepAgrees(m, m, now, SetCmd(args[1], args[2], e));
    }
  }

  lemma GetAgrees(m: Db, key: string, now: nat)
    ensures Get(m, key, now).0 == Get(Live(m, now), key, now).0
    ensures Live(Get(m, key, now).1, now) == Live(Get(Live(m, now), key, now).1, now)
  {
    StepAgrees(m, m, now, GetCmd(key));
    LiveLater(m, now, now);
  }

  lemma LiveMinus(m: Db, keys: set<string>, now: nat)
    ensures Live(m - keys, now) == Live(Live(m, now) - keys, now)
  {}

  lemma FewerKeys(big: set<string>, small: set<string>)
    requires small <= big
    ensures |small| == |big| <==> small == big
  {
    assert big == small + (big - small);
  }

  lemma {:induction false} IntegerRepliesDiffer(i: nat, j: nat)
    ensures IntegerReply(i) == IntegerReply(j) <==> i == j
  {
    if IntegerReply(i) == IntegerReply(j) {
      Parts(":" + Text(i), CRLF);
      Parts(":" + Text(j), CRLF);
      assert |IntegerReply(i)| == |Text(i)| + 3 && |IntegerReply(j)| == |Text(j)| + 3;
      assert Text(i) == (":" + Text(i))[1..] == (":" + Text(j))[1..] == Text(j);
      NumberDigits(i);
      NumberDigits(j);
    }
  }

  lemma DelTextsDiffer(single: bool, i: nat, j: nat)
    requires single ==> i <= 1 && j <= 1
    ensures DelText(single, i) == DelText(single, j) <==> i == j
  {
    IntegerRepliesDiffer(i, j);
    assert Simple("OK")[0] == '+' && IntegerReply(i)[0] == IntegerReply(j)[0] == ':';
  }

  lemma AtMostOne(stored: set<string>, args: seq<string>)
    requires |args| == 2
    ensures |stored * KeySet(args[1..])| <= 1
  {
    SingleKey(args);
    OneCommon(stored, args[1]);
  }

  /** The replies of DEL on a store and on what is live of it agree exactly when no listed key is
      stored and expired. */
  lemma {:induction false} DelRepliesAgreeIff(m: Db, args: seq<string>, now: nat)
    requires args != []
    ensures ExecDel(m, args).0 == ExecDel(Live(m, now), args).0
      <==> forall k :: 1 <= k < |args| ==> !Stale(m, args[k], now)
    ensures Live(ExecDel(m, args).1, now) == Live(ExecDel(Live(m, now), args).1, now)
  {
    var live, keys := Live(m, now), KeySet(args[1..]);
    DelAnswers(m, args);
    DelAnswers(live, args);
    LiveMinus(m, keys, now);
    ListedIff(m, args, now);
    FewerKeys(m.Keys * keys, live.Keys * keys);
    if |args| == 2 {
      AtMostOne(m.Keys, args);
      AtMostOne(live.Keys, args);
    }
    DelTextsDiffer(|args| == 2, |m.Keys * keys|, |live.Keys * keys|);
  }

  lemma ListedIff(m: Db, args: seq<string>, now: nat)
    requires args != []
    ensures (forall k :: 1 <= k < |args| ==> !Stale(m, args[k], now))
      <==> m.Keys * KeySet(args[1..]) == Live(m, now).Keys * KeySet(args[1..])
  {
    var keys := KeySet(args[1..]);
    forall k | 1 <= k < |args| ensures args[k] in keys {
      assert args[1..][k - 1] == args[k];
    }
    if forall k :: 1 <= k < |args| ==> !Stale(m, args[k], now) {
      forall x | x in m.Keys * keys ensures x in Live(m, now) {
        var k :| 0 <= k < |args[1..]| && args[1..][k] == x;
        assert args[k + 1] == x;
      }
    }
    if m.Keys * keys == Live(m, now).Keys * keys {
      forall k | 1 <= k < |args| ensures !Stale(m, args[k], now) {
        assert args[k] in m ==> args[k] in m.Keys * keys;
      }
    }
  }

  lemma VerbAgreesIff(verb: Verb, m: Db, args: seq<string>, clock: nat -> nat)
    requires args != [] && !(verb == Counts && |args| > 1 && Stale(m, args[1], clock(1)))
    ensures var a, b := ExecVerb(verb, m, args, clock), ExecVerb(verb, Live(m, clock(1)), args, clock);
      && (a.0 == b.0 <==> !(verb == Deletes && exists k :: 1 <= k < |args| && Stale(m, args[k], clock(1))))
      && Live(a.1, clock(1)) == Live(b.1, clock(1))
  {
    var now := clock(1);
    LiveLater(m, now, now);
    match verb {
      case Sets => SetAgrees(m, args, clock, now);
      case Deletes => DelRepliesAgreeIff(m, args, now);
      case Gets => if |args| > 1 { GetAgrees(m, args[1], now); }
      case Tests => if |args| > 1 { GetAgrees(m, args[1], now); }
      case Counts => if |args| > 1 { IncrAgreesIff(NextText, m, args[1], now); }
      case _ =>
    }
  }

  lemma RequestAgreesIff(m: Db, a: Arrival)
    requires !IncrMeetsStale(m, a)
    ensures var x, y := React(m, a), React(Live(m, Time(a)), a);
      && (x.0 == y.0 <==> !DelMeetsStale(m, a))
      && Live(x.1, Time(a)) == Live(y.1, Time(a))
  {
    LiveLater(m, Time(a), Time(a));
    var words := CommandWords(a.request);
    if words.Some? {
      VerbAgreesIff(VerbOf(words.value[0]), m, words.value, a.clock);
    }
  }

  /** One request shows the difference in its reaction exactly when it is hit, and leaves the same
      live store in any case, unless it is barred. */
  ghost predicate ShowsWhenHit(react: (Db, Arrival) -> (Reaction, Db), bar: (Db, Arrival) -> bool, hit: (Db, Arrival) -> bool, m: Db, a: Arrival) {
    !bar(m, a) ==>
      var x, y := react(m, a), react(Live(m, Time(a)), a);
      (x.0 == y.0 <==> !hit(m, a)) && Live(x.1, Time(a)) == Live(y.1, Time(a))
  }

  lemma {:induction false} RunsServedAlikeIff(react: (Db, Arrival) -> (Reaction, Db), bar: (Db, Arrival) -> bool, hit: (Db, Arrival) -> bool,
      m: Db, e: Db, run: seq<Arrival>)
    requires forall d, a :: ShowsWhenHit(react, bar, hit, d, a)
    requires InOrder(run) && !Meets(react, bar, m, run)
    requires |run| > 0 ==> Live(m, Time(run[0])) == Live(e, Time(run[0]))
    ensures Serve(react, m, run) == ServeEagerly(react, e, run) <==> !Meets(react, hit, m, run)
    decreases |run|
  {
    if |run| > 0 {
      var a, rest := run[0], run[1..];
      assert ShowsWhenHit(react, bar, hit, m, a);
      var (x, m') := react(m, a);
      var (y, e') := react(Live(e, Time(a)), a);
      assert Serve(react, m, run)[0] == x && ServeEagerly(react, e, run)[0] == y;
      if x == y && x.Sent? {
        if |rest| > 0 {
          LiveLater(m', Time(a), Time(rest[0]));
          LiveLater(e', Time(a), Time(rest[0]));
        }
        RunsServedAlikeIff(react, bar, hit, m', e', rest);
        assert Serve(react, m, run)[1..] == Serve(react, m', rest);
        assert ServeEagerly(react, e, run)[1..] == ServeEagerly(react, e', rest);
      }
    }
  }

  /** Over any run of requests whatever, as read from any texts, with a clock that never goes back and no INCR that
      meets a stored expired key, the server's replies are those of eager expiry if and only if
      no DEL lists a stored expired key. */
  lemma {:induction false} ServesAlikeIff(m: Db, run: seq<Arrival>)
    requires InOrder(run) && !Meets(React, IncrMeetsStale, m, run)
    ensures Serve(React, m, run) == ServeEagerly(React, m, run) <==> !Meets(React, DelMeetsStale, m, run)
  {
    forall d, a ensures ShowsWhenHit(React, IncrMeetsStale, DelMeetsStale, d, a) {
      if !IncrMeetsStale(d, a) {
        RequestAgreesIff(d, a);
      }
    }
    RunsServedAlikeIff(React, IncrMeetsStale, DelMeetsStale, m, m, run);
  }

  // ----- replies and stores observed together -----

  /** What can be seen of a run: each reaction, and what is live of the store after it. */
  function Watch(react: (Db, Arrival) -> (Reaction, Db), m: Db, run: seq<Arrival>): seq<(Reaction, Db)>
    decreases |run|
  {
    if |run| == 0 then []
    else
      var (r, m') := react(m, run[0]);
      [(r, Live(m', Time(run[0])))] + if r.Sent? then Watch(react, m', run[1..]) else []
  }

  function WatchEagerly(react: (Db, Arrival) -> (Reaction, Db), m: Db, run: seq<Arrival>): seq<(Reaction, Db)>
    decreases |run|
  {
    if |run| == 0 then []
    else
      var (r, m') := react(Live(m, Time(run[0])), run[0]);
      [(r, Live(m', Time(run[0])))] + if r.Sent? then WatchEagerly(react, m', run[1..]) else []
  }

  /** The request is a DEL that lists, or an INCR of, a stored expired key. */
  predicate MeetsStale(m: Db, a: Arrival) {
    DelMeetsStale(m, a) || IncrMeetsStale(m, a)
  }

  /** An INCR of a stored expired key leaves it expired, where eager expiry leaves it live. */
  lemma IncrLeavesMark(m: Db, args: seq<string>, clock: nat -> nat)
    requires |args| > 1 && Stale(m, args[1], clock(1))
    ensures Live(ExecVerb(Counts, m, args, clock).1, clock(1)) != Live(ExecVerb(Counts, Live(m, clock(1)), args, clock).1, clock(1))
  {
    var now, key := clock(1), args[1];
    assert Incr(Live(m, now), key).1[key] == Cell("1", 0);
    assert key in Live(Incr(Live(m, now), key).1, now);
    assert Expired(Incr(m, key).1[key], now);
  }

  lemma RequestSeenIff(m: Db, a: Arrival)
    ensures var x, y := React(m, a), React(Live(m, Time(a)), a);
      x.0 == y.0 && Live(x.1, Time(a)) == Live(y.1, Time(a)) <==> !MeetsStale(m, a)
  {
    if IncrMeetsStale(m, a) {
      IncrLeavesMark(m, CommandWords(a.request).value, a.clock);
    } else {
      RequestAgreesIff(m, a);
    }
  }

  /** One request is seen to differ, in reaction or live store, exactly when it is hit. */
  ghost predicate SeenWhenHit(react: (Db, Arrival) -> (Reaction, Db), hit: (Db, Arrival) -> bool, m: Db, a: Arrival) {
    var x, y := react(m, a), react(Live(m, Time(a)), a);
    x.0 == y.0 && Live(x.1, Time(a)) == Live(y.1, Time(a)) <==> !hit(m, a)
  }

  lemma {:induction false} RunsSeenAlikeIff(react: (Db, Arrival) -> (Reaction, Db), hit: (Db, Arrival) -> bool, m: Db, e: Db, run: seq<Arrival>)
    requires forall d, a :: SeenWhenHit(react, hit, d, a)
    requires InOrder(run)
    requires |run| > 0 ==> Live(m, Time(run[0])) == Live(e, Time(run[0]))
    ensures Watch(react, m, run) == WatchEagerly(react, e, run) <==> !Meets(react, hit, m, run)
    decreases |run|
  {
    if |run| > 0 {
      var a, rest := run[0], run[1..];
      assert SeenWhenHit(react, hit, m, a);
      var (x, m') := react(m, a);
      var (y, e') := react(Live(e, Time(a)), a);
      var p, q := (x, Live(m', Time(a))), (y, Live(e', Time(a)));
      assert Watch(react, m, run)[0] == p && WatchEagerly(react, e, run)[0] == q;
      if p == q && x.Sent? {
        if |rest| > 0 {
          LiveLater(m', Time(a), Time(rest[0]));
          LiveLater(e', Time(a), Time(rest[0]));
        }
        RunsSeenAlikeIff(react, hit, m', e', rest);
        assert Watch(react, m, run)[1..] == Watch(react, m', rest);
        assert WatchEagerly(react, e, run)[1..] == WatchEagerly(react, e', rest);
      }
    }
  }

  /** Over any run of requests whatever, as read from any texts, with a clock that never goes back: replies and live
      stores are, step by step, those of eager expiry if and only if no DEL lists and no INCR
      counts on a stored expired key. */
  lemma {:induction false} SeenAlikeIff(m: Db, run: seq<Arrival>)
    requires InOrder(run)
    ensures Watch(React, m, run) == WatchEagerly(React, m, run) <==> !Meets(React, MeetsStale, m, run)
  {
    forall d, a ensures SeenWhenHit(React, MeetsStale, d, a) {
      RequestSeenIff(d, a);
    }
    RunsSeenAlikeIff(React, MeetsStale, m, m, run);
  }

  // ----- requests that leave expiry alone -----

  /** The request is neither DEL nor INCR. */
  predicate LeavesExpiryAlone(a: Arrival) {
    var words := CommandWords(a.request);
    words.Some? && words.value != [] ==> VerbOf(words.value[0]) != Deletes && VerbOf(words.value[0]) != Counts
  }

  lemma {:induction false} NothingMet(react: (Db, Arrival) -> (Reaction, Db), hit: (Db, Arrival) -> bool, m: Db, run: seq<Arrival>)
    requires forall i, d :: 0 <= i < |run| ==> !hit(d, run[i])
    ensures !Meets(react, hit, m, run)
    decreases |run|
  {
    if |run| > 0 {
      NothingMet(react, hit, react(m, run[0]).1, run[1..]);
    }
  }

  /** End to end: lazy expiry is invisible to clients. Over any run of requests other than DEL and
      INCR, valid or not, the replies are those of a store that drops every key the instant it
      expires. */
  lemma {:induction false} ExpiryInvisible(m: Db, run: seq<Arrival>)
    requires InOrder(run) && forall i :: 0 <= i < |run| ==> LeavesExpiryAlone(run[i])
    ensures Serve(React, m, run) == ServeEagerly(React, m, run)
  {
    NothingMet(React, IncrMeetsStale, m, run);
    NothingMet(React, DelMeetsStale, m, run);
    ServesAlikeIff(m, run);
  }

  // ----- requests as commands on a map -----

  /** The command a request stands for, in any spelling of name and options: a well-formed SET, a
      GET or an EXISTS. */
  function CommandOf(a: Arrival): Option<Command> {
    var words := CommandWords(a.request);
    if words.None? || |words.value| < 2 then None
    else
      var args := words.value;
      var verb := VerbOf(args[0]);
      if verb == Gets then Some(GetCmd(args[1]))
      else if verb == Tests then Some(ExistsCmd(args[1]))
      else if verb != Sets || |args| < 3 then None
      else
        var options := ReadOptions(args, 3, 0, a.clock);
        if options.Good? then Some(SetCmd(args[1], args[2], options.expiresAt)) else None
  }

  function ReplyText(r: Reply): string {
    match r
    case Stored => Simple("OK")
    case Value(v) => BulkReply(v)
    case Count(n) => IntegerReply(n)
  }

  function Replies(rs: seq<Reply>): seq<Reaction>
    decreases rs
  {
    if rs == [] then [] else [Sent(ReplyText(rs[0]))] + Replies(rs[1..])
  }

  /** The commands of a run, each at its time. */
  function Commands(run: seq<Arrival>): (ts: seq<Timed>)
    requires forall i :: 0 <= i < |run| ==> CommandOf(run[i]).Some?
    ensures |ts| == |run| && forall i :: 0 <= i < |run| ==> ts[i] == Timed(Time(run[i]), CommandOf(run[i]).value)
  {
    seq(|run|, i requires 0 <= i < |run| => Timed(Time(run[i]), CommandOf(run[i]).value))
  }

  lemma CommandRuns(m: Db, a: Arrival)
    ensures CommandOf(a).Some? ==>
      var (reply, m') := Lazy(m, Time(a), CommandOf(a).value);
      React(m, a) == (Sent(ReplyText(reply)), m')
  {
    NamesDiffer();
  }

  /** The server's replies to any run of such requests are those of the lazy store. */
  lemma {:induction false} ServeIsLazy(m: Db, run: seq<Arrival>)
    requires forall i :: 0 <= i < |run| ==> CommandOf(run[i]).Some?
    ensures Serve(React, m, run) == Replies(LazyRun(m, Commands(run)))
    decreases |run|
  {
    if |run| > 0 {
      var ts, rest := Commands(run), run[1..];
      var (reply, m') := Lazy(m, Time(run[0]), CommandOf(run[0]).value);
      assert ts[1..] == Commands(rest);
      CommandRuns(m, run[0]);
      ServeIsLazy(m', rest);
      assert LazyRun(m, ts)[1..] == LazyRun(m', ts[1..]);
    }
  }

  /** And so, with a clock that never goes back, those of a map that forgets a key the instant it
      expires. */
  lemma {:induction false} ServeIsEager(m: Db, run: seq<Arrival>)
    requires InOrder(run) && forall i :: 0 <= i < |run| ==> CommandOf(run[i]).Some?
    ensures Serve(React, m, run) == Replies(EagerRun(m, Commands(run)))
  {
    ServeIsLazy(m, run);
    LazyRefinesEager(m, Commands(run));
  }

  // ----- where the server is not eager -----

  /** Words that a request can announce the length of. */
  predicate Sendable(words: seq<string>) {
    words != [] && |words| <= INT_MAX && forall w :: w in words ==> |w| <= WORD_MAX
  }

  function At(now: nat): nat -> nat { _ => now }

  function ArrivalOf(words: seq<string>, now: nat): Arrival {
    Read(Message(At(now), Request(words)))
  }

  /** A SET with an absolute expiry. */
  function SetWords(k: string, v: string, e: nat): seq<string> {
    ["SET", k, v, "PXAT", Text(e)]
  }

  lemma PxatReads(k: string, v: string, e: nat, text: string, clock: nat -> nat)
    requires 0 < e <= LONG_MAX && Strtol(text).used == |text| && Strtol(text).value == e
    ensures ReadOptions(["SET", k, v, "PXAT", text], 3, 0, clock) == Good(e)
  {
    NamesDiffer();
    var args := ["SET", k, v, "PXAT", text];
    assert ReadOptions(args, 5, e, clock) == Good(e);
  }

  lemma SetStores(m: Db, k: string, v: string, e: nat, now: nat)
    requires 0 < e <= LONG_MAX && Sendable(SetWords(k, v, e))
    ensures var a := ArrivalOf(SetWords(k, v, e), now);
      React(m, a) == (Sent(Simple("OK")), m[k := Cell(v, e)])
  {
    VerbIs("SET");
    NamesDiffer();
    RequestExecutes(m, SetWords(k, v, e), At(now));
    StrtolText(e, "");
    assert Text(e) + "" == Text(e);
    PxatReads(k, v, e, Text(e), At(now));
  }

  lemma TwoRequests(react: (Db, Arrival) -> (Reaction, Db), m: Db, a: Arrival, b: Arrival)
    ensures var (r, m') := react(m, a);
      r.Sent? ==> Serve(react, m, [a, b]) == [r, react(m', b).0]
    ensures var (r, m') := react(Live(m, Time(a)), a);
      r.Sent? ==> ServeEagerly(react, m, [a, b]) == [r, react(Live(m', Time(b)), b).0]
  {
    assert [a, b][1..] == [b] && [b][1..] == [];
    ServeOnly(react, react(m, a).1, b);
    ServeOnly(react, react(Live(m, Time(a)), a).1, b);
  }

  lemma ServeOnly(react: (Db, Arrival) -> (Reaction, Db), m: Db, b: Arrival)
    ensures Serve(react, m, [b]) == [react(m, b).0] && ServeEagerly(react, m, [b]) == [react(Live(m, Time(b)), b).0]
  {
    assert [b][1..] == [];
    assert [react(m, b).0] + [] == [react(m, b).0];
  }

  /** From an empty store: a request that comes after a key was set and expired meets that key,
      where eager expiry shows it nothing. */
  lemma ExpiredThen(k: string, v: string, e: nat, t: nat, u: nat, words: seq<string>)
    requires 0 < e <= LONG_MAX && e <= u && Sendable(SetWords(k, v, e)) && Sendable(words)
    ensures var run := [ArrivalOf(SetWords(k, v, e), t), ArrivalOf(words, u)];
      && Serve(React, map[], run) == [Sent(Simple("OK")), ExecWords(map[k := Cell(v, e)], words, At(u)).0]
      && ServeEagerly(React, map[], run) == [Sent(Simple("OK")), ExecWords(map[], words, At(u)).0]
  {
    var a, b := ArrivalOf(SetWords(k, v, e), t), ArrivalOf(words, u);
    SetStores(map[], k, v, e, t);
    assert Live(map[], t) == map[];
    TwoRequests(React, map[], a, b);
    var m: Db := map[k := Cell(v, e)];
    assert map[][k := Cell(v, e)] == m && Live(m, u) == map[];
    RequestExecutes(m, words, b.clock);
    RequestExecutes(map[], words, b.clock);
  }

  /** From an empty store: a key set with an expiry and deleted after it is still reported as
      deleted, where eager expiry reports nothing to delete. */
  lemma {:induction false} DelOfExpired(k: string, v: string, e: nat, t: nat, u: nat)
    requires 0 < e <= LONG_MAX && e <= u && Sendable(SetWords(k, v, e))
    ensures var run := [ArrivalOf(SetWords(k, v, e), t), ArrivalOf(["DEL", k], u)];
      && Serve(React, map[], run) == [Sent(Simple("OK")), Sent(Simple("OK"))]
      && ServeEagerly(React, map[], run) == [Sent(Simple("OK")), Sent(IntegerReply(0))]
  {
    var del := ["DEL", k];
    assert k in SetWords(k, v, e);
    ExpiredThen(k, v, e, t, u, del);
    VerbIs("DEL");
    NamesDiffer();
    DelReplies(map[k := Cell(v, e)], del);
    DelReplies(map[], del);
  }

  lemma CountsOn(k: string, v: int, e: nat, clock: nat -> nat)
    requires INT_MIN <= v < INT_MAX
    ensures ExecWords(map[k := Cell(Text(v), e)], ["INCR", k], clock).0 == Sent(IntegerReply(v + 1))
  {
    var m: Db := map[k := Cell(Text(v), e)];
    VerbIs("INCR");
    NamesDiffer();
    TextIsNumber(v);
    IncrIsSuccessor(m, k);
  }

  lemma CountsAfresh(k: string, clock: nat -> nat)
    ensures ExecWords(map[], ["INCR", k], clock).0 == Sent(IntegerReply(1))
  {
    VerbIs("INCR");
    NamesDiffer();
    TextIsNumber(1);
    assert Text(1) == "1";
  }

  /** And an INCR of such a key counts on from the expired number, where eager expiry starts it
      at 1. */
  lemma {:induction false} IncrOfExpired(k: string, v: int, e: nat, t: nat, u: nat)
    requires INT_MIN <= v < INT_MAX && 0 < e <= LONG_MAX && e <= u && Sendable(SetWords(k, Text(v), e))
    ensures var run := [ArrivalOf(SetWords(k, Text(v), e), t), ArrivalOf(["INCR", k], u)];
      && Serve(React, map[], run) == [Sent(Simple("OK")), Sent(IntegerReply(v + 1))]
      && ServeEagerly(React, map[], run) == [Sent(Simple("OK")), Sent(IntegerReply(1))]
  {
    assert k in SetWords(k, Text(v), e);
    ExpiredThen(k, Text(v), e, t, u, ["INCR", k]);
    CountsOn(k, v, e, At(u));
    CountsAfresh(k, At(u));
  }
}
