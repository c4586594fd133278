/** exec_command of 8. redis server/redis_clone/src/server.c: from the text of a request to the
    text of the reply. */
module RedisCommands {
  import opened Framing
  import opened Decimal
  import opened Resp
  import opened RedisStore

  /** What the server does with a request: a reply, an exit, or something C leaves undefined. */
  datatype Reaction = Sent(reply: string) | Exited | Undefined

  const U64: nat := 0x1_0000_0000_0000_0000

  const UNKNOWN: string := "ERR unknown command"
  const SYNTAX: string := "ERR syntax error"
  const RANGE: string := "ERR value is not an integer or out of range"

  // ----- names without case -----

  function LowerChar(c: char): char {
    if 'A' <= c <= 'Z' then (c as int + 32) as char else c
  }

  function Lower(s: string): (r: string)
    ensures |r| == |s|
  {
    seq(|s|, i requires 0 <= i < |s| => LowerChar(s[i]))
  }

  /** strcasecmp(a, b) == 0. */
  predicate SameName(a: string, b: string) {
    Lower(a) == Lower(b)
  }

  lemma NamesDiffer()
    ensures Lower("PING") == "ping" && Lower("ECHO") == "echo" && Lower("SET") == "set" && Lower("GET") == "get"
    ensures Lower("EXISTS") == "exists" && Lower("DEL") == "del" && Lower("INCR") == "incr"
    ensures Lower("EX") == "ex" && Lower("PX") == "px" && Lower("EXAT") == "exat" && Lower("PXAT") == "pxat"
  {}

  // ----- SET -----

  datatype Options = Bad(err: string) | Good(expiresAt: nat)

  predicate IsOption(s: string) {
    SameName(s, "EX") || SameName(s, "PX") || SameName(s, "EXAT") || SameName(s, "PXAT")
  }

  /** A number strtoll does not take whole, or that is not positive. */
  predicate BadNumber(s: string) {
    Strtol(s).used != |s| || Strtol(s).value <= 0
  }

  /** The expiry an option asks for, in the unsigned 64-bit arithmetic of the source. */
  function ExpiryTime(option: string, n: nat, now: nat): nat {
    if SameName(option, "EX") then (now + n * 1000 % U64) % U64
    else if SameName(option, "PX") then (now + n) % U64
    else if SameName(option, "EXAT") then n * 1000 % U64
    else n % U64
  }

  /** The four options, in the arithmetic of unsigned 64-bit words. */
  lemma {:induction false} ExpiryTimeIs(option: string, n: nat, now: nat)
    ensures Lower(option) == "ex" ==> ExpiryTime(option, n, now) == (now + 1000 * n) % 18446744073709551616
    ensures Lower(option) == "px" ==> ExpiryTime(option, n, now) == (now + n) % 18446744073709551616
    ensures Lower(option) == "exat" ==> ExpiryTime(option, n, now) == 1000 * n % 18446744073709551616
    ensures Lower(option) == "pxat" ==> ExpiryTime(option, n, now) == n % 18446744073709551616
    ensures IsOption(option) <==>
      Lower(option) == "ex" || Lower(option) == "px" || Lower(option) == "exat" || Lower(option) == "pxat"
  {
    NamesDiffer();
  }

  /** A number is accepted exactly when it is blanks, at most one sign and digits, and positive; one
      beyond a long counts as the greatest long. */
  lemma {:induction false} BadNumberIff(s: string)
    ensures !BadNumber(s) <==> exists w, g, d :: Spells(s, w, g, d) && Signed(g, d) > 0
    ensures forall w, g, d :: Spells(s, w, g, d) && Signed(g, d) > 0 ==>
      Strtol(s).value == if Signed(g, d) > LONG_MAX then LONG_MAX else Signed(g, d)
  {
    forall w, g, d | Spells(s, w, g, d) ensures Strtol(s) == Outcome(Signed(g, d), |s|) {
      SpelledRead(s, w, g, d);
    }
    if !BadNumber(s) {
      var w, g, d := WholeIsSpelled(s);
    }
  }

  /** The option loop of SET from argument i; clock(i) is the time read while handling it. */
  function ReadOptions(args: seq<string>, i: nat, expiresAt: nat, clock: nat -> nat): Options
    decreases |args| - i
  {
    if i >= |args| then Good(expiresAt)
    else if !IsOption(args[i]) || i + 1 >= |args| then Bad(SYNTAX)
    else if BadNumber(args[i + 1]) then Bad(RANGE)
    else ReadOptions(args, i + 2, ExpiryTime(args[i], Strtol(args[i + 1]).value, clock(i)), clock)
  }

  /** Argument k, in option position, spoils the command. */
  predicate Spoils(args: seq<string>, k: nat)
    requires k < |args|
  {
    !IsOption(args[k]) || k + 1 >= |args| || BadNumber(args[k + 1])
  }

  /** Some argument in option position, counted from i by twos, spoils the command. */
  ghost predicate Malformed(args: seq<string>, i: nat) {
    exists k :: i <= k < |args| && (k - i) % 2 == 0 && Spoils(args, k)
  }

  /** The options are refused exactly when one of them anywhere is malformed; otherwise the last
      one decides, and with none the key never expires. */
  lemma {:induction false} OptionsRefusedIff(args: seq<string>, i: nat, expiresAt: nat, clock: nat -> nat)
    requires i <= |args|
    ensures ReadOptions(args, i, expiresAt, clock).Bad? <==> Malformed(args, i)
    ensures !Malformed(args, i) && i == |args| ==> ReadOptions(args, i, expiresAt, clock) == Good(expiresAt)
    ensures !Malformed(args, i) && i < |args| ==>
      && i + 1 < |args| && !BadNumber(args[|args| - 1])
      && ReadOptions(args, i, expiresAt, clock)
         == Good(ExpiryTime(args[|args| - 2], Strtol(args[|args| - 1]).value, clock(|args| - 2)))
    decreases |args| - i
  {
    if i < |args| {
      if Spoils(args, i) {
        assert (i - i) % 2 == 0;
        assert Malformed(args, i);
      } else {
        var e := ExpiryTime(args[i], Strtol(args[i + 1]).value, clock(i));
        assert ReadOptions(args, i, expiresAt, clock) == ReadOptions(args, i + 2, e, clock);
        SpoilsLater(args, i);
        OptionsRefusedIff(args, i + 2, e, clock);
      }
    }
  }

  lemma SpoilsLater(args: seq<string>, i: nat)
    requires i < |args| && !Spoils(args, i)
    ensures Malformed(args, i) <==> Malformed(args, i + 2)
  {
    if Malformed(args, i) {
      var k :| i <= k < |args| && (k - i) % 2 == 0 && Spoils(args, k);
      assert k != i && k != i + 1;
      assert (k - (i + 2)) % 2 == 0;
    }
    if Malformed(args, i + 2) {
      var k :| i + 2 <= k < |args| && (k - (i + 2)) % 2 == 0 && Spoils(args, k);
      assert (k - i) % 2 == 0;
    }
  }

  function WrongArguments(name: string): string {
    Failure("ERR wrong number of arguments for '" + name + "'")
  }

  function ExecSet(m: Db, args: seq<string>, clock: nat -> nat): (Reaction, Db) {
    if |args| < 3 then (Sent(WrongArguments("set")), m)
    else match ReadOptions(args, 3, 0, clock)
      case Bad(err) => (Sent(Failure(err)), m)
      case Good(e) => (Sent(Simple("OK")), SetEx(m, args[1], args[2], e))
  }

  /** SET is all or nothing: a malformed option anywhere leaves the store as it was and replies
      an error; otherwise the value is stored, with the expiry of the last option. */
  lemma SetAllOrNothing(m: Db, args: seq<string>, clock: nat -> nat)
    requires |args| >= 3
    ensures Malformed(args, 3) ==>
      var (r, m') := ExecSet(m, args, clock);
      m' == m && (r == Sent(Failure(SYNTAX)) || r == Sent(Failure(RANGE)))
    ensures !Malformed(args, 3) ==>
      var e := if |args| == 3 then 0
               else ExpiryTime(args[|args| - 2], Max0(Strtol(args[|args| - 1]).value), clock(|args| - 2));
      ExecSet(m, args, clock) == (Sent(Simple("OK")), m[args[1] := Cell(args[2], e)])
  {
    OptionsRefusedIff(args, 3, 0, clock);
    ErrorsAre(args, 3, 0, clock);
  }

  function Max0(i: int): nat { if i < 0 then 0 else i }

  lemma {:induction false} ErrorsAre(args: seq<string>, i: nat, expiresAt: nat, clock: nat -> nat)
    ensures var o := ReadOptions(args, i, expiresAt, clock); o.Bad? ==> o.err == SYNTAX || o.err == RANGE
    decreases |args| - i
  {
    if i + 1 < |args| && IsOption(args[i]) && !BadNumber(args[i + 1]) {
      ErrorsAre(args, i + 2, ExpiryTime(args[i], Strtol(args[i + 1]).value, clock(i)), clock);
    }
  }

  // ----- DEL -----

  /** DEL's loop: how many deletions found their key, and the store left. */
  function DelAll(m: Db, keys: seq<string>): (nat, Db)
    decreases keys
  {
    if keys == [] then (0, m)
    else
      var (found, rest) := Del(m, keys[0]);
      var (n, m') := DelAll(rest, keys[1..]);
      ((if found then 1 else 0) + n, m')
  }

  function KeySet(keys: seq<string>): set<string> {
    set k | k in keys
  }

  lemma KeySetSplit(keys: seq<string>)
    requires keys != []
    ensures KeySet(keys) == {keys[0]} + KeySet(keys[1..])
  {
    assert keys == [keys[0]] + keys[1..];
  }

  lemma CommonKeys(stored: set<string>, k: string, rest: set<string>)
    ensures |stored * ({k} + rest)| == (if k in stored then 1 else 0) + |(stored - {k}) * rest|
  {
    var later := (stored - {k}) * rest;
    if k in stored {
      assert stored * ({k} + rest) == {k} + later;
    } else {
      assert stored * ({k} + rest) == later;
    }
  }

  lemma MinusTwice(m: Db, a: set<string>, b: set<string>)
    ensures (m - a) - b == m - (a + b) && (m - a).Keys == m.Keys - a
  {}

  /** Over any list with repeats DEL removes exactly the listed keys. */
  lemma {:induction false} DelRemovesListed(m: Db, keys: seq<string>)
    ensures DelAll(m, keys).1 == m - KeySet(keys)
    decreases keys
  {
    if keys == [] {
      assert KeySet(keys) == {} && m - {} == m;
    } else {
      KeySetSplit(keys);
      MinusTwice(m, {keys[0]}, KeySet(keys[1..]));
      DelRemovesListed(m - {keys[0]}, keys[1..]);
    }
  }

  /** And it counts the distinct listed keys that were stored. */
  lemma {:induction false} DelCountsDistinct(m: Db, keys: seq<string>)
    ensures DelAll(m, keys).0 == |m.Keys * KeySet(keys)|
    decreases keys
  {
    if keys == [] {
      assert KeySet(keys) == {} && m.Keys * {} == {};
    } else {
      KeySetSplit(keys);
      MinusTwice(m, {keys[0]}, {});
      CommonKeys(m.Keys, keys[0], KeySet(keys[1..]));
      DelCountsDistinct(m - {keys[0]}, keys[1..]);
    }
  }

  function DelText(single: bool, n: nat): string {
    if single && n > 0 then Simple("OK") else IntegerReply(n)
  }

  /** One key is answered OK or 0, several with their count. */
  function ExecDel(m: Db, args: seq<string>): (Reaction, Db)
    requires args != []
  {
    var (n, m') := DelAll(m, args[1..]);
    (Sent(DelText(|args| == 2, n)), m')
  }

  /** What DEL does over any key list: one key is answered OK or 0, any other number of keys with
      how many distinct ones were stored; exactly the listed keys go. */
  lemma {:induction false} DelReplies(m: Db, args: seq<string>)
    requires args != []
    ensures |args| == 2 ==>
      ExecDel(m, args).0 == Sent(if args[1] in m then Simple("OK") else IntegerReply(0))
    ensures |args| != 2 ==> ExecDel(m, args).0 == Sent(IntegerReply(|m.Keys * KeySet(args[1..])|))
    ensures ExecDel(m, args).1 == m - KeySet(args[1..])
  {
    DelAnswers(m, args);
    if |args| == 2 {
      SingleKey(args);
      OneCommon(m.Keys, args[1]);
    }
  }

  lemma {:induction false} DelAnswers(m: Db, args: seq<string>)
    requires args != []
    ensures ExecDel(m, args) == (Sent(DelText(|args| == 2, |m.Keys * KeySet(args[1..])|)), m - KeySet(args[1..]))
  {
    DelCountsDistinct(m, args[1..]);
    DelRemovesListed(m, args[1..]);
  }

  lemma SingleKey(args: seq<string>)
    requires |args| == 2
    ensures KeySet(args[1..]) == {args[1]}
  {
    assert args[1..] == [args[1]];
  }

  lemma OneCommon(stored: set<string>, k: string)
    ensures |stored * {k}| == if k in stored then 1 else 0
  {
    assert stored * {k} == if k in stored then {k} else {};
  }

  // ----- dispatch -----

  function IncrReaction(n: Increment): Reaction {
    match n
    case Done(text) => Sent(IntegerReply(Atoi(text)))
    case Refused => Sent(Failure("value is not an integer or out of range"))
    case Overflow => Undefined
  }

  datatype Verb = Pings | Echoes | Sets | Gets | Tests | Deletes | Counts | Unknown

  /** The chain of name tests in exec_command. */
  function VerbOf(name: string): Verb {
    if SameName(name, "PING") then Pings
    else if SameName(name, "ECHO") then Echoes
    else if SameName(name, "SET") then Sets
    else if SameName(name, "GET") then Gets
    else if SameName(name, "EXISTS") then Tests
    else if SameName(name, "DEL") then Deletes
    else if SameName(name, "INCR") then Counts
    else Unknown
  }

  /** Each name means one command, in any case. */
  lemma {:induction false} VerbIs(name: string)
    ensures VerbOf(name) == Pings <==> Lower(name) == "ping"
    ensures VerbOf(name) == Echoes <==> Lower(name) == "echo"
    ensures VerbOf(name) == Sets <==> Lower(name) == "set"
    ensures VerbOf(name) == Gets <==> Lower(name) == "get"
    ensures VerbOf(name) == Tests <==> Lower(name) == "exists"
    ensures VerbOf(name) == Deletes <==> Lower(name) == "del"
    ensures VerbOf(name) == Counts <==> Lower(name) == "incr"
  {
    NamesDiffer();
  }

  function ExecVerb(verb: Verb, m: Db, args: seq<string>, clock: nat -> nat): (Reaction, Db)
    requires args != []
  {
    match verb
    case Pings => (Sent(Simple("PONG")), m)
    case Echoes => (Sent(if |args| < 2 then WrongArguments("echo") else Bulk(args[1])), m)
    case Sets => ExecSet(m, args, clock)
    case Gets =>
      if |args| < 2 then (Sent(WrongArguments("get")), m)
      else
        var (v, m') := Get(m, args[1], clock(1));
        (Sent(BulkReply(v)), m')
    case Tests =>
      if |args| < 2 then (Undefined, m)
      else
        var (v, m') := Get(m, args[1], clock(1));
        (Sent(IntegerReply(if v.Some? then 1 else 0)), m')
    case Deletes => ExecDel(m, args)
    case Counts =>
      if |args| < 2 then (Sent(WrongArguments("incr")), m)
      else
        var (v, m') := Incr(m, args[1]);
        (IncrReaction(v), m')
    case Unknown => (Sent(Failure(UNKNOWN)), m)
  }

  /** A command given as an array of words, all of them read. */
  function ExecWords(m: Db, args: seq<string>, clock: nat -> nat): (Reaction, Db)
    requires args != []
  {
    ExecVerb(VerbOf(args[0]), m, args, clock)
  }

  /** A command given as a bare name: EXISTS and DEL read arguments that are not there. */
  function ExecName(name: string): Reaction {
    match VerbOf(name)
    case Pings => Sent(Simple("PONG"))
    case Echoes => Sent(WrongArguments("echo"))
    case Sets => Sent(WrongArguments("set"))
    case Gets => Sent(WrongArguments("get"))
    case Tests => Undefined
    case Deletes => Undefined
    case Counts => Sent(WrongArguments("incr"))
    case Unknown => Sent(Failure(UNKNOWN))
  }

  function Exec(m: Db, cmd: RespValue, clock: nat -> nat): (Reaction, Db) {
    match cmd
    case Array(count, items) =>
      if count <= 0 then (Sent(Failure(UNKNOWN)), m)
      else if |items| != count then (Undefined, m)
      else ExecWords(m, items, clock)
    case SimpleString(name) => (ExecName(name), m)
    case _ => (Sent(Failure(UNKNOWN)), m)
  }

  /** What the server makes of a request as parse reads it. */
  function ExecParsed(m: Db, parsed: Parsed, clock: nat -> nat): (Reaction, Db) {
    match parsed
    case Ok(cmd) => Exec(m, cmd, clock)
    case Exit => (Exited, m)
    case PastEnd => (Undefined, m)
  }

  function ExecText(m: Db, request: string, clock: nat -> nat): (Reaction, Db) {
    ExecParsed(m, ParseText(request), clock)
  }

  lemma ParsedExecutes(m: Db, parsed: Parsed, words: seq<string>, clock: nat -> nat)
    requires words != [] && parsed == Ok(Array(|words|, words))
    ensures ExecParsed(m, parsed, clock) == ExecWords(m, words, clock)
  {}

  /** A printed request reaches the command it was printed from. */
  lemma RequestExecutes(m: Db, words: seq<string>, clock: nat -> nat)
    requires words != [] && |words| <= INT_MAX && forall w :: w in words ==> |w| <= WORD_MAX
    ensures ExecText(m, Request(words), clock) == ExecWords(m, words, clock)
  {
    RequestRoundTripIff(words);
    ParsedExecutes(m, ParseText(Request(words)), words, clock);
  }

  // ----- the code -----

  /** The branch of exec_command for SET. */
  method RunSet(store: Store, args: seq<string>, clock: nat -> nat) returns (r: Reaction)
    requires store.Valid() && args != []
    modifies store.table, store.table.heads, store.table.repr
    ensures store.Valid() && fresh(store.table.repr - old(store.table.repr))
    ensures (r, store.Db()) == ExecSet(old(store.Db()), args, clock)
  {
    if |args| < 3 {
      return Sent(WrongArguments("set"));
    }
    var expiresAt: nat := 0;
    var i := 3;
    while i < |args|
      invariant 3 <= i
      invariant ReadOptions(args, i, expiresAt, clock) == ReadOptions(args, 3, 0, clock)
      decreases |args| - i
    {
      var option := args[i];
      if !IsOption(option) || i + 1 >= |args| {
        return Sent(Failure(SYNTAX));
      }
      if BadNumber(args[i + 1]) {
        return Sent(Failure(RANGE));
      }
      expiresAt := ExpiryTime(option, Strtol(args[i + 1]).value, clock(i));
      i := i + 2;
    }
    store.SetExpiring(args[1], args[2], expiresAt);
    r := Sent(Simple("OK"));
  }

  lemma DelNext(m: Db, args: seq<string>, i: nat)
    requires i < |args|
    ensures var (found, rest) := Del(m, args[i]);
      && DelAll(m, args[i..]).0 == (if found then 1 else 0) + DelAll(rest, args[i + 1..]).0
      && DelAll(m, args[i..]).1 == DelAll(rest, args[i + 1..]).1
  {
    assert args[i..][0] == args[i] && args[i..][1..] == args[i + 1..];
  }

  /** The loop of DEL over its keys. */
  method DeleteAll(store: Store, args: seq<string>) returns (deleted: nat)
    requires store.Valid() && args != []
    modifies store.table, store.table.heads, store.table.repr
    ensures store.Valid() && fresh(store.table.repr - old(store.table.repr))
    ensures (deleted, store.Db()) == DelAll(old(store.Db()), args[1..])
  {
    deleted := 0;
    ghost var m := store.Db();
    ghost var all := DelAll(m, args[1..]);
    for i := 1 to |args|
      invariant store.Valid() && fresh(store.table.repr - old(store.table.repr))
      invariant store.Db() == m
      invariant DelAll(m, args[i..]).0 + deleted == all.0 && DelAll(m, args[i..]).1 == all.1
    {
      DelNext(m, args, i);
      var removed := store.Delete(args[i]);
      m := Del(m, args[i]).1;
      deleted := deleted + if removed then 1 else 0;
    }
    assert args[|args|..] == [];
  }

  /** The branch of exec_command for DEL. */
  method RunDel(store: Store, args: seq<string>) returns (r: Reaction)
    requires store.Valid() && args != []
    modifies store.table, store.table.heads, store.table.repr
    ensures store.Valid() && fresh(store.table.repr - old(store.table.repr))
    ensures (r, store.Db()) == ExecDel(old(store.Db()), args)
  {
    var deleted := DeleteAll(store, args);
    r := Sent(DelText(|args| == 2, deleted));
  }

  /** The chain of name tests in exec_command, for an array of words. */
  method Dispatch(store: Store, args: seq<string>, clock: nat -> nat) returns (r: Reaction)
    requires store.Valid() && args != []
    modifies store.table, store.table.heads, store.table.repr
    ensures store.Valid() && fresh(store.table.repr - old(store.table.repr))
    ensures (r, store.Db()) == ExecWords(old(store.Db()), args, clock)
  {
    match VerbOf(args[0]) {
      case Pings =>
        r := Sent(Simple("PONG"));
      case Echoes =>
        r := Sent(if |args| < 2 then WrongArguments("echo") else Bulk(args[1]));
      case Sets =>
        r := RunSet(store, args, clock);
      case Gets =>
        if |args| < 2 {
          return Sent(WrongArguments("get"));
        }
        var v := store.Fetch(args[1], clock(1));
        r := Sent(BulkReply(v));
      case Tests =>
        if |args| < 2 {
          return Undefined;
        }
        var v := store.Fetch(args[1], clock(1));
        r := Sent(IntegerReply(if v.Some? then 1 else 0));
      case Deletes =>
        r := RunDel(store, args);
      case Counts =>
        if |args| < 2 {
          return Sent(WrongArguments("incr"));
        }
        var v := store.Increment(args[1]);
        r := IncrReaction(v);
      case Unknown =>
        r := Sent(Failure(UNKNOWN));
    }
  }

  /** exec_command. */
  method ExecCommand(store: Store, request: string, clock: nat -> nat) returns (r: Reaction)
    requires store.Valid()
    modifies store.table, store.table.heads, store.table.repr
    ensures store.Valid() && fresh(store.table.repr - old(store.table.repr))
    ensures (r, store.Db()) == ExecText(old(store.Db()), request, clock)
  {
    var parsed := Parse(request);
    match parsed
    case Exit => r := Exited;
    case PastEnd => r := Undefined;
    case Ok(cmd) =>
      match cmd
      case Array(count, items) =>
        if count <= 0 {
          r := Sent(Failure(UNKNOWN));
        } else if |items| != count {
          r := Undefined;
        } else {
          r := Dispatch(store, items, clock);
        }
      case SimpleString(name) => r := ExecName(name);
      case _ => r := Sent(Failure(UNKNOWN));
  }
}
