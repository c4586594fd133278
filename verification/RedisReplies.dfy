/** What the server of 8. redis server/redis_clone/src answers, byte for byte, and when a key that
    was set with an expiry is gone. */
module RedisReplies {
  import opened Framing
  import opened Decimal
  import opened Resp
  import opened RedisStore
  import opened RedisCommands
  import opened RedisRuns

  /** A bulk string as it goes over the wire. */
  function Wire(s: string): string {
    "$" + (Digits(|s|) + ("\r\n" + (s + "\r\n")))
  }

  /** A refusal as it goes over the wire. */
  function Refusal(text: string): string {
    "-" + text + "\r\n"
  }

  // ----- one command at a time -----

  lemma {:induction false} PingReplies(m: Db, args: seq<string>, clock: nat -> nat)
    requires args != [] && Lower(args[0]) == "ping"
    ensures ExecWords(m, args, clock) == (Sent("+" + "PONG" + "\r\n"), m)
  {
    VerbIs(args[0]);
  }

  lemma {:induction false} EchoReplies(m: Db, args: seq<string>, clock: nat -> nat)
    requires args != [] && Lower(args[0]) == "echo"
    ensures ExecWords(m, args, clock) ==
      (Sent(if |args| > 1 then Wire(args[1]) else Refusal("ERR wrong number of arguments for '" + "echo" + "'")), m)
  {
    VerbIs(args[0]);
  }

  lemma {:induction false} GetReplies(m: Db, args: seq<string>, clock: nat -> nat)
    requires args != [] && Lower(args[0]) == "get"
    ensures |args| == 1 ==>
      ExecWords(m, args, clock) == (Sent(Refusal("ERR wrong number of arguments for '" + "get" + "'")), m)
    ensures |args| > 1 ==>
      var k, u := args[1], clock(1);
      ExecWords(m, args, clock).0 ==
        Sent(if k in m && (m[k].expiresAt == 0 || u < m[k].expiresAt) then Wire(m[k].value) else "$-1" + "\r\n")
  {
    VerbIs(args[0]);
  }

  lemma {:induction false} ExistsReplies(m: Db, args: seq<string>, clock: nat -> nat)
    requires |args| > 1 && Lower(args[0]) == "exists"
    ensures var k, u := args[1], clock(1);
      ExecWords(m, args, clock).0 ==
        Sent(if k in m && (m[k].expiresAt == 0 || u < m[k].expiresAt) then ":" + "1" + "\r\n" else ":" + "0" + "\r\n")
  {
    VerbIs(args[0]);
    assert Text(1) == "1" && Text(0) == "0";
  }

  lemma {:induction false} DelOneReplies(m: Db, args: seq<string>, clock: nat -> nat)
    requires |args| == 2 && Lower(args[0]) == "del"
    ensures ExecWords(m, args, clock).0 == Sent(if args[1] in m then "+" + "OK" + "\r\n" else ":" + "0" + "\r\n")
  {
    VerbIs(args[0]);
    DelReplies(m, args);
    assert Text(0) == "0";
  }

  lemma {:induction false} IncrReacts(m: Db, args: seq<string>, clock: nat -> nat)
    requires args != [] && Lower(args[0]) == "incr"
    ensures |args| == 1 ==> ExecWords(m, args, clock) == (Sent(WrongArguments("incr")), m)
    ensures |args| > 1 ==> ExecWords(m, args, clock).0 == IncrReaction(Incr(m, args[1]).0)
  {
    VerbIs(args[0]);
  }

  lemma {:induction false} IncrReplies(m: Db, args: seq<string>, clock: nat -> nat)
    requires args != [] && Lower(args[0]) == "incr"
    ensures |args| == 1 ==>
      ExecWords(m, args, clock) == (Sent(Refusal("ERR wrong number of arguments for '" + "incr" + "'")), m)
    ensures |args| > 1 ==>
      var k, reply := args[1], ExecWords(m, args, clock).0;
      && (k !in m ==> reply == Sent(":" + "1" + "\r\n"))
      && (k in m && !IsNumber(m[k].value) ==> reply == Sent(Refusal("value is not an integer or out of range")))
      && (k in m && IsNumber(m[k].value) && Atoi(m[k].value) < INT_MAX ==>
          reply == Sent(":" + Text(Atoi(m[k].value) + 1) + "\r\n"))
  {
    IncrReacts(m, args, clock);
    if |args| > 1 {
      TextIsNumber(1);
      assert Text(1) == "1";
      if args[1] in m {
        IncrIsSuccessor(m, args[1]);
      }
    }
  }

  lemma {:induction false} SetReplies(m: Db, args: seq<string>, clock: nat -> nat)
    requires args != [] && Lower(args[0]) == "set"
    ensures |args| < 3 ==>
      ExecWords(m, args, clock) == (Sent(Refusal("ERR wrong number of arguments for '" + "set" + "'")), m)
    ensures |args| >= 3 ==>
      var options := ReadOptions(args, 3, 0, clock);
      && (options.Good? ==>
          ExecWords(m, args, clock) == (Sent("+" + "OK" + "\r\n"), m[args[1] := Cell(args[2], options.expiresAt)]))
      && (options.Bad? ==>
          var (reply, m') := ExecWords(m, args, clock);
          m' == m && (reply == Sent(Refusal("ERR syntax error")) || reply == Sent(Refusal("ERR value is not an integer or out of range"))))
  {
    VerbIs(args[0]);
    if |args| >= 3 {
      ErrorsAre(args, 3, 0, clock);
    }
  }

  lemma {:induction false} UnknownReplies(m: Db, args: seq<string>, clock: nat -> nat)
    requires args != []
    requires Lower(args[0]) !in {"ping", "echo", "set", "get", "exists", "del", "incr"}
    ensures ExecWords(m, args, clock) == (Sent(Refusal("ERR unknown command")), m)
  {
    VerbIs(args[0]);
  }

  // ----- requests that are no arrays of words -----

  lemma SimpleParses(name: string)
    requires !HasCrlf(name)
    ensures ParseText(Simple(name)) == Ok(SimpleString(name))
  {
    SimpleRoundTripIff(name);
  }

  /** A bare name as a request: PING is answered, commands that need arguments are refused, except
      EXISTS and DEL, which read arguments that are not there. */
  lemma {:induction false} BareNames(m: Db, name: string, clock: nat -> nat)
    requires !HasCrlf(name)
    ensures ExecText(m, "+" + name + "\r\n", clock) == (ExecName(name), m)
    ensures Lower(name) == "ping" ==> ExecName(name) == Sent("+" + "PONG" + "\r\n")
    ensures Lower(name) == "echo" ==> ExecName(name) == Sent(Refusal("ERR wrong number of arguments for '" + "echo" + "'"))
    ensures Lower(name) == "set" ==> ExecName(name) == Sent(Refusal("ERR wrong number of arguments for '" + "set" + "'"))
    ensures Lower(name) == "get" ==> ExecName(name) == Sent(Refusal("ERR wrong number of arguments for '" + "get" + "'"))
    ensures Lower(name) == "incr" ==> ExecName(name) == Sent(Refusal("ERR wrong number of arguments for '" + "incr" + "'"))
    ensures Lower(name) == "exists" || Lower(name) == "del" ==> ExecName(name) == Undefined
    ensures Lower(name) !in {"ping", "echo", "set", "get", "exists", "del", "incr"} ==>
      ExecName(name) == Sent(Refusal("ERR unknown command"))
  {
    VerbIs(name);
    SimpleParses(name);
  }

  /** An array of no words, or of fewer than none, is refused; one that announces more than it holds
      has the server use a word that was never read. */
  lemma {:induction false} ArrayCases(m: Db, count: int, items: seq<string>, clock: nat -> nat)
    ensures count <= 0 ==> Exec(m, Array(count, items), clock) == (Sent(Refusal("ERR unknown command")), m)
    ensures count > |items| ==> Exec(m, Array(count, items), clock) == (Undefined, m)
    ensures count > 0 && count == |items| ==> Exec(m, Array(count, items), clock) == ExecWords(m, items, clock)
  {}

  /** Errors and integers are no commands, and bulk strings and anything else end the program. */
  lemma {:induction false} OtherTypes(m: Db, request: string, clock: nat -> nat)
    requires request != ""
    ensures request[0] == '-' || request[0] == ':' ==>
      ExecText(m, request, clock) == (Sent(Refusal("ERR unknown command")), m)
    ensures request[0] != '+' && request[0] != '-' && request[0] != ':' && request[0] != '*' ==>
      ExecText(m, request, clock) == (Exited, m)
  {}

  // ----- expiry as a client sees it -----

  /** The request is a command of these words. */
  predicate Asks(a: Arrival, args: seq<string>) {
    args != [] && a.request == Ok(Array(|args|, args))
  }

  /** The text that spells these words asks for them. */
  lemma {:induction false} TextAsks(args: seq<string>, clock: nat -> nat)
    requires Sendable(args)
    ensures Asks(Read(Message(clock, Request(args))), args)
  {
    RequestRoundTripIff(args);
  }

  lemma TextRuns(m: Db, a: Arrival, args: seq<string>)
    ensures Asks(a, args) ==> args != [] && React(m, a) == ExecWords(m, args, a.clock)
  {}

  lemma TwoReplies(react: (Db, Arrival) -> (Reaction, Db), m: Db, a: Arrival, b: Arrival, r: Reaction, m': Db, q: Reaction)
    requires react(m, a) == (r, m') && r.Sent? && react(m', b).0 == q
    ensures Serve(react, m, [a, b]) == [r, q]
  {
    TwoRequests(react, m, a, b);
  }

  /** OK, and then this reply. */
  function AfterSet(reply: string): seq<Reaction> {
    [Sent("+" + "OK" + "\r\n"), Sent(reply)]
  }

  /** A SET that stores with expiry e, and a GET of its key. */
  predicate SetAndGet(args: seq<string>, gets: seq<string>, e: nat, clock: nat -> nat) {
    && |args| >= 3 && Lower(args[0]) == "set" && ReadOptions(args, 3, 0, clock) == Good(e)
    && |gets| >= 2 && Lower(gets[0]) == "get" && gets[1] == args[1]
  }

  /** The replies to a SET and to a GET of its key after it. */
  lemma SetThenGet(m: Db, a: Arrival, b: Arrival, args: seq<string>, gets: seq<string>, e: nat)
    requires SetAndGet(args, gets, e, a.clock)
    ensures Asks(a, args) && Asks(b, gets) ==>
      Serve(React, m, [a, b]) == AfterSet(if e == 0 || Time(b) < e then Wire(args[2]) else "$-1" + "\r\n")
  {
    if Asks(a, args) && Asks(b, gets) {
      var stored := m[args[1] := Cell(args[2], e)];
      TextRuns(m, a, args);
      SetReplies(m, args, a.clock);
      TextRuns(stored, b, gets);
      GetReplies(stored, gets, b.clock);
      TwoReplies(React, m, a, b, Sent("+" + "OK" + "\r\n"), stored, ExecWords(stored, gets, b.clock).0);
    }
  }

  lemma OneOption(args: seq<string>, n: nat, clock: nat -> nat)
    requires |args| == 5 && IsOption(args[3]) && !BadNumber(args[4]) && Strtol(args[4]).value == n
    ensures ReadOptions(args, 3, 0, clock) == Good(ExpiryTime(args[3], n, clock(3)))
  {
    var e := ExpiryTime(args[3], n, clock(3));
    assert ReadOptions(args, 5, e, clock) == Good(e);
  }

  /** A number in any spelling: blanks, a sign or none, and digits. */
  lemma NumberTaken(s: string, w: string, g: string, d: string)
    requires Spells(s, w, g, d) && 0 < Signed(g, d) <= LONG_MAX
    ensures !BadNumber(s) && Strtol(s).value == Signed(g, d)
  {
    BadNumberIff(s);
  }

  /** The key set at the first request is there for the second until time e, and gone from then on. */
  predicate ThereUntil(m: Db, a: Arrival, b: Arrival, value: string, e: nat) {
    Serve(React, m, [a, b]) == AfterSet(if Time(b) < e then Wire(value) else "$-1" + "\r\n")
  }

  lemma SmallMod(n: nat)
    requires n < 18446744073709551616
    ensures n % 18446744073709551616 == n
  {}

  /** The expiry one option asks for, where it fits a word. */
  predicate Ends(option: string, n: nat, t: nat, e: nat) {
    || (Lower(option) == "ex" && e == t + 1000 * n)
    || (Lower(option) == "px" && e == t + n)
    || (Lower(option) == "exat" && e == 1000 * n)
    || (Lower(option) == "pxat" && e == n)
  }

  lemma OptionEnds(option: string, n: nat, t: nat, e: nat)
    requires Ends(option, n, t, e) && e < 18446744073709551616
    ensures IsOption(option) && ExpiryTime(option, n, t) == e
  {
    ExpiryTimeIs(option, n, t);
    SmallMod(e);
  }

  /** SET with one option, in any spelling of names and number, and a GET of the key: the value is
      there until the time the option names, milliseconds from now for PX and seconds for EX,
      milliseconds since the epoch for PXAT and seconds for EXAT, and gone from then on. */
  lemma {:induction false} ExpiryObserved(m: Db, a: Arrival, b: Arrival, args: seq<string>, gets: seq<string>, w: string, g: string, d: string, e: nat)
    requires |args| == 5 && Lower(args[0]) == "set" && |gets| >= 2 && Lower(gets[0]) == "get" && gets[1] == args[1]
    requires Spells(args[4], w, g, d) && 0 < Signed(g, d) <= LONG_MAX
    requires Ends(args[3], Signed(g, d), a.clock(3), e) && e < 18446744073709551616
    ensures Asks(a, args) && Asks(b, gets) ==> ThereUntil(m, a, b, args[2], e)
  {
    var n: nat := Signed(g, d);
    NumberTaken(args[4], w, g, d);
    OptionEnds(args[3], n, a.clock(3), e);
    OneOption(args, n, a.clock);
    SetThenGet(m, a, b, args, gets, e);
  }

  /** SET without an option never expires. */
  lemma {:induction false} WithoutOptionStays(m: Db, a: Arrival, b: Arrival, args: seq<string>, gets: seq<string>)
    requires |args| == 3 && Lower(args[0]) == "set" && |gets| >= 2 && Lower(gets[0]) == "get" && gets[1] == args[1]
    ensures Asks(a, args) && Asks(b, gets) ==> Serve(React, m, [a, b]) == AfterSet(Wire(args[2]))
  {
    SetThenGet(m, a, b, args, gets, 0);
  }
}
