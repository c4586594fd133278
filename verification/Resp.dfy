/** The RESP reader of 8. redis server/redis_clone/src/resp.c against the printers of server.c. */
module Resp {
  import opened Framing
  import opened Decimal

  const CRLF: string := "\r\n"

  datatype RespValue =
    | SimpleString(text: string)
    | Error(text: string)
    | Integer(value: int)
    | Array(count: int, items: seq<string>)  // items read; fewer than count when the reader stopped early

  /** What parse does with a request: a value, an exit on an unknown type, or something C leaves
      undefined, a read past the end of the request or an int overflow. */
  datatype Parsed = Ok(value: RespValue) | Exit | PastEnd

  // ----- printing -----

  function Simple(s: string): string { "+" + s + CRLF }

  function Failure(s: string): string { "-" + s + CRLF }

  function IntegerReply(i: int): string { ":" + Text(i) + CRLF }

  function Bulk(s: string): string { "$" + (Text(|s|) + (CRLF + (s + CRLF))) }

  function Nil(): string { "$-1" + CRLF }

  /** resp_bulk, with None for the null pointer. */
  function BulkReply(s: Option<string>): string {
    match s
    case None => Nil()
    case Some(text) => Bulk(text)
  }

  /** A request as a client sends it. */
  function Request(words: seq<string>): string {
    "*" + Text(|words|) + CRLF + FlatMap(Bulk, words)
  }

  // ----- parsing -----

  /** The text before the first CRLF, or all of it. */
  function UntilCrlf(s: string): (r: string)
    ensures r <= s
  {
    if s == "" || (s[0] == '\r' && |s| > 1 && s[1] == '\n') then "" else [s[0]] + UntilCrlf(s[1..])
  }

  lemma UntilNext(buf: string, at: nat)
    requires at < |buf|
    ensures UntilCrlf(buf[at..]) ==
      if buf[at] == '\r' && at + 1 < |buf| && buf[at + 1] == '\n' then "" else [buf[at]] + UntilCrlf(buf[at + 1..])
  {
    assert buf[at..][1..] == buf[at + 1..];
  }

  /** parse_simple_string: the first character is the type. */
  method ParseSimpleString(buf: string) returns (word: string)
    requires buf != ""
    ensures word == UntilCrlf(buf[1..])
  {
    word := "";
    var at := 1;
    while at < |buf|
      invariant 1 <= at <= |buf|
      invariant word + UntilCrlf(buf[at..]) == UntilCrlf(buf[1..])
    {
      UntilNext(buf, at);
      if buf[at] == '\r' && at + 1 < |buf| && buf[at + 1] == '\n' {
        return;
      }
      Associates(word, [buf[at]], UntilCrlf(buf[at + 1..]));
      word := word + [buf[at]];
      at := at + 1;
    }
  }

  /** One pass of the loop of parse_array: no element here, a step C leaves undefined (a read past
      the end or an int overflow), or a word and the characters it takes. */
  datatype Element = Stop | Outside | Word(word: string, taken: nat)

  /** The element at the start of s, the unread rest of the request. */
  function ReadElement(s: string): Element {
    if s == "" || s[0] != '$' then Stop else ReadWord(s, Strtol(s[1..]))
  }

  /** The longest word a request can hold: the cursor moves on by 2 + size + 2, an int. */
  const WORD_MAX: int := INT_MAX - 4

  /** The word announced by n, the number after the `$`. It may take in the NUL that ends the
      request, and then stops before it as a C string; above WORD_MAX an int overflows. */
  function ReadWord(s: string, n: Scanned): Element {
    var size := ToInt(n.value);
    var from := 1 + n.used + 2;
    if size < 0 || size > WORD_MAX || from + size > |s| + 1 then Outside
    else Word(s[Min(from, |s|)..Min(from + size, |s|)], from + size + 2)
  }

  function Min(a: nat, b: nat): nat { if a < b then a else b }

  /** The elements read, where each started, and whether every step was one C defines. */
  datatype Elements = Elements(items: seq<string>, starts: seq<nat>, inside: bool)

  /** The loop of parse_array from cursor `at` with `left` elements to go; `read` is what one
      pass makes of the rest of the request. */
  function ReadElements(read: string -> Element, buf: string, at: nat, left: int): Elements
    decreases if left < 0 then 0 else left
  {
    if left <= 0 then Elements([], [], true)
    else if at > |buf| then Elements([], [], false)
    else match read(buf[at..])
      case Stop => Elements([], [], true)
      case Outside => Elements([], [], false)
      case Word(w, taken) =>
        var rest := ReadElements(read, buf, at + taken, left - 1);
        Elements([w] + rest.items, [at] + rest.starts, rest.inside)
  }

  /** Where the first element of an array starts, and the announced count. */
  function ArrayHeader(buf: string): (nat, int)
    requires buf != ""
  {
    var n := Strtol(buf[1..]);
    (1 + n.used + 2, ToInt(n.value))
  }

  function ParseArrayText(buf: string): Parsed
    requires buf != ""
  {
    var (at, count) := ArrayHeader(buf);
    var e := ReadElements(ReadElement, buf, at, count);
    if e.inside then Ok(Array(count, e.items)) else PastEnd
  }

  /** parse_array. */
  method ParseArray(buf: string) returns (r: Parsed)
    requires buf != "" && buf[0] == '*'
    ensures r == ParseArrayText(buf)
  {
    var header := Strtol(buf[1..]);
    var count := ToInt(header.value);
    var start: nat := 1 + header.used + 2;
    var items, inside := ParseElements(ReadElement, buf, start, count);
    r := if inside then Ok(Array(count, items)) else PastEnd;
  }

  /** parse_array's loop. */
  method ParseElements(read: string -> Element, buf: string, start: nat, count: int) returns (items: seq<string>, inside: bool)
    ensures inside == ReadElements(read, buf, start, count).inside
    ensures inside ==> items == ReadElements(read, buf, start, count).items
  {
    items := [];
    var at: nat, left := start, count;
    ghost var all := ReadElements(read, buf, start, count);
    while left > 0
      invariant items + ReadElements(read, buf, at, left).items == all.items
      invariant ReadElements(read, buf, at, left).inside == all.inside
    {
      if at > |buf| {
        return items, false;
      }
      match read(buf[at..]) {
        case Stop =>
          return items, true;
        case Outside =>
          return items, false;
        case Word(word, taken) =>
          assert items + [word] + ReadElements(read, buf, at + taken, left - 1).items
              == items + ReadElements(read, buf, at, left).items;
          items := items + [word];
          at := at + taken;
          left := left - 1;
      }
    }
    inside := true;
  }

  function ParseText(buf: string): Parsed {
    if buf == "" then Exit
    else match buf[0]
      case '+' => Ok(SimpleString(UntilCrlf(buf[1..])))
      case '-' => Ok(Error(UntilCrlf(buf[1..])))
      case ':' => Ok(Integer(Strtol(UntilCrlf(buf[1..])).value))
      case '*' => ParseArrayText(buf)
      case _ => Exit
  }

  /** parse; a top-level bulk string is a known type it still exits on. */
  method Parse(buf: string) returns (r: Parsed)
    ensures r == ParseText(buf)
  {
    if buf == "" {
      return Exit;
    }
    match buf[0]
    case '+' =>
      var word := ParseSimpleString(buf);
      r := Ok(SimpleString(word));
    case '-' =>
      var word := ParseSimpleString(buf);
      r := Ok(Error(word));
    case ':' =>
      var word := ParseSimpleString(buf);
      r := Ok(Integer(Strtol(word).value));
    case '*' =>
      r := ParseArray(buf);
    case _ =>
      r := Exit;
  }

  // ----- round trips -----

  lemma WordReadsBack(digits: string, w: string, rest: string, n: Scanned)
    requires |w| <= WORD_MAX && n == Scanned(|w|, |digits|, false)
    ensures ReadWord("$" + (digits + (CRLF + (w + rest))), n) == Word(w, 1 + |digits| + 2 + |w| + 2)
  {
    var s := "$" + (digits + (CRLF + (w + rest)));
    var head := "$" + digits + CRLF;
    assert s == head + (w + rest);
    Parts(head, w + rest);
    Parts(w, rest);
    assert s[|head|..|head| + |w|] == s[|head|..][..|w|];
  }

  lemma ElementShape(digits: string, w: string, rest: string)
    requires |w| <= WORD_MAX
    requires Strtol(digits + (CRLF + (w + rest))) == Outcome(|w|, |digits|)
    ensures ReadElement("$" + (digits + (CRLF + (w + rest)))) == Word(w, 1 + |digits| + 2 + |w| + 2)
  {
    var tail := digits + (CRLF + (w + rest));
    Parts("$", tail);
    WordReadsBack(digits, w, rest, Strtol(tail));
  }

  /** One printed element is read whole, whatever it contains and whatever follows. */
  lemma ElementReadsBack(w: string, rest: string)
    requires |w| <= WORD_MAX
    ensures ReadElement(Bulk(w) + rest) == Word(w, |Bulk(w)|)
  {
    var digits := Text(|w|);
    BulkThen(digits, w, rest);
    StrtolText(|w|, CRLF + (w + (CRLF + rest)));
    ElementShape(digits, w, CRLF + rest);
  }

  lemma BulkThen(digits: string, w: string, rest: string)
    ensures "$" + (digits + (CRLF + (w + CRLF))) + rest == "$" + (digits + (CRLF + (w + (CRLF + rest))))
  {}

  /** One element ahead of the cursor. */
  lemma ElementsStep(read: string -> Element, pre: string, b: string, w: string, rest: string, left: int)
    requires left > 0 && read(b + rest) == Word(w, |b|)
    ensures var buf := (pre + b) + rest;
      var after := ReadElements(read, buf, |pre + b|, left - 1);
      ReadElements(read, buf, |pre|, left) == Elements([w] + after.items, [|pre|] + after.starts, after.inside)
  {
    assert ((pre + b) + rest)[|pre|..] == b + rest;
  }

  /** Where element k of a request starts, behind a header of this length. */
  function StartOf(write: string -> string, header: nat, words: seq<string>, k: nat): nat
    requires k <= |words|
  {
    header + |FlatMap(write, words[..k])|
  }

  ghost predicate WrittenReadsBack(read: string -> Element, write: string -> string, w: string) {
    forall rest :: read(write(w) + rest) == Word(w, |write(w)|)
  }

  lemma {:induction false} ElementsReadBack(read: string -> Element, write: string -> string, pre: string, words: seq<string>)
    requires forall w :: w in words ==> WrittenReadsBack(read, write, w)
    ensures var e := ReadElements(read, pre + FlatMap(write, words), |pre|, |words|);
      && e.inside && e.items == words && |e.starts| == |words|
      && forall k :: 0 <= k < |words| ==> e.starts[k] == StartOf(write, |pre|, words, k)
    decreases words
  {
    if words != [] {
      var w, b, rest := words[0], write(words[0]), FlatMap(write, words[1..]);
      assert WrittenReadsBack(read, write, w);
      assert pre + FlatMap(write, words) == (pre + b) + rest;
      ElementsStep(read, pre, b, w, rest, |words|);
      ElementsReadBack(read, write, pre + b, words[1..]);
      assert [w] + words[1..] == words;
      forall k | 0 < k < |words|
        ensures StartOf(write, |pre + b|, words[1..], k - 1) == StartOf(write, |pre|, words, k)
      {
        assert words[..k][1..] == words[1..][..k - 1];
      }
    }
  }

  lemma HeaderReadsBack(digits: string, body: string, n: Scanned)
    requires n == Strtol(digits + (CRLF + body)) && n.used == |digits|
    ensures ArrayHeader(("*" + digits + CRLF) + body) == (|"*" + digits + CRLF|, ToInt(n.value))
  {
    assert (("*" + digits + CRLF) + body)[1..] == digits + (CRLF + body);
  }

  lemma BulkReadsBack(w: string)
    requires |w| <= WORD_MAX
    ensures WrittenReadsBack(ReadElement, Bulk, w)
  {
    forall rest ensures ReadElement(Bulk(w) + rest) == Word(w, |Bulk(w)|) {
      ElementReadsBack(w, rest);
    }
  }

  /** The start of a request: everything before its first element. */
  function RequestHead(words: seq<string>): string { "*" + Text(|words|) + CRLF }

  lemma RequestHeader(words: seq<string>)
    requires |words| <= INT_MAX
    ensures Request(words) == RequestHead(words) + FlatMap(Bulk, words)
    ensures ArrayHeader(Request(words)) == (|RequestHead(words)|, |words|)
  {
    var digits, body := Text(|words|), FlatMap(Bulk, words);
    StrtolText(|words|, CRLF + body);
    HeaderReadsBack(digits, body, Strtol(digits + (CRLF + body)));
  }

  /** No element longer than the bound of the reader is ever read. */
  lemma {:induction false} ElementsSmall(read: string -> Element, buf: string, at: nat, left: int)
    requires forall s :: read(s).Word? ==> |read(s).word| <= WORD_MAX
    ensures forall w :: w in ReadElements(read, buf, at, left).items ==> |w| <= WORD_MAX
    decreases if left < 0 then 0 else left
  {
    if left > 0 && at <= |buf| {
      var e := read(buf[at..]);
      if e.Word? {
        ElementsSmall(read, buf, at + e.taken, left - 1);
      }
    }
  }

  lemma ReadElementSmall(s: string)
    ensures ReadElement(s).Word? ==> |ReadElement(s).word| <= WORD_MAX
  {}

  /** What any text parses to is an array of an int's count and of words up to WORD_MAX, if an
      array at all. */
  lemma {:induction false} ArraysSmall(buf: string)
    ensures ParseText(buf).Ok? && ParseText(buf).value.Array? ==>
      var a := ParseText(buf).value;
      a.count <= 2147483647 && forall w :: w in a.items ==> |w| <= 2147483643
  {
    if buf != "" && buf[0] == '*' {
      var (at, count) := ArrayHeader(buf);
      forall s ensures ReadElement(s).Word? ==> |ReadElement(s).word| <= WORD_MAX {
        ReadElementSmall(s);
      }
      ElementsSmall(ReadElement, buf, at, count);
    }
  }

  lemma RequestReads(words: seq<string>)
    requires |words| <= INT_MAX && forall w :: w in words ==> |w| <= WORD_MAX
    ensures var at := |RequestHead(words)|;
      var e := ReadElements(ReadElement, Request(words), at, |words|);
      && e.inside && e.items == words && |e.starts| == |words|
      && forall k :: 0 <= k < |words| ==> e.starts[k] == StartOf(Bulk, at, words, k)
  {
    RequestHeader(words);
    forall w | w in words ensures WrittenReadsBack(ReadElement, Bulk, w) {
      BulkReadsBack(w);
    }
    ElementsReadBack(ReadElement, Bulk, RequestHead(words), words);
  }

  /** How a text that starts as an array is parsed. */
  lemma ArrayParsed(buf: string, at: nat, count: int)
    requires buf != "" && buf[0] == '*' && ArrayHeader(buf) == (at, count)
    ensures var e := ReadElements(ReadElement, buf, at, count);
      ParseText(buf) == if e.inside then Ok(Array(count, e.items)) else PastEnd
  {}

  /** Where the elements of a request are found. */
  lemma {:induction false} RequestElements(words: seq<string>)
    requires |words| <= INT_MAX && forall w :: w in words ==> |w| <= WORD_MAX
    ensures ParseText(Request(words)) == Ok(Array(|words|, words))
    ensures var at := |RequestHead(words)|;
      var e := ReadElements(ReadElement, Request(words), at, |words|);
      && |e.starts| == |words|
      && forall k :: 0 <= k < |words| ==> e.starts[k] == StartOf(Bulk, at, words, k)
  {
    RequestReads(words);
    RequestHeader(words);
    ArrayParsed(Request(words), |RequestHead(words)|, |words|);
  }

  /** A request reads back as exactly the words it was printed from, blank words and words with
      line ends included, precisely when the count fits an int and every length is at most
      WORD_MAX. */
  lemma RequestRoundTripIff(words: seq<string>)
    ensures ParseText(Request(words)) == Ok(Array(|words|, words))
      <==> |words| <= 2147483647 && forall w :: w in words ==> |w| <= 2147483643
  {
    if |words| <= INT_MAX && forall w :: w in words ==> |w| <= WORD_MAX {
      RequestElements(words);
    }
    if ParseText(Request(words)) == Ok(Array(|words|, words)) {
      ArraysSmall(Request(words));
    }
  }

  ghost predicate HasCrlf(s: string) {
    exists k :: 0 <= k < |s| - 1 && s[k] == '\r' && s[k + 1] == '\n'
  }

  lemma {:induction false} UntilCrlfStops(s: string, rest: string)
    ensures UntilCrlf(s + (CRLF + rest)) == s <==> !HasCrlf(s)
    decreases |s|
  {
    var t := s + (CRLF + rest);
    if s == "" {
      assert t == CRLF + rest;
    } else {
      assert t[1..] == s[1..] + (CRLF + rest);
      UntilCrlfStops(s[1..], rest);
      if HasCrlf(s[1..]) {
        var k :| 0 <= k < |s[1..]| - 1 && s[1..][k] == '\r' && s[1..][k + 1] == '\n';
        assert s[k + 1] == '\r' && s[k + 2] == '\n';
      }
      if HasCrlf(s) && !(s[0] == '\r' && |s| > 1 && s[1] == '\n') {
        var k :| 0 <= k < |s| - 1 && s[k] == '\r' && s[k + 1] == '\n';
        assert s[1..][k - 1] == '\r' && s[1..][k] == '\n';
      }
    }
  }

  /** A simple string, unlike a bulk string, survives exactly when it has no line end in it. */
  lemma SimpleRoundTripIff(s: string)
    ensures ParseText(Simple(s)) == Ok(SimpleString(s)) <==> !HasCrlf(s)
    ensures ParseText(Failure(s)) == Ok(Error(s)) <==> !HasCrlf(s)
  {
    UntilCrlfStops(s, "");
    assert CRLF + "" == CRLF;
    assert Simple(s)[1..] == s + CRLF;
    assert Failure(s)[1..] == s + CRLF;
  }

  lemma {:induction false} UntilCrlfAll(s: string)
    requires !HasCrlf(s)
    ensures UntilCrlf(s) == s
  {
    if s != "" {
      assert !(s[0] == '\r' && |s| > 1 && s[1] == '\n');
      forall k | 0 <= k < |s[1..]| - 1 ensures !(s[1..][k] == '\r' && s[1..][k + 1] == '\n') {
        assert s[k + 1] == s[1..][k] && s[k + 2] == s[1..][k + 1];
      }
      UntilCrlfAll(s[1..]);
    }
  }

  /** Without its line end a simple string is taken to the end of the request. */
  lemma {:induction false} UnendedSimple(s: string)
    requires !HasCrlf(s)
    ensures ParseText("+" + s) == Ok(SimpleString(s)) && ParseText("-" + s) == Ok(Error(s))
  {
    UntilCrlfAll(s);
    assert ("+" + s)[1..] == s && ("-" + s)[1..] == s;
  }

  /** An array that goes on with anything but a bulk string, or ends there, is read as announced but
      empty. */
  lemma {:induction false} NoBulkNoItems(n: nat, rest: string)
    requires 0 < n <= 2147483647 && (rest == "" || rest[0] != '$')
    ensures ParseText("*" + Text(n) + "\r\n" + rest) == Ok(Array(n, []))
  {
    var head := "*" + Text(n) + CRLF;
    StrtolText(n, CRLF + rest);
    HeaderReadsBack(Text(n), rest, Strtol(Text(n) + (CRLF + rest)));
    assert (head + rest)[|head|..] == rest;
    ArrayParsed(head + rest, |head|, n);
  }

  lemma TextHasNoCrlf(i: int)
    ensures !HasCrlf(Text(i))
  {
    assert forall k :: 0 <= k < |Text(i)| ==> Text(i)[k] == '-' || IsDigit(Text(i)[k]);
  }

  lemma IntegerReplyRead(digits: string)
    requires !HasCrlf(digits)
    ensures ParseText(":" + digits + CRLF) == Ok(Integer(Strtol(digits).value))
  {
    UntilCrlfStops(digits, "");
    assert CRLF + "" == CRLF;
    assert (":" + digits + CRLF)[1..] == digits + CRLF;
  }

  /** A printed integer reads back exactly when it is a long. */
  lemma IntegerRoundTripIff(i: int)
    ensures ParseText(IntegerReply(i)) == Ok(Integer(i)) <==> -9223372036854775808 <= i <= 9223372036854775807
  {
    var digits := Text(i);
    TextHasNoCrlf(i);
    IntegerReplyRead(digits);
    StrtolText(i, "");
    assert digits + "" == digits;
  }
}
