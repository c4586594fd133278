/** 7. calculator/calculator.c on text: the translation to postfix, the stack machine that
    evaluates it, and the one stack they share. */
module Calculator {
  import opened Framing
  import opened Infix
  import Decimal

  /** The arithmetic of doubles, left open: what strtod makes of a literal, what an operator
      computes, and the first byte of a stored double, which to_postfix would read if it found
      one on the stack. */
  datatype Arith<!V> = Arith(number: string -> V, apply: (char, V, V) -> V, firstByte: V -> char)

  datatype Outcome<+V> = Value(v: V) | Underflow | Stuck

  // ----- postfix text -----

  function Text(t: Token): string {
    match t
    case Num(text) => text
    case Sym(c) => [c]
  }

  /** Tokens separated by single blanks. */
  function Render(ts: seq<Token>): string
    decreases ts, 0
  {
    if ts == [] then "" else Text(ts[0]) + RenderTail(ts[1..])
  }

  function RenderTail(ts: seq<Token>): string
    decreases ts, 1
  {
    if ts == [] then "" else " " + Render(ts)
  }

  lemma {:induction false} RenderAppend(ts: seq<Token>, t: Token)
    ensures Render(ts + [t]) == (if ts == [] then "" else Render(ts) + " ") + Text(t)
  {
    if ts == [] {
      assert ts + [t] == [t];
    } else {
      assert (ts + [t])[1..] == ts[1..] + [t];
      RenderAppend(ts[1..], t);
    }
  }

  // ----- evaluation -----

  /** How many characters strtod takes of a decimal literal: digits with at most one dot, and
      none at all unless there is a digit. */
  function StrtodLength(s: string): (n: nat)
    ensures n <= |s|
  {
    var d := Decimal.DigitRun(s);
    if d < |s| && s[d] == '.' then
      var f := Decimal.DigitRun(s[d + 1..]);
      if d + f == 0 then 0 else d + 1 + f
    else d
  }

  /** The operand stack after the operator c meets it, top first; a symbol that is no operator
      takes its operands and leaves nothing. */
  function Operate<V>(ar: Arith<V>, c: char, vals: seq<V>): seq<V>
    requires |vals| >= 2
  {
    (if IsOperator(c) then [ar.apply(c, vals[1], vals[0])] else []) + vals[2..]
  }

  /** eval_postfix from text s and operand stack vals: the outcome and the stack it leaves. A NUL
      ends the text, as it ends any C string. */
  function EvalText<V>(ar: Arith<V>, s: string, vals: seq<V>): (Outcome<V>, seq<V>)
    decreases |s|
  {
    if s == [] || s[0] == '\0' then
      if vals == [] then (Underflow, []) else (Value(vals[0]), vals[1..])
    else if Decimal.IsSpace(s[0]) then EvalText(ar, s[1..], vals)
    else if IsNumeric(s[0]) then
      var n := StrtodLength(s);
      if n == 0 then (Stuck, vals)
      else EvalText(ar, s[n..], [ar.number(s[..n])] + vals)
    else if |vals| < 2 then (Underflow, [])
    else EvalText(ar, s[1..], Operate(ar, s[0], vals))
  }

  /** What one token makes of the operand stack; None when evaluation ends there. */
  function Next<V>(ar: Arith<V>, t: Token, vals: seq<V>): Option<seq<V>> {
    match t
    case Num(text) => Some([ar.number(text)] + vals)
    case Sym(c) =>
      if Decimal.IsSpace(c) then Some(vals)
      else if c == '\0' || |vals| < 2 then None
      else Some(Operate(ar, c, vals))
  }

  /** The same on tokens; None is an underflow. */
  function EvalTokens<V>(ar: Arith<V>, ts: seq<Token>, vals: seq<V>): Option<seq<V>>
    decreases ts
  {
    if ts == [] then Some(vals)
    else match Next(ar, ts[0], vals)
      case Some(next) => EvalTokens(ar, ts[1..], next)
      case None => if ts[0] == Sym('\0') then Some(vals) else None
  }

  /** The value an expression denotes. */
  function Denotes<V>(ar: Arith<V>, e: Expr): V {
    match e
    case Leaf(text) => ar.number(text)
    case Group(_, b, _) => Denotes(ar, b)
    case Bin(l, op, r) => ar.apply(op, Denotes(ar, l), Denotes(ar, r))
  }

  /** Literals that strtod takes whole: at most one dot, at least one digit. */
  predicate Literals(e: Expr) {
    match e
    case Leaf(text) => IsLiteral(text)
    case Group(_, b, _) => Literals(b)
    case Bin(l, _, r) => Literals(l) && Literals(r)
  }

  predicate IsLiteral(text: string) {
    |text| > 0 && StrtodLength(text) == |text|
  }

  lemma {:induction false} PostOrderComputes<V>(ar: Arith<V>, e: Expr, rest: seq<Token>, vals: seq<V>)
    requires WellFormed(e)
    ensures EvalTokens(ar, PostOrder(e) + rest, vals) == EvalTokens(ar, rest, [Denotes(ar, e)] + vals)
    decreases e
  {
    match e
    case Leaf(text) =>
      assert (PostOrder(e) + rest)[1..] == rest;
    case Group(_, b, _) =>
      PostOrderComputes(ar, b, rest, vals);
    case Bin(l, op, r) =>
      var tail := [Sym(op)] + rest;
      assert PostOrder(e) + rest == PostOrder(l) + (PostOrder(r) + tail);
      PostOrderComputes(ar, l, PostOrder(r) + tail, vals);
      var vl := [Denotes(ar, l)] + vals;
      PostOrderComputes(ar, r, tail, vl);
      assert ([Denotes(ar, r)] + vl)[2..] == vals;
      assert tail[1..] == rest;
  }

  lemma {:induction false} DigitRunBefore(a: string, b: string)
    requires b == [] || !Decimal.IsDigit(b[0])
    ensures Decimal.DigitRun(a + b) == Decimal.DigitRun(a)
  {
    if a == [] {
      assert a + b == b;
    } else if Decimal.IsDigit(a[0]) {
      assert (a + b)[1..] == a[1..] + b;
      DigitRunBefore(a[1..], b);
    }
  }

  /** A literal is taken whole when a blank or the end follows. */
  lemma LiteralTaken(a: string, b: string)
    requires IsLiteral(a) && (b == [] || b[0] == ' ')
    ensures StrtodLength(a + b) == |a|
  {
    DigitRunBefore(a, b);
    var d := Decimal.DigitRun(a);
    if d < |a| {
      assert (a + b)[d + 1..] == a[d + 1..] + b;
      DigitRunBefore(a[d + 1..], b);
    }
  }

  /** Tokens that eval_postfix reads as one. */
  predicate ReadableToken(t: Token) {
    match t
    case Num(text) => IsLiteral(text) && IsNumeric(text[0])
    case Sym(c) => !IsNumeric(c)
  }

  predicate Readable(ts: seq<Token>) {
    forall t :: t in ts ==> ReadableToken(t)
  }

  /** Outcome of the last pop. */
  function Finish<V>(r: Option<seq<V>>): (Outcome<V>, seq<V>) {
    match r
    case None => (Underflow, [])
    case Some(vals) => if vals == [] then (Underflow, []) else (Value(vals[0]), vals[1..])
  }

  lemma EvalTextToken<V>(ar: Arith<V>, t: Token, rest: string, vals: seq<V>)
    requires ReadableToken(t) && (rest == [] || rest[0] == ' ')
    ensures Next(ar, t, vals).Some? ==> EvalText(ar, Text(t) + rest, vals) == EvalText(ar, rest, Next(ar, t, vals).value)
    ensures Next(ar, t, vals).None? ==>
      EvalText(ar, Text(t) + rest, vals) == Finish(if t == Sym('\0') then Some(vals) else None)
  {
    var s := Text(t) + rest;
    assert s[|Text(t)|..] == rest && s[..|Text(t)|] == Text(t);
    if t.Num? {
      LiteralTaken(t.text, rest);
    }
  }

  lemma EvalBlank<V>(ar: Arith<V>, s: string, vals: seq<V>)
    ensures EvalText(ar, " " + s, vals) == EvalText(ar, s, vals)
  {
    assert (" " + s)[1..] == s;
  }

  /** Evaluating rendered tokens as text is evaluating the tokens. */
  lemma {:induction false} EvalTextReads<V>(ar: Arith<V>, ts: seq<Token>, vals: seq<V>)
    requires Readable(ts)
    ensures EvalText(ar, Render(ts), vals) == Finish(EvalTokens(ar, ts, vals))
    decreases ts
  {
    if ts != [] {
      var rest := ts[1..];
      EvalTextToken(ar, ts[0], RenderTail(rest), vals);
      if Next(ar, ts[0], vals).Some? {
        var next := Next(ar, ts[0], vals).value;
        if rest != [] {
          EvalBlank(ar, Render(rest), next);
        }
        EvalTextReads(ar, rest, next);
      }
    }
  }

  lemma {:induction false} PostOrderReadable(e: Expr)
    requires WellFormed(e) && Literals(e)
    ensures Readable(PostOrder(e))
  {
    match e
    case Leaf(_) =>
    case Group(_, b, _) => PostOrderReadable(b);
    case Bin(l, _, r) =>
      PostOrderReadable(l);
      PostOrderReadable(r);
  }

  // ----- the calculator as a whole -----

  /** What eval returns and leaves on the stack, for text s over a stack read as `stack`. */
  function Eval<V>(ar: Arith<V>, s: string, stack: seq<char>): (Outcome<V>, seq<V>) {
    EvalText(ar, Render(Postfix(Lex(s), stack)), [])
  }

  /** Compiler correctness: any spelling of an expression evaluates to the value of its tree,
      under any arithmetic, and leaves the shared stack empty for the next call. */
  lemma EvalComputes<V>(ar: Arith<V>, e: Expr, s: string)
    requires WellFormed(e) && Literals(e) && Lex(s) == Tokens(e)
    ensures Eval(ar, s, []) == (Value(Denotes(ar, e)), [])
  {
    var ts := PostOrder(e);
    PostfixIsPostOrder(e);
    PostOrderReadable(e);
    EvalTextReads(ar, ts, []);
    PostOrderComputes(ar, e, [], []);
    assert ts + [] == ts;
  }

  /** Every number is a literal that strtod takes whole. */
  predicate AllLiterals(ts: seq<Token>) {
    forall t :: t in ts ==> t.Num? ==> IsLiteral(t.text)
  }

  lemma {:induction false} TokensLiterals(e: Expr)
    requires AllLiterals(Tokens(e))
    ensures Literals(e)
  {
    match e
    case Leaf(text) =>
      assert Num(text) in Tokens(e);
    case Group(_, b, _) => TokensLiterals(b);
    case Bin(l, _, r) =>
      TokensLiterals(l);
      TokensLiterals(r);
  }

  /** The same from the text alone: when its tokens alternate, its brackets balance and its numbers
      are literals, it evaluates to the value of the expression it spells, and any two expressions
      it spells have one value. */
  lemma {:induction false} ExpressionEvaluates<V>(ar: Arith<V>, s: string) returns (e: Expr)
    requires IsExpression(Lex(s)) && AllLiterals(Lex(s))
    ensures WellFormed(e) && Tokens(e) == Lex(s)
    ensures Eval(ar, s, []) == (Value(Denotes(ar, e)), [])
    ensures forall f :: WellFormed(f) && Tokens(f) == Lex(s) ==> Denotes(ar, f) == Denotes(ar, e)
  {
    IsExpressionIff(Lex(s));
    e :| WellFormed(e) && Tokens(e) == Lex(s);
    TokensLiterals(e);
    EvalComputes(ar, e, s);
    forall f | WellFormed(f) && Tokens(f) == Lex(s) ensures Denotes(ar, f) == Denotes(ar, e) {
      TokensLiterals(f);
      EvalComputes(ar, f, s);
    }
  }

  /** The calls of a run, each over the stack the one before it left; the first underflow or
      endless loop ends the run. */
  function EvalAll<V>(ar: Arith<V>, texts: seq<string>, left: seq<V>): seq<Outcome<V>>
    decreases texts
  {
    if texts == [] then []
    else
      var (outcome, next) := Eval(ar, texts[0], FirstBytes(ar, left));
      [outcome] + if outcome.Value? then EvalAll(ar, texts[1..], next) else []
  }

  /** What to_postfix reads through the nodes of doubles left on the stack. */
  function FirstBytes<V>(ar: Arith<V>, vals: seq<V>): (r: seq<char>)
    ensures |r| == |vals|
  {
    seq(|vals|, i requires 0 <= i < |vals| => ar.firstByte(vals[i]))
  }

  /** Calls do not disturb each other: any run of calls on expressions returns the value of
      each, in order. */
  lemma {:induction false} RunsEvaluate<V>(ar: Arith<V>, es: seq<Expr>, texts: seq<string>)
    requires |texts| == |es|
    requires forall i :: 0 <= i < |es| ==> WellFormed(es[i]) && Literals(es[i]) && Lex(texts[i]) == Tokens(es[i])
    ensures EvalAll(ar, texts, []) == seq(|es|, i requires 0 <= i < |es| => Value(Denotes(ar, es[i])))
    decreases es
  {
    if es != [] {
      var (outcome, left) := (Value(Denotes(ar, es[0])), []);
      EvalComputes(ar, es[0], texts[0]);
      assert FirstBytes(ar, []) == [];
      RunsEvaluate(ar, es[1..], texts[1..]);
      assert EvalAll(ar, texts, []) == [outcome] + EvalAll(ar, texts[1..], left);
    }
  }

  // ----- what an earlier call left behind -----

  /** What leftover characters do to the operand stack once the text reaches them, each a token of
      its own: digits are numbers, a dot alone stops strtod for good, a NUL ends the text. */
  function Leftover<V>(ar: Arith<V>, stack: seq<char>, vals: seq<V>): (Outcome<V>, seq<V>)
    decreases stack
  {
    if stack == [] || stack[0] == '\0' then Finish(Some(vals))
    else if Decimal.IsSpace(stack[0]) then Leftover(ar, stack[1..], vals)
    else if stack[0] == '.' then (Stuck, vals)
    else if Decimal.IsDigit(stack[0]) then Leftover(ar, stack[1..], [ar.number([stack[0]])] + vals)
    else if |vals| < 2 then Finish(None)
    else Leftover(ar, stack[1..], Operate(ar, stack[0], vals))
  }

  lemma DigitAlone(c: char, rest: string)
    requires IsNumeric(c) && (rest == "" || rest[0] == ' ')
    ensures StrtodLength([c] + rest) == if c == '.' then 0 else 1
  {
    assert ([c] + rest)[1..] == rest;
    assert Decimal.DigitRun(rest) == 0;
  }

  lemma {:induction false} SymbolsText<V>(ar: Arith<V>, stack: seq<char>, vals: seq<V>)
    ensures EvalText(ar, RenderTail(Symbols(stack)), vals) == Leftover(ar, stack, vals)
    decreases stack
  {
    if stack != [] {
      var c, rest := stack[0], RenderTail(Symbols(stack[1..]));
      var text := [c] + rest;
      assert Symbols(stack)[1..] == Symbols(stack[1..]) && text[1..] == rest && text[..1] == [c];
      assert RenderTail(Symbols(stack)) == " " + text;
      EvalBlank(ar, text, vals);
      if IsNumeric(c) {
        DigitAlone(c, rest);
        SymbolsText(ar, stack[1..], [ar.number([c])] + vals);
      } else if Decimal.IsSpace(c) || c == '\0' {
        SymbolsText(ar, stack[1..], vals);
      } else if |vals| >= 2 {
        SymbolsText(ar, stack[1..], Operate(ar, c, vals));
      }
    }
  }

  lemma {:induction false} RenderJoin(s: seq<Token>, t: seq<Token>)
    requires s != []
    ensures Render(s + t) == Render(s) + RenderTail(t)
    decreases s
  {
    assert (s + t)[1..] == s[1..] + t;
    if |s| == 1 {
      assert s[1..] + t == t;
    } else {
      RenderJoin(s[1..], t);
    }
  }

  /** A rendered list of tokens without NUL is evaluated before whatever text follows it. */
  lemma {:induction false} EvalTextFront<V>(ar: Arith<V>, ts: seq<Token>, tail: string, vals: seq<V>)
    requires Readable(ts) && Sym('\0') !in ts && (tail == "" || tail[0] == ' ')
    ensures var r := EvalTokens(ar, ts, vals);
      EvalText(ar, Render(ts) + tail, vals) == if r.Some? then EvalText(ar, tail, r.value) else Finish(None)
    decreases ts
  {
    if ts == [] {
      assert Render(ts) + tail == tail;
    } else {
      var rest := ts[1..];
      assert ts[0] in ts;
      Associates(Text(ts[0]), RenderTail(rest), tail);
      assert RenderTail(rest) + tail == "" || (RenderTail(rest) + tail)[0] == ' ';
      EvalTextToken(ar, ts[0], RenderTail(rest) + tail, vals);
      if Next(ar, ts[0], vals).Some? {
        var next := Next(ar, ts[0], vals).value;
        EvalTextRest(ar, rest, tail, next);
        EvalTextFront(ar, rest, tail, next);
      }
    }
  }

  lemma EvalTextRest<V>(ar: Arith<V>, ts: seq<Token>, tail: string, vals: seq<V>)
    ensures EvalText(ar, RenderTail(ts) + tail, vals) == EvalText(ar, Render(ts) + tail, vals)
  {
    if ts != [] {
      assert RenderTail(ts) + tail == " " + (Render(ts) + tail);
      EvalBlank(ar, Render(ts) + tail, vals);
    }
  }

  lemma {:induction false} PostOrderPlain(e: Expr)
    requires WellFormed(e)
    ensures Sym('\0') !in PostOrder(e) && PostOrder(e) != []
  {
    match e
    case Leaf(_) =>
    case Group(_, b, _) => PostOrderPlain(b);
    case Bin(l, _, r) =>
      PostOrderPlain(l);
      PostOrderPlain(r);
  }

  lemma {:induction false} LeftmostWellFormed(e: Expr, q: nat)
    requires WellFormed(e) && Literals(e)
    ensures WellFormed(Leftmost(e, q)) && Literals(Leftmost(e, q))
  {
    if Level(e) <= q && e.Bin? {
      LeftmostWellFormed(e.left, q);
    }
  }

  /** An operator that meets one operand is an underflow, whatever follows. */
  lemma LoneOperator<V>(ar: Arith<V>, x: Expr, op: char, ts: seq<Token>)
    requires WellFormed(x) && Literals(x) && IsOperator(op) && PostOrder(x) + [Sym(op)] <= ts
    ensures EvalText(ar, Render(ts), []) == (Underflow, [])
  {
    var front := PostOrder(x) + [Sym(op)];
    var rest := ts[|front|..];
    assert ts == front + rest;
    RenderJoin(front, rest);
    PostOrderReadable(x);
    PostOrderPlain(x);
    PostOrderComputes(ar, x, [Sym(op)], []);
    EvalTextFront(ar, front, RenderTail(rest), []);
  }

  /** to_postfix never resets the stack. What a call then does with an expression, for all leftovers
      of an earlier call: with an operator on top it underflows, and otherwise the leftovers act on
      the value of the expression. */
  lemma {:induction false} EvalOverLeftovers<V>(ar: Arith<V>, e: Expr, s: string, stack: seq<char>)
    requires WellFormed(e) && Literals(e) && Lex(s) == Tokens(e)
    ensures Eval(ar, s, stack) ==
      if stack != [] && IsOperator(stack[0]) then (Underflow, []) else Leftover(ar, stack, [Denotes(ar, e)])
  {
    if stack != [] && IsOperator(stack[0]) {
      var x := Leftmost(e, Prec(stack[0]));
      LeftoverMeetsOne(e, stack);
      LeftmostWellFormed(e, Prec(stack[0]));
      LoneOperator(ar, x, stack[0], Postfix(Tokens(e), stack));
    } else {
      PostfixOverLeftovers(e, stack);
      PostOrderPlain(e);
      PostOrderReadable(e);
      RenderJoin(PostOrder(e), Symbols(stack));
      EvalTextFront(ar, PostOrder(e), RenderTail(Symbols(stack)), []);
      PostOrderComputes(ar, e, [], []);
      assert PostOrder(e) + [] == PostOrder(e) && [Denotes(ar, e)] + [] == [Denotes(ar, e)];
      SymbolsText(ar, stack, [Denotes(ar, e)]);
    }
  }

  /** Leftovers that do not read as part of a number. */
  predicate NonNumeric(stack: seq<char>) {
    forall c :: c in stack ==> !IsNumeric(c)
  }

  /** Leftovers that leave no mark on the text: blanks, up to a NUL that ends it or to the end. */
  predicate Clear(stack: seq<char>) {
    stack == [] || stack[0] == '\0' || (Decimal.IsSpace(stack[0]) && Clear(stack[1..]))
  }

  lemma {:induction false} LeftoverClear<V>(ar: Arith<V>, stack: seq<char>, v: V)
    requires NonNumeric(stack)
    ensures Leftover(ar, stack, [v]) == if Clear(stack) then (Value(v), []) else (Underflow, [])
    decreases stack
  {
    assert [v][1..] == [];
    if stack != [] {
      assert stack[0] in stack;
      LeftoverClear(ar, stack[1..], v);
    }
  }

  /** So unless a leftover reads as part of a number, a call gives the value of its expression
      exactly when the leftovers are blank. */
  lemma {:induction false} CallsIndependentIff<V>(ar: Arith<V>, e: Expr, s: string, stack: seq<char>)
    requires WellFormed(e) && Literals(e) && Lex(s) == Tokens(e)
    requires NonNumeric(stack)
    ensures Eval(ar, s, stack).0 == Value(Denotes(ar, e)) <==> Clear(stack)
  {
    EvalOverLeftovers(ar, e, s, stack);
    LeftoverClear(ar, stack, Denotes(ar, e));
  }

  lemma {:induction false} LiteralIsNumeral(text: string)
    requires IsLiteral(text)
    ensures IsNumeral(text) && NumericRun(text) == |text|
  {
    var d := Decimal.DigitRun(text);
    forall i | 0 <= i < |text| ensures IsNumeric(text[i]) {
      if i < d {
        assert text[i] == text[..d][i];
      } else if i > d {
        assert text[i] == text[d + 1..][i - d - 1];
      }
    }
    NumericRunIs(text, |text|);
  }

  lemma LexLiteral(text: string)
    requires IsLiteral(text)
    ensures Lex(text) == [Num(text)]
  {
    LiteralIsNumeral(text);
    LexToken(Num(text), "");
    assert text + "" == text;
  }

  lemma LexTwo(a: string, b: string)
    requires IsLiteral(a) && IsLiteral(b)
    ensures Lex(a + (" " + b)) == [Num(a), Num(b)]
  {
    LiteralIsNumeral(a);
    LexToken(Num(a), " " + b);
    BlanksSkipped(1, b);
    assert Blanks(1) == " " + Blanks(0) == " ";
    LexLiteral(b);
  }

  /** Two literals with no operator between them: a call that succeeds and leaves one behind. */
  lemma LeftoverExample<V>(ar: Arith<V>, a: string, b: string)
    requires IsLiteral(a) && IsLiteral(b)
    ensures Eval(ar, a + (" " + b), []) == (Value(ar.number(b)), [ar.number(a)])
  {
    LexTwo(a, b);
    TwoNumbers(ar, a, b);
  }

  /** What a call on a literal returns over one leftover character. */
  function OverOne<V>(ar: Arith<V>, x: char, c: string): Outcome<V> {
    if Decimal.IsSpace(x) || x == '\0' then Value(ar.number(c))
    else if Decimal.IsDigit(x) then Value(ar.number([x]))
    else if x == '.' then Stuck
    else Underflow
  }

  /** The call after such a one, on a third literal, depends on the first byte of the double left:
      right when it is a blank or NUL, wrong otherwise, unless it is a digit that stands for the
      same number. "0.1 2" and then "3" is such a run. */
  lemma {:induction false} NextCallSpoiledIff<V>(ar: Arith<V>, a: string, b: string, c: string)
    requires IsLiteral(a) && IsLiteral(b) && IsLiteral(c)
    ensures var x := ar.firstByte(ar.number(a));
      && EvalAll(ar, [a + (" " + b), c], []) == [Value(ar.number(b)), OverOne(ar, x, c)]
      && (OverOne(ar, x, c) == Value(ar.number(c)) <==>
          Decimal.IsSpace(x) || x == '\0' || (Decimal.IsDigit(x) && ar.number([x]) == ar.number(c)))
  {
    var left, v := [ar.number(a)], ar.number(c);
    var x := ar.firstByte(left[0]);
    LeftoverExample(ar, a, b);
    assert FirstBytes(ar, []) == [] && FirstBytes(ar, left) == [x];
    LiteralIsNumeral(c);
    LexLiteral(c);
    EvalOverLeftovers(ar, Leaf(c), c, [x]);
    LeftoverOne(ar, x, c);
    EvalAllTwo(ar, a + (" " + b), c);
  }

  lemma LeftoverOne<V>(ar: Arith<V>, x: char, c: string)
    ensures Leftover(ar, [x], [ar.number(c)]).0 == OverOne(ar, x, c) || IsOperator(x)
    ensures IsOperator(x) ==> OverOne(ar, x, c) == Underflow
  {
    assert [x][1..] == [];
  }

  lemma EvalAllTwo<V>(ar: Arith<V>, s: string, t: string)
    ensures var (a, left) := Eval(ar, s, FirstBytes(ar, []));
      a.Value? ==> EvalAll(ar, [s, t], []) == [a, Eval(ar, t, FirstBytes(ar, left)).0]
  {
    var (a, left) := Eval(ar, s, FirstBytes(ar, []));
    assert [s, t][1..] == [t] && [t][1..] == [];
    if a.Value? {
      var (b, rest) := Eval(ar, t, FirstBytes(ar, left));
      assert EvalAll(ar, [t], left) == [b] + [];
    }
  }

  lemma TwoNumbers<V>(ar: Arith<V>, a: string, b: string)
    requires IsLiteral(a) && IsLiteral(b) && IsNumeric(a[0]) && IsNumeric(b[0])
    ensures EvalText(ar, Render(Postfix([Num(a), Num(b)], [])), []) == (Value(ar.number(b)), [ar.number(a)])
  {
    var ts := [Num(a), Num(b)];
    RunCons(Num(a), [Num(b)], State([], []));
    RunOne(Num(b), State([Num(a)], []));
    assert Postfix(ts, []) == ts;
    EvalTextReads(ar, ts, []);
    var x, y := ar.number(a), ar.number(b);
    assert ts[1..] == [Num(b)] && [x] + [] == [x] && [y] + [x] == [y, x];
    assert EvalTokens(ar, ts, []) == EvalTokens(ar, [Num(b)], [x]) == Some([y, x]);
  }

  // ----- every spelling -----

  function Blanks(n: nat): string {
    if n == 0 then "" else " " + Blanks(n - 1)
  }

  /** The tokens written with pads[i] blanks before token i. */
  function Spell(ts: seq<Token>, pads: seq<nat>): string
    requires |pads| == |ts|
  {
    if ts == [] then "" else Blanks(pads[0]) + (Text(ts[0]) + Spell(ts[1..], pads[1..]))
  }

  predicate SpellableToken(t: Token) {
    match t
    case Num(text) => text != "" && NumericRun(text) == |text|
    case Sym(c) => IsBracket(c) || IsOperator(c)
  }

  /** Numbers in numeric characters, symbols the lexer keeps, and no two numbers side by side. */
  predicate Spellable(ts: seq<Token>) {
    && (forall i :: 0 <= i < |ts| ==> SpellableToken(ts[i]))
    && (forall i :: 0 < i < |ts| ==> ts[i - 1].Sym? || ts[i].Sym?)
  }

  lemma {:induction false} BlanksSkipped(n: nat, s: string)
    ensures Lex(Blanks(n) + s) == Lex(s)
    decreases n
  {
    if n > 0 {
      assert (Blanks(n) + s)[1..] == Blanks(n - 1) + s;
      BlanksSkipped(n - 1, s);
    } else {
      assert Blanks(0) + s == s;
    }
  }

  lemma {:induction false} NumericRunBefore(a: string, b: string)
    requires NumericRun(a) == |a| && (b == "" || !IsNumeric(b[0]))
    ensures NumericRun(a + b) == |a|
  {
    if a == "" {
      assert a + b == b;
    } else {
      assert (a + b)[1..] == a[1..] + b;
      NumericRunBefore(a[1..], b);
    }
  }

  lemma SpellStart(ts: seq<Token>, pads: seq<nat>)
    requires |pads| == |ts| && Spellable(ts) && (ts == [] || ts[0].Sym?)
    ensures Spell(ts, pads) == "" || !IsNumeric(Spell(ts, pads)[0])
  {
    if ts != [] && pads[0] > 0 {
      assert Spell(ts, pads)[0] == ' ';
    }
  }

  lemma LexToken(t: Token, rest: string)
    requires SpellableToken(t) && (t.Sym? || rest == "" || !IsNumeric(rest[0]))
    ensures Lex(Text(t) + rest) == [t] + Lex(rest)
  {
    var s := Text(t) + rest;
    assert s[|Text(t)|..] == rest && s[..|Text(t)|] == Text(t);
    if t.Num? {
      NumericRunBefore(t.text, rest);
    }
  }

  lemma SpellableRest(ts: seq<Token>)
    requires ts != [] && Spellable(ts)
    ensures Spellable(ts[1..]) && (ts[0].Sym? || |ts| == 1 || ts[1].Sym?)
  {
  }

  /** Any blanks around the tokens, even none, read back as the tokens. */
  lemma {:induction false} LexSpell(ts: seq<Token>, pads: seq<nat>)
    requires |pads| == |ts| && Spellable(ts)
    ensures Lex(Spell(ts, pads)) == ts
    decreases ts
  {
    if ts != [] {
      var rest := Spell(ts[1..], pads[1..]);
      SpellableRest(ts);
      if ts[0].Num? {
        SpellStart(ts[1..], pads[1..]);
      }
      LexToken(ts[0], rest);
      BlanksSkipped(pads[0], Text(ts[0]) + rest);
      LexSpell(ts[1..], pads[1..]);
    }
  }

  lemma SpellableAround(s: seq<Token>, op: char, t: seq<Token>)
    requires Spellable(s) && Spellable(t) && IsOperator(op)
    ensures Spellable(s + [Sym(op)] + t)
  {
  }

  lemma {:induction false} TokensSpellable(e: Expr)
    requires WellFormed(e)
    ensures Tokens(e) != [] && Spellable(Tokens(e))
  {
    match e
    case Leaf(text) => NumericRunIs(text, |text|);
    case Group(_, b, _) => TokensSpellable(b);
    case Bin(l, op, r) =>
      TokensSpellable(l);
      TokensSpellable(r);
      SpellableAround(Tokens(l), op, Tokens(r));
  }

  /** With any spacing whatever, an expression evaluates to its value. */
  lemma AnySpacingEvaluates<V>(ar: Arith<V>, e: Expr, pads: seq<nat>)
    requires WellFormed(e) && Literals(e) && |pads| == |Tokens(e)|
    ensures Eval(ar, Spell(Tokens(e), pads), []) == (Value(Denotes(ar, e)), [])
  {
    TokensSpellable(e);
    LexSpell(Tokens(e), pads);
    EvalComputes(ar, e, Spell(Tokens(e), pads));
  }

  // ----- how long the postfix text gets -----

  /** Characters in the tokens, and characters with one separator each. */
  function Size(ts: seq<Token>): nat {
    if ts == [] then 0 else |Text(ts[0])| + Size(ts[1..])
  }

  lemma {:induction false} SizeAppend(s: seq<Token>, t: seq<Token>)
    ensures Size(s + t) == Size(s) + Size(t)
  {
    if s == [] {
      assert s + t == t;
    } else {
      assert (s + t)[1..] == s[1..] + t;
      SizeAppend(s[1..], t);
    }
  }

  lemma {:induction false} RenderSize(ts: seq<Token>)
    requires ts != []
    ensures |Render(ts)| == Size(ts) + |ts| - 1
  {
    if |ts| > 1 {
      RenderSize(ts[1..]);
    }
  }

  /** Emitted characters with separators, and two for every symbol still on the stack. */
  function Weight(st: State): nat {
    Size(st.out) + |st.out| + 2 * |st.stack|
  }

  lemma EmitWeight(st: State)
    requires st.stack != []
    ensures Weight(Emit(st)) == Weight(st)
  {
    SizeAppend(st.out, [Sym(st.stack[0])]);
  }

  lemma {:induction false} PopWeight(p: nat, st: State)
    ensures Weight(PopWhile(p, st)) == Weight(st) && Weight(PopToOpen(st)) <= Weight(st) && Weight(Drain(st)) == Weight(st)
    decreases |st.stack|
  {
    if st.stack != [] {
      EmitWeight(st);
      PopWeight(p, Emit(st));
    }
  }

  lemma {:induction false} RunWeight(ts: seq<Token>, st: State)
    requires forall t :: t in ts ==> Text(t) != ""
    ensures Weight(Run(ts, st)) <= Weight(st) + 2 * Size(ts)
    decreases ts
  {
    if ts != [] {
      assert ts[0] in ts;
      if ts[0].Num? {
        SizeAppend(st.out, [ts[0]]);
      } else {
        PopWeight(Prec(ts[0].c), st);
      }
      RunWeight(ts[1..], Step(ts[0], st));
    }
  }

  lemma {:induction false} LexSize(s: string)
    ensures Size(Lex(s)) <= |s| && forall t :: t in Lex(s) ==> Text(t) != ""
    decreases |s|
  {
    if s != "" {
      LexSize(if IsNumeric(s[0]) then s[NumericRun(s)..] else s[1..]);
    }
  }

  /** On any text, over any stack, the postfix form is shorter than twice the text and what was on
      the stack. */
  lemma PostfixLength(s: string, stack: seq<char>)
    ensures var out := Render(Postfix(Lex(s), stack)); out == "" || |out| <= 2 * |s| + 2 * |stack| - 1
  {
    var st := State([], stack);
    LexSize(s);
    RunWeight(Lex(s), st);
    PopWeight(0, Run(Lex(s), st));
    var ts := Postfix(Lex(s), stack);
    if ts != [] {
      RenderSize(ts);
    }
  }

  // ----- the code -----

  /** What a stack node points at: a character of the expression, or a stored double. */
  datatype Item<+V> = Mark(c: char) | Double(v: V)

  class StackNode<V> {
    const item: Item<V>
    const next: StackNode?<V>

    constructor (item: Item<V>, next: StackNode?<V>)
      ensures this.item == item && this.next == next
    {
      this.item := item;
      this.next := next;
    }
  }

  /** From node p the items follow one another to the end. */
  ghost predicate IsStack<V>(p: StackNode?<V>, items: seq<Item<V>>) {
    if |items| == 0 then p == null
    else p != null && p.item == items[0] && IsStack(p.next, items[1..])
  }

  class Calculator<V> {
    const ar: Arith<V>
    var top: StackNode?<V>
    ghost var items: seq<Item<V>>  // the items from top down

    ghost predicate Sound()
      reads this
    {
      IsStack(top, items)
    }

    constructor (ar: Arith<V>)
      ensures Sound() && this.ar == ar && items == []
    {
      this.ar := ar;
      top, items := null, [];
    }

    /** The character to_postfix reads through a node. */
    function CharOf(item: Item<V>): char {
      match item
      case Mark(c) => c
      case Double(v) => ar.firstByte(v)
    }

    function Chars(items: seq<Item<V>>): (r: seq<char>)
      ensures |r| == |items|
    {
      seq(|items|, i requires 0 <= i < |items| => CharOf(items[i]))
    }

    function Doubles(vals: seq<V>): (r: seq<Item<V>>)
      ensures |r| == |vals|
    {
      seq(|vals|, i requires 0 <= i < |vals| => Double(vals[i]))
    }

    /** The stack holds these doubles. */
    ghost predicate Holds(vals: seq<V>)
      reads this
    {
      Sound() && items == Doubles(vals)
    }

    method Push(item: Item<V>)
      requires Sound()
      modifies this
      ensures Sound() && items == [item] + old(items)
    {
      top := new StackNode(item, top);
      items := [item] + items;
      assert items[1..] == old(items);
    }

    /** None where the source reports an underflow and exits. */
    method Pop() returns (r: Option<Item<V>>)
      requires Sound()
      modifies this
      ensures Sound()
      ensures old(items) == [] ==> r == None && items == []
      ensures old(items) != [] ==> r == Some(old(items)[0]) && items == old(items)[1..]
    {
      if top == null {
        return None;
      }
      r := Some(top.item);
      top, items := top.next, items[1..];
    }

    /** append_separator, then the text of one token. */
    method Append(pstfix: string, text: string, ghost out: seq<Token>, ghost t: Token) returns (r: string)
      requires pstfix == Render(out) && text == Text(t)
      requires forall t :: t in out ==> Text(t) != ""
      ensures r == Render(out + [t])
    {
      r := (if |pstfix| != 0 then pstfix + " " else pstfix) + text;
      RenderAppend(out, t);
      if out != [] {
        assert out[0] in out;
      }
    }

    /** The stack and the text written so far stand for the token machine's state. */
    ghost predicate Matches(st: State, pstfix: string)
      reads this
    {
      && Sound() && Chars(items) == st.stack
      && pstfix == Render(st.out)
      && forall t :: t in st.out ==> Text(t) != ""
    }

    method EmitTop(pstfix: string, ghost st: State) returns (r: string)
      requires top != null && Matches(st, pstfix)
      modifies this
      ensures Matches(Emit(st), r) && items == old(items)[1..]
    {
      var item := Pop();
      r := Append(pstfix, [CharOf(item.value)], st.out, Sym(st.stack[0]));
    }

    /** calculator.c:102-111: a closing bracket. */
    method CloseBracket(pstfix: string, ghost st: State) returns (r: string)
      requires Matches(st, pstfix)
      modifies this
      ensures Matches(PopToOpen(st), r)
    {
      r := pstfix;
      ghost var cur := st;
      while top != null
        invariant Matches(cur, r) && PopToOpen(cur) == PopToOpen(st)
        decreases |items|
      {
        if IsOpen(CharOf(top.item)) || CharOf(top.item) == '\0' {
          var _ := Pop();
          return;
        }
        r := EmitTop(r, cur);
        cur := Emit(cur);
      }
    }

    /** calculator.c:120-123: what an incoming operator releases. */
    method ReleaseOperators(c: char, pstfix: string, ghost st: State) returns (r: string)
      requires IsOperator(c) && Matches(st, pstfix)
      modifies this
      ensures Matches(PopWhile(Prec(c), st), r)
    {
      r := pstfix;
      ghost var cur := st;
      while top != null && !IsBracket(CharOf(top.item)) && ShouldPop(CharOf(top.item), c)
        invariant Matches(cur, r) && PopWhile(Prec(c), cur) == PopWhile(Prec(c), st)
        decreases |items|
      {
        r := EmitTop(r, cur);
        cur := Emit(cur);
      }
    }

    /** calculator.c:130-133. */
    method DrainStack(pstfix: string, ghost st: State) returns (r: string)
      requires Matches(st, pstfix)
      modifies this
      ensures Sound() && items == [] && r == Render(Drain(st).out)
    {
      r := pstfix;
      ghost var cur := st;
      while top != null
        invariant Matches(cur, r) && Drain(cur) == Drain(st)
        decreases |items|
      {
        r := EmitTop(r, cur);
        cur := Emit(cur);
      }
    }

    /** calculator.c:93-99: the text of a number. */
    method TakeNumber(expr: string, p: nat, pstfix: string, ghost st: State) returns (q: nat, r: string)
      requires p < |expr| && IsNumeric(expr[p]) && Matches(st, pstfix)
      ensures p < q <= |expr| && NumericRun(expr[p..]) == q - p
      ensures Matches(Step(Num(expr[p..q]), st), r)
    {
      q := p;
      while q < |expr| && IsNumeric(expr[q])
        invariant p <= q <= |expr| && forall i :: p <= i < q ==> IsNumeric(expr[i])
      {
        q := q + 1;
      }
      NumericRunIs(expr[p..], q - p);
      r := Append(pstfix, expr[p..q], st.out, Num(expr[p..q]));
    }

    /** calculator.c:100-127: a bracket or an operator. */
    method TakeSymbol(c: char, pstfix: string, ghost st: State) returns (r: string)
      requires IsBracket(c) || IsOperator(c)
      requires Matches(st, pstfix)
      modifies this
      ensures Matches(Step(Sym(c), st), r)
    {
      r := pstfix;
      if IsBracket(c) {
        if IsOpen(c) {
          Push(Mark(c));
        } else {
          r := CloseBracket(r, st);
        }
      } else if top == null {
        Push(Mark(c));
      } else {
        r := ReleaseOperators(c, r, st);
        Push(Mark(c));
      }
    }

    /** One pass of the main loop of to_postfix. */
    method TakeNext(expr: string, p: nat, pstfix: string, ghost st: State)
      returns (q: nat, r: string, ghost next: State)
      requires p < |expr| && Matches(st, pstfix)
      modifies this
      ensures p < q <= |expr| && Matches(next, r)
      ensures Run(Lex(expr[q..]), next) == Run(Lex(expr[p..]), st)
    {
      var c := expr[p];
      RunLexAt(expr, p, st);
      q, r, next := p + 1, pstfix, st;
      if c == ' ' {
      } else if IsNumeric(c) {
        q, r := TakeNumber(expr, p, pstfix, st);
        next := Step(Num(expr[p..q]), st);
      } else if IsBracket(c) || IsOperator(c) {
        r := TakeSymbol(c, pstfix, st);
        next := Step(Sym(c), st);
      }
    }

    /** to_postfix, over whatever earlier calls left on the stack. */
    method ToPostfix(expr: string) returns (pstfix: string)
      requires Sound()
      modifies this
      ensures pstfix == Render(Postfix(Lex(expr), Chars(old(items))))
      ensures Sound() && items == []
    {
      pstfix := "";
      ghost var start := State([], Chars(items));
      ghost var st := start;
      var p := 0;
      while p < |expr|
        invariant 0 <= p <= |expr|
        invariant Matches(st, pstfix)
        invariant Run(Lex(expr[p..]), st) == Run(Lex(expr), start)
      {
        p, pstfix, st := TakeNext(expr, p, pstfix, st);
      }
      pstfix := DrainStack(pstfix, st);
    }

    /** calculator.c:156-175: an operator of the postfix text. */
    method ApplySymbol(c: char, ghost vals: seq<V>) returns (ok: bool)
      requires Holds(vals)
      modifies this
      ensures ok <==> |vals| >= 2
      ensures ok ==> Holds(Operate(ar, c, vals))
      ensures !ok ==> Holds([])
    {
      var op2 := Pop();
      if op2 == None {
        return false;
      }
      var op1 := Pop();
      if op1 == None {
        return false;
      }
      assert op2.value == Double(vals[0]) && op1.value == Double(vals[1]);
      assert Holds(vals[2..]) by {
        assert items == Doubles(vals)[2..] == Doubles(vals[2..]);
      }
      if IsOperator(c) {
        var res := ar.apply(c, op1.value.v, op2.value.v);
        Push(Double(res));
        assert items == Doubles([res] + vals[2..]);
      }
      ok := true;
    }

    /** One pass of the main loop of eval_postfix. */
    method EvalNext(expr: string, p: nat, ghost vals: seq<V>)
      returns (q: nat, stop: Option<Outcome<V>>, ghost next: seq<V>)
      requires p < |expr| && expr[p] != '\0' && Holds(vals)
      modifies this
      ensures p <= q <= |expr| && Holds(next)
      ensures stop == None ==> p < q && EvalText(ar, expr[q..], next) == EvalText(ar, expr[p..], vals)
      ensures stop != None ==> EvalText(ar, expr[p..], vals) == (stop.value, next)
    {
      var c := expr[p];
      assert expr[p..][1..] == expr[p + 1..];
      q, stop, next := p + 1, None, vals;
      if Decimal.IsSpace(c) {
      } else if IsNumeric(c) {
        var n := StrtodLength(expr[p..]);
        if n == 0 {
          stop := Some(Stuck);
        } else {
          assert expr[p..][n..] == expr[p + n..];
          Push(Double(ar.number(expr[p..][..n])));
          next := [ar.number(expr[p..][..n])] + vals;
          q := p + n;
        }
      } else {
        var ok := ApplySymbol(c, vals);
        if ok {
          next := Operate(ar, c, vals);
        } else {
          stop, next := Some(Underflow), [];
        }
      }
    }

    /** eval_postfix. */
    method EvalPostfix(expr: string) returns (r: Outcome<V>)
      modifies this
      ensures var (outcome, left) := EvalText(ar, expr, []);
        r == outcome && Holds(left)
    {
      top, items := null, [];
      ghost var vals := [];
      var p, stop := 0, None;
      while p < |expr| && expr[p] != '\0'
        invariant 0 <= p <= |expr|
        invariant Holds(vals)
        invariant EvalText(ar, expr[p..], vals) == EvalText(ar, expr, [])
      {
        p, stop, vals := EvalNext(expr, p, vals);
        if stop != None {
          return stop.value;
        }
      }
      var last := Pop();
      if last == None {
        return Underflow;
      }
      r := Value(last.value.v);
    }

    /** eval. */
    method Evaluate(expr: string) returns (r: Outcome<V>)
      requires Sound()
      modifies this
      ensures var (outcome, left) := Eval(ar, expr, Chars(old(items)));
        r == outcome && Holds(left)
    {
      var pstfix := ToPostfix(expr);
      r := EvalPostfix(pstfix);
    }
  }

  lemma LexAt(expr: string, p: nat)
    requires p < |expr|
    ensures var s, c := expr[p..], expr[p];
      if IsNumeric(c) then
        var q := p + NumericRun(s);
        Lex(s) == [Num(expr[p..q])] + Lex(expr[q..])
      else if IsBracket(c) || IsOperator(c) then Lex(s) == [Sym(c)] + Lex(expr[p + 1..])
      else Lex(s) == Lex(expr[p + 1..])
  {
    var s := expr[p..];
    var n := NumericRun(s);
    assert s[1..] == expr[p + 1..];
    assert s[..n] == expr[p..p + n] && s[n..] == expr[p + n..];
  }

  /** One pass of the loop in to_postfix. */
  lemma RunLexAt(expr: string, p: nat, st: State)
    requires p < |expr|
    ensures var c, q := expr[p], p + NumericRun(expr[p..]);
      Run(Lex(expr[p..]), st) ==
        if IsNumeric(c) then Run(Lex(expr[q..]), Step(Num(expr[p..q]), st))
        else if IsBracket(c) || IsOperator(c) then Run(Lex(expr[p + 1..]), Step(Sym(c), st))
        else Run(Lex(expr[p + 1..]), st)
  {
    LexAt(expr, p);
    var c, q := expr[p], p + NumericRun(expr[p..]);
    if IsNumeric(c) {
      RunCons(Num(expr[p..q]), Lex(expr[q..]), st);
    } else {
      RunCons(Sym(c), Lex(expr[p + 1..]), st);
    }
  }

  lemma RunCons(t: Token, ts: seq<Token>, st: State)
    ensures Run([t] + ts, st) == Run(ts, Step(t, st))
  {
    assert ([t] + ts)[1..] == ts;
  }

  lemma {:induction false} NumericRunIs(s: string, n: nat)
    requires n <= |s| && (forall i :: 0 <= i < n ==> IsNumeric(s[i])) && (n < |s| ==> !IsNumeric(s[n]))
    ensures NumericRun(s) == n
  {
    if n > 0 {
      NumericRunIs(s[1..], n - 1);
    }
  }
}
