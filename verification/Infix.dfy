/** Infix expressions and what a shunting-yard translation of them should produce: the
    grammar behind 7. calculator/calculator.c and the translator as a token machine. */
module Infix {
  import Decimal
  import Framing

  /** A run of digits and dots, or any single character. */
  datatype Token = Num(text: string) | Sym(c: char)

  // ----- characters -----

  predicate IsNumeric(c: char) { Decimal.IsDigit(c) || c == '.' }

  predicate IsOpen(c: char) { c == '(' || c == '{' || c == '[' }

  predicate IsClose(c: char) { c == ')' || c == '}' || c == ']' }

  predicate IsBracket(c: char) { IsOpen(c) || IsClose(c) }

  predicate IsOperator(c: char) { c == '+' || c == '-' || c == '*' || c == '/' }

  function Prec(op: char): nat {
    match op
    case '+' => 1
    case '-' => 1
    case '*' => 2
    case '/' => 2
    case _ => 0
  }

  predicate IsRightAssociative(op: char) { op == '^' }

  predicate ShouldPop(stackOp: char, incoming: char) {
    if Prec(stackOp) > Prec(incoming) then true
    else Prec(stackOp) == Prec(incoming) && !IsRightAssociative(incoming)
  }

  // ----- reading -----

  function NumericRun(s: string): (n: nat)
    ensures n <= |s| && (forall i :: 0 <= i < n ==> IsNumeric(s[i])) && (n < |s| ==> !IsNumeric(s[n]))
  {
    if s != [] && IsNumeric(s[0]) then 1 + NumericRun(s[1..]) else 0
  }

  /** The tokens the translator sees; blanks and unknown characters are skipped. */
  function Lex(s: string): seq<Token>
    decreases |s|
  {
    if s == [] then []
    else if IsNumeric(s[0]) then
      var n := NumericRun(s);
      [Num(s[..n])] + Lex(s[n..])
    else if IsBracket(s[0]) || IsOperator(s[0]) then [Sym(s[0])] + Lex(s[1..])
    else Lex(s[1..])
  }

  /** Anything but digits, dots, the three kinds of brackets and the four operators is skipped. */
  lemma {:induction false} OthersSkipped(c: char, s: string)
    requires !('0' <= c <= '9') && c != '.' && c != '+' && c != '-' && c != '*' && c != '/'
    requires c != '(' && c != ')' && c != '{' && c != '}' && c != '[' && c != ']'
    ensures Lex([c] + s) == Lex(s)
  {
    assert ([c] + s)[1..] == s;
  }

  // ----- the translator as a token machine -----

  /** Emitted tokens, and the operator stack with its top first. */
  datatype State = State(out: seq<Token>, stack: seq<char>)

  function Emit(st: State): State
    requires st.stack != []
  {
    State(st.out + [Sym(st.stack[0])], st.stack[1..])
  }

  /** Emits operators of at least precedence p, down to a bracket. */
  function PopWhile(p: nat, st: State): State
    decreases |st.stack|
  {
    if st.stack != [] && !IsBracket(st.stack[0]) && Prec(st.stack[0]) >= p then PopWhile(p, Emit(st)) else st
  }

  /** Emits down to the nearest opening bracket and drops it; strchr also finds the terminator
      of the bracket list, so a NUL on the stack passes for one. */
  function PopToOpen(st: State): State
    decreases |st.stack|
  {
    if st.stack == [] then st
    else if IsOpen(st.stack[0]) || st.stack[0] == '\0' then st.(stack := st.stack[1..])
    else PopToOpen(Emit(st))
  }

  function Drain(st: State): State
    decreases |st.stack|
  {
    if st.stack == [] then st else Drain(Emit(st))
  }

  function Push(c: char, st: State): State {
    st.(stack := [c] + st.stack)
  }

  function Step(t: Token, st: State): State {
    match t
    case Num(_) => st.(out := st.out + [t])
    case Sym(c) =>
      if IsOpen(c) then Push(c, st)
      else if IsClose(c) then PopToOpen(st)
      else Push(c, PopWhile(Prec(c), st))
  }

  function Run(ts: seq<Token>, st: State): State
    decreases ts
  {
    if ts == [] then st else Run(ts[1..], Step(ts[0], st))
  }

  /** The postfix form of ts when the stack already holds `stack`. */
  function Postfix(ts: seq<Token>, stack: seq<char>): seq<Token> {
    Drain(Run(ts, State([], stack))).out
  }

  // ----- the grammar -----

  /** Concrete syntax: any opening bracket pairs with any closing one, as the code has it. */
  datatype Expr =
    | Leaf(text: string)
    | Group(open: char, body: Expr, close: char)
    | Bin(left: Expr, op: char, right: Expr)

  /** How tightly an expression binds: 3 for operands. */
  function Level(e: Expr): nat {
    if e.Bin? then Prec(e.op) else 3
  }

  /** `*` and `/` bind tighter than `+` and `-`, and all four group to the left. */
  predicate WellFormed(e: Expr) {
    match e
    case Leaf(text) => IsNumeral(text)
    case Group(o, b, c) => IsOpen(o) && IsClose(c) && WellFormed(b)
    case Bin(l, op, r) =>
      && IsOperator(op) && WellFormed(l) && WellFormed(r)
      && Level(l) >= Prec(op) && Level(r) > Prec(op)
  }

  function Tokens(e: Expr): seq<Token> {
    match e
    case Leaf(text) => [Num(text)]
    case Group(o, b, c) => [Sym(o)] + Tokens(b) + [Sym(c)]
    case Bin(l, op, r) => Tokens(l) + [Sym(op)] + Tokens(r)
  }

  function PostOrder(e: Expr): seq<Token> {
    match e
    case Leaf(text) => [Num(text)]
    case Group(_, b, _) => PostOrder(b)
    case Bin(l, op, r) => PostOrder(l) + PostOrder(r) + [Sym(op)]
  }

  // ----- the grammar by its characters -----

  /** A number, or a sum in brackets. */
  predicate IsOperand(e: Expr)
    decreases e, 0
  {
    match e
    case Leaf(text) => text != "" && forall i :: 0 <= i < |text| ==> '0' <= text[i] <= '9' || text[i] == '.'
    case Group(o, b, c) =>
      && (o == '(' || o == '{' || o == '[') && (c == ')' || c == '}' || c == ']')
      && IsSum(b)
    case Bin(_, _, _) => false
  }

  /** Operands joined by `*` and `/`, from the left. */
  predicate IsProduct(e: Expr)
    decreases e, 1
  {
    if e.Bin? then (e.op == '*' || e.op == '/') && IsProduct(e.left) && IsOperand(e.right) else IsOperand(e)
  }

  /** Products joined by `+` and `-`, from the left. */
  predicate IsSum(e: Expr)
    decreases e, 2
  {
    if e.Bin? && (e.op == '+' || e.op == '-') then IsSum(e.left) && IsProduct(e.right) else IsProduct(e)
  }

  /** The grammar by precedence levels is that of sums of products of operands. */
  lemma {:induction false} GrammarIff(e: Expr)
    ensures WellFormed(e) <==> IsSum(e)
    ensures WellFormed(e) && Level(e) >= 2 <==> IsProduct(e)
    ensures WellFormed(e) && Level(e) >= 3 <==> IsOperand(e)
  {
    match e
    case Leaf(_) =>
      assert IsSum(e) == IsProduct(e) == IsOperand(e);
    case Group(_, b, _) =>
      assert IsSum(e) == IsProduct(e) == IsOperand(e);
      GrammarIff(b);
    case Bin(l, _, r) =>
      GrammarIff(l);
      GrammarIff(r);
  }

  // ----- which token lists are expressions -----

  predicate IsNumeral(text: string) {
    text != "" && forall i :: 0 <= i < |text| ==> IsNumeric(text[i])
  }

  /** Operands and operators alternate and brackets balance, from a point inside `depth` brackets
      with an operand just read or not. */
  predicate Alternates(ts: seq<Token>, depth: nat, operand: bool)
    decreases |ts|
  {
    if ts == [] then depth == 0 && operand
    else if operand then
      && ts[0].Sym?
      && (if IsOperator(ts[0].c) then Alternates(ts[1..], depth, false)
          else IsClose(ts[0].c) && depth > 0 && Alternates(ts[1..], depth - 1, true))
    else match ts[0]
      case Num(text) => IsNumeral(text) && Alternates(ts[1..], depth, true)
      case Sym(c) => IsOpen(c) && Alternates(ts[1..], depth + 1, false)
  }

  lemma {:induction false} TokensAlternate(e: Expr, rest: seq<Token>, depth: nat)
    requires WellFormed(e)
    ensures Alternates(Tokens(e) + rest, depth, false) <==> Alternates(rest, depth, true)
    decreases e
  {
    match e
    case Leaf(text) =>
      assert (Tokens(e) + rest)[1..] == rest;
    case Group(o, b, c) =>
      var tail := [Sym(c)] + rest;
      assert Tokens(e) + rest == [Sym(o)] + (Tokens(b) + tail);
      assert ([Sym(o)] + (Tokens(b) + tail))[1..] == Tokens(b) + tail;
      TokensAlternate(b, tail, depth + 1);
      assert tail[1..] == rest;
    case Bin(l, op, r) =>
      var tail := [Sym(op)] + (Tokens(r) + rest);
      assert Tokens(e) + rest == Tokens(l) + tail;
      TokensAlternate(l, tail, depth);
      assert tail[1..] == Tokens(r) + rest;
      TokensAlternate(r, rest, depth);
  }

  /** An expression with one more operator and operand at its end, grouped as precedence wants. */
  function Attach(e: Expr, op: char, x: Expr): Expr {
    if e.Bin? && Prec(e.op) < Prec(op) then Bin(e.left, e.op, Attach(e.right, op, x)) else Bin(e, op, x)
  }

  lemma {:induction false} AttachGroups(e: Expr, op: char, x: Expr)
    requires WellFormed(e) && WellFormed(x) && !x.Bin? && IsOperator(op)
    ensures WellFormed(Attach(e, op, x))
    ensures Level(Attach(e, op, x)) == if Level(e) < Prec(op) then Level(e) else Prec(op)
  {
    if e.Bin? && Prec(e.op) < Prec(op) {
      AttachGroups(e.right, op, x);
    }
  }

  lemma {:induction false} AttachTokens(e: Expr, op: char, x: Expr)
    ensures Tokens(Attach(e, op, x)) == Tokens(e) + ([Sym(op)] + Tokens(x))
  {
    var tail := [Sym(op)] + Tokens(x);
    if e.Bin? && Prec(e.op) < Prec(op) {
      AttachTokens(e.right, op, x);
      Framing.Associates(Tokens(e.left) + [Sym(e.op)], Tokens(e.right), tail);
    } else {
      Framing.Associates(Tokens(e), [Sym(op)], Tokens(x));
    }
  }

  lemma OperatorNext(ts: seq<Token>, depth: nat)
    requires Alternates(ts, depth, true) && ts != [] && IsOperator(ts[0].c)
    ensures Alternates(ts[1..], depth, false) && ts == [Sym(ts[0].c)] + ts[1..]
  {}

  lemma AttachedFront(e: Expr, op: char, x: Expr, tail: seq<Token>)
    ensures Tokens(Attach(e, op, x)) + tail == Tokens(e) + ([Sym(op)] + (Tokens(x) + tail))
  {
    AttachTokens(e, op, x);
    Framing.Associates(Tokens(e), [Sym(op)] + Tokens(x), tail);
    Framing.Associates([Sym(op)], Tokens(x), tail);
  }

  /** The operand at the start of an alternating list. */
  lemma {:induction false} FindOperand(ts: seq<Token>, depth: nat) returns (x: Expr, rest: seq<Token>)
    requires Alternates(ts, depth, false)
    ensures WellFormed(x) && !x.Bin? && ts == Tokens(x) + rest && Alternates(rest, depth, true)
    decreases |ts|, 0
  {
    match ts[0]
    case Num(text) =>
      x, rest := Leaf(text), ts[1..];
    case Sym(o) =>
      var body, tail := FindExpression(ts[1..], depth + 1);
      x, rest := Group(o, body, tail[0].c), tail[1..];
      assert ts == [Sym(o)] + (Tokens(body) + ([tail[0]] + rest));
  }

  /** The longest expression at the start of an alternating list: a closing bracket or the end
      follows it. */
  lemma {:induction false} FindExpression(ts: seq<Token>, depth: nat) returns (e: Expr, rest: seq<Token>)
    requires Alternates(ts, depth, false)
    ensures WellFormed(e) && ts == Tokens(e) + rest && Alternates(rest, depth, true)
    ensures rest == [] || !IsOperator(rest[0].c)
    decreases |ts|, 1
  {
    e, rest := FindOperand(ts, depth);
    while rest != [] && IsOperator(rest[0].c)
      invariant WellFormed(e) && ts == Tokens(e) + rest && Alternates(rest, depth, true) && |rest| < |ts|
      decreases |rest|
    {
      var op := rest[0].c;
      OperatorNext(rest, depth);
      var x, tail := FindOperand(rest[1..], depth);
      AttachGroups(e, op, x);
      AttachedFront(e, op, x, tail);
      e, rest := Attach(e, op, x), tail;
    }
  }

  predicate IsExpression(ts: seq<Token>) {
    Alternates(ts, 0, false)
  }

  /** A token list is that of some expression exactly when operands and operators alternate and the
      brackets balance. */
  lemma {:induction false} IsExpressionIff(ts: seq<Token>)
    ensures IsExpression(ts) <==> exists e :: WellFormed(e) && Tokens(e) == ts
  {
    if IsExpression(ts) {
      var e, rest := FindExpression(ts, 0);
      assert rest == [];
      assert Tokens(e) == ts;
    }
    if e :| WellFormed(e) && Tokens(e) == ts {
      TokensAlternate(e, [], 0);
      assert Tokens(e) + [] == ts;
    }
  }

  // ----- the translator emits the post-order -----

  lemma {:induction false} RunAppend(s: seq<Token>, t: seq<Token>, st: State)
    ensures Run(s + t, st) == Run(t, Run(s, st))
    decreases s
  {
    if s == [] {
      assert s + t == t;
    } else {
      assert (s + t)[1..] == s[1..] + t;
      RunAppend(s[1..], t, Step(s[0], st));
    }
  }

  lemma RunOne(t: Token, st: State)
    ensures Run([t], st) == Step(t, st)
  {
    assert Run([t], st) == Run([], Step(t, st));
  }

  lemma {:induction false} PopWhileTwice(p: nat, q: nat, st: State)
    requires p <= q
    ensures PopWhile(p, PopWhile(q, st)) == PopWhile(p, st)
    decreases |st.stack|
  {
    if st.stack != [] && !IsBracket(st.stack[0]) && Prec(st.stack[0]) >= q {
      PopWhileTwice(p, q, Emit(st));
    }
  }

  lemma {:induction false} PopWhileThenOpen(p: nat, st: State)
    requires p > 0
    ensures PopToOpen(PopWhile(p, st)) == PopToOpen(st)
    decreases |st.stack|
  {
    if st.stack != [] && !IsBracket(st.stack[0]) && Prec(st.stack[0]) >= p {
      PopWhileThenOpen(p, Emit(st));
    }
  }

  lemma {:induction false} PopWhileThenDrain(p: nat, st: State)
    ensures Drain(PopWhile(p, st)) == Drain(st)
    decreases |st.stack|
  {
    if st.stack != [] && !IsBracket(st.stack[0]) && Prec(st.stack[0]) >= p {
      PopWhileThenDrain(p, Emit(st));
    }
  }

  /** Nothing on the stack is due before an operator of precedence p. */
  predicate Settled(stack: seq<char>, p: nat) {
    stack == [] || IsBracket(stack[0]) || Prec(stack[0]) < p
  }

  lemma RunThree(s: seq<Token>, t: Token, u: seq<Token>, st: State)
    ensures Run(s + [t] + u, st) == Run(u, Step(t, Run(s, st)))
  {
    RunAppend(s + [t], u, st);
    RunAppend(s, [t], st);
    RunOne(t, Run(s, st));
  }

  lemma EmitLast(st: State, p: nat)
    requires st.stack != [] && !IsBracket(st.stack[0]) && Prec(st.stack[0]) >= p
    requires Settled(st.stack[1..], p)
    ensures PopWhile(p, st) == Emit(st)
  {
  }

  lemma AroundOperator(tl: seq<Token>, pl: seq<Token>, op: char, tr: seq<Token>, pr: seq<Token>, p: nat, st: State)
    requires IsOperator(op) && p <= Prec(op) && Settled(st.stack, p)
    requires PopWhile(Prec(op), Run(tl, st)) == State(st.out + pl, st.stack)
    requires var mid := State(st.out + pl, [op] + st.stack);
      PopWhile(Prec(op) + 1, Run(tr, mid)) == State(mid.out + pr, mid.stack)
    ensures PopWhile(p, Run(tl + [Sym(op)] + tr, st)) == State(st.out + (pl + pr + [Sym(op)]), st.stack)
  {
    var mid := State(st.out + pl, [op] + st.stack);
    RunThree(tl, Sym(op), tr, st);
    assert Step(Sym(op), Run(tl, st)) == mid;
    PopWhileTwice(p, Prec(op) + 1, Run(tr, mid));
    EmitLast(State(mid.out + pr, mid.stack), p);
    assert st.out + pl + pr + [Sym(op)] == st.out + (pl + pr + [Sym(op)]);
  }

  lemma AroundBrackets(o: char, tb: seq<Token>, pb: seq<Token>, c: char, p: nat, st: State)
    requires IsOpen(o) && IsClose(c) && Settled(st.stack, p)
    requires PopWhile(1, Run(tb, Push(o, st))) == State(st.out + pb, [o] + st.stack)
    ensures PopWhile(p, Run([Sym(o)] + tb + [Sym(c)], st)) == State(st.out + pb, st.stack)
  {
    var inner := Push(o, st);
    assert Run([Sym(o)] + tb + [Sym(c)], st) == PopToOpen(Run(tb, inner)) by {
      RunAppend([Sym(o)] + tb, [Sym(c)], st);
      RunAppend([Sym(o)], tb, st);
      RunOne(Sym(o), st);
      RunOne(Sym(c), Run(tb, inner));
    }
    PopWhileThenOpen(1, Run(tb, inner));
    assert ([o] + st.stack)[1..] == st.stack;
  }

  /** Translating an expression of at least level p over a settled stack, then emitting what
      precedence p calls for, adds exactly the expression's post-order and restores the stack. */
  lemma {:induction false} ShuntsToPostOrder(e: Expr, p: nat, st: State)
    requires WellFormed(e) && 1 <= p <= Level(e) && Settled(st.stack, p)
    ensures PopWhile(p, Run(Tokens(e), st)) == State(st.out + PostOrder(e), st.stack)
    decreases e
  {
    match e
    case Leaf(text) =>
      RunOne(Num(text), st);
    case Group(o, b, c) =>
      ShuntsToPostOrder(b, 1, Push(o, st));
      AroundBrackets(o, Tokens(b), PostOrder(b), c, p, st);
    case Bin(l, op, r) =>
      ShuntsToPostOrder(l, Prec(op), st);
      ShuntsToPostOrder(r, Prec(op) + 1, State(st.out + PostOrder(l), [op] + st.stack));
      AroundOperator(Tokens(l), PostOrder(l), op, Tokens(r), PostOrder(r), p, st);
  }

  /** The tokens a stack turns into when it is drained. */
  function Symbols(stack: seq<char>): seq<Token> {
    if stack == [] then [] else [Sym(stack[0])] + Symbols(stack[1..])
  }

  lemma {:induction false} DrainEmitsAll(st: State)
    ensures Drain(st) == State(st.out + Symbols(st.stack), [])
    decreases |st.stack|
  {
    if st.stack != [] {
      DrainEmitsAll(Emit(st));
      assert st.out + [Sym(st.stack[0])] + Symbols(st.stack[1..]) == st.out + Symbols(st.stack);
    }
  }

  /** Over a stack that holds no operator, the translation is the post-order followed by what
      the stack held. */
  lemma PostfixOverLeftovers(e: Expr, stack: seq<char>)
    requires WellFormed(e) && Settled(stack, 1)
    ensures Postfix(Tokens(e), stack) == PostOrder(e) + Symbols(stack)
  {
    var st := State([], stack);
    ShuntsToPostOrder(e, 1, st);
    PopWhileThenDrain(1, Run(Tokens(e), st));
    assert st.out + PostOrder(e) == PostOrder(e);
    DrainEmitsAll(State(PostOrder(e), stack));
  }

  /** From an empty stack, the translation of an expression is its post-order. */
  lemma PostfixIsPostOrder(e: Expr)
    requires WellFormed(e)
    ensures Postfix(Tokens(e), []) == PostOrder(e)
  {
    PostfixOverLeftovers(e, []);
  }

  /** Expressions with the same tokens have the same post-order: the grammar is unambiguous up to
      brackets. */
  lemma {:induction false} Unambiguous(e: Expr, f: Expr)
    requires WellFormed(e) && WellFormed(f) && Tokens(e) == Tokens(f)
    ensures PostOrder(e) == PostOrder(f)
  {
    PostfixIsPostOrder(e);
    PostfixIsPostOrder(f);
  }

  // ----- an operator left on the stack -----

  lemma {:induction false} PopsGrow(p: nat, st: State)
    ensures st.out <= PopWhile(p, st).out && st.out <= PopToOpen(st).out && st.out <= Drain(st).out
    decreases |st.stack|
  {
    if st.stack != [] {
      PopsGrow(p, Emit(st));
    }
  }

  lemma {:induction false} RunGrows(ts: seq<Token>, st: State)
    ensures st.out <= Run(ts, st).out
    decreases ts
  {
    if ts != [] {
      if ts[0].Sym? {
        PopsGrow(Prec(ts[0].c), st);
      }
      RunGrows(ts[1..], Step(ts[0], st));
    }
  }

  /** The first operand, in the order of the text, that binds tighter than q. */
  function Leftmost(e: Expr, q: nat): Expr {
    if Level(e) > q || !e.Bin? then e else Leftmost(e.left, q)
  }

  lemma PopsTop(p: nat, q: nat, st: State)
    requires p <= q && PopWhile(q + 1, st).stack != []
    requires var top := PopWhile(q + 1, st).stack[0]; !IsBracket(top) && Prec(top) == q
    ensures var mid := PopWhile(q + 1, st);
      mid.out + [Sym(mid.stack[0])] <= PopWhile(p, st).out
  {
    PopWhileTwice(p, q + 1, st);
    PopsGrow(p, Emit(PopWhile(q + 1, st)));
  }

  lemma PrefixTransitive(a: seq<Token>, b: seq<Token>, c: seq<Token>)
    requires a <= b && b <= c
    ensures a <= c
  {}

  lemma EmittedBefore(x: seq<Token>, tl: seq<Token>, op: char, tr: seq<Token>, st: State)
    requires IsOperator(op) && x <= PopWhile(Prec(op), Run(tl, st)).out
    ensures x <= Run(tl + [Sym(op)] + tr, st).out
  {
    RunThree(tl, Sym(op), tr, st);
    RunGrows(tr, Step(Sym(op), Run(tl, st)));
  }

  /** An operator left by an earlier call is emitted right after a first operand, when the
      expression has an operator that binds no tighter. */
  lemma {:induction false} LeftoverEmitted(e: Expr, st: State)
    requires WellFormed(e) && st.stack != [] && IsOperator(st.stack[0]) && Level(e) <= Prec(st.stack[0])
    ensures var x := Leftmost(e, Prec(st.stack[0]));
      st.out + PostOrder(x) + [Sym(st.stack[0])] <= Run(Tokens(e), st).out
    decreases e
  {
    var q := Prec(st.stack[0]);
    var l, op, r := e.left, e.op, e.right;
    var after := Run(Tokens(l), st);
    var x := st.out + PostOrder(Leftmost(l, q)) + [Sym(st.stack[0])];
    if Level(l) > q {
      ShuntsToPostOrder(l, q + 1, st);
      PopsTop(Prec(op), q, after);
    } else {
      LeftoverEmitted(l, st);
      PopsGrow(Prec(op), after);
      PrefixTransitive(x, after.out, PopWhile(Prec(op), after).out);
    }
    EmittedBefore(x, Tokens(l), op, Tokens(r), st);
  }

  /** Whatever the expression, an operator left on top of the stack meets a single operand. */
  lemma LeftoverMeetsOne(e: Expr, stack: seq<char>)
    requires WellFormed(e) && stack != [] && IsOperator(stack[0])
    ensures PostOrder(Leftmost(e, Prec(stack[0]))) + [Sym(stack[0])] <= Postfix(Tokens(e), stack)
  {
    var q, st := Prec(stack[0]), State([], stack);
    var end := Run(Tokens(e), st);
    if Level(e) > q {
      ShuntsToPostOrder(e, q + 1, st);
      PopWhileThenDrain(q + 1, end);
      PopsGrow(0, Emit(PopWhile(q + 1, end)));
    } else {
      LeftoverEmitted(e, st);
      PopsGrow(0, end);
    }
    assert [] + PostOrder(Leftmost(e, q)) == PostOrder(Leftmost(e, q));
  }

  // ----- what holds of any input -----

  /** The numbers of a token list, in order. */
  function Numbers(ts: seq<Token>): seq<Token> {
    if ts == [] then [] else NumberIn(ts[0]) + Numbers(ts[1..])
  }

  function NumberIn(t: Token): seq<Token> {
    if t.Num? then [t] else []
  }

  /** How often the symbol c occurs in a token list, and on a stack. */
  function Count(c: char, ts: seq<Token>): nat {
    if ts == [] then 0 else CountIn(c, ts[0]) + Count(c, ts[1..])
  }

  function CountIn(c: char, t: Token): nat {
    if t == Sym(c) then 1 else 0
  }

  function Waiting(c: char, stack: seq<char>): nat {
    if stack == [] then 0 else (if stack[0] == c then 1 else 0) + Waiting(c, stack[1..])
  }

  lemma {:induction false} AppendNumber(ts: seq<Token>, t: Token)
    ensures Numbers(ts + [t]) == Numbers(ts) + NumberIn(t)
  {
    if ts == [] {
      assert ts + [t] == [t] && [t][1..] == [];
    } else {
      assert (ts + [t])[1..] == ts[1..] + [t];
      AppendNumber(ts[1..], t);
      Framing.Associates(NumberIn(ts[0]), Numbers(ts[1..]), NumberIn(t));
    }
  }

  lemma {:induction false} AppendCount(c: char, ts: seq<Token>, t: Token)
    ensures Count(c, ts + [t]) == Count(c, ts) + CountIn(c, t)
  {
    if ts == [] {
      assert ts + [t] == [t] && [t][1..] == [];
    } else {
      assert (ts + [t])[1..] == ts[1..] + [t];
      AppendCount(c, ts[1..], t);
    }
  }

  lemma AppendOne(c: char, ts: seq<Token>, t: Token)
    ensures Numbers(ts + [t]) == Numbers(ts) + NumberIn(t)
    ensures Count(c, ts + [t]) == Count(c, ts) + CountIn(c, t)
  {
    AppendNumber(ts, t);
    AppendCount(c, ts, t);
  }

  /** Occurrences of c that have been emitted or wait on the stack. */
  function Seen(c: char, st: State): nat {
    Count(c, st.out) + Waiting(c, st.stack)
  }

  lemma EmitKeeps(c: char, st: State)
    requires st.stack != []
    ensures Numbers(Emit(st).out) == Numbers(st.out) && Seen(c, Emit(st)) == Seen(c, st)
  {
    AppendOne(c, st.out, Sym(st.stack[0]));
  }

  lemma {:induction false} PopWhileKeeps(c: char, p: nat, st: State)
    ensures Numbers(PopWhile(p, st).out) == Numbers(st.out) && Seen(c, PopWhile(p, st)) == Seen(c, st)
    decreases |st.stack|
  {
    if st.stack != [] {
      EmitKeeps(c, st);
      PopWhileKeeps(c, p, Emit(st));
    }
  }

  lemma {:induction false} PopToOpenKeeps(c: char, st: State)
    requires IsOperator(c)
    ensures Numbers(PopToOpen(st).out) == Numbers(st.out) && Seen(c, PopToOpen(st)) == Seen(c, st)
    decreases |st.stack|
  {
    if st.stack != [] {
      EmitKeeps(c, st);
      PopToOpenKeeps(c, Emit(st));
    }
  }

  lemma {:induction false} DrainKeeps(c: char, st: State)
    ensures Drain(st).stack == []
    ensures Numbers(Drain(st).out) == Numbers(st.out) && Count(c, Drain(st).out) == Seen(c, st)
    decreases |st.stack|
  {
    if st.stack != [] {
      EmitKeeps(c, st);
      DrainKeeps(c, Emit(st));
    }
  }

  predicate Lexed(ts: seq<Token>) {
    forall t :: t in ts ==> t.Num? || IsBracket(t.c) || IsOperator(t.c)
  }

  lemma StepCounts(c: char, t: Token, st: State)
    requires IsOperator(c) && Lexed([t])
    ensures Numbers(Step(t, st).out) == Numbers(st.out) + NumberIn(t)
    ensures Seen(c, Step(t, st)) == Seen(c, st) + CountIn(c, t)
  {
    assert t in [t];
    if t.Num? {
      AppendOne(c, st.out, t);
    } else if IsClose(t.c) {
      PopToOpenKeeps(c, st);
    } else {
      PopWhileKeeps(c, Prec(t.c), st);
      var under := if IsOpen(t.c) then st else PopWhile(Prec(t.c), st);
      assert ([t.c] + under.stack)[1..] == under.stack;
    }
  }

  lemma {:induction false} RunNumbers(ts: seq<Token>, st: State)
    requires Lexed(ts)
    ensures Numbers(Run(ts, st).out) == Numbers(st.out) + Numbers(ts)
    decreases ts
  {
    if ts != [] {
      assert ts[0] in ts;
      StepCounts('+', ts[0], st);
      RunNumbers(ts[1..], Step(ts[0], st));
      Framing.Associates(Numbers(st.out), NumberIn(ts[0]), Numbers(ts[1..]));
    }
  }

  lemma {:induction false} RunSeen(c: char, ts: seq<Token>, st: State)
    requires IsOperator(c) && Lexed(ts)
    ensures Seen(c, Run(ts, st)) == Seen(c, st) + Count(c, ts)
    decreases ts
  {
    if ts != [] {
      assert ts[0] in ts;
      StepCounts(c, ts[0], st);
      RunSeen(c, ts[1..], Step(ts[0], st));
    }
  }

  /** On any input at all and over any stack, numbers come out in their order and every operator
      exactly as often as it went in or was waiting. */
  lemma NothingLost(ts: seq<Token>, c: char, stack: seq<char>)
    requires Lexed(ts) && IsOperator(c)
    ensures Numbers(Postfix(ts, stack)) == Numbers(ts)
    ensures Count(c, Postfix(ts, stack)) == Count(c, ts) + Waiting(c, stack)
  {
    var st := State([], stack);
    RunNumbers(ts, st);
    RunSeen(c, ts, st);
    DrainKeeps(c, Run(ts, st));
  }

  /** The first k characters of a stack are operators and opening brackets, and above the nearest
      bracket precedence strictly increases towards the top, down to the character below them. */
  predicate Layered(stack: seq<char>, k: nat) {
    && k <= |stack|
    && (forall i :: 0 <= i < k ==> IsOperator(stack[i]) || IsOpen(stack[i]))
    && (forall i :: 0 < i <= k && i < |stack| && IsOperator(stack[i - 1]) && IsOperator(stack[i]) ==>
          Prec(stack[i - 1]) > Prec(stack[i]))
  }

  /** Of the stack `base` it began on a translation has left all from `from` on; what it put above
      is layered, and it has emitted no bracket but those of `base`. */
  predicate Orderly(st: State, base: seq<char>, own: seq<char>, from: nat) {
    && from <= |base| && st.stack == own + base[from..]
    && Layered(st.stack, |own|)
    && forall t :: t in st.out ==> t.Num? || !IsBracket(t.c) || t.c in base
  }

  lemma LayeredRest(stack: seq<char>, k: nat)
    requires stack != [] && Layered(stack, k)
    ensures Layered(stack[1..], if k > 0 then k - 1 else 0)
  {
  }

  lemma DropOrderly(st: State, base: seq<char>, own: seq<char>, from: nat) returns (o: seq<char>, f: nat)
    requires Orderly(st, base, own, from) && st.stack != []
    ensures Orderly(st.(stack := st.stack[1..]), base, o, f)
  {
    o, f := if own == [] then own else own[1..], if own == [] then from + 1 else from;
    LayeredRest(st.stack, |own|);
    assert st.stack[1..] == o + base[f..];
  }

  lemma EmitOrderly(st: State, base: seq<char>, own: seq<char>, from: nat) returns (o: seq<char>, f: nat)
    requires Orderly(st, base, own, from) && st.stack != [] && !IsOpen(st.stack[0])
    ensures Orderly(Emit(st), base, o, f)
  {
    o, f := DropOrderly(st, base, own, from);
    assert st.stack[0] == if own == [] then base[from] else own[0];
  }

  lemma {:induction false} PopWhileOrderly(p: nat, st: State, base: seq<char>, own: seq<char>, from: nat)
    returns (o: seq<char>, f: nat)
    requires Orderly(st, base, own, from)
    ensures Orderly(PopWhile(p, st), base, o, f) && Settled(PopWhile(p, st).stack, p)
    decreases |st.stack|
  {
    o, f := own, from;
    if st.stack != [] && !IsBracket(st.stack[0]) && Prec(st.stack[0]) >= p {
      o, f := EmitOrderly(st, base, own, from);
      o, f := PopWhileOrderly(p, Emit(st), base, o, f);
    }
  }

  lemma {:induction false} PopToOpenOrderly(st: State, base: seq<char>, own: seq<char>, from: nat)
    returns (o: seq<char>, f: nat)
    requires Orderly(st, base, own, from)
    ensures Orderly(PopToOpen(st), base, o, f)
    decreases |st.stack|
  {
    o, f := own, from;
    if st.stack != [] {
      if IsOpen(st.stack[0]) || st.stack[0] == '\0' {
        o, f := DropOrderly(st, base, own, from);
      } else {
        o, f := EmitOrderly(st, base, own, from);
        o, f := PopToOpenOrderly(Emit(st), base, o, f);
      }
    }
  }

  lemma PushOrderly(c: char, st: State, base: seq<char>, own: seq<char>, from: nat)
    requires Orderly(st, base, own, from) && (IsOpen(c) || (IsOperator(c) && Settled(st.stack, Prec(c))))
    ensures Orderly(Push(c, st), base, [c] + own, from)
  {
    Framing.Associates([c], own, base[from..]);
    forall i | 0 < i <= |own| + 1 && i < |st.stack| + 1 && IsOperator(Push(c, st).stack[i - 1]) && IsOperator(Push(c, st).stack[i])
      ensures Prec(Push(c, st).stack[i - 1]) > Prec(Push(c, st).stack[i])
    {
      assert Push(c, st).stack[i] == st.stack[i - 1];
    }
  }

  lemma {:induction false} RunOrderly(ts: seq<Token>, st: State, base: seq<char>, own: seq<char>, from: nat)
    returns (o: seq<char>, f: nat)
    requires Lexed(ts) && Orderly(st, base, own, from)
    ensures Orderly(Run(ts, st), base, o, f)
    decreases ts
  {
    o, f := own, from;
    if ts != [] {
      var t := ts[0];
      assert t in ts;
      if t.Sym? && IsClose(t.c) {
        o, f := PopToOpenOrderly(st, base, own, from);
      } else if t.Sym? && IsOpen(t.c) {
        PushOrderly(t.c, st, base, own, from);
        o := [t.c] + own;
      } else if t.Sym? {
        o, f := PopWhileOrderly(Prec(t.c), st, base, own, from);
        PushOrderly(t.c, PopWhile(Prec(t.c), st), base, o, f);
        o := [t.c] + o;
      }
      o, f := RunOrderly(ts[1..], Step(t, st), base, o, f);
    }
  }

  /** At every point of every translation, over any stack: what it put on the stack is layered, so
      no three operators stand together there, and only the final drain emits its brackets. */
  lemma StackLayered(ts: seq<Token>, n: nat, base: seq<char>) returns (own: seq<char>, from: nat)
    requires Lexed(ts) && n <= |ts|
    ensures Orderly(Run(ts[..n], State([], base)), base, own, from)
    ensures forall i :: 0 <= i < |own| - 2 ==>
      !(IsOperator(own[i]) && IsOperator(own[i + 1]) && IsOperator(own[i + 2]))
  {
    assert Lexed(ts[..n]);
    assert base == [] + base[0..];
    own, from := RunOrderly(ts[..n], State([], base), base, [], 0);
    var s := Run(ts[..n], State([], base)).stack;
    forall i | 0 <= i < |own| - 2
      ensures !(IsOperator(own[i]) && IsOperator(own[i + 1]) && IsOperator(own[i + 2]))
    {
      assert own[i] == s[i] && own[i + 1] == s[i + 1] && own[i + 2] == s[i + 2];
    }
  }

  lemma {:induction false} LexLexed(s: string)
    ensures Lexed(Lex(s))
    decreases |s|
  {
    if s != [] {
      LexLexed(if IsNumeric(s[0]) then s[NumericRun(s)..] else s[1..]);
    }
  }
}
