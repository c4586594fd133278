/** What 7. calculator/calculator.c computes for the shapes its operators and brackets are told
    apart by, in the characters themselves. */
module CalculatorValues {
  import opened Framing
  import opened Infix
  import opened Calculator
  import Decimal

  // ----- literals -----

  /** text is digits a, and digits b after a dot or with none between, one digit at least. */
  predicate Shaped(text: string, a: string, b: string) {
    && Decimal.AllDigits(a) && Decimal.AllDigits(b) && a + b != ""
    && (text == a + b || text == a + ("." + b))
  }

  lemma DigitsWhole(d: string)
    requires Decimal.AllDigits(d)
    ensures Decimal.DigitRun(d) == |d|
  {
    Decimal.DigitRunBefore(d, "");
    assert d + "" == d;
  }

  lemma ShapedTaken(text: string, a: string, b: string)
    requires Shaped(text, a, b)
    ensures IsLiteral(text)
  {
    if text == a + b {
      assert Decimal.AllDigits(text);
      DigitsWhole(text);
    } else {
      Decimal.DigitRunBefore(a, "." + b);
      DigitsWhole(b);
      assert text[|a| + 1..] == b;
    }
  }

  lemma CutAt(s: string, d: nat)
    requires d < |s|
    ensures s == s[..d] + ([s[d]] + s[d + 1..])
  {}

  lemma TakenShaped(text: string) returns (a: string, b: string)
    requires IsLiteral(text)
    ensures Shaped(text, a, b)
  {
    var d := Decimal.DigitRun(text);
    a := text[..d];
    if d < |text| {
      b := text[d + 1..];
      assert b[..Decimal.DigitRun(b)] == b;
      CutAt(text, d);
    } else {
      b := "";
      assert text == a + b;
    }
  }

  /** strtod takes a run of digits and dots whole exactly when it is digits with at most one dot and
      at least one digit. */
  lemma {:induction false} LiteralIff(text: string)
    ensures IsLiteral(text) <==> exists a, b :: Shaped(text, a, b)
  {
    if IsLiteral(text) {
      var a, b := TakenShaped(text);
    }
    if a, b :| Shaped(text, a, b) {
      ShapedTaken(text, a, b);
    }
  }

  // ----- expressions -----

  /** e is well formed, of literals, spelled by these tokens, and denotes v. */
  predicate Means<V(==)>(ar: Arith<V>, e: Expr, ts: seq<Token>, v: V) {
    WellFormed(e) && Literals(e) && Tokens(e) == ts && Denotes(ar, e) == v
  }

  lemma LeafMeans<V>(ar: Arith<V>, a: string)
    requires IsLiteral(a)
    ensures Means(ar, Leaf(a), [Num(a)], ar.number(a))
  {
    LiteralIsNumeral(a);
  }

  lemma GroupMeans<V>(ar: Arith<V>, o: char, b: Expr, k: char, ts: seq<Token>, v: V)
    requires (o == '(' || o == '{' || o == '[') && (k == ')' || k == '}' || k == ']') && Means(ar, b, ts, v)
    ensures Means(ar, Group(o, b, k), [Sym(o)] + ts + [Sym(k)], v)
  {}

  lemma ProductMeans<V>(ar: Arith<V>, l: Expr, p: char, r: Expr, s: seq<Token>, t: seq<Token>, x: V, y: V)
    requires (p == '*' || p == '/') && Means(ar, l, s, x) && Means(ar, r, t, y)
    requires IsProduct(l) && IsOperand(r)
    ensures Means(ar, Bin(l, p, r), s + [Sym(p)] + t, ar.apply(p, x, y)) && IsProduct(Bin(l, p, r))
  {
    GrammarIff(Bin(l, p, r));
  }

  lemma SumMeans<V>(ar: Arith<V>, l: Expr, p: char, r: Expr, s: seq<Token>, t: seq<Token>, x: V, y: V)
    requires (p == '+' || p == '-') && Means(ar, l, s, x) && Means(ar, r, t, y)
    requires IsSum(l) && IsProduct(r)
    ensures Means(ar, Bin(l, p, r), s + [Sym(p)] + t, ar.apply(p, x, y)) && IsSum(Bin(l, p, r))
  {
    GrammarIff(Bin(l, p, r));
  }

  lemma OperandIs(e: Expr)
    requires WellFormed(e) && !e.Bin?
    ensures IsOperand(e) && IsProduct(e) && IsSum(e)
  {
    GrammarIff(e);
  }

  /** Any operator between two operands. */
  lemma PairMeans<V>(ar: Arith<V>, l: Expr, p: char, r: Expr, s: seq<Token>, t: seq<Token>, x: V, y: V)
    requires IsOneOfFour(p) && !l.Bin? && !r.Bin? && Means(ar, l, s, x) && Means(ar, r, t, y)
    ensures Means(ar, Bin(l, p, r), s + [Sym(p)] + t, ar.apply(p, x, y))
    ensures (p == '*' || p == '/') ==> IsProduct(Bin(l, p, r))
    ensures IsSum(Bin(l, p, r))
  {
    OperandIs(l);
    OperandIs(r);
    if p == '*' || p == '/' {
      ProductMeans(ar, l, p, r, s, t, x, y);
      GrammarIff(Bin(l, p, r));
    } else {
      SumMeans(ar, l, p, r, s, t, x, y);
    }
  }

  predicate IsOneOfFour(c: char) {
    c == '+' || c == '-' || c == '*' || c == '/'
  }

  lemma Evaluates<V>(ar: Arith<V>, e: Expr, ts: seq<Token>, v: V, pads: seq<nat>)
    requires Means(ar, e, ts, v) && |pads| == |ts|
    ensures Eval(ar, Spell(ts, pads), []) == (Value(v), [])
  {
    AnySpacingEvaluates(ar, e, pads);
  }

  /** `*` and `/` before `+` and `-` on either side, and otherwise from left to right: the value of
      every three literals under every two operators, with any blanks between. */
  lemma {:induction false} PrecedenceValues<V>(ar: Arith<V>, a: string, p: char, b: string, q: char, c: string, pads: seq<nat>)
    requires IsLiteral(a) && IsLiteral(b) && IsLiteral(c) && |pads| == 5
    requires IsOneOfFour(p) && IsOneOfFour(q)
    ensures var x, y, z := ar.number(a), ar.number(b), ar.number(c);
      Eval(ar, Spell([Num(a), Sym(p), Num(b), Sym(q), Num(c)], pads), []) ==
        if (p == '+' || p == '-') && (q == '*' || q == '/') then (Value(ar.apply(p, x, ar.apply(q, y, z))), [])
        else (Value(ar.apply(q, ar.apply(p, x, y), z)), [])
  {
    var x, y, z := ar.number(a), ar.number(b), ar.number(c);
    var ts := [Num(a), Sym(p), Num(b), Sym(q), Num(c)];
    LeafMeans(ar, a);
    LeafMeans(ar, b);
    LeafMeans(ar, c);
    OperandIs(Leaf(a));
    OperandIs(Leaf(c));
    if (p == '+' || p == '-') && (q == '*' || q == '/') {
      var inner := Bin(Leaf(b), q, Leaf(c));
      PairMeans(ar, Leaf(b), q, Leaf(c), [Num(b)], [Num(c)], y, z);
      SumMeans(ar, Leaf(a), p, inner, [Num(a)], [Num(b)] + [Sym(q)] + [Num(c)], x, ar.apply(q, y, z));
      assert [Num(a)] + [Sym(p)] + ([Num(b)] + [Sym(q)] + [Num(c)]) == ts;
      Evaluates(ar, Bin(Leaf(a), p, inner), ts, ar.apply(p, x, ar.apply(q, y, z)), pads);
    } else {
      var inner, front := Bin(Leaf(a), p, Leaf(b)), [Num(a)] + [Sym(p)] + [Num(b)];
      PairMeans(ar, Leaf(a), p, Leaf(b), [Num(a)], [Num(b)], x, y);
      if q == '*' || q == '/' {
        ProductMeans(ar, inner, q, Leaf(c), front, [Num(c)], ar.apply(p, x, y), z);
      } else {
        SumMeans(ar, inner, q, Leaf(c), front, [Num(c)], ar.apply(p, x, y), z);
      }
      assert front + [Sym(q)] + [Num(c)] == ts;
      Evaluates(ar, Bin(inner, q, Leaf(c)), ts, ar.apply(q, ar.apply(p, x, y), z), pads);
    }
  }

  /** Brackets of any kind, even a pair of two kinds, override both. */
  lemma {:induction false} BracketValues<V>(ar: Arith<V>, o: char, k: char, a: string, p: char, b: string, q: char, c: string, pads: seq<nat>)
    requires IsLiteral(a) && IsLiteral(b) && IsLiteral(c) && |pads| == 7
    requires (o == '(' || o == '{' || o == '[') && (k == ')' || k == '}' || k == ']')
    requires IsOneOfFour(p) && IsOneOfFour(q)
    ensures var x, y, z := ar.number(a), ar.number(b), ar.number(c);
      && Eval(ar, Spell([Sym(o), Num(a), Sym(p), Num(b), Sym(k), Sym(q), Num(c)], pads), [])
        == (Value(ar.apply(q, ar.apply(p, x, y), z)), [])
      && Eval(ar, Spell([Num(a), Sym(p), Sym(o), Num(b), Sym(q), Num(c), Sym(k)], pads), [])
        == (Value(ar.apply(p, x, ar.apply(q, y, z))), [])
  {
    BracketLeft(ar, o, k, a, p, b, q, c, pads);
    BracketRight(ar, o, k, a, p, b, q, c, pads);
  }

  lemma BracketLeft<V>(ar: Arith<V>, o: char, k: char, a: string, p: char, b: string, q: char, c: string, pads: seq<nat>)
    requires IsLiteral(a) && IsLiteral(b) && IsLiteral(c) && |pads| == 7
    requires (o == '(' || o == '{' || o == '[') && (k == ')' || k == '}' || k == ']')
    requires IsOneOfFour(p) && IsOneOfFour(q)
    ensures var x, y, z := ar.number(a), ar.number(b), ar.number(c);
      Eval(ar, Spell([Sym(o), Num(a), Sym(p), Num(b), Sym(k), Sym(q), Num(c)], pads), [])
        == (Value(ar.apply(q, ar.apply(p, x, y), z)), [])
  {
    var x, y, z := ar.number(a), ar.number(b), ar.number(c);
    var ts := [Sym(o), Num(a), Sym(p), Num(b), Sym(k), Sym(q), Num(c)];
    LeafMeans(ar, a);
    LeafMeans(ar, b);
    LeafMeans(ar, c);
    var pair, body := Bin(Leaf(a), p, Leaf(b)), [Num(a)] + [Sym(p)] + [Num(b)];
    PairMeans(ar, Leaf(a), p, Leaf(b), [Num(a)], [Num(b)], x, y);
    GroupMeans(ar, o, pair, k, body, ar.apply(p, x, y));
    var group, inside := Group(o, pair, k), [Sym(o)] + body + [Sym(k)];
    PairMeans(ar, group, q, Leaf(c), inside, [Num(c)], ar.apply(p, x, y), z);
    assert inside + [Sym(q)] + [Num(c)] == ts;
    Evaluates(ar, Bin(group, q, Leaf(c)), ts, ar.apply(q, ar.apply(p, x, y), z), pads);
  }

  lemma BracketRight<V>(ar: Arith<V>, o: char, k: char, a: string, p: char, b: string, q: char, c: string, pads: seq<nat>)
    requires IsLiteral(a) && IsLiteral(b) && IsLiteral(c) && |pads| == 7
    requires (o == '(' || o == '{' || o == '[') && (k == ')' || k == '}' || k == ']')
    requires IsOneOfFour(p) && IsOneOfFour(q)
    ensures var x, y, z := ar.number(a), ar.number(b), ar.number(c);
      Eval(ar, Spell([Num(a), Sym(p), Sym(o), Num(b), Sym(q), Num(c), Sym(k)], pads), [])
        == (Value(ar.apply(p, x, ar.apply(q, y, z))), [])
  {
    var x, y, z := ar.number(a), ar.number(b), ar.number(c);
    var ts := [Num(a), Sym(p), Sym(o), Num(b), Sym(q), Num(c), Sym(k)];
    LeafMeans(ar, a);
    LeafMeans(ar, b);
    LeafMeans(ar, c);
    var pair, body := Bin(Leaf(b), q, Leaf(c)), [Num(b)] + [Sym(q)] + [Num(c)];
    PairMeans(ar, Leaf(b), q, Leaf(c), [Num(b)], [Num(c)], y, z);
    GroupMeans(ar, o, pair, k, body, ar.apply(q, y, z));
    var group, inside := Group(o, pair, k), [Sym(o)] + body + [Sym(k)];
    PairMeans(ar, Leaf(a), p, group, [Num(a)], inside, x, ar.apply(q, y, z));
    assert [Num(a)] + [Sym(p)] + inside == ts;
    Evaluates(ar, Bin(Leaf(a), p, group), ts, ar.apply(p, x, ar.apply(q, y, z)), pads);
  }

  // ----- what is not an expression -----

  /** Of digits and dots strtod takes the digits up to a second dot, and a dot alone not at all. */
  lemma {:induction false} StrtodTakes(a: string, b: string, rest: string)
    requires Decimal.AllDigits(a) && Decimal.AllDigits(b) && (rest == "" || !Decimal.IsDigit(rest[0]))
    ensures StrtodLength(a + ("." + (b + rest))) == if a + b == "" then 0 else |a| + 1 + |b|
    ensures rest == "" || rest[0] != '.' ==> StrtodLength(a + rest) == |a|
  {
    Decimal.DigitRunBefore(a, "." + (b + rest));
    Decimal.DigitRunBefore(b, rest);
    Decimal.DigitRunBefore(a, rest);
    assert (a + ("." + (b + rest)))[|a| + 1..] == b + rest;
  }

  /** Literals, one after another. */
  function Literally(ls: seq<string>): seq<Token> {
    if ls == [] then [] else [Num(ls[0])] + Literally(ls[1..])
  }

  /** Their numbers, the last on top, above what is there. */
  function Stacked<V>(ar: Arith<V>, ls: seq<string>, vals: seq<V>): seq<V>
    decreases ls
  {
    if ls == [] then vals else Stacked(ar, ls[1..], [ar.number(ls[0])] + vals)
  }

  lemma {:induction false} LiteralsStack<V>(ar: Arith<V>, ls: seq<string>, rest: seq<Token>, vals: seq<V>)
    ensures EvalTokens(ar, Literally(ls) + rest, vals) == EvalTokens(ar, rest, Stacked(ar, ls, vals))
    decreases ls
  {
    if ls == [] {
      assert Literally(ls) + rest == rest;
    } else {
      assert (Literally(ls) + rest)[1..] == Literally(ls[1..]) + rest;
      LiteralsStack(ar, ls[1..], rest, [ar.number(ls[0])] + vals);
    }
  }

  lemma {:induction false} LiterallyReadable(ls: seq<string>)
    requires forall l :: l in ls ==> IsLiteral(l)
    ensures Readable(Literally(ls))
  {
    if ls != [] {
      LiteralIsNumeral(ls[0]);
      LiterallyReadable(ls[1..]);
    }
  }

  lemma {:induction false} StackedLength<V>(ar: Arith<V>, ls: seq<string>, vals: seq<V>)
    ensures |Stacked(ar, ls, vals)| == |ls| + |vals|
    decreases ls
  {
    if ls != [] {
      StackedLength(ar, ls[1..], [ar.number(ls[0])] + vals);
    }
  }

  lemma SymbolLast<V>(ar: Arith<V>, o: char, vals: seq<V>)
    requires o == '(' || o == '{' || o == '['
    ensures EvalTokens(ar, [Sym(o)], vals) == if |vals| < 2 then None else Some(vals[2..])
  {
    assert [Sym(o)][1..] == [];
    assert |vals| >= 2 ==> Operate(ar, o, vals) == vals[2..];
  }

  /** A bracket left in the postfix text takes two operands away and leaves nothing: after any
      literals the result is the third from the last, and with fewer than three it is an underflow. */
  lemma {:induction false} BracketEats<V>(ar: Arith<V>, ls: seq<string>, o: char)
    requires (forall l :: l in ls ==> IsLiteral(l)) && (o == '(' || o == '{' || o == '[')
    ensures var outcome, vals := EvalText(ar, Render(Literally(ls) + [Sym(o)]), []).0, Stacked(ar, ls, []);
      |vals| == |ls| && outcome == if |vals| < 3 then Underflow else Value(vals[2])
  {
    LiterallyReadable(ls);
    EvalTextReads(ar, Literally(ls) + [Sym(o)], []);
    LiteralsStack(ar, ls, [Sym(o)], []);
    StackedLength(ar, ls, []);
    SymbolLast(ar, o, Stacked(ar, ls, []));
  }

  /** A NUL left on the stack passes for an opening bracket when a closing one looks for its own. */
  lemma {:induction false} NulPopped(k: char, stack: seq<char>)
    requires k == ')' || k == '}' || k == ']'
    ensures Run([Sym(k)], State([], ['\0'] + stack)) == State([], stack)
  {
    RunOne(Sym(k), State([], ['\0'] + stack));
    assert (['\0'] + stack)[1..] == stack;
  }
}
