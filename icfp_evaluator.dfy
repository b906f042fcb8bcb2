/** The ICFP reducer (src/icfp/evaluator.rs): evaluates a syntax tree by
    substitution, memoising every evaluated node in a cache. */
module IcfpEvaluator {
  import opened Wrappers
  import opened Primitives
  import opened IcfpUtil
  import opened IcfpParser

  // ---------------------------------------------------------------------
  // Substitution

  /** `replace_variable`: every free Variable whose id is bound in `vars` is
      replaced by its value; under Lambda(k, _) the id k is rebound to
      Variable(k), so an inner binder shadows an outer binding. */
  function Replace(n: Node, vars: map<nat, Node>): Node
  {
    match n
    case Variable(k) => if k in vars then vars[k] else n
    case Lambda(k, b) => Lambda(k, Replace(b, vars[k := Variable(k)]))
    case UnaryOperator(op, x) => UnaryOperator(op, Replace(x, vars))
    case BinaryOperator(op, l, r) => BinaryOperator(op, Replace(l, vars), Replace(r, vars))
    case If(c, t, e) => If(Replace(c, vars), Replace(t, vars), Replace(e, vars))
    case _ => n
  }

  /** Ids of the variables that occur outside every Lambda binding them. */
  function FreeVars(n: Node): set<nat>
  {
    match n
    case Variable(k) => {k}
    case Lambda(k, b) => FreeVars(b) - {k}
    case UnaryOperator(_, x) => FreeVars(x)
    case BinaryOperator(_, l, r) => FreeVars(l) + FreeVars(r)
    case If(c, t, e) => FreeVars(c) + FreeVars(t) + FreeVars(e)
    case _ => {}
  }

  /** `apply_one_lambda`: one beta step on a `$` node, taken on the node as
      written: the right operand is substituted unevaluated, and a left
      operand that is not literally a Lambda panics (`None`). */
  function ApplyOne(n: Node): Option<Node>
    requires n.BinaryOperator? && n.op == "$"
  {
    if n.left.Lambda? then Some(Replace(n.left.body, map[n.left.param := n.right])) else None
  }

  predicate IsApply(n: Node)
  {
    n.BinaryOperator? && n.op == "$"
  }

  // ---------------------------------------------------------------------
  // The operator tables

  /** `deconvert_integer` carried over to signed integers: a negative value
      never enters the digit loop and is not zero, so it gives "". */
  function EncodeSigned(i: int): string
  {
    if i < 0 then "" else EncodeInteger(i)
  }

  /** Result of a unary operator on an evaluated operand. */
  function ApplyUnary(op: string, v: Node): Outcome
  {
    if op == "-" then
      if v.Integer? then Value(Integer(-v.value)) else Panic
    else if op == "!" then
      if v.Boolean? then Value(Boolean(!v.b)) else Panic
    else if op == "#" then
      if v.String? then
        match EncodeText(v.text)
        case None => Panic
        case Some(wire) =>
          match DecodeInteger(wire)
          case None => Panic
          case Some(k) => Value(Integer(k))
      else Panic
    else if op == "$" then
      if v.Integer? then
        match DecodeText(EncodeSigned(v.value))
        case None => Panic
        case Some(text) => Value(String(text))
      else Panic
    else Panic
  }

  function Min(a: nat, b: nat): nat { if a < b then a else b }

  /** Result of a binary operator on evaluated operands other than `$`;
      `None` when the combination is outside the table. Division and
      remainder truncate toward zero and panic on a zero divisor; `T` and `D`
      panic on a negative count. */
  function ApplyBinary(op: string, l: Node, r: Node): Option<Outcome>
  {
    if l.Integer? && r.Integer? && op in ["+", "-", "*", "/", "%", "<", ">", "="] then
      var a, b := l.value, r.value;
      Some(
        if op == "+" then Value(Integer(a + b))
        else if op == "-" then Value(Integer(a - b))
        else if op == "*" then Value(Integer(a * b))
        else if op == "/" then (if b == 0 then Panic else Value(Integer(TruncDiv(a, b))))
        else if op == "%" then (if b == 0 then Panic else Value(Integer(TruncMod(a, b))))
        else if op == "<" then Value(Boolean(a < b))
        else if op == ">" then Value(Boolean(a > b))
        else Value(Boolean(a == b)))
    else if l.String? && r.String? && op == "=" then Some(Value(Boolean(l.text == r.text)))
    else if l.Boolean? && r.Boolean? && op == "=" then Some(Value(Boolean(l.b == r.b)))
    else if l.Boolean? && r.Boolean? && op == "|" then Some(Value(Boolean(l.b || r.b)))
    else if l.Boolean? && r.Boolean? && op == "&" then Some(Value(Boolean(l.b && r.b)))
    else if l.String? && r.String? && op == "." then Some(Value(String(l.text + r.text)))
    else if l.Integer? && r.String? && (op == "T" || op == "D") then
      if l.value < 0 then Some(Panic)
      else
        var k := Min(l.value, |r.text|);
        Some(Value(String(if op == "T" then r.text[..k] else r.text[k..])))
    else None
  }

  // ---------------------------------------------------------------------
  // Evaluation with fuel

  /** Result of evaluating a tree: a value, a panic, or a run that needs more
      fuel than it was given (the reducer itself may not terminate). */
  datatype Outcome = Value(node: Node) | Panic | OutOfFuel

  /** `evaluate_node` without the cache, each nested evaluation costing one
      unit of fuel. */
  function Eval(n: Node, fuel: nat): Outcome
    decreases fuel, 0
  {
    if fuel == 0 then OutOfFuel
    else match n
      case UnaryOperator(op, x) => EvalUnary(op, x, fuel - 1)
      case BinaryOperator(_, _, _) => EvalBinary(n, fuel - 1)
      case If(c, t, e) => EvalIf(c, t, e, fuel - 1)
      case _ => Value(n)
  }

  /** The If arm of `evaluate_node`: the condition, then the branch it
      selects; a condition that is not a Boolean panics. */
  function EvalIf(c: Node, t: Node, e: Node, fuel: nat): Outcome
    decreases fuel, 1
  {
    match Eval(c, fuel)
    case Value(v) =>
      if v == Boolean(true) then Eval(t, fuel)
      else if v == Boolean(false) then Eval(e, fuel)
      else Panic
    case other => other
  }

  /** `evaluate_unary_operator`: the operand first, then the table. */
  function EvalUnary(op: string, x: Node, fuel: nat): Outcome
    decreases fuel, 1
  {
    match Eval(x, fuel)
    case Value(v) => ApplyUnary(op, v)
    case other => other
  }

  /** `evaluate_binary_operator`: left operand, then right operand, then
      application of a Lambda, the chain of one-step applications when both
      sides are Lambdas, the table, or the node itself unreduced. */
  function EvalBinary(n: Node, fuel: nat): Outcome
    requires n.BinaryOperator?
    decreases fuel, 2
  {
    match Eval(n.left, fuel)
    case Value(lv) =>
      (match Eval(n.right, fuel)
       case Value(rv) => Combine(n, lv, rv, fuel)
       case other => other)
    case other => other
  }

  /** What a binary node does once both operands have values. */
  function Combine(n: Node, lv: Node, rv: Node, fuel: nat): Outcome
    requires n.BinaryOperator?
    decreases fuel, 1
  {
    if n.op == "$" && lv.Lambda? && rv.Lambda? then Chain(n, fuel)
    else if n.op == "$" && lv.Lambda? then Eval(Replace(lv.body, map[lv.param := rv]), fuel)
    else
      match ApplyBinary(n.op, lv, rv)
      case Some(o) => o
      case None => Value(n)
  }

  /** The `Lambda $ Lambda` loop: one-step applications while the result is
      again a `$` node; the first other result is returned as it is. */
  function Chain(n: Node, fuel: nat): Outcome
    requires IsApply(n)
    decreases fuel
  {
    ChainFrom(ApplyOne(n), fuel)
  }

  function ChainFrom(o: Option<Node>, fuel: nat): Outcome
    decreases fuel, 0
  {
    match o
    case None => Panic
    case Some(m) =>
      if IsApply(m) then (if fuel == 0 then OutOfFuel else Chain(m, fuel - 1)) else Value(m)
  }

  /** `evaluate`: a second pass over the result unless it is a String or an
      Integer. */
  function Run(n: Node, fuel: nat): Outcome
  {
    match Eval(n, fuel)
    case Value(v) => if v.String? || v.Integer? then Value(v) else Eval(v, fuel)
    case other => other
  }

  // ---------------------------------------------------------------------
  // Fuel: more fuel never changes a finished result

  lemma {:induction false} EvalMonotone(n: Node, f: nat, g: nat)
    requires f <= g && Eval(n, f) != OutOfFuel
    ensures Eval(n, g) == Eval(n, f)
    decreases f, 0
  {
    match n
    case UnaryOperator(op, x) =>
      EvalMonotone(x, f - 1, g - 1);
    case BinaryOperator(_, _, _) =>
      EvalBinaryMonotone(n, f - 1, g - 1);
    case If(c, t, e) =>
      EvalIfMonotone(c, t, e, f - 1, g - 1);
    case _ =>
  }

  /** The outcome of an If once its condition gave a Boolean v with fuel cu
      and the selected branch gave br with fuel bu. */
  lemma IfBranchOutcome(c: Node, t: Node, e: Node, v: Node, cu: nat, bu: nat, fuel: nat, br: Outcome)
    requires Eval(c, cu) == Value(v) && (v == Boolean(true) || v == Boolean(false))
    requires Eval(c, fuel) != OutOfFuel ==> Eval(c, fuel) == Value(v)
    requires br != OutOfFuel ==> Eval(if v == Boolean(true) then t else e, bu) == br
    requires Eval(if v == Boolean(true) then t else e, fuel) != OutOfFuel
             ==> br == Eval(if v == Boolean(true) then t else e, fuel)
    ensures br != OutOfFuel ==> EvalIf(c, t, e, cu + bu) == br
    ensures EvalIf(c, t, e, fuel) != OutOfFuel ==> br == EvalIf(c, t, e, fuel)
  {
    var branch := if v == Boolean(true) then t else e;
    EvalMonotone(c, cu, cu + bu);
    if br != OutOfFuel {
      EvalMonotone(branch, bu, cu + bu);
    }
  }

  /** The outcome of an If whose condition gave cond, which is not a
      Boolean: the panic or the condition's own failure. */
  lemma IfNoBranch(c: Node, t: Node, e: Node, cu: nat, fuel: nat, cond: Outcome)
    requires cond != Value(Boolean(true)) && cond != Value(Boolean(false))
    requires cond != OutOfFuel ==> Eval(c, cu) == cond
    requires Eval(c, fuel) != OutOfFuel ==> cond == Eval(c, fuel)
    ensures var r := if cond.Value? then Panic else cond;
      (r != OutOfFuel ==> EvalIf(c, t, e, cu) == r)
      && (EvalIf(c, t, e, fuel) != OutOfFuel ==> r == EvalIf(c, t, e, fuel))
  {
  }

  lemma {:induction false} EvalIfMonotone(c: Node, t: Node, e: Node, f: nat, g: nat)
    requires f <= g && EvalIf(c, t, e, f) != OutOfFuel
    ensures EvalIf(c, t, e, g) == EvalIf(c, t, e, f)
    decreases f, 1
  {
    EvalMonotone(c, f, g);
    var v := Eval(c, f);
    if v == Value(Boolean(true)) {
      EvalMonotone(t, f, g);
      assert EvalIf(c, t, e, g) == Eval(t, g);
    } else if v == Value(Boolean(false)) {
      EvalMonotone(e, f, g);
      assert EvalIf(c, t, e, g) == Eval(e, g);
    }
  }

  lemma {:induction false} EvalBinaryMonotone(n: Node, f: nat, g: nat)
    requires n.BinaryOperator? && f <= g && EvalBinary(n, f) != OutOfFuel
    ensures EvalBinary(n, g) == EvalBinary(n, f)
    decreases f, 2
  {
    EvalMonotone(n.left, f, g);
    if Eval(n.left, f).Value? {
      EvalMonotone(n.right, f, g);
      if Eval(n.right, f).Value? {
        CombineMonotone(n, Eval(n.left, f).node, Eval(n.right, f).node, f, g);
      }
    }
  }

  lemma {:induction false} CombineMonotone(n: Node, lv: Node, rv: Node, f: nat, g: nat)
    requires n.BinaryOperator? && f <= g && Combine(n, lv, rv, f) != OutOfFuel
    ensures Combine(n, lv, rv, g) == Combine(n, lv, rv, f)
    decreases f, 1
  {
    if n.op == "$" && lv.Lambda? && rv.Lambda? {
      ChainMonotone(n, f, g);
    } else if n.op == "$" && lv.Lambda? {
      EvalMonotone(Replace(lv.body, map[lv.param := rv]), f, g);
    }
  }

  lemma {:induction false} ChainMonotone(n: Node, f: nat, g: nat)
    requires IsApply(n) && f <= g && Chain(n, f) != OutOfFuel
    ensures Chain(n, g) == Chain(n, f)
    decreases f
  {
    var o := ApplyOne(n);
    if o.Some? && IsApply(o.value) {
      ChainMonotone(o.value, f - 1, g - 1);
    }
  }

  /** Two runs that both finish agree, whatever fuel each was given. */
  lemma EvalDeterministic(n: Node, f: nat, g: nat)
    requires Eval(n, f) != OutOfFuel && Eval(n, g) != OutOfFuel
    ensures Eval(n, f) == Eval(n, g)
  {
    if f <= g {
      EvalMonotone(n, f, g);
    } else {
      EvalMonotone(n, g, f);
    }
  }

  // ---------------------------------------------------------------------
  // Substitution lemmas

  /** A substitution that maps every free variable it touches to itself
      leaves the tree unchanged; in particular substituting for a variable
      that a Lambda rebinds does nothing inside that Lambda. */
  lemma {:induction false} ReplaceInert(n: Node, vars: map<nat, Node>)
    requires forall k :: k in FreeVars(n) && k in vars ==> vars[k] == Variable(k)
    ensures Replace(n, vars) == n
  {
    match n
    case Variable(k) =>
    case Lambda(k, b) =>
      ReplaceInert(b, vars[k := Variable(k)]);
    case UnaryOperator(op, x) =>
      ReplaceInert(x, vars);
    case BinaryOperator(op, l, r) =>
      ReplaceInert(l, vars);
      ReplaceInert(r, vars);
    case If(c, t, e) =>
      ReplaceInert(c, vars);
      ReplaceInert(t, vars);
      ReplaceInert(e, vars);
    case _ =>
  }

  /** Every binding either keeps its variable or supplies a closed tree. */
  predicate ClosedBindings(vars: map<nat, Node>)
  {
    forall k :: k in vars ==> vars[k] == Variable(k) || FreeVars(vars[k]) == {}
  }

  /** With closed bindings, the free variables after substitution are
      exactly those that were free and not replaced. */
  lemma {:induction false} ReplaceFreeVars(n: Node, vars: map<nat, Node>)
    requires ClosedBindings(vars)
    ensures forall x :: x in FreeVars(Replace(n, vars)) <==>
      x in FreeVars(n) && (x !in vars || vars[x] == Variable(x))
  {
    match n
    case Variable(k) =>
    case Lambda(k, b) =>
      ReplaceFreeVars(b, vars[k := Variable(k)]);
    case UnaryOperator(op, x) =>
      ReplaceFreeVars(x, vars);
    case BinaryOperator(op, l, r) =>
      ReplaceFreeVars(l, vars);
      ReplaceFreeVars(r, vars);
    case If(c, t, e) =>
      ReplaceFreeVars(c, vars);
      ReplaceFreeVars(t, vars);
      ReplaceFreeVars(e, vars);
    case _ =>
  }

  /** One beta step on a closed application gives a closed tree. */
  lemma ApplyOneClosed(n: Node)
    requires IsApply(n) && n.left.Lambda? && FreeVars(n.left) == {} && FreeVars(n.right) == {}
    ensures ApplyOne(n).Some? && FreeVars(ApplyOne(n).value) == {}
  {
    var vars := map[n.left.param := n.right];
    ReplaceFreeVars(n.left.body, vars);
  }

  /** Applying the identity Lambda gives back the argument unevaluated. */
  lemma ApplyIdentity(k: nat, arg: Node)
    ensures ApplyOne(BinaryOperator("$", Lambda(k, Variable(k)), arg)) == Some(arg)
  {
  }

  /** `test_apply_one_lambda`: one step substitutes the unevaluated
      argument and leaves the resulting `$` node unreduced. */
  lemma ApplyOneExample()
    ensures
      var f := Lambda(1, BinaryOperator("$", Variable(1), Integer(1)));
      var g := Lambda(1, BinaryOperator("$", Variable(1), Integer(2)));
      ApplyOne(BinaryOperator("$", f, g)) == Some(BinaryOperator("$", g, Integer(1)))
  {
    var g := Lambda(1, BinaryOperator("$", Variable(1), Integer(2)));
    ReplaceInert(g, map[1 := g]);
  }

  // ---------------------------------------------------------------------
  // The operator tables

  /** `$` then `#`: an integer printed as a string reads back as the same
      integer; a negative integer prints as the empty string, which reads
      back as 0. */
  lemma IntegerStringRoundTrip(i: int)
    ensures i >= 0 ==> ApplyUnary("$", Integer(i)).Value?
    ensures i >= 0 ==> ApplyUnary("#", ApplyUnary("$", Integer(i)).node) == Value(Integer(i))
    ensures i < 0 ==> ApplyUnary("$", Integer(i)) == Value(String(""))
    ensures i < 0 ==> ApplyUnary("#", String("")) == Value(Integer(0))
  {
    if i >= 0 {
      IntegerRoundTrip(i);
      IcfpUtil.WireRoundTrip(EncodeInteger(i));
    } else {
      assert Over([], IntegerAscii);
      assert TextOf([]) == "";
      assert WireOf([]) == "";
    }
  }

  /** `#` then `$`: a string whose encoding has no leading '!' digit reads
      as an integer that prints back to the same string. */
  lemma StringIntegerRoundTrip(text: string)
    requires Over(text, StringAscii) && text != []
    requires text[0] != StringAscii[0] || text == [StringAscii[0]]
    ensures ApplyUnary("#", String(text)).Value?
    ensures ApplyUnary("$", ApplyUnary("#", String(text)).node) == Value(String(text))
  {
    TextRoundTrip(text);
    var wire := WireOf(text);
    WireLeading(text);
    CanonicalDecodeEncode(wire);
    var k := IntegerValue(wire);
    ReadText(text, wire, k);
    PrintInteger(k, wire, text);
  }

  /** `#` on a text whose encoding decodes to k. */
  lemma ReadText(text: string, wire: string, k: nat)
    requires EncodeText(text) == Some(wire) && DecodeInteger(wire) == Some(k)
    ensures ApplyUnary("#", String(text)) == Value(Integer(k))
  {
  }

  /** `$` on a non-negative k whose digits decode to text. */
  lemma PrintInteger(k: nat, wire: string, text: string)
    requires EncodeInteger(k) == wire && DecodeText(wire) == Some(text)
    ensures ApplyUnary("$", Integer(k)) == Value(String(text))
  {
  }

  /** The encoding of a text starts with the zero digit only when the text
      starts with the first StringAscii character. */
  lemma WireLeading(text: string)
    requires Over(text, StringAscii) && text != []
    requires text[0] != StringAscii[0] || text == [StringAscii[0]]
    ensures WireOf(text) != [] && (WireOf(text)[0] != '!' || WireOf(text) == "!")
  {
    IntegerAsciiShape();
    AlphabetsDistinct();
    var i := IndexOf(StringAscii, text[0]);
    assert WireOf(text)[0] == IntegerAscii[i];
    if text[0] != StringAscii[0] {
      assert i != 0;
    } else {
      assert i == 0;
      assert WireOf(text) == [IntegerAscii[0]];
    }
  }

  /** `test_evaluate_unary_operator`: negation and not. */
  lemma UnaryExamples()
    ensures ApplyUnary("-", Integer(42)) == Value(Integer(-42))
    ensures ApplyUnary("!", Boolean(true)) == Value(Boolean(false))
  {
  }

  /** `test_evaluate_unary_operator`: 15818151 prints as "test". */
  lemma IntegerToStringExample()
    ensures ApplyUnary("$", Integer(15818151)) == Value(String("test"))
  {
    var wire := EncodeInteger(15818151);
    TestDigits();
    IntegerRoundTrip(15818151);
    TestText(wire);
  }

  /** The base-94 digits of 15818151 are 19, 4, 18, 19. */
  lemma TestDigits()
    ensures EncodeInteger(15818151) == "4%34"
  {
    IntegerAsciiShape();
    assert Digits(15818151) == Digits(168278) + [IntegerAscii[19]];
    assert Digits(168278) == Digits(1790) + [IntegerAscii[18]];
    assert Digits(1790) == Digits(19) + [IntegerAscii[4]];
    assert Digits(19) == Digits(0) + [IntegerAscii[19]];
  }

  lemma TestText(wire: string)
    requires wire == "4%34"
    ensures Over(wire, IntegerAscii) && TextOf(wire) == "test"
  {
    forall i | 0 <= i < |wire|
      ensures wire[i] in IntegerAscii && StringAscii[IndexOf(IntegerAscii, wire[i])] == "test"[i]
    {
      IntegerDigit(wire[i]);
      StringAsciiAt("test"[i]);
    }
  }

  /** `test_evaluate_binary_operator`, the Integer rows: division and
      remainder truncate toward zero. */
  lemma BinaryExamples()
    ensures ApplyBinary("+", Integer(2), Integer(3)) == Some(Value(Integer(5)))
    ensures ApplyBinary("-", Integer(3), Integer(2)) == Some(Value(Integer(1)))
    ensures ApplyBinary("*", Integer(3), Integer(2)) == Some(Value(Integer(6)))
    ensures ApplyBinary("/", Integer(-7), Integer(2)) == Some(Value(Integer(-3)))
    ensures ApplyBinary("%", Integer(-7), Integer(2)) == Some(Value(Integer(-1)))
    ensures ApplyBinary("<", Integer(3), Integer(2)) == Some(Value(Boolean(false)))
    ensures ApplyBinary(">", Integer(3), Integer(2)) == Some(Value(Boolean(true)))
    ensures ApplyBinary("=", Integer(3), Integer(2)) == Some(Value(Boolean(false)))
  {
    assert TruncDiv(-7, 2) == -3;
  }

  /** `test_evaluate_binary_operator`, the Boolean and String rows. */
  lemma BinaryTextExamples()
    ensures ApplyBinary("|", Boolean(true), Boolean(false)) == Some(Value(Boolean(true)))
    ensures ApplyBinary("&", Boolean(true), Boolean(false)) == Some(Value(Boolean(false)))
    ensures ApplyBinary(".", String("te"), String("st")) == Some(Value(String("test")))
    ensures ApplyBinary("T", Integer(3), String("test")) == Some(Value(String("tes")))
    ensures ApplyBinary("D", Integer(3), String("test")) == Some(Value(String("t")))
  {
    assert "te" + "st" == "test";
    assert "test"[..3] == "tes" && "test"[3..] == "t";
  }

  /** The arithmetic and comparison rows agree with the integer operations
      on every pair of integers; a zero divisor panics. */
  lemma ArithmeticTable(a: int, b: int)
    ensures ApplyBinary("/", Integer(a), Integer(b)).Some?
    ensures b == 0 <==> ApplyBinary("/", Integer(a), Integer(b)) == Some(Panic)
    ensures b == 0 <==> ApplyBinary("%", Integer(a), Integer(b)) == Some(Panic)
    ensures b != 0 ==>
      var q := ApplyBinary("/", Integer(a), Integer(b)).value.node.value;
      var m := ApplyBinary("%", Integer(a), Integer(b)).value.node.value;
      a == b * q + m && Abs(m) < Abs(b) && (m == 0 || (m < 0 <==> a < 0))
    ensures ApplyBinary("<", Integer(a), Integer(b)) == Some(Value(Boolean(a < b)))
    ensures ApplyBinary("=", Integer(a), Integer(b)) == Some(Value(Boolean(a == b)))
  {
    if b != 0 {
      TruncDivMod(a, b);
    }
  }

  /** `T` and `D` split a string: what `T k` keeps followed by what `D k`
      drops is the whole string. */
  lemma TakeDropSplit(k: nat, text: string)
    ensures ApplyBinary("T", Integer(k), String(text)).value.Value?
    ensures ApplyBinary("D", Integer(k), String(text)).value.Value?
    ensures ApplyBinary("T", Integer(k), String(text)).value.node.text
            + ApplyBinary("D", Integer(k), String(text)).value.node.text == text
    ensures |ApplyBinary("T", Integer(k), String(text)).value.node.text| == Min(k, |text|)
  {
    var m := Min(k, |text|);
    assert text[..m] + text[m..] == text;
  }

  // ---------------------------------------------------------------------
  // Evaluation lemmas

  /** Literals, variables and Lambdas evaluate to themselves. */
  lemma ValuesSelfEvaluate(n: Node, fuel: nat)
    requires fuel >= 1
    requires n.Integer? || n.String? || n.Boolean? || n.Variable? || n.Lambda?
    ensures Eval(n, fuel) == Value(n)
  {
  }

  /** An If evaluates the branch its condition selects, and panics on a
      condition that is not a Boolean. */
  lemma IfSelects(c: Node, t: Node, e: Node, fuel: nat)
    requires fuel >= 1 && Eval(c, fuel - 1).Value?
    ensures Eval(c, fuel - 1) == Value(Boolean(true)) ==> Eval(If(c, t, e), fuel) == Eval(t, fuel - 1)
    ensures Eval(c, fuel - 1) == Value(Boolean(false)) ==> Eval(If(c, t, e), fuel) == Eval(e, fuel - 1)
    ensures !Eval(c, fuel - 1).node.Boolean? ==> Eval(If(c, t, e), fuel) == Panic
  {
  }

  /** A binary node outside the table and not an application evaluates to
      itself, unreduced. */
  lemma UnmatchedStaysUnreduced(n: Node, fuel: nat)
    requires n.BinaryOperator? && n.op != "$"
    requires Eval(n.left, fuel).Value? && Eval(n.right, fuel).Value?
    requires ApplyBinary(n.op, Eval(n.left, fuel).node, Eval(n.right, fuel).node).None?
    ensures EvalBinary(n, fuel) == Value(n)
  {
  }

  /** `test_evaluate_lambda`: a Lambda evaluates to itself, free variable
      or not. */
  lemma LambdaExamples()
    ensures Run(Lambda(1, BinaryOperator("+", Integer(1), Integer(2))), 5)
            == Value(Lambda(1, BinaryOperator("+", Integer(1), Integer(2))))
    ensures Run(Lambda(1, BinaryOperator("+", Integer(1), Variable(2))), 5)
            == Value(Lambda(1, BinaryOperator("+", Integer(1), Variable(2))))
  {
    var closed := BinaryOperator("+", Integer(1), Integer(2));
    assert Eval(closed, 5) == Value(Integer(3));
    var open := BinaryOperator("+", Integer(1), Variable(2));
    assert Eval(open, 5) == Value(open);
  }

  /** `test_evaluate_lambda`: applying `Lambda 1. 1 + v1` to 42 gives 43. */
  lemma IncrementExample()
    ensures Run(BinaryOperator("$", Lambda(1, BinaryOperator("+", Integer(1), Variable(1))), Integer(42)), 5)
            == Value(Integer(43))
  {
    assert Replace(BinaryOperator("+", Integer(1), Variable(1)), map[1 := Integer(42)])
        == BinaryOperator("+", Integer(1), Integer(42));
  }

  /** `test_evaluate_lambda`: the curried sum of 42 and 43 is 85. */
  lemma CurriedSumExample()
    ensures Run(BinaryOperator("$",
                  BinaryOperator("$", Lambda(2, Lambda(1, BinaryOperator("+", Variable(1), Variable(2)))), Integer(42)),
                  Integer(43)), 6)
            == Value(Integer(85))
  {
    CurriedPartial();
    assert Replace(BinaryOperator("+", Variable(1), Integer(42)), map[1 := Integer(43)])
        == BinaryOperator("+", Integer(43), Integer(42));
  }

  /** The first application binds v2 to 42 under the inner Lambda. */
  lemma CurriedPartial()
    ensures Eval(BinaryOperator("$", Lambda(2, Lambda(1, BinaryOperator("+", Variable(1), Variable(2)))), Integer(42)), 4)
            == Value(Lambda(1, BinaryOperator("+", Variable(1), Integer(42))))
  {
    var partial := Lambda(1, BinaryOperator("+", Variable(1), Integer(42)));
    assert Replace(Lambda(1, BinaryOperator("+", Variable(1), Variable(2))), map[2 := Integer(42)]) == partial;
  }

  /** `test_evaluate`: the "Hello World!" program, parsed, evaluates to the
      concatenated string. */
  lemma HelloWorldExample()
    ensures
      var program := BinaryOperator("$",
        BinaryOperator("$", Lambda(2, Lambda(3, Variable(2))),
          BinaryOperator(".", String("Hello"), String(" World!"))),
        Integer(42));
      Run(program, 6) == Value(String("Hello World!"))
  {
    HelloWorldInner();
    var arg := String("Hello World!");
    assert Replace(arg, map[3 := Integer(42)]) == arg;
  }

  /** The inner application binds v2 to the concatenated string. */
  lemma HelloWorldInner()
    ensures Eval(BinaryOperator("$", Lambda(2, Lambda(3, Variable(2))),
                   BinaryOperator(".", String("Hello"), String(" World!"))), 5)
            == Value(Lambda(3, String("Hello World!")))
  {
    var arg := String("Hello World!");
    assert "Hello" + " World!" == "Hello World!";
    assert Replace(Lambda(3, Variable(2)), map[2 := arg]) == Lambda(3, arg);
  }

  // ---------------------------------------------------------------------
  // The evaluator object: the program, the memo cache and the counter

  /** Every entry of the first cache is kept, unchanged, in the second. */
  predicate Extends(before: map<Node, Node>, after: map<Node, Node>)
  {
    forall k :: k in before ==> k in after && after[k] == before[k]
  }

  class Evaluator {
    const node: Node
    var cache: map<Node, Node>
    var evalCount: nat
    /** For every cached node, a fuel with which Eval reaches the cached result. */
    ghost var fuelOf: map<Node, nat>

    /** Every cache entry maps a node to what evaluating it gives. */
    ghost predicate Valid()
      reads this
    {
      forall k :: k in cache ==> k in fuelOf && Eval(k, fuelOf[k]) == Value(cache[k])
    }

    constructor (node: Node)
      ensures this.node == node && cache == map[] && evalCount == 0
      ensures Valid()
    {
      this.node := node;
      cache := map[];
      evalCount := 0;
      fuelOf := map[];
    }

    /** `evaluate`: evaluates the program, then once more unless the result
        is a String or an Integer. */
    method Evaluate(fuel: nat) returns (r: Outcome, ghost used: nat)
      requires Valid()
      modifies this
      ensures Valid()
      ensures Extends(old(cache), cache)
      ensures evalCount >= old(evalCount)
      ensures r != OutOfFuel ==> Run(node, used) == r
      ensures Run(node, fuel) != OutOfFuel ==> r == Run(node, fuel)
    {
      var first, u1 := EvaluateNode(node, fuel);
      if !first.Value? || first.node.String? || first.node.Integer? {
        return first, u1;
      }
      var second, u2 := EvaluateNode(first.node, fuel);
      r, used := second, u1 + u2;
      EvalMonotone(node, u1, used);
      if r != OutOfFuel {
        EvalMonotone(first.node, u2, used);
      }
    }

    /** `evaluate_node`: a cached node returns its stored result without
        counting; otherwise the node is counted, evaluated, and its result
        stored. */
    method EvaluateNode(n: Node, fuel: nat) returns (r: Outcome, ghost used: nat)
      requires Valid()
      modifies this
      ensures Valid()
      ensures Extends(old(cache), cache)
      ensures n in old(cache) ==> r == Value(old(cache)[n]) && cache == old(cache) && evalCount == old(evalCount)
      ensures evalCount >= old(evalCount) && (n !in old(cache) ==> evalCount > old(evalCount))
      ensures r.Value? ==> n in cache && cache[n] == r.node
      ensures r != OutOfFuel ==> Eval(n, used) == r
      ensures Eval(n, fuel) != OutOfFuel ==> r == Eval(n, fuel)
      decreases fuel, 0
    {
      if n in cache {
        r, used := Value(cache[n]), fuelOf[n];
        if Eval(n, fuel) != OutOfFuel {
          EvalDeterministic(n, used, fuel);
        }
        return;
      }
      evalCount := evalCount + 1;
      if fuel == 0 {
        return OutOfFuel, 0;
      }
      match n {
        case UnaryOperator(op, x) =>
          r, used := EvaluateUnaryOperator(op, x, fuel - 1);
          used := used + 1;
        case BinaryOperator(_, _, _) =>
          r, used := EvaluateBinaryOperator(n, fuel - 1);
          used := used + 1;
        case If(c, t, e) =>
          r, used := EvaluateIf(c, t, e, fuel - 1);
          used := used + 1;
        case _ =>
          r, used := Value(n), 1;
      }
      if r.Value? {
        cache := cache[n := r.node];
        fuelOf := fuelOf[n := used];
      }
    }

    /** The If arm of `evaluate_node`. */
    method EvaluateIf(c: Node, t: Node, e: Node, fuel: nat) returns (r: Outcome, ghost used: nat)
      requires Valid()
      modifies this
      ensures Valid()
      ensures Extends(old(cache), cache)
      ensures evalCount >= old(evalCount)
      ensures r != OutOfFuel ==> EvalIf(c, t, e, used) == r
      ensures EvalIf(c, t, e, fuel) != OutOfFuel ==> r == EvalIf(c, t, e, fuel)
      decreases fuel, 1
    {
      var condition, cu := EvaluateNode(c, fuel);
      if condition == Value(Boolean(true)) || condition == Value(Boolean(false)) {
        var branch := if condition.node == Boolean(true) then t else e;
        var br, bu := EvaluateNode(branch, fuel);
        r, used := br, cu + bu;
        IfBranchOutcome(c, t, e, condition.node, cu, bu, fuel, br);
      } else {
        r, used := if condition.Value? then Panic else condition, cu;
        IfNoBranch(c, t, e, cu, fuel, condition);
      }
    }

    /** `evaluate_unary_operator`. */
    method EvaluateUnaryOperator(op: string, operand: Node, fuel: nat) returns (r: Outcome, ghost used: nat)
      requires Valid()
      modifies this
      ensures Valid()
      ensures Extends(old(cache), cache)
      ensures evalCount >= old(evalCount)
      ensures r != OutOfFuel ==> EvalUnary(op, operand, used) == r
      ensures EvalUnary(op, operand, fuel) != OutOfFuel ==> r == EvalUnary(op, operand, fuel)
      decreases fuel, 1
    {
      var v, u := EvaluateNode(operand, fuel);
      used := u;
      if !v.Value? {
        return v, u;
      }
      r := ApplyUnary(op, v.node);
    }

    /** `evaluate_binary_operator`: both operands, then the combination. */
    method EvaluateBinaryOperator(n: Node, fuel: nat) returns (r: Outcome, ghost used: nat)
      requires n.BinaryOperator? && Valid()
      modifies this
      ensures Valid() && evalCount >= old(evalCount)
      ensures Extends(old(cache), cache)
      ensures r != OutOfFuel ==> EvalBinary(n, used) == r
      ensures EvalBinary(n, fuel) != OutOfFuel ==> r == EvalBinary(n, fuel)
      decreases fuel, 2
    {
      var left, lu := EvaluateNode(n.left, fuel);
      if !left.Value? {
        return left, lu;
      }
      var right, ru := EvaluateNode(n.right, fuel);
      if !right.Value? {
        if right != OutOfFuel {
          EvalMonotone(n.left, lu, lu + ru);
          EvalMonotone(n.right, ru, lu + ru);
        }
        return right, lu + ru;
      }
      ghost var cu;
      r, cu := EvaluateCombination(n, left.node, right.node, fuel);
      used := lu + ru + cu;
      EvalMonotone(n.left, lu, used);
      EvalMonotone(n.right, ru, used);
      if r != OutOfFuel {
        CombineMonotone(n, left.node, right.node, cu, used);
      }
    }

    /** The part of `evaluate_binary_operator` after both operands are values. */
    method EvaluateCombination(n: Node, lv: Node, rv: Node, fuel: nat) returns (r: Outcome, ghost used: nat)
      requires n.BinaryOperator? && Valid()
      modifies this
      ensures Valid() && evalCount >= old(evalCount)
      ensures Extends(old(cache), cache)
      ensures r != OutOfFuel ==> Combine(n, lv, rv, used) == r
      ensures Combine(n, lv, rv, fuel) != OutOfFuel ==> r == Combine(n, lv, rv, fuel)
      decreases fuel, 1
    {
      if n.op == "$" && lv.Lambda? && rv.Lambda? {
        r := ApplyLambdaChain(n, fuel);
        used := fuel;
      } else if n.op == "$" && lv.Lambda? {
        r, used := EvaluateNode(Replace(lv.body, map[lv.param := rv]), fuel);
      } else {
        var table := ApplyBinary(n.op, lv, rv);
        r := if table.Some? then table.value else Value(n);
        used := fuel;
      }
    }

    /** The `Lambda $ Lambda` loop, with at most `fuel` repetitions. */
    method ApplyLambdaChain(n: Node, fuel: nat) returns (r: Outcome)
      requires IsApply(n)
      ensures r == Chain(n, fuel)
    {
      var current := ApplyOne(n);
      var budget := fuel;
      while current.Some? && IsApply(current.value)
        invariant ChainFrom(current, budget) == Chain(n, fuel)
        decreases budget
      {
        if budget == 0 {
          return OutOfFuel;
        }
        current := ApplyOne(current.value);
        budget := budget - 1;
      }
      r := if current.None? then Panic else Value(current.value);
    }
  }

}
