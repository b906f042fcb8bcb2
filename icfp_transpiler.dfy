/** The Common Lisp printer (src/icfp/transpiler.rs): turns a syntax tree
    into the text of an equivalent Lisp expression. */
module IcfpTranspiler {
  import opened Wrappers
  import opened Primitives
  import opened IcfpUtil
  import opened IcfpParser

  /** `transpile_node`. */
  function Transpile(n: Node): (r: string)
    ensures r != []
  {
    match n
    case Integer(v) => IntegerText(v)
    case String(s) => "\"" + s + "\""
    case Boolean(b) => if b then "1" else "nil"
    case Variable(k) => VariableName(k)
    case UnaryOperator(op, x) =>
      if op == "-" then "-" + Transpile(x)
      else if op == "!" then (if x == Boolean(true) then "nil" else "1")
      else op + " " + Transpile(x)
    case BinaryOperator(op, l, r) =>
      if op == "." then "(concatenate 'string " + Transpile(l) + " " + Transpile(r) + ")"
      else if op == "$" then "(funcall " + Transpile(l) + " " + Transpile(r) + ")"
      else if op == "=" then "(== " + Transpile(l) + " " + Transpile(r) + ")"
      else "(" + op + " " + Transpile(l) + " " + Transpile(r) + ")"
    case If(c, t, e) => "(if " + Transpile(c) + " " + Transpile(t) + " " + Transpile(e) + ")"
    case Lambda(k, b) => "(lambda (" + VariableName(k) + ") " + Transpile(b) + ")"
  }

  /** `value.to_string()` of an integer; reads back as the same integer. */
  function IntegerText(v: int): (r: string)
    ensures r != [] && ParseInt(r) == Some(v)
  {
    IntToDecimalRoundTrip(v);
    IntToDecimal(v)
  }

  /** `v<id>`: the name a variable and its binder print as. */
  function VariableName(k: nat): (r: string)
    ensures |r| >= 2 && r[0] == 'v' && AllDigits(r[1..])
    ensures DecimalValue(r[1..]) == k
  {
    NatToDecimalDigits(k);
    assert ("v" + NatToDecimal(k))[1..] == NatToDecimal(k);
    "v" + NatToDecimal(k)
  }

  /** Distinct ids print as distinct names. */
  lemma VariableNamesDistinct(j: nat, k: nat)
    ensures VariableName(j) == VariableName(k) <==> j == k
  {
  }

  /** `!` looks only at whether its operand is literally `true`: the operand
      itself is never printed. */
  lemma NotIgnoresOperand(x: Node, y: Node)
    requires x != Boolean(true) && y != Boolean(true)
    ensures Transpile(UnaryOperator("!", x)) == Transpile(UnaryOperator("!", y)) == "1"
    ensures Transpile(UnaryOperator("!", Boolean(true))) == "nil"
  {
  }

  // ---------------------------------------------------------------------
  // Balanced parentheses

  function Delta(c: char): int
  {
    if c == '(' then 1 else if c == ')' then -1 else 0
  }

  /** Opening minus closing parentheses. */
  function Net(s: string): int
  {
    if s == [] then 0 else Net(s[..|s| - 1]) + Delta(s[|s| - 1])
  }

  /** Every prefix opens at least as many parentheses as it closes, and the
      whole string closes them all. */
  predicate Balanced(s: string)
  {
    Net(s) == 0 && forall i :: 0 <= i <= |s| ==> Net(s[..i]) >= 0
  }

  predicate ParenFree(s: string)
  {
    forall i :: 0 <= i < |s| ==> s[i] != '(' && s[i] != ')'
  }

  /** String payloads and operator names carry no parentheses. */
  predicate ParenFreeTree(n: Node)
  {
    match n
    case String(s) => ParenFree(s)
    case UnaryOperator(op, x) => ParenFree(op) && ParenFreeTree(x)
    case BinaryOperator(op, l, r) => ParenFree(op) && ParenFreeTree(l) && ParenFreeTree(r)
    case If(c, t, e) => ParenFreeTree(c) && ParenFreeTree(t) && ParenFreeTree(e)
    case Lambda(_, b) => ParenFreeTree(b)
    case _ => true
  }

  lemma {:induction false} NetConcat(a: string, b: string)
    ensures Net(a + b) == Net(a) + Net(b)
    decreases |b|
  {
    if b != [] {
      var b' := b[..|b| - 1];
      assert (a + b)[..|a + b| - 1] == a + b';
      NetConcat(a, b');
    } else {
      assert a + b == a;
    }
  }

  lemma {:induction false} ParenFreeNet(s: string)
    requires ParenFree(s)
    ensures Net(s) == 0
    decreases |s|
  {
    if s != [] {
      ParenFreeNet(s[..|s| - 1]);
    }
  }

  lemma ParenFreeBalanced(s: string)
    requires ParenFree(s)
    ensures Balanced(s)
  {
    forall i | 0 <= i <= |s|
      ensures Net(s[..i]) >= 0
    {
      ParenFreeNet(s[..i]);
    }
    ParenFreeNet(s);
  }

  lemma BalancedConcat(a: string, b: string)
    requires Balanced(a) && Balanced(b)
    ensures Balanced(a + b)
  {
    NetConcat(a, b);
    forall i | 0 <= i <= |a + b|
      ensures Net((a + b)[..i]) >= 0
    {
      if i <= |a| {
        assert (a + b)[..i] == a[..i];
      } else {
        assert (a + b)[..i] == a + b[..i - |a|];
        NetConcat(a, b[..i - |a|]);
      }
    }
  }

  /** Wrapping a string with one balanced-interior pair of parentheses. */
  lemma BalancedWrap(s: string)
    requires Balanced(s)
    ensures Balanced("(" + s + ")")
  {
    var w := "(" + s + ")";
    NetConcat("(", s);
    NetConcat("(" + s, ")");
    assert Net("(") == 1 && Net(")") == -1;
    forall i | 0 <= i <= |w|
      ensures Net(w[..i]) >= 0
    {
      if i == 0 {
      } else if i <= |s| + 1 {
        assert w[..i] == "(" + s[..i - 1];
        NetConcat("(", s[..i - 1]);
      } else {
        assert w[..i] == w;
      }
    }
  }

  lemma Balanced3(a: string, b: string, c: string)
    requires Balanced(a) && Balanced(b) && Balanced(c)
    ensures Balanced(a + b + c)
  {
    BalancedConcat(a, b);
    BalancedConcat(a + b, c);
  }

  lemma DecimalParenFree(v: int)
    ensures ParenFree(IntegerText(v)) && ParenFree(VariableName(Abs(v)))
  {
    NatToDecimalDigits(Abs(v));
  }

  /** With parenthesis-free payloads and operator names, the printed
      expression has balanced parentheses. */
  lemma {:induction false} TranspileBalanced(n: Node)
    requires ParenFreeTree(n)
    ensures Balanced(Transpile(n))
  {
    match n
    case Integer(v) =>
      DecimalParenFree(v);
      ParenFreeBalanced(Transpile(n));
    case String(s) =>
      assert ParenFree(Transpile(n));
      ParenFreeBalanced(Transpile(n));
    case Boolean(b) =>
      ParenFreeBalanced(Transpile(n));
    case Variable(k) =>
      DecimalParenFree(k);
      ParenFreeBalanced(Transpile(n));
    case UnaryOperator(op, x) =>
      TranspileBalanced(x);
      UnaryBalanced(op, x);
    case BinaryOperator(op, l, r) =>
      TranspileBalanced(l);
      TranspileBalanced(r);
      BinaryBalanced(op, l, r);
    case If(c, t, e) =>
      TranspileBalanced(c);
      TranspileBalanced(t);
      TranspileBalanced(e);
      IfBalanced(c, t, e);
    case Lambda(k, b) =>
      TranspileBalanced(b);
      LambdaBalanced(k, b);
  }

  lemma UnaryBalanced(op: string, x: Node)
    requires ParenFree(op) && Balanced(Transpile(x))
    ensures Balanced(Transpile(UnaryOperator(op, x)))
  {
    if op == "-" {
      ParenFreeBalanced("-");
      BalancedConcat("-", Transpile(x));
    } else if op == "!" {
      ParenFreeBalanced(Transpile(UnaryOperator(op, x)));
    } else {
      ParenFreeBalanced(op + " ");
      BalancedConcat(op + " ", Transpile(x));
    }
  }

  /** `open A B)` is balanced when `open` is one opening parenthesis
      followed by parenthesis-free text, and A and B are balanced. */
  lemma ApplicationBalanced(open: string, a: string, b: string)
    requires open != [] && open[0] == '(' && ParenFree(open[1..])
    requires Balanced(a) && Balanced(b)
    ensures Balanced(open + a + " " + b + ")")
  {
    var head := open[1..];
    ParenFreeBalanced(head);
    ParenFreeBalanced(" ");
    Balanced3(head, a, " ");
    BalancedConcat(head + a + " ", b);
    BalancedWrap(head + a + " " + b);
    assert open == "(" + head;
    assert open + a + " " + b + ")" == "(" + (head + a + " " + b) + ")";
  }

  lemma BinaryBalanced(op: string, l: Node, r: Node)
    requires ParenFree(op) && Balanced(Transpile(l)) && Balanced(Transpile(r))
    ensures Balanced(Transpile(BinaryOperator(op, l, r)))
  {
    var open := BinaryOpening(op);
    BinaryText(op, l, r);
    ApplicationBalanced(open, Transpile(l), Transpile(r));
  }

  /** The opening of a printed binary node: one parenthesis, then a Lisp
      function name and a space. */
  function BinaryOpening(op: string): (open: string)
    requires ParenFree(op)
    ensures open != [] && open[0] == '(' && ParenFree(open[1..])
  {
    if op == "." then OpeningFree("(concatenate 'string "); "(concatenate 'string "
    else if op == "$" then OpeningFree("(funcall "); "(funcall "
    else if op == "=" then OpeningFree("(== "); "(== "
    else
      assert ("(" + op + " ")[1..] == op + " ";
      "(" + op + " "
  }

  lemma OpeningFree(open: string)
    requires open == "(concatenate 'string " || open == "(funcall " || open == "(== "
    ensures open != [] && open[0] == '(' && ParenFree(open[1..])
  {
  }

  lemma BinaryText(op: string, l: Node, r: Node)
    requires ParenFree(op)
    ensures Transpile(BinaryOperator(op, l, r)) == BinaryOpening(op) + Transpile(l) + " " + Transpile(r) + ")"
  {
  }

  lemma IfBalanced(c: Node, t: Node, e: Node)
    requires Balanced(Transpile(c)) && Balanced(Transpile(t)) && Balanced(Transpile(e))
    ensures Balanced(Transpile(If(c, t, e)))
  {
    IfText(c, t, e);
    BalancedIf(Transpile(c), Transpile(t), Transpile(e));
  }

  lemma IfText(c: Node, t: Node, e: Node)
    ensures Transpile(If(c, t, e)) == "(if " + Transpile(c) + " " + Transpile(t) + " " + Transpile(e) + ")"
  {
  }

  lemma BalancedIf(c: string, t: string, e: string)
    requires Balanced(c) && Balanced(t) && Balanced(e)
    ensures Balanced("(if " + c + " " + t + " " + e + ")")
  {
    ParenFreeBalanced(" ");
    Balanced3(c, " ", t);
    var a := c + " " + t;
    assert "(if "[1..] == "if ";
    ApplicationBalanced("(if ", a, e);
    assert "(if " + a + " " + e + ")" == "(if " + c + " " + t + " " + e + ")";
  }

  lemma LambdaBalanced(k: nat, b: Node)
    requires Balanced(Transpile(b))
    ensures Balanced(Transpile(Lambda(k, b)))
  {
    DecimalParenFree(k);
    LambdaText(k, b, VariableName(k), Transpile(b));
    BalancedLambda(VariableName(k), Transpile(b));
  }

  lemma BalancedLambda(name: string, body: string)
    requires ParenFree(name) && Balanced(body)
    ensures Balanced("(lambda (" + name + ") " + body + ")")
  {
    ParenFreeBalanced(name);
    BalancedWrap(name);
    var a := "(" + name + ")";
    assert "(lambda "[1..] == "lambda ";
    ApplicationBalanced("(lambda ", a, body);
    assert "(lambda " + a + " " + body + ")" == "(lambda (" + name + ") " + body + ")";
  }

  // ---------------------------------------------------------------------
  // The documented outputs

  lemma ArithmeticExamples()
    ensures Transpile(BinaryOperator("+", Integer(1), Integer(2))) == "(+ 1 2)"
    ensures Transpile(UnaryOperator("-", Integer(1))) == "-1"
    ensures Transpile(UnaryOperator("!", Boolean(true))) == "nil"
  {
  }

  lemma NestedSumExample()
    ensures Transpile(BinaryOperator("+", Integer(1), BinaryOperator("+", Integer(2), Integer(3)))) == "(+ 1 (+ 2 3))"
  {
    assert Transpile(BinaryOperator("+", Integer(2), Integer(3))) == "(+ 2 3)";
    NestedSumText();
  }

  lemma NestedSumText()
    ensures "(+ " + "1" + " " + "(+ 2 3)" + ")" == "(+ 1 (+ 2 3))"
  {
  }

  lemma IfExamples()
    ensures Transpile(If(Boolean(true), Integer(1), Integer(2))) == "(if 1 1 2)"
    ensures Transpile(If(Boolean(false), Integer(1), Integer(2))) == "(if nil 1 2)"
  {
  }

  lemma LambdaExample()
    ensures Transpile(Lambda(2, BinaryOperator("+", Integer(1), Variable(2)))) == "(lambda (v2) (+ 1 v2))"
  {
    assert VariableName(2) == "v2";
    assert Transpile(BinaryOperator("+", Integer(1), Variable(2))) == "(+ 1 v2)";
  }

  /** A lambda prints its binder's name and then its body. */
  lemma LambdaText(k: nat, b: Node, name: string, body: string)
    requires VariableName(k) == name && Transpile(b) == body
    ensures Transpile(Lambda(k, b)) == "(lambda (" + name + ") " + body + ")"
  {
  }

  lemma SumText()
    ensures VariableName(2) == "v2" && VariableName(3) == "v3"
    ensures Transpile(BinaryOperator("+", Variable(2), Variable(3))) == "(+ v2 v3)"
  {
    assert VariableName(2) == "v2" && VariableName(3) == "v3";
  }

  lemma NestedLambdaExample()
    ensures Transpile(Lambda(2, Lambda(3, BinaryOperator("+", Variable(2), Variable(3)))))
         == "(lambda (v2) (lambda (v3) (+ v2 v3)))"
  {
    var inner := Lambda(3, BinaryOperator("+", Variable(2), Variable(3)));
    InnerLambdaText();
    assert VariableName(2) == "v2" by {
      SumText();
    }
    LambdaText(2, inner, "v2", "(lambda (v3) (+ v2 v3))");
    NestedText();
  }

  lemma NestedText()
    ensures "(lambda (" + "v2" + ") " + "(lambda (v3) (+ v2 v3))" + ")" == "(lambda (v2) (lambda (v3) (+ v2 v3)))"
  {
  }

  lemma InnerLambdaText()
    ensures Transpile(Lambda(3, BinaryOperator("+", Variable(2), Variable(3)))) == "(lambda (v3) (+ v2 v3))"
  {
    SumText();
    LambdaText(3, BinaryOperator("+", Variable(2), Variable(3)), "v3", "(+ v2 v3)");
  }

  lemma ApplicationExample()
    ensures Transpile(BinaryOperator("$", Lambda(3, BinaryOperator("+", Integer(4), Variable(3))), Integer(1)))
         == "(funcall (lambda (v3) (+ 4 v3)) 1)"
  {
    var f := Lambda(3, BinaryOperator("+", Integer(4), Variable(3)));
    IncrementText();
    assert Transpile(Integer(1)) == "1";
    ApplicationText();
  }

  lemma IncrementText()
    ensures Transpile(Lambda(3, BinaryOperator("+", Integer(4), Variable(3)))) == "(lambda (v3) (+ 4 v3))"
  {
    assert VariableName(3) == "v3";
    assert Transpile(BinaryOperator("+", Integer(4), Variable(3))) == "(+ 4 v3)";
    LambdaText(3, BinaryOperator("+", Integer(4), Variable(3)), "v3", "(+ 4 v3)");
  }

  lemma ApplicationText()
    ensures "(funcall " + "(lambda (v3) (+ 4 v3))" + " " + "1" + ")" == "(funcall (lambda (v3) (+ 4 v3)) 1)"
  {
  }
}
