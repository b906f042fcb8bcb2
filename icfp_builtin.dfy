/** Constant ICFP terms (src/icfp/builtin.rs): a fixed-point combinator, a
    character-repeating function written with it, and the integer argument
    that selects a character and a count. */
module IcfpBuiltin {
  import opened Wrappers
  import opened Primitives
  import opened IcfpUtil
  import opened IcfpParser
  import opened IcfpEvaluator

  // ---------------------------------------------------------------------
  // The terms

  /** `y_combinator`: Lambda 0. (Lambda 1. v1 v1) (Lambda 1. v0 (Lambda 2. (v1 v1) v2)). */
  function YCombinator(): (y: Node)
    ensures y.Lambda? && FreeVars(y) == {}
  {
    Lambda(0, BinaryOperator("$", Lambda(1, BinaryOperator("$", Variable(1), Variable(1))), SelfApplier()))
  }

  /** The second half of the combinator: Lambda 1. v0 (Lambda 2. (v1 v1) v2). */
  function SelfApplier(): Node
  {
    Lambda(1, BinaryOperator("$", Variable(0), Delayed(Variable(1))))
  }

  /** Lambda 2. (x x) v2: the self-application of x, delayed behind a Lambda. */
  function Delayed(x: Node): Node
  {
    Lambda(2, BinaryOperator("$", BinaryOperator("$", x, x), Variable(2)))
  }

  /** Body of the repeat function with `recurse` for v0 and `k` for v1:
      if k > limit then $(k % 94) . recurse (k - 94) else "". */
  function RepeatBody(limit: int, recurse: Node, k: Node): Node
  {
    If(BinaryOperator(">", k, Integer(limit)),
       BinaryOperator(".",
         UnaryOperator("$", BinaryOperator("%", k, Integer(Base))),
         BinaryOperator("$", recurse, BinaryOperator("-", k, Integer(Base)))),
       String(""))
  }

  /** The repeat function with the comparison bound `limit`. */
  function RepeatCharWith(limit: int): (r: Node)
    ensures r.Lambda? && FreeVars(r) == {}
  {
    var body := RepeatBody(limit, Variable(0), Variable(1));
    RepeatBodyFreeVars(limit, Variable(0), Variable(1));
    assert FreeVars(Variable(0)) == {0} && FreeVars(Variable(1)) == {1};
    assert FreeVars(Lambda(0, Lambda(1, body))) == {};
    Lambda(0, Lambda(1, body))
  }

  lemma RepeatBodyFreeVars(limit: int, recurse: Node, k: Node)
    ensures forall x :: x in FreeVars(RepeatBody(limit, recurse, k)) ==> x in FreeVars(recurse) || x in FreeVars(k)
  {
    var printed := UnaryOperator("$", BinaryOperator("%", k, Integer(Base)));
    var minus := BinaryOperator("-", k, Integer(Base));
    var call := BinaryOperator("$", recurse, minus);
    assert FreeVars(Integer(Base)) == {} && FreeVars(Integer(limit)) == {} && FreeVars(String("")) == {};
    assert FreeVars(BinaryOperator("%", k, Integer(Base))) == FreeVars(k) + {};
    assert FreeVars(printed) == FreeVars(k);
    assert FreeVars(minus) == FreeVars(k) + {};
    assert FreeVars(call) == FreeVars(recurse) + FreeVars(k);
    assert FreeVars(BinaryOperator(">", k, Integer(limit))) == FreeVars(k) + {};
    var cat := BinaryOperator(".", printed, call);
    var cond := BinaryOperator(">", k, Integer(limit));
    assert FreeVars(cat) == FreeVars(recurse) + FreeVars(k);
    assert RepeatBody(limit, recurse, k) == If(cond, cat, String(""));
    assert FreeVars(If(cond, cat, String(""))) == FreeVars(cond) + FreeVars(cat) + FreeVars(String(""));
  }

  /** Substitution goes through the repeat body to its two holes. */
  lemma ReplaceRepeatBody(limit: int, recurse: Node, k: Node, vars: map<nat, Node>)
    ensures Replace(RepeatBody(limit, recurse, k), vars) == RepeatBody(limit, Replace(recurse, vars), Replace(k, vars))
  {
    var k', r' := Replace(k, vars), Replace(recurse, vars);
    var test := BinaryOperator(">", k, Integer(limit));
    var digit := UnaryOperator("$", BinaryOperator("%", k, Integer(Base)));
    var call := BinaryOperator("$", recurse, BinaryOperator("-", k, Integer(Base)));
    assert Replace(test, vars) == BinaryOperator(">", k', Integer(limit)) by {
      assert Replace(Integer(limit), vars) == Integer(limit);
    }
    ReplaceDigit(k, vars);
    ReplaceCall(recurse, k, vars);
    assert Replace(BinaryOperator(".", digit, call), vars) == BinaryOperator(".", Replace(digit, vars), Replace(call, vars));
    assert Replace(String(""), vars) == String("");
  }

  lemma ReplaceDigit(k: Node, vars: map<nat, Node>)
    ensures Replace(UnaryOperator("$", BinaryOperator("%", k, Integer(Base))), vars)
         == UnaryOperator("$", BinaryOperator("%", Replace(k, vars), Integer(Base)))
  {
    assert Replace(Integer(Base), vars) == Integer(Base);
  }

  lemma ReplaceCall(recurse: Node, k: Node, vars: map<nat, Node>)
    ensures Replace(BinaryOperator("$", recurse, BinaryOperator("-", k, Integer(Base))), vars)
         == BinaryOperator("$", Replace(recurse, vars), BinaryOperator("-", Replace(k, vars), Integer(Base)))
  {
    assert Replace(Integer(Base), vars) == Integer(Base);
  }

  /** `repeat_char`, as written: the comparison is `v1 > 94`. */
  function RepeatChar(): (r: Node)
    ensures r == RepeatCharWith(Base) && FreeVars(r) == {}
  {
    RepeatCharWith(94)
  }

  /** The repeat function with the comparison `v1 > 93`. */
  function RepeatCharFixed(): (r: Node)
    ensures r == RepeatCharWith(Base - 1) && FreeVars(r) == {}
  {
    RepeatCharWith(93)
  }

  /** `repeat_char_operator`: 94 * times + the index of c in StringAscii;
      panics (`None`) when times is 0 or c is outside StringAscii. */
  function RepeatCharOperator(c: char, times: nat): (r: Option<Node>)
    ensures r.Some? <==> times >= 1 && c in StringAscii
    ensures r.Some? ==> r.value.Integer? && r.value.value >= Base
  {
    if times < 1 then None
    else match Find(StringAscii, c)
      case None => None
      case Some(i) =>
        IntegerAsciiShape();
        StringAsciiShape();
        AlphabetsDistinct();
        IndexOfAt(StringAscii, i);
        Some(Integer(Base * times + i))
  }

  /** The number decodes back: its remainder by 94 is the character's
      index, its quotient the count. */
  lemma RepeatCharOperatorDecodes(c: char, times: nat)
    requires RepeatCharOperator(c, times).Some?
    ensures RepeatCharOperator(c, times).value.value % Base == IndexOf(StringAscii, c)
    ensures RepeatCharOperator(c, times).value.value / Base == times
  {
    var i := IndexOf(StringAscii, c);
    assert RepeatCharOperator(c, times).value.value == Base * times + i;
    StringAsciiShape();
    DigitSplit(times, i);
  }

  /** 94 * t + i, with i a digit, has quotient t and remainder i. */
  lemma DigitSplit(t: int, i: int)
    requires 0 <= i < Base
    ensures (Base * t + i) / Base == t && (Base * t + i) % Base == i
  {
    var k := Base * t + i;
    var q, r := k / Base, k % Base;
    assert k == Base * q + r && 0 <= r < Base;
    assert Base * (q - t) == i - r;
  }

  lemma RepeatCharOperatorExample()
    ensures RepeatCharOperator('a', 3) == Some(Integer(282))
  {
    StringDigit('a');
  }

  // ---------------------------------------------------------------------
  // What the repeat function computes

  /** Output of the repeat body on k: one StringAscii character per step
      while k exceeds the bound, k dropping by 94 each time. */
  function RepeatOut(limit: int, k: int): string
    requires limit >= 0
    decreases if k > limit then k - limit else 0
  {
    StringAsciiShape();
    if k > limit then [StringAscii[k % Base]] + RepeatOut(limit, k - Base) else ""
  }

  /** n copies of c. */
  function Copies(c: char, n: nat): (r: string)
    ensures |r| == n && forall i :: 0 <= i < n ==> r[i] == c
  {
    seq(n, _ => c)
  }

  lemma CopiesCons(c: char, n: nat)
    ensures Copies(c, n + 1) == [c] + Copies(c, n)
  {
  }

  /** One step of RepeatOut on 94 * t + i above the bound. */
  lemma RepeatOutStep(limit: int, t: nat, i: nat)
    requires 0 <= limit && i < Base && Base * t + i > limit && t >= 1
    ensures RepeatOut(limit, Base * t + i) == [StringAscii[i]] + RepeatOut(limit, Base * (t - 1) + i)
  {
    var k, j := Base * t + i, Base * (t - 1) + i;
    DigitSplit(t, i);
    RepeatOutUnfold(limit, k, i, j);
  }

  lemma RepeatOutUnfold(limit: int, k: int, i: int, j: int)
    requires 0 <= limit < k && 0 <= i < Base && k % Base == i && j == k - Base
    ensures RepeatOut(limit, k) == [StringAscii[i]] + RepeatOut(limit, j)
  {
  }

  /** The argument 94 * t + i produces t copies of the character at index i
      under the bound 93. */
  lemma {:induction false} RepeatFixedCopies(t: nat, i: nat)
    requires i < Base
    ensures RepeatOut(Base - 1, Base * t + i) == Copies(StringAscii[i], t)
  {
    if t > 0 {
      RepeatFixedCopies(t - 1, i);
      RepeatFixedStep(t, i);
    } else {
      StringAsciiShape();
    }
  }

  lemma RepeatFixedStep(t: nat, i: nat)
    requires i < Base && t > 0
    requires RepeatOut(Base - 1, Base * (t - 1) + i) == Copies(StringAscii[i], t - 1)
    ensures RepeatOut(Base - 1, Base * t + i) == Copies(StringAscii[i], t)
  {
    StringAsciiShape();
    RepeatOutStep(Base - 1, t, i);
    CopiesCons(StringAscii[i], t - 1);
  }

  /** Under the bound 94, as in `repeat_char`, the same argument produces t
      copies when the index is not 0, and one copy fewer when it is. */
  lemma {:induction false} RepeatCopies(t: nat, i: nat)
    requires i < Base && t >= 1
    ensures RepeatOut(Base, Base * t + i) == Copies(StringAscii[i], if i == 0 then t - 1 else t)
  {
    if t > 1 {
      RepeatCopies(t - 1, i);
      RepeatCopiesStep(t, i, if i == 0 then t - 2 else t - 1);
    } else {
      RepeatOnce(i);
    }
  }

  lemma RepeatCopiesStep(t: nat, i: nat, m: nat)
    requires i < Base && t > 1
    requires RepeatOut(Base, Base * (t - 1) + i) == Copies(StringAscii[i], m)
    ensures RepeatOut(Base, Base * t + i) == Copies(StringAscii[i], m + 1)
  {
    StringAsciiShape();
    RepeatOutStep(Base, t, i);
    CopiesCons(StringAscii[i], m);
  }

  lemma RepeatOnce(i: nat)
    requires i < Base
    ensures RepeatOut(Base, Base + i) == Copies(StringAscii[i], if i == 0 then 0 else 1)
  {
    StringAsciiShape();
    if i > 0 {
      RepeatOutStep(Base, 1, i);
      assert RepeatOut(Base, i) == "";
      CopiesCons(StringAscii[i], 0);
    }
  }

  /** `repeat_char_operator('a', 3)` is 282, and the repeat function as
      written turns it into "aa", not "aaa". */
  lemma RepeatDropsCopyExample()
    ensures RepeatOut(Base, 282) == "aa"
  {
    StringAsciiShape();
    RepeatCopies(3, 0);
    assert Copies('a', 2) == "aa";
  }

  /** Under the bound 93 the same argument gives "aaa". */
  lemma RepeatFixedExample()
    ensures RepeatOut(Base - 1, 282) == "aaa"
  {
    StringAsciiShape();
    RepeatFixedCopies(3, 0);
    assert Copies('a', 3) == "aaa";
  }

  // ---------------------------------------------------------------------
  // Evaluating the repeat function through the combinator

  /** The combinator's second half once the repeat function is in place of v0. */
  function Applier(limit: int): Node
  {
    Lambda(1, BinaryOperator("$", RepeatCharWith(limit), Delayed(Variable(1))))
  }

  /** The recursive reference the unrolled function passes to itself. */
  function Recurse(limit: int): Node
  {
    Delayed(Applier(limit))
  }

  /** The repeat function unrolled once: Lambda 1 over its body with the
      recursion in place of v0. */
  function Unrolled(limit: int): Node
  {
    Lambda(1, RepeatBody(limit, Recurse(limit), Variable(1)))
  }

  /** `y_combinator() $ repeat_char_with(limit)`. */
  function Fix(limit: int): Node
  {
    BinaryOperator("$", YCombinator(), RepeatCharWith(limit))
  }

  lemma RecurseClosed(limit: int)
    ensures FreeVars(Applier(limit)) == {} && FreeVars(Recurse(limit)) == {}
  {
    assert FreeVars(RepeatCharWith(limit)) == {};
    DelayedFreeVars(Variable(1));
    DelayedFreeVars(Applier(limit));
  }

  lemma DelayedFreeVars(x: Node)
    ensures FreeVars(Delayed(x)) == FreeVars(x) - {2}
  {
    assert FreeVars(BinaryOperator("$", BinaryOperator("$", x, x), Variable(2))) == FreeVars(x) + {2};
  }

  /** A binary node whose operands evaluate to lv and rv, one unit of fuel
      earlier, does what Combine says. */
  lemma BinaryValues(n: Node, lv: Node, rv: Node, f: nat)
    requires n.BinaryOperator? && f >= 1
    requires Eval(n.left, f - 1) == Value(lv) && Eval(n.right, f - 1) == Value(rv)
    ensures Eval(n, f) == Combine(n, lv, rv, f - 1)
  {
  }

  /** `$` on a node that evaluates to a Lambda and an argument that
      evaluates to something other than a Lambda evaluates the Lambda's body
      with the argument's value bound. */
  lemma ValueApplication(l: Node, x: Node, lam: Node, v: Node, f: nat)
    requires f >= 1 && lam.Lambda? && !v.Lambda?
    requires Eval(l, f - 1) == Value(lam) && Eval(x, f - 1) == Value(v)
    ensures Eval(BinaryOperator("$", l, x), f) == Eval(Replace(lam.body, map[lam.param := v]), f - 1)
  {
    BinaryValues(BinaryOperator("$", l, x), lam, v, f);
  }

  /** `$` between two operands that evaluate to Lambdas enters the chain of
      one-step applications on the node as written. */
  lemma LambdaLambda(n: Node, lv: Node, rv: Node, f: nat)
    requires n.BinaryOperator? && n.op == "$" && lv.Lambda? && rv.Lambda? && f >= 1
    requires Eval(n.left, f - 1) == Value(lv) && Eval(n.right, f - 1) == Value(rv)
    ensures Eval(n, f) == ChainFrom(ApplyOne(n), f - 1)
  {
    BinaryValues(n, lv, rv, f);
  }

  /** A table operator on two literal operands. */
  lemma LiteralOperands(op: string, a: Node, b: Node, f: nat)
    requires f >= 2 && (a.Integer? || a.String?) && (b.Integer? || b.String?) && op != "$"
    requires ApplyBinary(op, a, b).Some?
    ensures Eval(BinaryOperator(op, a, b), f) == ApplyBinary(op, a, b).value
  {
    BinaryValues(BinaryOperator(op, a, b), a, b, f);
  }

  lemma ReplaceDelayed(x: Node, vars: map<nat, Node>)
    ensures Replace(Delayed(x), vars) == Delayed(Replace(x, vars[2 := Variable(2)]))
  {
    var inner := vars[2 := Variable(2)];
    var x' := Replace(x, inner);
    assert Replace(Variable(2), inner) == Variable(2);
    assert Replace(BinaryOperator("$", x, x), inner) == BinaryOperator("$", x', x');
    assert Replace(BinaryOperator("$", BinaryOperator("$", x, x), Variable(2)), inner)
        == BinaryOperator("$", BinaryOperator("$", x', x'), Variable(2));
  }

  /** Two beta steps take `Applier $ Applier` to the unrolled function. */
  lemma ChainSelfApplication(limit: int, g: nat)
    requires g >= 1
    ensures Chain(BinaryOperator("$", Applier(limit), Applier(limit)), g) == Value(Unrolled(limit))
  {
    var a := Applier(limit);
    var rc := RepeatCharWith(limit);
    RecurseClosed(limit);
    ReplaceInert(rc, map[1 := a]);
    ReplaceDelayed(Variable(1), map[1 := a]);
    var s2 := BinaryOperator("$", a, a);
    var s3 := BinaryOperator("$", rc, Recurse(limit));
    assert ApplyOne(s2) == Some(s3);
    ReplaceRepeatBody(limit, Variable(0), Variable(1), map[0 := Recurse(limit)][1 := Variable(1)]);
    assert ApplyOne(s3) == Some(Unrolled(limit));
    assert Chain(s3, g - 1) == Value(Unrolled(limit));
    assert ChainFrom(Some(s3), g) == Value(Unrolled(limit));
  }

  /** `Applier $ Applier` evaluates to the unrolled function. */
  lemma SelfApplication(limit: int, f: nat)
    requires f >= 2
    ensures Eval(BinaryOperator("$", Applier(limit), Applier(limit)), f) == Value(Unrolled(limit))
  {
    var a := Applier(limit);
    BinaryValues(BinaryOperator("$", a, a), a, a, f);
    ChainSelfApplication(limit, f - 1);
  }

  /** The combinator applied to the repeat function evaluates to the
      unrolled function. */
  lemma FixUnrolls(limit: int, f: nat)
    requires f >= 4
    ensures Eval(Fix(limit), f) == Value(Unrolled(limit))
  {
    var rc := RepeatCharWith(limit);
    var a := Applier(limit);
    var s1 := BinaryOperator("$", Lambda(1, BinaryOperator("$", Variable(1), Variable(1))), a);
    var s2 := BinaryOperator("$", a, a);
    assert ApplyOne(Fix(limit)) == Some(s1) by {
      FirstStep(limit);
    }
    assert ApplyOne(s1) == Some(s2) by {
      assert Replace(BinaryOperator("$", Variable(1), Variable(1)), map[1 := a]) == s2;
    }
    assert Chain(s2, f - 3) == Value(Unrolled(limit)) by {
      ChainSelfApplication(limit, f - 3);
    }
    assert Chain(s1, f - 2) == Value(Unrolled(limit));
    assert Chain(Fix(limit), f - 1) == Value(Unrolled(limit));
    BinaryValues(Fix(limit), YCombinator(), rc, f);
  }

  /** The first beta step puts the repeat function in place of v0. */
  lemma FirstStep(limit: int)
    ensures ApplyOne(Fix(limit)) ==
      Some(BinaryOperator("$", Lambda(1, BinaryOperator("$", Variable(1), Variable(1))), Applier(limit)))
  {
    var rc := RepeatCharWith(limit);
    var a := Applier(limit);
    var inner := map[0 := rc][1 := Variable(1)];
    ReplaceDelayed(Variable(1), inner);
    assert Replace(Variable(1), inner[2 := Variable(2)]) == Variable(1);
    assert Replace(BinaryOperator("$", Variable(0), Delayed(Variable(1))), inner)
        == BinaryOperator("$", rc, Delayed(Variable(1)));
    assert Replace(SelfApplier(), map[0 := rc]) == a;
    var selfApply := Lambda(1, BinaryOperator("$", Variable(1), Variable(1)));
    assert Replace(BinaryOperator("$", Variable(1), Variable(1)), inner)
        == BinaryOperator("$", Variable(1), Variable(1));
    assert Replace(selfApply, map[0 := rc]) == selfApply;
  }

  /** Fuel the repeat body needs on k. */
  function Need(limit: int, k: int): nat
    requires limit >= 0
    decreases if k > limit then k - limit else 0
  {
    if k > limit then Need(limit, k - Base) + 6 else 6
  }

  /** `$` on a digit value below 94 prints the single StringAscii character
      with that index. */
  lemma SingleCharacter(m: int)
    requires 0 <= m < Base
    ensures ApplyUnary("$", Integer(m)) == Value(String([StringAscii[m]]))
  {
    IntegerAsciiShape();
    StringAsciiShape();
    AlphabetsDistinct();
    var wire := EncodeInteger(m);
    assert wire == [IntegerAscii[m]] by {
      if m > 0 {
        assert Digits(m) == Digits(0) + [IntegerAscii[m]];
      }
    }
    IndexOfAt(IntegerAscii, m);
    assert Over(wire, IntegerAscii);
    assert TextOf(wire) == [StringAscii[m]];
  }

  /** The step case: the body on k > limit prints one character and
      evaluates the body on k - 94. */
  lemma RepeatStep(limit: int, k: int, f: nat)
    requires 0 <= limit < k && f >= 6
    requires Eval(RepeatBody(limit, Recurse(limit), Integer(k - Base)), f - 4).Value?
    requires Eval(RepeatBody(limit, Recurse(limit), Integer(k - Base)), f - 4).node.String?
    ensures Eval(RepeatBody(limit, Recurse(limit), Integer(k)), f) ==
      Value(String([StringAscii[k % Base]] + Eval(RepeatBody(limit, Recurse(limit), Integer(k - Base)), f - 4).node.text))
  {
    var r := Recurse(limit);
    var rest := Eval(RepeatBody(limit, r, Integer(k - Base)), f - 4);
    var c := [StringAscii[k % Base]];
    var printed := UnaryOperator("$", BinaryOperator("%", Integer(k), Integer(Base)));
    var recursion := BinaryOperator("$", r, BinaryOperator("-", Integer(k), Integer(Base)));
    var cond := BinaryOperator(">", Integer(k), Integer(limit));
    assert Eval(printed, f - 2) == Value(String(c)) by {
      var _ := PrintedDigit(k, f - 2);
    }
    assert Eval(recursion, f - 2) == rest by {
      var _ := RecursiveCall(limit, k, f - 2);
    }
    assert Eval(cond, f - 1) == Value(Boolean(true)) by {
      LiteralOperands(">", Integer(k), Integer(limit), f - 1);
    }
    assert RepeatBody(limit, r, Integer(k)) == If(cond, BinaryOperator(".", printed, recursion), String(""));
    SelectedConcatenation(cond, printed, recursion, c, rest.node.text, f);
  }

  /** An If whose condition holds and whose then-branch concatenates two
      strings evaluates to their concatenation. */
  lemma SelectedConcatenation(cond: Node, left: Node, right: Node, a: string, b: string, f: nat)
    requires f >= 2
    requires Eval(cond, f - 1) == Value(Boolean(true))
    requires Eval(left, f - 2) == Value(String(a)) && Eval(right, f - 2) == Value(String(b))
    ensures Eval(If(cond, BinaryOperator(".", left, right), String("")), f) == Value(String(a + b))
  {
    BinaryValues(BinaryOperator(".", left, right), String(a), String(b), f - 1);
    IfSelects(cond, BinaryOperator(".", left, right), String(""), f);
  }

  /** `$(k % 94)` prints the character with index k % 94. */
  lemma PrintedDigit(k: int, g: nat) returns (printed: Node)
    requires k > 0 && g >= 3
    ensures printed == UnaryOperator("$", BinaryOperator("%", Integer(k), Integer(Base)))
    ensures Eval(printed, g) == Value(String([StringAscii[k % Base]]))
  {
    printed := UnaryOperator("$", BinaryOperator("%", Integer(k), Integer(Base)));
    assert TruncMod(k, Base) == k % Base;
    LiteralOperands("%", Integer(k), Integer(Base), g - 1);
    SingleCharacter(k % Base);
  }

  /** `recurse $ (k - 94)` evaluates to the body on k - 94. */
  lemma RecursiveCall(limit: int, k: int, g: nat) returns (call: Node)
    requires g >= 4
    ensures call == BinaryOperator("$", Recurse(limit), BinaryOperator("-", Integer(k), Integer(Base)))
    ensures Eval(call, g) == Eval(RepeatBody(limit, Recurse(limit), Integer(k - Base)), g - 2)
  {
    call := BinaryOperator("$", Recurse(limit), BinaryOperator("-", Integer(k), Integer(Base)));
    CallDelays(limit, k, g);
    SelfUnrolls(limit, k - Base, g - 1);
  }

  /** `recurse $ (k - 94)`: the delayed self-application gets k - 94. */
  lemma CallDelays(limit: int, k: int, g: nat)
    requires g >= 3
    ensures Eval(BinaryOperator("$", Recurse(limit), BinaryOperator("-", Integer(k), Integer(Base))), g)
         == Eval(BinaryOperator("$", BinaryOperator("$", Applier(limit), Applier(limit)), Integer(k - Base)), g - 1)
  {
    var r := Recurse(limit);
    var a := Applier(limit);
    var kk := Integer(k - Base);
    LiteralOperands("-", Integer(k), Integer(Base), g - 1);
    ValueApplication(r, BinaryOperator("-", Integer(k), Integer(Base)), r, kk, g);
    RecurseClosed(limit);
    ReplaceInert(a, map[2 := kk]);
    assert Replace(r.body, map[2 := kk]) == BinaryOperator("$", BinaryOperator("$", a, a), kk);
  }

  /** `(Applier $ Applier) $ j` evaluates to the repeat body on j. */
  lemma SelfUnrolls(limit: int, j: int, h: nat)
    requires h >= 3
    ensures Eval(BinaryOperator("$", BinaryOperator("$", Applier(limit), Applier(limit)), Integer(j)), h)
         == Eval(RepeatBody(limit, Recurse(limit), Integer(j)), h - 1)
  {
    SelfApplication(limit, h - 1);
    ValueApplication(BinaryOperator("$", Applier(limit), Applier(limit)), Integer(j), Unrolled(limit), Integer(j), h);
    UnrolledBody(limit, j);
  }

  /** The repeat body on k evaluates to RepeatOut(limit, k) given enough fuel. */
  lemma {:induction false} RepeatEval(limit: int, k: int, f: nat)
    requires limit >= 0 && f >= Need(limit, k)
    ensures Eval(RepeatBody(limit, Recurse(limit), Integer(k)), f) == Value(String(RepeatOut(limit, k)))
    decreases if k > limit then k - limit else 0
  {
    if k > limit {
      RepeatEval(limit, k - Base, f - 6);
      EvalMonotone(RepeatBody(limit, Recurse(limit), Integer(k - Base)), f - 6, f - 4);
      RepeatStep(limit, k, f);
    } else {
      LiteralOperands(">", Integer(k), Integer(limit), f - 1);
      IfSelects(BinaryOperator(">", Integer(k), Integer(limit)), RepeatBody(limit, Recurse(limit), Integer(k)).thenBranch, String(""), f);
    }
  }

  /** `(y_combinator() $ repeat_char_with(limit)) $ k` evaluates, on both
      passes of `evaluate`, to RepeatOut(limit, k). */
  lemma RepeatProgram(limit: int, k: int, f: nat)
    requires limit >= 0 && f >= Need(limit, k) + 5
    ensures Eval(BinaryOperator("$", Fix(limit), Integer(k)), f) == Value(String(RepeatOut(limit, k)))
    ensures Run(BinaryOperator("$", Fix(limit), Integer(k)), f) == Value(String(RepeatOut(limit, k)))
  {
    RepeatApplied(limit, k, f);
  }

  /** The first pass of `evaluate` on `(y_combinator() $ repeat) $ k`. */
  lemma RepeatApplied(limit: int, k: int, f: nat)
    requires limit >= 0 && f >= Need(limit, k) + 5
    ensures Eval(BinaryOperator("$", Fix(limit), Integer(k)), f) == Value(String(RepeatOut(limit, k)))
  {
    FixApplied(limit, k, f);
    RepeatEval(limit, k, f - 1);
  }

  /** `(y_combinator() $ repeat) $ k` evaluates to the repeat body on k. */
  lemma FixApplied(limit: int, k: int, f: nat)
    requires f >= 5
    ensures Eval(BinaryOperator("$", Fix(limit), Integer(k)), f)
         == Eval(RepeatBody(limit, Recurse(limit), Integer(k)), f - 1)
  {
    FixUnrolls(limit, f - 1);
    ValueApplication(Fix(limit), Integer(k), Unrolled(limit), Integer(k), f);
    UnrolledBody(limit, k);
  }

  /** Binding v1 to k in the unrolled function's body gives the repeat body on k. */
  lemma UnrolledBody(limit: int, k: int)
    ensures Replace(Unrolled(limit).body, map[1 := Integer(k)]) == RepeatBody(limit, Recurse(limit), Integer(k))
  {
    RecurseClosed(limit);
    ReplaceInert(Recurse(limit), map[1 := Integer(k)]);
    ReplaceRepeatBody(limit, Recurse(limit), Variable(1), map[1 := Integer(k)]);
  }

  /** The repeat term as written produces `times` copies of c, except one
      fewer for the first StringAscii character 'a'. */
  lemma RepeatCharMeaning(c: char, times: nat, f: nat)
    requires RepeatCharOperator(c, times).Some?
    requires f >= Need(Base, RepeatCharOperator(c, times).value.value) + 5
    ensures Run(BinaryOperator("$", BinaryOperator("$", YCombinator(), RepeatChar()), RepeatCharOperator(c, times).value), f)
         == Value(String(Copies(c, if c == 'a' then times - 1 else times)))
  {
    var op := RepeatCharOperator(c, times).value;
    var k := op.value;
    var i := IndexOf(StringAscii, c);
    var n := if i == 0 then times - 1 else times;
    assert k == Base * times + i && i < Base && StringAscii[i] == c by {
      StringAsciiShape();
    }
    assert Run(BinaryOperator("$", Fix(Base), Integer(k)), f) == Value(String(Copies(c, n))) by {
      RepeatProgram(Base, k, f);
      RepeatCopies(times, i);
    }
    assert c == 'a' <==> i == 0 by {
      StringAsciiShape();
      AlphabetsDistinct();
      IndexOfAt(StringAscii, 0);
    }
    assert BinaryOperator("$", BinaryOperator("$", YCombinator(), RepeatChar()), op)
        == BinaryOperator("$", Fix(Base), Integer(k));
  }

  /** With the bound 93 the repeat term produces exactly `times` copies of
      every character. */
  lemma RepeatCharFixedMeaning(c: char, times: nat, f: nat)
    requires RepeatCharOperator(c, times).Some?
    requires f >= Need(Base - 1, RepeatCharOperator(c, times).value.value) + 5
    ensures Run(BinaryOperator("$", BinaryOperator("$", YCombinator(), RepeatCharFixed()), RepeatCharOperator(c, times).value), f)
         == Value(String(Copies(c, times)))
  {
    var k := RepeatCharOperator(c, times).value.value;
    var i := IndexOf(StringAscii, c);
    RepeatProgram(Base - 1, k, f);
    assert k == Base * times + i;
    RepeatFixedCopies(times, i);
  }
}
