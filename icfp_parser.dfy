/** The ICFP syntax tree and its prefix-order parser and printer
    (src/icfp/parser.rs). */
module IcfpParser {
  import opened Wrappers
  import opened IcfpUtil
  import T = IcfpTokenizer

  datatype Node =
    | Integer(value: int)
    | String(text: string)
    | Boolean(b: bool)
    | Variable(id: nat)
    | UnaryOperator(op: string, operand: Node)
    | BinaryOperator(op: string, left: Node, right: Node)
    | If(cond: Node, thenBranch: Node, elseBranch: Node)
    | Lambda(param: nat, body: Node)

  /** Number of nodes of the tree. */
  function Size(n: Node): (r: nat)
    ensures r >= 1
  {
    match n
    case UnaryOperator(_, x) => 1 + Size(x)
    case BinaryOperator(_, l, r) => 1 + Size(l) + Size(r)
    case If(c, t, e) => 1 + Size(c) + Size(t) + Size(e)
    case Lambda(_, b) => 1 + Size(b)
    case _ => 1
  }

  /** Every integer leaf is non-negative, so the `as usize` cast of the
      printer keeps its value. */
  predicate NonNegative(n: Node)
  {
    match n
    case Integer(v) => v >= 0
    case UnaryOperator(_, x) => NonNegative(x)
    case BinaryOperator(_, l, r) => NonNegative(l) && NonNegative(r)
    case If(c, t, e) => NonNegative(c) && NonNegative(t) && NonNegative(e)
    case Lambda(_, b) => NonNegative(b)
    case _ => true
  }

  /** `value as usize` on a 64-bit target: a negative value wraps around
      modulo 2^64, a non-negative one is kept. */
  function AsUsize(v: int): (r: nat)
    ensures v >= 0 ==> r == v
    ensures v < 0 && v >= -0x8000_0000_0000_0000 ==> r == v + 0x1_0000_0000_0000_0000
  {
    if v >= 0 then v else v % 0x1_0000_0000_0000_0000
  }

  /** The tokens of the tree in prefix order: each node's own token, then
      its children's tokens left to right. */
  function Preorder(n: Node): (ts: seq<T.Token>)
    ensures |ts| == Size(n)
  {
    match n
    case Integer(v) => [T.Integer(AsUsize(v))]
    case String(s) => [T.String(s)]
    case Boolean(b) => [T.Boolean(b)]
    case Variable(id) => [T.Variable(id)]
    case UnaryOperator(op, x) => [T.UnaryOperator(op)] + Preorder(x)
    case BinaryOperator(op, l, r) => [T.BinaryOperator(op)] + Preorder(l) + Preorder(r)
    case If(c, t, e) => [T.If] + Preorder(c) + Preorder(t) + Preorder(e)
    case Lambda(k, b) => [T.Lambda(k)] + Preorder(b)
  }

  /** Every string leaf is over the text alphabet and no operator name holds
      a space: the printed tree reads back as the same tokens. */
  predicate Printable(n: Node)
  {
    match n
    case Integer(v) => v >= 0
    case String(s) => Over(s, StringAscii)
    case UnaryOperator(op, x) => T.NoSpace(op) && Printable(x)
    case BinaryOperator(op, l, r) => T.NoSpace(op) && Printable(l) && Printable(r)
    case If(c, t, e) => Printable(c) && Printable(t) && Printable(e)
    case Lambda(_, b) => Printable(b)
    case _ => true
  }

  /** A token that prints, reads back as itself and is not Unknown. */
  predicate WellFormedToken(t: T.Token)
  {
    T.Printable(t) && T.SpaceFreeNames(t) && !t.Unknown?
  }

  predicate AllWellFormed(ts: seq<T.Token>)
  {
    forall i :: 0 <= i < |ts| ==> WellFormedToken(ts[i])
  }

  lemma {:induction false} PrintableNonNegative(n: Node)
    requires Printable(n)
    ensures NonNegative(n)
  {
    match n
    case UnaryOperator(_, x) => PrintableNonNegative(x);
    case BinaryOperator(_, l, r) => PrintableNonNegative(l); PrintableNonNegative(r);
    case If(c, t, e) => PrintableNonNegative(c); PrintableNonNegative(t); PrintableNonNegative(e);
    case Lambda(_, b) => PrintableNonNegative(b);
    case _ =>
  }

  /** The prefix tokens of a printable tree are all well formed. */
  lemma {:induction false} PreorderWellFormed(n: Node)
    requires Printable(n)
    ensures NonNegative(n) && AllWellFormed(Preorder(n))
  {
    PrintableNonNegative(n);
    match n
    case UnaryOperator(op, x) =>
      PreorderWellFormed(x);
      WellFormedAppend([T.UnaryOperator(op)], Preorder(x));
    case BinaryOperator(op, l, r) =>
      PreorderWellFormed(l);
      PreorderWellFormed(r);
      WellFormedAppend([T.BinaryOperator(op)], Preorder(l));
      WellFormedAppend([T.BinaryOperator(op)] + Preorder(l), Preorder(r));
    case If(c, t, e) =>
      PreorderWellFormed(c);
      PreorderWellFormed(t);
      PreorderWellFormed(e);
      WellFormedAppend([T.If], Preorder(c));
      WellFormedAppend([T.If] + Preorder(c), Preorder(t));
      WellFormedAppend([T.If] + Preorder(c) + Preorder(t), Preorder(e));
    case Lambda(k, b) =>
      PreorderWellFormed(b);
      WellFormedAppend([T.Lambda(k)], Preorder(b));
    case _ =>
  }

  lemma WellFormedAppend(a: seq<T.Token>, b: seq<T.Token>)
    requires AllWellFormed(a) && AllWellFormed(b)
    ensures AllWellFormed(a + b)
  {
    forall i | 0 <= i < |a + b|
      ensures WellFormedToken((a + b)[i])
    {
      if i >= |a| {
        assert (a + b)[i] == b[i - |a|];
      }
    }
  }

  /** Every string leaf is over the text alphabet. */
  predicate TextLeaves(n: Node)
  {
    match n
    case String(s) => Over(s, StringAscii)
    case UnaryOperator(_, x) => TextLeaves(x)
    case BinaryOperator(_, l, r) => TextLeaves(l) && TextLeaves(r)
    case If(c, t, e) => TextLeaves(c) && TextLeaves(t) && TextLeaves(e)
    case Lambda(_, b) => TextLeaves(b)
    case _ => true
  }

  lemma AllPrintableAppend(a: seq<T.Token>, b: seq<T.Token>)
    ensures T.AllPrintable(a + b) <==> T.AllPrintable(a) && T.AllPrintable(b)
  {
    if T.AllPrintable(a) && T.AllPrintable(b) {
      forall i | 0 <= i < |a + b|
        ensures T.Printable((a + b)[i])
      {
        if i >= |a| {
          assert (a + b)[i] == b[i - |a|];
        }
      }
    }
    if T.AllPrintable(a + b) {
      forall i | 0 <= i < |a|
        ensures T.Printable(a[i])
      {
        assert (a + b)[i] == a[i];
      }
      forall i | 0 <= i < |b|
        ensures T.Printable(b[i])
      {
        assert (a + b)[|a| + i] == b[i];
      }
    }
  }

  /** The printer panics on some token of the tree exactly when a string
      leaf holds a character outside the text alphabet. */
  lemma {:induction false} PreorderPrintable(n: Node)
    ensures T.AllPrintable(Preorder(n)) <==> TextLeaves(n)
  {
    match n
    case UnaryOperator(op, x) =>
      PreorderPrintable(x);
      AllPrintableAppend([T.UnaryOperator(op)], Preorder(x));
    case BinaryOperator(op, l, r) =>
      PreorderPrintable(l);
      PreorderPrintable(r);
      AllPrintableAppend([T.BinaryOperator(op)], Preorder(l));
      AllPrintableAppend([T.BinaryOperator(op)] + Preorder(l), Preorder(r));
    case If(c, t, e) =>
      PreorderPrintable(c);
      PreorderPrintable(t);
      PreorderPrintable(e);
      AllPrintableAppend([T.If], Preorder(c));
      AllPrintableAppend([T.If] + Preorder(c), Preorder(t));
      AllPrintableAppend([T.If] + Preorder(c) + Preorder(t), Preorder(e));
    case Lambda(k, b) =>
      PreorderPrintable(b);
      AllPrintableAppend([T.Lambda(k)], Preorder(b));
    case String(s) =>
      assert Preorder(n)[0] == T.String(s);
    case _ =>
  }

  /** `Node::to_string`: the prefix tokens printed and joined with spaces;
      None where printing a string leaf panics. */
  function NodeToString(n: Node): (r: Option<string>)
    ensures r.Some? <==> TextLeaves(n)
  {
    PreorderPrintable(n);
    match T.PrintTokens(Preorder(n))
    case Some(words) => Some(T.JoinWords(words))
    case None => None
  }

  /** A printable tree prints without panicking. */
  lemma PrintablePrints(n: Node)
    requires Printable(n)
    ensures NodeToString(n).Some?
  {
    PreorderWellFormed(n);
    assert T.AllPrintable(Preorder(n));
    PreorderPrintable(n);
  }

  // ---------------------------------------------------------------------
  // Specification of the parser

  /** `parse_node` from position p: the tree read and the position after it;
      `None` when it panics (an Unknown token, or running past the end). */
  function ParseAt(ts: seq<T.Token>, p: nat): (r: Option<(Node, nat)>)
    ensures r.Some? ==> r.value.1 == p + Size(r.value.0) <= |ts|
    decreases |ts| - p
  {
    if p >= |ts| then None
    else match ts[p]
      case Integer(v) => Some((Integer(v), p + 1))
      case String(s) => Some((String(s), p + 1))
      case Boolean(b) => Some((Boolean(b), p + 1))
      case Variable(id) => Some((Variable(id), p + 1))
      case UnaryOperator(op) =>
        (match ParseAt(ts, p + 1)
         case None => None
         case Some((x, q)) => Some((UnaryOperator(op, x), q)))
      case BinaryOperator(op) =>
        (match ParseAt(ts, p + 1)
         case None => None
         case Some((l, q)) =>
           match ParseAt(ts, q)
           case None => None
           case Some((r, q')) => Some((BinaryOperator(op, l, r), q')))
      case If =>
        (match ParseAt(ts, p + 1)
         case None => None
         case Some((c, q1)) =>
           match ParseAt(ts, q1)
           case None => None
           case Some((t, q2)) =>
             match ParseAt(ts, q2)
             case None => None
             case Some((e, q3)) => Some((If(c, t, e), q3)))
      case Lambda(k) =>
        (match ParseAt(ts, p + 1)
         case None => None
         case Some((b, q)) => Some((Lambda(k, b), q)))
      case Unknown(_) => None
  }

  /** `parse`: one tree from the start; tokens after it are ignored. */
  function Parse(ts: seq<T.Token>): Option<Node>
  {
    match ParseAt(ts, 0)
    case None => None
    case Some((n, _)) => Some(n)
  }

  // ---------------------------------------------------------------------
  // The parser object: the token slice and a read position

  class Parser {
    const tokens: seq<T.Token>
    var position: nat

    constructor (tokens: seq<T.Token>)
      ensures this.tokens == tokens && position == 0
    {
      this.tokens := tokens;
      position := 0;
    }

    /** `parse`. */
    method Parse() returns (r: Option<Node>)
      requires position <= |tokens|
      modifies this
      ensures r.Some? <==> ParseAt(tokens, old(position)).Some?
      ensures r.Some? ==> ParseAt(tokens, old(position)) == Some((r.value, position))
    {
      r := ParseNode();
    }

    /** `parse_node`: dispatches on the token at the read position. */
    method ParseNode() returns (r: Option<Node>)
      requires position <= |tokens|
      modifies this
      ensures r.Some? <==> ParseAt(tokens, old(position)).Some?
      ensures r.Some? ==> ParseAt(tokens, old(position)) == Some((r.value, position))
      decreases |tokens| - position, 1
    {
      if position >= |tokens| {
        return None;
      }
      match tokens[position]
      case Integer(v) =>
        position := position + 1;
        r := Some(Integer(v));
      case String(s) =>
        position := position + 1;
        r := Some(String(s));
      case Boolean(b) =>
        position := position + 1;
        r := Some(Boolean(b));
      case Variable(id) =>
        position := position + 1;
        r := Some(Variable(id));
      case UnaryOperator(_) =>
        r := ParseUnary();
      case BinaryOperator(_) =>
        r := ParseBinary();
      case If =>
        r := ParseIf();
      case Lambda(_) =>
        r := ParseLambda();
      case Unknown(_) =>
        r := None;
    }

    method ParseUnary() returns (r: Option<Node>)
      requires position < |tokens| && tokens[position].UnaryOperator?
      modifies this
      ensures r.Some? <==> ParseAt(tokens, old(position)).Some?
      ensures r.Some? ==> ParseAt(tokens, old(position)) == Some((r.value, position))
      decreases |tokens| - position, 0
    {
      var operator := tokens[position].op;
      position := position + 1;
      var operand := ParseNode();
      if operand.None? {
        return None;
      }
      r := Some(UnaryOperator(operator, operand.value));
    }

    method ParseBinary() returns (r: Option<Node>)
      requires position < |tokens| && tokens[position].BinaryOperator?
      modifies this
      ensures r.Some? <==> ParseAt(tokens, old(position)).Some?
      ensures r.Some? ==> ParseAt(tokens, old(position)) == Some((r.value, position))
      decreases |tokens| - position, 0
    {
      var operator := tokens[position].op;
      position := position + 1;
      var left := ParseNode();
      if left.None? {
        return None;
      }
      var right := ParseNode();
      if right.None? {
        return None;
      }
      r := Some(BinaryOperator(operator, left.value, right.value));
    }

    method ParseIf() returns (r: Option<Node>)
      requires position < |tokens| && tokens[position].If?
      modifies this
      ensures r.Some? <==> ParseAt(tokens, old(position)).Some?
      ensures r.Some? ==> ParseAt(tokens, old(position)) == Some((r.value, position))
      decreases |tokens| - position, 0
    {
      position := position + 1;
      var condition := ParseNode();
      if condition.None? {
        return None;
      }
      var thenBranch := ParseNode();
      if thenBranch.None? {
        return None;
      }
      var elseBranch := ParseNode();
      if elseBranch.None? {
        return None;
      }
      r := Some(If(condition.value, thenBranch.value, elseBranch.value));
    }

    method ParseLambda() returns (r: Option<Node>)
      requires position < |tokens| && tokens[position].Lambda?
      modifies this
      ensures r.Some? <==> ParseAt(tokens, old(position)).Some?
      ensures r.Some? ==> ParseAt(tokens, old(position)) == Some((r.value, position))
      decreases |tokens| - position, 0
    {
      var arity := tokens[position].id;
      position := position + 1;
      var body := ParseNode();
      if body.None? {
        return None;
      }
      r := Some(Lambda(arity, body.value));
    }
  }

  // ---------------------------------------------------------------------
  // Properties

  /** The prefix tokens of the tree n sit in ts from position p on: its own
      token at p, then each child's tokens right behind the previous one. */
  predicate Occurs(ts: seq<T.Token>, p: nat, n: Node)
    decreases n
  {
    p < |ts| &&
    match n
    case Integer(v) => v >= 0 && ts[p] == T.Integer(v as nat)
    case String(s) => ts[p] == T.String(s)
    case Boolean(b) => ts[p] == T.Boolean(b)
    case Variable(id) => ts[p] == T.Variable(id)
    case UnaryOperator(op, x) => ts[p] == T.UnaryOperator(op) && Occurs(ts, p + 1, x)
    case BinaryOperator(op, l, r) =>
      ts[p] == T.BinaryOperator(op) && Occurs(ts, p + 1, l) && Occurs(ts, p + 1 + Size(l), r)
    case If(c, t, e) =>
      ts[p] == T.If && Occurs(ts, p + 1, c) && Occurs(ts, p + 1 + Size(c), t)
      && Occurs(ts, p + 1 + Size(c) + Size(t), e)
    case Lambda(k, b) => ts[p] == T.Lambda(k) && Occurs(ts, p + 1, b)
  }

  /** Where the tokens of a tree occur, the parser reads that tree and stops
      right after its last token. */
  lemma {:induction false} ParseOccurs(ts: seq<T.Token>, p: nat, n: Node)
    requires Occurs(ts, p, n)
    ensures ParseAt(ts, p) == Some((n, p + Size(n)))
    decreases n, 1
  {
    match n
    case UnaryOperator(_, x) =>
      ParseOccurs(ts, p + 1, x);
      UnaryStep(ts, p, x);
    case BinaryOperator(_, _, _) => ParseOccursBinary(ts, p, n);
    case If(_, _, _) => ParseOccursIf(ts, p, n);
    case Lambda(_, b) =>
      ParseOccurs(ts, p + 1, b);
      LambdaStep(ts, p, b);
    case _ =>
  }

  lemma {:induction false} ParseOccursBinary(ts: seq<T.Token>, p: nat, n: Node)
    requires n.BinaryOperator? && Occurs(ts, p, n)
    ensures ParseAt(ts, p) == Some((n, p + Size(n)))
    decreases n, 0
  {
    ParseOccurs(ts, p + 1, n.left);
    ParseOccurs(ts, p + 1 + Size(n.left), n.right);
    BinaryStep(ts, p, n.left, n.right, p + 1 + Size(n.left));
  }

  lemma {:induction false} ParseOccursIf(ts: seq<T.Token>, p: nat, n: Node)
    requires n.If? && Occurs(ts, p, n)
    ensures ParseAt(ts, p) == Some((n, p + Size(n)))
    decreases n, 0
  {
    var q1 := p + 1 + Size(n.cond);
    var q2 := q1 + Size(n.thenBranch);
    ParseOccurs(ts, p + 1, n.cond);
    ParseOccurs(ts, q1, n.thenBranch);
    ParseOccurs(ts, q2, n.elseBranch);
    IfStep(ts, p, n.cond, n.thenBranch, n.elseBranch, q1, q2);
  }

  /** Conversely, whatever the parser reads is a tree whose tokens occur
      where it started. */
  lemma {:induction false} ParsedOccurs(ts: seq<T.Token>, p: nat)
    requires ParseAt(ts, p).Some?
    ensures Occurs(ts, p, ParseAt(ts, p).value.0)
    decreases |ts| - p, 1
  {
    match ts[p]
    case UnaryOperator(_) =>
      ParsedOccurs(ts, p + 1);
    case BinaryOperator(_) =>
      ParsedOccurs(ts, p + 1);
      ParsedOccurs(ts, ParseAt(ts, p + 1).value.1);
    case If => ParsedOccursIf(ts, p);
    case Lambda(_) =>
      ParsedOccurs(ts, p + 1);
    case _ =>
  }

  /** The parser reads n at p exactly when the tokens of n occur at p. */
  lemma ParseIffOccurs(ts: seq<T.Token>, p: nat, n: Node)
    ensures ParseAt(ts, p) == Some((n, p + Size(n))) <==> Occurs(ts, p, n)
  {
    if ParseAt(ts, p) == Some((n, p + Size(n))) {
      ParsedOccurs(ts, p);
    }
    if Occurs(ts, p, n) {
      ParseOccurs(ts, p, n);
    }
  }

  lemma {:induction false} ParsedOccursIf(ts: seq<T.Token>, p: nat)
    requires p < |ts| && ts[p].If? && ParseAt(ts, p).Some?
    ensures Occurs(ts, p, ParseAt(ts, p).value.0)
    decreases |ts| - p, 0
  {
    ParsedOccurs(ts, p + 1);
    var q1 := ParseAt(ts, p + 1).value.1;
    ParsedOccurs(ts, q1);
    ParsedOccurs(ts, ParseAt(ts, q1).value.1);
  }

  /** Tokens appended after the slice leave an occurrence in place. */
  lemma {:induction false} OccursBefore(s: seq<T.Token>, w: seq<T.Token>, p: nat, n: Node)
    requires Occurs(s, p, n)
    ensures Occurs(s + w, p, n)
    decreases n, 1
  {
    assert (s + w)[p] == s[p];
    match n
    case UnaryOperator(_, x) => OccursBefore(s, w, p + 1, x);
    case BinaryOperator(_, l, r) =>
      OccursBefore(s, w, p + 1, l);
      OccursBefore(s, w, p + 1 + Size(l), r);
    case If(_, _, _) => OccursBeforeIf(s, w, p, n);
    case Lambda(_, b) => OccursBefore(s, w, p + 1, b);
    case _ =>
  }

  lemma {:induction false} OccursBeforeIf(s: seq<T.Token>, w: seq<T.Token>, p: nat, n: Node)
    requires n.If? && Occurs(s, p, n)
    ensures Occurs(s + w, p, n)
    decreases n, 0
  {
    assert (s + w)[p] == s[p];
    OccursBefore(s, w, p + 1, n.cond);
    OccursBefore(s, w, p + 1 + Size(n.cond), n.thenBranch);
    OccursBefore(s, w, p + 1 + Size(n.cond) + Size(n.thenBranch), n.elseBranch);
  }

  /** Tokens put in front of the slice shift an occurrence by their number. */
  lemma {:induction false} OccursAfter(u: seq<T.Token>, s: seq<T.Token>, p: nat, n: Node)
    requires Occurs(s, p, n)
    ensures Occurs(u + s, |u| + p, n)
    decreases n, 1
  {
    assert (u + s)[|u| + p] == s[p];
    match n
    case UnaryOperator(_, x) => OccursAfter(u, s, p + 1, x);
    case BinaryOperator(_, l, r) =>
      OccursAfter(u, s, p + 1, l);
      OccursAfter(u, s, p + 1 + Size(l), r);
    case If(_, _, _) => OccursAfterIf(u, s, p, n);
    case Lambda(_, b) => OccursAfter(u, s, p + 1, b);
    case _ =>
  }

  lemma {:induction false} OccursAfterIf(u: seq<T.Token>, s: seq<T.Token>, p: nat, n: Node)
    requires n.If? && Occurs(s, p, n)
    ensures Occurs(u + s, |u| + p, n)
    decreases n, 0
  {
    assert (u + s)[|u| + p] == s[p];
    OccursAfter(u, s, p + 1, n.cond);
    OccursAfter(u, s, p + 1 + Size(n.cond), n.thenBranch);
    OccursAfter(u, s, p + 1 + Size(n.cond) + Size(n.thenBranch), n.elseBranch);
  }

  /** The prefix traversal lays the tree's tokens out from position 0. */
  lemma {:induction false} OccursPreorder(n: Node)
    requires NonNegative(n)
    ensures Occurs(Preorder(n), 0, n)
    decreases n, 2
  {
    match n
    case UnaryOperator(op, x) =>
      assert Preorder(n) == [T.UnaryOperator(op)] + Preorder(x) + [];
      OccursInside([T.UnaryOperator(op)], x, []);
    case BinaryOperator(_, _, _) => OccursPreorderBinary(n);
    case If(_, _, _) => OccursPreorderIf(n);
    case Lambda(k, b) =>
      assert Preorder(n) == [T.Lambda(k)] + Preorder(b) + [];
      OccursInside([T.Lambda(k)], b, []);
    case _ =>
  }

  lemma {:induction false} OccursPreorderBinary(n: Node)
    requires NonNegative(n) && n.BinaryOperator?
    ensures Occurs(Preorder(n), 0, n)
    decreases n, 1
  {
    var head := [T.BinaryOperator(n.op)];
    var A, B := Preorder(n.left), Preorder(n.right);
    assert Preorder(n) == head + A + B == head + A + B + [];
    OccursInside(head, n.left, B);
    OccursInside(head + A, n.right, []);
  }

  lemma {:induction false} OccursPreorderIf(n: Node)
    requires NonNegative(n) && n.If?
    ensures Occurs(Preorder(n), 0, n)
    decreases n, 1
  {
    var head := [T.If];
    var A, B, C := Preorder(n.cond), Preorder(n.thenBranch), Preorder(n.elseBranch);
    assert Preorder(n) == head + A + B + C;
    assert head + A + B + C == head + A + (B + C) == head + A + B + C + [];
    OccursInside(head, n.cond, B + C);
    OccursInside(head + A, n.thenBranch, C);
    OccursInside(head + A + B, n.elseBranch, []);
  }

  /** The tokens of a tree, wherever they sit in a slice, occur there. */
  lemma OccursInside(u: seq<T.Token>, x: Node, w: seq<T.Token>)
    requires NonNegative(x)
    ensures Occurs(u + Preorder(x) + w, |u|, x)
    decreases x, 3
  {
    OccursPreorder(x);
    OccursAfter(u, Preorder(x), 0, x);
    OccursBefore(u + Preorder(x), w, |u|, x);
  }

  /** Parsing the prefix tokens of a tree, wherever they sit in the token
      slice, gives back the tree and stops right after its last token. */
  lemma ParsePreorder(n: Node, pre: seq<T.Token>, rest: seq<T.Token>)
    requires NonNegative(n)
    ensures ParseAt(pre + Preorder(n) + rest, |pre|) == Some((n, |pre| + Size(n)))
  {
    OccursInside(pre, n, rest);
    ParseOccurs(pre + Preorder(n) + rest, |pre|, n);
  }

  lemma UnaryStep(s: seq<T.Token>, p: nat, x: Node)
    requires p < |s| && s[p].UnaryOperator?
    requires ParseAt(s, p + 1) == Some((x, p + 1 + Size(x)))
    ensures ParseAt(s, p) == Some((UnaryOperator(s[p].op, x), p + 1 + Size(x)))
  {
  }

  lemma BinaryStep(s: seq<T.Token>, p: nat, l: Node, r: Node, q: nat)
    requires p < |s| && s[p].BinaryOperator?
    requires ParseAt(s, p + 1) == Some((l, q))
    requires ParseAt(s, q) == Some((r, q + Size(r)))
    ensures ParseAt(s, p) == Some((BinaryOperator(s[p].op, l, r), q + Size(r)))
  {
  }

  lemma IfStep(s: seq<T.Token>, p: nat, c: Node, t: Node, e: Node, q1: nat, q2: nat)
    requires p < |s| && s[p].If?
    requires ParseAt(s, p + 1) == Some((c, q1))
    requires ParseAt(s, q1) == Some((t, q2))
    requires ParseAt(s, q2) == Some((e, q2 + Size(e)))
    ensures ParseAt(s, p) == Some((If(c, t, e), q2 + Size(e)))
  {
  }

  lemma LambdaStep(s: seq<T.Token>, p: nat, b: Node)
    requires p < |s| && s[p].Lambda?
    requires ParseAt(s, p + 1) == Some((b, p + 1 + Size(b)))
    ensures ParseAt(s, p) == Some((Lambda(s[p].id, b), p + 1 + Size(b)))
  {
  }

  /** The parser inverts the prefix traversal. */
  lemma ParseInvertsPreorder(n: Node)
    requires NonNegative(n)
    ensures Parse(Preorder(n)) == Some(n)
  {
    ParsePreorder(n, [], []);
    assert [] + Preorder(n) + [] == Preorder(n);
  }

  lemma {:induction false} RereadWellFormed(ts: seq<T.Token>)
    requires AllWellFormed(ts)
    ensures T.RereadAll(ts) == ts
  {
    if ts != [] {
      RereadWellFormed(ts[1..]);
    }
  }

  /** Printing a tree and reading the text back through the tokenizer and
      the parser gives back the tree. */
  lemma WireRoundTrip(n: Node)
    requires Printable(n)
    ensures NonNegative(n)
    ensures NodeToString(n).Some? && T.Lex(NodeToString(n).value) == Some(Preorder(n))
    ensures Parse(Preorder(n)) == Some(n)
  {
    PreorderWellFormed(n);
    assert T.AllPrintable(Preorder(n));
    T.TokensRoundTrip(Preorder(n));
    RereadWellFormed(Preorder(n));
    ParseInvertsPreorder(n);
  }

  /** An Unknown token where a tree is expected, or no token at all, panics. */
  lemma ParseRejects(ts: seq<T.Token>, p: nat)
    requires p >= |ts| || ts[p].Unknown?
    ensures ParseAt(ts, p).None?
  {
  }

  /** Nested unary operators: "U- U- I$" reads as -(-(3)). */
  lemma ParseNestedUnaryExample()
    ensures Parse([T.UnaryOperator("-"), T.UnaryOperator("-"), T.Integer(3)])
      == Some(UnaryOperator("-", UnaryOperator("-", Integer(3))))
  {
    ParseInvertsPreorder(UnaryOperator("-", UnaryOperator("-", Integer(3))));
  }

  /** Binary reads left then right; If reads condition, then, else. */
  lemma ParseIfExample()
    ensures Parse([T.If, T.BinaryOperator(">"), T.Integer(2), T.Integer(3), T.String("yes"), T.String("no")])
      == Some(If(BinaryOperator(">", Integer(2), Integer(3)), String("yes"), String("no")))
  {
    var ts := [T.If, T.BinaryOperator(">"), T.Integer(2), T.Integer(3), T.String("yes"), T.String("no")];
    assert Occurs(ts, 1, BinaryOperator(">", Integer(2), Integer(3)));
    ParseOccurs(ts, 0, If(BinaryOperator(">", Integer(2), Integer(3)), String("yes"), String("no")));
  }
}
