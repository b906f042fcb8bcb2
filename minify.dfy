/** The run-length minifier (src/bin/minify.rs): splits a text into runs of
    equal characters and builds an ICFP program that prints the text, short
    runs as literal text and the others through the repeat function of
    IcfpBuiltin. */
module Minify {
  import opened Wrappers
  import opened IcfpUtil
  import opened IcfpParser
  import opened IcfpEvaluator
  import opened IcfpBuiltin

  /** One entry of the compress collection: a character and how many times
      in a row it occurs. */
  datatype Run = Run(c: char, count: nat)

  // ---------------------------------------------------------------------
  // The compress collection

  /** The text a sequence of runs stands for. */
  function Expand(runs: seq<Run>): string
  {
    if runs == [] then "" else Copies(runs[0].c, runs[0].count) + Expand(runs[1..])
  }

  lemma {:induction false} ExpandConcat(a: seq<Run>, b: seq<Run>)
    ensures Expand(a + b) == Expand(a) + Expand(b)
  {
    if a != [] {
      assert (a + b)[1..] == a[1..] + b;
      ExpandConcat(a[1..], b);
    } else {
      assert a + b == b;
    }
  }

  /** Expanding one more run at the end appends its copies. */
  lemma ExpandSnoc(runs: seq<Run>, r: Run)
    ensures Expand(runs + [r]) == Expand(runs) + Copies(r.c, r.count)
  {
    ExpandConcat(runs, [r]);
    assert Expand([r]) == Copies(r.c, r.count) + Expand([]);
  }

  /** Every run is non-empty and neighbouring runs hold different characters. */
  predicate WellFormed(runs: seq<Run>)
  {
    (forall i :: 0 <= i < |runs| ==> runs[i].count >= 1)
    && (forall i :: 0 < i < |runs| ==> runs[i - 1].c != runs[i].c)
  }

  /** A character of StringAscii, told by its index (see StringDigit). */
  predicate Printing(c: char)
  {
    StringIndex(c) >= 0
  }

  /** Runs whose characters all lie in StringAscii. */
  predicate Encodable(runs: seq<Run>)
  {
    forall i :: 0 <= i < |runs| ==> Printing(runs[i].c)
  }

  /** One character read after the runs so far: equal to the last run's
      character it extends that run, any other starts a run of one. */
  function Push(prev: seq<Run>, c: char): (r: seq<Run>)
  {
    if prev != [] && prev[|prev| - 1].c == c then prev[..|prev| - 1] + [Run(c, prev[|prev| - 1].count + 1)]
    else prev + [Run(c, 1)]
  }

  /** The compress collection of a text, read left to right. */
  function RunsOf(text: string): (r: seq<Run>)
    ensures |r| <= |text|
    ensures r == [] <==> text == []
  {
    if text == [] then [] else Push(RunsOf(text[..|text| - 1]), text[|text| - 1])
  }

  lemma RunsSnoc(t: string, c: char)
    ensures RunsOf(t + [c]) == Push(RunsOf(t), c)
  {
    var u := t + [c];
    assert u[..|u| - 1] == t && u[|u| - 1] == c;
  }

  /** Reading one more character adds it to the expansion. */
  lemma PushExpand(prev: seq<Run>, c: char)
    ensures Expand(Push(prev, c)) == Expand(prev) + [c]
  {
    if prev != [] && prev[|prev| - 1].c == c {
      var p := prev[..|prev| - 1];
      var n := prev[|prev| - 1].count;
      assert prev == p + [Run(c, n)];
      ExpandSnoc(p, Run(c, n));
      ExpandSnoc(p, Run(c, n + 1));
      CopiesSnoc(c, n);
    } else {
      ExpandSnoc(prev, Run(c, 1));
      assert Copies(c, 1) == [c];
    }
  }

  lemma CopiesSnoc(c: char, n: nat)
    ensures Copies(c, n + 1) == Copies(c, n) + [c]
  {
  }

  /** Expanding the collection gives back the text. */
  lemma {:induction false} RunsExpand(text: string)
    ensures Expand(RunsOf(text)) == text
  {
    if text != [] {
      var t := text[..|text| - 1];
      var c := text[|text| - 1];
      RunsExpand(t);
      PushExpand(RunsOf(t), c);
      assert text == t + [c];
    }
  }

  /** The collection is well formed and its characters come from the text. */
  lemma {:induction false} RunsWellFormed(text: string)
    ensures WellFormed(RunsOf(text))
    ensures forall i :: 0 <= i < |RunsOf(text)| ==> RunsOf(text)[i].c in text
  {
    if text != [] {
      var t := text[..|text| - 1];
      var c := text[|text| - 1];
      RunsWellFormed(t);
      PushWellFormed(RunsOf(t), c);
      assert text == t + [c];
      assert forall x :: x in t ==> x in text;
    }
  }

  /** Reading a character keeps the runs well formed; each run is the
      character read or a run from before. */
  lemma PushWellFormed(prev: seq<Run>, c: char)
    requires WellFormed(prev)
    ensures var r := Push(prev, c);
      WellFormed(r) && forall i :: 0 <= i < |r| ==> r[i].c == c || (i < |prev| && r[i] == prev[i])
  {
  }

  lemma WellFormedInit(runs: seq<Run>, r: Run)
    requires WellFormed(runs + [r])
    ensures WellFormed(runs)
    ensures runs == [] || runs[|runs| - 1].c != r.c
  {
    assert forall i :: 0 <= i < |runs| ==> runs[i] == (runs + [r])[i];
    if runs != [] {
      assert (runs + [r])[|runs|] == r;
    }
  }

  /** A last run of one character different from the one before it. */
  lemma UniqueStart(p: seq<Run>, r: Run)
    requires RunsOf(Expand(p)) == p && r.count == 1
    requires p == [] || p[|p| - 1].c != r.c
    ensures RunsOf(Expand(p + [r])) == p + [r]
  {
    ExpandStart(p, r);
    StartAfter(Expand(p), p, r);
  }

  lemma ExpandStart(p: seq<Run>, r: Run)
    requires r.count == 1
    ensures Expand(p + [r]) == Expand(p) + [r.c]
  {
    ExpandSnoc(p, r);
    assert Copies(r.c, 1) == [r.c];
  }

  lemma StartAfter(e: string, p: seq<Run>, r: Run)
    requires RunsOf(e) == p && r.count == 1
    requires p == [] || p[|p| - 1].c != r.c
    ensures RunsOf(e + [r.c]) == p + [r]
  {
    RunsSnoc(e, r.c);
    assert Push(p, r.c) == p + [Run(r.c, 1)];
  }

  /** A last run of several characters: one character more than the same
      run one shorter. */
  lemma UniqueExtend(p: seq<Run>, r: Run)
    requires r.count >= 2
    requires RunsOf(Expand(p + [Run(r.c, r.count - 1)])) == p + [Run(r.c, r.count - 1)]
    ensures RunsOf(Expand(p + [r])) == p + [r]
  {
    var shorter := p + [Run(r.c, r.count - 1)];
    assert Expand(p + [r]) == Expand(shorter) + [r.c] by {
      ExpandSnoc(p, r);
      ExpandSnoc(p, Run(r.c, r.count - 1));
      assert Copies(r.c, r.count) == Copies(r.c, r.count - 1) + [r.c];
    }
    RunsSnoc(Expand(shorter), r.c);
    assert shorter[..|shorter| - 1] == p && shorter[|shorter| - 1].c == r.c;
  }

  /** Dropping a last run of one character leaves a shorter well-formed
      sequence. */
  lemma DropStart(runs: seq<Run>, p: seq<Run>, r: Run)
    requires WellFormed(runs) && runs == p + [r] && r.count == 1
    ensures WellFormed(p) && (p == [] || p[|p| - 1].c != r.c)
    ensures |Expand(p)| < |Expand(runs)|
  {
    WellFormedInit(p, r);
    ExpandSnoc(p, r);
  }

  /** Shortening a last run of several characters by one keeps the sequence
      well formed. */
  lemma ShortenLast(runs: seq<Run>, p: seq<Run>, r: Run)
    requires WellFormed(runs) && runs == p + [r] && r.count >= 2
    ensures WellFormed(p + [Run(r.c, r.count - 1)])
    ensures |Expand(p + [Run(r.c, r.count - 1)])| < |Expand(runs)|
  {
    var shorter := p + [Run(r.c, r.count - 1)];
    ExpandSnoc(p, r);
    ExpandSnoc(p, Run(r.c, r.count - 1));
    assert forall i :: 0 <= i < |p| ==> shorter[i] == runs[i];
    WellFormedInit(p, r);
  }

  /** A well-formed sequence of runs is the collection of its own expansion:
      with RunsExpand, RunsOf is the one well-formed run sequence of a text. */
  lemma {:induction false} RunsUnique(runs: seq<Run>)
    requires WellFormed(runs)
    ensures RunsOf(Expand(runs)) == runs
    decreases |Expand(runs)|
  {
    if runs != [] {
      var p := runs[..|runs| - 1];
      var r := runs[|runs| - 1];
      assert runs == p + [r];
      if r.count == 1 {
        DropStart(runs, p, r);
        RunsUnique(p);
        UniqueStart(p, r);
      } else {
        ShortenLast(runs, p, r);
        RunsUnique(p + [Run(r.c, r.count - 1)]);
        UniqueExtend(p, r);
      }
    }
  }

  /** The test of `get_compress_collection`. */
  lemma RunsExample()
    ensures RunsOf("aaabbbccc") == [Run('a', 3), Run('b', 3), Run('c', 3)]
  {
    var runs := [Run('a', 3), Run('b', 3), Run('c', 3)];
    assert Expand(runs) == "aaabbbccc" by {
      assert Copies('a', 3) == "aaa" && Copies('b', 3) == "bbb" && Copies('c', 3) == "ccc";
      assert runs[1..][1..][1..] == [];
    }
    RunsUnique(runs);
  }

  /** `get_compress_collection`. */
  method GetCompressCollection(text: string) returns (r: seq<Run>)
    ensures r == RunsOf(text)
  {
    var collection: seq<Run> := [];
    var lastChar: Option<char> := None;
    var count: nat := 0;
    for i := 0 to |text|
      invariant i == 0 ==> lastChar == None && collection == []
      invariant i > 0 ==> lastChar == Some(text[i - 1]) && collection + [Run(text[i - 1], count)] == RunsOf(text[..i])
    {
      var c := text[i];
      assert text[..i + 1][..i] == text[..i];
      if lastChar.Some? {
        if lastChar.value == c {
          count := count + 1;
        } else {
          collection := collection + [Run(lastChar.value, count)];
          count := 1;
        }
      } else {
        count := 1;
      }
      lastChar := Some(c);
    }
    if lastChar.Some? {
      collection := collection + [Run(lastChar.value, count)];
    }
    assert text[..|text|] == text;
    r := collection;
  }

  // ---------------------------------------------------------------------
  // generate_compress_operation_node

  /** Runs of at most this many characters go into the literal prefix. */
  const LiteralLimit: nat := 12

  /** Runs that `repeat_char_operator` accepts: at least one character,
      each in StringAscii. */
  predicate Payable(runs: seq<Run>)
  {
    forall i :: 0 <= i < |runs| ==> runs[i].count >= 1 && Printing(runs[i].c)
  }

  /** Where the while loop stops on a non-empty queue: the first run longer
      than LiteralLimit, or else the last run. */
  function GroupEnd(runs: seq<Run>): (j: nat)
    requires runs != []
    ensures j < |runs|
    ensures forall i :: 0 <= i < j ==> runs[i].count <= LiteralLimit
    ensures runs[j].count > LiteralLimit || j == |runs| - 1
  {
    if runs[0].count > LiteralLimit || |runs| == 1 then 0 else 1 + GroupEnd(runs[1..])
  }

  /** The three conditions of GroupEnd single out one index. */
  lemma GroupEndUnique(runs: seq<Run>, j: nat)
    requires j < |runs|
    requires forall i :: 0 <= i < j ==> runs[i].count <= LiteralLimit
    requires runs[j].count > LiteralLimit || j == |runs| - 1
    ensures GroupEnd(runs) == j
  {
  }

  /** One call before it recurses: the literal prefix its loop builds, the
      run the loop stops at, and the runs left in the queue. */
  datatype Group = Group(prefix: string, last: Run, rest: seq<Run>)

  /** The loop as written: it appends a run to the prefix before it looks
      for the next one, so when the queue runs out the last run is in the
      prefix as well as in the operator. */
  function TakeGroup(runs: seq<Run>): (g: Group)
    requires runs != []
    ensures |g.rest| < |runs|
  {
    var j := GroupEnd(runs);
    var pushed := if runs[j].count <= LiteralLimit then Copies(runs[j].c, runs[j].count) else "";
    Group(Expand(runs[..j]) + pushed, runs[j], runs[j + 1..])
  }

  /** The loop appending a run only once it has found the next one: the run
      it stops at is printed by the operator alone. */
  function TakeGroupFixed(runs: seq<Run>): (g: Group)
    requires runs != []
    ensures |g.rest| < |runs|
  {
    var j := GroupEnd(runs);
    Group(Expand(runs[..j]), runs[j], runs[j + 1..])
  }

  /** The node one call returns: `v0 $ operator`, joined by `.` to the node
      of the rest when there is one, after the literal prefix when that is
      not empty. */
  function Assemble(prefix: string, operator: Node, child: Option<Node>): Node
  {
    if prefix == "" then Tail(operator, child) else BinaryOperator(".", String(prefix), Tail(operator, child))
  }

  /** `v0 $ operator`, followed by the child when there is one. */
  function Tail(operator: Node, child: Option<Node>): Node
  {
    var piece := BinaryOperator("$", Variable(0), operator);
    match child
    case None => piece
    case Some(m) => BinaryOperator(".", piece, m)
  }

  /** `generate_compress_operation_node` on a queue holding runs: `None` for
      a panic in `repeat_char_operator`, `Some(None)` for the empty queue. */
  function CompressNode(runs: seq<Run>): (r: Option<Option<Node>>)
    ensures r == Some(None) <==> runs == []
    ensures Payable(runs) ==> r.Some?
    decreases |runs|
  {
    if runs == [] then Some(None)
    else
      var g := TakeGroup(runs);
      StringDigit(g.last.c);
      match RepeatCharOperator(g.last.c, g.last.count)
      case None => None
      case Some(operator) =>
        match CompressNode(g.rest)
        case None => None
        case Some(child) => Some(Some(Assemble(g.prefix, operator, child)))
  }

  /** The generator with the loop of TakeGroupFixed. */
  function CompressNodeFixed(runs: seq<Run>): (r: Option<Option<Node>>)
    ensures r == Some(None) <==> runs == []
    ensures Payable(runs) ==> r.Some?
    decreases |runs|
  {
    if runs == [] then Some(None)
    else
      var g := TakeGroupFixed(runs);
      StringDigit(g.last.c);
      match RepeatCharOperator(g.last.c, g.last.count)
      case None => None
      case Some(operator) =>
        match CompressNodeFixed(g.rest)
        case None => None
        case Some(child) => Some(Some(Assemble(g.prefix, operator, child)))
  }

  /** `generate_compress_operation_node`: pops runs while they are short,
      then builds the operator and recurses on what is left. */
  method GenerateCompressNode(runs: seq<Run>) returns (r: Option<Option<Node>>)
    ensures r == CompressNode(runs)
    decreases |runs|
  {
    var queue := runs;
    if queue == [] {
      return Some(None);
    }
    var compressing: string := "";
    var last := queue[0];
    queue := queue[1..];
    ghost var j: nat := 0;
    while last.count <= LiteralLimit
      invariant j < |runs| && last == runs[j] && queue == runs[j + 1..]
      invariant compressing == Expand(runs[..j])
      invariant forall i :: 0 <= i < j ==> runs[i].count <= LiteralLimit
      decreases |queue|
    {
      compressing := compressing + Copies(last.c, last.count);
      if queue != [] {
        assert runs[..j + 1] == runs[..j] + [runs[j]];
        ExpandSnoc(runs[..j], runs[j]);
        last := queue[0];
        queue := queue[1..];
        j := j + 1;
      } else {
        break;
      }
    }
    GroupEndUnique(runs, j);
    assert compressing == TakeGroup(runs).prefix;
    var operator := RepeatCharOperator(last.c, last.count);
    if operator.None? {
      return None;
    }
    var piece := BinaryOperator("$", Variable(0), operator.value);
    var child := GenerateCompressNode(queue);
    if child.None? {
      return None;
    }
    var next := if child.value.Some? then BinaryOperator(".", piece, child.value.value) else piece;
    if compressing == "" {
      r := Some(Some(next));
    } else {
      r := Some(Some(BinaryOperator(".", String(compressing), next)));
    }
  }

  // ---------------------------------------------------------------------
  // What the generated node prints

  /** The number `repeat_char_operator` gives a run: 94 times its length
      plus the index of its character. */
  function Code(r: Run): int
  {
    Base * r.count + StringIndex(r.c)
  }

  lemma OperatorCode(r: Run)
    requires r.count >= 1 && Printing(r.c)
    ensures RepeatCharOperator(r.c, r.count) == Some(Integer(Code(r)))
  {
    StringDigit(r.c);
  }

  /** The fixed repeat function turns a run's number back into the run. */
  lemma RepeatRun(r: Run)
    requires Printing(r.c)
    ensures RepeatOut(Base - 1, Code(r)) == Copies(r.c, r.count)
  {
    StringAsciiAt(r.c);
    assert |StringAscii| == Base;
    RepeatFixedCopies(r.count, StringIndex(r.c));
  }

  /** The binding `main` gives v0: `y_combinator() $ repeat`. */
  function Bound(limit: int): map<nat, Node>
  {
    map[0 := Fix(limit)]
  }

  /** Fuel enough to evaluate the node built for runs. */
  function Budget(runs: seq<Run>, limit: int): nat
    requires limit >= 0
    decreases |runs|
  {
    if runs == [] then 0
    else
      var j := GroupEnd(runs);
      Need(limit, Code(runs[j])) + 7 + Budget(runs[j + 1..], limit)
  }

  /** The text the node of CompressNode prints when v0 is the repeat
      function with the given bound: per call, its prefix, then what the
      repeat function makes of the operator. */
  function Printed(runs: seq<Run>, limit: int): string
    requires limit >= 0
    decreases |runs|
  {
    if runs == [] then ""
    else
      var g := TakeGroup(runs);
      g.prefix + (RepeatOut(limit, Code(g.last)) + Printed(g.rest, limit))
  }

  /** The same for CompressNodeFixed. */
  function PrintedFixed(runs: seq<Run>, limit: int): string
    requires limit >= 0
    decreases |runs|
  {
    if runs == [] then ""
    else
      var g := TakeGroupFixed(runs);
      g.prefix + (RepeatOut(limit, Code(g.last)) + PrintedFixed(g.rest, limit))
  }

  /** A concatenation of two nodes that evaluate to strings one unit of fuel
      earlier. */
  lemma ConcatEval(a: Node, b: Node, x: string, y: string, f: nat)
    requires f >= 1 && Eval(a, f - 1) == Value(String(x)) && Eval(b, f - 1) == Value(String(y))
    ensures Eval(BinaryOperator(".", a, b), f) == Value(String(x + y))
  {
    BinaryValues(BinaryOperator(".", a, b), String(x), String(y), f);
  }

  /** The operator's repetition, then whatever the child prints. */
  lemma TailEval(k: int, child: Option<Node>, childText: string, limit: int, h: nat)
    requires limit >= 0 && h >= Need(limit, k) + 6
    requires child.None? ==> childText == ""
    requires child.Some? ==> Eval(Replace(child.value, Bound(limit)), h - 1) == Value(String(childText))
    ensures Eval(Replace(Tail(Integer(k), child), Bound(limit)), h) == Value(String(RepeatOut(limit, k) + childText))
  {
    if child.Some? {
      TailEvalChild(k, child.value, childText, limit, h);
    } else {
      TailEvalAlone(k, limit, h);
      assert RepeatOut(limit, k) + childText == RepeatOut(limit, k);
    }
  }

  lemma TailEvalChild(k: int, child: Node, childText: string, limit: int, h: nat)
    requires limit >= 0 && h >= Need(limit, k) + 6
    requires Eval(Replace(child, Bound(limit)), h - 1) == Value(String(childText))
    ensures Eval(Replace(Tail(Integer(k), Some(child)), Bound(limit)), h) == Value(String(RepeatOut(limit, k) + childText))
  {
    var piece := BinaryOperator("$", Fix(limit), Integer(k));
    var rest := Replace(child, Bound(limit));
    RepeatApplied(limit, k, h - 1);
    ConcatEval(piece, rest, RepeatOut(limit, k), childText, h);
    TailReplaced(k, child, limit);
  }

  lemma TailReplaced(k: int, child: Node, limit: int)
    ensures Replace(Tail(Integer(k), Some(child)), Bound(limit))
         == BinaryOperator(".", BinaryOperator("$", Fix(limit), Integer(k)), Replace(child, Bound(limit)))
  {
    assert Replace(BinaryOperator("$", Variable(0), Integer(k)), Bound(limit)) == BinaryOperator("$", Fix(limit), Integer(k));
  }

  lemma TailEvalAlone(k: int, limit: int, h: nat)
    requires limit >= 0 && h >= Need(limit, k) + 6
    ensures Eval(Replace(Tail(Integer(k), None), Bound(limit)), h) == Value(String(RepeatOut(limit, k)))
  {
    assert Replace(Variable(0), Bound(limit)) == Fix(limit);
    RepeatProgram(limit, k, h);
  }

  /** One call's node, with v0 bound, prints its prefix, the operator's
      repetition and then whatever its child prints. */
  lemma AssembleEval(prefix: string, k: int, child: Option<Node>, childText: string, limit: int, f: nat)
    requires limit >= 0 && f >= Need(limit, k) + 7
    requires child.None? ==> childText == ""
    requires child.Some? ==> Eval(Replace(child.value, Bound(limit)), f - 2) == Value(String(childText))
    ensures Eval(Replace(Assemble(prefix, Integer(k), child), Bound(limit)), f)
         == Value(String(prefix + (RepeatOut(limit, k) + childText)))
  {
    if prefix == "" {
      BareEval(k, child, childText, limit, f);
      assert prefix + (RepeatOut(limit, k) + childText) == RepeatOut(limit, k) + childText;
    } else {
      PrefixedEval(prefix, k, child, childText, limit, f);
    }
  }

  lemma BareEval(k: int, child: Option<Node>, childText: string, limit: int, f: nat)
    requires limit >= 0 && f >= Need(limit, k) + 7
    requires child.None? ==> childText == ""
    requires child.Some? ==> Eval(Replace(child.value, Bound(limit)), f - 2) == Value(String(childText))
    ensures Eval(Replace(Tail(Integer(k), child), Bound(limit)), f) == Value(String(RepeatOut(limit, k) + childText))
  {
    if child.Some? {
      EvalMonotone(Replace(child.value, Bound(limit)), f - 2, f - 1);
    }
    TailEval(k, child, childText, limit, f);
  }

  lemma PrefixedEval(prefix: string, k: int, child: Option<Node>, childText: string, limit: int, f: nat)
    requires prefix != "" && limit >= 0 && f >= Need(limit, k) + 7
    requires child.None? ==> childText == ""
    requires child.Some? ==> Eval(Replace(child.value, Bound(limit)), f - 2) == Value(String(childText))
    ensures Eval(Replace(Assemble(prefix, Integer(k), child), Bound(limit)), f)
         == Value(String(prefix + (RepeatOut(limit, k) + childText)))
  {
    var tail := Replace(Tail(Integer(k), child), Bound(limit));
    TailEval(k, child, childText, limit, f - 1);
    AssembleReplaced(prefix, k, child, limit);
    ConcatEval(String(prefix), tail, prefix, RepeatOut(limit, k) + childText, f);
  }

  lemma AssembleReplaced(prefix: string, k: int, child: Option<Node>, limit: int)
    requires prefix != ""
    ensures Replace(Assemble(prefix, Integer(k), child), Bound(limit))
         == BinaryOperator(".", String(prefix), Replace(Tail(Integer(k), child), Bound(limit)))
  {
  }

  /** AssembleEval for a node given by name. */
  lemma NodePrints(node: Node, prefix: string, k: int, child: Option<Node>, childText: string, limit: int, f: nat, h: nat)
    requires node == Assemble(prefix, Integer(k), child)
    requires limit >= 0 && f == h + 2 && f >= Need(limit, k) + 7
    requires child.None? ==> childText == ""
    requires child.Some? ==> Eval(Replace(child.value, Bound(limit)), h) == Value(String(childText))
    ensures Eval(Replace(node, Bound(limit)), f) == Value(String(prefix + (RepeatOut(limit, k) + childText)))
  {
    AssembleEval(prefix, k, child, childText, limit, f);
  }

  lemma PayableRest(runs: seq<Run>, j: nat)
    requires Payable(runs) && j < |runs|
    ensures Payable(runs[j + 1..]) && runs[j].count >= 1 && Printing(runs[j].c)
  {
    var rest := runs[j + 1..];
    assert forall i :: 0 <= i < |rest| ==> rest[i] == runs[j + 1 + i];
  }

  /** One call of the as-written generator on payable runs: it succeeds on
      the rest and joins its node after the group's prefix and operator. */
  lemma CompressStep(runs: seq<Run>, limit: int)
    requires runs != [] && Payable(runs) && limit >= 0
    ensures var g := TakeGroup(runs);
      Payable(g.rest) && CompressNode(g.rest).Some?
      && CompressNode(runs) == Some(Some(Assemble(g.prefix, Integer(Code(g.last)), CompressNode(g.rest).value)))
      && Budget(runs, limit) == Need(limit, Code(g.last)) + 7 + Budget(g.rest, limit)
  {
    var j := GroupEnd(runs);
    PayableRest(runs, j);
    OperatorCode(runs[j]);
  }

  /** The same step for CompressNodeFixed. */
  lemma CompressFixedStep(runs: seq<Run>, limit: int)
    requires runs != [] && Payable(runs) && limit >= 0
    ensures var g := TakeGroupFixed(runs);
      Payable(g.rest) && CompressNodeFixed(g.rest).Some?
      && CompressNodeFixed(runs) == Some(Some(Assemble(g.prefix, Integer(Code(g.last)), CompressNodeFixed(g.rest).value)))
      && Budget(runs, limit) == Need(limit, Code(g.last)) + 7 + Budget(g.rest, limit)
  {
    var j := GroupEnd(runs);
    PayableRest(runs, j);
    OperatorCode(runs[j]);
  }

  /** The as-written node, with v0 bound to the repeat function, evaluates
      to Printed. */
  lemma {:induction false} CompressMeaning(runs: seq<Run>, limit: int, f: nat)
    requires limit >= 0 && runs != [] && Payable(runs) && f >= Budget(runs, limit)
    ensures CompressNode(runs).Some? && CompressNode(runs).value.Some?
    ensures Eval(Replace(CompressNode(runs).value.value, Bound(limit)), f) == Value(String(Printed(runs, limit)))
    decreases |runs|
  {
    var g := TakeGroup(runs);
    CompressStep(runs, limit);
    var h: nat := f - 2;
    if g.rest != [] {
      CompressMeaning(g.rest, limit, h);
    }
    NodePrints(CompressNode(runs).value.value, g.prefix, Code(g.last), CompressNode(g.rest).value, Printed(g.rest, limit), limit, f, h);
  }

  /** The corrected node, with v0 bound to the repeat function, evaluates
      to PrintedFixed. */
  lemma {:induction false} CompressFixedMeaning(runs: seq<Run>, limit: int, f: nat)
    requires limit >= 0 && runs != [] && Payable(runs) && f >= Budget(runs, limit)
    ensures CompressNodeFixed(runs).Some? && CompressNodeFixed(runs).value.Some?
    ensures Eval(Replace(CompressNodeFixed(runs).value.value, Bound(limit)), f) == Value(String(PrintedFixed(runs, limit)))
    decreases |runs|
  {
    var g := TakeGroupFixed(runs);
    CompressFixedStep(runs, limit);
    var h: nat := f - 2;
    if g.rest != [] {
      CompressFixedMeaning(g.rest, limit, h);
    }
    NodePrints(CompressNodeFixed(runs).value.value, g.prefix, Code(g.last), CompressNodeFixed(g.rest).value, PrintedFixed(g.rest, limit), limit, f, h);
  }

  lemma ConcatAssoc<T>(a: seq<T>, b: seq<T>, c: seq<T>)
    ensures a + (b + c) == (a + b) + c
  {
  }

  /** Splitting runs at the stopping index. */
  lemma ExpandAround(runs: seq<Run>, j: nat)
    requires j < |runs|
    ensures Expand(runs) == Expand(runs[..j]) + (Copies(runs[j].c, runs[j].count) + Expand(runs[j + 1..]))
  {
    var tail := runs[j..];
    assert Expand(runs) == Expand(runs[..j]) + Expand(tail) by {
      assert runs == runs[..j] + tail;
      ExpandConcat(runs[..j], tail);
    }
    assert tail[0] == runs[j] && tail[1..] == runs[j + 1..];
  }

  /** With the repeat function printing every run exactly, the as-written
      node prints the text and then the last run a second time whenever that
      run is at most LiteralLimit long. */
  lemma {:induction false} PrintedDuplicatesLastRun(runs: seq<Run>)
    requires runs != [] && Encodable(runs)
    ensures Printed(runs, Base - 1) == Expand(runs)
      + (if runs[|runs| - 1].count <= LiteralLimit then Copies(runs[|runs| - 1].c, runs[|runs| - 1].count) else "")
    decreases |runs|
  {
    var j := GroupEnd(runs);
    var rest := runs[j + 1..];
    var last := runs[|runs| - 1];
    var e := Expand(runs[..j]);
    var c := Copies(runs[j].c, runs[j].count);
    var dup := if last.count <= LiteralLimit then Copies(last.c, last.count) else "";
    assert Expand(runs) == e + (c + Expand(rest)) by {
      ExpandAround(runs, j);
    }
    var p := if runs[j].count <= LiteralLimit then c else "";
    assert Printed(runs, Base - 1) == (e + p) + (c + Printed(rest, Base - 1)) by {
      PrintedFirstGroup(runs);
    }
    if rest == [] {
      assert last == runs[j] && p == dup && Expand(rest) == [] && Printed(rest, Base - 1) == [];
      LastGroupAlgebra(e, c, p);
    } else {
      assert runs[j].count > LiteralLimit && p == "";
      assert Printed(rest, Base - 1) == Expand(rest) + dup by {
        assert rest[|rest| - 1] == last;
        EncodableRest(runs, j);
        PrintedDuplicatesLastRun(rest);
      }
      EarlierGroupAlgebra(e, c, Expand(rest), dup);
    }
  }

  /** Printed on its first group under the bound 93: the prefix, then the
      group's last run exactly. */
  lemma PrintedFirstGroup(runs: seq<Run>)
    requires runs != [] && Encodable(runs)
    ensures var j := GroupEnd(runs);
      var c := Copies(runs[j].c, runs[j].count);
      Printed(runs, Base - 1)
        == (Expand(runs[..j]) + (if runs[j].count <= LiteralLimit then c else "")) + (c + Printed(runs[j + 1..], Base - 1))
  {
    var j := GroupEnd(runs);
    PrintedUnfold(runs, Base - 1, j);
    assert RepeatOut(Base - 1, Code(runs[j])) == Copies(runs[j].c, runs[j].count) by {
      assert Printing(runs[j].c);
      RepeatRun(runs[j]);
    }
  }

  /** Printed on its first group, for any bound. */
  lemma PrintedUnfold(runs: seq<Run>, limit: int, j: nat)
    requires runs != [] && limit >= 0 && j == GroupEnd(runs)
    ensures Printed(runs, limit)
      == (Expand(runs[..j]) + (if runs[j].count <= LiteralLimit then Copies(runs[j].c, runs[j].count) else ""))
        + (RepeatOut(limit, Code(runs[j])) + Printed(runs[j + 1..], limit))
  {
    var g := TakeGroup(runs);
    assert Printed(runs, limit) == g.prefix + (RepeatOut(limit, Code(g.last)) + Printed(g.rest, limit));
    assert g.prefix == Expand(runs[..j]) + (if runs[j].count <= LiteralLimit then Copies(runs[j].c, runs[j].count) else "")
      && g.last == runs[j] && g.rest == runs[j + 1..] by {
      TakeGroupShape(runs, j);
    }
  }

  lemma TakeGroupShape(runs: seq<Run>, j: nat)
    requires runs != [] && j == GroupEnd(runs)
    ensures TakeGroup(runs)
      == Group(Expand(runs[..j]) + (if runs[j].count <= LiteralLimit then Copies(runs[j].c, runs[j].count) else ""), runs[j], runs[j + 1..])
  {
  }

  lemma EncodableRest(runs: seq<Run>, j: nat)
    requires Encodable(runs) && j < |runs|
    ensures Encodable(runs[j + 1..])
  {
    var rest := runs[j + 1..];
    assert forall i :: 0 <= i < |rest| ==> rest[i] == runs[j + 1 + i];
  }

  /** The string algebra of PrintedDuplicatesLastRun, last group. */
  lemma LastGroupAlgebra(e: string, c: string, p: string)
    requires p == c || p == []
    ensures (e + p) + (c + []) == (e + (c + [])) + p
  {
  }

  /** The string algebra of PrintedDuplicatesLastRun, earlier groups. */
  lemma EarlierGroupAlgebra(e: string, c: string, r: string, d: string)
    ensures (e + []) + (c + (r + d)) == (e + (c + r)) + d
  {
  }


  /** The corrected node prints exactly the text. */
  lemma {:induction false} PrintedFixedExpands(runs: seq<Run>)
    requires Encodable(runs)
    ensures PrintedFixed(runs, Base - 1) == Expand(runs)
    decreases |runs|
  {
    if runs != [] {
      var j := GroupEnd(runs);
      var g := TakeGroupFixed(runs);
      RepeatRun(runs[j]);
      ExpandAround(runs, j);
      assert Encodable(g.rest) by {
        assert forall i :: 0 <= i < |g.rest| ==> g.rest[i] == runs[j + 1 + i];
      }
      PrintedFixedExpands(g.rest);
    }
  }

  /** "ab": the literal prefix already holds both runs, and the operator
      prints the last run again. */
  lemma DuplicatedRunExample(text: string)
    requires text == "ab"
    ensures RunsOf(text) == [Run('a', 1), Run('b', 1)]
    ensures Printed(RunsOf(text), Base) == text + [text[1]]
  {
    var runs := [Run('a', 1), Run('b', 1)];
    TwoRunsOf(text, runs);
    TwoRunsGroup(runs);
    assert Printed(runs[2..], Base) == "";
    assert RepeatOut(Base, Code(runs[1])) == [runs[1].c] by {
      RepeatSingle();
    }
  }

  /** The runs of "ab". */
  lemma TwoRunsOf(text: string, runs: seq<Run>)
    requires text == "ab" && runs == [Run('a', 1), Run('b', 1)]
    ensures RunsOf(text) == runs
  {
    assert Expand(runs) == text by {
      assert Copies('a', 1) == "a" && Copies('b', 1) == "b";
      assert runs[1..][1..] == [];
      assert Expand(runs[1..]) == "b" + Expand([]);
      assert Expand(runs) == "a" + Expand(runs[1..]);
    }
    RunsUnique(runs);
  }

  /** The as-written loop on two single-character runs takes both into the
      prefix and stops at the second. */
  lemma TwoRunsGroup(runs: seq<Run>)
    requires runs == [Run('a', 1), Run('b', 1)]
    ensures TakeGroup(runs) == Group("ab", runs[1], runs[2..])
  {
    assert GroupEnd(runs) == 1;
    assert runs[..1] == [Run('a', 1)];
    assert Expand([Run('a', 1)]) == "a";
  }

  /** The repeat function as written prints one 'b' for the code of a
      single 'b'. */
  lemma RepeatSingle()
    ensures RepeatOut(Base, Code(Run('b', 1))) == "b"
  {
    assert StringIndex('b') == 1;
    assert RepeatOut(Base, 1) == "";
    StringAsciiAt('b');
  }

  // ---------------------------------------------------------------------
  // main, once the input line is read and trimmed

  /** The program main builds: the generated node under Lambda 0, applied to
      `y_combinator() $ repeat`. */
  function Program(body: Node, repeat: Node): Node
  {
    BinaryOperator("$", Lambda(0, body), BinaryOperator("$", YCombinator(), repeat))
  }

  /** The text of every string leaf is over StringAscii. */
  lemma OverConcat(a: string, b: string)
    requires Over(a, StringAscii) && Over(b, StringAscii)
    ensures Over(a + b, StringAscii)
  {
    assert forall i :: 0 <= i < |a + b| ==> (a + b)[i] == (if i < |a| then a[i] else b[i - |a|]);
  }

  lemma {:induction false} ExpandOver(runs: seq<Run>)
    requires Encodable(runs)
    ensures Over(Expand(runs), StringAscii)
  {
    if runs != [] {
      var c := runs[0].c;
      assert Printing(c);
      StringDigit(c);
      assert Over(Copies(c, runs[0].count), StringAscii);
      assert Encodable(runs[1..]) by {
        assert forall i :: 0 <= i < |runs[1..]| ==> runs[1..][i] == runs[i + 1];
      }
      ExpandOver(runs[1..]);
      OverConcat(Copies(c, runs[0].count), Expand(runs[1..]));
    }
  }

  lemma PrefixEncodable(runs: seq<Run>, j: nat)
    requires Payable(runs) && j <= |runs|
    ensures Encodable(runs[..j])
  {
    assert forall i :: 0 <= i < j ==> runs[..j][i] == runs[i];
  }

  /** The combinator and the repeat function print. */
  lemma CombinatorsPrintable(limit: int)
    requires limit >= 0
    ensures Printable(YCombinator()) && Printable(RepeatCharWith(limit))
  {
    YCombinatorPrintable();
    RepeatPrintable(limit);
  }

  lemma YCombinatorPrintable()
    ensures Printable(YCombinator())
  {
    assert T.NoSpace("$");
    assert Printable(Delayed(Variable(1)));
    assert Printable(SelfApplier());
    assert Printable(Lambda(1, BinaryOperator("$", Variable(1), Variable(1))));
  }

  lemma RepeatPrintable(limit: int)
    requires limit >= 0
    ensures Printable(RepeatCharWith(limit))
  {
    assert T.NoSpace("$") && T.NoSpace(".") && T.NoSpace(">") && T.NoSpace("%") && T.NoSpace("-");
    var digit := UnaryOperator("$", BinaryOperator("%", Variable(1), Integer(Base)));
    var call := BinaryOperator("$", Variable(0), BinaryOperator("-", Variable(1), Integer(Base)));
    assert Printable(digit) && Printable(call);
    assert Printable(BinaryOperator(".", digit, call));
    assert Printable(BinaryOperator(">", Variable(1), Integer(limit)));
    assert Printable(String(""));
    assert Printable(RepeatBody(limit, Variable(0), Variable(1)));
  }

  /** A node assembled from a printable prefix and child prints. */
  lemma AssemblePrintable(prefix: string, k: int, child: Option<Node>)
    requires Over(prefix, StringAscii) && k >= 0
    requires child.Some? ==> Printable(child.value)
    ensures Printable(Assemble(prefix, Integer(k), child))
  {
    assert T.NoSpace("$") && T.NoSpace(".");
    assert Printable(Variable(0)) && Printable(Integer(k));
    assert Printable(BinaryOperator("$", Variable(0), Integer(k)));
    assert Printable(Tail(Integer(k), child));
  }

  /** Every node the as-written generator builds from payable runs prints. */
  lemma {:induction false} CompressPrintable(runs: seq<Run>)
    requires runs != [] && Payable(runs)
    ensures CompressNode(runs).Some? && CompressNode(runs).value.Some?
    ensures Printable(CompressNode(runs).value.value)
    decreases |runs|
  {
    var g := TakeGroup(runs);
    var j := GroupEnd(runs);
    CompressStep(runs, 0);
    if g.rest != [] {
      CompressPrintable(g.rest);
    }
    assert Over(g.prefix, StringAscii) by {
      PrefixEncodable(runs, j);
      ExpandOver(runs[..j]);
      var pushed := if runs[j].count <= LiteralLimit then Copies(runs[j].c, runs[j].count) else "";
      StringDigit(runs[j].c);
      OverConcat(Expand(runs[..j]), pushed);
    }
    AssemblePrintable(g.prefix, Code(g.last), CompressNode(g.rest).value);
  }

  /** The same for the corrected generator. */
  lemma {:induction false} CompressFixedPrintable(runs: seq<Run>)
    requires runs != [] && Payable(runs)
    ensures CompressNodeFixed(runs).Some? && CompressNodeFixed(runs).value.Some?
    ensures Printable(CompressNodeFixed(runs).value.value)
    decreases |runs|
  {
    var g := TakeGroupFixed(runs);
    var j := GroupEnd(runs);
    CompressFixedStep(runs, 0);
    if g.rest != [] {
      CompressFixedPrintable(g.rest);
    }
    assert Over(g.prefix, StringAscii) by {
      PrefixEncodable(runs, j);
      ExpandOver(runs[..j]);
    }
    AssemblePrintable(g.prefix, Code(g.last), CompressNodeFixed(g.rest).value);
  }

  /** A non-empty text over StringAscii gives payable runs. */
  lemma TextPayable(text: string)
    requires text != [] && Over(text, StringAscii)
    ensures RunsOf(text) != [] && Payable(RunsOf(text))
  {
    var runs := RunsOf(text);
    RunsWellFormed(text);
    forall i | 0 <= i < |runs|
      ensures Printing(runs[i].c)
    {
      StringDigit(runs[i].c);
    }
  }

  /** A non-empty text over StringAscii: the generator succeeds and the
      program it builds prints. */
  lemma MainPrintable(text: string)
    ensures text != [] && Over(text, StringAscii) ==>
      CompressNode(RunsOf(text)).Some? && CompressNode(RunsOf(text)).value.Some?
      && Printable(Program(CompressNode(RunsOf(text)).value.value, RepeatChar()))
  {
    if text != [] && Over(text, StringAscii) {
      TextPayable(text);
      CompressPrintable(RunsOf(text));
      CombinatorsPrintable(Base);
    }
  }

  /** The same for the corrected generator and repeat function. */
  lemma MainFixedPrintable(text: string)
    ensures text != [] && Over(text, StringAscii) ==>
      CompressNodeFixed(RunsOf(text)).Some? && CompressNodeFixed(RunsOf(text)).value.Some?
      && Printable(Program(CompressNodeFixed(RunsOf(text)).value.value, RepeatCharFixed()))
  {
    if text != [] && Over(text, StringAscii) {
      TextPayable(text);
      CompressFixedPrintable(RunsOf(text));
      CombinatorsPrintable(Base - 1);
    }
  }

  /** The comparison at the end of main: the plain String node's wire text
      unless the program's is strictly shorter. */
  function Shorter(text: string, program: Node): (r: string)
    requires Over(text, StringAscii) && Printable(program)
    ensures NodeToString(String(text)).Some? && NodeToString(program).Some?
    ensures r == NodeToString(String(text)).value || r == NodeToString(program).value
    ensures |r| <= |NodeToString(String(text)).value| && |r| <= |NodeToString(program).value|
    ensures |NodeToString(String(text)).value| <= |NodeToString(program).value| ==>
      r == NodeToString(String(text)).value
  {
    PrintablePrints(program);
    var full := NodeToString(String(text)).value;
    var compressed := NodeToString(program).value;
    if |full| <= |compressed| then full else compressed
  }

  /** `main` on the trimmed line; None where it panics: the empty line (the
      `expect`), or a character outside StringAscii (the generator's
      `unwrap`, or printing the String node). */
  function Minify(text: string): (r: Option<string>)
    ensures r.None? <==> text == [] || !Over(text, StringAscii)
  {
    MainPrintable(text);
    match CompressNode(RunsOf(text))
    case Some(Some(body)) =>
      if Over(text, StringAscii) then Some(Shorter(text, Program(body, RepeatChar()))) else None
    case _ => None
  }

  /** main with the corrected generator and repeat function. */
  function MinifyFixed(text: string): (r: Option<string>)
    ensures r.None? <==> text == [] || !Over(text, StringAscii)
  {
    MainFixedPrintable(text);
    match CompressNodeFixed(RunsOf(text))
    case Some(Some(body)) =>
      if Over(text, StringAscii) then Some(Shorter(text, Program(body, RepeatCharFixed()))) else None
    case _ => None
  }

  // ---------------------------------------------------------------------
  // Running the printed program in the evaluator of IcfpEvaluator

  /** The outer `$` meets two Lambdas (the second once the combinator has
      unrolled), so it takes one step on the node as written: v0 is bound to
      `y_combinator() $ repeat` unevaluated, as in Bound. */
  lemma ProgramApplies(body: Node, limit: int, f: nat)
    requires f >= 5
    ensures Eval(Program(body, RepeatCharWith(limit)), f) == ChainFrom(Some(Replace(body, Bound(limit))), f - 1)
  {
    var n := Program(body, RepeatCharWith(limit));
    FixUnrolls(limit, f - 1);
    LambdaLambda(n, Lambda(0, body), Unrolled(limit), f);
    ProgramStep(body, limit);
  }

  lemma ProgramStep(body: Node, limit: int)
    ensures ApplyOne(Program(body, RepeatCharWith(limit))) == Some(Replace(body, Bound(limit)))
  {
    assert Bound(limit) == map[0 := Program(body, RepeatCharWith(limit)).right];
  }

  /** A body that is a `.` node comes back from the first pass as it is and
      is evaluated by the second. */
  lemma ProgramRun(body: Node, limit: int, f: nat)
    requires body.BinaryOperator? && body.op == "." && f >= 5
    ensures IcfpEvaluator.Run(Program(body, RepeatCharWith(limit)), f) == Eval(Replace(body, Bound(limit)), f)
  {
    ProgramApplies(body, limit, f);
    assert Replace(body, Bound(limit)).op == ".";
  }

  /** A body that is a bare `v0 $ k` leaves `(y_combinator() $ repeat) $ k`
      after the first step; its left operand is not literally a Lambda, so
      the chain of one-step applications panics. */
  lemma BareProgramPanics(k: int, limit: int, f: nat)
    requires f >= 5
    ensures IcfpEvaluator.Run(Program(Tail(Integer(k), None), RepeatCharWith(limit)), f) == Panic
  {
    var m := BinaryOperator("$", Fix(limit), Integer(k));
    assert Replace(Tail(Integer(k), None), Bound(limit)) == m by {
      assert Replace(Variable(0), Bound(limit)) == Fix(limit);
    }
    ProgramApplies(Tail(Integer(k), None), limit, f);
    assert ApplyOne(m) == None;
    assert Chain(m, f - 2) == Panic;
  }

  /** The as-written body is a `.` node except for a text that is one run
      longer than LiteralLimit, which leaves the bare `v0 $ k`. */
  lemma CompressConcat(runs: seq<Run>)
    requires runs != [] && Payable(runs)
    ensures CompressNode(runs).Some? && CompressNode(runs).value.Some?
    ensures var body := CompressNode(runs).value.value;
      if |runs| == 1 && runs[0].count > LiteralLimit then body == Tail(Integer(Code(runs[0])), None)
      else body.BinaryOperator? && body.op == "."
  {
    var g := TakeGroup(runs);
    var j := GroupEnd(runs);
    CompressStep(runs, 0);
    if j > 0 {
      assert runs[..j][0] == runs[0];
      assert |Expand(runs[..j])| >= runs[0].count;
    } else if runs[0].count <= LiteralLimit {
      assert |g.prefix| >= runs[0].count;
    } else if |runs| == 1 {
      assert g.prefix == "" && g.rest == [];
    } else {
      assert g.rest != [];
    }
  }

  /** The corrected body is a `.` node whenever the text has two runs or
      more. */
  lemma CompressFixedConcat(runs: seq<Run>)
    requires |runs| >= 2 && Payable(runs)
    ensures CompressNodeFixed(runs).Some? && CompressNodeFixed(runs).value.Some?
    ensures CompressNodeFixed(runs).value.value.BinaryOperator? && CompressNodeFixed(runs).value.value.op == "."
  {
    var g := TakeGroupFixed(runs);
    var j := GroupEnd(runs);
    CompressFixedStep(runs, 0);
    if j > 0 {
      assert runs[..j][0] == runs[0];
      assert |Expand(runs[..j])| >= runs[0].count;
    } else {
      assert g.rest != [];
    }
  }

  /** The program main prints, run in the evaluator: the as-written node
      with `repeat_char`'s bound of 94. */
  lemma MinifyProgramPrints(text: string, f: nat)
    requires text != [] && Over(text, StringAscii)
    requires !(|RunsOf(text)| == 1 && RunsOf(text)[0].count > LiteralLimit)
    requires f >= 5 && f >= Budget(RunsOf(text), Base)
    ensures CompressNode(RunsOf(text)).Some? && CompressNode(RunsOf(text)).value.Some?
    ensures IcfpEvaluator.Run(Program(CompressNode(RunsOf(text)).value.value, RepeatChar()), f)
         == Value(String(Printed(RunsOf(text), Base)))
  {
    var runs := RunsOf(text);
    TextPayable(text);
    CompressConcat(runs);
    CompressMeaning(runs, Base, f);
    ProgramRun(CompressNode(runs).value.value, Base, f);
  }

  /** A text that is one run longer than LiteralLimit: the program main
      builds for it panics in the evaluator. */
  lemma LongRunPanics(text: string, f: nat)
    requires text != [] && Over(text, StringAscii)
    requires |RunsOf(text)| == 1 && RunsOf(text)[0].count > LiteralLimit
    requires f >= 5
    ensures CompressNode(RunsOf(text)).Some? && CompressNode(RunsOf(text)).value.Some?
    ensures IcfpEvaluator.Run(Program(CompressNode(RunsOf(text)).value.value, RepeatChar()), f) == Panic
  {
    var runs := RunsOf(text);
    TextPayable(text);
    CompressConcat(runs);
    BareProgramPanics(Code(runs[0]), Base, f);
  }

  /** The corrected main's program prints exactly the text whenever the text
      has two runs or more. */
  lemma MinifyFixedPrintsText(text: string, f: nat)
    requires Over(text, StringAscii) && |RunsOf(text)| >= 2
    requires f >= 5 && f >= Budget(RunsOf(text), Base - 1)
    ensures CompressNodeFixed(RunsOf(text)).Some? && CompressNodeFixed(RunsOf(text)).value.Some?
    ensures IcfpEvaluator.Run(Program(CompressNodeFixed(RunsOf(text)).value.value, RepeatCharFixed()), f)
         == Value(String(text))
  {
    var runs := RunsOf(text);
    TextPayable(text);
    CompressFixedConcat(runs);
    CompressFixedMeaning(runs, Base - 1, f);
    assert Encodable(runs);
    PrintedFixedExpands(runs);
    RunsExpand(text);
    ProgramRun(CompressNodeFixed(runs).value.value, Base - 1, f);
  }

  /** "ab" through main's program: "abb". */
  lemma DuplicatedProgramExample(text: string)
    requires text == "ab"
    ensures CompressNode(RunsOf(text)).Some? && CompressNode(RunsOf(text)).value.Some?
    ensures IcfpEvaluator.Run(Program(CompressNode(RunsOf(text)).value.value, RepeatChar()), 19)
         == Value(String(text + [text[1]]))
  {
    DuplicatedRunExample(text);
    var runs := [Run('a', 1), Run('b', 1)];
    assert Over(text, StringAscii) by {
      StringDigit('a');
      StringDigit('b');
    }
    assert Budget(runs, Base) == 19 by {
      assert GroupEnd(runs) == 1 && StringIndex('b') == 1;
      assert Need(Base, 95) == 12;
    }
    MinifyProgramPrints(text, 19);
  }
}
