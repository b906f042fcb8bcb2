/** The first draft of the lexer (src/tokenizer.rs): splits text on spaces
    and decides each token by its first character, like the ICFP lexer, but
    keeps payloads as raw text and knows only five token kinds. */
module DraftTokenizer {
  import opened Wrappers
  import I = IcfpTokenizer

  datatype Token =
    | Integer(raw: string)
    | Boolean(b: bool)
    | String(raw: string)
    | UnaryOperator(raw: string)
    | Unknown(raw: string)

  /** `Token::to_string`: the payload alone, without an indicator; a
      boolean prints as "true" or "false". */
  function TokenToString(t: Token): (r: string)
    ensures t.Boolean? ==> (r == "true" <==> t.b) && (r == "false" <==> !t.b)
    ensures !t.Boolean? ==> r == t.raw
  {
    match t
    case Boolean(b) => if b then "true" else "false"
    case _ => t.raw
  }

  /** s with every occurrence of c removed. */
  function Without(s: string, c: char): (r: string)
    ensures |r| <= |s|
    ensures forall i :: 0 <= i < |r| ==> r[i] != c
  {
    if s == [] then []
    else Without(s[..|s| - 1], c) + (if s[|s| - 1] == c then [] else [s[|s| - 1]])
  }

  /** The letter whose occurrences a run of this kind drops. */
  predicate Indicator(c: char)
  {
    c == 'I' || c == 'S' || c == 'U'
  }

  /** One token read from the front of s, with the number of characters it
      consumes: the whole run up to the next space. */
  function ScanToken(s: string): (r: (Token, nat))
    requires s != [] && s[0] != ' '
    ensures 0 < r.1 <= |s|
  {
    var c := s[0];
    var e := I.RunEnd(s, 1);
    var run := s[..e];
    var t :=
      if c == 'I' then Integer(Without(run, 'I'))
      else if I.IsFlag(c) then Boolean(I.BoolFlags(run) == "T")
      else if c == 'S' then String(Without(run, 'S'))
      else if c == 'U' then UnaryOperator(Without(run, 'U'))
      else Unknown(run);
    (t, e)
  }

  /** `tokenize` as a function: spaces are skipped, every other character
      starts a token. */
  function Lex(s: string): seq<Token>
    decreases |s|
  {
    if s == [] then []
    else if s[0] == ' ' then Lex(s[1..])
    else
      var (t, e) := ScanToken(s);
      [t] + Lex(s[e..])
  }

  // ---------------------------------------------------------------------
  // The tokenizer object: the input characters and a read position

  class Tokenizer {
    const input: string
    var pos: nat

    constructor (input: string)
      ensures this.input == input && pos == 0
    {
      this.input := input;
      pos := 0;
    }

    /** `tokenize`: consumes the rest of the input. */
    method Tokenize() returns (tokens: seq<Token>)
      requires pos <= |input|
      modifies this
      ensures pos == |input|
      ensures tokens == Lex(input[old(pos)..])
    {
      tokens := [];
      ghost var whole := Lex(input[pos..]);
      while pos < |input|
        invariant old(pos) <= pos <= |input|
        invariant whole == tokens + Lex(input[pos..])
        decreases |input| - pos
      {
        if input[pos] == ' ' {
          LexSkip(input, pos);
          pos := pos + 1;
        } else {
          ghost var start := pos;
          var t := NextToken();
          LexAdvance(input, start, pos, t, tokens);
          tokens := tokens + [t];
        }
      }
      assert input[pos..] == [];
    }

    /** The dispatch on the first character inside `tokenize`. */
    method NextToken() returns (t: Token)
      requires pos < |input| && input[pos] != ' '
      modifies this
      ensures old(pos) < pos <= |input|
      ensures ScanToken(input[old(pos)..]) == (t, pos - old(pos))
    {
      var c := input[pos];
      if c == 'I' {
        t := TokenizeInteger();
      } else if c == 'T' || c == 'F' {
        t := TokenizeBoolean();
      } else if c == 'S' {
        t := TokenizeString();
      } else if c == 'U' {
        t := TokenizeUnaryOperator();
      } else {
        t := TokenizeUnknown();
      }
    }

    /** The loop the integer, string and operator readers share: reads up to
        the next space, dropping every occurrence of the letter c. */
    method ReadWithout(c: char) returns (value: string)
      requires pos < |input| && input[pos] != ' '
      modifies this
      ensures pos == I.RunEnd(input, old(pos) + 1)
      ensures value == Without(input[old(pos)..pos], c)
    {
      value := [];
      ghost var p := pos;
      assert I.RunEnd(input, p) == I.RunEnd(input, p + 1);
      while pos < |input| && input[pos] != ' '
        invariant p <= pos <= |input|
        invariant I.RunEnd(input, p) == I.RunEnd(input, pos)
        invariant value == Without(input[p..pos], c)
        decreases |input| - pos
      {
        assert input[p..pos + 1][..pos - p] == input[p..pos];
        if input[pos] != c {
          value := value + [input[pos]];
        }
        pos := pos + 1;
      }
    }

    method TokenizeInteger() returns (t: Token)
      requires pos < |input| && input[pos] == 'I'
      modifies this
      ensures old(pos) < pos <= |input|
      ensures ScanToken(input[old(pos)..]) == (t, pos - old(pos))
    {
      var value := ReadWithout('I');
      I.ScanShape(input, old(pos));
      t := Integer(value);
    }

    method TokenizeBoolean() returns (t: Token)
      requires pos < |input| && I.IsFlag(input[pos])
      modifies this
      ensures old(pos) < pos <= |input|
      ensures ScanToken(input[old(pos)..]) == (t, pos - old(pos))
    {
      var value: string := [];
      while pos < |input| && input[pos] != ' '
        invariant old(pos) <= pos <= |input|
        invariant I.RunEnd(input, old(pos)) == I.RunEnd(input, pos)
        invariant value == I.BoolFlags(input[old(pos)..pos])
        decreases |input| - pos
      {
        var c := input[pos];
        I.BoolFlagsStep(input, old(pos), pos);
        if c == 'T' || c == 'F' {
          value := value + [c];
        }
        pos := pos + 1;
      }
      I.ScanShape(input, old(pos));
      t := Boolean(value == "T");
    }

    method TokenizeString() returns (t: Token)
      requires pos < |input| && input[pos] == 'S'
      modifies this
      ensures old(pos) < pos <= |input|
      ensures ScanToken(input[old(pos)..]) == (t, pos - old(pos))
    {
      var value := ReadWithout('S');
      I.ScanShape(input, old(pos));
      t := String(value);
    }

    method TokenizeUnaryOperator() returns (t: Token)
      requires pos < |input| && input[pos] == 'U'
      modifies this
      ensures old(pos) < pos <= |input|
      ensures ScanToken(input[old(pos)..]) == (t, pos - old(pos))
    {
      var value := ReadWithout('U');
      I.ScanShape(input, old(pos));
      t := UnaryOperator(value);
    }

    method TokenizeUnknown() returns (t: Token)
      requires pos < |input| && input[pos] != ' '
      requires !Indicator(input[pos]) && !I.IsFlag(input[pos])
      modifies this
      ensures old(pos) < pos <= |input|
      ensures ScanToken(input[old(pos)..]) == (t, pos - old(pos))
    {
      var value: string := [];
      while pos < |input| && input[pos] != ' '
        invariant old(pos) <= pos <= |input|
        invariant I.RunEnd(input, old(pos)) == I.RunEnd(input, pos)
        invariant value == input[old(pos)..pos]
        decreases |input| - pos
      {
        value := value + [input[pos]];
        pos := pos + 1;
      }
      I.RunEndShift(input, old(pos), 0);
      I.ScanShape(input, old(pos));
      t := Unknown(value);
    }
  }

  /** A space at p is skipped. */
  lemma LexSkip(s: string, p: nat)
    requires p < |s| && s[p] == ' '
    ensures Lex(s[p..]) == Lex(s[p + 1..])
  {
    assert s[p..][1..] == s[p + 1..];
  }

  /** A token read from p to q is followed by what is read from q. */
  lemma LexAdvance(s: string, p: nat, q: nat, t: Token, tokens: seq<Token>)
    requires p < q <= |s| && s[p] != ' '
    requires ScanToken(s[p..]) == (t, q - p)
    ensures tokens + Lex(s[p..]) == (tokens + [t]) + Lex(s[q..])
  {
    assert s[p..][q - p..] == s[q..];
  }

  // ---------------------------------------------------------------------
  // Properties

  /** Dropping c keeps every other character and removes every c. */
  lemma {:induction false} WithoutCount(s: string, c: char)
    ensures multiset(Without(s, c)) == multiset(s)[c := 0]
  {
    if s != [] {
      var p, d := s[..|s| - 1], s[|s| - 1];
      WithoutCount(p, c);
      assert s == p + [d];
    }
  }

  lemma {:induction false} WithoutConcat(a: string, b: string, c: char)
    ensures Without(a + b, c) == Without(a, c) + Without(b, c)
    decreases |b|
  {
    if b != [] {
      var p := b[..|b| - 1];
      assert (a + b)[..|a + b| - 1] == a + p;
      WithoutConcat(a, p, c);
    } else {
      assert a + b == a;
    }
  }

  /** A text without c is its own result. */
  lemma {:induction false} WithoutAbsent(s: string, c: char)
    requires forall i :: 0 <= i < |s| ==> s[i] != c
    ensures Without(s, c) == s
  {
    if s != [] {
      WithoutAbsent(s[..|s| - 1], c);
    }
  }

  /** An integer, string or operator run keeps its payload raw: the run with
      every occurrence of its indicator dropped, the first one and any later
      one alike; a payload without a later indicator is the rest of the run. */
  lemma ScanPayload(s: string)
    requires s != [] && Indicator(s[0])
    ensures ScanToken(s).0.Integer? <==> s[0] == 'I'
    ensures ScanToken(s).0.String? <==> s[0] == 'S'
    ensures ScanToken(s).0.UnaryOperator? <==> s[0] == 'U'
    ensures ScanToken(s).0.raw == Without(s[..I.RunEnd(s, 1)], s[0])
    ensures multiset(ScanToken(s).0.raw) == multiset(s[..I.RunEnd(s, 1)])[s[0] := 0]
    ensures (forall i :: 1 <= i < I.RunEnd(s, 1) ==> s[i] != s[0]) ==>
      ScanToken(s).0.raw == s[1..I.RunEnd(s, 1)]
  {
    var e := I.RunEnd(s, 1);
    WithoutCount(s[..e], s[0]);
    if forall i :: 1 <= i < e ==> s[i] != s[0] {
      RawPayload(s[..e], s[0]);
      assert s[..e][1..] == s[1..e];
    }
  }

  /** A run whose indicator occurs only in front keeps the rest as it is. */
  lemma RawPayload(run: string, c: char)
    requires run != [] && run[0] == c
    requires forall i :: 1 <= i < |run| ==> run[i] != c
    ensures Without(run, c) == run[1..]
  {
    assert run == [c] + run[1..];
    WithoutConcat([c], run[1..], c);
    assert [c] == [] + [c] && Without([c], c) == Without([], c);
    WithoutAbsent(run[1..], c);
  }

  /** The boolean rule is the ICFP lexer's: a run starting with T or F is
      true exactly when the T and F characters it holds spell "T". */
  lemma BooleanAgrees(s: string)
    requires s != [] && I.IsFlag(s[0])
    ensures var (t, e) := ScanToken(s);
      t == Boolean(I.BoolFlags(s[..e]) == "T") &&
      I.ScanToken(s) == Some((I.Boolean(t.b), e))
  {
  }

  /** Any other first character gives an Unknown token holding the whole
      run, including `B`, `L`, `v` and `?`, which the ICFP lexer reads as
      tokens of their own. */
  lemma OthersUnknown(s: string)
    requires s != [] && s[0] != ' ' && !Indicator(s[0]) && !I.IsFlag(s[0])
    ensures ScanToken(s) == (Unknown(s[..I.RunEnd(s, 1)]), I.RunEnd(s, 1))
    ensures (s[0] == 'B' || s[0] == 'L' || s[0] == 'v' || s[0] == '?') && I.ScanToken(s).Some? ==>
      !I.ScanToken(s).value.0.Unknown?
  {
  }

  /** Spaces never produce a token: a text gives no token exactly when it
      is all spaces. */
  lemma {:induction false} LexNone(s: string)
    ensures Lex(s) == [] <==> forall i :: 0 <= i < |s| ==> s[i] == ' '
    decreases |s|
  {
    if s != [] && s[0] == ' ' {
      LexNone(s[1..]);
      assert forall i :: 1 <= i < |s| ==> s[i] == s[1..][i - 1];
    }
  }

  /** A token is read from its own characters only: whatever follows a
      space-free word after a space does not change how the word is read. */
  lemma ScanWord(w: string, r: string)
    requires w != [] && I.NoSpace(w)
    requires r == [] || r[0] == ' '
    ensures (w + r)[0] != ' '
    ensures ScanToken(w + r) == ScanToken(w)
  {
    var s := w + r;
    I.RunEndAt(s, 1, |w|);
    I.RunEndAt(w, 1, |w|);
    assert s[..|w|] == w[..|w|];
  }

  /** The token of each word, in order. */
  function ScanWords(ws: seq<string>): (r: seq<Token>)
    requires forall k :: 0 <= k < |ws| ==> |ws[k]| > 0 && I.NoSpace(ws[k])
    ensures |r| == |ws|
  {
    if ws == [] then []
    else
      assert I.NoSpace(ws[0]);
      assert 0 < |ws[0]|;
      [ScanToken(ws[0]).0] + ScanWords(ws[1..])
  }

  /** Tokenizing non-empty space-free words joined by single spaces reads
      one token per word. */
  lemma {:induction false} LexWords(ws: seq<string>)
    requires forall k :: 0 <= k < |ws| ==> |ws[k]| > 0 && I.NoSpace(ws[k])
    ensures Lex(I.JoinWords(ws)) == ScanWords(ws)
  {
    if |ws| == 1 {
      var w := ws[0];
      ScanWord(w, []);
      assert w + [] == w;
      I.RunEndAt(w, 1, |w|);
      assert w[|w|..] == [];
    } else if |ws| > 1 {
      var w := ws[0];
      var rest := I.JoinWords(ws[1..]);
      var s := w + (" " + rest);
      assert I.JoinWords(ws) == s;
      ScanWord(w, " " + rest);
      I.RunEndAt(w, 1, |w|);
      LexWords(ws[1..]);
      assert s[|w|..] == " " + rest;
      assert (" " + rest)[1..] == rest;
    }
  }

  /** The letter whose tokens carry a raw payload. */
  function KindLetter(t: Token): char
    requires t.Integer? || t.String? || t.UnaryOperator?
  {
    if t.Integer? then 'I' else if t.String? then 'S' else 'U'
  }

  /** `to_string` prints the payload without its indicator; putting the
      indicator back in front reads the same token again, as long as the
      payload has no space and no indicator letter of its own kind. */
  lemma PrintRoundTrip(t: Token)
    requires t.Integer? || t.String? || t.UnaryOperator?
    requires I.NoSpace(t.raw) && forall i :: 0 <= i < |t.raw| ==> t.raw[i] != KindLetter(t)
    ensures TokenToString(t) == t.raw
    ensures Lex([KindLetter(t)] + TokenToString(t)) == [t]
  {
    var w := [KindLetter(t)] + t.raw;
    PayloadToken(KindLetter(t), t.raw);
    LexWords([w]);
    assert I.JoinWords([w]) == w;
  }

  /** A run of one indicator followed by a payload without space or
      indicator reads as the token of that payload. */
  lemma PayloadToken(c: char, payload: string)
    requires Indicator(c) && I.NoSpace(payload)
    requires forall i :: 0 <= i < |payload| ==> payload[i] != c
    ensures I.NoSpace([c] + payload)
    ensures ScanToken([c] + payload).0 ==
      if c == 'I' then Integer(payload) else if c == 'S' then String(payload) else UnaryOperator(payload)
  {
    var w := [c] + payload;
    I.RunEndAt(w, 1, |w|);
    ScanPayload(w);
    assert w[1..|w|] == payload;
  }

  // Worked examples

  lemma LexIntegerExample(s: string)
    requires s == "I/6 + I5"
    ensures Lex(s) == [Integer("/6"), Unknown("+"), Integer("5")]
  {
    var a, b, c := "I/6", "+", "I5";
    IntegerTestWords(a, b, c);
    LexThree(a, b, c);
  }

  lemma IntegerTestWords(a: string, b: string, c: string)
    requires a == "I/6" && b == "+" && c == "I5"
    ensures |a| > 0 && |b| > 0 && |c| > 0 && I.NoSpace(a) && I.NoSpace(b) && I.NoSpace(c)
    ensures a + " " + b + " " + c == "I/6 + I5"
    ensures ScanToken(a).0 == Integer("/6") && ScanToken(b).0 == Unknown("+") && ScanToken(c).0 == Integer("5")
  {
    IntegerWord(a, "/6");
    IntegerWord(c, "5");
    SymbolToken('+');
    assert [b[0]] == b;
  }

  lemma IntegerWord(w: string, payload: string)
    requires w == ['I'] + payload && I.NoSpace(payload)
    requires forall i :: 0 <= i < |payload| ==> payload[i] != 'I'
    ensures |w| > 0 && I.NoSpace(w) && ScanToken(w).0 == Integer(payload)
  {
    PayloadToken('I', payload);
  }

  /** Three words joined by single spaces read as their three tokens. */
  lemma LexThree(a: string, b: string, c: string)
    requires |a| > 0 && |b| > 0 && |c| > 0 && I.NoSpace(a) && I.NoSpace(b) && I.NoSpace(c)
    ensures Lex(a + " " + b + " " + c) == [ScanToken(a).0, ScanToken(b).0, ScanToken(c).0]
  {
    var ws := [a, b, c];
    LexWords(ws);
    JoinThree(ws);
    ScanThree(ws);
  }

  lemma JoinThree(ws: seq<string>)
    requires |ws| == 3
    ensures I.JoinWords(ws) == ws[0] + " " + ws[1] + " " + ws[2]
  {
    assert ws[1..][1..] == [ws[2]];
    assert I.JoinWords(ws[1..]) == ws[1] + " " + ws[2];
  }

  lemma ScanThree(ws: seq<string>)
    requires |ws| == 3 && forall k :: 0 <= k < |ws| ==> |ws[k]| > 0 && I.NoSpace(ws[k])
    ensures ScanWords(ws) == [ScanToken(ws[0]).0, ScanToken(ws[1]).0, ScanToken(ws[2]).0]
  {
    assert ws[1..][1..] == [ws[2]];
    assert ScanWords(ws[1..]) == [ScanToken(ws[1]).0, ScanToken(ws[2]).0];
  }

  /** Four words joined by single spaces read as their four tokens. */
  lemma LexFour(a: string, b: string, c: string, d: string)
    requires |a| > 0 && |b| > 0 && |c| > 0 && |d| > 0
    requires I.NoSpace(a) && I.NoSpace(b) && I.NoSpace(c) && I.NoSpace(d)
    ensures Lex(a + " " + b + " " + c + " " + d) ==
      [ScanToken(a).0, ScanToken(b).0, ScanToken(c).0, ScanToken(d).0]
  {
    var ws := [a, b, c, d];
    LexWords(ws);
    JoinFour(ws);
    ScanFour(ws);
  }

  lemma JoinFour(ws: seq<string>)
    requires |ws| == 4
    ensures I.JoinWords(ws) == ws[0] + " " + ws[1] + " " + ws[2] + " " + ws[3]
  {
    JoinThree(ws[1..]);
    assert I.JoinWords(ws) == ws[0] + " " + (ws[1] + " " + ws[2] + " " + ws[3]);
  }

  lemma ScanFour(ws: seq<string>)
    requires |ws| == 4 && forall k :: 0 <= k < |ws| ==> |ws[k]| > 0 && I.NoSpace(ws[k])
    ensures ScanWords(ws) == [ScanToken(ws[0]).0, ScanToken(ws[1]).0, ScanToken(ws[2]).0, ScanToken(ws[3]).0]
  {
    ScanThree(ws[1..]);
  }

  lemma LexBooleanExample(s: string)
    requires s == "T F T F"
    ensures Lex(s) == [Boolean(true), Boolean(false), Boolean(true), Boolean(false)]
  {
    var t, f := "T", "F";
    BooleanTestWords(t, f);
    LexFour(t, f, t, f);
  }

  lemma BooleanTestWords(t: string, f: string)
    requires t == "T" && f == "F"
    ensures |t| > 0 && |f| > 0 && I.NoSpace(t) && I.NoSpace(f)
    ensures t + " " + f + " " + t + " " + f == "T F T F"
    ensures ScanToken(t).0 == Boolean(true) && ScanToken(f).0 == Boolean(false)
  {
    FlagToken('T');
    FlagToken('F');
    assert [t[0]] == t && [f[0]] == f;
  }

  lemma SymbolToken(c: char)
    requires c != ' ' && !Indicator(c) && !I.IsFlag(c)
    ensures ScanToken([c]).0 == Unknown([c])
  {
    assert I.RunEnd([c], 1) == 1;
    assert [c][..1] == [c];
  }

  lemma FlagToken(c: char)
    requires I.IsFlag(c)
    ensures ScanToken([c]).0 == Boolean(c == 'T')
  {
    var w := [c];
    assert I.RunEnd(w, 1) == 1;
    assert w[..1] == w;
    assert I.BoolFlags(w) == w by {
      assert w[..0] == [];
    }
  }

  lemma LexStringExample(s: string)
    requires s == "SB%,,/}Q/2,$_"
    ensures Lex(s) == [String("B%,,/}Q/2,$_")]
  {
    var t := String("B%,,/}Q/2,$_");
    PrintRoundTrip(t);
    assert [KindLetter(t)] + TokenToString(t) == "SB%,,/}Q/2,$_";
  }

  lemma LexOperatorExample(s: string)
    requires s == "U+ U- U* U/"
    ensures Lex(s) ==
      [UnaryOperator("+"), UnaryOperator("-"), UnaryOperator("*"), UnaryOperator("/")]
  {
    var a, b, c, d := "U+", "U-", "U*", "U/";
    OperatorTestWords(a, b, c, d);
    LexFour(a, b, c, d);
  }

  lemma OperatorTestWords(a: string, b: string, c: string, d: string)
    requires a == "U+" && b == "U-" && c == "U*" && d == "U/"
    ensures |a| > 0 && |b| > 0 && |c| > 0 && |d| > 0
    ensures I.NoSpace(a) && I.NoSpace(b) && I.NoSpace(c) && I.NoSpace(d)
    ensures a + " " + b + " " + c + " " + d == "U+ U- U* U/"
    ensures ScanToken(a).0 == UnaryOperator("+") && ScanToken(b).0 == UnaryOperator("-")
    ensures ScanToken(c).0 == UnaryOperator("*") && ScanToken(d).0 == UnaryOperator("/")
  {
    OperatorToken('+');
    OperatorToken('-');
    OperatorToken('*');
    OperatorToken('/');
    assert a == ['U', '+'] && b == ['U', '-'] && c == ['U', '*'] && d == ['U', '/'];
  }

  lemma OperatorToken(op: char)
    requires op != ' ' && op != 'U'
    ensures ScanToken(['U', op]).0 == UnaryOperator([op])
  {
    PayloadToken('U', [op]);
    assert ['U'] + [op] == ['U', op];
  }
}
