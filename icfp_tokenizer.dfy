/** The ICFP lexer (src/icfp/tokenizer.rs): splits wire text on spaces and
    decides each token by its first (indicator) character. */
module IcfpTokenizer {
  import opened Wrappers
  import opened IcfpUtil

  datatype Token =
    | Integer(n: nat)
    | Boolean(b: bool)
    | String(text: string)
    | UnaryOperator(op: string)
    | BinaryOperator(op: string)
    | If
    | Lambda(id: nat)
    | Variable(id: nat)
    | Unknown(raw: string)

  predicate NoSpace(s: string)
  {
    forall i :: 0 <= i < |s| ==> s[i] != ' '
  }

  /** `Token::to_string` is defined (its `deconvert_string` does not panic). */
  predicate Printable(t: Token)
  {
    t.String? ==> Over(t.text, StringAscii)
  }

  /** The text `Token::to_string` gives where it does not panic: the
      indicator character followed by the encoded payload. An Unknown token
      prints with the unary indicator `U`. */
  function TokenText(t: Token): string
    requires Printable(t)
  {
    match t
    case Integer(n) => "I" + EncodeInteger(n)
    case Boolean(b) => if b then "T" else "F"
    case String(text) => "S" + WireOf(text)
    case UnaryOperator(op) => "U" + op
    case BinaryOperator(op) => "B" + op
    case If => "?"
    case Lambda(id) => "L" + EncodeInteger(id)
    case Variable(id) => "v" + EncodeInteger(id)
    case Unknown(raw) => "U" + raw
  }

  /** `Token::to_string`; None where `deconvert_string` panics on a String
      token holding a character outside the text alphabet. A token whose
      names hold no space prints as one word that tokenizes back to it. */
  function TokenToString(t: Token): (r: Option<string>)
    ensures r.Some? <==> Printable(t)
    ensures r.Some? && SpaceFreeNames(t) ==>
      r.value != [] && NoSpace(r.value) && Lex(r.value) == Some([Reread(t)])
  {
    if !Printable(t) then None
    else if SpaceFreeNames(t) then
      PrintedSpaceFree(t);
      TokenRoundTrip(t);
      Some(TokenText(t))
    else Some(TokenText(t))
  }

  // ---------------------------------------------------------------------
  // Specification of the lexer, on the unread suffix of the input

  /** Index of the first space at or after k, or the end of s: where a run
      of non-space characters starting at k stops. */
  function RunEnd(s: string, k: nat): (e: nat)
    requires k <= |s|
    ensures k <= e <= |s|
    decreases |s| - k
  {
    if k == |s| || s[k] == ' ' then k else RunEnd(s, k + 1)
  }

  predicate IsFlag(c: char) { c == 'T' || c == 'F' }

  /** The `T` and `F` characters of s, in order. */
  function BoolFlags(s: string): (r: string)
    ensures |r| <= |s|
  {
    if s == [] then []
    else BoolFlags(s[..|s| - 1]) + (if IsFlag(s[|s| - 1]) then [s[|s| - 1]] else [])
  }

  /** One token read from the front of s, with the number of characters it
      consumes; `None` when decoding its payload panics. */
  function ScanToken(s: string): (r: Option<(Token, nat)>)
    requires s != [] && s[0] != ' '
    ensures r.Some? ==> 0 < r.value.1 <= |s|
  {
    var c := s[0];
    if c == '?' then Some((If, 1))
    else
      var e := RunEnd(s, 1);
      var body := s[1..e];
      if c == 'I' then
        match DecodeInteger(body)
        case None => None
        case Some(n) => Some((Integer(n), e))
      else if c == 'T' || c == 'F' then Some((Boolean(BoolFlags(s[..e]) == "T"), e))
      else if c == 'S' then
        match DecodeText(body)
        case None => None
        case Some(text) => Some((String(text), e))
      else if c == 'U' then Some((UnaryOperator(body), e))
      else if c == 'B' then Some((BinaryOperator(body), e))
      else if c == 'L' then
        match DecodeInteger(body)
        case None => None
        case Some(n) => Some((Lambda(n), e))
      else if c == 'v' then
        match DecodeInteger(body)
        case None => None
        case Some(n) => Some((Variable(n), e))
      else Some((Unknown(s[..e]), e))
  }

  function Prepend(acc: seq<Token>, rest: Option<seq<Token>>): Option<seq<Token>>
  {
    match rest
    case None => None
    case Some(ts) => Some(acc + ts)
  }

  /** `tokenize` as a function: spaces are skipped, every other character
      starts a token; `None` when some token panics. */
  function Lex(s: string): Option<seq<Token>>
    decreases |s|
  {
    if s == [] then Some([])
    else if s[0] == ' ' then Lex(s[1..])
    else
      match ScanToken(s)
      case None => None
      case Some((t, e)) => Prepend([t], Lex(s[e..]))
  }

  /** An indicator character with no token kind of its own. */
  predicate Unclassified(c: char)
  {
    c != 'I' && c != 'T' && c != 'F' && c != 'S' && c != 'U' && c != 'B' && c != '?' && c != 'L' && c != 'v' && c != ' '
  }

  // ---------------------------------------------------------------------
  // The tokenizer object: the input characters and a read position

  class Tokenizer {
    const input: string
    var pos: nat

    constructor (input: string)
      ensures this.input == input && pos == 0
    {
      this.input := input;
      pos := 0;
    }

    /** `tokenize`: consumes the rest of the input. */
    method Tokenize() returns (tokens: Option<seq<Token>>)
      requires pos <= |input|
      modifies this
      ensures tokens == Lex(input[old(pos)..])
    {
      var acc: seq<Token> := [];
      assert Lex(input[pos..]) == Prepend(acc, Lex(input[pos..])) by {
        if Lex(input[pos..]).Some? {
          assert acc + Lex(input[pos..]).value == Lex(input[pos..]).value;
        }
      }
      while pos < |input|
        invariant old(pos) <= pos <= |input|
        invariant Lex(input[old(pos)..]) == Prepend(acc, Lex(input[pos..]))
        decreases |input| - pos
      {
        var c := input[pos];
        if c == ' ' {
          LexSkip(input, pos);
          pos := pos + 1;
        } else {
          ghost var start := pos;
          var t := NextToken();
          if t.None? {
            return None;
          }
          LexAdvance(input, start, pos, t.value);
          PrependAssoc(acc, t.value, Lex(input[pos..]));
          acc := acc + [t.value];
        }
      }
      assert input[pos..] == [] && acc + [] == acc;
      return Some(acc);
    }

    /** The dispatch on the indicator character inside `tokenize`. */
    method NextToken() returns (t: Option<Token>)
      requires pos < |input| && input[pos] != ' '
      modifies this
      ensures t.None? ==> ScanToken(input[old(pos)..]).None?
      ensures t.Some? ==> old(pos) < pos <= |input| && ScanToken(input[old(pos)..]) == Some((t.value, pos - old(pos)))
    {
      var c := input[pos];
      if c == 'I' {
        t := TokenizeInteger();
      } else if c == 'T' || c == 'F' {
        t := TokenizeBoolean();
      } else if c == 'S' {
        t := TokenizeString();
      } else if c == 'U' {
        t := TokenizeUnaryOperator();
      } else if c == 'B' {
        t := TokenizeBinaryOperator();
      } else if c == '?' {
        t := TokenizeIf();
      } else if c == 'L' {
        t := TokenizeLambda();
      } else if c == 'v' {
        t := TokenizeVariable();
      } else {
        t := TokenizeUnknown();
      }
    }

    /** Reads the run of non-space characters at the read position. */
    method ReadRun() returns (value: string)
      requires pos <= |input|
      modifies this
      ensures pos == RunEnd(input, old(pos))
      ensures value == input[old(pos)..pos]
    {
      value := [];
      while pos < |input| && input[pos] != ' '
        invariant old(pos) <= pos <= |input|
        invariant RunEnd(input, old(pos)) == RunEnd(input, pos)
        invariant value == input[old(pos)..pos]
        decreases |input| - pos
      {
        value := value + [input[pos]];
        pos := pos + 1;
      }
    }

    method TokenizeInteger() returns (t: Option<Token>)
      requires pos < |input| && input[pos] == 'I'
      modifies this
      ensures t.None? ==> ScanToken(input[old(pos)..]).None?
      ensures t.Some? ==> old(pos) < pos <= |input| && ScanToken(input[old(pos)..]) == Some((t.value, pos - old(pos)))
    {
      pos := pos + 1;
      var value := ReadRun();
      var n := ConvertInteger(value);
      ScanShape(input, old(pos));
      t := if n.Some? then Some(Integer(n.value)) else None;
    }

    method TokenizeBoolean() returns (t: Option<Token>)
      requires pos < |input| && IsFlag(input[pos])
      modifies this
      ensures t.Some? && old(pos) < pos <= |input|
      ensures ScanToken(input[old(pos)..]) == Some((t.value, pos - old(pos)))
    {
      var start := pos;
      var value: string := [];
      while pos < |input| && input[pos] != ' '
        invariant start <= pos <= |input|
        invariant RunEnd(input, start) == RunEnd(input, pos)
        invariant value == BoolFlags(input[start..pos])
        decreases |input| - pos
      {
        var c := input[pos];
        BoolFlagsStep(input, start, pos);
        if c == 'T' || c == 'F' {
          value := value + [c];
        }
        pos := pos + 1;
      }
      BooleanScanned(input, start, pos);
      t := Some(Boolean(value == "T"));
    }

    method TokenizeString() returns (t: Option<Token>)
      requires pos < |input| && input[pos] == 'S'
      modifies this
      ensures t.None? ==> ScanToken(input[old(pos)..]).None?
      ensures t.Some? ==> old(pos) < pos <= |input| && ScanToken(input[old(pos)..]) == Some((t.value, pos - old(pos)))
    {
      pos := pos + 1;
      var value := ReadRun();
      var text := ConvertString(value);
      ScanShape(input, old(pos));
      t := if text.Some? then Some(String(text.value)) else None;
    }

    method TokenizeUnaryOperator() returns (t: Option<Token>)
      requires pos < |input| && input[pos] == 'U'
      modifies this
      ensures t.Some? && old(pos) < pos <= |input|
      ensures ScanToken(input[old(pos)..]) == Some((t.value, pos - old(pos)))
    {
      pos := pos + 1;
      var value := ReadRun();
      ScanShape(input, old(pos));
      t := Some(UnaryOperator(value));
    }

    method TokenizeBinaryOperator() returns (t: Option<Token>)
      requires pos < |input| && input[pos] == 'B'
      modifies this
      ensures t.Some? && old(pos) < pos <= |input|
      ensures ScanToken(input[old(pos)..]) == Some((t.value, pos - old(pos)))
    {
      pos := pos + 1;
      var value := ReadRun();
      ScanShape(input, old(pos));
      t := Some(BinaryOperator(value));
    }

    method TokenizeIf() returns (t: Option<Token>)
      requires pos < |input| && input[pos] == '?'
      modifies this
      ensures t == Some(If) && pos == old(pos) + 1
      ensures ScanToken(input[old(pos)..]) == Some((If, 1))
    {
      pos := pos + 1;
      t := Some(If);
    }

    method TokenizeLambda() returns (t: Option<Token>)
      requires pos < |input| && input[pos] == 'L'
      modifies this
      ensures t.None? ==> ScanToken(input[old(pos)..]).None?
      ensures t.Some? ==> old(pos) < pos <= |input| && ScanToken(input[old(pos)..]) == Some((t.value, pos - old(pos)))
    {
      pos := pos + 1;
      var value := ReadRun();
      var n := ConvertInteger(value);
      ScanShape(input, old(pos));
      t := if n.Some? then Some(Lambda(n.value)) else None;
    }

    method TokenizeVariable() returns (t: Option<Token>)
      requires pos < |input| && input[pos] == 'v'
      modifies this
      ensures t.None? ==> ScanToken(input[old(pos)..]).None?
      ensures t.Some? ==> old(pos) < pos <= |input| && ScanToken(input[old(pos)..]) == Some((t.value, pos - old(pos)))
    {
      pos := pos + 1;
      var value := ReadRun();
      var n := ConvertInteger(value);
      ScanShape(input, old(pos));
      t := if n.Some? then Some(Variable(n.value)) else None;
    }

    method TokenizeUnknown() returns (t: Option<Token>)
      requires pos < |input| && Unclassified(input[pos])
      modifies this
      ensures t.Some? && old(pos) < pos <= |input|
      ensures ScanToken(input[old(pos)..]) == Some((t.value, pos - old(pos)))
    {
      var value := ReadRun();
      RunEndShift(input, old(pos), 0);
      ScanShape(input, old(pos));
      t := Some(Unknown(value));
    }
  }

  /** A space at p is skipped. */
  lemma LexSkip(s: string, p: nat)
    requires p < |s| && s[p] == ' '
    ensures Lex(s[p..]) == Lex(s[p + 1..])
  {
    assert s[p..][1..] == s[p + 1..];
  }

  /** A token read from p to q is followed by what is read from q. */
  lemma LexAdvance(s: string, p: nat, q: nat, t: Token)
    requires p < q <= |s| && s[p] != ' '
    requires ScanToken(s[p..]) == Some((t, q - p))
    ensures Lex(s[p..]) == Prepend([t], Lex(s[q..]))
  {
    assert s[p..][q - p..] == s[q..];
  }

  lemma BoolFlagsStep(s: string, a: nat, b: nat)
    requires a <= b < |s|
    ensures BoolFlags(s[a..b + 1]) == BoolFlags(s[a..b]) + (if IsFlag(s[b]) then [s[b]] else [])
  {
    var t := s[a..b + 1];
    assert t[..|t| - 1] == s[a..b] && t[|t| - 1] == s[b];
  }

  lemma PrependAssoc(acc: seq<Token>, t: Token, rest: Option<seq<Token>>)
    ensures Prepend(acc, Prepend([t], rest)) == Prepend(acc + [t], rest)
  {
    if rest.Some? {
      assert acc + ([t] + rest.value) == acc + [t] + rest.value;
    }
  }

  /** A run measured in the whole input or in its unread suffix ends at the
      same place. */
  /** The run, body and whole token text of the suffix starting at p, in
      terms of the whole input. */
  lemma ScanShape(s: string, p: nat)
    requires p < |s|
    ensures RunEnd(s[p..], 1) == RunEnd(s, p + 1) - p
    ensures s[p..][1..RunEnd(s[p..], 1)] == s[p + 1..RunEnd(s, p + 1)]
    ensures s[p..][..RunEnd(s[p..], 1)] == s[p..RunEnd(s, p + 1)]
  {
    RunEndShift(s, p, 1);
  }

  lemma {:induction false} RunEndShift(s: string, p: nat, k: nat)
    requires p + k <= |s|
    ensures RunEnd(s[p..], k) == RunEnd(s, p + k) - p
    decreases |s| - p - k
  {
    if p + k < |s| && s[p + k] != ' ' {
      RunEndShift(s, p, k + 1);
    }
  }

  // ---------------------------------------------------------------------
  // Properties

  /** A run of non-space characters from k up to a space (or the end) ends there. */
  lemma {:induction false} RunEndAt(s: string, k: nat, m: nat)
    requires k <= m <= |s|
    requires forall i :: k <= i < m ==> s[i] != ' '
    requires m == |s| || s[m] == ' '
    ensures RunEnd(s, k) == m
    decreases m - k
  {
    if k < m {
      RunEndAt(s, k + 1, m);
    }
  }

  lemma WireIsSpaceFree(s: string)
    requires Over(s, IntegerAscii)
    ensures NoSpace(s)
  {
    IntegerAsciiShape();
    forall i | 0 <= i < |s|
      ensures s[i] != ' '
    {
      var j :| 0 <= j < |IntegerAscii| && IntegerAscii[j] == s[i];
    }
  }

  /** The token `tokenize` reads back from the printed form of t: an Unknown
      token comes back as a unary operator, every other token as itself. */
  function Reread(t: Token): Token
  {
    if t.Unknown? then UnaryOperator(t.raw) else t
  }

  /** Operator names and unknown runs contain no space, so their printed
      form is a single run. */
  predicate SpaceFreeNames(t: Token)
  {
    ((t.UnaryOperator? || t.BinaryOperator?) ==> NoSpace(t.op)) && (t.Unknown? ==> NoSpace(t.raw))
  }

  lemma PrintedSpaceFree(t: Token)
    requires Printable(t) && SpaceFreeNames(t)
    ensures TokenText(t) != [] && NoSpace(TokenText(t))
  {
    match t
    case Integer(n) => IntegerRoundTrip(n); WireIsSpaceFree(EncodeInteger(n));
    case Lambda(n) => IntegerRoundTrip(n); WireIsSpaceFree(EncodeInteger(n));
    case Variable(n) => IntegerRoundTrip(n); WireIsSpaceFree(EncodeInteger(n));
    case String(text) => TextRoundTrip(text); WireIsSpaceFree(WireOf(text));
    case _ =>
  }

  /** A token is read from its own characters only: whatever follows a
      space-free word after a space does not change how the word is read. */
  lemma ScanWord(w: string, r: string)
    requires w != [] && NoSpace(w)
    requires r == [] || r[0] == ' '
    ensures (w + r)[0] != ' '
    ensures ScanToken(w + r) == ScanToken(w)
  {
    var s := w + r;
    RunEndAt(s, 1, |w|);
    RunEndAt(w, 1, |w|);
    assert s[1..|w|] == w[1..|w|];
    assert s[..|w|] == w[..|w|];
  }

  /** A space-free payload after the indicator is read as one run. */
  lemma WordBody(c: char, body: string)
    requires NoSpace(body)
    ensures RunEnd([c] + body, 1) == 1 + |body|
    ensures ([c] + body)[1..1 + |body|] == body
  {
    var w := [c] + body;
    RunEndAt(w, 1, |w|);
    assert w[1..|w|] == body;
  }

  /** An indicator followed by a space-free payload that decodes to n. */
  lemma ScanNumbered(c: char, e: string, n: nat)
    requires (c == 'I' || c == 'L' || c == 'v') && NoSpace(e) && DecodeInteger(e) == Some(n)
    ensures ScanToken([c] + e) ==
      Some((if c == 'I' then Integer(n) else if c == 'L' then Lambda(n) else Variable(n), 1 + |e|))
  {
    WordBody(c, e);
  }

  lemma ScanIntegerToken(n: nat)
    ensures ScanToken(TokenText(Integer(n))) == Some((Integer(n), |TokenText(Integer(n))|))
  {
    var e := EncodeInteger(n);
    IntegerRoundTrip(n);
    WireIsSpaceFree(e);
    ScanNumbered('I', e, n);
  }

  lemma ScanLambdaToken(n: nat)
    ensures ScanToken(TokenText(Lambda(n))) == Some((Lambda(n), |TokenText(Lambda(n))|))
  {
    var e := EncodeInteger(n);
    IntegerRoundTrip(n);
    WireIsSpaceFree(e);
    ScanNumbered('L', e, n);
  }

  lemma ScanVariableToken(n: nat)
    ensures ScanToken(TokenText(Variable(n))) == Some((Variable(n), |TokenText(Variable(n))|))
  {
    var e := EncodeInteger(n);
    IntegerRoundTrip(n);
    WireIsSpaceFree(e);
    ScanNumbered('v', e, n);
  }

  /** `S` followed by a space-free wire body that decodes to text. */
  lemma ScanText(wire: string, text: string)
    requires NoSpace(wire) && DecodeText(wire) == Some(text)
    ensures ScanToken(['S'] + wire) == Some((String(text), 1 + |wire|))
  {
    WordBody('S', wire);
  }

  lemma ScanStringToken(text: string)
    requires Over(text, StringAscii)
    ensures ScanToken(TokenText(String(text))) == Some((String(text), |TokenText(String(text))|))
  {
    var wire := WireOf(text);
    TextRoundTrip(text);
    WireIsSpaceFree(wire);
    ScanText(wire, text);
  }

  lemma ScanUnaryToken(op: string)
    requires NoSpace(op)
    ensures ScanToken(TokenText(UnaryOperator(op))) == Some((UnaryOperator(op), |TokenText(UnaryOperator(op))|))
  {
    WordBody('U', op);
  }

  lemma ScanBinaryToken(op: string)
    requires NoSpace(op)
    ensures ScanToken(TokenText(BinaryOperator(op))) == Some((BinaryOperator(op), |TokenText(BinaryOperator(op))|))
  {
    WordBody('B', op);
  }

  lemma ScanUnknownToken(raw: string)
    requires NoSpace(raw)
    ensures ScanToken(TokenText(Unknown(raw))) == Some((UnaryOperator(raw), |TokenText(Unknown(raw))|))
  {
    WordBody('U', raw);
  }

  /** Reading a printed token gives back the token and consumes exactly its
      printed form. */
  lemma ScanPrinted(t: Token)
    requires Printable(t) && SpaceFreeNames(t)
    ensures ScanToken(TokenText(t)) == Some((Reread(t), |TokenText(t)|))
  {
    match t
    case Integer(n) => ScanIntegerToken(n);
    case Lambda(n) => ScanLambdaToken(n);
    case Variable(n) => ScanVariableToken(n);
    case String(text) => ScanStringToken(text);
    case UnaryOperator(op) => ScanUnaryToken(op);
    case BinaryOperator(op) => ScanBinaryToken(op);
    case Unknown(raw) => ScanUnknownToken(raw);
    case Boolean(b) => ScanBoolean(b);
    case If =>
  }

  lemma ScanBoolean(b: bool)
    ensures ScanToken(TokenText(Boolean(b))) == Some((Boolean(b), 1))
  {
    if b {
      ScanFlag('T');
    } else {
      ScanFlag('F');
    }
  }

  /** The run from a flag at `start` to `stop` reads as the Boolean its
      flags spell. */
  lemma BooleanScanned(s: string, start: nat, stop: nat)
    requires start < stop <= |s| && IsFlag(s[start])
    requires stop == RunEnd(s, start) && (stop == |s| || s[stop] == ' ')
    ensures ScanToken(s[start..]) == Some((Boolean(BoolFlags(s[start..stop]) == "T"), stop - start))
  {
    ScanShape(s, start);
    ScanFlagRun(s[start..]);
  }

  /** A token starting with a flag reads as a Boolean over its whole run. */
  lemma ScanFlagRun(s: string)
    requires s != [] && IsFlag(s[0])
    ensures ScanToken(s) == Some((Boolean(BoolFlags(s[..RunEnd(s, 1)]) == "T"), RunEnd(s, 1)))
  {
  }

  lemma ScanFlag(c: char)
    requires IsFlag(c)
    ensures ScanToken([c]) == Some((Boolean(c == 'T'), 1))
  {
    var w := [c];
    assert RunEnd(w, 1) == 1;
    assert w[..1] == w;
    assert BoolFlags(w) == w by {
      assert w[..0] == [] && BoolFlags([]) == [];
      assert BoolFlags(w) == BoolFlags(w[..0]) + [w[0]];
    }
  }

  /** One step of `tokenize` on a token that starts the text. */
  lemma LexStep(s: string)
    requires s != [] && s[0] != ' ' && ScanToken(s).Some?
    ensures Lex(s) == Prepend([ScanToken(s).value.0], Lex(s[ScanToken(s).value.1..]))
  {
  }

  /** Printing a token and tokenizing the text gives back the token (an
      Unknown token comes back as a unary operator). */
  lemma TokenRoundTrip(t: Token)
    requires Printable(t) && SpaceFreeNames(t)
    ensures Lex(TokenText(t)) == Some([Reread(t)])
  {
    ScanPrinted(t);
    PrintedSpaceFree(t);
    var w := TokenText(t);
    LexStep(w);
    assert w[|w|..] == [];
    assert Lex([]) == Some([]) && [Reread(t)] + [] == [Reread(t)];
  }

  /** `join(" ")`. */
  function JoinWords(words: seq<string>): string
  {
    if |words| == 0 then ""
    else if |words| == 1 then words[0]
    else words[0] + " " + JoinWords(words[1..])
  }

  function PrintAll(ts: seq<Token>): (r: seq<string>)
    requires forall i :: 0 <= i < |ts| ==> Printable(ts[i])
    ensures |r| == |ts|
  {
    if ts == [] then [] else [TokenText(ts[0])] + PrintAll(ts[1..])
  }

  predicate AllPrintable(ts: seq<Token>)
  {
    forall i :: 0 <= i < |ts| ==> Printable(ts[i])
  }

  /** `.map(|token| token.to_string()).collect()`: None as soon as one
      token panics, otherwise every token's printed form in order. */
  function PrintTokens(ts: seq<Token>): (r: Option<seq<string>>)
    ensures r.Some? <==> AllPrintable(ts)
    ensures r.Some? ==> r.value == PrintAll(ts)
  {
    if ts == [] then Some([])
    else match TokenToString(ts[0])
      case None => None
      case Some(w) =>
        match PrintTokens(ts[1..])
        case None =>
          assert !AllPrintable(ts[1..]);
          None
        case Some(rest) =>
          assert forall i :: 1 <= i < |ts| ==> ts[i] == ts[1..][i - 1];
          Some([w] + rest)
  }

  function RereadAll(ts: seq<Token>): (r: seq<Token>)
    ensures |r| == |ts|
  {
    if ts == [] then [] else [Reread(ts[0])] + RereadAll(ts[1..])
  }

  /** Tokenizing the space-joined printed forms of a token sequence gives the
      sequence back. */
  lemma {:induction false} TokensRoundTrip(ts: seq<Token>)
    requires forall i :: 0 <= i < |ts| ==> Printable(ts[i]) && SpaceFreeNames(ts[i])
    ensures Lex(JoinWords(PrintAll(ts))) == Some(RereadAll(ts))
  {
    if |ts| == 1 {
      TokenRoundTrip(ts[0]);
      assert PrintAll(ts) == [TokenText(ts[0])];
      assert RereadAll(ts) == [Reread(ts[0])];
    } else if |ts| > 1 {
      var w := TokenText(ts[0]);
      var rest := JoinWords(PrintAll(ts[1..]));
      var s := w + (" " + rest);
      assert JoinWords(PrintAll(ts)) == s;
      ScanPrinted(ts[0]);
      PrintedSpaceFree(ts[0]);
      ScanWord(w, " " + rest);
      TokensRoundTrip(ts[1..]);
      LexStep(s);
      assert s[|w|..] == " " + rest;
      assert (" " + rest)[1..] == rest;
    }
  }

  // Worked examples

  lemma LexIntegerExample()
    ensures Lex("I/6 + I5") == Some([Integer(1337), Unknown("+"), Integer(20)])
  {
    LexIntegerHead();
    LexIntegerAfterHead();
    assert [Integer(1337)] + [Unknown("+"), Integer(20)] == [Integer(1337), Unknown("+"), Integer(20)];
  }

  lemma LexIntegerHead()
    ensures Lex("I/6 + I5") == Prepend([Integer(1337)], Lex(" + I5"))
  {
    var s1 := "I/6 + I5";
    LexIntegerFirst();
    LexStep(s1);
    assert s1[3..] == " + I5";
  }

  lemma LexIntegerAfterHead()
    ensures Lex(" + I5") == Some([Unknown("+"), Integer(20)])
  {
    LexSpace("+ I5");
    LexIntegerRest();
  }

  lemma LexIntegerRest()
    ensures Lex("+ I5") == Some([Unknown("+"), Integer(20)])
  {
    var s2 := "+ I5";
    assert Lex(s2) == Prepend([Unknown("+")], Lex(s2[1..])) by {
      LexIntegerSecond();
      LexStep(s2);
    }
    assert Lex(s2[1..]) == Some([Integer(20)]) by {
      assert s2[1..] == " " + "I5";
      LexSpace("I5");
      LexIntegerLast();
    }
    assert [Unknown("+")] + [Integer(20)] == [Unknown("+"), Integer(20)];
  }

  /** A leading space is skipped. */
  lemma LexSpace(s: string)
    ensures Lex(" " + s) == Lex(s)
  {
    assert (" " + s)[1..] == s;
  }

  lemma LexIntegerLast()
    ensures Lex("I5") == Some([Integer(20)])
  {
    var s3 := "I5";
    LexIntegerThird();
    LexStep(s3);
    assert s3[2..] == [] && Lex([]) == Some([]) && [Integer(20)] + [] == [Integer(20)];
  }

  lemma LexIntegerFirst()
    ensures ScanToken("I/6 + I5") == Some((Integer(1337), 3))
  {
    var s1 := "I/6 + I5";
    IntegerDigit('/');
    IntegerDigit('6');
    RunEndAt(s1, 1, 3);
    assert s1[1..3] == "/6" && "/6"[..1] == "/" && "/"[..0] == [];
  }

  lemma LexIntegerSecond()
    ensures ScanToken("+ I5") == Some((Unknown("+"), 1))
  {
    var s2 := "+ I5";
    RunEndAt(s2, 1, 1);
    assert s2[..1] == "+";
  }

  lemma LexIntegerThird()
    ensures ScanToken("I5") == Some((Integer(20), 2))
  {
    var s3 := "I5";
    IntegerDigit('5');
    RunEndAt(s3, 1, 2);
    assert s3[1..2] == "5" && "5"[..0] == [];
  }

  lemma LexStringExample()
    ensures Lex("SB%,,/}Q/2,$_") == Some([String("Hello World!")])
  {
    var s := "SB%,,/}Q/2,$_";
    ScanHelloWorld();
    LexStep(s);
    assert s[|s|..] == [];
    assert Lex([]) == Some([]) && [String("Hello World!")] + [] == [String("Hello World!")];
  }

  lemma ScanHelloWorld()
    ensures ScanToken("SB%,,/}Q/2,$_") == Some((String("Hello World!"), 13))
  {
    var wire := "B%,,/}Q/2,$_";
    assert ScanToken(['S'] + wire) == Some((String("Hello World!"), 13)) by {
      HelloWorldText(wire, "Hello World!");
      WireIsSpaceFree(wire);
      ScanText(wire, "Hello World!");
    }
    assert ['S'] + wire == "SB%,,/}Q/2,$_";
  }

  /** The string test's wire body carries "Hello World!". */
  lemma HelloWorldText(wire: string, text: string)
    requires wire == "B%,,/}Q/2,$_" && text == "Hello World!"
    ensures DecodeText(wire) == Some(text)
  {
    assert |wire| == |text|;
    forall i | 0 <= i < |wire|
      ensures '!' <= wire[i] <= '~' && StringIndex(text[i]) == wire[i] as int - 33
    {
    }
    DecodeByCharacter(wire, text);
  }

  /** A wire body decodes to the text whose every character has the index
      of the matching wire digit. */
  lemma DecodeByCharacter(wire: string, text: string)
    requires |wire| == |text|
    requires forall i :: 0 <= i < |wire| ==> '!' <= wire[i] <= '~' && StringIndex(text[i]) == wire[i] as int - 33
    ensures DecodeText(wire) == Some(text)
  {
    forall i | 0 <= i < |wire|
      ensures wire[i] in IntegerAscii && StringAscii[IndexOf(IntegerAscii, wire[i])] == text[i]
    {
      IntegerDigit(wire[i]);
      StringAsciiAt(text[i]);
    }
    assert TextOf(wire) == text;
  }

  /** A boolean run keeps only its T and F characters: "TX" reads as true,
      "TF" as false. */
  lemma LexBooleanExample()
    ensures Lex("TX") == Some([Boolean(true)])
    ensures Lex("TF") == Some([Boolean(false)])
  {
    LexBooleanRun("TX", true);
    LexBooleanRun("TF", false);
  }

  lemma LexBooleanRun(s: string, b: bool)
    requires |s| == 2 && s[0] == 'T' && s[1] != ' '
    requires b <==> !IsFlag(s[1])
    ensures Lex(s) == Some([Boolean(b)])
  {
    ScanBooleanRun(s, b);
    LexStep(s);
    assert s[2..] == [] && Lex([]) == Some([]) && [Boolean(b)] + [] == [Boolean(b)];
  }

  lemma ScanBooleanRun(s: string, b: bool)
    requires |s| == 2 && s[0] == 'T' && s[1] != ' '
    requires b <==> !IsFlag(s[1])
    ensures ScanToken(s) == Some((Boolean(b), 2))
  {
    RunEndAt(s, 1, 2);
    assert s[..2] == s;
    assert BoolFlags(s) == "T" + (if IsFlag(s[1]) then [s[1]] else []) by {
      assert s[..1] == "T" && "T"[..0] == [];
    }
  }

  lemma LexBinderExample()
    ensures Lex("L#") == Some([Lambda(2)])
    ensures Lex("v#") == Some([Variable(2)])
    ensures Lex("?") == Some([If])
  {
    LexLambdaExample();
    LexVariableExample();
    TokenRoundTrip(If);
  }

  lemma EncodeTwo()
    ensures EncodeInteger(2) == "#"
  {
    IntegerAsciiShape();
    assert Digits(2) == Digits(0) + [IntegerAscii[2]];
  }

  lemma LexLambdaExample()
    ensures Lex("L#") == Some([Lambda(2)])
  {
    EncodeTwo();
    TokenRoundTrip(Lambda(2));
    assert TokenText(Lambda(2)) == "L#";
  }

  lemma LexVariableExample()
    ensures Lex("v#") == Some([Variable(2)])
  {
    EncodeTwo();
    TokenRoundTrip(Variable(2));
    assert TokenText(Variable(2)) == "v#";
  }
}
