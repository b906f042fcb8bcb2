/** The grid reader of the 3D language (src/three_d/tokenizer.rs): the
    program text is trimmed, cut into lines and each line into
    whitespace-separated fields; every field becomes an empty cell, an
    integer or one of fifteen operators. */
module ThreeDTokenizer {
  import opened Wrappers
  import opened Primitives

  datatype Direction = Up | Down | Left | Right

  datatype Operator =
    | Redirect(dir: Direction)
    | Add | Sub | Mul | Div | Mod
    | Warp | Eq | Neq | Submit | Alpha | Beta

  datatype Token = Empty | Integer(value: int) | Operator(op: Operator)

  // ---------------------------------------------------------------------
  // Printing

  /** `Operator::to_string`: the operator's one-character symbol. */
  function OperatorText(op: Operator): (s: string)
    ensures |s| == 1 && s != "."
  {
    match op
    case Redirect(Up) => "^"
    case Redirect(Down) => "v"
    case Redirect(Left) => "<"
    case Redirect(Right) => ">"
    case Add => "+"
    case Sub => "-"
    case Mul => "*"
    case Div => "/"
    case Mod => "%"
    case Warp => "@"
    case Eq => "="
    case Neq => "#"
    case Submit => "S"
    case Alpha => "A"
    case Beta => "B"
  }

  /** `Token::to_string`: "." for an empty cell, the decimal form of an
      integer, the symbol of an operator. */
  function TokenText(t: Token): string
  {
    match t
    case Empty => "."
    case Integer(v) => IntToDecimal(v)
    case Operator(op) => OperatorText(op)
  }

  // ---------------------------------------------------------------------
  // Reading one field

  /** The `match` on a field that is neither "." nor an integer; None is the
      `panic!` on any other text. */
  function OperatorOf(s: string): Option<Operator>
  {
    if s == ">" then Some(Redirect(Right))
    else if s == "<" then Some(Redirect(Left))
    else if s == "^" then Some(Redirect(Up))
    else if s == "v" then Some(Redirect(Down))
    else if s == "+" then Some(Add)
    else if s == "-" then Some(Sub)
    else if s == "*" then Some(Mul)
    else if s == "/" then Some(Div)
    else if s == "%" then Some(Mod)
    else if s == "@" then Some(Warp)
    else if s == "=" then Some(Eq)
    else if s == "#" then Some(Neq)
    else if s == "S" then Some(Submit)
    else if s == "A" then Some(Alpha)
    else if s == "B" then Some(Beta)
    else None
  }

  /** The body of the inner loop of `tokenize` on one field: "." first, then
      `parse::<isize>`, then the operator table. */
  function TokenOf(s: string): Option<Token>
  {
    if s == "." then Some(Empty)
    else match ParseInt(s)
      case Some(v) => Some(Integer(v))
      case None =>
        match OperatorOf(s)
        case Some(op) => Some(Operator(op))
        case None => None
  }

  /** Reading a symbol back gives its operator. */
  lemma OperatorRoundTrip(op: Operator)
    ensures OperatorOf(OperatorText(op)) == Some(op)
  {
  }

  /** No operator symbol parses as an integer: "+" and "-" lack digits. */
  lemma OperatorNotInteger(op: Operator)
    ensures ParseInt(OperatorText(op)) == None
  {
    var s := OperatorText(op);
    assert !IsDigit(s[0]);
  }

  /** Printing a token and reading the field back gives the token. */
  lemma TokenRoundTrip(t: Token)
    ensures TokenOf(TokenText(t)) == Some(t)
  {
    match t
    case Empty =>
    case Integer(v) =>
      IntToDecimalRoundTrip(v);
      DecimalNotDot(v);
    case Operator(op) =>
      OperatorRoundTrip(op);
      OperatorNotInteger(op);
  }

  lemma DecimalNotDot(v: int)
    ensures IntToDecimal(v) != "."
  {
    NatToDecimalDigits(if v < 0 then -v else v);
    if v >= 0 {
      assert IsDigit(IntToDecimal(v)[0]);
    }
  }

  /** "-3" is an integer while "-" alone is the Sub operator; an unknown
      symbol panics. */
  lemma FieldExamples()
    ensures TokenOf("-3") == Some(Integer(-3))
    ensures TokenOf("-") == Some(Operator(Sub))
    ensures TokenOf("+") == Some(Operator(Add))
    ensures TokenOf(".") == Some(Empty)
    ensures TokenOf("x") == None
  {
    assert DecimalValue("3") == 3;
    assert !IsDigit('x');
  }

  // ---------------------------------------------------------------------
  // Cutting the text: trim, lines, split_whitespace

  /** `char::is_whitespace`: the Unicode White_Space characters. */
  predicate IsWhitespace(c: char)
  {
    '\t' <= c <= '\r' || c == ' ' || c == '\U{0085}' || c == '\U{00A0}' || c == '\U{1680}'
    || '\U{2000}' <= c <= '\U{200A}' || c == '\U{2028}' || c == '\U{2029}' || c == '\U{202F}'
    || c == '\U{205F}' || c == '\U{3000}'
  }

  predicate NoWhitespace(s: string)
  {
    forall i :: 0 <= i < |s| ==> !IsWhitespace(s[i])
  }

  /** `trim_start`: drops the longest whitespace prefix. */
  function TrimStart(s: string): (r: string)
    ensures |r| <= |s| && r == s[|s| - |r|..]
    ensures forall i :: 0 <= i < |s| - |r| ==> IsWhitespace(s[i])
    ensures r == [] || !IsWhitespace(r[0])
  {
    if s != [] && IsWhitespace(s[0]) then TrimStart(s[1..]) else s
  }

  /** `trim_end`: drops the longest whitespace suffix. */
  function TrimEnd(s: string): (r: string)
    ensures |r| <= |s| && r == s[..|r|]
    ensures forall i :: |r| <= i < |s| ==> IsWhitespace(s[i])
    ensures r == [] || !IsWhitespace(r[|r| - 1])
  {
    if s != [] && IsWhitespace(s[|s| - 1]) then TrimEnd(s[..|s| - 1]) else s
  }

  /** `trim`. */
  function Trim(s: string): string
  {
    TrimEnd(TrimStart(s))
  }

  /** The pieces between `\n` characters (one more than there are `\n`s). */
  function SplitNewlines(s: string): (r: seq<string>)
    ensures |r| >= 1
    ensures forall i :: 0 <= i < |r| ==> '\n' !in r[i]
  {
    if s == [] then [""]
    else
      var rest := SplitNewlines(s[1..]);
      if s[0] == '\n' then [""] + rest else [[s[0]] + rest[0]] + rest[1..]
  }

  /** `lines`: the pieces between `\n`s, without the empty piece after a
      final `\n`, each with one trailing `\r` removed. */
  function Lines(s: string): seq<string>
  {
    if s == [] then []
    else
      var pieces := SplitNewlines(s);
      var kept := if s[|s| - 1] == '\n' then pieces[..|pieces| - 1] else pieces;
      seq(|kept|, i requires 0 <= i < |kept| => StripReturn(kept[i]))
  }

  function StripReturn(line: string): string
  {
    if line != [] && line[|line| - 1] == '\r' then line[..|line| - 1] else line
  }

  /** The longest prefix of s without whitespace. */
  function Word(s: string): (w: string)
    ensures |w| <= |s| && w == s[..|w|] && NoWhitespace(w)
    ensures |w| < |s| ==> IsWhitespace(s[|w|])
  {
    if s == [] || IsWhitespace(s[0]) then [] else [s[0]] + Word(s[1..])
  }

  /** `split_whitespace`: the maximal runs of non-whitespace characters. */
  function Fields(s: string): (r: seq<string>)
    ensures forall i :: 0 <= i < |r| ==> r[i] != [] && NoWhitespace(r[i])
    decreases |s|
  {
    if s == [] then []
    else if IsWhitespace(s[0]) then Fields(s[1..])
    else
      var w := Word(s);
      [w] + Fields(s[|w|..])
  }

  /** Fields joined by single spaces. */
  function Spaced(ws: seq<string>): string
  {
    if ws == [] then "" else if |ws| == 1 then ws[0] else ws[0] + " " + Spaced(ws[1..])
  }

  /** A word followed by nothing or by whitespace is read whole. */
  lemma {:induction false} WordBefore(w: string, x: string)
    requires NoWhitespace(w) && (x == [] || IsWhitespace(x[0]))
    ensures Word(w + x) == w
  {
    if w != [] {
      assert (w + x)[1..] == w[1..] + x;
      WordBefore(w[1..], x);
    } else {
      assert w + x == x;
    }
  }

  /** Splitting space-joined fields gives the fields back. */
  lemma {:induction false} FieldsSpaced(ws: seq<string>)
    requires forall i :: 0 <= i < |ws| ==> ws[i] != [] && NoWhitespace(ws[i])
    ensures Fields(Spaced(ws)) == ws
  {
    if |ws| == 1 {
      WordBefore(ws[0], "");
      assert ws[0] + "" == ws[0];
      assert Spaced(ws)[|ws[0]|..] == [];
    } else if |ws| > 1 {
      var w, t := ws[0], Spaced(ws[1..]);
      var s := w + (" " + t);
      assert Spaced(ws) == s;
      WordBefore(w, " " + t);
      assert s[|w|..] == " " + t;
      assert (" " + t)[1..] == t;
      FieldsSpaced(ws[1..]);
    }
  }

  /** The cells of a text, row by row, as `new` stores them. */
  function Grid(text: string): (g: seq<seq<string>>)
  {
    var lines := Lines(Trim(text));
    seq(|lines|, i requires 0 <= i < |lines| => Fields(lines[i]))
  }

  // ---------------------------------------------------------------------
  // Reading the grid

  /** The tokens of one row, or None when a field is not a cell. */
  function TokenizeRow(row: seq<string>): (r: Option<seq<Token>>)
    ensures r.Some? ==> |r.value| == |row|
  {
    if row == [] then Some([])
    else
      match TokenizeRow(row[..|row| - 1])
      case None => None
      case Some(ts) =>
        match TokenOf(row[|row| - 1])
        case None => None
        case Some(t) => Some(ts + [t])
  }

  /** The tokens of every row, or None when some field is not a cell. */
  function TokenizeGrid(grid: seq<seq<string>>): (r: Option<seq<seq<Token>>>)
    ensures r.Some? ==> |r.value| == |grid|
  {
    if grid == [] then Some([])
    else
      match TokenizeGrid(grid[..|grid| - 1])
      case None => None
      case Some(rows) =>
        match TokenizeRow(grid[|grid| - 1])
        case None => None
        case Some(ts) => Some(rows + [ts])
  }

  /** A row reads iff each of its fields does, and then cell j is the token
      of field j. */
  lemma {:induction false} RowCells(row: seq<string>)
    ensures TokenizeRow(row).Some? <==> forall j :: 0 <= j < |row| ==> TokenOf(row[j]).Some?
    ensures TokenizeRow(row).Some? ==> forall j :: 0 <= j < |row| ==> TokenOf(row[j]) == Some(TokenizeRow(row).value[j])
  {
    if row != [] {
      var init := row[..|row| - 1];
      RowCells(init);
      assert forall j :: 0 <= j < |init| ==> init[j] == row[j];
    }
  }

  /** The grid reads iff each row does, and then row i holds the tokens of
      row i of the fields. */
  lemma {:induction false} GridRows(grid: seq<seq<string>>)
    ensures TokenizeGrid(grid).Some? <==> forall i :: 0 <= i < |grid| ==> TokenizeRow(grid[i]).Some?
    ensures TokenizeGrid(grid).Some? ==> forall i :: 0 <= i < |grid| ==> TokenizeRow(grid[i]) == Some(TokenizeGrid(grid).value[i])
  {
    if grid != [] {
      var init := grid[..|grid| - 1];
      GridRows(init);
      assert forall i :: 0 <= i < |init| ==> init[i] == grid[i];
    }
  }

  /** `Tokenizer`: the fields of the program text. */
  class Tokenizer {
    var input: seq<seq<string>>

    /** `Tokenizer::new`. */
    constructor (text: string)
      ensures input == Grid(text)
    {
      input := Grid(text);
    }

    /** `tokenize`: row by row, field by field; None for the `panic!` on a
        field that is not a cell. */
    method Tokenize() returns (r: Option<seq<seq<Token>>>)
      ensures r == TokenizeGrid(input)
    {
      var tokens: seq<seq<Token>> := [];
      for i := 0 to |input|
        invariant TokenizeGrid(input[..i]) == Some(tokens)
      {
        var row := input[i];
        var rowTokens: seq<Token> := [];
        for j := 0 to |row|
          invariant TokenizeRow(row[..j]) == Some(rowTokens)
        {
          assert row[..j + 1][..j] == row[..j];
          var t := TokenOf(row[j]);
          if t.None? {
            assert TokenizeRow(row[..j + 1]) == None;
            RowFails(input, i, row[..j + 1]);
            return None;
          }
          rowTokens := rowTokens + [t.value];
        }
        assert row[..|row|] == row;
        assert input[..i + 1][..i] == input[..i];
        tokens := tokens + [rowTokens];
      }
      assert input[..|input|] == input;
      r := Some(tokens);
    }
  }

  /** A prefix of a row that does not read makes the whole grid fail. */
  lemma RowFails(grid: seq<seq<string>>, i: nat, prefix: seq<string>)
    requires i < |grid| && prefix <= grid[i] && TokenizeRow(prefix) == None
    ensures TokenizeGrid(grid) == None
  {
    RowCells(prefix);
    RowCells(grid[i]);
    assert forall j :: 0 <= j < |prefix| ==> prefix[j] == grid[i][j];
    GridRows(grid);
  }

  /** A row whose every field reads as the matching token reads as those
      tokens. */
  lemma RowFromCells(row: seq<string>, ts: seq<Token>)
    requires |ts| == |row| && forall j :: 0 <= j < |row| ==> TokenOf(row[j]) == Some(ts[j])
    ensures TokenizeRow(row) == Some(ts)
  {
    RowCells(row);
    var r := TokenizeRow(row).value;
    assert forall j :: 0 <= j < |row| ==> Some(r[j]) == TokenOf(row[j]) == Some(ts[j]);
    assert r == ts;
  }

  /** The first two rows of the grid in the test of `tokenize`. */
  lemma SampleRowsExample()
    ensures TokenizeRow([".", ".", ".", ".", "0", ".", ".", ".", "."])
         == Some([Empty, Empty, Empty, Empty, Integer(0), Empty, Empty, Empty, Empty])
    ensures TokenizeRow([".", "B", ">", ".", "=", ".", ".", ".", "."])
         == Some([Empty, Operator(Beta), Operator(Redirect(Right)), Empty, Operator(Eq), Empty, Empty, Empty, Empty])
  {
    assert TokenOf("0") == Some(Integer(0)) by {
      assert DecimalValue("0") == 0;
    }
    assert TokenOf("B") == Some(Operator(Beta)) && TokenOf(">") == Some(Operator(Redirect(Right)));
    assert TokenOf("=") == Some(Operator(Eq)) && TokenOf(".") == Some(Empty);
    RowFromCells([".", ".", ".", ".", "0", ".", ".", ".", "."],
      [Empty, Empty, Empty, Empty, Integer(0), Empty, Empty, Empty, Empty]);
    RowFromCells([".", "B", ">", ".", "=", ".", ".", ".", "."],
      [Empty, Operator(Beta), Operator(Redirect(Right)), Empty, Operator(Eq), Empty, Empty, Empty, Empty]);
  }
}
