/** The board machine of the 3D language (src/three_d/emulator.rs). One tick
    scans the board four times in row-major order -- integers sliding over
    arrows, arithmetic operators, comparison operators, time warps -- and
    collects cells to clear, cells to write and writes into the past; a write
    to a cell that already has one stops the machine. Without a warp the
    clears and then the writes are applied to a copy of the board; with one
    the machine rolls back. Rust panics are `None`. */
module ThreeDEmulator {
  import opened Wrappers
  import opened Primitives
  import opened ThreeDTokenizer

  type Board = seq<seq<Token>>

  /** A cell position: (row, column). */
  type Pos = (int, int)

  /** The width `peek` measures every column bound with: that of row 0. */
  function Width(b: Board): nat { if |b| == 0 then 0 else |b[0]| }

  predicate Inside(b: Board, p: Pos) { 0 <= p.0 < |b| && 0 <= p.1 < Width(b) }

  predicate Rectangular(b: Board)
  {
    |b| > 0 && forall i :: 0 <= i < |b| ==> |b[i]| == |b[0]|
  }

  predicate IsArithmetic(op: Operator) { op.Add? || op.Sub? || op.Mul? || op.Div? || op.Mod? }

  predicate IsComparison(op: Operator) { op.Eq? || op.Neq? }

  /** The reads `peek` does without a bounds check stay on the board: the
      left and upper operands of arithmetic and comparison operators, and all
      four neighbours of a warp. */
  predicate OperandsInside(b: Board)
    requires Rectangular(b)
  {
    forall i, j :: 0 <= i < |b| && 0 <= j < |b[i]| && b[i][j].Operator? ==>
      (IsArithmetic(b[i][j].op) || IsComparison(b[i][j].op) ==> i >= 1 && j >= 1) &&
      (b[i][j].op.Warp? ==> 1 <= i < |b| - 1 && 1 <= j < Width(b) - 1)
  }

  /** A board `peek` can scan without indexing outside it. */
  predicate Operable(b: Board)
  {
    Rectangular(b) && OperandsInside(b)
  }

  /** Same number of rows and the same width. */
  predicate SameShape(a: Board, b: Board)
  {
    Rectangular(a) && |a| == |b| && Width(a) == Width(b)
  }

  // ---------------------------------------------------------------------
  // What one tick collects

  /** `clear_pos`, `updates` and `warps` of `peek`; a warp key is the pair
      (ticks back, target cell). */
  datatype Plan = Plan(clears: seq<Pos>, updates: map<Pos, Token>, warps: map<(int, Pos), int>)

  const NoPlan := Plan([], map[], map[])

  /** The four scans of `peek`, in the order it runs them. */
  datatype Phase = Moves | Arithmetic | Comparisons | Warps

  /** `redirect_map`: the step an arrow points along. */
  function Vector(d: Direction): Pos
  {
    match d
    case Up => (-1, 0)
    case Down => (1, 0)
    case Left => (0, -1)
    case Right => (0, 1)
  }

  /** `directions`: the neighbours an integer looks at, in order. */
  const Directions: seq<Pos> := [(-1, 0), (1, 0), (0, -1), (0, 1)]

  /** One neighbour of the integer at (i, j): when it is an arrow pointing
      away along the same step and the cell beyond it is on the board, the
      integer moves there; an earlier write there is a conflict. */
  function Jump(b: Board, i: int, j: int, v: Pos, p: Plan): Option<Plan>
    requires Rectangular(b) && Inside(b, (i, j))
  {
    var n := (i + v.0, j + v.1);
    if !Inside(b, n) then Some(p)
    else if !(b[n.0][n.1].Operator? && b[n.0][n.1].op.Redirect?) then Some(p)
    else if Vector(b[n.0][n.1].op.dir) != v then Some(p)
    else
      var t := (n.0 + v.0, n.1 + v.1);
      if !Inside(b, t) then Some(p)
      else if t in p.updates then None
      else Some(p.(clears := p.clears + [(i, j)], updates := p.updates[t := b[i][j]]))
  }

  /** The first `k` directions of the scan around the integer at (i, j). */
  function Jumps(b: Board, i: int, j: int, k: nat, p: Plan): Option<Plan>
    requires Rectangular(b) && Inside(b, (i, j)) && k <= |Directions|
  {
    if k == 0 then Some(p)
    else match Jumps(b, i, j, k - 1, p)
      case None => None
      case Some(q) => Jump(b, i, j, Directions[k - 1], q)
  }

  /** The value of an arithmetic operator on its left and upper operands as
      the source computes it; `None` is Rust's panic on a zero divisor. */
  function Compute(op: Operator, l: int, u: int): (r: Option<int>)
    requires IsArithmetic(op)
    ensures r.None? <==> (op.Div? || op.Mod?) && u == 0
    ensures op.Div? && u != 0 && l * u >= 0 ==> r == Some(FloorDiv(l, u))
    ensures op.Mod? && u != 0 ==>
      l == u * TruncDiv(l, u) + r.value && Abs(r.value) < Abs(u) && (r.value == 0 || (r.value < 0 <==> l < 0))
  {
    match op
    case Add => Some(l + u)
    case Sub => Some(l - u)
    case Mul => Some(l * u)
    case Div =>
      if u == 0 then None
      else if l * u >= 0 then Some(TruncDiv(l, u))
      else Some(TruncDiv(l, u) - 1)
    case Mod =>
      if u == 0 then None
      else
        TruncDivMod(l, u);
        Some(TruncMod(l, u))
  }

  /** Floor division: the rounding the `l * u < 0` branch of `Div` is after,
      and the one the browser emulator of this repository computes. */
  function FloorDiv(l: int, u: int): int
    requires u != 0
  {
    if l * u < 0 && TruncMod(l, u) != 0 then TruncDiv(l, u) - 1 else TruncDiv(l, u)
  }

  /** `Compute` with `Div` rounding down on every input. */
  function ComputeFixed(op: Operator, l: int, u: int): Option<int>
    requires IsArithmetic(op)
  {
    if op.Div? && u != 0 then Some(FloorDiv(l, u)) else Compute(op, l, u)
  }

  /** An arithmetic operator at (i, j) with integer operands writes its value
      right and down and clears both operands. */
  function ArithmeticCell(b: Board, i: int, j: int, p: Plan): Option<Plan>
    requires Operable(b) && Inside(b, (i, j))
    requires b[i][j].Operator? && IsArithmetic(b[i][j].op)
  {
    var left, up := b[i][j - 1], b[i - 1][j];
    if !(left.Integer? && up.Integer?) then Some(p)
    else match Compute(b[i][j].op, left.value, up.value)
      case None => None
      case Some(v) =>
        if (i, j + 1) in p.updates || (i + 1, j) in p.updates then None
        else Some(Plan(p.clears + [(i, j - 1), (i - 1, j)],
                       p.updates[(i, j + 1) := Integer(v)][(i + 1, j) := Integer(v)],
                       p.warps))
  }

  /** A comparison at (i, j) whose test holds copies its left operand down and
      its upper operand right and clears both; a failed test does nothing. */
  function ComparisonCell(b: Board, i: int, j: int, p: Plan): Option<Plan>
    requires Operable(b) && Inside(b, (i, j))
    requires b[i][j].Operator? && IsComparison(b[i][j].op)
  {
    var left, up := b[i][j - 1], b[i - 1][j];
    if !(left.Integer? && up.Integer?) then Some(p)
    else if (left.value == up.value) != b[i][j].op.Eq? then Some(p)
    else if (i, j + 1) in p.updates || (i + 1, j) in p.updates then None
    else Some(Plan(p.clears + [(i, j - 1), (i - 1, j)],
                   p.updates[(i + 1, j) := left][(i, j + 1) := up],
                   p.warps))
  }

  /** A warp at (i, j) with integer neighbours -- value above, dx left, dy
      right, dt below -- asks to write the value at (i - dy, j - dx) as it was
      dt ticks back; a target off the board is skipped, a dt outside the
      history is the panic of `get_history`, a second write to the same cell
      of the same tick is a conflict. */
  function WarpCell(b: Board, h: seq<Board>, i: int, j: int, p: Plan): Option<Plan>
    requires Operable(b) && Inside(b, (i, j))
    requires b[i][j] == Operator(Warp)
  {
    var v, dx, dy, dt := b[i - 1][j], b[i][j - 1], b[i][j + 1], b[i + 1][j];
    if !(v.Integer? && dx.Integer? && dy.Integer? && dt.Integer?) then Some(p)
    else
      var t := (i - dy.value, j - dx.value);
      if !Inside(b, t) then Some(p)
      else if !(1 <= dt.value <= |h|) then None
      else if (dt.value, t) in p.warps then None
      else Some(p.(warps := p.warps[(dt.value, t) := v.value]))
  }

  /** What the cell at (i, j) contributes to the given scan. */
  function CellStep(ph: Phase, b: Board, h: seq<Board>, i: int, j: int, p: Plan): Option<Plan>
    requires Operable(b) && Inside(b, (i, j))
  {
    var c := b[i][j];
    match ph
    case Moves => if c.Integer? then Jumps(b, i, j, |Directions|, p) else Some(p)
    case Arithmetic => if c.Operator? && IsArithmetic(c.op) then ArithmeticCell(b, i, j, p) else Some(p)
    case Comparisons => if c.Operator? && IsComparison(c.op) then ComparisonCell(b, i, j, p) else Some(p)
    case Warps => if c == Operator(Warp) then WarpCell(b, h, i, j, p) else Some(p)
  }

  /** The scan over the first `j` cells of row `i`. */
  function RowScan(ph: Phase, b: Board, h: seq<Board>, i: int, j: nat, p: Option<Plan>): Option<Plan>
    requires Operable(b) && 0 <= i < |b| && j <= |b[i]|
  {
    if j == 0 then p
    else match RowScan(ph, b, h, i, j - 1, p)
      case None => None
      case Some(q) => CellStep(ph, b, h, i, j - 1, q)
  }

  /** The scan over the first `i` rows. */
  function Scan(ph: Phase, b: Board, h: seq<Board>, i: nat, p: Option<Plan>): Option<Plan>
    requires Operable(b) && i <= |b|
  {
    if i == 0 then p
    else RowScan(ph, b, h, i - 1, |b[i - 1]|, Scan(ph, b, h, i - 1, p))
  }

  function Rank(ph: Phase): nat
  {
    match ph
    case Moves => 0
    case Arithmetic => 1
    case Comparisons => 2
    case Warps => 3
  }

  /** The plan a scan starts from: what the scan before it ended with. */
  function Input(ph: Phase, b: Board, h: seq<Board>): Option<Plan>
    requires Operable(b)
    decreases Rank(ph)
  {
    match ph
    case Moves => Some(NoPlan)
    case Arithmetic => Scan(Moves, b, h, |b|, Input(Moves, b, h))
    case Comparisons => Scan(Arithmetic, b, h, |b|, Input(Arithmetic, b, h))
    case Warps => Scan(Comparisons, b, h, |b|, Input(Comparisons, b, h))
  }

  /** Everything one tick collects: the four scans one after the other. */
  function Collect(b: Board, h: seq<Board>): Option<Plan>
    requires Operable(b)
  {
    Scan(Warps, b, h, |b|, Input(Warps, b, h))
  }

  /** The board with its cleared cells emptied and then its written cells
      set: a cell both cleared and written keeps the written value. */
  function Applied(b: Board, clears: seq<Pos>, u: map<Pos, Token>): Board
  {
    seq(|b|, i requires 0 <= i < |b| =>
      seq(|b[i]|, j requires 0 <= j < |b[i]| =>
        if (i, j) in u then u[(i, j)] else if (i, j) in clears then Empty else b[i][j]))
  }

  /** A past board with the warp writes aimed at it. */
  function Warped(hb: Board, dt: int, w: map<(int, Pos), int>): Board
  {
    seq(|hb|, i requires 0 <= i < |hb| =>
      seq(|hb[i]|, j requires 0 <= j < |hb[i]| =>
        if (dt, (i, j)) in w then Integer(w[(dt, (i, j))]) else hb[i][j]))
  }

  // ---------------------------------------------------------------------
  // Soundness of what is collected

  /** What every collected plan satisfies: cleared cells are on the board,
      written values are integers, warps aim inside the history and at a
      cell of the board. */
  predicate Sound(b: Board, h: seq<Board>, p: Plan)
  {
    (forall k :: 0 <= k < |p.clears| ==> Inside(b, p.clears[k])) &&
    (forall q :: q in p.updates ==> p.updates[q].Integer?) &&
    (forall w :: w in p.warps ==> 1 <= w.0 <= |h| && Inside(b, w.1))
  }

  lemma JumpsSound(b: Board, h: seq<Board>, i: int, j: int, k: nat, p: Plan)
    requires Rectangular(b) && Inside(b, (i, j)) && k <= |Directions|
    requires b[i][j].Integer? && Sound(b, h, p)
    ensures Jumps(b, i, j, k, p).Some? ==> Sound(b, h, Jumps(b, i, j, k, p).value)
  {
    if k > 0 {
      JumpsSound(b, h, i, j, k - 1, p);
    }
  }

  lemma StepSound(ph: Phase, b: Board, h: seq<Board>, i: int, j: int, p: Plan)
    requires Operable(b) && Inside(b, (i, j)) && Sound(b, h, p)
    ensures CellStep(ph, b, h, i, j, p).Some? ==> Sound(b, h, CellStep(ph, b, h, i, j, p).value)
  {
    if ph.Moves? && b[i][j].Integer? {
      JumpsSound(b, h, i, j, |Directions|, p);
    }
  }

  lemma {:induction false} RowScanSound(ph: Phase, b: Board, h: seq<Board>, i: int, j: nat, p: Option<Plan>)
    requires Operable(b) && 0 <= i < |b| && j <= |b[i]|
    requires p.Some? ==> Sound(b, h, p.value)
    ensures RowScan(ph, b, h, i, j, p).Some? ==> Sound(b, h, RowScan(ph, b, h, i, j, p).value)
  {
    if j > 0 {
      RowScanSound(ph, b, h, i, j - 1, p);
      var q := RowScan(ph, b, h, i, j - 1, p);
      if q.Some? {
        StepSound(ph, b, h, i, j - 1, q.value);
      }
    }
  }

  lemma {:induction false} ScanSound(ph: Phase, b: Board, h: seq<Board>, i: nat, p: Option<Plan>)
    requires Operable(b) && i <= |b|
    requires p.Some? ==> Sound(b, h, p.value)
    ensures Scan(ph, b, h, i, p).Some? ==> Sound(b, h, Scan(ph, b, h, i, p).value)
  {
    if i > 0 {
      ScanSound(ph, b, h, i - 1, p);
      RowScanSound(ph, b, h, i - 1, |b[i - 1]|, Scan(ph, b, h, i - 1, p));
    }
  }

  /** Every plan a tick collects is sound. */
  lemma InputSound(ph: Phase, b: Board, h: seq<Board>)
    requires Operable(b)
    ensures Input(ph, b, h).Some? ==> Sound(b, h, Input(ph, b, h).value)
    decreases Rank(ph)
  {
    match ph
    case Moves =>
    case Arithmetic =>
      InputSound(Moves, b, h);
      ScanSound(Moves, b, h, |b|, Input(Moves, b, h));
    case Comparisons =>
      InputSound(Arithmetic, b, h);
      ScanSound(Arithmetic, b, h, |b|, Input(Arithmetic, b, h));
    case Warps =>
      InputSound(Comparisons, b, h);
      ScanSound(Comparisons, b, h, |b|, Input(Comparisons, b, h));
  }

  /** Every plan a tick collects is sound. */
  lemma CollectSound(b: Board, h: seq<Board>)
    requires Operable(b)
    ensures Collect(b, h).Some? ==> Sound(b, h, Collect(b, h).value)
  {
    InputSound(Warps, b, h);
    ScanSound(Warps, b, h, |b|, Input(Warps, b, h));
  }

  /** `peek`: the next board and how many ticks it rolls back (0 for none).
      Warps aimed at two different ticks panic; one tick aimed at gives that
      past board with the warp writes and drops the other updates; otherwise
      the updates must all land on the board. */
  ghost function Next(b: Board, h: seq<Board>): Option<(Board, int)>
    requires Operable(b)
  {
    CollectSound(b, h);
    match Collect(b, h)
    case None => None
    case Some(p) =>
      if p.warps != map[] then
        var k :| k in p.warps;
        if exists k' :: k' in p.warps && k'.0 != k.0 then None
        else Some((Warped(h[|h| - k.0], k.0, p.warps), k.0))
      else if exists q :: q in p.updates && !Inside(b, q) then None
      else Some((Applied(b, p.clears, p.updates), 0))
  }

  /** Warps aimed at two different ticks make `peek` panic. */
  lemma NextSplitTimes(b: Board, h: seq<Board>, k: (int, Pos))
    requires Operable(b) && Collect(b, h).Some? && k in Collect(b, h).value.warps
    requires exists k' :: k' in Collect(b, h).value.warps && k'.0 != k.0
    ensures Next(b, h).None?
  {
  }

  /** Warps all aimed at the tick of `k` roll back to that tick's board with
      the warp writes. */
  lemma NextOneTime(b: Board, h: seq<Board>, k: (int, Pos))
    requires Operable(b) && Collect(b, h).Some? && k in Collect(b, h).value.warps
    requires forall k' :: k' in Collect(b, h).value.warps ==> k'.0 == k.0
    ensures 1 <= k.0 <= |h|
    ensures Next(b, h) == Some((Warped(h[|h| - k.0], k.0, Collect(b, h).value.warps), k.0))
  {
    CollectSound(b, h);
  }

  /** Without warps, and with every write on the board, `peek` gives the
      board with the plan applied. */
  lemma NextApplied(b: Board, h: seq<Board>)
    requires Operable(b) && Collect(b, h).Some? && Collect(b, h).value.warps == map[]
    requires forall q :: q in Collect(b, h).value.updates ==> Inside(b, q)
    ensures Next(b, h) == Some((Applied(b, Collect(b, h).value.clears, Collect(b, h).value.updates), 0))
  {
  }

  // ---------------------------------------------------------------------
  // What a scan collects stays collected

  /** `q` keeps every clear, write and warp of `p`. */
  predicate Extends(p: Plan, q: Plan)
  {
    (forall c :: c in p.clears ==> c in q.clears) &&
    (forall t :: t in p.updates ==> t in q.updates && q.updates[t] == p.updates[t]) &&
    (forall w :: w in p.warps ==> w in q.warps && q.warps[w] == p.warps[w])
  }

  lemma {:induction false} JumpsExtend(b: Board, i: int, j: int, k: nat, k2: nat, p: Plan)
    requires Rectangular(b) && Inside(b, (i, j)) && k <= k2 <= |Directions|
    requires Jumps(b, i, j, k2, p).Some?
    ensures Jumps(b, i, j, k, p).Some? && Extends(Jumps(b, i, j, k, p).value, Jumps(b, i, j, k2, p).value)
    decreases k2
  {
    if k < k2 {
      JumpsExtend(b, i, j, k, k2 - 1, p);
    }
  }

  /** No cell's step takes anything away from the plan. */
  lemma StepExtends(ph: Phase, b: Board, h: seq<Board>, i: int, j: int, p: Plan)
    requires Operable(b) && Inside(b, (i, j))
    requires CellStep(ph, b, h, i, j, p).Some?
    ensures Extends(p, CellStep(ph, b, h, i, j, p).value)
  {
    if ph.Moves? && b[i][j].Integer? {
      JumpsExtend(b, i, j, 0, |Directions|, p);
    }
  }

  lemma {:induction false} RowScanExtends(ph: Phase, b: Board, h: seq<Board>, i: int, j: nat, j2: nat, p: Option<Plan>)
    requires Operable(b) && 0 <= i < |b| && j <= j2 <= |b[i]|
    requires RowScan(ph, b, h, i, j2, p).Some?
    ensures RowScan(ph, b, h, i, j, p).Some?
    ensures Extends(RowScan(ph, b, h, i, j, p).value, RowScan(ph, b, h, i, j2, p).value)
    decreases j2
  {
    if j < j2 {
      var q := RowScan(ph, b, h, i, j2 - 1, p);
      StepExtends(ph, b, h, i, j2 - 1, q.value);
      RowScanExtends(ph, b, h, i, j, j2 - 1, p);
    }
  }

  lemma {:induction false} ScanExtends(ph: Phase, b: Board, h: seq<Board>, i: nat, i2: nat, p: Option<Plan>)
    requires Operable(b) && i <= i2 <= |b|
    requires Scan(ph, b, h, i2, p).Some?
    ensures Scan(ph, b, h, i, p).Some?
    ensures Extends(Scan(ph, b, h, i, p).value, Scan(ph, b, h, i2, p).value)
    decreases i2
  {
    if i < i2 {
      RowScanExtends(ph, b, h, i2 - 1, 0, |b[i2 - 1]|, Scan(ph, b, h, i2 - 1, p));
      ScanExtends(ph, b, h, i, i2 - 1, p);
    }
  }

  /** What each scan ends with is kept by the whole tick. */
  lemma {:induction false} Reaches(ph: Phase, b: Board, h: seq<Board>)
    requires Operable(b) && Collect(b, h).Some?
    ensures Scan(ph, b, h, |b|, Input(ph, b, h)).Some?
    ensures Extends(Scan(ph, b, h, |b|, Input(ph, b, h)).value, Collect(b, h).value)
    decreases 3 - Rank(ph)
  {
    match ph
    case Warps =>
    case Comparisons =>
      Reaches(Warps, b, h);
      ScanExtends(Warps, b, h, 0, |b|, Input(Warps, b, h));
    case Arithmetic =>
      Reaches(Comparisons, b, h);
      ScanExtends(Comparisons, b, h, 0, |b|, Input(Comparisons, b, h));
    case Moves =>
      Reaches(Arithmetic, b, h);
      ScanExtends(Arithmetic, b, h, 0, |b|, Input(Arithmetic, b, h));
  }

  /** The plan the scan `ph` holds when it reaches cell (i, j). */
  function Before(ph: Phase, b: Board, h: seq<Board>, i: int, j: nat): Option<Plan>
    requires Operable(b) && 0 <= i < |b| && j <= |b[i]|
  {
    RowScan(ph, b, h, i, j, Scan(ph, b, h, i, Input(ph, b, h)))
  }

  /** In a tick that does not panic, the step of every cell succeeds and
      whatever it collects is in the tick's final plan. */
  lemma StepReaches(ph: Phase, b: Board, h: seq<Board>, i: int, j: int)
    requires Operable(b) && Collect(b, h).Some? && Inside(b, (i, j))
    ensures Before(ph, b, h, i, j).Some?
    ensures CellStep(ph, b, h, i, j, Before(ph, b, h, i, j).value).Some?
    ensures Extends(CellStep(ph, b, h, i, j, Before(ph, b, h, i, j).value).value, Collect(b, h).value)
  {
    var start := Input(ph, b, h);
    Reaches(ph, b, h);
    ScanExtends(ph, b, h, i + 1, |b|, start);
    RowScanExtends(ph, b, h, i, j + 1, |b[i]|, Scan(ph, b, h, i, start));
  }

  /** A tick that does not roll back applies its plan. */
  lemma NextSettled(b: Board, h: seq<Board>)
    requires Operable(b) && Next(b, h).Some? && Next(b, h).value.1 == 0
    ensures Collect(b, h).Some? && Collect(b, h).value.warps == map[]
    ensures forall q :: q in Collect(b, h).value.updates ==> Inside(b, q)
    ensures Next(b, h).value.0 == Applied(b, Collect(b, h).value.clears, Collect(b, h).value.updates)
  {
    CollectSound(b, h);
  }

  // ---------------------------------------------------------------------
  // What one tick does

  /** The arrow next to (i, j) one step `v` away points along `v`, and the
      cell beyond it is on the board. */
  predicate Launches(b: Board, i: int, j: int, v: Pos)
    requires Rectangular(b)
  {
    var n := (i + v.0, j + v.1);
    Inside(b, n) && b[n.0][n.1].Operator? && b[n.0][n.1].op.Redirect? &&
    Vector(b[n.0][n.1].op.dir) == v && Inside(b, (n.0 + v.0, n.1 + v.1))
  }

  /** A launched integer is written two steps away and its cell cleared. */
  lemma JumpLaunch(b: Board, i: int, j: int, v: Pos, p: Plan)
    requires Rectangular(b) && Inside(b, (i, j)) && Launches(b, i, j, v)
    requires Jump(b, i, j, v, p).Some?
    ensures var q := Jump(b, i, j, v, p).value;
      (i + 2 * v.0, j + 2 * v.1) in q.updates && q.updates[(i + 2 * v.0, j + 2 * v.1)] == b[i][j] &&
      (i, j) in q.clears
  {
  }

  /** The scan around an integer launched along direction `k` writes the
      integer two steps away and clears its cell. */
  lemma JumpsLaunch(b: Board, i: int, j: int, k: nat, n: nat, p: Plan)
    requires Rectangular(b) && Inside(b, (i, j)) && k < n <= |Directions|
    requires Launches(b, i, j, Directions[k])
    requires Jumps(b, i, j, n, p).Some?
    ensures var v, q := Directions[k], Jumps(b, i, j, n, p).value;
      (i + 2 * v.0, j + 2 * v.1) in q.updates && q.updates[(i + 2 * v.0, j + 2 * v.1)] == b[i][j] &&
      (i, j) in q.clears
  {
    JumpsExtend(b, i, j, k + 1, n, p);
    var v := Directions[k];
    var q0 := Jumps(b, i, j, k, p).value;
    var q1 := Jumps(b, i, j, k + 1, p).value;
    assert Jump(b, i, j, v, q0) == Some(q1);
    JumpLaunch(b, i, j, v, q0);
    Carry(q1, Jumps(b, i, j, n, p).value, (i + 2 * v.0, j + 2 * v.1), (i, j));
  }

  /** A write and a clear of `p` survive into any extension of it. */
  lemma Carry(p: Plan, q: Plan, t: Pos, c: Pos)
    requires Extends(p, q) && t in p.updates && c in p.clears
    ensures t in q.updates && q.updates[t] == p.updates[t] && c in q.clears
  {
  }

  /** Redirect: an integer next to an arrow that points away from it along
      the same step lands two cells further on, when that cell is on the
      board; its own cell is emptied unless something else is written there. */
  lemma MoveLands(b: Board, h: seq<Board>, i: int, j: int, k: nat)
    requires Operable(b) && Inside(b, (i, j)) && b[i][j].Integer? && k < |Directions|
    requires Launches(b, i, j, Directions[k])
    requires Collect(b, h).Some?
    ensures var v, p := Directions[k], Collect(b, h).value;
      (i + 2 * v.0, j + 2 * v.1) in p.updates && p.updates[(i + 2 * v.0, j + 2 * v.1)] == b[i][j] &&
      (i, j) in p.clears
  {
    StepReaches(Moves, b, h, i, j);
    JumpsLaunch(b, i, j, k, |Directions|, Before(Moves, b, h, i, j).value);
  }

  /** Clears come before writes: after a tick that does not roll back, a
      written cell holds its write, a cleared cell that is not written is
      empty, and every other cell is unchanged. */
  lemma Settles(b: Board, h: seq<Board>, c: Pos)
    requires Operable(b) && Inside(b, c) && Next(b, h).Some? && Next(b, h).value.1 == 0
    ensures Collect(b, h).Some? && Congruent(Next(b, h).value.0, b)
    ensures var p := Collect(b, h).value;
      Next(b, h).value.0[c.0][c.1] ==
        if c in p.updates then p.updates[c] else if c in p.clears then Empty else b[c.0][c.1]
  {
    NextSettled(b, h);
  }

  /** An arithmetic operator with integer operands does not divide by zero
      in a tick that does not panic; it writes its value right and down and
      clears both operand cells. */
  lemma ArithmeticLands(b: Board, h: seq<Board>, i: int, j: int)
    requires Operable(b) && Inside(b, (i, j)) && b[i][j].Operator? && IsArithmetic(b[i][j].op)
    requires b[i][j - 1].Integer? && b[i - 1][j].Integer?
    requires Collect(b, h).Some?
    ensures Compute(b[i][j].op, b[i][j - 1].value, b[i - 1][j].value).Some?
    ensures var v, p := Compute(b[i][j].op, b[i][j - 1].value, b[i - 1][j].value).value, Collect(b, h).value;
      (i, j + 1) in p.updates && p.updates[(i, j + 1)] == Integer(v) &&
      (i + 1, j) in p.updates && p.updates[(i + 1, j)] == Integer(v) &&
      (i, j - 1) in p.clears && (i - 1, j) in p.clears
  {
    StepReaches(Arithmetic, b, h, i, j);
  }

  /** A comparison whose test holds copies its left operand down and its
      upper operand right, and clears both operand cells. */
  lemma ComparisonLands(b: Board, h: seq<Board>, i: int, j: int)
    requires Operable(b) && Inside(b, (i, j)) && b[i][j].Operator? && IsComparison(b[i][j].op)
    requires b[i][j - 1].Integer? && b[i - 1][j].Integer?
    requires (b[i][j - 1] == b[i - 1][j]) == b[i][j].op.Eq?
    requires Collect(b, h).Some?
    ensures var p := Collect(b, h).value;
      (i + 1, j) in p.updates && p.updates[(i + 1, j)] == b[i][j - 1] &&
      (i, j + 1) in p.updates && p.updates[(i, j + 1)] == b[i - 1][j] &&
      (i, j - 1) in p.clears && (i - 1, j) in p.clears
  {
    StepReaches(Comparisons, b, h, i, j);
  }

  /** A comparison whose test fails, or whose operands are not both
      integers, leaves the plan as it is. */
  lemma ComparisonIdle(b: Board, h: seq<Board>, i: int, j: int, p: Plan)
    requires Operable(b) && Inside(b, (i, j)) && b[i][j].Operator? && IsComparison(b[i][j].op)
    requires !(b[i][j - 1].Integer? && b[i - 1][j].Integer?) || (b[i][j - 1] == b[i - 1][j]) != b[i][j].op.Eq?
    ensures CellStep(Comparisons, b, h, i, j, p) == Some(p)
  {
  }

  /** The integer operands and result cells of a warp at (i, j). */
  predicate WarpFires(b: Board, i: int, j: int)
    requires Operable(b) && Inside(b, (i, j))
  {
    b[i][j] == Operator(Warp) &&
    b[i - 1][j].Integer? && b[i][j - 1].Integer? && b[i][j + 1].Integer? && b[i + 1][j].Integer? &&
    Inside(b, (i - b[i][j + 1].value, j - b[i][j - 1].value))
  }

  /** A firing warp's write is in the tick's plan. */
  lemma WarpCollected(b: Board, h: seq<Board>, i: int, j: int)
    requires Operable(b) && Inside(b, (i, j)) && WarpFires(b, i, j) && Collect(b, h).Some?
    ensures var w := (b[i + 1][j].value, (i - b[i][j + 1].value, j - b[i][j - 1].value));
      w in Collect(b, h).value.warps && Collect(b, h).value.warps[w] == b[i - 1][j].value
  {
    StepReaches(Warps, b, h, i, j);
  }

  /** A warp with integer operands whose target is on the board rolls the
      machine back by its dt and writes its value at the target. */
  lemma WarpLands(b: Board, h: seq<Board>, i: int, j: int)
    requires Operable(b) && Inside(b, (i, j)) && WarpFires(b, i, j)
    requires forall k :: 0 <= k < |h| ==> Congruent(h[k], b)
    requires Next(b, h).Some?
    ensures var dt, t := b[i + 1][j].value, (i - b[i][j + 1].value, j - b[i][j - 1].value);
      Next(b, h).value.1 == dt && OnBoard(Next(b, h).value.0, t) &&
      Next(b, h).value.0[t.0][t.1] == b[i - 1][j]
  {
    WarpCollected(b, h, i, j);
    var w := (b[i + 1][j].value, (i - b[i][j + 1].value, j - b[i][j - 1].value));
    var p := Collect(b, h).value;
    if exists k' :: k' in p.warps && k'.0 != w.0 {
      NextSplitTimes(b, h, w);
    }
    NextOneTime(b, h, w);
  }

  /** Two warps aimed at different ticks make the tick panic. */
  lemma SplitWarpPanics(b: Board, h: seq<Board>, i: int, j: int, i2: int, j2: int)
    requires Operable(b) && Inside(b, (i, j)) && Inside(b, (i2, j2))
    requires WarpFires(b, i, j) && WarpFires(b, i2, j2) && b[i + 1][j] != b[i2 + 1][j2]
    ensures Next(b, h).None?
  {
    if Collect(b, h).Some? {
      WarpCollected(b, h, i, j);
      WarpCollected(b, h, i2, j2);
      var w := (b[i + 1][j].value, (i - b[i][j + 1].value, j - b[i][j - 1].value));
      var w2 := (b[i2 + 1][j2].value, (i2 - b[i2][j2 + 1].value, j2 - b[i2][j2 - 1].value));
      assert w in Collect(b, h).value.warps && w2 in Collect(b, h).value.warps;
      NextSplitTimes(b, h, w);
    }
  }

  lemma ExtendsTrans(p: Plan, q: Plan, r: Plan)
    requires Extends(p, q) && Extends(q, r)
    ensures Extends(p, r)
  {
  }

  /** Whatever the scan collected up to and including cell (i, j) is still
      there when it reaches a later cell (i2, j2). */
  lemma OrderExtends(ph: Phase, b: Board, h: seq<Board>, i: int, j: int, i2: int, j2: nat)
    requires Operable(b) && Inside(b, (i, j)) && 0 <= i2 < |b| && j2 <= |b[i2]|
    requires i < i2 || (i == i2 && j < j2)
    requires Before(ph, b, h, i2, j2).Some?
    ensures Before(ph, b, h, i, j + 1).Some?
    ensures Extends(Before(ph, b, h, i, j + 1).value, Before(ph, b, h, i2, j2).value)
  {
    var start := Input(ph, b, h);
    if i == i2 {
      RowScanExtends(ph, b, h, i, j + 1, j2, Scan(ph, b, h, i, start));
    } else {
      RowScanExtends(ph, b, h, i2, 0, j2, Scan(ph, b, h, i2, start));
      ScanExtends(ph, b, h, i + 1, i2, start);
      RowScanExtends(ph, b, h, i, j + 1, |b[i]|, Scan(ph, b, h, i, start));
      ExtendsTrans(Before(ph, b, h, i, j + 1).value, Scan(ph, b, h, i2, start).value,
                   Before(ph, b, h, i2, j2).value);
    }
  }

  /** An integer launched onto a cell that already has a write makes the
      scan around it panic. */
  lemma JumpsBlocked(b: Board, i: int, j: int, k: nat, p: Plan)
    requires Rectangular(b) && Inside(b, (i, j)) && k < |Directions|
    requires Launches(b, i, j, Directions[k])
    requires (i + 2 * Directions[k].0, j + 2 * Directions[k].1) in p.updates
    ensures Jumps(b, i, j, |Directions|, p).None?
  {
    if Jumps(b, i, j, |Directions|, p).Some? {
      var v := Directions[k];
      JumpsExtend(b, i, j, k + 1, |Directions|, p);
      JumpsExtend(b, i, j, 0, k, p);
      var q := Jumps(b, i, j, k, p).value;
      assert (i + 2 * v.0, j + 2 * v.1) in q.updates;
      JumpBlocked(b, i, j, v, q);
    }
  }

  lemma JumpBlocked(b: Board, i: int, j: int, v: Pos, p: Plan)
    requires Rectangular(b) && Inside(b, (i, j)) && Launches(b, i, j, v)
    requires (i + 2 * v.0, j + 2 * v.1) in p.updates
    ensures Jump(b, i, j, v, p).None?
  {
  }

  /** Two integers launched onto the same cell make the tick panic. */
  lemma MovesCollide(b: Board, h: seq<Board>, i: int, j: int, k: nat, i2: int, j2: int, k2: nat)
    requires Operable(b) && Inside(b, (i, j)) && Inside(b, (i2, j2))
    requires i < i2 || (i == i2 && j < j2)
    requires b[i][j].Integer? && b[i2][j2].Integer? && k < |Directions| && k2 < |Directions|
    requires Launches(b, i, j, Directions[k]) && Launches(b, i2, j2, Directions[k2])
    requires (i + 2 * Directions[k].0, j + 2 * Directions[k].1) == (i2 + 2 * Directions[k2].0, j2 + 2 * Directions[k2].1)
    ensures Next(b, h).None?
  {
    if Collect(b, h).Some? {
      StepReaches(Moves, b, h, i2, j2);
      OrderExtends(Moves, b, h, i, j, i2, j2);
      var first := Before(Moves, b, h, i, j).value;
      JumpsLaunch(b, i, j, k, |Directions|, first);
      var t := (i + 2 * Directions[k].0, j + 2 * Directions[k].1);
      assert t in Before(Moves, b, h, i2, j2).value.updates;
      JumpsBlocked(b, i2, j2, k2, Before(Moves, b, h, i2, j2).value);
    }
  }

  /** A board without integers. */
  predicate NoIntegers(b: Board)
  {
    forall i, j :: 0 <= i < |b| && 0 <= j < |b[i]| ==> !b[i][j].Integer?
  }

  lemma {:induction false} QuietRow(ph: Phase, b: Board, h: seq<Board>, i: int, j: nat)
    requires Operable(b) && NoIntegers(b) && 0 <= i < |b| && j <= |b[i]|
    ensures RowScan(ph, b, h, i, j, Some(NoPlan)) == Some(NoPlan)
  {
    if j > 0 {
      QuietRow(ph, b, h, i, j - 1);
    }
  }

  lemma {:induction false} QuietScan(ph: Phase, b: Board, h: seq<Board>, i: nat)
    requires Operable(b) && NoIntegers(b) && i <= |b|
    ensures Scan(ph, b, h, i, Some(NoPlan)) == Some(NoPlan)
  {
    if i > 0 {
      QuietScan(ph, b, h, i - 1);
      QuietRow(ph, b, h, i - 1, |b[i - 1]|);
    }
  }

  /** Every operator needs integer operands, so a board without integers
      is stuck: the next board is the board itself. */
  lemma NoIntegersStuck(b: Board, h: seq<Board>)
    requires Operable(b) && NoIntegers(b)
    ensures Next(b, h) == Some((b, 0))
  {
    QuietScan(Moves, b, h, |b|);
    QuietScan(Arithmetic, b, h, |b|);
    QuietScan(Comparisons, b, h, |b|);
    QuietScan(Warps, b, h, |b|);
    assert Collect(b, h) == Some(NoPlan);
    BoardsEqual(Applied(b, [], map[]), b);
  }

  // ---------------------------------------------------------------------
  // Division as written and as intended

  /** As written, `Div` subtracts one from every quotient of operands of
      opposite signs, exact ones included: -4 / 2 gives -3. */
  lemma DivExactNegative()
    ensures Compute(Div, -4, 2) == Some(-3) && 2 * -2 == -4
  {
  }

  /** The floor quotient is the largest q with u * q <= l (for u > 0), and
      the smallest with u * q >= l (for u < 0). */
  lemma FloorDivBounds(l: int, u: int)
    requires u != 0
    ensures u > 0 ==> u * FloorDiv(l, u) <= l < u * FloorDiv(l, u) + u
    ensures u < 0 ==> u * FloorDiv(l, u) >= l > u * FloorDiv(l, u) + u
  {
    TruncDivMod(l, u);
    var t, m := TruncDiv(l, u), TruncMod(l, u);
    assert l == u * t + m;
    if l * u < 0 && m != 0 {
      assert u * (t - 1) == u * t - u;
    }
  }

  /** The correction changes only the exact quotients of operands of
      opposite signs. */
  lemma ComputeFixedAgrees(op: Operator, l: int, u: int)
    requires IsArithmetic(op)
    ensures ComputeFixed(op, l, u) != Compute(op, l, u) <==>
      op.Div? && u != 0 && l * u < 0 && TruncMod(l, u) == 0
  {
  }

  // ---------------------------------------------------------------------
  // Rollback as written and as intended

  /** A firing warp whose value differs from what the board holds at its
      target: `peek` reports a rollback and a board holding the value there,
      a board that `tick` then drops (it keeps the old board). */
  lemma WarpDropped(b: Board, h: seq<Board>, i: int, j: int)
    requires Operable(b) && Inside(b, (i, j)) && WarpFires(b, i, j)
    requires forall k :: 0 <= k < |h| ==> Congruent(h[k], b)
    requires Next(b, h).Some?
    requires var t := (i - b[i][j + 1].value, j - b[i][j - 1].value); b[t.0][t.1] != b[i - 1][j]
    ensures Next(b, h).value.1 > 0 && Next(b, h).value.0 != b
  {
    WarpLands(b, h, i, j);
    CollectSound(b, h);
    WarpCollected(b, h, i, j);
  }

  /** `b` comes from `a` by clearing cells and writing integers: every
      operator cell of `b` is the same operator cell of `a`. */
  predicate Keeps(a: Board, b: Board)
  {
    Congruent(b, a) &&
    forall i, j :: 0 <= i < |b| && 0 <= j < |b[i]| && b[i][j].Operator? ==> b[i][j] == a[i][j]
  }

  lemma KeepsOperable(a: Board, b: Board)
    requires Operable(a) && Keeps(a, b)
    ensures Operable(b)
  {
  }

  /** A tick that does not panic gives a board of the same shape that can
      be scanned again, and rolls back by at most the recorded history. */
  lemma NextShape(b: Board, h: seq<Board>)
    requires Operable(b)
    requires forall k :: 0 <= k < |h| ==> Operable(h[k]) && Congruent(h[k], b)
    ensures Next(b, h).Some? ==>
      0 <= Next(b, h).value.1 <= |h| && Operable(Next(b, h).value.0) && Congruent(Next(b, h).value.0, b)
  {
    CollectSound(b, h);
    if Collect(b, h).Some? && Next(b, h).Some? {
      var p := Collect(b, h).value;
      var (nb, dt) := Next(b, h).value;
      if p.warps != map[] {
        var k :| k in p.warps;
        NextOneTime(b, h, k);
        var past := h[|h| - k.0];
        assert Keeps(past, nb);
        KeepsOperable(past, nb);
      } else {
        NextApplied(b, h);
        assert Keeps(b, nb);
        KeepsOperable(b, nb);
      }
    }
  }

  /** Warps all aimed at the tick of `k` write inside the board recorded
      for that tick. */
  lemma WarpTargets(b: Board, h: seq<Board>, k: (int, Pos))
    requires Operable(b) && Collect(b, h).Some? && k in Collect(b, h).value.warps
    requires forall k' :: k' in Collect(b, h).value.warps ==> k'.0 == k.0
    requires forall n :: 0 <= n < |h| ==> Congruent(h[n], b)
    ensures 1 <= k.0 <= |h|
    ensures forall w :: w in Collect(b, h).value.warps ==> w.0 == k.0 && OnBoard(h[|h| - k.0], w.1)
  {
    CollectSound(b, h);
    assert Congruent(h[|h| - k.0], b);
  }

  /** The board `new` is given has its submit cell at `pos`. */
  predicate OnBoard(b: Board, pos: Pos)
  {
    0 <= pos.0 < |b| && 0 <= pos.1 < |b[pos.0]|
  }

  /** Same rows, each of the same length. */
  predicate Congruent(a: Board, b: Board)
  {
    |a| == |b| && forall i :: 0 <= i < |a| ==> |a[i]| == |b[i]|
  }

  /** Boards of one shape as a history of `a` stay one for a board of the
      same shape as `a`. */
  lemma CongruentHistory(h: seq<Board>, a: Board, b: Board, pos: Pos)
    requires Congruent(b, a) && OnBoard(a, pos)
    requires forall k :: 0 <= k < |h| ==> Congruent(h[k], a)
    ensures OnBoard(b, pos) && forall k :: 0 <= k < |h| ==> Congruent(h[k], b)
  {
  }

  /** `is_finished`: the submit cell holds an integer, so a board without
      integers is never finished. */
  predicate Finished(b: Board, pos: Pos)
    ensures Finished(b, pos) ==> !NoIntegers(b)
  {
    OnBoard(b, pos) && b[pos.0][pos.1].Integer?
  }

  // ---------------------------------------------------------------------
  // Executable parts of `peek`

  /** The clearing loop and then the writing loop at the end of `peek`,
      in place on a copy of the board. */
  method Apply(b: Board, clears: seq<Pos>, u: map<Pos, Token>) returns (nb: Board)
    requires Rectangular(b)
    requires forall k :: 0 <= k < |clears| ==> Inside(b, clears[k])
    requires forall q :: q in u ==> Inside(b, q)
    ensures nb == Applied(b, clears, u)
  {
    nb := ClearAll(b, clears);
    nb := WriteAll(b, clears, nb, u);
  }

  /** The clearing loop. */
  method ClearAll(b: Board, clears: seq<Pos>) returns (nb: Board)
    requires Rectangular(b)
    requires forall k :: 0 <= k < |clears| ==> Inside(b, clears[k])
    ensures Congruent(nb, b)
    ensures forall i, j :: 0 <= i < |nb| && 0 <= j < |nb[i]| ==>
      nb[i][j] == if (i, j) in clears then Empty else b[i][j]
  {
    nb := b;
    for k := 0 to |clears|
      invariant Congruent(nb, b)
      invariant forall i, j :: 0 <= i < |nb| && 0 <= j < |nb[i]| ==>
        nb[i][j] == if (i, j) in clears[..k] then Empty else b[i][j]
    {
      var c := clears[k];
      nb := nb[c.0 := nb[c.0][c.1 := Empty]];
    }
    assert clears[..|clears|] == clears;
  }

  /** The writing loop, over the cleared board `nb`. */
  method WriteAll(b: Board, clears: seq<Pos>, nb0: Board, u: map<Pos, Token>) returns (nb: Board)
    requires Rectangular(b) && Congruent(nb0, b)
    requires forall i, j :: 0 <= i < |nb0| && 0 <= j < |nb0[i]| ==>
      nb0[i][j] == if (i, j) in clears then Empty else b[i][j]
    requires forall q :: q in u ==> Inside(b, q)
    ensures nb == Applied(b, clears, u)
  {
    nb := nb0;
    var todo := u.Keys;
    while todo != {}
      invariant todo <= u.Keys
      invariant Congruent(nb, b)
      invariant forall i, j :: 0 <= i < |nb| && 0 <= j < |nb[i]| ==>
        nb[i][j] == if (i, j) in u && (i, j) !in todo then u[(i, j)]
                    else if (i, j) in clears then Empty else b[i][j]
      decreases |todo|
    {
      var q :| q in todo;
      nb := nb[q.0 := nb[q.0][q.1 := u[q]]];
      todo := todo - {q};
    }
    BoardsEqual(nb, Applied(b, clears, u));
  }

  /** The writing loop of the warp branch of `peek`, on a copy of the past
      board. */
  method WriteWarps(past: Board, dt: int, w: map<(int, Pos), int>) returns (nb: Board)
    requires forall k :: k in w ==> k.0 == dt && OnBoard(past, k.1)
    ensures nb == Warped(past, dt, w)
  {
    nb := past;
    var todo := w.Keys;
    while todo != {}
      invariant todo <= w.Keys
      invariant Congruent(nb, past)
      invariant forall i, j :: 0 <= i < |nb| && 0 <= j < |nb[i]| ==>
        nb[i][j] == if (dt, (i, j)) in w && (dt, (i, j)) !in todo then Integer(w[(dt, (i, j))]) else past[i][j]
      decreases |todo|
    {
      var k :| k in todo;
      nb := nb[k.1.0 := nb[k.1.0][k.1.1 := Integer(w[k])]];
      todo := todo - {k};
    }
    BoardsEqual(nb, Warped(past, dt, w));
  }

  lemma BoardsEqual(a: Board, b: Board)
    requires Congruent(a, b)
    requires forall i, j :: 0 <= i < |a| && 0 <= j < |a[i]| ==> a[i][j] == b[i][j]
    ensures a == b
  {
    forall i | 0 <= i < |a|
      ensures a[i] == b[i]
    {
      assert forall j :: 0 <= j < |a[i]| ==> a[i][j] == b[i][j];
    }
  }

  /** `Emulator::new`'s search: the first submit cell in row-major order,
      `None` for the `unwrap` on a board without one. */
  function FirstSubmit(b: Board): (r: Option<Pos>)
    ensures r.Some? ==> OnBoard(b, r.value) && b[r.value.0][r.value.1] == Operator(Submit)
    ensures r.Some? ==> forall i, j :: 0 <= i < |b| && 0 <= j < |b[i]| && (i < r.value.0 || (i == r.value.0 && j < r.value.1))
                          ==> b[i][j] != Operator(Submit)
    ensures r.None? <==> forall i, j :: 0 <= i < |b| && 0 <= j < |b[i]| ==> b[i][j] != Operator(Submit)
  {
    SubmitFrom(b, 0)
  }

  /** The first submit cell among rows `i..`. */
  function SubmitFrom(b: Board, i: nat): (r: Option<Pos>)
    requires i <= |b|
    ensures r.Some? ==> i <= r.value.0 && OnBoard(b, r.value) && b[r.value.0][r.value.1] == Operator(Submit)
    ensures r.Some? ==> forall i', j :: i <= i' < |b| && 0 <= j < |b[i']| && (i' < r.value.0 || (i' == r.value.0 && j < r.value.1))
                          ==> b[i'][j] != Operator(Submit)
    ensures r.None? <==> forall i', j :: i <= i' < |b| && 0 <= j < |b[i']| ==> b[i'][j] != Operator(Submit)
    decreases |b| - i
  {
    if i == |b| then None
    else match SubmitInRow(b[i], 0)
      case Some(j) => Some((i, j))
      case None => SubmitFrom(b, i + 1)
  }

  /** The first submit cell among cells `j..` of a row. */
  function SubmitInRow(row: seq<Token>, j: nat): (r: Option<nat>)
    requires j <= |row|
    ensures r.Some? ==> j <= r.value < |row| && row[r.value] == Operator(Submit)
    ensures r.Some? ==> forall k :: j <= k < r.value ==> row[k] != Operator(Submit)
    ensures r.None? <==> forall k :: j <= k < |row| ==> row[k] != Operator(Submit)
    decreases |row| - j
  {
    if j == |row| then None
    else if row[j] == Operator(Submit) then Some(j)
    else SubmitInRow(row, j + 1)
  }

  // ---------------------------------------------------------------------
  // The machine

  class Emulator {
    var board: Board
    var submitPos: Pos
    var tickCount: int
    var history: seq<Board>

    /** The submit cell is on the board and every recorded board has the
        board's shape and can be scanned. */
    ghost predicate Valid()
      reads this
    {
      OnBoard(board, submitPos) &&
      forall k :: 0 <= k < |history| ==> Operable(history[k]) && Congruent(history[k], board)
    }

    constructor Init(board: Board, submitPos: Pos)
      requires OnBoard(board, submitPos)
      ensures this.board == board && this.submitPos == submitPos
      ensures tickCount == 1 && history == []
      ensures Valid()
    {
      this.board := board;
      this.submitPos := submitPos;
      tickCount := 1;
      history := [];
    }

    /** `Emulator::new`: `None` is the panic on a board without a submit
        cell. */
    static method New(board: Board) returns (r: Option<Emulator>)
      ensures r.None? <==> FirstSubmit(board).None?
      ensures r.Some? ==> fresh(r.value) && r.value.Valid()
      ensures r.Some? ==> r.value.board == board && r.value.submitPos == FirstSubmit(board).value
      ensures r.Some? ==> r.value.tickCount == 1 && r.value.history == []
    {
      var pos := FirstSubmit(board);
      if pos.None? {
        return None;
      }
      var e := new Emulator.Init(board, pos.value);
      return Some(e);
    }

    /** `get_history`: the board recorded `n` ticks back; the source's
        `len - n` index needs 1 <= n <= len. */
    function GetHistory(n: int): (r: Board)
      reads this
      requires 1 <= n <= |history|
      ensures r == history[|history| - n]
    {
      history[|history| - n]
    }

    /** `tick`: counts the tick and peeks. On a rollback it cuts the
        history back and turns the counter back, leaving the board as it
        was; otherwise the next board becomes the board, is recorded, and the
        result says whether the submit cell holds an integer. `None` is a
        panic of `peek`. */
    method Tick() returns (r: Option<bool>)
      requires Valid() && Operable(board)
      modifies this
      ensures Valid() && Operable(board) && submitPos == old(submitPos)
      ensures Next(old(board), old(history)).None? ==>
        r.None? && board == old(board) && history == old(history) && tickCount == old(tickCount) + 1
      ensures Next(old(board), old(history)).Some? && Next(old(board), old(history)).value.1 > 0 ==>
        var dt := Next(old(board), old(history)).value.1;
        r == Some(false) && board == old(board) && dt <= |old(history)| &&
        history == old(history)[..|old(history)| - dt + 1] && tickCount == old(tickCount) - dt
      ensures Next(old(board), old(history)).Some? && Next(old(board), old(history)).value.1 == 0 ==>
        var nb := Next(old(board), old(history)).value.0;
        board == nb && history == old(history) + [nb] && tickCount == old(tickCount) + 1 &&
        r == Some(Finished(nb, submitPos))
    {
      tickCount := tickCount + 1;
      var next := Peek();
      NextShape(board, history);
      if next.None? {
        return None;
      }
      var (nb, rollback) := next.value;
      if rollback > 0 {
        history := history[..|history| - rollback + 1];
        tickCount := tickCount - (rollback + 1);
        return Some(false);
      }
      board := nb;
      history := history + [board];
      r := Some(Finished(board, submitPos));
    }

    /** `tick` as evidently intended: a rollback also makes the board
        peeked at -- the past board with the warp writes -- the board. */
    method TickFixed() returns (r: Option<bool>)
      requires Valid() && Operable(board)
      modifies this
      ensures Valid() && Operable(board) && submitPos == old(submitPos)
      ensures Next(old(board), old(history)).None? ==>
        r.None? && board == old(board) && history == old(history) && tickCount == old(tickCount) + 1
      ensures Next(old(board), old(history)).Some? && Next(old(board), old(history)).value.1 > 0 ==>
        var dt := Next(old(board), old(history)).value.1;
        r == Some(false) && board == Next(old(board), old(history)).value.0 && dt <= |old(history)| &&
        history == old(history)[..|old(history)| - dt + 1] && tickCount == old(tickCount) - dt
      ensures Next(old(board), old(history)).Some? && Next(old(board), old(history)).value.1 == 0 ==>
        var nb := Next(old(board), old(history)).value.0;
        board == nb && history == old(history) + [nb] && tickCount == old(tickCount) + 1 &&
        r == Some(Finished(nb, submitPos))
    {
      tickCount := tickCount + 1;
      var next := Peek();
      NextShape(board, history);
      if next.None? {
        return None;
      }
      var (nb, rollback) := next.value;
      CongruentHistory(history, board, nb, submitPos);
      board := nb;
      if rollback > 0 {
        history := history[..|history| - rollback + 1];
        tickCount := tickCount - (rollback + 1);
        return Some(false);
      }
      history := history + [board];
      r := Some(Finished(board, submitPos));
    }

    /** `is_stuck`: whether peeking gives the board back unchanged. */
    method IsStuck() returns (r: Option<bool>)
      requires Valid() && Operable(board)
      ensures r.None? <==> Next(board, history).None?
      ensures r.Some? ==> (r.value <==> Next(board, history).value.0 == board)
    {
      var next := Peek();
      if next.None? {
        return None;
      }
      return Some(next.value.0 == board);
    }

    /** One of the four scans of `peek`, row by row and cell by cell. */
    method RunScan(ph: Phase, p0: Option<Plan>) returns (p: Option<Plan>)
      requires Operable(board)
      ensures p == Scan(ph, board, history, |board|, p0)
    {
      p := p0;
      for i := 0 to |board|
        invariant p == Scan(ph, board, history, i, p0)
      {
        ghost var start := p;
        for j := 0 to |board[i]|
          invariant p == RowScan(ph, board, history, i, j, start)
        {
          if p.Some? {
            if ph.Moves? && board[i][j].Integer? {
              p := JumpAround(i, j, p.value);
            } else {
              p := CellStep(ph, board, history, i, j, p.value);
            }
          }
        }
      }
    }

    /** The loop over the four neighbours of an integer. */
    method JumpAround(i: int, j: int, p0: Plan) returns (p: Option<Plan>)
      requires Rectangular(board) && Inside(board, (i, j))
      ensures p == Jumps(board, i, j, |Directions|, p0)
    {
      p := Some(p0);
      for k := 0 to |Directions|
        invariant p == Jumps(board, i, j, k, p0)
      {
        if p.Some? {
          p := Jump(board, i, j, Directions[k], p.value);
        }
      }
    }

    /** `peek`: computes the next board and the rollback without changing
        anything. */
    method Peek() returns (r: Option<(Board, int)>)
      requires Valid() && Operable(board)
      ensures r == Next(board, history)
    {
      var p := RunScan(Moves, Some(NoPlan));
      p := RunScan(Arithmetic, p);
      p := RunScan(Comparisons, p);
      p := RunScan(Warps, p);
      if p.None? {
        return None;
      }
      r := Settle(p.value);
    }

    /** The end of `peek`, once the four scans have collected `plan`: the
        warp decision, or the clears and writes on a copy of the board. */
    method Settle(plan: Plan) returns (r: Option<(Board, int)>)
      requires Valid() && Operable(board) && Collect(board, history) == Some(plan)
      ensures r == Next(board, history)
    {
      if plan.warps != map[] {
        r := TravelBack(plan);
      } else {
        r := Land(plan);
      }
    }

    /** The warp branch: one tick aimed at, or a panic. */
    method TravelBack(plan: Plan) returns (r: Option<(Board, int)>)
      requires Valid() && Operable(board) && Collect(board, history) == Some(plan)
      requires plan.warps != map[]
      ensures r == Next(board, history)
    {
      var b, h := board, history;
      CollectSound(b, h);
      var k :| k in plan.warps;
      if exists k' :: k' in plan.warps && k'.0 != k.0 {
        NextSplitTimes(b, h, k);
        r := None;
      } else {
        WarpTargets(b, h, k);
        var past := GetHistory(k.0);
        var nb := WriteWarps(past, k.0, plan.warps);
        NextOneTime(b, h, k);
        r := Some((nb, k.0));
      }
    }

    /** The branch without warps: every write must land on the board. */
    method Land(plan: Plan) returns (r: Option<(Board, int)>)
      requires Operable(board) && Collect(board, history) == Some(plan)
      requires plan.warps == map[]
      ensures r == Next(board, history)
    {
      CollectSound(board, history);
      if exists q :: q in plan.updates && !Inside(board, q) {
        return None;
      }
      var nb := Apply(board, plan.clears, plan.updates);
      NextApplied(board, history);
      return Some((nb, 0));
    }
  }
}
