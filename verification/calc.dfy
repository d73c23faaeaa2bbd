/** The formula evaluator: a recursive-descent parser over the formula text that computes as
    it parses.  Levels, loosest first: sums, products, signed factors, primaries (numbers,
    parentheses, cell references, function calls).  Function arguments are cut out of the text
    by a nesting-aware scanner and evaluated by a fresh sub-parser; an argument `A1:B3` whose
    two ends are cell references stands for every cell of that rectangle.  Cell references are
    turned into values by a resolver the caller supplies. */
module Calc {
  import opened Text
  import opened Grid
  import opened Numeric

  /** The error codes a formula can produce; no code means success. */
  datatype ErrCode = Ref | DivZero | Cycle | Generic

  /** The text shown for an error code. */
  function Code(e: ErrCode): (r: string)
    ensures |r| > 1 && r[0] == '#'
  {
    match e
    case Ref => "#REF"
    case DivZero => "#DIV/0"
    case Cycle => "#CYCLE"
    case Generic => "#ERR"
  }

  /** A value or the error that replaced it. */
  datatype Val = Num(v: real) | Fail(code: ErrCode)

  /** Turns a cell name into its value. */
  type Resolver = string -> Val

  /** Where AND and OR put the cursor once an argument has decided the result: at the first
      `)` that follows, at whatever depth (the rule the program applies), or at the `)` that
      closes the call (see the findings in the README). */
  datatype SkipRule = FirstClose | MatchingClose

  datatype Env = Env(resolve: Resolver, skip: SkipRule)

  /** A parsed value with the position after it, or the error that stopped the parse. */
  datatype Parsed = Ok(v: real, pos: nat) | Err(code: ErrCode)

  /** What a sub-parser made of a whole argument text. */
  datatype SubOutcome = Value(v: real) | Failed(code: ErrCode) | Trailing

  /** The values one argument contributes to a list function, or the error that aborts it. */
  datatype Items = Items(xs: seq<real>) | Aborted(code: ErrCode)

  /** The values of a whole argument list with the position after its `)`, or an error. */
  datatype Gathered = Gathered(vs: seq<real>, pos: nat) | Stopped(code: ErrCode)

  predicate IsBlank(c: char) {
    c == ' ' || c == '\t'
  }

  /** The parser skips blanks and tabs only. */
  function SkipSpaces(s: string, p: nat): (q: nat)
    requires p <= |s|
    ensures p <= q <= |s|
    ensures q < |s| ==> !IsBlank(s[q])
    decreases |s| - p
  {
    if p < |s| && IsBlank(s[p]) then SkipSpaces(s, p + 1) else p
  }

  /** The end of a numeral starting at `j`: digits, one `.` before any exponent, one `e` or `E`
      optionally followed by a sign. */
  function NumberEnd(s: string, j: nat, seenDot: bool, seenE: bool): (r: nat)
    requires j <= |s|
    ensures j <= r <= |s|
    decreases |s| - j
  {
    if j >= |s| then j
    else if IsDigit(s[j]) then NumberEnd(s, j + 1, seenDot, seenE)
    else if s[j] == '.' then
      if seenDot || seenE then j else NumberEnd(s, j + 1, true, seenE)
    else if s[j] == 'e' || s[j] == 'E' then
      if seenE then j
      else
        var k := if j + 1 < |s| && (s[j + 1] == '+' || s[j + 1] == '-') then j + 2 else j + 1;
        NumberEnd(s, k, seenDot, true)
    else j
  }

  /** The end of the run of letters starting at `j`. */
  function LetterRun(s: string, j: nat): (r: nat)
    requires j <= |s|
    ensures j <= r <= |s|
    ensures r < |s| ==> !IsLetter(s[r])
    decreases |s| - j
  {
    if j < |s| && IsLetter(s[j]) then LetterRun(s, j + 1) else j
  }

  /** The nesting-aware scanner: from `i` at depth `nest`, the first `)` at depth zero or, when
      `commas` is set, the first `,` at depth zero; the end of the text if there is neither. */
  function Scan(s: string, i: nat, nest: nat, commas: bool): (j: nat)
    requires i <= |s|
    ensures i <= j <= |s|
    ensures j < |s| ==> s[j] == ')' || (commas && s[j] == ',')
    decreases |s| - i
  {
    if i >= |s| then i
    else if s[i] == '(' then Scan(s, i + 1, nest + 1, commas)
    else if s[i] == ')' then
      if nest == 0 then i else Scan(s, i + 1, nest - 1, commas)
    else if commas && s[i] == ',' && nest == 0 then i
    else Scan(s, i + 1, nest, commas)
  }

  /** The end of the argument that starts at `i`: its `,` or `)`, or the end of the text. */
  function ArgEnd(s: string, i: nat): (j: nat)
    requires i <= |s|
    ensures i <= j <= |s|
    ensures j < |s| ==> s[j] == ',' || s[j] == ')'
  {
    Scan(s, i, 0, true)
  }

  /** The first `)` at or after `i`, whatever its depth, or the end of the text. */
  function FirstCloseFrom(s: string, i: nat): (j: nat)
    requires i <= |s|
    ensures i <= j <= |s|
    ensures j < |s| ==> s[j] == ')'
    ensures forall k :: i <= k < j ==> s[k] != ')'
    decreases |s| - i
  {
    if i >= |s| || s[i] == ')' then i else FirstCloseFrom(s, i + 1)
  }

  function SkipTarget(s: string, i: nat, rule: SkipRule): (j: nat)
    requires i <= |s|
    ensures i <= j <= |s|
  {
    match rule
    case FirstClose => FirstCloseFrom(s, i)
    case MatchingClose => Scan(s, i, 0, false)
  }

  /** Where the text from `p` to `j` starts once leading white space is dropped. */
  function TrimStart(s: string, p: nat, j: nat): (a: nat)
    requires p <= j <= |s|
    ensures p <= a <= j
    decreases j - p
  {
    if p < j && IsSpace(s[p]) then TrimStart(s, p + 1, j) else p
  }

  /** Where the text from `a` to `j` ends once trailing white space is dropped. */
  function TrimEnd(s: string, a: nat, j: nat): (b: nat)
    requires a <= j <= |s|
    ensures a <= b <= j
    decreases j - a
  {
    if a < j && IsSpace(s[j - 1]) then TrimEnd(s, a, j - 1) else j
  }

  /** The argument text from `p` to `j` with surrounding white space trimmed. */
  function ArgText(s: string, p: nat, j: nat): string
    requires p <= j <= |s|
  {
    var a := TrimStart(s, p, j);
    s[a..TrimEnd(s, a, j)]
  }

  lemma {:induction false} TrimStartLeading(s: string, p: nat, j: nat)
    requires p <= j <= |s|
    ensures TrimStart(s, p, j) == p + LeadingSpaces(s[p..j])
    decreases j - p
  {
    if p < j {
      assert s[p..j][0] == s[p] && s[p..j][1..] == s[p + 1..j];
      TrimStartLeading(s, p + 1, j);
    }
  }

  lemma {:induction false} TrimEndTrailing(s: string, a: nat, j: nat)
    requires a <= j <= |s|
    ensures TrimEnd(s, a, j) == a + TrailingStart(s[a..j])
    decreases j - a
  {
    if a < j {
      assert s[a..j][j - a - 1] == s[j - 1] && s[a..j][..j - a - 1] == s[a..j - 1];
      TrimEndTrailing(s, a, j - 1);
    }
  }

  /** Trimming by positions cuts out what `strings.TrimSpace` leaves of the text. */
  lemma ArgTextTrims(s: string, p: nat, j: nat)
    requires p <= j <= |s|
    ensures ArgText(s, p, j) == TrimSpace(s[p..j])
  {
    var a := TrimStart(s, p, j);
    var t := s[p..j];
    assert a == p + LeadingSpaces(t) by { TrimStartLeading(s, p, j); }
    var b := TrimEnd(s, a, j);
    assert b == a + TrailingStart(s[a..j]) by { TrimEndTrailing(s, a, j); }
    assert t[LeadingSpaces(t)..] == s[a..j];
    assert s[a..j][..b - a] == s[a..b];
  }

  function Min(a: int, b: int): (r: int)
    ensures r <= a && r <= b && (r == a || r == b)
  {
    if a < b then a else b
  }

  function Max(a: int, b: int): (r: int)
    ensures r >= a && r >= b && (r == a || r == b)
  {
    if a > b then a else b
  }

  /** The cells of row `r`, columns `c` to `cmax`, left to right. */
  function RowCells(r: int, c: int, cmax: int): (cells: seq<Coord>)
    ensures |cells| == if c <= cmax then cmax - c + 1 else 0
    ensures forall k :: 0 <= k < |cells| ==> cells[k] == (r, c + k)
    decreases cmax - c
  {
    if c > cmax then [] else [(r, c)] + RowCells(r, c + 1, cmax)
  }

  /** The cells of rows `r` to `rmax`, columns `cmin` to `cmax`, in row-major order. */
  function BlockCells(r: int, rmax: int, cmin: int, cmax: int): seq<Coord>
    decreases rmax - r
  {
    if r > rmax then [] else RowCells(r, cmin, cmax) + BlockCells(r + 1, rmax, cmin, cmax)
  }

  /** The rectangle spanned by two corners, whichever way round they are given. */
  function RangeCells(a: Coord, b: Coord): seq<Coord>
  {
    BlockCells(Min(a.0, b.0), Max(a.0, b.0), Min(a.1, b.1), Max(a.1, b.1))
  }

  /** The value a range cell contributes: the resolver's answer for the cell's name. */
  function CellLookup(resolve: Resolver): Coord -> Val {
    (k: Coord) => resolve(ColRowToName(k.1, k.0))
  }

  /** The values of the cells in order; the first cell whose value is an error aborts. */
  function ResolveAll(cells: seq<Coord>, value: Coord -> Val): (r: Items)
    ensures r.Items? ==> |r.xs| == |cells|
  {
    if |cells| == 0 then Items([])
    else
      match value(cells[0])
      case Fail(e) => Aborted(e)
      case Num(v) =>
        match ResolveAll(cells[1..], value)
        case Aborted(e) => Aborted(e)
        case Items(rest) => Items([v] + rest)
  }

  /** COUNT over a range: a mark for every cell whose value is a number or `#CYCLE`. */
  function CountCells(cells: seq<Coord>, value: Coord -> Val): (r: seq<real>)
    ensures |r| <= |cells|
  {
    if |cells| == 0 then []
    else
      var v := value(cells[0]);
      var rest := CountCells(cells[1..], value);
      if v.Num? || v.code == Cycle then [1.0] + rest else rest
  }

  /** The corners of a range argument: the text before and after its first `:`, both parsed as
      cell references; `None` when either fails. */
  function RangeCorners(arg: string): (r: Option<(Coord, Coord)>)
  {
    var c := FirstIndex(arg, ':');
    if c == |arg| then None
    else
      match (ParseCellRef(TrimSpace(arg[..c])), ParseCellRef(TrimSpace(arg[c + 1..])))
      case (Some(a), Some(b)) => Some((a, b))
      case _ => None
  }

  function Sum(vs: seq<real>): real
  {
    if |vs| == 0 then 0.0 else Sum(vs[..|vs| - 1]) + vs[|vs| - 1]
  }

  function MinOf(vs: seq<real>): (m: real)
    requires |vs| > 0
    ensures m in vs && forall k :: 0 <= k < |vs| ==> m <= vs[k]
  {
    if |vs| == 1 then vs[0]
    else
      var m := MinOf(vs[..|vs| - 1]);
      if vs[|vs| - 1] < m then vs[|vs| - 1] else m
  }

  function MaxOf(vs: seq<real>): (m: real)
    requires |vs| > 0
    ensures m in vs && forall k :: 0 <= k < |vs| ==> m >= vs[k]
  {
    if |vs| == 1 then vs[0]
    else
      var m := MaxOf(vs[..|vs| - 1]);
      if vs[|vs| - 1] > m then vs[|vs| - 1] else m
  }

  /** The result of a list function over the collected values. */
  function Reduce(name: string, vs: seq<real>): real
  {
    if name == "SUM" then Sum(vs)
    else if name == "AVERAGE" then (if |vs| == 0 then 0.0 else Sum(vs) / (|vs| as real))
    else if name == "MIN" then (if |vs| == 0 then 0.0 else MinOf(vs))
    else if name == "MAX" then (if |vs| == 0 then 0.0 else MaxOf(vs))
    else |vs| as real
  }

  function IsListFunction(name: string): bool {
    name == "SUM" || name == "AVERAGE" || name == "MIN" || name == "MAX" || name == "COUNT"
  }

  /** Truth of a value for AND, OR and NOT: false when within the tolerance of zero. */
  predicate NearZero(v: real) {
    Abs(v) < Epsilon
  }

  // ---------------------------------------------------------------------------------------
  // The parser.  Every function takes the whole text and a position; the decreasing measure
  // is (length of the text, distance to its end, level).

  /** `EvalExprForCell`: the value of a whole formula text; unconsumed text is `#ERR`. */
  function EvalExprForCell(expr: string, env: Env): (r: Val)
    decreases |expr|, |expr| + 2, 0
  {
    match Sub(expr, env)
    case Value(v) => Num(v)
    case Failed(e) => Fail(e)
    case Trailing => Fail(Generic)
  }

  /** A sub-parser run over the whole of `t`. */
  function Sub(t: string, env: Env): (r: SubOutcome)
    decreases |t|, |t| + 1, 0
  {
    match AddSub(t, 0, env)
    case Err(e) => Failed(e)
    case Ok(v, q) => if SkipSpaces(t, q) < |t| then Trailing else Value(v)
  }

  function AddSub(s: string, p: nat, env: Env): (r: Parsed)
    requires p <= |s|
    ensures r.Ok? ==> p < r.pos <= |s|
    decreases |s|, |s| - p, 9
  {
    match MulDiv(s, p, env)
    case Err(e) => Err(e)
    case Ok(v, q) => AddSubRest(s, q, v, env)
  }

  /** The loop of `parseAddSub`: further `+` and `-` terms folded into `acc`, left to right. */
  function AddSubRest(s: string, p: nat, acc: real, env: Env): (r: Parsed)
    requires p <= |s|
    ensures r.Ok? ==> p <= r.pos <= |s|
    decreases |s|, |s| - p, 9
  {
    var q := SkipSpaces(s, p);
    if q >= |s| || (s[q] != '+' && s[q] != '-') then Ok(acc, q)
    else
      match MulDiv(s, q + 1, env)
      case Err(e) => Err(e)
      case Ok(right, q2) => AddSubRest(s, q2, if s[q] == '+' then Addition(acc, right) else Difference(acc, right), env)
  }

  function MulDiv(s: string, p: nat, env: Env): (r: Parsed)
    requires p <= |s|
    ensures r.Ok? ==> p < r.pos <= |s|
    decreases |s|, |s| - p, 8
  {
    match Factor(s, p, env)
    case Err(e) => Err(e)
    case Ok(v, q) => MulDivRest(s, q, v, env)
  }

  /** The loop of `parseMulDiv`: further `*` and `/` factors folded into `acc`, left to right;
      a divisor within the tolerance of zero is `#DIV/0`. */
  function MulDivRest(s: string, p: nat, acc: real, env: Env): (r: Parsed)
    requires p <= |s|
    ensures r.Ok? ==> p <= r.pos <= |s|
    decreases |s|, |s| - p, 8
  {
    var q := SkipSpaces(s, p);
    if q >= |s| || (s[q] != '*' && s[q] != '/') then Ok(acc, q)
    else
      match Factor(s, q + 1, env)
      case Err(e) => Err(e)
      case Ok(right, q2) =>
        if s[q] == '*' then MulDivRest(s, q2, Product(acc, right), env)
        else if Abs(right) < Epsilon then Err(DivZero)
        else MulDivRest(s, q2, Quotient(acc, right), env)
  }

  function Addition(a: real, b: real): real {
    a + b
  }

  function Difference(a: real, b: real): real {
    a - b
  }

  function Product(a: real, b: real): real {
    a * b
  }

  function Quotient(a: real, b: real): real
    requires b != 0.0
  {
    a / b
  }

  /** Unary signs, any number of them, then a primary. */
  function Factor(s: string, p: nat, env: Env): (r: Parsed)
    requires p <= |s|
    ensures r.Ok? ==> p < r.pos <= |s|
    decreases |s|, |s| - p, 7
  {
    var q := SkipSpaces(s, p);
    if q < |s| && s[q] == '+' then Factor(s, q + 1, env)
    else if q < |s| && s[q] == '-' then
      match Factor(s, q + 1, env)
      case Err(e) => Err(e)
      case Ok(v, q2) => Ok(-v, q2)
    else Primary(s, q, env)
  }

  function Primary(s: string, p: nat, env: Env): (r: Parsed)
    requires p <= |s|
    ensures r.Ok? ==> p < r.pos <= |s|
    decreases |s|, |s| - p, 6
  {
    var q := SkipSpaces(s, p);
    if q >= |s| then Err(Generic) else PrimaryAt(s, q, env)
  }

  /** A primary that starts at `q`, past any blanks. */
  function PrimaryAt(s: string, q: nat, env: Env): (r: Parsed)
    requires q < |s|
    ensures r.Ok? ==> q < r.pos <= |s|
    decreases |s|, |s| - q, 5
  {
    if s[q] == '(' then
      match AddSub(s, q + 1, env)
      case Err(e) => Err(e)
      case Ok(v, q2) =>
        var q3 := SkipSpaces(s, q2);
        if q3 >= |s| || s[q3] != ')' then Err(Generic) else Ok(v, q3 + 1)
    else if IsDigit(s[q]) || s[q] == '.' then
      var j := NumberEnd(s, q, false, false);
      if j == q then Err(Generic)
      else
        match ParseFloat(s[q..j])
        case None => Err(Generic)
        case Some(v) => Ok(v, j)
    else if IsLetter(s[q]) then
      var j := LetterRun(s, q);
      var k := SkipSpaces(s, j);
      if k < |s| && s[k] == '(' then Call(s, k + 1, Upper(s[q..j]), env)
      else
        var d := DigitRun(s, j);
        if d == j then Err(Ref)
        else
          match env.resolve(s[q..d])
          case Fail(e) => Err(e)
          case Num(v) => Ok(v, d)
    else Err(Generic)
  }

  /** A function call; `p` is just past its `(` and `name` is upper-cased. */
  function Call(s: string, p: nat, name: string, env: Env): (r: Parsed)
    requires 2 <= p <= |s|
    ensures r.Ok? ==> p <= r.pos <= |s|
    decreases |s|, |s| - p, 5
  {
    if IsListFunction(name) then ListCall(s, p, name, env)
    else if name == "ROUND" then RoundCall(s, p, env)
    else if name == "IF" then IfCall(s, p, env)
    else if name == "AND" then LogicCall(s, p, true, env)
    else if name == "OR" then LogicCall(s, p, false, env)
    else if name == "NOT" then NotCall(s, p, env)
    else Err(Generic)
  }

  /** SUM, AVERAGE, MIN, MAX and COUNT: an empty list is zero, otherwise the reduction of the
      collected values. */
  function ListCall(s: string, p: nat, name: string, env: Env): (r: Parsed)
    requires 2 <= p <= |s|
    ensures r.Ok? ==> p <= r.pos <= |s|
    decreases |s|, |s| - p, 4
  {
    var q := SkipSpaces(s, p);
    if q < |s| && s[q] == ')' then Ok(0.0, q + 1)
    else
      match Collect(s, q, name == "COUNT", env)
      case Stopped(e) => Err(e)
      case Gathered(vs, q2) => Ok(Reduce(name, vs), q2)
  }

  /** The argument loop of the list functions, from the argument starting at `p`. */
  function Collect(s: string, p: nat, counting: bool, env: Env): (r: Gathered)
    requires 2 <= p <= |s|
    ensures r.Gathered? ==> p < r.pos <= |s|
    decreases |s|, |s| - p, 3
  {
    var j := ArgEnd(s, p);
    match ArgContribution(s, p, j, counting, env)
    case Aborted(e) => Stopped(e)
    case Items(xs) =>
      if j >= |s| then Stopped(Generic)
      else if s[j] == ',' then
        match Collect(s, SkipSpaces(s, j + 1), counting, env)
        case Stopped(e) => Stopped(e)
        case Gathered(ys, q) => Gathered(xs + ys, q)
      else if s[j] == ')' then Gathered(xs, j + 1)
      else Stopped(Generic)
  }

  /** The argument text from `p` to `j`, trimmed: an empty one is `#ERR`. */
  function ArgContribution(s: string, p: nat, j: nat, counting: bool, env: Env): (r: Items)
    requires 2 <= p <= j <= |s|
    decreases |s|, |s| - p, 2
  {
    var a := TrimStart(s, p, j);
    var b := TrimEnd(s, a, j);
    if a == b then Aborted(Generic) else TextItems(s, a, b, counting, env)
  }

  /** The value of the argument text from `p` to `j`, trimmed: an empty one is `#ERR`. */
  function ArgValue(s: string, p: nat, j: nat, env: Env): (r: Val)
    requires 2 <= p <= j <= |s|
    decreases |s|, |s| - p, 2
  {
    var a := TrimStart(s, p, j);
    var b := TrimEnd(s, a, j);
    if a == b then Fail(Generic) else TextValue(s, a, b, env)
  }

  /** What the text from `a` to `b` contributes as an argument of a list function. */
  function TextItems(s: string, a: nat, b: nat, counting: bool, env: Env): (r: Items)
    requires 2 <= a <= b <= |s|
    decreases |s|, |s| - a, 1
  {
    ArgItems(s[a..b], counting, env)
  }

  /** The value of the text from `a` to `b` as a formula of its own. */
  function TextValue(s: string, a: nat, b: nat, env: Env): (r: Val)
    requires 2 <= a <= b <= |s|
    decreases |s|, |s| - a, 1
  {
    EvalExprForCell(s[a..b], env)
  }

  /** One argument of a list function: a range when it has a `:` and both ends are cell
      references, otherwise a sub-expression. */
  function ArgItems(arg: string, counting: bool, env: Env): (r: Items)
    decreases |arg|, |arg| + 3, 0
  {
    match RangeCorners(arg)
    case Some((a, b)) =>
      var cells := RangeCells(a, b);
      var value := CellLookup(env.resolve);
      if counting then Items(CountCells(cells, value)) else ResolveAll(cells, value)
    case None => SubItems(arg, counting, env)
  }

  /** A sub-expression argument.  COUNT skips one whose evaluation fails, but still refuses
      unconsumed text. */
  function SubItems(arg: string, counting: bool, env: Env): (r: Items)
    decreases |arg|, |arg| + 2, 1
  {
    match Sub(arg, env)
    case Value(v) => Items([if counting then 1.0 else v])
    case Failed(e) => if counting then Items([]) else Aborted(e)
    case Trailing => Aborted(Generic)
  }

  /** `ROUND(value)` or `ROUND(value, places)`. */
  function RoundCall(s: string, p: nat, env: Env): (r: Parsed)
    requires 2 <= p <= |s|
    ensures r.Ok? ==> p < r.pos <= |s|
    decreases |s|, |s| - p, 4
  {
    var q := SkipSpaces(s, p);
    if q >= |s| || s[q] == ')' then Err(Generic)
    else
      var j := ArgEnd(s, q);
      match ArgValue(s, q, j, env)
      case Fail(e) => Err(e)
      case Num(value) =>
        if j < |s| && s[j] == ',' then RoundPlaces(s, j + 1, value, env)
        else CloseCall(s, j, RoundTo(value, 0.0))
  }

  /** The second argument of ROUND, from just past the comma after the value. */
  function RoundPlaces(s: string, p: nat, value: real, env: Env): (r: Parsed)
    requires 2 <= p <= |s|
    ensures r.Ok? ==> p < r.pos <= |s|
    decreases |s|, |s| - p, 3
  {
    var q := SkipSpaces(s, p);
    var j := ArgEnd(s, q);
    match ArgValue(s, q, j, env)
    case Fail(e) => Err(e)
    case Num(places) => CloseCall(s, j, RoundTo(value, places))
  }

  /** The call ends with `)` at `j`; anything else there is `#ERR`. */
  function CloseCall(s: string, j: nat, v: real): (r: Parsed)
    requires j <= |s|
    ensures r.Ok? <==> j < |s| && s[j] == ')'
    ensures r.Ok? ==> r == Ok(v, j + 1)
  {
    if j < |s| && s[j] == ')' then Ok(v, j + 1) else Err(Generic)
  }

  /** `IF(cond, then)` or `IF(cond, then, else)`: both branch texts are cut out first and only the
      chosen one is evaluated; a missing else branch reads as `0`. */
  function IfCall(s: string, p: nat, env: Env): (r: Parsed)
    requires 2 <= p <= |s|
    ensures r.Ok? ==> p < r.pos <= |s|
    decreases |s|, |s| - p, 4
  {
    var q := SkipSpaces(s, p);
    if q >= |s| || s[q] == ')' then Err(Generic)
    else
      var j := ArgEnd(s, q);
      match ArgValue(s, q, j, env)
      case Fail(e) => Err(e)
      case Num(c) =>
        if j >= |s| || s[j] != ',' then Err(Generic)
        else IfBranches(s, j + 1, c, env)
  }

  /** The branches of IF, from just past the comma that ends the condition `c`. */
  function IfBranches(s: string, p: nat, c: real, env: Env): (r: Parsed)
    requires 2 <= p <= |s|
    ensures r.Ok? ==> p < r.pos <= |s|
    decreases |s|, |s| - p, 3
  {
    var q := SkipSpaces(s, p);
    var j := ArgEnd(s, q);
    var a := TrimStart(s, q, j);
    var b := TrimEnd(s, a, j);
    if a == b then Err(Generic)
    else
      var hasElse := j < |s| && s[j] == ',';
      var q2 := if hasElse then SkipSpaces(s, j + 1) else j;
      var j2 := if hasElse then ArgEnd(s, q2) else j;
      if j2 >= |s| || s[j2] != ')' then Err(Generic)
      else
        var a2 := TrimStart(s, q2, j2);
        var chosen :=
          if Abs(c) > Epsilon then TextValue(s, a, b, env)
          else if hasElse then TextValue(s, a2, TrimEnd(s, a2, j2), env)
          else EvalExprForCell("0", env);
        match chosen
        case Fail(e) => Err(e)
        case Num(v) => Ok(v, j2 + 1)
  }

  /** AND and OR: an empty list is the neutral value (1 for AND, 0 for OR). */
  function LogicCall(s: string, p: nat, isAnd: bool, env: Env): (r: Parsed)
    requires 2 <= p <= |s|
    ensures r.Ok? ==> p <= r.pos <= |s|
    decreases |s|, |s| - p, 4
  {
    var q := SkipSpaces(s, p);
    if q < |s| && s[q] == ')' then Ok(if isAnd then 1.0 else 0.0, q + 1)
    else ShortCircuit(s, q, isAnd, env)
  }

  /** Whether a value settles AND (a false one) or OR (a true one); the two tests use the
      tolerance from opposite sides. */
  predicate Decides(isAnd: bool, v: real) {
    if isAnd then Abs(v) < Epsilon else Abs(v) > Epsilon
  }

  /** The argument loop of AND and OR from the argument starting at `p`: the first deciding
      argument ends the call without evaluating the rest. */
  function ShortCircuit(s: string, p: nat, isAnd: bool, env: Env): (r: Parsed)
    requires 2 <= p <= |s|
    ensures r.Ok? ==> p <= r.pos <= |s|
    decreases |s|, |s| - p, 3
  {
    var j := ArgEnd(s, p);
    match ArgValue(s, p, j, env)
    case Fail(e) => Err(e)
    case Num(v) =>
      if Decides(isAnd, v) then
        var k := SkipTarget(s, j, env.skip);
        Ok(if isAnd then 0.0 else 1.0, if k < |s| then k + 1 else p)
      else if j >= |s| then Err(Generic)
      else if s[j] == ',' then ShortCircuit(s, SkipSpaces(s, j + 1), isAnd, env)
      else if s[j] == ')' then Ok(if isAnd then 1.0 else 0.0, j + 1)
      else Err(Generic)
  }

  /** `NOT(x)`: 1 when `x` is within the tolerance of zero, else 0; exactly one argument. */
  function NotCall(s: string, p: nat, env: Env): (r: Parsed)
    requires 2 <= p <= |s|
    ensures r.Ok? ==> p < r.pos <= |s|
    decreases |s|, |s| - p, 4
  {
    var q := SkipSpaces(s, p);
    if q >= |s| || s[q] == ')' then Err(Generic)
    else
      var j := ArgEnd(s, q);
      match ArgValue(s, q, j, env)
      case Fail(e) => Err(e)
      case Num(v) => CloseCall(s, j, if NearZero(v) then 1.0 else 0.0)
  }
}
