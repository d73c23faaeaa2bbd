/** Range arguments `LEFT:RIGHT` of the list functions: the cells a range spans, in the order
    the program visits them, and what SUM, AVERAGE, MIN, MAX and COUNT make of them. */
module CalcRange {
  import opened Text
  import opened Grid
  import opened Numeric
  import opened Calc
  import opened CalcSpec
  import opened CalcCalls

  // -------------------------------------------------------------------------------------
  // The cells of a rectangle

  /** A product of a positive factor with a factor of at least one is at least the first. */
  lemma {:induction false} MulAtLeast(d: int, w: int)
    requires d >= 1 && w > 0
    ensures d * w >= w
    decreases d
  {
    if d > 1 {
      MulAtLeast(d - 1, w);
      assert d * w == (d - 1) * w + w;
    }
  }

  /** Euclidean division is determined by its quotient and remainder. */
  lemma DivModOf(n: int, w: int, q: int, m: int)
    requires w > 0 && 0 <= m < w && n == q * w + m
    ensures n / w == q && n % w == m
  {
    var q2 := n / w;
    var m2 := n % w;
    assert n == q2 * w + m2 && 0 <= m2 < w;
    assert (q - q2) * w == m2 - m;
    if q > q2 {
      MulAtLeast(q - q2, w);
    } else if q < q2 {
      MulAtLeast(q2 - q, w);
    }
  }

  /** The block of rows `r..rmax` and columns `cmin..cmax` has one cell per row and column. */
  lemma {:induction false} BlockLength(r: int, rmax: int, cmin: int, cmax: int)
    requires cmin <= cmax
    ensures |BlockCells(r, rmax, cmin, cmax)| == (if r <= rmax then (rmax - r + 1) * (cmax - cmin + 1) else 0)
    decreases rmax - r
  {
    if r <= rmax {
      BlockLength(r + 1, rmax, cmin, cmax);
      assert (rmax - r + 1) * (cmax - cmin + 1) == (cmax - cmin + 1) + (rmax - r) * (cmax - cmin + 1);
    }
  }

  /** The block lists its cells row by row, each row left to right: cell `i` is in row
      `r + i / w` and column `cmin + i % w`, `w` being the width of the block. */
  lemma {:induction false} BlockIndex(r: int, rmax: int, cmin: int, cmax: int, i: int)
    requires cmin <= cmax && 0 <= i < |BlockCells(r, rmax, cmin, cmax)|
    ensures var w := cmax - cmin + 1;
      BlockCells(r, rmax, cmin, cmax)[i] == (r + i / w, cmin + i % w)
    decreases rmax - r
  {
    var w := cmax - cmin + 1;
    var row := RowCells(r, cmin, cmax);
    var rest := BlockCells(r + 1, rmax, cmin, cmax);
    assert BlockCells(r, rmax, cmin, cmax) == row + rest;
    if i < w {
      assert row[i] == (r, cmin + i);
      DivModOf(i, w, 0, i);
    } else {
      var k := i - w;
      BlockIndex(r + 1, rmax, cmin, cmax, k);
      assert rest[k] == (r + 1 + k / w, cmin + k % w);
      DivStep(k, w);
    }
  }

  /** One more width adds one to the quotient and keeps the remainder. */
  lemma DivStep(k: int, w: int)
    requires w > 0
    ensures (k + w) / w == k / w + 1 && (k + w) % w == k % w
  {
    var q := k / w;
    var m := k % w;
    assert k + w == (q + 1) * w + m;
    DivModOf(k + w, w, q + 1, m);
  }

  /** The rectangle spanned by two corners, whichever way round they are given: `w * h` cells,
      row by row from the top left, each row left to right. */
  lemma RangeShape(a: Coord, b: Coord)
    ensures var rmin := Min(a.0, b.0); var rmax := Max(a.0, b.0);
      var cmin := Min(a.1, b.1); var cmax := Max(a.1, b.1);
      var w := cmax - cmin + 1; var cells := RangeCells(a, b);
      |cells| == (rmax - rmin + 1) * w &&
      forall i :: 0 <= i < |cells| ==> cells[i] == (rmin + i / w, cmin + i % w)
  {
    var rmin := Min(a.0, b.0);
    var rmax := Max(a.0, b.0);
    var cmin := Min(a.1, b.1);
    var cmax := Max(a.1, b.1);
    BlockLength(rmin, rmax, cmin, cmax);
    forall i | 0 <= i < |RangeCells(a, b)|
      ensures RangeCells(a, b)[i] == (rmin + i / (cmax - cmin + 1), cmin + i % (cmax - cmin + 1))
    {
      BlockIndex(rmin, rmax, cmin, cmax, i);
    }
  }

  /** Every cell inside the rectangle is visited, at its row-major position. */
  lemma RangeCovers(a: Coord, b: Coord, row: int, col: int)
    requires Min(a.0, b.0) <= row <= Max(a.0, b.0) && Min(a.1, b.1) <= col <= Max(a.1, b.1)
    ensures var w := Max(a.1, b.1) - Min(a.1, b.1) + 1;
      var i := (row - Min(a.0, b.0)) * w + (col - Min(a.1, b.1));
      0 <= i < |RangeCells(a, b)| && RangeCells(a, b)[i] == (row, col)
  {
    var rmin := Min(a.0, b.0);
    var cmin := Min(a.1, b.1);
    var w := Max(a.1, b.1) - cmin + 1;
    var d := row - rmin;
    var i := d * w + (col - cmin);
    RangeShape(a, b);
    assert 0 <= i < |RangeCells(a, b)| by {
      MulMono(d + 1, Max(a.0, b.0) - rmin + 1, w);
      assert (d + 1) * w == d * w + w;
      MulMono(0, d, w);
    }
    DivModOf(i, w, d, col - cmin);
  }

  /** Multiplying by a positive number keeps the order. */
  lemma MulMono(x: int, y: int, w: int)
    requires 0 <= x <= y && w > 0
    ensures x * w <= y * w
  {
    if x < y {
      MulAtLeast(y - x, w);
      assert y * w == x * w + (y - x) * w;
    }
  }

  // -------------------------------------------------------------------------------------
  // Resolving the cells

  /** SUM and the others take every cell's value, in order, and stop at the first cell whose
      value is an error, which becomes the call's error. */
  lemma {:induction false} ResolveAllMeans(cells: seq<Coord>, value: Coord -> Val)
    ensures var r := ResolveAll(cells, value);
      (r.Items? <==> forall k :: 0 <= k < |cells| ==> value(cells[k]).Num?) &&
      (r.Items? ==> forall k :: 0 <= k < |cells| ==> r.xs[k] == value(cells[k]).v) &&
      (r.Aborted? ==>
        exists k :: 0 <= k < |cells| && value(cells[k]) == Fail(r.code) &&
          forall m :: 0 <= m < k ==> value(cells[m]).Num?)
    decreases |cells|
  {
    if |cells| > 0 {
      var rest := cells[1..];
      ResolveAllMeans(rest, value);
      assert forall k :: 1 <= k < |cells| ==> cells[k] == rest[k - 1];
      var r := ResolveAll(cells, value);
      if r.Aborted? && value(cells[0]).Num? {
        var k :| 0 <= k < |rest| && value(rest[k]) == Fail(r.code) &&
          forall m :: 0 <= m < k ==> value(rest[m]).Num?;
        assert value(cells[k + 1]) == Fail(r.code);
      }
    }
  }

  /** Whether COUNT counts a cell: its value is a number, or `#CYCLE`. */
  predicate Counted(v: Val) {
    v.Num? || v == Fail(Cycle)
  }

  /** COUNT over cells leaves nothing but marks. */
  lemma {:induction false} CountCellsMarks(cells: seq<Coord>, value: Coord -> Val)
    ensures CountCells(cells, value) == Marks(|CountCells(cells, value)|)
    decreases |cells|
  {
    if |cells| > 0 {
      var n := |CountCells(cells[1..], value)|;
      CountCellsMarks(cells[1..], value);
      if Counted(value(cells[0])) {
        assert Marks(n + 1) == [1.0] + Marks(n);
      }
    }
  }

  /** Every cell is marked exactly when every cell is counted. */
  lemma {:induction false} CountCellsAll(cells: seq<Coord>, value: Coord -> Val)
    ensures |CountCells(cells, value)| == |cells| <==>
      forall k :: 0 <= k < |cells| ==> Counted(value(cells[k]))
    decreases |cells|
  {
    if |cells| > 0 {
      var rest := cells[1..];
      CountCellsAll(rest, value);
      if forall k :: 0 <= k < |cells| ==> Counted(value(cells[k])) {
        forall k | 0 <= k < |rest| ensures Counted(value(rest[k])) {
          assert rest[k] == cells[k + 1];
        }
      } else if Counted(value(cells[0])) {
        var k :| 0 <= k < |cells| && !Counted(value(cells[k]));
        assert !Counted(value(rest[k - 1]));
      }
    }
  }

  /** No cell is marked exactly when no cell is counted. */
  lemma {:induction false} CountCellsNone(cells: seq<Coord>, value: Coord -> Val)
    ensures |CountCells(cells, value)| == 0 <==>
      forall k :: 0 <= k < |cells| ==> !Counted(value(cells[k]))
    decreases |cells|
  {
    if |cells| > 0 {
      var rest := cells[1..];
      CountCellsNone(rest, value);
      if forall k :: 0 <= k < |cells| ==> !Counted(value(cells[k])) {
        forall k | 0 <= k < |rest| ensures !Counted(value(rest[k])) {
          assert rest[k] == cells[k + 1];
        }
      } else if !Counted(value(cells[0])) {
        var k :| 0 <= k < |cells| && Counted(value(cells[k]));
        assert Counted(value(rest[k - 1]));
      }
    }
  }

  /** COUNT over consecutive runs of cells adds up: with the single-cell case below this fixes
      COUNT over any cells to one mark per counted cell, in order. */
  lemma {:induction false} CountCellsAppend(xs: seq<Coord>, ys: seq<Coord>, value: Coord -> Val)
    ensures CountCells(xs + ys, value) == CountCells(xs, value) + CountCells(ys, value)
    decreases |xs|
  {
    if |xs| > 0 {
      assert (xs + ys)[0] == xs[0] && (xs + ys)[1..] == xs[1..] + ys;
      CountCellsAppend(xs[1..], ys, value);
    } else {
      assert xs + ys == ys;
    }
  }

  /** A single cell is counted exactly when its value is a number or `#CYCLE`. */
  lemma CountCellsOne(k: Coord, value: Coord -> Val)
    ensures CountCells([k], value) == if Counted(value(k)) then [1.0] else []
  {
    assert [k][1..] == [];
  }

  // -------------------------------------------------------------------------------------
  // A range written between two cell names

  /** A cell the program can name and parse back: a column from zero and a row whose
      one-based number fits in 64 bits. */
  predicate OnSheet(k: Coord) {
    0 <= k.0 < MaxInt64 && 0 <= k.1
  }

  /** The range argument `LEFT:RIGHT` between the names of two cells. */
  function RangeText(a: Coord, b: Coord): string {
    ColRowToName(a.1, a.0) + ":" + ColRowToName(b.1, b.0)
  }

  /** A letter or digit of a cell name. */
  predicate NameChar(c: char) {
    ('A' <= c <= 'Z') || IsDigit(c)
  }

  /** A cell name starts with a letter, ends with a digit and has nothing else. */
  lemma NameChars(k: Coord)
    requires OnSheet(k)
    ensures var n := ColRowToName(k.1, k.0);
      |n| > 1 && 'A' <= n[0] <= 'Z' && IsDigit(n[|n| - 1]) &&
      forall i :: 0 <= i < |n| ==> NameChar(n[i])
  {
    var l := ColToName(k.1);
    var d := IntToDecimal(k.0 + 1);
    var n := ColRowToName(k.1, k.0);
    assert n == l + d;
    assert n[0] == l[0];
    assert n[|n| - 1] == d[|d| - 1];
    forall i | 0 <= i < |n| ensures NameChar(n[i]) {
      if i < |l| {
        assert n[i] == l[i];
      } else {
        assert n[i] == d[i - |l|];
      }
    }
  }

  /** A cell name needs no trimming and parses back to its cell. */
  lemma CornerOf(k: Coord)
    requires OnSheet(k)
    ensures ParseCellRef(TrimSpace(ColRowToName(k.1, k.0))) == Some(k)
  {
    NameChars(k);
    TrimSpaceNoop(ColRowToName(k.1, k.0));
    RefRoundTrip(k.1, k.0);
  }

  /** The first `:` of a range text is the one between the names. */
  lemma RangeColon(a: Coord, b: Coord)
    requires OnSheet(a)
    ensures var l := ColRowToName(a.1, a.0); var x := RangeText(a, b);
      FirstIndex(x, ':') == |l| && x[..|l|] == l && x[|l| + 1..] == ColRowToName(b.1, b.0)
  {
    var l := ColRowToName(a.1, a.0);
    var x := RangeText(a, b);
    NameChars(a);
    forall k | 0 <= k < |l| ensures x[k] != ':' {
      assert x[k] == l[k] && NameChar(l[k]);
    }
    assert x[|l|] == ':';
    assert x[..|l|] == l;
    assert x[|l| + 1..] == ColRowToName(b.1, b.0);
  }

  /** The names of a range text parse back to its corners. */
  lemma RangeCornersOf(a: Coord, b: Coord)
    requires OnSheet(a) && OnSheet(b)
    ensures RangeCorners(RangeText(a, b)) == Some((a, b))
  {
    RangeColon(a, b);
    CornerOf(a);
    CornerOf(b);
  }

  /** An argument text the scanner passes over whole (no bracket, no comma) and that starts and
      ends the way a printed tree does, so there is no blank to trim. */
  predicate PlainArg(x: string) {
    0 < |x| && StartChar(x[0]) && EndChar(x[|x| - 1]) && forall i :: 0 <= i < |x| ==> Inert(x[i])
  }

  /** A range text is a plain argument. */
  lemma RangeTextPlain(a: Coord, b: Coord)
    requires OnSheet(a) && OnSheet(b)
    ensures PlainArg(RangeText(a, b))
  {
    var l := ColRowToName(a.1, a.0);
    var m := ColRowToName(b.1, b.0);
    var x := RangeText(a, b);
    NameChars(a);
    NameChars(b);
    assert x[0] == l[0] && x[|x| - 1] == m[|m| - 1];
    forall i | 0 <= i < |x| ensures Inert(x[i]) {
      if i < |l| {
        assert x[i] == l[i] && NameChar(l[i]);
      } else if |l| < i {
        assert x[i] == m[i - |l| - 1] && NameChar(m[i - |l| - 1]);
      }
    }
  }

  /** A range text, as an argument, stands for its cells. */
  lemma RangeItems(a: Coord, b: Coord, counting: bool, env: Env)
    requires OnSheet(a) && OnSheet(b)
    ensures var cells := RangeCells(a, b); var value := CellLookup(env.resolve);
      ArgItems(RangeText(a, b), counting, env) ==
        (if counting then Items(CountCells(cells, value)) else ResolveAll(cells, value))
  {
    RangeCornersOf(a, b);
  }

  /** A plain argument runs up to the final `)` of the call and contributes what the text on
      its own contributes. */
  lemma PlainArgument(name: string, x: string, counting: bool, env: Env)
    requires 0 < |name| && PlainArg(x)
    ensures var t := CallText(name, x); var p := |name| + 1;
      p < |t| - 1 && ArgEnd(t, p) == |t| - 1 &&
      ArgContribution(t, p, |t| - 1, counting, env) == ArgItems(x, counting, env)
  {
    var t := CallText(name, x);
    var p := |name| + 1;
    CallShape(name, x);
    CallArgs(name, x);
    WalkInert(x, 0, true);
    ScanWalk(t, p, x, 0, true);
    assert t[p + |x|] == ')';
    assert Scan(t, p + |x|, 0, true) == p + |x|;
    CallArgument(name, x, counting, env);
  }

  /** An argument text that starts and ends the way a printed tree does has nothing to trim,
      so what it contributes is what the text on its own contributes. */
  lemma CallArgument(name: string, x: string, counting: bool, env: Env)
    requires 0 < |name| && 0 < |x| && StartChar(x[0]) && EndChar(x[|x| - 1])
    ensures var t := CallText(name, x); var p := |name| + 1;
      p < |t| - 1 && ArgContribution(t, p, |t| - 1, counting, env) == ArgItems(x, counting, env)
  {
    var t := CallText(name, x);
    var p := |name| + 1;
    CallShape(name, x);
    CallInner(name, x);
    assert t[p] == x[0] && t[|t| - 2] == x[|x| - 1];
    NothingToTrim(t, p, |t| - 1);
    ContributionText(t, p, |t| - 1, x, counting, env);
  }

  /** The text between the brackets of a call is its arguments. */
  lemma CallInner(name: string, args: string)
    ensures var t := CallText(name, args); t[|name| + 1..|t| - 1] == args
  {
    var t := CallText(name, args);
    assert t == name + "(" + args + ")";
  }

  /** A list function whose one argument runs from just past the `(` to the final `)` and
      contributes `items`. */
  lemma OneArgCall(t: string, name: string, items: Items, env: Env)
    requires IsName(name) && |name| + 1 < |t| - 1 && t[..|name|] == name && t[|name|] == '('
    requires IsListFunction(Upper(name)) && t[|t| - 1] == ')'
    requires var p := |name| + 1; SkipSpaces(t, p) == p && t[p] != ')' && ArgEnd(t, p) == |t| - 1
    requires ArgContribution(t, |name| + 1, |t| - 1, Upper(name) == "COUNT", env) == items
    ensures EvalExprForCell(t, env) ==
      match items
      case Aborted(c) => Fail(c)
      case Items(xs) => Num(Reduce(Upper(name), xs))
  {
    var u := Upper(name);
    var p := |name| + 1;
    var v := match items case Aborted(c) => Fail(c) case Items(xs) => Num(Reduce(u, xs));
    CollectUnfold(t, p, |t| - 1, items, u == "COUNT", env);
    assert ListCall(t, p, u, env) == Lifted(v, |t|);
    assert Call(t, p, u, env) == Lifted(v, |t|);
    CallEndsFormula(t, name, v, env);
  }

  /** A list function over one plain argument: what the argument contributes, reduced, or
      the error it stopped with. */
  lemma PlainCall(name: string, x: string, items: Items, env: Env)
    requires IsListFunction(Upper(name)) && PlainArg(x)
    requires ArgItems(x, Upper(name) == "COUNT", env) == items
    ensures EvalExprForCell(CallText(name, x), env) ==
      match items
      case Aborted(c) => Fail(c)
      case Items(xs) => Num(Reduce(Upper(name), xs))
  {
    var t := CallText(name, x);
    var p := |name| + 1;
    BuiltinName(name, Upper(name));
    CallShape(name, x);
    PlainArgument(name, x, Upper(name) == "COUNT", env);
    CallArgs(name, x);
    FirstArg(t, p, x);
    OneArgCall(t, name, items, env);
  }

  /** A list function over one range: COUNT is the number of counted cells; SUM, AVERAGE,
      MIN and MAX reduce the cell values in row-major order, and the first cell whose value
      is an error is the formula's error. */
  lemma RangeFormula(name: string, a: Coord, b: Coord, env: Env)
    requires IsListFunction(Upper(name)) && OnSheet(a) && OnSheet(b)
    ensures var r := EvalExprForCell(CallText(name, RangeText(a, b)), env);
      var u := Upper(name); var cells := RangeCells(a, b); var value := CellLookup(env.resolve);
      (u == "COUNT" ==> r == Num(|CountCells(cells, value)| as real)) &&
      (u != "COUNT" ==>
        r == match ResolveAll(cells, value)
             case Aborted(c) => Fail(c)
             case Items(xs) => Num(Reduce(u, xs)))
  {
    var u := Upper(name);
    var counting := u == "COUNT";
    var x := RangeText(a, b);
    var cells := RangeCells(a, b);
    var value := CellLookup(env.resolve);
    var items := if counting then Items(CountCells(cells, value)) else ResolveAll(cells, value);
    assert PlainArg(x) by {
      RangeTextPlain(a, b);
    }
    assert ArgItems(x, counting, env) == items by {
      RangeItems(a, b, counting, env);
    }
    PlainCall(name, x, items, env);
  }

  /** COUNT over a range whose every cell is a number or `#CYCLE` is the size of the
      rectangle. */
  lemma CountWholeRange(name: string, a: Coord, b: Coord, env: Env)
    requires Upper(name) == "COUNT" && OnSheet(a) && OnSheet(b)
    requires forall k :: 0 <= k < |RangeCells(a, b)| ==> Counted(CellLookup(env.resolve)(RangeCells(a, b)[k]))
    ensures EvalExprForCell(CallText(name, RangeText(a, b)), env) ==
      Num(((Max(a.0, b.0) - Min(a.0, b.0) + 1) * (Max(a.1, b.1) - Min(a.1, b.1) + 1)) as real)
  {
    RangeFormula(name, a, b, env);
    CountCellsAll(RangeCells(a, b), CellLookup(env.resolve));
    RangeShape(a, b);
  }

  /** SUM over a range whose every cell is a number adds the cell values in row-major order;
      a cell that is an error makes the sum that error. */
  lemma SumRange(name: string, a: Coord, b: Coord, env: Env)
    requires Upper(name) == "SUM" && OnSheet(a) && OnSheet(b)
    ensures var r := EvalExprForCell(CallText(name, RangeText(a, b)), env);
      var cells := RangeCells(a, b); var value := CellLookup(env.resolve);
      ((forall k :: 0 <= k < |cells| ==> value(cells[k]).Num?) <==> r.Num?) &&
      (r.Num? ==>
         exists xs :: |xs| == |cells| && r.v == Sum(xs) &&
           forall k :: 0 <= k < |cells| ==> xs[k] == value(cells[k]).v) &&
      (r.Fail? ==> exists k :: 0 <= k < |cells| && value(cells[k]) == r)
  {
    var cells := RangeCells(a, b);
    var value := CellLookup(env.resolve);
    RangeFormula(name, a, b, env);
    ResolveAllMeans(cells, value);
    match ResolveAll(cells, value)
    case Items(xs) =>
    case Aborted(c) =>
  }
}
