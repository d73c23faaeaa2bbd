/** The spreadsheet state and the logic around it that does not touch the terminal: the resolver
    that turns a cell reference into a value with its cycle guard, the display text of a cell,
    growing the column and row tables, the grid remapping behind the insert and delete keys,
    committing an edit, and two string helpers of the renderer. */
module App {
  import opened Text
  import opened Grid
  import opened Numeric
  import opened Calc
  import opened CalcSpec

  const DefaultWidth: int := 16
  const DefaultHeight: int := 1

  /** Where AND and OR resume after a deciding argument: the program skips to the first `)`
      at any depth (see the findings in the README). */
  const Skip: SkipRule := FirstClose

  /** The part of the application state the formula engine and the grid keys work on: the
      sparse grid keyed by zero-based (row, column), the column widths and row heights (whose
      lengths are the sheet's extents) and the cursor. */
  datatype Sheet = Sheet(grid: map<Coord, Cell>, colWidths: seq<int>, rowHeights: seq<int>,
                         curRow: int, curCol: int)

  predicate InExtents(a: Sheet, k: Coord) {
    0 <= k.0 < |a.rowHeights| && 0 <= k.1 < |a.colWidths|
  }

  /** Every stored cell lies within the extents and the cursor is not negative. */
  predicate Valid(a: Sheet) {
    (forall k :: k in a.grid ==> InExtents(a, k)) && a.curRow >= 0 && a.curCol >= 0
  }

  /** `NewApp`: an empty sheet of eight columns and eight rows, cursor at the top left. */
  function NewSheet(): (a: Sheet)
    ensures Valid(a) && a.grid == map[]
    ensures |a.colWidths| == 8 && |a.rowHeights| == 8
    ensures forall i :: 0 <= i < 8 ==> a.colWidths[i] == DefaultWidth && a.rowHeights[i] == DefaultHeight
  {
    Sheet(map[], seq(8, _ => DefaultWidth), seq(8, _ => DefaultHeight), 0, 0)
  }

  // -------------------------------------------------------------------------------------
  // Resolver and cycle guard

  /** The resolver closure: a reference to its value.  A name that does not parse is `#REF`;
      otherwise the cell it names is resolved.  The stack `visited` is a value here: the
      program pushes a cell before evaluating its formula and pops it afterwards, so every
      caller sees the stack it passed in. */
  function Resolve(a: Sheet, visited: set<Coord>, name: string): (r: Val)
    ensures ParseCellRef(name).None? ==> r == Fail(Ref)
    ensures ParseCellRef(name).Some? ==> r == ResolveAt(a, visited, ParseCellRef(name).value)
    decreases |a.grid.Keys - visited|, 1
  {
    match ParseCellRef(name)
    case None => Fail(Ref)
    case Some(k) => ResolveAt(a, visited, k)
  }

  /** A cell's value for the resolver, checked in this order: it must lie within the extents
      (else `#REF`) and not be on the evaluation stack `visited` (else `#CYCLE`, without reading
      it); an absent or empty cell is zero, a formula is evaluated with the cell pushed on the
      stack, and anything else must read as a number (else `#ERR`). */
  function ResolveAt(a: Sheet, visited: set<Coord>, k: Coord): (r: Val)
    ensures !InExtents(a, k) ==> r == Fail(Ref)
    ensures InExtents(a, k) && k in visited ==> r == Fail(Cycle)
    ensures InExtents(a, k) && k !in visited && (k !in a.grid || a.grid[k].text == "") ==> r == Num(0.0)
    ensures InExtents(a, k) && k !in visited && k in a.grid && a.grid[k].text != "" && a.grid[k].text[0] != '=' ==>
      r == Literal(a.grid[k].text)
    decreases |a.grid.Keys - visited|, 0
  {
    if !InExtents(a, k) then Fail(Ref)
    else if k in visited then Fail(Cycle)
    else if k !in a.grid || a.grid[k].text == "" then Num(0.0)
    else if a.grid[k].text[0] == '=' then
      StackShrinks(a.grid.Keys, visited, k);
      EvalFormula(a, visited + {k}, a.grid[k].text[1..])
    else Literal(a.grid[k].text)
  }

  /** A non-formula cell text as a number, or `#ERR`. */
  function Literal(text: string): (v: Val)
    ensures v.Fail? ==> v.code == Generic
    ensures v.Num? <==> ParseFloat(text).Some?
  {
    match ParseFloat(text)
    case None => Fail(Generic)
    case Some(x) => Num(x)
  }

  /** `evalFormulaForCell`: a formula body evaluated with the resolver for stack `visited`. */
  function EvalFormula(a: Sheet, visited: set<Coord>, expr: string): Val
    decreases |a.grid.Keys - visited|, 2
  {
    EvalExprForCell(expr, Env((name: string) => Resolve(a, visited, name), Skip))
  }

  lemma StackShrinks(keys: set<Coord>, visited: set<Coord>, k: Coord)
    requires k in keys && k !in visited
    ensures |keys - (visited + {k})| < |keys - visited|
  {
    assert keys - (visited + {k}) == (keys - visited) - {k};
  }

  /** What a cell shows: its text, or the value or error code of its formula.  Turning a
      value into digits is not modelled. */
  datatype Shown = Plain(text: string) | Number(v: real)

  /** A formula result as shown: a value, or its error code verbatim. */
  function ShowVal(v: Val): (d: Shown)
    ensures v.Fail? <==> d.Plain?
    ensures v.Num? ==> d == Number(v.v)
    ensures v.Fail? ==> d == Plain(Code(v.code))
    ensures d.Plain? ==> |d.text| > 1 && d.text[0] == '#'
  {
    match v
    case Fail(e) => Plain(Code(e))
    case Num(x) => Number(x)
  }

  /** The shown text names the error: no two error codes share a text, and no error shows as a
      number.  (Numbers show as values here; their printed digits are not modelled.) */
  lemma ShowValInjective(v: Val, w: Val)
    requires ShowVal(v) == ShowVal(w)
    ensures v == w
  {
    if v.Fail? && w.Fail? {
      var s, t := Code(v.code), Code(w.code);
      assert s[1] == t[1] && (s[1] == 'E' ==> |s| == |t|);
    }
  }

  /** Whether cell `k` holds a formula. */
  predicate IsFormulaCell(a: Sheet, k: Coord) {
    k in a.grid && |a.grid[k].text| > 0 && a.grid[k].text[0] == '='
  }

  /** `GetDisplayText`: nothing for an absent or empty cell, plain text verbatim, and for a
      formula its value or error code, evaluated with the cell itself on the stack. */
  function GetDisplayText(a: Sheet, r: int, c: int): (d: Shown)
    ensures (r, c) !in a.grid || a.grid[(r, c)].text == "" ==> d == Plain("")
    ensures (r, c) in a.grid && a.grid[(r, c)].text != "" && a.grid[(r, c)].text[0] != '=' ==>
      d == Plain(a.grid[(r, c)].text)
    ensures IsFormulaCell(a, (r, c)) ==> d == ShowVal(EvalFormula(a, {(r, c)}, a.grid[(r, c)].text[1..]))
  {
    var k := (r, c);
    if k !in a.grid || a.grid[k].text == "" then Plain("")
    else
      var text := a.grid[k].text;
      if text[0] != '=' then Plain(text)
      else ShowVal(EvalFormula(a, {k}, text[1..]))
  }

  /** The formula `=` followed by the name of cell `k`. */
  function RefFormula(k: Coord): string
    requires k.0 >= 0 && k.1 >= 0
  {
    "=" + ColRowToName(k.1, k.0)
  }

  /** A formula cell off the stack is evaluated with the cell pushed on it. */
  lemma ResolveFormula(a: Sheet, visited: set<Coord>, k: Coord)
    requires InExtents(a, k) && k !in visited && IsFormulaCell(a, k)
    ensures ResolveAt(a, visited, k) == EvalFormula(a, visited + {k}, a.grid[k].text[1..])
  {
  }

  /** Resolving the name of a cell of the sheet resolves that cell. */
  lemma ResolveName(a: Sheet, visited: set<Coord>, k: Coord)
    requires 0 <= k.0 < MaxInt64 && 0 <= k.1
    ensures Resolve(a, visited, ColRowToName(k.1, k.0)) == ResolveAt(a, visited, k)
    ensures EvalFormula(a, visited, ColRowToName(k.1, k.0)) == ResolveAt(a, visited, k)
  {
    RefRoundTrip(k.1, k.0);
    EvalCellName(k.1, k.0, Env((name: string) => Resolve(a, visited, name), Skip));
  }

  /** A cell whose formula names the cell itself shows `#CYCLE`. */
  lemma SelfReference(a: Sheet, k: Coord)
    requires Valid(a) && k in a.grid && k.0 < MaxInt64 && a.grid[k].text == RefFormula(k)
    ensures GetDisplayText(a, k.0, k.1) == Plain("#CYCLE")
  {
    var name := ColRowToName(k.1, k.0);
    assert a.grid[k].text[1..] == name;
    assert IsFormulaCell(a, k);
    assert InExtents(a, k);
    assert EvalFormula(a, {k}, name) == Fail(Cycle) by {
      ResolveName(a, {k}, k);
    }
    assert GetDisplayText(a, k.0, k.1) == ShowVal(Fail(Cycle));
  }

  /** Cells `ks[0]`, ..., `ks[n-1]` form a reference cycle: distinct cells of the sheet, each
      holding the formula that names the next, the last naming the first. */
  predicate RefCycle(a: Sheet, ks: seq<Coord>) {
    |ks| >= 1 &&
    (forall i :: 0 <= i < |ks| ==> ks[i] in a.grid && 0 <= ks[i].0 < MaxInt64 && 0 <= ks[i].1) &&
    Distinct(ks) &&
    (forall i :: 0 <= i < |ks| ==> Links(a, ks, i))
  }

  /** Cell `ks[i]` holds the formula that names the next cell of the cycle. */
  predicate Links(a: Sheet, ks: seq<Coord>, i: nat)
    requires i < |ks|
  {
    var next := Next(ks, i);
    ks[i] in a.grid && next.0 >= 0 && next.1 >= 0 && a.grid[ks[i]].text == RefFormula(next)
  }

  predicate Distinct(ks: seq<Coord>) {
    forall i, j :: 0 <= i < j < |ks| ==> ks[i] != ks[j]
  }

  /** The evaluation stack after following the cycle from `ks[0]` to `ks[i]`. */
  function StackOf(ks: seq<Coord>, i: nat): set<Coord>
    requires i < |ks|
  {
    set j | 0 <= j <= i :: ks[j]
  }

  /** The name of a cell, as a reference formula writes it. */
  function NameOf(k: Coord): string {
    ColRowToName(k.1, k.0)
  }

  /** The cell after `ks[i]` on the cycle, `ks[(i + 1) % |ks|]`. */
  function Next(ks: seq<Coord>, i: nat): Coord
    requires i < |ks|
  {
    if i + 1 < |ks| then ks[i + 1] else ks[0]
  }

  /** Each cell of a reference cycle is a formula cell of the sheet naming the next cell. */
  lemma CycleLink(a: Sheet, ks: seq<Coord>, i: nat)
    requires Valid(a) && RefCycle(a, ks) && i < |ks|
    ensures InExtents(a, ks[i]) && IsFormulaCell(a, ks[i]) && 0 <= ks[i].0 < MaxInt64 && 0 <= ks[i].1
    ensures a.grid[ks[i]].text[1..] == NameOf(Next(ks, i))
  {
    assert Links(a, ks, i);
  }

  /** One step along the cycle: the name of `ks[i+1]`, evaluated with `ks[0..i]` on the stack,
      evaluates the formula of `ks[i+1]` with `ks[0..i+1]` on the stack. */
  lemma CycleStep(a: Sheet, ks: seq<Coord>, i: nat)
    requires Valid(a) && RefCycle(a, ks) && i + 1 < |ks|
    ensures EvalFormula(a, StackOf(ks, i), NameOf(ks[i + 1])) ==
      EvalFormula(a, StackOf(ks, i + 1), NameOf(Next(ks, i + 1)))
  {
    var k := ks[i + 1];
    var stack := StackOf(ks, i);
    assert k !in stack && stack + {k} == StackOf(ks, i + 1) by {
      StackGrows(ks, i);
    }
    assert InExtents(a, k) && IsFormulaCell(a, k) && 0 <= k.0 < MaxInt64 && 0 <= k.1 &&
      a.grid[k].text[1..] == NameOf(Next(ks, i + 1)) by {
      CycleLink(a, ks, i + 1);
    }
    assert EvalFormula(a, stack, NameOf(k)) == ResolveAt(a, stack, k) by {
      ResolveName(a, stack, k);
    }
    ResolveFormula(a, stack, k);
  }

  /** Following the cycle one more step pushes a cell not yet on the stack. */
  lemma StackGrows(ks: seq<Coord>, i: nat)
    requires Distinct(ks) && i + 1 < |ks|
    ensures ks[i + 1] !in StackOf(ks, i) && StackOf(ks, i) + {ks[i + 1]} == StackOf(ks, i + 1)
  {
  }

  /** Along a reference cycle, the formula of `ks[i]` evaluated with `ks[0..i]` on the stack is
      `#CYCLE`: each step pushes the next cell, and the last step names `ks[0]`, which is on the
      stack. */
  lemma {:induction false} CycleFrom(a: Sheet, ks: seq<Coord>, i: nat)
    requires Valid(a) && RefCycle(a, ks) && i < |ks|
    ensures EvalFormula(a, StackOf(ks, i), NameOf(Next(ks, i))) == Fail(Cycle)
    decreases |ks| - i
  {
    if i == |ks| - 1 {
      CycleClosed(a, ks);
    } else {
      CycleStep(a, ks, i);
      CycleFrom(a, ks, i + 1);
    }
  }

  /** The last cell of the cycle names the first, which is on the stack by then. */
  lemma CycleClosed(a: Sheet, ks: seq<Coord>)
    requires Valid(a) && RefCycle(a, ks)
    ensures EvalFormula(a, StackOf(ks, |ks| - 1), NameOf(ks[0])) == Fail(Cycle)
  {
    var k := ks[0];
    var stack := StackOf(ks, |ks| - 1);
    assert k in stack;
    assert InExtents(a, k) && 0 <= k.0 < MaxInt64 && 0 <= k.1 by {
      CycleLink(a, ks, 0);
    }
    ResolveName(a, stack, k);
  }

  /** Every cell of a reference cycle, of any length, shows `#CYCLE`. */
  lemma ReferenceCycle(a: Sheet, ks: seq<Coord>)
    requires Valid(a) && RefCycle(a, ks)
    ensures GetDisplayText(a, ks[0].0, ks[0].1) == Plain("#CYCLE")
  {
    var k := ks[0];
    assert IsFormulaCell(a, k) && a.grid[k].text[1..] == NameOf(Next(ks, 0)) by {
      CycleLink(a, ks, 0);
    }
    assert EvalFormula(a, {k}, NameOf(Next(ks, 0))) == Fail(Cycle) by {
      CycleFrom(a, ks, 0);
      assert StackOf(ks, 0) == {k};
    }
  }

  /** Two cells whose formulas name each other both show `#CYCLE`: the cycle of length two. */
  lemma MutualReference(a: Sheet, k1: Coord, k2: Coord)
    requires Valid(a) && k1 in a.grid && k2 in a.grid && k1 != k2 && k1.0 < MaxInt64 && k2.0 < MaxInt64
    requires a.grid[k1].text == RefFormula(k2) && a.grid[k2].text == RefFormula(k1)
    ensures GetDisplayText(a, k1.0, k1.1) == Plain("#CYCLE")
  {
    var ks := [k1, k2];
    assert RefCycle(a, ks);
    ReferenceCycle(a, ks);
  }

  /** A cell whose formula names a cell holding a number shows that number. */
  lemma ReferenceToNumber(a: Sheet, k1: Coord, k2: Coord, x: real)
    requires Valid(a) && k1 in a.grid && k2 in a.grid && k1 != k2 && k2.0 < MaxInt64
    requires a.grid[k1].text == RefFormula(k2)
    requires a.grid[k2].text != "" && a.grid[k2].text[0] != '=' && ParseFloat(a.grid[k2].text) == Some(x)
    ensures GetDisplayText(a, k1.0, k1.1) == Number(x)
  {
    assert a.grid[k1].text[1..] == ColRowToName(k2.1, k2.0);
    ResolveName(a, {k1}, k2);
  }

  /** A cell whose formula names an empty cell of the sheet shows zero, and one that names a cell
      beyond the extents shows `#REF`. */
  lemma ReferenceToEmpty(a: Sheet, k1: Coord, k2: Coord)
    requires Valid(a) && k1 in a.grid && k2 !in a.grid && k2.0 >= 0 && k2.1 >= 0 && k2.0 < MaxInt64
    requires a.grid[k1].text == RefFormula(k2)
    ensures GetDisplayText(a, k1.0, k1.1) == (if InExtents(a, k2) then Number(0.0) else Plain("#REF"))
  {
    var n2 := ColRowToName(k2.1, k2.0);
    var v := if InExtents(a, k2) then Num(0.0) else Fail(Ref);
    assert a.grid[k1].text[1..] == n2 && IsFormulaCell(a, k1);
    assert EvalFormula(a, {k1}, n2) == v by {
      ResolveName(a, {k1}, k2);
    }
    assert GetDisplayText(a, k1.0, k1.1) == ShowVal(v);
  }

  // -------------------------------------------------------------------------------------
  // Extents

  /** Appends `dflt` until index `idx` exists. */
  function EnsureLength(xs: seq<int>, idx: int, dflt: int): (r: seq<int>)
    ensures |r| > idx
    ensures |r| == if |xs| > idx then |xs| else idx + 1
    ensures r[..|xs|] == xs
    ensures forall k :: |xs| <= k < |r| ==> r[k] == dflt
    decreases idx - |xs|
  {
    if |xs| > idx then xs else EnsureLength(xs + [dflt], idx, dflt)
  }

  /** `ys` is `xs` grown with `dflt` until index `idx` exists. */
  predicate Grown(xs: seq<int>, ys: seq<int>, idx: int, dflt: int) {
    |ys| == (if |xs| > idx then |xs| else idx + 1) && ys[..|xs|] == xs &&
    forall k :: |xs| <= k < |ys| ==> ys[k] == dflt
  }

  /** Growing to `i` and then to `j >= i` is growing to `j`. */
  lemma GrownTwice(xs: seq<int>, ys: seq<int>, zs: seq<int>, i: int, j: int, dflt: int)
    requires Grown(xs, ys, i, dflt) && Grown(ys, zs, j, dflt) && i <= j
    ensures Grown(xs, zs, j, dflt)
  {
    assert zs[..|xs|] == ys[..|ys|][..|xs|];
    forall k | |xs| <= k < |zs|
      ensures zs[k] == dflt
    {
      if k < |ys| {
        assert zs[k] == zs[..|ys|][k];
      }
    }
  }

  /** `EnsureColExists`: column `idx` exists afterwards, new columns have the default width. */
  function EnsureColExists(a: Sheet, idx: int): (b: Sheet)
    ensures b == a.(colWidths := b.colWidths)
    ensures |b.colWidths| > idx && |b.colWidths| >= |a.colWidths|
    ensures b.colWidths[..|a.colWidths|] == a.colWidths
    ensures forall k :: |a.colWidths| <= k < |b.colWidths| ==> b.colWidths[k] == DefaultWidth
    ensures Valid(a) ==> Valid(b)
  {
    a.(colWidths := EnsureLength(a.colWidths, idx, DefaultWidth))
  }

  /** `EnsureRowExists`: row `idx` exists afterwards, new rows have the default height. */
  function EnsureRowExists(a: Sheet, idx: int): (b: Sheet)
    ensures b == a.(rowHeights := b.rowHeights)
    ensures |b.rowHeights| > idx && |b.rowHeights| >= |a.rowHeights|
    ensures b.rowHeights[..|a.rowHeights|] == a.rowHeights
    ensures forall k :: |a.rowHeights| <= k < |b.rowHeights| ==> b.rowHeights[k] == DefaultHeight
    ensures Valid(a) ==> Valid(b)
  {
    a.(rowHeights := EnsureLength(a.rowHeights, idx, DefaultHeight))
  }

  // -------------------------------------------------------------------------------------
  // Editing

  /** `SetCellValue`: the cursor cell gets `value`, growing the extents to reach it. */
  function SetCellValue(a: Sheet, value: string): (b: Sheet)
    requires Valid(a)
    ensures Valid(b)
    ensures b.grid == a.grid[(a.curRow, a.curCol) := Cell(value)]
    ensures b.curRow == a.curRow && b.curCol == a.curCol
    ensures Grown(a.colWidths, b.colWidths, a.curCol, DefaultWidth)
    ensures Grown(a.rowHeights, b.rowHeights, a.curRow, DefaultHeight)
  {
    var b := EnsureRowExists(EnsureColExists(a, a.curCol), a.curRow);
    b.(grid := b.grid[(a.curRow, a.curCol) := Cell(value)])
  }

  /** Enter in insert mode: a non-empty buffer is stored in the cursor cell, an empty one deletes
      that cell; with `advance` (no Ctrl, move-after-enter on) the cursor then moves down a row. */
  function Commit(a: Sheet, buf: string, advance: bool): (b: Sheet)
    requires Valid(a)
    ensures Valid(b)
    ensures buf != "" ==> b.grid == a.grid[(a.curRow, a.curCol) := Cell(buf)]
    ensures buf == "" ==> b.grid == a.grid - {(a.curRow, a.curCol)}
    ensures b.curRow == (if advance then a.curRow + 1 else a.curRow) && b.curCol == a.curCol
    ensures advance ==> b.curRow < |b.rowHeights|
    ensures buf != "" ==> Grown(a.colWidths, b.colWidths, a.curCol, DefaultWidth)
    ensures buf == "" ==> b.colWidths == a.colWidths
    ensures buf != "" || advance ==> Grown(a.rowHeights, b.rowHeights, b.curRow, DefaultHeight)
    ensures buf == "" && !advance ==> b.rowHeights == a.rowHeights
  {
    var b := if buf != "" then SetCellValue(a, buf) else a.(grid := a.grid - {(a.curRow, a.curCol)});
    if advance then
      var c := EnsureRowExists(b.(curRow := b.curRow + 1), b.curRow + 1);
      assert Grown(a.rowHeights, c.rowHeights, c.curRow, DefaultHeight) by {
        if buf != "" {
          GrownTwice(a.rowHeights, b.rowHeights, c.rowHeights, a.curRow, c.curRow, DefaultHeight);
        }
      }
      c
    else b
  }

  // -------------------------------------------------------------------------------------
  // Grid remapping

  function Clamp(x: int, lo: int, hi: int): (r: int)
    requires lo <= hi
    ensures lo <= r <= hi
    ensures lo <= x <= hi ==> r == x
  {
    if x < lo then lo else if x > hi then hi else x
  }

  /** A key after inserting a column at `idx`. */
  function ShiftCol(k: Coord, idx: int): Coord {
    if k.1 >= idx then (k.0, k.1 + 1) else k
  }

  /** A key after inserting a row at `idx`. */
  function ShiftRow(k: Coord, idx: int): Coord {
    if k.0 >= idx then (k.0 + 1, k.1) else k
  }

  /** A key after deleting column `cur`. */
  function UnshiftCol(k: Coord, cur: int): Coord {
    if k.1 > cur then (k.0, k.1 - 1) else k
  }

  /** A key after deleting row `cur`. */
  function UnshiftRow(k: Coord, cur: int): Coord {
    if k.0 > cur then (k.0 - 1, k.1) else k
  }

  lemma ShiftInjective(idx: int)
    ensures forall j, k :: ShiftCol(j, idx) == ShiftCol(k, idx) ==> j == k
    ensures forall j, k :: ShiftRow(j, idx) == ShiftRow(k, idx) ==> j == k
  {
  }

  lemma UnshiftInjective(cur: int)
    ensures forall j: Coord, k: Coord :: j.1 != cur && k.1 != cur && UnshiftCol(j, cur) == UnshiftCol(k, cur) ==> j == k
    ensures forall j: Coord, k: Coord :: j.0 != cur && k.0 != cur && UnshiftRow(j, cur) == UnshiftRow(k, cur) ==> j == k
  {
  }

  /** The grid after inserting column `idx`: cells left of it stay, the others move one
      column right, and column `idx` is empty. */
  function ShiftCols(grid: map<Coord, Cell>, idx: int): (g: map<Coord, Cell>)
    ensures forall k {:trigger k in g} :: k in g <==> (k.1 < idx && k in grid) || (k.1 > idx && (k.0, k.1 - 1) in grid)
    ensures forall k :: k in g ==> g[k] == if k.1 < idx then grid[k] else grid[(k.0, k.1 - 1)]
    ensures |g| == |grid|
  {
    var ks := ShiftedColKeys(grid.Keys, idx);
    var g := map k | k in ks :: grid[UnshiftCol(k, idx)];
    assert g.Keys == ks;
    assert |g| == |g.Keys|;
    g
  }

  /** The keys after inserting column `idx`: each old key moved by `ShiftCol`, none lost. */
  function ShiftedColKeys(keys: set<Coord>, idx: int): (ks: set<Coord>)
    ensures forall k {:trigger k in ks} :: k in ks <==> (k.1 < idx && k in keys) || (k.1 > idx && (k.0, k.1 - 1) in keys)
    ensures forall k :: k in ks ==> UnshiftCol(k, idx) in keys
    ensures |ks| == |keys|
  {
    var f := k => ShiftCol(k, idx);
    ShiftInjective(idx);
    var ks := set k | k in keys :: f(k);
    ImageCard(keys, ks, f);
    ShiftedColKeysMembers(keys, idx, f);
    ks
  }

  lemma ShiftedColKeysMembers(keys: set<Coord>, idx: int, f: Coord -> Coord)
    requires forall k :: f(k) == ShiftCol(k, idx)
    ensures var ks := set k | k in keys :: f(k);
      forall k {:trigger k in ks} :: k in ks <==> (k.1 < idx && k in keys) || (k.1 > idx && (k.0, k.1 - 1) in keys)
  {
    var ks := set k | k in keys :: f(k);
    assert forall k {:trigger k in ks} :: k in ks ==> (k.1 < idx && k in keys) || (k.1 > idx && (k.0, k.1 - 1) in keys) by {
      forall k | k in ks
        ensures (k.1 < idx && k in keys) || (k.1 > idx && (k.0, k.1 - 1) in keys)
      {
        var j :| j in keys && f(j) == k;
      }
    }
    assert forall k: Coord {:trigger k in ks} :: (k.1 < idx && k in keys) || (k.1 > idx && (k.0, k.1 - 1) in keys) ==> k in ks by {
      forall k: Coord | (k.1 < idx && k in keys) || (k.1 > idx && (k.0, k.1 - 1) in keys)
        ensures k in ks
      {
        if k.1 > idx {
          assert f((k.0, k.1 - 1)) == k;
        } else {
          assert f(k) == k;
        }
      }
    }
  }

  /** The grid after inserting row `idx`: cells above it stay, the others move one row down,
      and row `idx` is empty. */
  function ShiftRows(grid: map<Coord, Cell>, idx: int): (g: map<Coord, Cell>)
    ensures forall k {:trigger k in g} :: k in g <==> (k.0 < idx && k in grid) || (k.0 > idx && (k.0 - 1, k.1) in grid)
    ensures forall k :: k in g ==> g[k] == if k.0 < idx then grid[k] else grid[(k.0 - 1, k.1)]
    ensures |g| == |grid|
  {
    var ks := ShiftedRowKeys(grid.Keys, idx);
    var g := map k | k in ks :: grid[UnshiftRow(k, idx)];
    assert g.Keys == ks;
    assert |g| == |g.Keys|;
    g
  }

  /** The keys after inserting row `idx`: each old key moved by `ShiftRow`, none lost. */
  function ShiftedRowKeys(keys: set<Coord>, idx: int): (ks: set<Coord>)
    ensures forall k {:trigger k in ks} :: k in ks <==> (k.0 < idx && k in keys) || (k.0 > idx && (k.0 - 1, k.1) in keys)
    ensures forall k :: k in ks ==> UnshiftRow(k, idx) in keys
    ensures |ks| == |keys|
  {
    var f := k => ShiftRow(k, idx);
    ShiftInjective(idx);
    var ks := set k | k in keys :: f(k);
    ImageCard(keys, ks, f);
    ShiftedRowKeysMembers(keys, idx, f);
    ks
  }

  lemma ShiftedRowKeysMembers(keys: set<Coord>, idx: int, f: Coord -> Coord)
    requires forall k :: f(k) == ShiftRow(k, idx)
    ensures var ks := set k | k in keys :: f(k);
      forall k {:trigger k in ks} :: k in ks <==> (k.0 < idx && k in keys) || (k.0 > idx && (k.0 - 1, k.1) in keys)
  {
    var ks := set k | k in keys :: f(k);
    assert forall k {:trigger k in ks} :: k in ks ==> (k.0 < idx && k in keys) || (k.0 > idx && (k.0 - 1, k.1) in keys) by {
      forall k | k in ks
        ensures (k.0 < idx && k in keys) || (k.0 > idx && (k.0 - 1, k.1) in keys)
      {
        var j :| j in keys && f(j) == k;
      }
    }
    assert forall k: Coord {:trigger k in ks} :: (k.0 < idx && k in keys) || (k.0 > idx && (k.0 - 1, k.1) in keys) ==> k in ks by {
      forall k: Coord | (k.0 < idx && k in keys) || (k.0 > idx && (k.0 - 1, k.1) in keys)
        ensures k in ks
      {
        if k.0 > idx {
          assert f((k.0 - 1, k.1)) == k;
        } else {
          assert f(k) == k;
        }
      }
    }
  }

  /** The grid after deleting column `cur`: its cells are gone, cells right of it move one
      column left. */
  function DropCol(grid: map<Coord, Cell>, cur: int): (g: map<Coord, Cell>)
    ensures forall k {:trigger k in g} :: k in g <==> (k.1 < cur && k in grid) || (k.1 >= cur && (k.0, k.1 + 1) in grid)
    ensures forall k :: k in g ==> g[k] == if k.1 < cur then grid[k] else grid[(k.0, k.1 + 1)]
  {
    var ks := DroppedColKeys(grid.Keys, cur);
    map k | k in ks :: grid[ShiftCol(k, cur)]
  }

  /** The keys after deleting column `cur`: its keys are gone, the others moved by `UnshiftCol`. */
  function DroppedColKeys(keys: set<Coord>, cur: int): (ks: set<Coord>)
    ensures forall k {:trigger k in ks} :: k in ks <==> (k.1 < cur && k in keys) || (k.1 >= cur && (k.0, k.1 + 1) in keys)
    ensures forall k :: k in ks ==> ShiftCol(k, cur) in keys
  {
    var f := k => UnshiftCol(k, cur);
    DroppedColKeysMembers(keys, cur, f);
    set k | k in keys && k.1 != cur :: f(k)
  }

  lemma DroppedColKeysMembers(keys: set<Coord>, cur: int, f: Coord -> Coord)
    requires forall k :: f(k) == UnshiftCol(k, cur)
    ensures var ks := set k | k in keys && k.1 != cur :: f(k);
      forall k {:trigger k in ks} :: k in ks <==> (k.1 < cur && k in keys) || (k.1 >= cur && (k.0, k.1 + 1) in keys)
  {
    var ks := set k | k in keys && k.1 != cur :: f(k);
    assert forall k {:trigger k in ks} :: k in ks ==> (k.1 < cur && k in keys) || (k.1 >= cur && (k.0, k.1 + 1) in keys) by {
      forall k | k in ks
        ensures (k.1 < cur && k in keys) || (k.1 >= cur && (k.0, k.1 + 1) in keys)
      {
        var j :| j in keys && j.1 != cur && f(j) == k;
      }
    }
    assert forall k: Coord {:trigger k in ks} :: (k.1 < cur && k in keys) || (k.1 >= cur && (k.0, k.1 + 1) in keys) ==> k in ks by {
      forall k: Coord | (k.1 < cur && k in keys) || (k.1 >= cur && (k.0, k.1 + 1) in keys)
        ensures k in ks
      {
        if k.1 >= cur {
          assert f((k.0, k.1 + 1)) == k;
        } else {
          assert f(k) == k;
        }
      }
    }
  }

  /** The grid after deleting row `cur`: its cells are gone, cells below it move one row up. */
  function DropRow(grid: map<Coord, Cell>, cur: int): (g: map<Coord, Cell>)
    ensures forall k {:trigger k in g} :: k in g <==> (k.0 < cur && k in grid) || (k.0 >= cur && (k.0 + 1, k.1) in grid)
    ensures forall k :: k in g ==> g[k] == if k.0 < cur then grid[k] else grid[(k.0 + 1, k.1)]
  {
    var ks := DroppedRowKeys(grid.Keys, cur);
    map k | k in ks :: grid[ShiftRow(k, cur)]
  }

  /** The keys after deleting row `cur`: its keys are gone, the others moved by `UnshiftRow`. */
  function DroppedRowKeys(keys: set<Coord>, cur: int): (ks: set<Coord>)
    ensures forall k {:trigger k in ks} :: k in ks <==> (k.0 < cur && k in keys) || (k.0 >= cur && (k.0 + 1, k.1) in keys)
    ensures forall k :: k in ks ==> ShiftRow(k, cur) in keys
  {
    var f := k => UnshiftRow(k, cur);
    DroppedRowKeysMembers(keys, cur, f);
    set k | k in keys && k.0 != cur :: f(k)
  }

  lemma DroppedRowKeysMembers(keys: set<Coord>, cur: int, f: Coord -> Coord)
    requires forall k :: f(k) == UnshiftRow(k, cur)
    ensures var ks := set k | k in keys && k.0 != cur :: f(k);
      forall k {:trigger k in ks} :: k in ks <==> (k.0 < cur && k in keys) || (k.0 >= cur && (k.0 + 1, k.1) in keys)
  {
    var ks := set k | k in keys && k.0 != cur :: f(k);
    assert forall k {:trigger k in ks} :: k in ks ==> (k.0 < cur && k in keys) || (k.0 >= cur && (k.0 + 1, k.1) in keys) by {
      forall k | k in ks
        ensures (k.0 < cur && k in keys) || (k.0 >= cur && (k.0 + 1, k.1) in keys)
      {
        var j :| j in keys && j.0 != cur && f(j) == k;
      }
    }
    assert forall k: Coord {:trigger k in ks} :: (k.0 < cur && k in keys) || (k.0 >= cur && (k.0 + 1, k.1) in keys) ==> k in ks by {
      forall k: Coord | (k.0 < cur && k in keys) || (k.0 >= cur && (k.0 + 1, k.1) in keys)
        ensures k in ks
      {
        if k.0 >= cur {
          assert f((k.0 + 1, k.1)) == k;
        } else {
          assert f(k) == k;
        }
      }
    }
  }

  /** Inserting `x` at `idx` of a sequence. */
  function InsertAt(xs: seq<int>, idx: int, x: int): (r: seq<int>)
    requires 0 <= idx <= |xs|
    ensures |r| == |xs| + 1 && r[idx] == x
    ensures forall i :: 0 <= i < idx ==> r[i] == xs[i]
    ensures forall i :: idx < i < |r| ==> r[i] == xs[i - 1]
  {
    xs[..idx] + [x] + xs[idx..]
  }

  /** Removing the entry at `idx` of a sequence. */
  function RemoveAt(xs: seq<int>, idx: int): (r: seq<int>)
    requires 0 <= idx < |xs|
    ensures |r| == |xs| - 1
    ensures forall i :: 0 <= i < idx ==> r[i] == xs[i]
    ensures forall i :: idx <= i < |r| ==> r[i] == xs[i + 1]
  {
    xs[..idx] + xs[idx + 1..]
  }

  /** F3: a default-width column is inserted after the cursor column (clamped to the
      extents) and every cell from there on moves one column right. */
  function InsertColumn(a: Sheet): (b: Sheet)
    requires Valid(a)
    ensures Valid(b)
    ensures b.rowHeights == a.rowHeights && b.curRow == a.curRow && b.curCol == a.curCol
    ensures var idx := Clamp(a.curCol + 1, 0, |a.colWidths|);
      b.colWidths == InsertAt(a.colWidths, idx, DefaultWidth) && b.grid == ShiftCols(a.grid, idx)
  {
    var idx := Clamp(a.curCol + 1, 0, |a.colWidths|);
    a.(colWidths := InsertAt(a.colWidths, idx, DefaultWidth), grid := ShiftCols(a.grid, idx))
  }

  /** F2 as the program does it: a default-height row is inserted after the cursor row, but
      no cell moves. */
  function InsertRowAsWritten(a: Sheet): (b: Sheet)
    requires Valid(a)
    ensures Valid(b)
    ensures b.grid == a.grid && b.colWidths == a.colWidths && b.curRow == a.curRow && b.curCol == a.curCol
    ensures b.rowHeights == InsertAt(a.rowHeights, Clamp(a.curRow + 1, 0, |a.rowHeights|), DefaultHeight)
  {
    var idx := Clamp(a.curRow + 1, 0, |a.rowHeights|);
    a.(rowHeights := InsertAt(a.rowHeights, idx, DefaultHeight))
  }

  /** F2 as evidently intended, mirroring F3: every cell from the new row on moves one row down. */
  function InsertRow(a: Sheet): (b: Sheet)
    requires Valid(a)
    ensures Valid(b)
    ensures b.colWidths == a.colWidths && b.curRow == a.curRow && b.curCol == a.curCol
    ensures var idx := Clamp(a.curRow + 1, 0, |a.rowHeights|);
      b.rowHeights == InsertAt(a.rowHeights, idx, DefaultHeight) && b.grid == ShiftRows(a.grid, idx)
  {
    var idx := Clamp(a.curRow + 1, 0, |a.rowHeights|);
    a.(rowHeights := InsertAt(a.rowHeights, idx, DefaultHeight), grid := ShiftRows(a.grid, idx))
  }

  /** F4: the cursor row is removed together with its cells, the rows below move up, and the
      cursor is pulled back into the remaining rows.  Outside the extents nothing happens. */
  function DeleteRow(a: Sheet): (b: Sheet)
    requires Valid(a)
    ensures Valid(b)
    ensures !(a.curRow < |a.rowHeights|) ==> b == a
    ensures a.curRow < |a.rowHeights| ==>
      b.rowHeights == RemoveAt(a.rowHeights, a.curRow) && b.grid == DropRow(a.grid, a.curRow) &&
      b.colWidths == a.colWidths && b.curCol == a.curCol &&
      b.curRow == (if a.curRow >= |b.rowHeights| then Max(0, |b.rowHeights| - 1) else a.curRow)
  {
    if |a.rowHeights| > 0 && 0 <= a.curRow < |a.rowHeights| then
      var cur := a.curRow;
      var rows := RemoveAt(a.rowHeights, cur);
      Sheet(DropRow(a.grid, cur), a.colWidths, rows, if cur >= |rows| then Max(0, |rows| - 1) else cur, a.curCol)
    else a
  }

  /** F5: the cursor column is removed together with its cells, the columns to the right move
      left, and the cursor is pulled back into the remaining columns. */
  function DeleteColumn(a: Sheet): (b: Sheet)
    requires Valid(a)
    ensures Valid(b)
    ensures !(a.curCol < |a.colWidths|) ==> b == a
    ensures a.curCol < |a.colWidths| ==>
      b.colWidths == RemoveAt(a.colWidths, a.curCol) && b.grid == DropCol(a.grid, a.curCol) &&
      b.rowHeights == a.rowHeights && b.curRow == a.curRow &&
      b.curCol == (if a.curCol >= |b.colWidths| then Max(0, |b.colWidths| - 1) else a.curCol)
  {
    if |a.colWidths| > 0 && 0 <= a.curCol < |a.colWidths| then
      var cur := a.curCol;
      var cols := RemoveAt(a.colWidths, cur);
      Sheet(DropCol(a.grid, cur), cols, a.rowHeights, a.curRow, if cur >= |cols| then Max(0, |cols| - 1) else cur)
    else a
  }

  /** The row F2 inserts is empty only if no cell sits at or below it: otherwise the cells
      that were there show up in the wrong rows. */
  lemma InsertRowAsWrittenMisplaces()
    ensures var a := Sheet(map[(1, 0) := Cell("x")], [DefaultWidth], [DefaultHeight, DefaultHeight], 0, 0);
      Valid(a) && (1, 0) in InsertRowAsWritten(a).grid && (1, 0) !in InsertRow(a).grid
  {
    var a := Sheet(map[(1, 0) := Cell("x")], [DefaultWidth], [DefaultHeight, DefaultHeight], 0, 0);
    assert Clamp(1, 0, 2) == 1;
    assert (2, 0) in InsertRow(a).grid;
  }

  /** Every cell of the grid is found at its shifted key after a row insertion (so the
      corrected F2 moves the cells below the cursor down with their rows). */
  lemma ShiftRowsMoves(grid: map<Coord, Cell>, idx: int)
    ensures var g := ShiftRows(grid, idx);
      forall k {:trigger ShiftRow(k, idx)} :: k in grid ==> ShiftRow(k, idx) in g && g[ShiftRow(k, idx)] == grid[k]
  {
    RowMoves(grid, ShiftRows(grid, idx), idx);
  }

  lemma RowMoves(grid: map<Coord, Cell>, g: map<Coord, Cell>, idx: int)
    requires forall k {:trigger k in g} :: k in g <==> (k.0 < idx && k in grid) || (k.0 > idx && (k.0 - 1, k.1) in grid)
    requires forall k :: k in g ==> g[k] == if k.0 < idx then grid[k] else grid[(k.0 - 1, k.1)]
    ensures forall k {:trigger ShiftRow(k, idx)} :: k in grid ==> ShiftRow(k, idx) in g && g[ShiftRow(k, idx)] == grid[k]
  {
    forall k {:trigger ShiftRow(k, idx)} | k in grid
      ensures ShiftRow(k, idx) in g && g[ShiftRow(k, idx)] == grid[k]
    {
      var j := ShiftRow(k, idx);
      if k.0 < idx {
        assert j == k;
        assert j in g;
      } else {
        assert j.0 > idx && (j.0 - 1, j.1) == k;
        assert j in g;
      }
    }
  }

  // -------------------------------------------------------------------------------------
  // Renderer helpers

  /** `splitLines`: no lines for a non-positive count, otherwise exactly `n` lines, line `i`
      being the `i`-th newline-separated part of the text or empty. */
  function SplitLines(text: string, n: int): (r: seq<string>)
    ensures n <= 0 ==> r == []
    ensures n > 0 ==> |r| == n
    ensures n > 0 ==> forall i :: 0 <= i < n ==>
      r[i] == (if i < |Split(text, '\n')| then Split(text, '\n')[i] else "")
  {
    if n <= 0 then []
    else if text == "" then seq(n, _ => "")
    else
      var parts := Split(text, '\n');
      seq(n, i => if 0 <= i < |parts| then parts[i] else "")
  }

  /** Concatenation of a list of strings. */
  function Concat(parts: seq<string>): string
  {
    if |parts| == 0 then "" else Concat(parts[..|parts| - 1]) + parts[|parts| - 1]
  }

  /** `chunkString`: consecutive pieces of `size` characters, the last one possibly shorter.
      The renderer only calls it with a size of at least 2. */
  lemma ConcatSnoc(parts: seq<string>, x: string)
    ensures Concat(parts + [x]) == Concat(parts) + x
  {
    assert (parts + [x])[..|parts|] == parts;
  }

  method ChunkString(s: string, size: int) returns (out: seq<string>)
    requires size > 0
    ensures Concat(out) == s
    ensures forall k :: 0 <= k < |out| ==> 0 < |out[k]| <= size
    ensures forall k :: 0 <= k < |out| - 1 ==> |out[k]| == size
  {
    out := [];
    var i := 0;
    while i < |s|
      invariant 0 <= i <= |s|
      invariant i < |s| ==> i == |out| * size
      invariant Concat(out) == s[..i]
      invariant forall k :: 0 <= k < |out| ==> 0 < |out[k]| <= size
      invariant forall k :: 0 <= k < |out| - 1 ==> |out[k]| == size
      invariant i < |s| ==> forall k :: 0 <= k < |out| ==> |out[k]| == size
      decreases |s| - i
    {
      var j := i + size;
      if j > |s| {
        j := |s|;
      }
      var chunk := s[i..j];
      assert Concat(out + [chunk]) == s[..j] by {
        ConcatSnoc(out, chunk);
        assert s[..i] + chunk == s[..j];
      }
      assert (|out| + 1) * size == |out| * size + size;
      out := out + [chunk];
      i := j;
    }
    assert s[..|s|] == s;
  }
}
