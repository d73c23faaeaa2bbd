/** A reference semantics for the arithmetic part of the formula language, independent of any
    text: expression trees over numerals, cell references, unary minus and the four operators,
    evaluated left operand first, errors propagating outward, division by a value within the
    tolerance of zero failing with `#DIV/0`.  A printer writes a tree as formula text with the
    fewest parentheses precedence allows, and the main theorem says the parser computes, on
    every printed tree, exactly the value the tree denotes: products bind tighter than sums,
    both associate to the left, and unary minus applies to a factor. */
module CalcSpec {
  import opened Text
  import opened Grid
  import opened Numeric
  import opened Calc

  datatype Op = Plus | Minus | Times | Over

  datatype Expr =
    | Lit(n: nat)
    | CellRef(col: nat, row: nat)
    | Neg(arg: Expr)
    | Pos(arg: Expr)
    | Bin(op: Op, left: Expr, right: Expr)

  predicate IsSum(e: Expr) {
    e.Bin? && (e.op == Plus || e.op == Minus)
  }

  predicate IsProduct(e: Expr) {
    e.Bin? && (e.op == Times || e.op == Over)
  }

  /** One operator applied to two values. */
  function Apply(op: Op, a: real, b: real): Val {
    match op
    case Plus => Num(Addition(a, b))
    case Minus => Num(Difference(a, b))
    case Times => Num(Product(a, b))
    case Over => if Abs(b) < Epsilon then Fail(DivZero) else Num(Quotient(a, b))
  }

  /** A binary operator on two values: the left operand's error first, then the right one's. */
  function Combine(op: Op, l: Val, r: Val): Val {
    match l
    case Fail(c) => Fail(c)
    case Num(a) =>
      match r
      case Fail(c) => Fail(c)
      case Num(b) => Apply(op, a, b)
  }

  /** Unary minus on a value; an error stays as it is. */
  function Negated(v: Val): Val {
    match v
    case Fail(c) => Fail(c)
    case Num(x) => Num(-x)
  }

  /** The value a tree denotes: the left operand's error first, then the right one's. */
  function Eval(e: Expr, resolve: Resolver): Val {
    match e
    case Lit(n) => Num(n as real)
    case CellRef(col, row) => resolve(ColRowToName(col, row))
    case Neg(x) => Negated(Eval(x, resolve))
    case Pos(x) => Eval(x, resolve)
    case Bin(op, l, r) => Combine(op, Eval(l, resolve), Eval(r, resolve))
  }

  function OpChar(op: Op): char {
    match op
    case Plus => '+'
    case Minus => '-'
    case Times => '*'
    case Over => '/'
  }

  /** The characters a printed tree can start with. */
  predicate StartChar(c: char) {
    IsDigit(c) || ('A' <= c <= 'Z') || c == '-' || c == '+' || c == '('
  }

  /** The characters a printed tree can end with. */
  predicate EndChar(c: char) {
    IsDigit(c) || c == ')'
  }

  /** A tree as a sum: a left-nested chain of `+`/`-` over terms. */
  function ShowSum(e: Expr): (r: string)
    ensures |r| > 0 && StartChar(r[0]) && EndChar(r[|r| - 1])
    decreases e, 2
  {
    if IsSum(e) then ShowSum(e.left) + [OpChar(e.op)] + ShowTerm(e.right) else ShowTerm(e)
  }

  /** A tree as a term: a left-nested chain of `*`/`/` over factors. */
  function ShowTerm(e: Expr): (r: string)
    ensures |r| > 0 && StartChar(r[0]) && EndChar(r[|r| - 1])
    decreases e, if IsSum(e) then 4 else 1
  {
    if IsProduct(e) then ShowTerm(e.left) + [OpChar(e.op)] + ShowFactor(e.right) else ShowFactor(e)
  }

  /** A tree as a factor: a numeral, a cell name, a signed factor, or a parenthesised sum. */
  function ShowFactor(e: Expr): (r: string)
    ensures |r| > 0 && StartChar(r[0]) && EndChar(r[|r| - 1])
    decreases e, if e.Bin? then 3 else 0
  {
    match e
    case Lit(n) => NatToDecimal(n)
    case CellRef(col, row) =>
      var name := ColToName(col) + IntToDecimal(row + 1);
      assert name[|name| - 1] == IntToDecimal(row + 1)[|IntToDecimal(row + 1)| - 1];
      name
    case Neg(x) => "-" + ShowFactor(x)
    case Pos(x) => "+" + ShowFactor(x)
    case Bin(_, _, _) => "(" + ShowSum(e) + ")"
  }

  /** The printed name of a reference is the canonical cell name. */
  lemma ShowCellRef(col: nat, row: nat)
    ensures ShowFactor(CellRef(col, row)) == ColRowToName(col, row)
  {
  }

  // -------------------------------------------------------------------------------------
  // Positional lemmas: a printed tree sitting at position `p` of a longer text.

  /** `x` occurs in `s` at `p`. */
  predicate At(s: string, p: nat, x: string) {
    p + |x| <= |s| && forall i :: 0 <= i < |x| ==> s[p + i] == x[i]
  }

  /** What may follow a factor: the end of the text or an operator or `)`. */
  predicate FactorStop(s: string, j: nat) {
    j == |s| || (j < |s| && (s[j] == '+' || s[j] == '-' || s[j] == '*' || s[j] == '/' || s[j] == ')'))
  }

  /** What may follow a term: the end of the text, `+`, `-` or `)`. */
  predicate TermStop(s: string, j: nat) {
    j == |s| || (j < |s| && (s[j] == '+' || s[j] == '-' || s[j] == ')'))
  }

  /** A parse result from a denoted value and the position after it. */
  function Lifted(v: Val, end: nat): (r: Parsed)
    ensures r.Ok? <==> v.Num?
  {
    match v
    case Num(x) => Ok(x, end)
    case Fail(c) => Err(c)
  }

  lemma AtParts(s: string, p: nat, a: string, b: string)
    requires At(s, p, a + b)
    ensures At(s, p, a) && At(s, p + |a|, b)
  {
    var x := a + b;
    forall i | 0 <= i < |a|
      ensures s[p + i] == a[i]
    {
      assert x[i] == a[i];
    }
    forall i | 0 <= i < |b|
      ensures s[p + |a| + i] == b[i]
    {
      assert x[|a| + i] == b[i];
    }
  }

  lemma AtChar(s: string, p: nat, x: string, i: nat)
    requires At(s, p, x) && i < |x|
    ensures s[p + i] == x[i]
  {
  }

  lemma {:induction false} NumberEndDigits(s: string, j: nat, end: nat)
    requires j <= end <= |s|
    requires forall k :: j <= k < end ==> IsDigit(s[k])
    requires end < |s| ==> !IsDigit(s[end]) && s[end] != '.' && s[end] != 'e' && s[end] != 'E'
    ensures NumberEnd(s, j, false, false) == end
    decreases end - j
  {
    if j < end {
      NumberEndDigits(s, j + 1, end);
    }
  }

  lemma {:induction false} LetterRunLetters(s: string, j: nat, end: nat)
    requires j <= end <= |s|
    requires forall k :: j <= k < end ==> IsLetter(s[k])
    requires end < |s| ==> !IsLetter(s[end])
    ensures LetterRun(s, j) == end
    decreases end - j
  {
    if j < end {
      LetterRunLetters(s, j + 1, end);
    }
  }

  lemma {:induction false} DigitRunDigits(s: string, j: nat, end: nat)
    requires j <= end <= |s|
    requires forall k :: j <= k < end ==> IsDigit(s[k])
    requires end < |s| ==> !IsDigit(s[end])
    ensures DigitRun(s, j) == end
    decreases end - j
  {
    if j < end {
      DigitRunDigits(s, j + 1, end);
    }
  }

  /** A numeral followed by an operator, `)` or the end reads as its value. */
  lemma FactorLit(s: string, p: nat, n: nat, env: Env)
    requires At(s, p, NatToDecimal(n)) && FactorStop(s, p + |NatToDecimal(n)|)
    ensures Factor(s, p, env) == Ok(n as real, p + |NatToDecimal(n)|)
  {
    var d := NatToDecimal(n);
    var end := p + |d|;
    AtChar(s, p, d, 0);
    assert SkipSpaces(s, p) == p;
    forall k | p <= k < end ensures IsDigit(s[k]) {
      AtChar(s, p, d, k - p);
    }
    NumberEndDigits(s, p, end);
    ParseFloatOfDecimal(n);
    assert s[p..end] == d;
    assert Primary(s, p, env) == Ok(n as real, end);
  }

  /** A cell name followed by an operator, `)` or the end reads as what the resolver gives. */
  lemma FactorCellRef(s: string, p: nat, col: nat, row: nat, env: Env)
    requires At(s, p, ShowFactor(CellRef(col, row))) && FactorStop(s, p + |ShowFactor(CellRef(col, row))|)
    ensures Factor(s, p, env) == Lifted(env.resolve(ColRowToName(col, row)), p + |ShowFactor(CellRef(col, row))|)
  {
    var letters := ColToName(col);
    var digits := IntToDecimal(row + 1);
    assert letters + digits == ShowFactor(CellRef(col, row));
    FactorNameAt(s, p, letters, digits, env);
  }

  /** A factor that is a run of capitals and then a run of digits is a reference to the
      cell of that name. */
  lemma FactorNameAt(s: string, p: nat, letters: string, digits: string, env: Env)
    requires At(s, p, letters + digits) && FactorStop(s, p + |letters| + |digits|)
    requires |letters| > 0 && AllUpper(letters) && |digits| > 0 && AllDigits(digits)
    ensures Factor(s, p, env) == Lifted(env.resolve(letters + digits), p + |letters| + |digits|)
  {
    var j := p + |letters|;
    var end := j + |digits|;
    NameRuns(s, p, letters, digits);
    AtSlice(s, p, letters + digits);
    PrimaryName(s, p, j, end, env);
  }

  /** Text that sits at `p` is the slice there. */
  lemma AtSlice(s: string, p: nat, x: string)
    requires At(s, p, x)
    ensures s[p..p + |x|] == x
  {
  }

  /** Where the letter and digit runs of a cell name sitting at `p` end. */
  lemma NameRuns(s: string, p: nat, letters: string, digits: string)
    requires At(s, p, letters + digits) && FactorStop(s, p + |letters| + |digits|)
    requires |letters| > 0 && AllUpper(letters) && |digits| > 0 && AllDigits(digits)
    ensures p < |s| && 'A' <= s[p] <= 'Z'
    ensures LetterRun(s, p) == p + |letters| && p + |letters| < |s| && IsDigit(s[p + |letters|])
    ensures DigitRun(s, p + |letters|) == p + |letters| + |digits|
  {
    var j := p + |letters|;
    var end := j + |digits|;
    AtParts(s, p, letters, digits);
    forall k | p <= k < j ensures 'A' <= s[k] <= 'Z' {
      AtChar(s, p, letters, k - p);
    }
    forall k | j <= k < end ensures IsDigit(s[k]) {
      AtChar(s, j, digits, k - j);
    }
    LetterRunLetters(s, p, j);
    DigitRunDigits(s, j, end);
  }

  /** A factor that starts with a letter run followed directly by digits is a reference. */
  lemma PrimaryName(s: string, p: nat, j: nat, end: nat, env: Env)
    requires p < |s| && 'A' <= s[p] <= 'Z'
    requires LetterRun(s, p) == j && j < |s| && IsDigit(s[j]) && DigitRun(s, j) == end
    ensures Factor(s, p, env) == Lifted(env.resolve(s[p..end]), end)
  {
    assert SkipSpaces(s, p) == p;
    assert SkipSpaces(s, j) == j;
    assert PrimaryAt(s, p, env) == Lifted(env.resolve(s[p..end]), end);
    assert Primary(s, p, env) == PrimaryAt(s, p, env);
  }

  /** A leading `-` negates the factor after it. */
  lemma FactorNegStep(s: string, p: nat, env: Env)
    requires p < |s| && s[p] == '-'
    ensures Factor(s, p, env) ==
      match Factor(s, p + 1, env)
      case Err(c) => Err(c)
      case Ok(v, q) => Ok(-v, q)
  {
    assert SkipSpaces(s, p) == p;
  }

  /** A `(` starts a parenthesised sum that must be closed. */
  lemma FactorParenStep(s: string, p: nat, env: Env)
    requires p < |s| && s[p] == '('
    ensures Factor(s, p, env) ==
      match AddSub(s, p + 1, env)
      case Err(e) => Err(e)
      case Ok(v, q2) =>
        var q3 := SkipSpaces(s, q2);
        if q3 >= |s| || s[q3] != ')' then Err(Generic) else Ok(v, q3 + 1)
  {
    assert SkipSpaces(s, p) == p;
    assert Primary(s, p, env) == PrimaryAt(s, p, env);
  }

  /** The product loop stops at anything but `*` and `/`. */
  lemma MulDivRestStops(s: string, j: nat, acc: real, env: Env)
    requires j <= |s| && TermStop(s, j)
    ensures MulDivRest(s, j, acc, env) == Ok(acc, j)
  {
    assert SkipSpaces(s, j) == j;
  }

  /** The sum loop stops at the end of the text or at `)`. */
  lemma AddSubRestStops(s: string, j: nat, acc: real, env: Env)
    requires j <= |s| && (j == |s| || s[j] == ')')
    ensures AddSubRest(s, j, acc, env) == Ok(acc, j)
  {
    assert SkipSpaces(s, j) == j;
  }

  /** One round of the product loop over `op factor`. */
  lemma MulDivRestStep(s: string, j: nat, acc: real, env: Env)
    requires j < |s| && (s[j] == '*' || s[j] == '/')
    ensures MulDivRest(s, j, acc, env) ==
      match Factor(s, j + 1, env)
      case Err(e) => Err(e)
      case Ok(right, q2) =>
        if s[j] == '*' then MulDivRest(s, q2, Product(acc, right), env)
        else if Abs(right) < Epsilon then Err(DivZero)
        else MulDivRest(s, q2, Quotient(acc, right), env)
  {
    assert SkipSpaces(s, j) == j;
  }

  /** One round of the sum loop over `op term`. */
  lemma AddSubRestStep(s: string, j: nat, acc: real, env: Env)
    requires j < |s| && (s[j] == '+' || s[j] == '-')
    ensures AddSubRest(s, j, acc, env) ==
      match MulDiv(s, j + 1, env)
      case Err(e) => Err(e)
      case Ok(right, q2) => AddSubRest(s, q2, if s[j] == '+' then Addition(acc, right) else Difference(acc, right), env)
  {
    assert SkipSpaces(s, j) == j;
  }

  /** A printed factor parses to the value its tree denotes. */
  lemma {:induction false} FactorParse(s: string, p: nat, e: Expr, env: Env)
    requires At(s, p, ShowFactor(e)) && FactorStop(s, p + |ShowFactor(e)|)
    ensures Factor(s, p, env) == Lifted(Eval(e, env.resolve), p + |ShowFactor(e)|)
    decreases e, if e.Bin? then 13 else 1
  {
    if e.Lit? {
      FactorLitCase(s, p, e, env);
    } else if e.CellRef? {
      FactorCellRefCase(s, p, e, env);
    } else if e.Neg? {
      FactorNegCase(s, p, e, env);
    } else if e.Pos? {
      FactorPosCase(s, p, e, env);
    } else {
      FactorBinCase(s, p, e, env);
    }
  }

  lemma FactorLitCase(s: string, p: nat, e: Expr, env: Env)
    requires e.Lit? && At(s, p, ShowFactor(e)) && FactorStop(s, p + |ShowFactor(e)|)
    ensures Factor(s, p, env) == Lifted(Eval(e, env.resolve), p + |ShowFactor(e)|)
  {
    FactorLit(s, p, e.n, env);
  }

  lemma FactorCellRefCase(s: string, p: nat, e: Expr, env: Env)
    requires e.CellRef? && At(s, p, ShowFactor(e)) && FactorStop(s, p + |ShowFactor(e)|)
    ensures Factor(s, p, env) == Lifted(Eval(e, env.resolve), p + |ShowFactor(e)|)
  {
    FactorCellRef(s, p, e.col, e.row, env);
  }

  lemma {:induction false} FactorNegCase(s: string, p: nat, e: Expr, env: Env)
    requires e.Neg? && At(s, p, ShowFactor(e)) && FactorStop(s, p + |ShowFactor(e)|)
    ensures Factor(s, p, env) == Lifted(Eval(e, env.resolve), p + |ShowFactor(e)|)
    decreases e, 0
  {
    var a := e.arg;
    var end := p + |ShowFactor(e)|;
    NegAt(s, p, a);
    FactorParse(s, p + 1, a, env);
    FactorNeg(s, p, Eval(a, env.resolve), end, env);
  }

  lemma {:induction false} FactorPosCase(s: string, p: nat, e: Expr, env: Env)
    requires e.Pos? && At(s, p, ShowFactor(e)) && FactorStop(s, p + |ShowFactor(e)|)
    ensures Factor(s, p, env) == Lifted(Eval(e, env.resolve), p + |ShowFactor(e)|)
    decreases e, 0
  {
    var a := e.arg;
    var end := p + |ShowFactor(e)|;
    PosAt(s, p, a);
    FactorParse(s, p + 1, a, env);
    FactorPos(s, p, Eval(a, env.resolve), end, env);
  }

  lemma {:induction false} FactorBinCase(s: string, p: nat, e: Expr, env: Env)
    requires e.Bin? && At(s, p, ShowFactor(e)) && FactorStop(s, p + |ShowFactor(e)|)
    ensures Factor(s, p, env) == Lifted(Eval(e, env.resolve), p + |ShowFactor(e)|)
    decreases e, 12
  {
    var close := p + 1 + |ShowSum(e)|;
    ParenAt(s, p, e);
    SumParse(s, p + 1, e, env);
    FactorParen(s, p, Eval(e, env.resolve), close, env);
  }

  lemma NegAt(s: string, p: nat, a: Expr)
    requires At(s, p, ShowFactor(Neg(a)))
    ensures p < |s| && s[p] == '-' && At(s, p + 1, ShowFactor(a))
    ensures p + |ShowFactor(Neg(a))| == p + 1 + |ShowFactor(a)|
  {
    AtParts(s, p, "-", ShowFactor(a));
    AtChar(s, p, ShowFactor(Neg(a)), 0);
  }

  lemma PosAt(s: string, p: nat, a: Expr)
    requires At(s, p, ShowFactor(Pos(a)))
    ensures p < |s| && s[p] == '+' && At(s, p + 1, ShowFactor(a))
    ensures p + |ShowFactor(Pos(a))| == p + 1 + |ShowFactor(a)|
  {
    AtParts(s, p, "+", ShowFactor(a));
    AtChar(s, p, ShowFactor(Pos(a)), 0);
  }

  lemma ParenAt(s: string, p: nat, e: Expr)
    requires e.Bin? && At(s, p, ShowFactor(e))
    ensures p < |s| && s[p] == '(' && At(s, p + 1, ShowSum(e))
    ensures p + 1 + |ShowSum(e)| < |s| && s[p + 1 + |ShowSum(e)|] == ')'
    ensures p + |ShowFactor(e)| == p + 1 + |ShowSum(e)| + 1
  {
    var x := ShowFactor(e);
    var y := ShowSum(e);
    assert x == "(" + y + ")";
    AtParts(s, p, "(" + y, ")");
    AtParts(s, p, "(", y);
    AtChar(s, p, x, 0);
    AtChar(s, p, x, |x| - 1);
  }

  lemma FactorNeg(s: string, p: nat, v: Val, end: nat, env: Env)
    requires p < |s| && s[p] == '-' && end <= |s|
    requires Factor(s, p + 1, env) == Lifted(v, end)
    ensures Factor(s, p, env) == Lifted(Negated(v), end)
  {
    FactorNegStep(s, p, env);
  }

  /** A leading `+` leaves the factor after it as it is. */
  lemma FactorPos(s: string, p: nat, v: Val, end: nat, env: Env)
    requires p < |s| && s[p] == '+' && end <= |s|
    requires Factor(s, p + 1, env) == Lifted(v, end)
    ensures Factor(s, p, env) == Lifted(v, end)
  {
    assert SkipSpaces(s, p) == p;
  }

  lemma FactorParen(s: string, p: nat, v: Val, close: nat, env: Env)
    requires p < close < |s| && s[p] == '(' && s[close] == ')'
    requires AddSub(s, p + 1, env) == SumResult(s, close, v, env)
    ensures Factor(s, p, env) == Lifted(v, close + 1)
  {
    FactorParenStep(s, p, env);
    match v {
    case Fail(_) =>
    case Num(x) =>
      AddSubRestStops(s, close, x, env);
      assert SkipSpaces(s, close) == close;
    }
  }

  /** A printed term parses to the value its tree denotes and leaves the product loop at its end. */
  lemma {:induction false} TermParse(s: string, p: nat, e: Expr, env: Env)
    requires At(s, p, ShowTerm(e)) && FactorStop(s, p + |ShowTerm(e)|)
    ensures MulDiv(s, p, env) == TermResult(s, p + |ShowTerm(e)|, Eval(e, env.resolve), env)
    decreases e, if IsSum(e) then 20 else 8
  {
    if !IsProduct(e) {
      TermFactorCase(s, p, e, env);
    } else {
      TermProductCase(s, p, e, env);
    }
  }

  lemma {:induction false} TermFactorCase(s: string, p: nat, e: Expr, env: Env)
    requires !IsProduct(e) && At(s, p, ShowTerm(e)) && FactorStop(s, p + |ShowTerm(e)|)
    ensures MulDiv(s, p, env) == TermResult(s, p + |ShowTerm(e)|, Eval(e, env.resolve), env)
    decreases e, if IsSum(e) then 19 else 7
  {
    var v := Eval(e, env.resolve);
    var end := p + |ShowTerm(e)|;
    assert ShowTerm(e) == ShowFactor(e);
    assert Factor(s, p, env) == Lifted(v, end) && p < end by {
      FactorParse(s, p, e, env);
    }
    assert MulDiv(s, p, env) == TermResult(s, end, v, env) by {
      TermOfFactor(s, p, v, end, env);
    }
  }

  lemma {:induction false} TermProductCase(s: string, p: nat, e: Expr, env: Env)
    requires IsProduct(e) && At(s, p, ShowTerm(e)) && FactorStop(s, p + |ShowTerm(e)|)
    ensures MulDiv(s, p, env) == TermResult(s, p + |ShowTerm(e)|, Eval(e, env.resolve), env)
    decreases e, 7
  {
    var opEnd := p + |ShowTerm(e.left)|;
    var end := p + |ShowTerm(e)|;
    var l := Eval(e.left, env.resolve);
    var r := Eval(e.right, env.resolve);
    assert At(s, p, ShowTerm(e.left)) && opEnd < |s| && s[opEnd] == OpChar(e.op) &&
      At(s, opEnd + 1, ShowFactor(e.right)) && end == opEnd + 1 + |ShowFactor(e.right)| by {
      ProductAt(s, p, e);
    }
    assert MulDiv(s, p, env) == TermResult(s, opEnd, l, env) by {
      TermParse(s, p, e.left, env);
    }
    assert Factor(s, opEnd + 1, env) == Lifted(r, end) by {
      FactorParse(s, opEnd + 1, e.right, env);
    }
    assert TermResult(s, opEnd, l, env) == TermResult(s, end, Combine(e.op, l, r), env) by {
      TermStep(s, opEnd, end, e.op, l, r, env);
    }
    assert Eval(e, env.resolve) == Combine(e.op, l, r);
  }

  /** Where the product loop continues from after a term, or the error it stopped with. */
  function TermResult(s: string, end: nat, v: Val, env: Env): Parsed
    requires end <= |s|
  {
    match v
    case Fail(c) => Err(c)
    case Num(x) => MulDivRest(s, end, x, env)
  }

  /** Where the sum loop continues from after a sum, or the error it stopped with. */
  function SumResult(s: string, end: nat, v: Val, env: Env): Parsed
    requires end <= |s|
  {
    match v
    case Fail(c) => Err(c)
    case Num(x) => AddSubRest(s, end, x, env)
  }

  lemma TermOfFactor(s: string, p: nat, v: Val, end: nat, env: Env)
    requires p < end <= |s| && Factor(s, p, env) == Lifted(v, end)
    ensures MulDiv(s, p, env) == TermResult(s, end, v, env)
  {
  }

  lemma ProductAt(s: string, p: nat, e: Expr)
    requires IsProduct(e) && At(s, p, ShowTerm(e))
    ensures var opEnd := p + |ShowTerm(e.left)|;
      At(s, p, ShowTerm(e.left)) && opEnd < |s| && s[opEnd] == OpChar(e.op) &&
      At(s, opEnd + 1, ShowFactor(e.right)) &&
      p + |ShowTerm(e)| == opEnd + 1 + |ShowFactor(e.right)|
  {
    var l := ShowTerm(e.left);
    var o := [OpChar(e.op)];
    var r := ShowFactor(e.right);
    assert ShowTerm(e) == l + o + r;
    AtParts(s, p, l + o, r);
    AtParts(s, p, l, o);
    AtChar(s, p + |l|, o, 0);
  }

  /** One `*` or `/` round of the product loop combines the values on either side. */
  lemma TermStep(s: string, opEnd: nat, end: nat, op: Op, l: Val, r: Val, env: Env)
    requires op == Times || op == Over
    requires opEnd < |s| && end <= |s| && s[opEnd] == OpChar(op)
    requires Factor(s, opEnd + 1, env) == Lifted(r, end)
    ensures TermResult(s, opEnd, l, env) == TermResult(s, end, Combine(op, l, r), env)
  {
    match l {
    case Fail(_) =>
    case Num(a) =>
      MulDivRestStep(s, opEnd, a, env);
      match r {
      case Fail(_) =>
      case Num(b) =>
      }
    }
  }

  /** A printed sum parses to the value its tree denotes and leaves the sum loop at its end. */
  lemma {:induction false} SumParse(s: string, p: nat, e: Expr, env: Env)
    requires At(s, p, ShowSum(e)) && TermStop(s, p + |ShowSum(e)|)
    ensures AddSub(s, p, env) == SumResult(s, p + |ShowSum(e)|, Eval(e, env.resolve), env)
    decreases e, 10
  {
    if !IsSum(e) {
      SumTermCase(s, p, e, env);
    } else {
      SumSumCase(s, p, e, env);
    }
  }

  lemma {:induction false} SumTermCase(s: string, p: nat, e: Expr, env: Env)
    requires !IsSum(e) && At(s, p, ShowSum(e)) && TermStop(s, p + |ShowSum(e)|)
    ensures AddSub(s, p, env) == SumResult(s, p + |ShowSum(e)|, Eval(e, env.resolve), env)
    decreases e, 9
  {
    var v := Eval(e, env.resolve);
    var end := p + |ShowSum(e)|;
    SumOfTermShown(e);
    assert MulDiv(s, p, env) == TermResult(s, end, v, env) by {
      TermParse(s, p, e, env);
    }
    SumOfTerm(s, p, v, end, env);
  }

  lemma {:induction false} SumSumCase(s: string, p: nat, e: Expr, env: Env)
    requires IsSum(e) && At(s, p, ShowSum(e)) && TermStop(s, p + |ShowSum(e)|)
    ensures AddSub(s, p, env) == SumResult(s, p + |ShowSum(e)|, Eval(e, env.resolve), env)
    decreases e, 9
  {
    var opEnd := p + |ShowSum(e.left)|;
    var end := p + |ShowSum(e)|;
    var l := Eval(e.left, env.resolve);
    var r := Eval(e.right, env.resolve);
    assert At(s, p, ShowSum(e.left)) && opEnd < |s| && s[opEnd] == OpChar(e.op) &&
      At(s, opEnd + 1, ShowTerm(e.right)) && end == opEnd + 1 + |ShowTerm(e.right)| by {
      SumAt(s, p, e);
    }
    assert AddSub(s, p, env) == SumResult(s, opEnd, l, env) by {
      SumParse(s, p, e.left, env);
    }
    assert MulDiv(s, opEnd + 1, env) == TermResult(s, end, r, env) by {
      TermParse(s, opEnd + 1, e.right, env);
    }
    assert SumResult(s, opEnd, l, env) == SumResult(s, end, Combine(e.op, l, r), env) by {
      SumStep(s, opEnd, end, e.op, l, r, env);
    }
    assert Eval(e, env.resolve) == Combine(e.op, l, r);
  }

  /** A tree that is not a sum prints as a term. */
  lemma SumOfTermShown(e: Expr)
    requires !IsSum(e)
    ensures ShowSum(e) == ShowTerm(e)
  {
  }

  lemma SumOfTerm(s: string, p: nat, v: Val, end: nat, env: Env)
    requires p <= end <= |s| && TermStop(s, end)
    requires MulDiv(s, p, env) == TermResult(s, end, v, env)
    ensures AddSub(s, p, env) == SumResult(s, end, v, env)
  {
    match v {
    case Fail(_) =>
    case Num(x) =>
      MulDivRestStops(s, end, x, env);
    }
  }

  /** Three pieces written one after another sit one after another. */
  lemma AtThree(s: string, p: nat, l: string, o: string, r: string)
    requires |o| == 1 && At(s, p, l + o + r)
    ensures At(s, p, l) && p + |l| < |s| && s[p + |l|] == o[0] && At(s, p + |l| + 1, r)
  {
    AtParts(s, p, l + o, r);
    AtParts(s, p, l, o);
    AtChar(s, p + |l|, o, 0);
  }

  lemma SumAt(s: string, p: nat, e: Expr)
    requires IsSum(e) && At(s, p, ShowSum(e))
    ensures var opEnd := p + |ShowSum(e.left)|;
      At(s, p, ShowSum(e.left)) && opEnd < |s| && s[opEnd] == OpChar(e.op) &&
      At(s, opEnd + 1, ShowTerm(e.right)) &&
      p + |ShowSum(e)| == opEnd + 1 + |ShowTerm(e.right)|
  {
    var l := ShowSum(e.left);
    var o := [OpChar(e.op)];
    var r := ShowTerm(e.right);
    assert ShowSum(e) == l + o + r;
    AtThree(s, p, l, o, r);
  }

  /** One `+` or `-` round of the sum loop combines the values on either side. */
  lemma SumStep(s: string, opEnd: nat, end: nat, op: Op, l: Val, r: Val, env: Env)
    requires op == Plus || op == Minus
    requires opEnd < |s| && end <= |s| && s[opEnd] == OpChar(op) && TermStop(s, end)
    requires MulDiv(s, opEnd + 1, env) == TermResult(s, end, r, env)
    ensures SumResult(s, opEnd, l, env) == SumResult(s, end, Combine(op, l, r), env)
  {
    match l {
    case Fail(_) =>
    case Num(a) =>
      AddSubRestStep(s, opEnd, a, env);
      match r {
      case Fail(_) =>
      case Num(b) =>
        MulDivRestStops(s, end, b, env);
      }
    }
  }

  /** A sub-parser run over a printed tree consumes all of it and yields the value the tree
      denotes, or the error it denotes. */
  lemma SubShown(e: Expr, env: Env)
    ensures Sub(ShowSum(e), env) ==
      match Eval(e, env.resolve)
      case Num(v) => Value(v)
      case Fail(c) => Failed(c)
  {
    var t := ShowSum(e);
    assert t[0..|t|] == t;
    SumParse(t, 0, e, env);
    match Eval(e, env.resolve) {
    case Fail(_) =>
    case Num(v) =>
      AddSubRestStops(t, |t|, v, env);
    }
  }

  /** The parser agrees with the reference semantics on every printed tree. */
  lemma EvalShown(e: Expr, env: Env)
    ensures EvalExprForCell(ShowSum(e), env) == Eval(e, env.resolve)
  {
    SubShown(e, env);
  }

  /** What a malformed formula around a printed tree gives: the tree's own error if it has
      one, else `#ERR`. */
  function Malformed(v: Val): Val {
    match v
    case Num(_) => Fail(Generic)
    case Fail(c) => Fail(c)
  }

  /** Text left over after a complete formula is `#ERR`, here a stray `)`. */
  lemma LeftoverText(e: Expr, env: Env)
    ensures EvalExprForCell(ShowSum(e) + ")", env) == Malformed(Eval(e, env.resolve))
  {
    var x := ShowSum(e);
    var t := x + ")";
    assert At(t, 0, x) && t[|x|] == ')' by {
      assert t[..|x|] == x;
    }
    SumParse(t, 0, e, env);
    match Eval(e, env.resolve) {
    case Fail(_) =>
    case Num(v) =>
      AddSubRestStops(t, |x|, v, env);
      assert SkipSpaces(t, |x|) == |x|;
    }
  }

  /** A `(` that is never closed is `#ERR`. */
  lemma UnclosedParen(e: Expr, env: Env)
    ensures EvalExprForCell("(" + ShowSum(e), env) == Malformed(Eval(e, env.resolve))
  {
    var x := ShowSum(e);
    var t := "(" + x;
    assert At(t, 1, x) && t[0] == '(' && |t| == 1 + |x| by {
      assert t[1..] == x;
    }
    UnclosedAt(t, e, env);
  }

  /** A text that is `(` and then a printed tree, and nothing more, is malformed. */
  lemma UnclosedAt(t: string, e: Expr, env: Env)
    requires |t| == 1 + |ShowSum(e)| && t[0] == '(' && At(t, 1, ShowSum(e))
    ensures EvalExprForCell(t, env) == Malformed(Eval(e, env.resolve))
  {
    var r := AddSub(t, 1, env);
    assert r == SumResult(t, |t|, Eval(e, env.resolve), env) by {
      SumParse(t, 1, e, env);
    }
    FactorParenStep(t, 0, env);
    match Eval(e, env.resolve) {
    case Fail(c) =>
      assert Factor(t, 0, env) == Err(c);
      assert MulDiv(t, 0, env) == Err(c);
      assert AddSub(t, 0, env) == Err(c);
    case Num(v) =>
      assert r == Ok(v, |t|) by {
        AddSubRestStops(t, |t|, v, env);
      }
      assert Factor(t, 0, env) == Err(Generic) by {
        assert SkipSpaces(t, |t|) == |t|;
      }
      assert MulDiv(t, 0, env) == Err(Generic);
      assert AddSub(t, 0, env) == Err(Generic);
    }
  }

  /** An operator with nothing after it is `#ERR`: the parser finds no operand at the end. */
  lemma MissingOperand(e: Expr, op: Op, env: Env)
    requires op == Plus || op == Minus
    ensures EvalExprForCell(ShowSum(e) + [OpChar(op)], env) == Malformed(Eval(e, env.resolve))
  {
    var x := ShowSum(e);
    var t := x + [OpChar(op)];
    assert At(t, 0, x) && t[|x|] == OpChar(op) by {
      assert t[..|x|] == x;
    }
    SumParse(t, 0, e, env);
    match Eval(e, env.resolve) {
    case Fail(_) =>
    case Num(v) =>
      AddSubRestStep(t, |x|, v, env);
      assert Factor(t, |t|, env) == Err(Generic);
      assert MulDiv(t, |t|, env) == Err(Generic);
    }
  }

  /** An empty formula is `#ERR`. */
  lemma EmptyFormula(env: Env)
    ensures EvalExprForCell("", env) == Fail(Generic)
  {
    assert Factor("", 0, env) == Err(Generic);
    assert MulDiv("", 0, env) == Err(Generic);
  }

  /** A formula that is just a cell name evaluates to whatever the resolver gives that name. */
  lemma EvalCellName(col: nat, row: nat, env: Env)
    ensures EvalExprForCell(ColRowToName(col, row), env) == env.resolve(ColRowToName(col, row))
  {
    var e := CellRef(col, row);
    assert ShowSum(e) == ShowTerm(e) == ShowFactor(e) == ColRowToName(col, row);
    EvalShown(e, env);
  }
}
