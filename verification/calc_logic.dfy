/** ROUND, IF, AND, OR and NOT over printed argument trees: what the whole formula
    `name(arguments)` evaluates to in terms of the values its argument trees denote.  Unlike the
    list functions these read their arguments one at a time as formulas of their own, and IF,
    AND and OR leave some arguments unevaluated. */
module CalcLogic {
  import opened Text
  import opened Grid
  import opened Numeric
  import opened Calc
  import opened CalcSpec
  import opened CalcCalls

  // -------------------------------------------------------------------------------------
  // One argument

  /** A printed tree as an argument: it ends where its text ends, nothing is trimmed and, read
      as a formula of its own, it denotes what the tree denotes. */
  lemma TextShown(s: string, p: nat, e: Expr, env: Env)
    requires 2 <= p && Placed(s, p, ShowSum(e)) && p + |ShowSum(e)| < |s|
    requires s[p + |ShowSum(e)|] == ',' || s[p + |ShowSum(e)|] == ')'
    ensures var end := p + |ShowSum(e)|;
      ArgEnd(s, p) == end && TrimStart(s, p, end) == p && TrimEnd(s, p, end) == end && p < end &&
      TextValue(s, p, end, env) == Eval(e, env.resolve)
  {
    var x := ShowSum(e);
    PlacedAt(s, p, x);
    ArgShown(s, p, e);
    assert TextValue(s, p, p + |x|, env) == EvalExprForCell(x, env);
    EvalShown(e, env);
  }

  /** The value of a printed argument, as ROUND, IF, AND, OR and NOT read it. */
  lemma ValueShown(s: string, p: nat, e: Expr, env: Env)
    requires 2 <= p && Placed(s, p, ShowSum(e)) && p + |ShowSum(e)| < |s|
    requires s[p + |ShowSum(e)|] == ',' || s[p + |ShowSum(e)|] == ')'
    ensures ArgEnd(s, p) == p + |ShowSum(e)|
    ensures ArgValue(s, p, p + |ShowSum(e)|, env) == Eval(e, env.resolve)
  {
    TextShown(s, p, e, env);
  }

  /** The formula `0`, which IF evaluates in place of a missing else branch. */
  lemma ZeroFormula(env: Env)
    ensures EvalExprForCell("0", env) == Num(0.0)
  {
    EvalShown(Lit(0), env);
    assert ShowSum(Lit(0)) == "0";
  }

  /** The text of a call of a built-in function over printed arguments is laid out argument by
      argument between its `(` and its final `)`. */
  lemma LaidCall(name: string, u: string, es: seq<Expr>)
    requires Upper(name) == u && 0 < |es|
    requires IsListFunction(u) || u == "ROUND" || u == "IF" || u == "AND" || u == "OR" || u == "NOT"
    ensures IsName(name)
    ensures var t := CallText(name, ArgsFrom(es, 0));
      |name| + 1 < |t| && t[..|name|] == name && t[|name|] == '(' && Laid(t, |name| + 1, es, 0, |t| - 1)
  {
    BuiltinName(name, u);
    CallShape(name, ArgsFrom(es, 0));
    CallLaid(name, es);
  }

  // -------------------------------------------------------------------------------------
  // IF

  /** What `IF(c, t, f)` denotes: the condition's error, else the value of the branch the
      condition selects; the other branch is never evaluated, so its error does not matter. */
  function IfResult(c: Val, t: Val, f: Val): Val {
    match c
    case Fail(x) => Fail(x)
    case Num(v) => if Abs(v) > Epsilon then t else f
  }

  /** The branches of IF over two printed trees: the chosen one's value, and the position after
      the closing `)`. */
  lemma IfBranchesElse(s: string, p: nat, c: real, es: seq<Expr>, end: nat, env: Env)
    requires |es| == 3 && Laid(s, p, es, 1, end)
    ensures IfBranches(s, p, c, env) ==
      Lifted(if Abs(c) > Epsilon then Eval(es[1], env.resolve) else Eval(es[2], env.resolve), end + 1)
  {
    var j := p + |ShowSum(es[1])|;
    LaidFirst(s, p, es, 1, end);
    TextShown(s, p, es[1], env);
    LaidNext(s, p, es, 1, end);
    TextShown(s, j + 1, es[2], env);
  }

  /** The branch of IF without an else: a false condition reads the formula `0`. */
  lemma IfBranchesNoElse(s: string, p: nat, c: real, es: seq<Expr>, end: nat, env: Env)
    requires |es| == 2 && Laid(s, p, es, 1, end)
    ensures IfBranches(s, p, c, env) ==
      Lifted(if Abs(c) > Epsilon then Eval(es[1], env.resolve) else Num(0.0), end + 1)
  {
    LaidFirst(s, p, es, 1, end);
    TextShown(s, p, es[1], env);
    ZeroFormula(env);
  }

  /** IF over printed arguments, from just past its `(`: the condition's error, or the branches
      from just past the comma after it. */
  lemma IfCallLaid(s: string, p: nat, es: seq<Expr>, end: nat, env: Env)
    requires 2 <= |es| && Laid(s, p, es, 0, end)
    ensures var j := p + |ShowSum(es[0])|;
      IfCall(s, p, env) ==
        match Eval(es[0], env.resolve)
        case Fail(x) => Err(x)
        case Num(c) => IfBranches(s, j + 1, c, env)
  {
    var j := p + |ShowSum(es[0])|;
    LaidFirst(s, p, es, 0, end);
    ValueShown(s, p, es[0], env);
    LaidNext(s, p, es, 0, end);
  }

  /** A formula that is one call of IF has the call's value. */
  lemma IfText(t: string, name: string, v: Val, env: Env)
    requires IsName(name) && Upper(name) == "IF" && |name| + 1 < |t| && t[..|name|] == name && t[|name|] == '('
    requires IfCall(t, |name| + 1, env) == Lifted(v, |t|)
    ensures EvalExprForCell(t, env) == v
  {
    assert Call(t, |name| + 1, "IF", env) == Lifted(v, |t|);
    CallEndsFormula(t, name, v, env);
  }

  /** `IF(c, t, f)` is the value of `t` when `c` is true beyond the tolerance and of `f`
      otherwise; an error in `c` is the formula's error, one in the unchosen branch is not. */
  lemma IfFormula(name: string, c: Expr, t: Expr, f: Expr, env: Env)
    requires Upper(name) == "IF"
    ensures EvalExprForCell(CallText(name, ArgsFrom([c, t, f], 0)), env) ==
      IfResult(Eval(c, env.resolve), Eval(t, env.resolve), Eval(f, env.resolve))
  {
    var es := [c, t, f];
    var text := CallText(name, ArgsFrom(es, 0));
    LaidCall(name, "IF", es);
    IfElseValue(text, |name| + 1, es, |text| - 1, env);
    IfText(text, name, IfResult(Eval(c, env.resolve), Eval(t, env.resolve), Eval(f, env.resolve)), env);
  }

  /** An IF call of three printed arguments chooses between the last two by the first. */
  lemma IfElseValue(s: string, p: nat, es: seq<Expr>, end: nat, env: Env)
    requires |es| == 3 && Laid(s, p, es, 0, end)
    ensures IfCall(s, p, env) ==
      Lifted(IfResult(Eval(es[0], env.resolve), Eval(es[1], env.resolve), Eval(es[2], env.resolve)), end + 1)
  {
    IfCallLaid(s, p, es, end, env);
    var c := Eval(es[0], env.resolve);
    if c.Num? {
      LaidNext(s, p, es, 0, end);
      IfBranchesElse(s, p + |ShowSum(es[0])| + 1, c.v, es, end, env);
    }
  }

  /** `IF(c, t)` reads a missing else branch as `0`. */
  lemma IfNoElseFormula(name: string, c: Expr, t: Expr, env: Env)
    requires Upper(name) == "IF"
    ensures EvalExprForCell(CallText(name, ArgsFrom([c, t], 0)), env) ==
      IfResult(Eval(c, env.resolve), Eval(t, env.resolve), Num(0.0))
  {
    var es := [c, t];
    var text := CallText(name, ArgsFrom(es, 0));
    LaidCall(name, "IF", es);
    IfNoElseValue(text, |name| + 1, es, |text| - 1, env);
    IfText(text, name, IfResult(Eval(c, env.resolve), Eval(t, env.resolve), Num(0.0)), env);
  }

  /** An IF call of two printed arguments chooses between the second and `0` by the first. */
  lemma IfNoElseValue(s: string, p: nat, es: seq<Expr>, end: nat, env: Env)
    requires |es| == 2 && Laid(s, p, es, 0, end)
    ensures IfCall(s, p, env) ==
      Lifted(IfResult(Eval(es[0], env.resolve), Eval(es[1], env.resolve), Num(0.0)), end + 1)
  {
    IfCallLaid(s, p, es, end, env);
    var c := Eval(es[0], env.resolve);
    if c.Num? {
      LaidNext(s, p, es, 0, end);
      IfBranchesNoElse(s, p + |ShowSum(es[0])| + 1, c.v, es, end, env);
    }
  }

  /** `IF(c)` without branches is `#ERR`, unless the condition already fails. */
  lemma IfOneArgFormula(name: string, c: Expr, env: Env)
    requires Upper(name) == "IF"
    ensures EvalExprForCell(CallText(name, ArgsFrom([c], 0)), env) == Malformed(Eval(c, env.resolve))
  {
    var es := [c];
    var text := CallText(name, ArgsFrom(es, 0));
    var p := |name| + 1;
    var v := Malformed(Eval(c, env.resolve));
    LaidCall(name, "IF", es);
    LaidFirst(text, p, es, 0, |text| - 1);
    ValueShown(text, p, c, env);
    IfText(text, name, v, env);
  }

  // -------------------------------------------------------------------------------------
  // NOT

  /** What `NOT(x)` denotes: 1 for a value within the tolerance of zero, 0 for any other. */
  function Negation(x: Val): Val {
    match x
    case Fail(c) => Fail(c)
    case Num(v) => Num(if Abs(v) < Epsilon then 1.0 else 0.0)
  }

  /** A formula that is one call of NOT has the call's value. */
  lemma NotText(t: string, name: string, v: Val, env: Env)
    requires IsName(name) && Upper(name) == "NOT" && |name| + 1 < |t| && t[..|name|] == name && t[|name|] == '('
    requires NotCall(t, |name| + 1, env) == Lifted(v, |t|)
    ensures EvalExprForCell(t, env) == v
  {
    assert Call(t, |name| + 1, "NOT", env) == Lifted(v, |t|);
    CallEndsFormula(t, name, v, env);
  }

  /** `NOT(x)` is 1 exactly when `x` is within the tolerance of zero, and 0 otherwise. */
  lemma NotFormula(name: string, x: Expr, env: Env)
    requires Upper(name) == "NOT"
    ensures EvalExprForCell(CallText(name, ArgsFrom([x], 0)), env) == Negation(Eval(x, env.resolve))
  {
    var es := [x];
    var text := CallText(name, ArgsFrom(es, 0));
    var p := |name| + 1;
    LaidCall(name, "NOT", es);
    LaidFirst(text, p, es, 0, |text| - 1);
    ValueShown(text, p, x, env);
    NotText(text, name, Negation(Eval(x, env.resolve)), env);
  }

  /** NOT takes exactly one argument: a second one is `#ERR`, unless the first already fails. */
  lemma NotTwoArgsFormula(name: string, x: Expr, y: Expr, env: Env)
    requires Upper(name) == "NOT"
    ensures EvalExprForCell(CallText(name, ArgsFrom([x, y], 0)), env) == Malformed(Eval(x, env.resolve))
  {
    var es := [x, y];
    var text := CallText(name, ArgsFrom(es, 0));
    var p := |name| + 1;
    LaidCall(name, "NOT", es);
    LaidFirst(text, p, es, 0, |text| - 1);
    ValueShown(text, p, x, env);
    NotText(text, name, Malformed(Eval(x, env.resolve)), env);
  }

  // -------------------------------------------------------------------------------------
  // ROUND

  /** What `ROUND(x, d)` denotes: the first error, else `x` rounded to `d` places. */
  function Rounded(x: Val, d: Val): Val {
    match x
    case Fail(c) => Fail(c)
    case Num(v) =>
      match d
      case Fail(c) => Fail(c)
      case Num(places) => Num(RoundTo(v, places))
  }

  /** A formula that is one call of ROUND has the call's value. */
  lemma RoundText(t: string, name: string, v: Val, env: Env)
    requires IsName(name) && Upper(name) == "ROUND" && |name| + 1 < |t| && t[..|name|] == name && t[|name|] == '('
    requires RoundCall(t, |name| + 1, env) == Lifted(v, |t|)
    ensures EvalExprForCell(t, env) == v
  {
    assert Call(t, |name| + 1, "ROUND", env) == Lifted(v, |t|);
    CallEndsFormula(t, name, v, env);
  }

  /** The places argument of ROUND, from just past the comma after the value. */
  lemma RoundPlacesLaid(s: string, p: nat, v: real, es: seq<Expr>, end: nat, env: Env)
    requires |es| == 2 && Laid(s, p, es, 1, end)
    ensures RoundPlaces(s, p, v, env) == Lifted(Rounded(Num(v), Eval(es[1], env.resolve)), end + 1)
  {
    var e := es[1];
    var j := p + |ShowSum(e)|;
    assert j == end && s[end] == ')' && SkipSpaces(s, p) == p by {
      LaidFirst(s, p, es, 1, end);
    }
    assert ArgEnd(s, p) == j && ArgValue(s, p, j, env) == Eval(e, env.resolve) by {
      ValueShown(s, p, e, env);
    }
  }

  /** ROUND over a value and a places argument, from just past its `(`. */
  lemma RoundCallLaid(s: string, p: nat, es: seq<Expr>, end: nat, env: Env)
    requires |es| == 2 && Laid(s, p, es, 0, end)
    ensures var j := p + |ShowSum(es[0])|;
      RoundCall(s, p, env) ==
        match Eval(es[0], env.resolve)
        case Fail(c) => Err(c)
        case Num(v) => RoundPlaces(s, j + 1, v, env)
  {
    LaidFirst(s, p, es, 0, end);
    ValueShown(s, p, es[0], env);
    LaidNext(s, p, es, 0, end);
  }

  /** `ROUND(x, d)` rounds half away from zero to `d` places (the whole part of `d`): scaled by
      `10^d` the result is `math.Round` of `x` scaled alike, and it is within half a unit of the
      last kept place of `x`. */
  lemma RoundFormula(name: string, x: Expr, d: Expr, env: Env)
    requires Upper(name) == "ROUND"
    ensures var r := EvalExprForCell(CallText(name, ArgsFrom([x, d], 0)), env);
      r == Rounded(Eval(x, env.resolve), Eval(d, env.resolve)) &&
      (r.Num? ==>
        OnGrid(r.v, Eval(x, env.resolve).v, Pow10(Eval(d, env.resolve).v.Floor)) &&
        Abs(r.v - Eval(x, env.resolve).v) <= 0.5 / Pow10(Eval(d, env.resolve).v.Floor))
  {
    var es := [x, d];
    var text := CallText(name, ArgsFrom(es, 0));
    var r := Rounded(Eval(x, env.resolve), Eval(d, env.resolve));
    assert EvalExprForCell(text, env) == r by {
      LaidCall(name, "ROUND", es);
      RoundCallValue(text, |name| + 1, es, |text| - 1, env);
      RoundText(text, name, r, env);
    }
    RoundedWithinHalf(Eval(x, env.resolve), Eval(d, env.resolve));
  }

  /** A ROUND call of two printed arguments rounds the first by the second. */
  lemma RoundCallValue(s: string, p: nat, es: seq<Expr>, end: nat, env: Env)
    requires |es| == 2 && Laid(s, p, es, 0, end)
    ensures RoundCall(s, p, env) == Lifted(Rounded(Eval(es[0], env.resolve), Eval(es[1], env.resolve)), end + 1)
  {
    RoundCallLaid(s, p, es, end, env);
    var x := Eval(es[0], env.resolve);
    if x.Num? {
      LaidNext(s, p, es, 0, end);
      RoundPlacesLaid(s, p + |ShowSum(es[0])| + 1, x.v, es, end, env);
    }
  }

  /** A rounded value is a whole number of units of the last kept place, the nearest one with
      halves away from zero, and so within half a unit of `x`. */
  lemma RoundedWithinHalf(x: Val, d: Val)
    ensures var r := Rounded(x, d); r.Num? ==>
      OnGrid(r.v, x.v, Pow10(d.v.Floor)) && Abs(r.v - x.v) <= 0.5 / Pow10(d.v.Floor)
  {
    if Rounded(x, d).Num? {
      assert Rounded(x, d).v == RoundTo(x.v, d.v);
    }
  }

  /** `ROUND(x)` rounds half away from zero to a whole number. */
  lemma RoundOneFormula(name: string, x: Expr, env: Env)
    requires Upper(name) == "ROUND"
    ensures var r := EvalExprForCell(CallText(name, ArgsFrom([x], 0)), env);
      r == Rounded(Eval(x, env.resolve), Num(0.0)) &&
      (r.Num? ==> r.v == RoundHalfAway(Eval(x, env.resolve).v) as real)
  {
    var es := [x];
    var text := CallText(name, ArgsFrom(es, 0));
    var p := |name| + 1;
    var r := Rounded(Eval(x, env.resolve), Num(0.0));
    LaidCall(name, "ROUND", es);
    LaidFirst(text, p, es, 0, |text| - 1);
    ValueShown(text, p, x, env);
    RoundText(text, name, r, env);
    if r.Num? {
      RoundWhole(Eval(x, env.resolve).v);
    }
  }

  /** Rounding to no places is `math.Round`: the nearest whole number, halves away from zero. */
  lemma RoundWhole(v: real)
    ensures RoundTo(v, 0.0) == RoundHalfAway(v) as real
  {
    assert Pow10((0.0).Floor) == 1.0;
  }

  // -------------------------------------------------------------------------------------
  // AND and OR

  /** The value of AND (`isAnd`) or OR over `es[i..]`: a left fold that stops at the first
      argument that fails or settles the answer (a false one for AND, a true one for OR);
      past the last argument it is the neutral value, 1 for AND and 0 for OR. */
  function LogicFrom(isAnd: bool, es: seq<Expr>, i: nat, resolve: Resolver): Val
    requires i <= |es|
    decreases |es| - i
  {
    if i == |es| then Num(if isAnd then 1.0 else 0.0)
    else
      match Eval(es[i], resolve)
      case Fail(c) => Fail(c)
      case Num(v) => if Decides(isAnd, v) then Num(if isAnd then 0.0 else 1.0) else LogicFrom(isAnd, es, i + 1, resolve)
  }

  /** The fold gives the neutral value exactly when every argument denotes a value that does
      not settle the answer; it gives an error exactly when some argument fails before any
      settles it, and then the first such error. */
  lemma {:induction false} LogicFromMeans(isAnd: bool, es: seq<Expr>, i: nat, resolve: Resolver)
    requires i <= |es|
    ensures var r := LogicFrom(isAnd, es, i, resolve);
      (r == Num(if isAnd then 1.0 else 0.0) <==>
        forall k :: i <= k < |es| ==> Eval(es[k], resolve).Num? && !Decides(isAnd, Eval(es[k], resolve).v)) &&
      (r.Fail? ==>
        exists k :: i <= k < |es| && Eval(es[k], resolve) == r &&
          forall m :: i <= m < k ==> Eval(es[m], resolve).Num? && !Decides(isAnd, Eval(es[m], resolve).v))
    decreases |es| - i
  {
    if i < |es| {
      LogicFromMeans(isAnd, es, i + 1, resolve);
      var r := LogicFrom(isAnd, es, i, resolve);
      match Eval(es[i], resolve)
      case Fail(c) =>
        assert Eval(es[i], resolve) == r;
      case Num(v) =>
        if !Decides(isAnd, v) && r.Fail? {
          var k :| i + 1 <= k < |es| && Eval(es[k], resolve) == r &&
            forall m :: i + 1 <= m < k ==> Eval(es[m], resolve).Num? && !Decides(isAnd, Eval(es[m], resolve).v);
          assert forall m :: i <= m < k ==> Eval(es[m], resolve).Num? && !Decides(isAnd, Eval(es[m], resolve).v);
        }
    }
  }

  /** Whether argument `k` is a value that settles AND or OR. */
  predicate DecidesAt(isAnd: bool, es: seq<Expr>, k: nat, resolve: Resolver)
    requires k < |es|
  {
    Eval(es[k], resolve).Num? && Decides(isAnd, Eval(es[k], resolve).v)
  }

  /** Whether the skip after a deciding argument lands on the call's own `)`: always under the
      matching rule, and under the first-`)` rule when no argument after a deciding one holds a
      parenthesis. */
  predicate SkipsToClose(rule: SkipRule, isAnd: bool, es: seq<Expr>, resolve: Resolver) {
    rule == MatchingClose ||
    forall k :: 0 <= k < |es| && DecidesAt(isAnd, es, k, resolve) ==> NoCloseAfter(es, k)
  }

  /** No argument after argument `k` holds a `)`. */
  predicate NoCloseAfter(es: seq<Expr>, k: nat) {
    forall m :: k < m < |es| ==> ')' !in ShowSum(es[m])
  }

  /** The matching-parenthesis scan, which ignores commas, runs over laid-out arguments to the
      `)` after the last one. */
  lemma {:induction false} ScanLaid(s: string, p: nat, es: seq<Expr>, i: nat, end: nat)
    requires Laid(s, p, es, i, end)
    ensures Scan(s, p, 0, false) == end
    decreases |es| - i
  {
    var j := p + |ShowSum(es[i])|;
    PlacedAt(s, p, ShowSum(es[i]));
    ScanSum(s, p, es[i], 0, false);
    if i < |es| - 1 {
      LaidNext(s, p, es, i, end);
      ScanLaid(s, j + 1, es, i + 1, end);
    }
  }

  /** The first-`)` scan runs over placed text that holds no `)`. */
  lemma {:induction false} FirstCloseOver(s: string, p: nat, x: string, k: nat)
    requires k <= |x| && PlacedFrom(s, p, x, k) && ')' !in x && p + |x| <= |s|
    ensures FirstCloseFrom(s, p + k) == FirstCloseFrom(s, p + |x|)
    decreases |x| - k
  {
    if k < |x| {
      assert s[p + k] == x[k] && x[k] != ')';
      FirstCloseOver(s, p, x, k + 1);
    }
  }

  /** The first-`)` scan runs over laid-out arguments without parentheses to the final `)`. */
  lemma {:induction false} FirstCloseLaid(s: string, p: nat, es: seq<Expr>, i: nat, end: nat)
    requires Laid(s, p, es, i, end) && forall k :: i <= k < |es| ==> ')' !in ShowSum(es[k])
    ensures FirstCloseFrom(s, p) == end
    decreases |es| - i
  {
    var j := p + |ShowSum(es[i])|;
    assert ')' !in ShowSum(es[i]);
    FirstCloseOver(s, p, ShowSum(es[i]), 0);
    if i < |es| - 1 {
      LaidNext(s, p, es, i, end);
      FirstCloseLaid(s, j + 1, es, i + 1, end);
    }
  }

  /** Laid-out arguments end with a `)` inside the text. */
  lemma {:induction false} LaidEnd(s: string, p: nat, es: seq<Expr>, i: nat, end: nat)
    requires Laid(s, p, es, i, end)
    ensures end < |s| && s[end] == ')'
    decreases |es| - i
  {
    if i < |es| - 1 {
      LaidEnd(s, p + |ShowSum(es[i])| + 1, es, i + 1, end);
    }
  }

  /** From the end `j` of a laid-out argument the skip lands on the call's final `)`. */
  lemma SkipLaid(s: string, p: nat, isAnd: bool, es: seq<Expr>, i: nat, end: nat, rule: SkipRule, resolve: Resolver)
    requires Laid(s, p, es, i, end) && SkipsToClose(rule, isAnd, es, resolve) && DecidesAt(isAnd, es, i, resolve)
    ensures SkipTarget(s, p + |ShowSum(es[i])|, rule) == end
  {
    var j := p + |ShowSum(es[i])|;
    if i < |es| - 1 {
      LaidNext(s, p, es, i, end);
      if rule == MatchingClose {
        ScanLaid(s, j + 1, es, i + 1, end);
        assert Scan(s, j, 0, false) == Scan(s, j + 1, 0, false);
      } else {
        assert NoCloseAfter(es, i);
        FirstCloseLaid(s, j + 1, es, i + 1, end);
      }
    }
  }

  /** The argument loop of AND and OR over laid-out arguments computes the fold and, when the
      skip lands on the call's own `)`, ends just past it. */
  lemma {:induction false} ShortCircuitLaid(s: string, p: nat, isAnd: bool, es: seq<Expr>, i: nat, end: nat, env: Env)
    requires Laid(s, p, es, i, end) && SkipsToClose(env.skip, isAnd, es, env.resolve)
    ensures ShortCircuit(s, p, isAnd, env) == Lifted(LogicFrom(isAnd, es, i, env.resolve), end + 1)
    decreases |es| - i
  {
    var j := p + |ShowSum(es[i])|;
    ValueShown(s, p, es[i], env);
    match Eval(es[i], env.resolve)
    case Fail(_) =>
    case Num(v) =>
      if Decides(isAnd, v) {
        assert DecidesAt(isAnd, es, i, env.resolve);
        SkipLaid(s, p, isAnd, es, i, end, env.skip, env.resolve);
        LaidEnd(s, p, es, i, end);
      } else if i < |es| - 1 {
        LaidNext(s, p, es, i, end);
        ShortCircuitLaid(s, j + 1, isAnd, es, i + 1, end, env);
      }
  }

  /** AND or OR over laid-out arguments, from just past its `(`. */
  lemma LogicCallLaid(s: string, p: nat, isAnd: bool, es: seq<Expr>, end: nat, env: Env)
    requires Laid(s, p, es, 0, end) && SkipsToClose(env.skip, isAnd, es, env.resolve)
    ensures LogicCall(s, p, isAnd, env) == Lifted(LogicFrom(isAnd, es, 0, env.resolve), end + 1)
  {
    LaidFirst(s, p, es, 0, end);
    ShortCircuitLaid(s, p, isAnd, es, 0, end, env);
  }

  /** A formula that is one call of AND or OR has the call's value. */
  lemma LogicText(t: string, name: string, isAnd: bool, v: Val, env: Env)
    requires IsName(name) && Upper(name) == (if isAnd then "AND" else "OR")
    requires |name| + 1 < |t| && t[..|name|] == name && t[|name|] == '('
    requires LogicCall(t, |name| + 1, isAnd, env) == Lifted(v, |t|)
    ensures EvalExprForCell(t, env) == v
  {
    assert Call(t, |name| + 1, Upper(name), env) == Lifted(v, |t|);
    CallEndsFormula(t, name, v, env);
  }

  /** `AND(...)` and `OR(...)` over printed arguments are the short-circuit fold, provided the
      skip after a deciding argument lands on the call's own `)`. */
  lemma LogicFormula(name: string, es: seq<Expr>, env: Env)
    requires Upper(name) == "AND" || Upper(name) == "OR"
    requires 0 < |es| && SkipsToClose(env.skip, Upper(name) == "AND", es, env.resolve)
    ensures EvalExprForCell(CallText(name, ArgsFrom(es, 0)), env) ==
      LogicFrom(Upper(name) == "AND", es, 0, env.resolve)
  {
    var u := Upper(name);
    var isAnd := u == "AND";
    var text := CallText(name, ArgsFrom(es, 0));
    var v := LogicFrom(isAnd, es, 0, env.resolve);
    assert IsName(name) && |name| + 1 < |text| && text[..|name|] == name && text[|name|] == '(' &&
      LogicCall(text, |name| + 1, isAnd, env) == Lifted(v, |text|) by {
      LaidCall(name, u, es);
      LogicCallLaid(text, |name| + 1, isAnd, es, |text| - 1, env);
    }
    LogicText(text, name, isAnd, v, env);
  }

  // -------------------------------------------------------------------------------------
  // Where AND and OR resume after a deciding argument

  /** The arguments of `AND(0,-(1+2))`: a false first argument, then one with a parenthesis. */
  function NestedArgs(): seq<Expr> {
    [Lit(0), Neg(Bin(Plus, Lit(1), Lit(2)))]
  }

  lemma NestedText()
    ensures CallText("AND", ArgsFrom(NestedArgs(), 0)) == "AND(0,-(1+2))"
  {
    var es := NestedArgs();
    assert ShowSum(es[0]) == "0";
    assert ShowSum(es[1]) == "-(1+2)";
  }

  /** The program skips to the first `)` after a deciding argument, whatever its depth: here the
      one inside `-(1+2)`, so the call ends early and the call's own `)` is left over, `#ERR`. */
  lemma FirstCloseMisreadsNested(resolve: Resolver)
    ensures EvalExprForCell("AND(0,-(1+2))", Env(resolve, FirstClose)) == Fail(Generic)
  {
    var env := Env(resolve, FirstClose);
    var t := "AND(0,-(1+2))";
    assert Call(t, 4, Upper("AND"), env) == Ok(0.0, 12) && t[12] == ')' by {
      NestedCall(env);
    }
    WholeCall(t, "AND", env);
  }

  /** Under the first-`)` rule the argument loop of `AND(0,-(1+2))` ends inside `-(1+2)`. */
  lemma NestedStopsEarly(env: Env)
    requires env.skip == FirstClose
    ensures ShortCircuit("AND(0,-(1+2))", 4, true, env) == Ok(0.0, 12)
  {
    var es := NestedArgs();
    var t := "AND(0,-(1+2))";
    NestedText();
    LaidCall("AND", "AND", es);
    LaidFirst(t, 4, es, 0, 12);
    ValueShown(t, 4, es[0], env);
    assert FirstCloseFrom(t, 5) == 11;
  }

  lemma NestedCall(env: Env)
    requires env.skip == FirstClose
    ensures Call("AND(0,-(1+2))", 4, Upper("AND"), env) == Ok(0.0, 12)
  {
    var t := "AND(0,-(1+2))";
    assert Upper("AND") == "AND";
    assert SkipSpaces(t, 4) == 4;
    NestedStopsEarly(env);
  }

  /** With the skip to the matching `)`, the same formula is the false it evidently means. */
  lemma MatchingCloseReadsNested(resolve: Resolver)
    ensures EvalExprForCell("AND(0,-(1+2))", Env(resolve, MatchingClose)) == Num(0.0)
  {
    var es := NestedArgs();
    NestedText();
    LogicFormula("AND", es, Env(resolve, MatchingClose));
    assert LogicFrom(true, es, 0, resolve) == Num(0.0);
  }
}
