/** The built-in functions of the formula language, stated over printed argument trees: each
    argument of a call is the printed form of an expression tree, and each theorem says what the
    whole formula `name(arguments)` evaluates to in terms of the values the trees denote.  The
    function name may be written in any mix of upper and lower case. */
module CalcCalls {
  import opened Text
  import opened Grid
  import opened Numeric
  import opened Calc
  import opened CalcSpec

  // -------------------------------------------------------------------------------------
  // Scanning over printed trees

  /** A character the scanner passes over without reacting. */
  predicate Inert(c: char) {
    c != '(' && c != ')' && c != ','
  }

  /** The depth the scanner is at after walking over `x` from depth `n`, or `None` when it
      stops inside `x`. */
  function Walk(x: string, n: nat, commas: bool): Option<nat>
  {
    if |x| == 0 then Some(n)
    else if x[0] == '(' then Walk(x[1..], n + 1, commas)
    else if x[0] == ')' then (if n == 0 then None else Walk(x[1..], n - 1, commas))
    else if commas && x[0] == ',' && n == 0 then None
    else Walk(x[1..], n, commas)
  }

  /** Walking over `x` inside a longer text: the scanner resumes after `x` at the walked depth. */
  lemma {:induction false} ScanWalk(s: string, p: nat, x: string, n: nat, commas: bool)
    requires At(s, p, x) && Walk(x, n, commas).Some?
    ensures Scan(s, p, n, commas) == Scan(s, p + |x|, Walk(x, n, commas).value, commas)
    decreases |x|
  {
    if |x| > 0 {
      AtChar(s, p, x, 0);
      AtParts(s, p, x[..1], x[1..]);
      assert x[..1] + x[1..] == x;
      var m := if x[0] == '(' then n + 1 else if x[0] == ')' then n - 1 else n;
      assert Walk(x, n, commas) == Walk(x[1..], m, commas);
      ScanWalk(s, p + 1, x[1..], m, commas);
    }
  }

  lemma {:induction false} WalkAppend(a: string, b: string, n: nat, commas: bool)
    ensures Walk(a + b, n, commas) ==
      match Walk(a, n, commas)
      case None => None
      case Some(m) => Walk(b, m, commas)
    decreases |a|
  {
    if |a| > 0 {
      assert (a + b)[0] == a[0] && (a + b)[1..] == a[1..] + b;
      var m := if a[0] == '(' then n + 1 else if a[0] == ')' then n - 1 else n;
      if !(a[0] == ')' && n == 0) && !(commas && a[0] == ',' && n == 0) {
        WalkAppend(a[1..], b, m, commas);
      }
    } else {
      assert a + b == b;
    }
  }

  /** Two pieces the scanner walks over without changing depth make a third. */
  lemma Walk3(a: string, b: string, c: string, n: nat, commas: bool)
    requires Walk(a, n, commas) == Some(n) && Walk(b, n, commas) == Some(n) && Walk(c, n, commas) == Some(n)
    ensures Walk(a + b + c, n, commas) == Some(n)
  {
    WalkAppend(a + b, c, n, commas);
    WalkAppend(a, b, n, commas);
  }

  lemma {:induction false} WalkInert(x: string, n: nat, commas: bool)
    requires forall i :: 0 <= i < |x| ==> Inert(x[i])
    ensures Walk(x, n, commas) == Some(n)
    decreases |x|
  {
    if |x| > 0 {
      assert Inert(x[0]);
      WalkInert(x[1..], n, commas);
    }
  }

  /** A printed sum leaves the scanner at the depth it started from at any depth: its
      parentheses are balanced and it holds no comma. */
  lemma {:induction false} WalkSum(e: Expr, n: nat, commas: bool)
    ensures Walk(ShowSum(e), n, commas) == Some(n)
    decreases e, 4
  {
    if IsSum(e) {
      WalkSum(e.left, n, commas);
      WalkTerm(e.right, n, commas);
      WalkInert([OpChar(e.op)], n, commas);
      Walk3(ShowSum(e.left), [OpChar(e.op)], ShowTerm(e.right), n, commas);
    } else {
      WalkTerm(e, n, commas);
    }
  }

  lemma {:induction false} WalkTerm(e: Expr, n: nat, commas: bool)
    ensures Walk(ShowTerm(e), n, commas) == Some(n)
    decreases e, if IsSum(e) then 8 else 2
  {
    if IsProduct(e) {
      WalkTerm(e.left, n, commas);
      WalkFactor(e.right, n, commas);
      WalkInert([OpChar(e.op)], n, commas);
      Walk3(ShowTerm(e.left), [OpChar(e.op)], ShowFactor(e.right), n, commas);
    } else {
      WalkFactor(e, n, commas);
    }
  }

  lemma {:induction false} WalkFactor(e: Expr, n: nat, commas: bool)
    ensures Walk(ShowFactor(e), n, commas) == Some(n)
    decreases e, if e.Bin? then 6 else 0
  {
    match e
    case Lit(k) =>
      WalkInert(NatToDecimal(k), n, commas);
    case CellRef(col, row) =>
      WalkName(ColToName(col), IntToDecimal(row + 1), n, commas);
    case Neg(x) =>
      WalkFactor(x, n, commas);
      WalkAppend("-", ShowFactor(x), n, commas);
    case Pos(x) =>
      WalkFactor(x, n, commas);
      WalkAppend("+", ShowFactor(x), n, commas);
    case Bin(_, _, _) =>
      WalkSum(e, n + 1, commas);
      WalkAppend("(" + ShowSum(e), ")", n, commas);
      WalkAppend("(", ShowSum(e), n, commas);
  }

  lemma WalkName(letters: string, digits: string, n: nat, commas: bool)
    requires AllUpper(letters) && AllDigits(digits)
    ensures Walk(letters + digits, n, commas) == Some(n)
  {
    WalkInert(letters, n, commas);
    WalkInert(digits, n, commas);
    WalkAppend(letters, digits, n, commas);
  }

  /** The scanner walks over a printed sum sitting at `p`. */
  lemma ScanSum(s: string, p: nat, e: Expr, n: nat, commas: bool)
    requires At(s, p, ShowSum(e))
    ensures Scan(s, p, n, commas) == Scan(s, p + |ShowSum(e)|, n, commas)
  {
    WalkSum(e, n, commas);
    ScanWalk(s, p, ShowSum(e), n, commas);
  }

  /** The arguments `es[i..]`, printed and joined by commas. */
  function ArgsFrom(es: seq<Expr>, i: nat): (r: string)
    requires i < |es|
    ensures |r| > 0 && StartChar(r[0])
    decreases |es| - i
  {
    if i == |es| - 1 then ShowSum(es[i]) else ShowSum(es[i]) + "," + ArgsFrom(es, i + 1)
  }

  /** Where the first argument of `es[i..]` ends and the rest begin. */
  lemma ArgsAt(s: string, p: nat, es: seq<Expr>, i: nat)
    requires i < |es| - 1 && At(s, p, ArgsFrom(es, i))
    ensures var j := p + |ShowSum(es[i])|;
      At(s, p, ShowSum(es[i])) && j < |s| && s[j] == ',' && At(s, j + 1, ArgsFrom(es, i + 1)) &&
      p + |ArgsFrom(es, i)| == j + 1 + |ArgsFrom(es, i + 1)|
  {
    var x := ShowSum(es[i]);
    var y := ArgsFrom(es, i + 1);
    assert ArgsFrom(es, i) == x + "," + y;
    AtParts(s, p, x + ",", y);
    AtParts(s, p, x, ",");
    AtChar(s, p + |x|, ",", 0);
  }

  /** The skip of AND and OR, which ignores commas, walks over printed arguments. */
  lemma {:induction false} WalkArgs(es: seq<Expr>, i: nat, n: nat)
    requires i < |es|
    ensures Walk(ArgsFrom(es, i), n, false) == Some(n)
    decreases |es| - i
  {
    WalkSum(es[i], n, false);
    if i < |es| - 1 {
      WalkArgs(es, i + 1, n);
      assert ","[1..] == "";
      assert Walk(",", n, false) == Some(n);
      Walk3(ShowSum(es[i]), ",", ArgsFrom(es, i + 1), n, false);
    }
  }

  /** No printed tree contains a colon, so none is taken for a range. */
  lemma {:induction false} NoColonSum(e: Expr)
    ensures ':' !in ShowSum(e)
    decreases e, 2
  {
    if IsSum(e) {
      NoColonSum(e.left);
      NoColonTerm(e.right);
    } else {
      NoColonTerm(e);
    }
  }

  lemma {:induction false} NoColonTerm(e: Expr)
    ensures ':' !in ShowTerm(e)
    decreases e, if IsSum(e) then 4 else 1
  {
    if IsProduct(e) {
      NoColonTerm(e.left);
      NoColonFactor(e.right);
    } else {
      NoColonFactor(e);
    }
  }

  lemma {:induction false} NoColonFactor(e: Expr)
    ensures ':' !in ShowFactor(e)
    decreases e, if e.Bin? then 3 else 0
  {
    match e
    case Lit(k) =>
      assert AllDigits(NatToDecimal(k));
    case CellRef(col, row) =>
      assert AllUpper(ColToName(col)) && AllDigits(IntToDecimal(row + 1));
    case Neg(x) =>
      NoColonFactor(x);
    case Pos(x) =>
      NoColonFactor(x);
    case Bin(_, _, _) =>
      NoColonSum(e);
  }

  /** A printed tree as an argument of a call: the scanner stops just after it, at the `,` or
      `)` that follows, and trimming leaves the printed tree as it is. */
  lemma ArgShown(s: string, p: nat, e: Expr)
    requires At(s, p, ShowSum(e)) && p + |ShowSum(e)| < |s|
    requires s[p + |ShowSum(e)|] == ',' || s[p + |ShowSum(e)|] == ')'
    ensures var end := p + |ShowSum(e)|;
      ArgEnd(s, p) == end && TrimStart(s, p, end) == p && TrimEnd(s, p, end) == end &&
      s[p..end] == ShowSum(e)
  {
    var x := ShowSum(e);
    ScanSum(s, p, e, 0, true);
    assert s[p..p + |x|] == x;
    AtChar(s, p, x, 0);
    AtChar(s, p, x, |x| - 1);
    NothingToTrim(s, p, p + |x|);
  }

  /** Text that neither starts nor ends with a space is left as it is by trimming. */
  lemma NothingToTrim(s: string, p: nat, j: nat)
    requires p < j <= |s| && StartChar(s[p]) && EndChar(s[j - 1])
    ensures TrimStart(s, p, j) == p && TrimEnd(s, p, j) == j
  {
  }

  /** What one printed argument contributes to a list function: its value (a mark for
      COUNT); an error aborts all but COUNT, which skips the argument. */
  function Contributes(e: Expr, counting: bool, resolve: Resolver): Items
  {
    match Eval(e, resolve)
    case Num(v) => Items([if counting then 1.0 else v])
    case Fail(c) => if counting then Items([]) else Aborted(c)
  }

  /** A printed argument of a list function is not taken for a range. */
  lemma ArgItemsShown(e: Expr, counting: bool, env: Env)
    ensures ArgItems(ShowSum(e), counting, env) == Contributes(e, counting, env.resolve)
  {
    NoColonSum(e);
    assert RangeCorners(ShowSum(e)) == None;
    SubShown(e, env);
  }

  // -------------------------------------------------------------------------------------
  // The list functions

  /** The values of `es[i..]` in order, or the error of the first that fails. */
  function ValuesFrom(es: seq<Expr>, i: nat, resolve: Resolver): (r: Items)
    requires i <= |es|
    ensures r.Items? ==> |r.xs| == |es| - i
    decreases |es| - i
  {
    if i == |es| then Items([])
    else
      match Eval(es[i], resolve)
      case Fail(c) => Aborted(c)
      case Num(v) =>
        match ValuesFrom(es, i + 1, resolve)
        case Aborted(c) => Aborted(c)
        case Items(xs) => Items([v] + xs)
  }

  /** The values are collected exactly when every argument denotes one, and then in order;
      otherwise the error is that of the first argument that fails. */
  lemma {:induction false} ValuesFromMeans(es: seq<Expr>, i: nat, resolve: Resolver)
    requires i <= |es|
    ensures var r := ValuesFrom(es, i, resolve);
      (r.Items? <==> forall k :: i <= k < |es| ==> Eval(es[k], resolve).Num?) &&
      (r.Items? ==> forall k :: i <= k < |es| ==> r.xs[k - i] == Eval(es[k], resolve).v) &&
      (r.Aborted? ==>
        exists k :: i <= k < |es| && Eval(es[k], resolve) == Fail(r.code) &&
          forall m :: i <= m < k ==> Eval(es[m], resolve).Num?)
    decreases |es| - i
  {
    if i < |es| {
      ValuesFromMeans(es, i + 1, resolve);
      var r := ValuesFrom(es, i, resolve);
      if r.Aborted? && Eval(es[i], resolve).Num? {
        var k :| i + 1 <= k < |es| && Eval(es[k], resolve) == Fail(r.code) &&
          forall m :: i + 1 <= m < k ==> Eval(es[m], resolve).Num?;
        assert forall m :: i <= m < k ==> Eval(es[m], resolve).Num?;
      }
    }
  }

  /** How many of `es[i..]` denote a value. */
  function CountFrom(es: seq<Expr>, i: nat, resolve: Resolver): (r: nat)
    requires i <= |es|
    ensures r <= |es| - i
    decreases |es| - i
  {
    if i == |es| then 0
    else (if Eval(es[i], resolve).Num? then 1 else 0) + CountFrom(es, i + 1, resolve)
  }

  /** All arguments are counted exactly when all denote a value, none exactly when all fail. */
  lemma {:induction false} CountFromMeans(es: seq<Expr>, i: nat, resolve: Resolver)
    requires i <= |es|
    ensures var r := CountFrom(es, i, resolve);
      (r == |es| - i <==> forall k :: i <= k < |es| ==> Eval(es[k], resolve).Num?) &&
      (r == 0 <==> forall k :: i <= k < |es| ==> Eval(es[k], resolve).Fail?)
    decreases |es| - i
  {
    if i < |es| {
      CountFromMeans(es, i + 1, resolve);
    }
  }

  /** The marks COUNT collects, one per counted argument. */
  function Marks(n: nat): (r: seq<real>)
    ensures |r| == n
  {
    if n == 0 then [] else [1.0] + Marks(n - 1)
  }

  /** A printed argument starts at once: there is no blank to skip and it is not empty. */
  lemma FirstArg(s: string, p: nat, x: string)
    requires |x| > 0 && StartChar(x[0]) && At(s, p, x)
    ensures SkipSpaces(s, p) == p && s[p] != ')'
  {
    AtChar(s, p, x, 0);
  }

  lemma NextArg(s: string, p: nat, es: seq<Expr>, i: nat)
    requires i < |es| && At(s, p, ArgsFrom(es, i))
    ensures SkipSpaces(s, p) == p && s[p] != ')'
  {
    FirstArg(s, p, ArgsFrom(es, i));
  }

  /** One unfolding of the argument loop once the argument's end `j` and what the argument
      contributes, `a`, are known. */
  lemma CollectUnfold(s: string, p: nat, j: nat, a: Items, counting: bool, env: Env)
    requires 2 <= p <= j < |s| && ArgEnd(s, p) == j && ArgContribution(s, p, j, counting, env) == a
    requires s[j] == ',' || s[j] == ')'
    requires s[j] == ',' ==> SkipSpaces(s, j + 1) == j + 1
    ensures Collect(s, p, counting, env) ==
      match a
      case Aborted(c) => Stopped(c)
      case Items(xs) =>
        if s[j] == ')' then Gathered(xs, j + 1)
        else
          match Collect(s, j + 1, counting, env)
          case Stopped(c) => Stopped(c)
          case Gathered(ys, q) => Gathered(xs + ys, q)
  {
    if s[j] == ')' {
      assert Collect(s, p, counting, env) == match a case Aborted(c) => Stopped(c) case Items(xs) => Gathered(xs, j + 1);
    } else {
      assert SkipSpaces(s, j + 1) == j + 1;
    }
  }

  /** A printed argument at `p` ends where its text ends and contributes its value. */
  lemma ContributionShown(s: string, p: nat, e: Expr, counting: bool, env: Env)
    requires 2 <= p && Placed(s, p, ShowSum(e)) && p + |ShowSum(e)| < |s|
    requires s[p + |ShowSum(e)|] == ',' || s[p + |ShowSum(e)|] == ')'
    ensures ArgEnd(s, p) == p + |ShowSum(e)|
    ensures ArgContribution(s, p, p + |ShowSum(e)|, counting, env) == Contributes(e, counting, env.resolve)
  {
    var x := ShowSum(e);
    PlacedAt(s, p, x);
    ArgShown(s, p, e);
    ContributionText(s, p, p + |x|, x, counting, env);
    ArgItemsShown(e, counting, env);
  }

  /** An argument with nothing to trim contributes what its text contributes. */
  lemma ContributionText(s: string, p: nat, j: nat, x: string, counting: bool, env: Env)
    requires 2 <= p < j <= |s| && TrimStart(s, p, j) == p && TrimEnd(s, p, j) == j && s[p..j] == x
    ensures ArgContribution(s, p, j, counting, env) == ArgItems(x, counting, env)
  {
    assert TextItems(s, p, j, counting, env) == ArgItems(x, counting, env);
  }

  /** One step of the argument loop over a printed argument followed by `,` or `)`. */
  lemma CollectStep(s: string, p: nat, e: Expr, counting: bool, env: Env)
    requires 2 <= p && Placed(s, p, ShowSum(e)) && p + |ShowSum(e)| < |s|
    requires s[p + |ShowSum(e)|] == ',' || s[p + |ShowSum(e)|] == ')'
    requires s[p + |ShowSum(e)|] == ',' ==> SkipSpaces(s, p + |ShowSum(e)| + 1) == p + |ShowSum(e)| + 1
    ensures var j := p + |ShowSum(e)|;
      Collect(s, p, counting, env) ==
        match Contributes(e, counting, env.resolve)
        case Aborted(c) => Stopped(c)
        case Items(xs) =>
          if s[j] == ')' then Gathered(xs, j + 1)
          else
            match Collect(s, j + 1, counting, env)
            case Stopped(c) => Stopped(c)
            case Gathered(ys, q) => Gathered(xs + ys, q)
  {
    var j := p + |ShowSum(e)|;
    var a := Contributes(e, counting, env.resolve);
    ContributionShown(s, p, e, counting, env);
    CollectUnfold(s, p, j, a, counting, env);
  }

  /** `x` sits in `s` at `p`, stated character by character so that the inductive proofs below
      see one character at a time. */
  predicate Placed(s: string, p: nat, x: string) {
    p + |x| <= |s| && PlacedFrom(s, p, x, 0)
  }

  /** The characters of `x` from its `k`-th on sit in `s` at `p + k` onwards. */
  predicate PlacedFrom(s: string, p: nat, x: string, k: nat)
    decreases |x| - k
  {
    k >= |x| || (p + k < |s| && s[p + k] == x[k] && PlacedFrom(s, p, x, k + 1))
  }

  lemma {:induction false} PlacedFromAt(s: string, p: nat, x: string, k: nat)
    requires PlacedFrom(s, p, x, k)
    ensures k < |x| ==> p + |x| <= |s|
    ensures forall i :: k <= i < |x| && p + |x| <= |s| ==> s[p + i] == x[i]
    decreases |x| - k
  {
    if k < |x| {
      PlacedFromAt(s, p, x, k + 1);
    }
  }

  lemma PlacedAt(s: string, p: nat, x: string)
    requires Placed(s, p, x)
    ensures At(s, p, x)
  {
    PlacedFromAt(s, p, x, 0);
  }

  lemma {:induction false} AtPlacedFrom(s: string, p: nat, x: string, k: nat)
    requires At(s, p, x)
    ensures PlacedFrom(s, p, x, k)
    decreases |x| - k
  {
    if k < |x| {
      AtChar(s, p, x, k);
      AtPlacedFrom(s, p, x, k + 1);
    }
  }

  lemma AtPlaced(s: string, p: nat, x: string)
    requires At(s, p, x)
    ensures Placed(s, p, x)
  {
    AtPlacedFrom(s, p, x, 0);
  }

  /** The printed arguments `es[i..]` laid out from `p`, each followed by `,` except the last,
      which is followed by the `)` at `end`. */
  predicate Laid(s: string, p: nat, es: seq<Expr>, i: nat, end: nat)
    decreases |es| - i
  {
    i < |es| && 2 <= p && Placed(s, p, ShowSum(es[i])) && p + |ShowSum(es[i])| < |s| &&
    if i == |es| - 1 then end == p + |ShowSum(es[i])| && s[end] == ')'
    else s[p + |ShowSum(es[i])|] == ',' && Laid(s, p + |ShowSum(es[i])| + 1, es, i + 1, end)
  }

  /** Joined printed arguments followed by `)` are laid out argument by argument. */
  lemma {:induction false} ArgsLaid(s: string, p: nat, es: seq<Expr>, i: nat)
    requires 2 <= p && i < |es| && At(s, p, ArgsFrom(es, i))
    requires p + |ArgsFrom(es, i)| < |s| && s[p + |ArgsFrom(es, i)|] == ')'
    ensures Laid(s, p, es, i, p + |ArgsFrom(es, i)|)
    decreases |es| - i
  {
    if i == |es| - 1 {
      assert ArgsFrom(es, i) == ShowSum(es[i]);
      AtPlaced(s, p, ShowSum(es[i]));
    } else {
      ArgsAt(s, p, es, i);
      AtPlaced(s, p, ShowSum(es[i]));
      ArgsLaid(s, p + |ShowSum(es[i])| + 1, es, i + 1);
    }
  }

  /** The first laid-out argument starts at once. */
  lemma LaidFirst(s: string, p: nat, es: seq<Expr>, i: nat, end: nat)
    requires Laid(s, p, es, i, end)
    ensures SkipSpaces(s, p) == p && s[p] != ')'
  {
    var x := ShowSum(es[i]);
    assert s[p] == x[0];
  }

  /** After an argument and its comma the next argument starts at once. */
  lemma LaidNext(s: string, p: nat, es: seq<Expr>, i: nat, end: nat)
    requires Laid(s, p, es, i, end) && i < |es| - 1
    ensures var j := p + |ShowSum(es[i])|;
      SkipSpaces(s, j + 1) == j + 1 && Laid(s, j + 1, es, i + 1, end)
  {
    var j := p + |ShowSum(es[i])|;
    var x := ShowSum(es[i + 1]);
    assert s[j + 1] == x[0];
  }

  /** COUNT's argument loop over printed arguments marks each that denotes a value. */
  lemma {:induction false} CollectCounts(s: string, p: nat, es: seq<Expr>, i: nat, end: nat, env: Env)
    requires Laid(s, p, es, i, end)
    ensures Collect(s, p, true, env) == Gathered(Marks(CountFrom(es, i, env.resolve)), end + 1)
    decreases |es| - i
  {
    var j := p + |ShowSum(es[i])|;
    MarksFrom(es, i, env.resolve);
    if i == |es| - 1 {
      CollectStep(s, p, es[i], true, env);
      assert Marks(CountFrom(es, i + 1, env.resolve)) == [];
    } else {
      LaidNext(s, p, es, i, end);
      CollectStep(s, p, es[i], true, env);
      CollectCounts(s, j + 1, es, i + 1, end, env);
    }
  }

  /** The marks of `es[i..]`: one for `es[i]` if it denotes a value, then those of the rest. */
  lemma MarksFrom(es: seq<Expr>, i: nat, resolve: Resolver)
    requires i < |es|
    ensures Marks(CountFrom(es, i, resolve)) ==
      (if Eval(es[i], resolve).Num? then [1.0] else []) + Marks(CountFrom(es, i + 1, resolve))
  {
    var n := CountFrom(es, i + 1, resolve);
    if Eval(es[i], resolve).Num? {
      assert Marks(n + 1) == [1.0] + Marks(n);
    } else {
      assert [] + Marks(n) == Marks(n);
    }
  }

  /** The argument loop of the other list functions collects the values of printed arguments
      in order, and the first failing argument stops it with its error. */
  lemma {:induction false} CollectValues(s: string, p: nat, es: seq<Expr>, i: nat, end: nat, env: Env)
    requires Laid(s, p, es, i, end)
    ensures Collect(s, p, false, env) ==
      match ValuesFrom(es, i, env.resolve)
      case Aborted(c) => Stopped(c)
      case Items(xs) => Gathered(xs, end + 1)
    decreases |es| - i
  {
    var j := p + |ShowSum(es[i])|;
    if i == |es| - 1 {
      CollectStep(s, p, es[i], false, env);
    } else {
      LaidNext(s, p, es, i, end);
      CollectStep(s, p, es[i], false, env);
      CollectValues(s, j + 1, es, i + 1, end, env);
    }
  }

  /** The value of a list function over printed arguments: COUNT counts those that denote a
      value; the others reduce the values, or fail with the first error. */
  function ListResult(name: string, es: seq<Expr>, resolve: Resolver): Val
  {
    if name == "COUNT" then Num(CountFrom(es, 0, resolve) as real)
    else
      match ValuesFrom(es, 0, resolve)
      case Aborted(c) => Fail(c)
      case Items(xs) => Num(Reduce(name, xs))
  }

  lemma ListCallShown(s: string, p: nat, name: string, es: seq<Expr>, end: nat, env: Env)
    requires IsListFunction(name) && Laid(s, p, es, 0, end)
    ensures ListCall(s, p, name, env) == Lifted(ListResult(name, es, env.resolve), end + 1)
  {
    LaidFirst(s, p, es, 0, end);
    if name == "COUNT" {
      CollectCounts(s, p, es, 0, end, env);
      assert Reduce(name, Marks(CountFrom(es, 0, env.resolve))) == CountFrom(es, 0, env.resolve) as real;
    } else {
      CollectValues(s, p, es, 0, end, env);
    }
  }

  // -------------------------------------------------------------------------------------
  // Whole formulas `name(arguments)`

  /** A function name: one or more letters. */
  predicate IsName(name: string) {
    |name| > 0 && forall i :: 0 <= i < |name| ==> IsLetter(name[i])
  }

  /** The text of a call. */
  function CallText(name: string, args: string): string {
    name + "(" + args + ")"
  }

  lemma CallShape(name: string, args: string)
    ensures var t := CallText(name, args);
      |t| == |name| + |args| + 2 && t[..|name|] == name && t[|name|] == '(' && t[|t| - 1] == ')'
  {
    var t := CallText(name, args);
    assert t == name + "(" + args + ")";
  }

  lemma CallArgs(name: string, args: string)
    ensures At(CallText(name, args), |name| + 1, args)
  {
    var t := CallText(name, args);
    assert t == name + "(" + args + ")";
    forall i | 0 <= i < |args| ensures t[|name| + 1 + i] == args[i] {
    }
  }

  /** The arguments of a call of printed arguments are laid out up to its final `)`. */
  lemma CallLaid(name: string, es: seq<Expr>)
    requires 0 < |name| && 0 < |es|
    ensures var t := CallText(name, ArgsFrom(es, 0)); Laid(t, |name| + 1, es, 0, |t| - 1)
  {
    var a := ArgsFrom(es, 0);
    CallShape(name, a);
    CallArgs(name, a);
    ArgsLaid(CallText(name, a), |name| + 1, es, 0);
  }

  /** A name written in any case that upper-cases to a built-in name is a name. */
  lemma UpperName(name: string, u: string)
    requires Upper(name) == u && |u| > 0 && AllUpper(u)
    ensures IsName(name)
  {
    forall i | 0 <= i < |name| ensures IsLetter(name[i]) {
      assert IsLetter(u[i]);
    }
  }

  /** A formula that starts with a call: the call's error is the formula's; a call that ends
      the text is the formula's value; a stray `)` after it is `#ERR`. */
  lemma WholeCall(t: string, name: string, env: Env)
    requires IsName(name) && |name| < |t| && t[..|name|] == name && t[|name|] == '('
    ensures var r := Call(t, |name| + 1, Upper(name), env);
      (r.Err? ==> EvalExprForCell(t, env) == Fail(r.code)) &&
      (r.Ok? && r.pos == |t| ==> EvalExprForCell(t, env) == Num(r.v)) &&
      (r.Ok? && r.pos < |t| && t[r.pos] == ')' ==> EvalExprForCell(t, env) == Fail(Generic))
  {
    var n := |name|;
    assert t[0..n] == name;
    assert IsLetter(t[0]);
    LetterRunLetters(t, 0, n);
    assert Primary(t, 0, env) == Call(t, n + 1, Upper(name), env);
    assert Factor(t, 0, env) == Primary(t, 0, env);
    match Call(t, n + 1, Upper(name), env)
    case Err(c) =>
      assert MulDiv(t, 0, env) == Err(c);
      assert AddSub(t, 0, env) == Err(c);
      assert Sub(t, env) == Failed(c);
    case Ok(v, q) =>
      if q == |t| || t[q] == ')' {
        MulDivRestStops(t, q, v, env);
        AddSubRestStops(t, q, v, env);
        assert AddSub(t, 0, env) == Ok(v, q);
      }
  }

  /** Letters alone are neither a call nor a reference: `#REF!`. */
  lemma BareName(name: string, env: Env)
    requires IsName(name)
    ensures EvalExprForCell(name, env) == Fail(Ref)
  {
    assert IsLetter(name[0]);
    LetterRunLetters(name, 0, |name|);
    assert SkipSpaces(name, 0) == 0 && SkipSpaces(name, |name|) == |name|;
    assert DigitRun(name, |name|) == |name|;
    assert Primary(name, 0, env) == Err(Ref);
    assert Factor(name, 0, env) == Err(Ref);
    assert MulDiv(name, 0, env) == Err(Ref);
    assert AddSub(name, 0, env) == Err(Ref);
  }

  /** A call to a name that is not a built-in function is `#ERR`, whatever follows. */
  lemma UnknownFunction(name: string, rest: string, env: Env)
    requires IsName(name)
    requires var u := Upper(name);
      !IsListFunction(u) && u != "ROUND" && u != "IF" && u != "AND" && u != "OR" && u != "NOT"
    ensures EvalExprForCell(name + "(" + rest, env) == Fail(Generic)
  {
    var t := name + "(" + rest;
    assert t[..|name|] == name && t[|name|] == '(';
    WholeCall(t, name, env);
  }

  /** A call whose value reaches the end of the text is the formula's value. */
  lemma CallEndsFormula(t: string, name: string, v: Val, env: Env)
    requires IsName(name) && |name| < |t| && t[..|name|] == name && t[|name|] == '('
    requires Call(t, |name| + 1, Upper(name), env) == Lifted(v, |t|)
    ensures EvalExprForCell(t, env) == v
  {
    WholeCall(t, name, env);
  }

  /** A list function with printed arguments. */
  lemma ListFormula(name: string, es: seq<Expr>, env: Env)
    requires IsListFunction(Upper(name)) && 0 < |es|
    ensures EvalExprForCell(CallText(name, ArgsFrom(es, 0)), env) == ListResult(Upper(name), es, env.resolve)
  {
    BuiltinName(name, Upper(name));
    CallShape(name, ArgsFrom(es, 0));
    CallLaid(name, es);
    ListCallText(name, es, env);
  }

  /** The names of the built-in functions are names. */
  lemma BuiltinName(name: string, u: string)
    requires Upper(name) == u
    requires IsListFunction(u) || u == "ROUND" || u == "IF" || u == "AND" || u == "OR" || u == "NOT"
    ensures IsName(name)
  {
    assert AllUpper(u);
    UpperName(name, u);
  }

  lemma ListCallText(name: string, es: seq<Expr>, env: Env)
    requires IsListFunction(Upper(name)) && 0 < |es| && IsName(name)
    requires var t := CallText(name, ArgsFrom(es, 0));
      |name| + 1 < |t| && t[..|name|] == name && t[|name|] == '(' && Laid(t, |name| + 1, es, 0, |t| - 1)
    ensures EvalExprForCell(CallText(name, ArgsFrom(es, 0)), env) == ListResult(Upper(name), es, env.resolve)
  {
    ListText(CallText(name, ArgsFrom(es, 0)), name, Upper(name), es, env);
  }

  lemma ListText(t: string, name: string, u: string, es: seq<Expr>, env: Env)
    requires IsName(name) && |name| + 1 < |t| && t[..|name|] == name && t[|name|] == '('
    requires Upper(name) == u && IsListFunction(u) && Laid(t, |name| + 1, es, 0, |t| - 1)
    ensures EvalExprForCell(t, env) == ListResult(u, es, env.resolve)
  {
    ListCallShown(t, |name| + 1, u, es, |t| - 1, env);
    assert Call(t, |name| + 1, u, env) == Lifted(ListResult(u, es, env.resolve), |t|);
    CallEndsFormula(t, name, ListResult(u, es, env.resolve), env);
  }

  /** The empty call: zero for the list functions and OR, one for AND. */
  lemma EmptyCall(name: string, env: Env)
    requires var u := Upper(name); IsListFunction(u) || u == "AND" || u == "OR"
    ensures EvalExprForCell(CallText(name, ""), env) == Num(if Upper(name) == "AND" then 1.0 else 0.0)
  {
    var u := Upper(name);
    assert AllUpper(u);
    UpperName(name, u);
    var t := CallText(name, "");
    CallShape(name, "");
    WholeCall(t, name, env);
  }

  /** ROUND, IF and NOT need an argument: the empty call is `#ERR`. */
  lemma EmptyCallFails(name: string, env: Env)
    requires var u := Upper(name); u == "ROUND" || u == "IF" || u == "NOT"
    ensures EvalExprForCell(CallText(name, ""), env) == Fail(Generic)
  {
    var u := Upper(name);
    assert AllUpper(u);
    UpperName(name, u);
    var t := CallText(name, "");
    CallShape(name, "");
    WholeCall(t, name, env);
  }
}
