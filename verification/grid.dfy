/** Cell addressing: the bijective base-26 column letters, cell names such as `AB12`,
    and the reference parser that accepts a sheet prefix and `$` markers. */
module Grid {
  import opened Text

  /** A zero-based (row, column) pair, the key of the sparse grid. */
  type Coord = (int, int)

  /** A cell's content: the text typed into it. */
  datatype Cell = Cell(text: string)

  /** An injective function keeps the size of a set: `image` is the set of `f`'s values on `keys`. */
  lemma {:induction false} ImageCard<A, B>(keys: set<A>, image: set<B>, f: A -> B)
    requires forall x, y :: x in keys && y in keys && f(x) == f(y) ==> x == y
    requires forall x :: x in keys ==> f(x) in image
    requires forall y :: y in image ==> exists x :: x in keys && f(x) == y
    ensures |image| == |keys|
    decreases |keys|
  {
    if keys != {} {
      var x :| x in keys;
      var rest := keys - {x};
      var restImage := image - {f(x)};
      forall y | y in restImage
        ensures exists z :: z in rest && f(z) == y
      {
        var z :| z in keys && f(z) == y;
      }
      ImageCard(rest, restImage, f);
      assert image == restImage + {f(x)};
    } else {
      assert image == {};
    }
  }

  /** Two maps with the same keys and the same value at each key are equal. */
  lemma MapsEqual<K, V>(a: map<K, V>, b: map<K, V>)
    requires forall k :: k in a <==> k in b
    requires forall k :: k in a ==> a[k] == b[k]
    ensures a == b
  {
  }

  /** The letters of the positive number `n` in bijective base 26 (digits `A`=1 .. `Z`=26);
      zero has no letters.  Column `c` is written `Letters(c + 1)`. */
  function Letters(n: nat): (r: string)
    ensures |r| == 0 <==> n == 0
    ensures forall i :: 0 <= i < |r| ==> 'A' <= r[i] <= 'Z'
  {
    if n == 0 then "" else Letters((n - 1) / 26) + [('A' as int + (n - 1) % 26) as char]
  }

  /** The parser's fold over upper-case letters: `col = col*26 + (ch - 'A') + 1`. */
  function LettersValue(s: string): int
  {
    if |s| == 0 then 0 else LettersValue(s[..|s| - 1]) * 26 + (s[|s| - 1] as int - 'A' as int) + 1
  }

  predicate AllUpper(s: string) {
    forall i :: 0 <= i < |s| ==> 'A' <= s[i] <= 'Z'
  }

  /** Column name: `?` for a negative column, otherwise the letters of `col + 1`. */
  function ColToName(col: int): (r: string)
    ensures col < 0 ==> r == "?"
    ensures col >= 0 ==> |r| > 0 && AllUpper(r) && LettersValue(r) == col + 1
  {
    if col < 0 then "?"
    else
      LettersValueOfLetters(col + 1);
      Letters(col + 1)
  }

  /** Cell name: the column letters (none for a negative column) and the decimal of `row + 1`. */
  function ColRowToName(col: int, row: int): (r: string)
    ensures col >= 0 ==> r == ColToName(col) + IntToDecimal(row + 1)
    ensures col < 0 ==> r == IntToDecimal(row + 1)
  {
    Letters(if col + 1 > 0 then col + 1 else 0) + IntToDecimal(row + 1)
  }

  /** Number of leading letters of `s`. */
  function LeadingLetters(s: string): (i: nat)
    ensures i <= |s|
    ensures forall j :: 0 <= j < i ==> IsLetter(s[j])
    ensures i < |s| ==> !IsLetter(s[i])
  {
    if |s| > 0 && IsLetter(s[0]) then 1 + LeadingLetters(s[1..]) else 0
  }

  /** The reference text after trimming, dropping everything up to the last `!`, and removing `$`. */
  function Stripped(name: string): (v: string)
    ensures '$' !in v
  {
    RemoveAll(AfterSheet(TrimSpace(name)), '$')
  }

  /** The text after the last `!`, trimmed again; the whole text when there is no `!`. */
  function AfterSheet(t: string): string
  {
    var idx := LastIndex(t, '!');
    if idx != -1 then TrimSpace(t[idx + 1..]) else t
  }

  /** The column letters of a reference: the leading letters of its stripped text. */
  function RefLetters(name: string): (r: string)
    ensures forall j :: 0 <= j < |r| ==> IsLetter(r[j])
  {
    var v := Stripped(name);
    v[..LeadingLetters(v)]
  }

  /** The row text of a reference: whatever follows the leading letters. */
  function RefDigits(name: string): (r: string)
    ensures |r| > 0 ==> !IsLetter(r[0])
  {
    var v := Stripped(name);
    v[LeadingLetters(v)..]
  }

  /** `ParseCellRef`: a reference such as `Sheet1!$b$12` to its zero-based (row, col).  An
      empty stripped text has no letters and is rejected with them. */
  function ParseCellRef(name: string): (r: Option<Coord>)
    ensures r.Some? ==> r.value.0 >= 0 && r.value.1 >= 0
  {
    RefOfParts(RefLetters(name), RefDigits(name))
  }

  /** A reference from its column letters and its row text: both must be present, the row text
      must read as a positive `strconv.Atoi` number and the column value must be positive. */
  function RefOfParts(letters: string, digits: string): (r: Option<Coord>)
    ensures r.Some? ==> r.value.0 >= 0 && r.value.1 >= 0
  {
    if |letters| == 0 || |digits| == 0 then None
    else
      var col := LettersValue(Upper(letters)) - 1;
      match Atoi(digits)
      case None => None
      case Some(rowNum) =>
        var row := rowNum - 1;
        if row < 0 || col < 0 then None else Some((row, col))
  }

  /** The stripped text is exactly the letters followed by the row text. */
  lemma RefSplit(name: string)
    ensures Stripped(name) == RefLetters(name) + RefDigits(name)
  {
  }

  /** The ways a reference fails: no leading letter (which covers an empty text), nothing after
      the letters, a remainder `strconv.Atoi` rejects, or a row number below 1.  The column
      value of letters is never below 1, so otherwise it succeeds. */
  lemma ParseCellRefFails(name: string)
    ensures ParseCellRef(name).None? <==>
      (|RefLetters(name)| == 0 || |RefDigits(name)| == 0 ||
       Atoi(RefDigits(name)).None? || Atoi(RefDigits(name)).value < 1)
  {
    var w := RefLetters(name);
    if |w| > 0 {
      LettersPositive(w);
    }
  }

  /** A sheet prefix is ignored: whatever comes before the last `!` does not change the parse. */
  lemma ParseCellRefSheet(p: string, n: string)
    requires '!' !in n
    ensures ParseCellRef(p + "!" + n) == ParseCellRef(n)
  {
    assert Stripped(p + "!" + n) == Stripped(n) by {
      AfterSheetPrefix(p, n);
    }
  }

  /** `$` markers are ignored: inserting one anywhere into a reference without a sheet prefix and
      without white space at its ends does not change the parse.  (Next to white space at an end
      the marker matters, since it is removed only after trimming: ` $ A1` does not parse.) */
  lemma ParseCellRefDollar(a: string, b: string)
    requires '!' !in a + b && Trimmed(a + b)
    ensures ParseCellRef(a + "$" + b) == ParseCellRef(a + b)
  {
    var s := a + "$" + b;
    assert '!' !in s && Trimmed(s) by {
      DollarInserted(a, b);
    }
    assert Stripped(s) == Stripped(a + b) by {
      StrippedPlain(s);
      StrippedPlain(a + b);
      RemoveDollarInserted(a, b);
    }
  }

  lemma DollarInserted(a: string, b: string)
    requires '!' !in a + b && Trimmed(a + b)
    ensures '!' !in a + "$" + b && Trimmed(a + "$" + b)
  {
    var s := a + "$" + b;
    assert forall j :: 0 <= j < |s| ==> s[j] == '$' || s[j] in a + b;
    if |a| > 0 { assert s[0] == (a + b)[0]; }
    if |b| > 0 { assert s[|s| - 1] == (a + b)[|a + b| - 1]; }
  }

  /** Without a sheet prefix or white space at the ends, stripping only removes the `$`. */
  lemma StrippedPlain(s: string)
    requires '!' !in s && Trimmed(s)
    ensures Stripped(s) == RemoveAll(s, '$')
  {
    TrimSpaceNoop(s);
    LastIndexAbsent(s, '!');
  }

  lemma RemoveDollarInserted(a: string, b: string)
    ensures RemoveAll(a + "$" + b, '$') == RemoveAll(a + b, '$')
  {
    var x, y := RemoveAll(a, '$'), RemoveAll(b, '$');
    assert RemoveAll("$", '$') == "";
    assert RemoveAll(a + "$", '$') == x by {
      RemoveAllAppend(a, "$", '$');
    }
    assert RemoveAll(a + "$" + b, '$') == x + y by {
      RemoveAllAppend(a + "$", b, '$');
    }
    assert RemoveAll(a + b, '$') == x + y by {
      RemoveAllAppend(a, b, '$');
    }
  }

  /** Trimming a reference with a sheet prefix and cutting at its last `!` leaves the trimmed text
      after the `!`. */
  lemma AfterSheetPrefix(p: string, n: string)
    requires '!' !in n
    ensures AfterSheet(TrimSpace(p + "!" + n)) == AfterSheet(TrimSpace(n))
  {
    var s := p + "!" + n;
    var i := LeadingSpaces(s);
    var w := TrimSpace(s);
    var e := i + |w|;
    assert i <= |p| < e <= |s| && w == s[i..e] && AllSpaces(s[e..]) by {
      SheetTrimmed(p, n);
    }
    SheetSlices(p, n, i, e);
    CutAtSheet(w, |p| - i, n, e - |p| - 1);
    AfterSheetPlain(n);
  }

  /** Cutting after the last `!` of a text that goes on with a prefix of `n`, the rest of `n`
      being white space, leaves `n` trimmed. */
  lemma CutAtSheet(w: string, q: nat, n: string, m: nat)
    requires q < |w| && m <= |n| && '!' !in n
    requires w[q] == '!' && w[q + 1..] == n[..m] && AllSpaces(n[m..])
    ensures AfterSheet(w) == TrimSpace(n)
  {
    var head, rest := n[..m], n[m..];
    assert '!' !in head by {
      assert forall j :: 0 <= j < |head| ==> head[j] == n[j];
    }
    assert LastIndex(w, '!') == q by {
      LastIndexAt(w, q, '!', head);
    }
    assert AfterSheet(w) == TrimSpace(head);
    assert TrimSpace(head) == TrimSpace(n) by {
      assert n == head + rest;
      TrimSpaceAppendSpaces(head, rest);
    }
  }

  /** Trimming keeps the `!` of a sheet prefix. */
  lemma SheetTrimmed(p: string, n: string)
    ensures var s := p + "!" + n; var i := LeadingSpaces(s); var e := i + |TrimSpace(s)|;
      i <= |p| < e <= |s| && TrimSpace(s) == s[i..e] && AllSpaces(s[e..])
  {
    var s := p + "!" + n;
    assert s[|p|] == '!';
    TrimSpaceInfix(s);
    TrimKeeps(s, |p|);
  }

  lemma SheetSlices(p: string, n: string, i: nat, e: nat)
    requires i <= |p| < e <= |p| + 1 + |n|
    ensures var s := p + "!" + n; var w := s[i..e]; var m := e - |p| - 1;
      w[|p| - i] == '!' && w[|p| - i + 1..] == n[..m] && s[e..] == n[m..]
    ensures AllSpaces((p + "!" + n)[e..]) ==> AllSpaces(n[e - |p| - 1..])
  {
  }

  /** A character that is not white space survives trimming. */
  lemma TrimKeeps(s: string, j: nat)
    requires j < |s| && !IsSpace(s[j])
    ensures LeadingSpaces(s) <= j < LeadingSpaces(s) + |TrimSpace(s)|
  {
    TrimSpaceInfix(s);
  }

  /** The last `c` is at `q` when `c` is there and the text after it holds none. */
  lemma LastIndexAt(w: string, q: nat, c: char, tail: string)
    requires q < |w| && w[q] == c && w[q + 1..] == tail && c !in tail
    ensures LastIndex(w, c) == q
  {
  }

  /** Trimmed text without `!` has no sheet prefix to cut. */
  lemma AfterSheetPlain(n: string)
    requires '!' !in n
    ensures AfterSheet(TrimSpace(n)) == TrimSpace(n)
  {
    var t := TrimSpace(n);
    TrimSpaceInfix(n);
    assert '!' !in t by {
      assert forall j :: 0 <= j < |t| ==> t[j] == n[LeadingSpaces(n) + j];
    }
    LastIndexAbsent(t, '!');
  }

  /** On success, the row is the row text's number minus one and the column is the letters'
      value minus one. */
  lemma ParseCellRefParts(name: string, rc: Coord)
    requires ParseCellRef(name) == Some(rc)
    ensures |RefLetters(name)| > 0 && Atoi(RefDigits(name)) == Some(rc.0 + 1)
    ensures rc.1 == LettersValue(Upper(RefLetters(name))) - 1
  {
    RefOfPartsParts(RefLetters(name), RefDigits(name), rc);
  }

  lemma RefOfPartsParts(letters: string, digits: string, rc: Coord)
    requires RefOfParts(letters, digits) == Some(rc)
    ensures |letters| > 0 && Atoi(digits) == Some(rc.0 + 1) && rc.1 == LettersValue(Upper(letters)) - 1
  {
  }

  /** The letters of a parsed reference are, up to case, the canonical name of its column. */
  lemma ParseCellRefInverse(name: string)
    requires ParseCellRef(name).Some?
    ensures Upper(RefLetters(name)) == ColToName(ParseCellRef(name).value.1)
  {
    var w := RefLetters(name);
    var c := ParseCellRef(name).value.1;
    assert |w| > 0 && c == LettersValue(Upper(w)) - 1 by { ParseCellRefParts(name, ParseCellRef(name).value); }
    assert Upper(w) == ColToName(c) by { LettersColumn(w, c); }
  }

  /** A word of letters, upper-cased, is the name of the column its value denotes. */
  lemma LettersColumn(w: string, c: int)
    requires |w| > 0 && forall j :: 0 <= j < |w| ==> IsLetter(w[j])
    requires c == LettersValue(Upper(w)) - 1
    ensures Upper(w) == ColToName(c)
  {
    var u := Upper(w);
    UpperOfLetters(w);
    ColToNameOfValue(u);
  }

  lemma LettersPositive(w: string)
    requires |w| > 0 && forall j :: 0 <= j < |w| ==> IsLetter(w[j])
    ensures LettersValue(Upper(w)) >= 1
  {
    UpperOfLetters(w);
    LettersValueLowerBound(Upper(w));
  }

  lemma ColToNameOfValue(u: string)
    requires |u| > 0 && AllUpper(u)
    ensures LettersValue(u) >= 1 && ColToName(LettersValue(u) - 1) == u
  {
    LettersOfLettersValue(u);
    ColToNameLetters(LettersValue(u));
  }

  lemma ColToNameLetters(n: int)
    requires n >= 1
    ensures ColToName(n - 1) == Letters(n)
  {
  }

  lemma UpperOfLetters(s: string)
    requires forall j :: 0 <= j < |s| ==> IsLetter(s[j])
    ensures AllUpper(Upper(s))
  {
    forall j | 0 <= j < |s| ensures 'A' <= Upper(s)[j] <= 'Z' {
      assert Upper(s)[j] == UpperChar(s[j]);
    }
  }

  lemma {:induction false} LettersValueLowerBound(s: string)
    requires AllUpper(s)
    ensures LettersValue(s) >= |s|
  {
    if |s| > 0 {
      LettersValueLowerBound(s[..|s| - 1]);
    }
  }

  /** Decoding the letters of `n` gives `n` back. */
  lemma {:induction false} LettersValueOfLetters(n: nat)
    ensures LettersValue(Letters(n)) == n
  {
    if n > 0 {
      var s := Letters(n);
      assert s[..|s| - 1] == Letters((n - 1) / 26);
      LettersValueOfLetters((n - 1) / 26);
    }
  }

  /** Every non-empty upper-case word is the letters of its value: the encoding is onto. */
  lemma {:induction false} LettersOfLettersValue(s: string)
    requires |s| > 0 && AllUpper(s)
    ensures LettersValue(s) >= 1 && Letters(LettersValue(s)) == s
  {
    var p := s[..|s| - 1];
    var d := s[|s| - 1] as int - 'A' as int;
    LettersValueLowerBound(s);
    LettersValueLowerBound(p);
    var n := LettersValue(s);
    assert n == LettersValue(p) * 26 + d + 1;
    assert (n - 1) / 26 == LettersValue(p) && (n - 1) % 26 == d;
    if |p| > 0 {
      LettersOfLettersValue(p);
    }
    assert s == p + [s[|s| - 1]];
  }

  /** Distinct columns have distinct names. */
  lemma ColToNameInjective(c1: int, c2: int)
    requires c1 >= 0 && c2 >= 0 && ColToName(c1) == ColToName(c2)
    ensures c1 == c2
  {
  }

  /** The canonical name of a cell parses back to that cell. */
  lemma RefRoundTrip(col: int, row: int)
    requires 0 <= col && 0 <= row < MaxInt64
    ensures ParseCellRef(ColRowToName(col, row)) == Some((row, col))
  {
    var letters := ColToName(col);
    var digits := IntToDecimal(row + 1);
    var s := ColRowToName(col, row);
    NameOfCell(col, row);
    assert RefLetters(s) == letters && RefDigits(s) == digits;
    assert Atoi(digits) == Some(row + 1);
    UpperOfUpper(letters);
    assert LettersValue(Upper(letters)) == col + 1;
    RefOfPartsSome(letters, digits, row + 1);
    assert RefOfParts(letters, digits) == Some((row, col));
  }

  lemma NameOfCell(col: int, row: int)
    requires 0 <= col && 0 <= row < MaxInt64
    ensures var s := ColRowToName(col, row);
      RefLetters(s) == ColToName(col) && RefDigits(s) == IntToDecimal(row + 1) &&
      Atoi(IntToDecimal(row + 1)) == Some(row + 1)
  {
    var letters := ColToName(col);
    var digits := IntToDecimal(row + 1);
    assert ColRowToName(col, row) == letters + digits;
    NameParts(letters, digits);
    AtoiOfDecimal(row + 1);
  }

  lemma RefOfPartsSome(letters: string, digits: string, n: int)
    requires |letters| > 0 && forall j :: 0 <= j < |letters| ==> IsLetter(letters[j])
    requires Atoi(digits) == Some(n) && n >= 1
    ensures RefOfParts(letters, digits) == Some((n - 1, LettersValue(Upper(letters)) - 1))
  {
    var col := LettersValue(Upper(letters)) - 1;
    LettersPositive(letters);
    assert col >= 0;
    assert RefOfParts(letters, digits) == if n - 1 < 0 || col < 0 then None else Some((n - 1, col));
  }

  /** A canonical name splits into its letters and its digits. */
  lemma NameParts(letters: string, digits: string)
    requires |letters| > 0 && AllUpper(letters) && |digits| > 0 && AllDigits(digits)
    ensures RefLetters(letters + digits) == letters && RefDigits(letters + digits) == digits
  {
    var s := letters + digits;
    StrippedOfName(letters, digits);
    LeadingLettersOfName(letters, digits);
    assert s[..|letters|] == letters && s[|letters|..] == digits;
  }

  lemma StrippedOfName(letters: string, digits: string)
    requires |letters| > 0 && AllUpper(letters) && |digits| > 0 && AllDigits(digits)
    ensures Stripped(letters + digits) == letters + digits
  {
    var s := letters + digits;
    assert s[0] == letters[0] && s[|s| - 1] == digits[|digits| - 1];
    TrimSpaceNoop(s);
    forall i | 0 <= i < |s| ensures s[i] != '!' && s[i] != '$' {
      if i < |letters| { assert s[i] == letters[i]; } else { assert s[i] == digits[i - |letters|]; }
    }
  }

  lemma {:induction false} LeadingLettersOfName(letters: string, digits: string)
    requires AllUpper(letters) && |digits| > 0 && AllDigits(digits)
    ensures LeadingLetters(letters + digits) == |letters|
  {
    var s := letters + digits;
    if |letters| == 0 {
      assert !IsLetter(s[0]);
    } else {
      assert s[1..] == letters[1..] + digits;
      LeadingLettersOfName(letters[1..], digits);
    }
  }

  lemma UpperOfUpper(s: string)
    requires AllUpper(s)
    ensures Upper(s) == s
  {
  }

  /** Shortlex order: shorter first, then lexicographic among equal lengths. */
  predicate LexLess(a: string, b: string)
    requires |a| == |b|
  {
    exists k :: 0 <= k < |a| && a[..k] == b[..k] && a[k] < b[k]
  }

  predicate ShortLexLess(a: string, b: string) {
    |a| < |b| || (|a| == |b| && LexLess(a, b))
  }

  /** A larger column has a longer name, or an equally long and alphabetically larger one. */
  lemma ColToNameMonotone(c1: int, c2: int)
    requires 0 <= c1 < c2
    ensures ShortLexLess(ColToName(c1), ColToName(c2))
  {
    LettersMonotone(c1 + 1, c2 + 1);
  }

  lemma {:induction false} LettersMonotone(n1: nat, n2: nat)
    requires n1 < n2
    ensures ShortLexLess(Letters(n1), Letters(n2))
    decreases n2
  {
    if n1 > 0 {
      var q1, q2 := (n1 - 1) / 26, (n2 - 1) / 26;
      var r1, r2 := (n1 - 1) % 26, (n2 - 1) % 26;
      assert n1 - 1 == 26 * q1 + r1 && 0 <= r1 < 26;
      assert n2 - 1 == 26 * q2 + r2 && 0 <= r2 < 26;
      var a, b := Letters(q1), Letters(q2);
      var x := ('A' as int + r1) as char;
      var y := ('A' as int + r2) as char;
      assert Letters(n1) == a + [x];
      assert Letters(n2) == b + [y];
      if q1 == q2 {
        assert x < y;
        assert LexLess(a + [x], a + [y]) by { LexLessLast(a, x, y); }
      } else {
        assert q1 < q2;
        assert ShortLexLess(a, b) by { LettersMonotone(q1, q2); }
        if |a| == |b| {
          assert LexLess(a + [x], b + [y]) by { LexLessExtend(a, b, x, y); }
        }
      }
    }
  }

  lemma LexLessLast(a: string, x: char, y: char)
    requires x < y
    ensures LexLess(a + [x], a + [y])
  {
    assert (a + [x])[..|a|] == (a + [y])[..|a|];
  }

  lemma LexLessExtend(a: string, b: string, x: char, y: char)
    requires |a| == |b| && LexLess(a, b)
    ensures LexLess(a + [x], b + [y])
  {
    var k :| 0 <= k < |a| && a[..k] == b[..k] && a[k] < b[k];
    assert (a + [x])[..k] == a[..k] && (b + [y])[..k] == b[..k];
  }

  /** Column letters are case-insensitive: upper-casing a reference does not change what it denotes. */
  lemma ParseCellRefCaseInsensitive(name: string)
    ensures ParseCellRef(Upper(name)) == ParseCellRef(name)
  {
    var u := Upper(name);
    var v := Stripped(name);
    StrippedUpper(name);
    assert Stripped(u) == Upper(v);
    LeadingLettersUpper(v);
    var i := LeadingLetters(v);
    assert LeadingLetters(Upper(v)) == i;
    UpperPrefix(v, i);
    UpperSuffix(v, i);
    assert RefLetters(u) == Upper(RefLetters(name));
    assert RefDigits(u) == Upper(RefDigits(name));
    RefOfPartsUpper(RefLetters(name), RefDigits(name));
  }

  lemma RefOfPartsUpper(letters: string, digits: string)
    ensures RefOfParts(Upper(letters), Upper(digits)) == RefOfParts(letters, digits)
  {
    UpperIdempotent(letters);
    AtoiUpper(digits);
  }

  lemma UpperIdempotent(s: string)
    ensures Upper(Upper(s)) == Upper(s)
  {
  }

  lemma {:induction false} LeadingLettersUpper(s: string)
    ensures LeadingLetters(Upper(s)) == LeadingLetters(s)
  {
    if |s| > 0 {
      assert Upper(s)[1..] == Upper(s[1..]);
      LeadingLettersUpper(s[1..]);
    }
  }

  lemma {:induction false} AtoiUpper(s: string)
    ensures Atoi(Upper(s)) == Atoi(s)
  {
    var u := Upper(s);
    if |s| > 0 {
      assert u[1..] == Upper(s[1..]);
      var body := if s[0] == '+' || s[0] == '-' then s[1..] else s;
      var ubody := if u[0] == '+' || u[0] == '-' then u[1..] else u;
      assert ubody == Upper(body);
      if AllDigits(body) {
        assert ubody == body;
      } else {
        var k :| 0 <= k < |body| && !IsDigit(body[k]);
        assert !IsDigit(ubody[k]);
      }
    }
  }

  lemma StrippedUpper(name: string)
    ensures Stripped(Upper(name)) == Upper(Stripped(name))
  {
    var t := TrimSpace(name);
    var a := AfterSheet(t);
    assert TrimSpace(Upper(name)) == Upper(t) by { TrimSpaceUpper(name); }
    assert AfterSheet(Upper(t)) == Upper(a) by { AfterSheetUpper(t); }
    assert RemoveAll(Upper(a), '$') == Upper(RemoveAll(a, '$')) by { RemoveAllUpper(a, '$'); }
  }

  lemma AfterSheetUpper(t: string)
    ensures AfterSheet(Upper(t)) == Upper(AfterSheet(t))
  {
    var idx := LastIndex(t, '!');
    assert LastIndex(Upper(t), '!') == idx by { LastIndexUpper(t, '!'); }
    if idx != -1 {
      StrippedUpperSuffix(t, idx);
    }
  }

  lemma StrippedUpperSuffix(t: string, idx: int)
    requires 0 <= idx < |t|
    ensures TrimSpace(Upper(t)[idx + 1..]) == Upper(TrimSpace(t[idx + 1..]))
  {
    var rest := t[idx + 1..];
    UpperSuffix(t, idx + 1);
    assert Upper(t)[idx + 1..] == Upper(rest);
    TrimSpaceUpper(rest);
  }

  lemma {:induction false} RemoveAllUpper(s: string, c: char)
    requires !IsLetter(c)
    ensures RemoveAll(Upper(s), c) == Upper(RemoveAll(s, c))
  {
    if |s| > 0 {
      var x := s[0];
      var t := s[1..];
      var r := RemoveAll(t, c);
      assert Upper(s) == [UpperChar(x)] + Upper(t) by {
        assert s == [x] + t;
        UpperCons(x, t);
      }
      assert RemoveAll(Upper(t), c) == Upper(r) by {
        RemoveAllUpper(t, c);
      }
      assert UpperChar(x) == c <==> x == c;
      RemoveAllCons(UpperChar(x), Upper(t), c);
      RemoveAllCons(x, t, c);
      if x != c {
        UpperCons(x, r);
      }
    }
  }

  lemma UpperCons(x: char, r: string)
    ensures Upper([x] + r) == [UpperChar(x)] + Upper(r)
  {
  }

  lemma RemoveAllCons(x: char, r: string, c: char)
    ensures RemoveAll([x] + r, c) == if x == c then RemoveAll(r, c) else [x] + RemoveAll(r, c)
  {
    assert ([x] + r)[1..] == r;
  }

  lemma {:induction false} LastIndexUpper(s: string, c: char)
    requires !('a' <= c <= 'z') && !('A' <= c <= 'Z')
    ensures LastIndex(Upper(s), c) == LastIndex(s, c)
  {
    if |s| > 0 {
      assert Upper(s)[..|s| - 1] == Upper(s[..|s| - 1]);
      LastIndexUpper(s[..|s| - 1], c);
    }
  }

  lemma TrimSpaceUpper(s: string)
    ensures TrimSpace(Upper(s)) == Upper(TrimSpace(s))
  {
    var u := Upper(s);
    LeadingSpacesUpper(s);
    var k := LeadingSpaces(s);
    assert LeadingSpaces(u) == k;
    var t := s[k..];
    UpperSuffix(s, k);
    assert u[k..] == Upper(t);
    TrailingStartUpper(t);
    var j := TrailingStart(t);
    assert TrailingStart(Upper(t)) == j;
    UpperPrefix(t, j);
    assert Upper(t)[..j] == Upper(t[..j]);
    assert TrimSpace(u) == Upper(t)[..j];
    assert TrimSpace(s) == t[..j];
  }

  lemma UpperPrefix(s: string, i: int)
    requires 0 <= i <= |s|
    ensures Upper(s)[..i] == Upper(s[..i])
  {
  }

  lemma UpperSuffix(s: string, i: int)
    requires 0 <= i <= |s|
    ensures Upper(s)[i..] == Upper(s[i..])
  {
  }

  lemma {:induction false} LeadingSpacesUpper(s: string)
    ensures LeadingSpaces(Upper(s)) == LeadingSpaces(s)
  {
    if |s| > 0 {
      assert Upper(s)[1..] == Upper(s[1..]);
      LeadingSpacesUpper(s[1..]);
    }
  }

  lemma {:induction false} TrailingStartUpper(s: string)
    ensures TrailingStart(Upper(s)) == TrailingStart(s)
  {
    if |s| > 0 {
      assert Upper(s)[..|s| - 1] == Upper(s[..|s| - 1]);
      TrailingStartUpper(s[..|s| - 1]);
    }
  }
}
