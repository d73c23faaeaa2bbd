/** Models of the Go standard-library string helpers the spreadsheet core relies on:
    white-space trimming, searching, filtering, upper-casing, decimal formatting,
    `strconv.Atoi` and `strings.Split`.  A string is a sequence of characters, one
    character per byte of the Go string. */
module Text {

  /** Go's `int` is 64 bits wide. */
  const MinInt64: int := -0x8000_0000_0000_0000
  const MaxInt64: int := 0x7FFF_FFFF_FFFF_FFFF

  datatype Option<T> = None | Some(value: T)

  predicate IsDigit(c: char) {
    '0' <= c <= '9'
  }

  predicate IsLetter(c: char) {
    ('A' <= c <= 'Z') || ('a' <= c <= 'z')
  }

  predicate AllDigits(s: string) {
    forall i :: 0 <= i < |s| ==> IsDigit(s[i])
  }

  /** The ASCII white space `strings.TrimSpace` removes. */
  predicate IsSpace(c: char) {
    c == ' ' || c == '\t' || c == '\n' || c == '\r' || c == '\U{000B}' || c == '\U{000C}'
  }

  predicate AllSpaces(s: string) {
    forall i :: 0 <= i < |s| ==> IsSpace(s[i])
  }

  /** Neither end of `s` is white space. */
  predicate Trimmed(s: string) {
    |s| > 0 ==> !IsSpace(s[0]) && !IsSpace(s[|s| - 1])
  }

  /** Number of white-space characters at the start of `s`. */
  function LeadingSpaces(s: string): (k: nat)
    ensures k <= |s|
    ensures k < |s| ==> !IsSpace(s[k])
  {
    if |s| > 0 && IsSpace(s[0]) then 1 + LeadingSpaces(s[1..]) else 0
  }

  /** Everything before the first non-space character is white space. */
  lemma {:induction false} LeadingSpacesAll(s: string)
    ensures AllSpaces(s[..LeadingSpaces(s)])
  {
    if |s| > 0 && IsSpace(s[0]) {
      var k := LeadingSpaces(s[1..]);
      LeadingSpacesAll(s[1..]);
      assert s[..1 + k] == [s[0]] + s[1..][..k];
    }
  }

  /** Length of `s` without its trailing white space. */
  function TrailingStart(s: string): (k: nat)
    ensures k <= |s|
    ensures k > 0 ==> !IsSpace(s[k - 1])
  {
    if |s| > 0 && IsSpace(s[|s| - 1]) then TrailingStart(s[..|s| - 1]) else |s|
  }

  /** Everything after the last non-space character is white space. */
  lemma {:induction false} TrailingStartAll(s: string)
    ensures AllSpaces(s[TrailingStart(s)..])
  {
    if |s| > 0 && IsSpace(s[|s| - 1]) {
      var u := s[..|s| - 1];
      var k := TrailingStart(u);
      assert TrailingStart(s) == k;
      TrailingStartAll(u);
      forall m | k <= m < |s|
        ensures IsSpace(s[m])
      {
        if m < |s| - 1 {
          assert s[m] == u[k..][m - k];
        }
      }
    }
  }

  /** `strings.TrimSpace`: the infix of `s` that starts after its leading white space, with
      only white space after it, and that neither starts nor ends with white space. */
  function TrimSpace(s: string): (r: string)
    ensures |r| <= |s| && Trimmed(r)
  {
    var t := s[LeadingSpaces(s)..];
    t[..TrailingStart(t)]
  }

  /** What trimming leaves: the infix of `s` that starts after its leading white space and has
      only white space after it. */
  lemma TrimSpaceInfix(s: string)
    ensures var i, r := LeadingSpaces(s), TrimSpace(s);
      i + |r| <= |s| && r == s[i..i + |r|] && AllSpaces(s[..i]) && AllSpaces(s[i + |r|..])
  {
    var i := LeadingSpaces(s);
    var t := s[i..];
    var j := TrailingStart(t);
    assert TrimSpace(s) == t[..j] == s[i..i + j];
    assert AllSpaces(s[..i]) by {
      LeadingSpacesAll(s);
    }
    assert AllSpaces(s[i + j..]) by {
      TrailingStartAll(t);
      assert t[j..] == s[i + j..];
    }
  }

  lemma TrimSpaceNoop(s: string)
    requires Trimmed(s)
    ensures TrimSpace(s) == s
  {
    TrimSpaceUnique("", s, "");
    assert "" + s + "" == s;
  }

  /** The trimmed text is determined by its description: text that splits into white space, a
      middle that neither starts nor ends with white space, and white space trims to the middle. */
  lemma TrimSpaceUnique(u: string, m: string, v: string)
    requires AllSpaces(u) && Trimmed(m) && AllSpaces(v)
    ensures TrimSpace(u + m + v) == m
  {
    var s := u + m + v;
    var i := LeadingSpaces(s);
    var r := TrimSpace(s);
    var e := i + |r|;
    TrimSpaceInfix(s);
    if |m| == 0 {
      assert AllSpaces(s) by {
        assert s == u + v;
      }
    } else {
      var last := |u| + |m| - 1;
      assert s[|u|] == m[0] && s[last] == m[|m| - 1];
      assert i == |u|;
      assert e == |u| + |m|;
      assert r == s[|u|..|u| + |m|];
    }
  }

  /** Trailing white space does not change the trimmed text. */
  lemma TrimSpaceAppendSpaces(x: string, y: string)
    requires AllSpaces(y)
    ensures TrimSpace(x + y) == TrimSpace(x)
  {
    var i := LeadingSpaces(x);
    var m := TrimSpace(x);
    TrimSpaceInfix(x);
    var u := x[..i];
    var v := x[i + |m|..];
    assert x == u + m + v;
    assert AllSpaces(v + y);
    assert x + y == u + m + (v + y);
    TrimSpaceUnique(u, m, v + y);
  }

  /** `strings.LastIndex(s, string(c))`: the last position of `c`, or -1 when there is none. */
  function LastIndex(s: string, c: char): (r: int)
    ensures -1 <= r < |s|
    ensures r >= 0 ==> s[r] == c
    ensures forall j :: r < j < |s| ==> s[j] != c
  {
    if |s| == 0 then -1
    else if s[|s| - 1] == c then |s| - 1
    else LastIndex(s[..|s| - 1], c)
  }

  lemma LastIndexAbsent(s: string, c: char)
    ensures LastIndex(s, c) == -1 <==> c !in s
  {
  }

  /** The first position of `c` in `s`, or `|s|`. */
  function FirstIndex(s: string, c: char): (i: nat)
    ensures i <= |s|
    ensures i < |s| ==> s[i] == c
    ensures forall k :: 0 <= k < i ==> s[k] != c
  {
    if |s| == 0 || s[0] == c then 0 else 1 + FirstIndex(s[1..], c)
  }

  /** `strings.ReplaceAll(s, string(c), "")`: every other character, in order.  The contents are
      those of `s` without any `c`, with their multiplicities; the order is kept because removal
      distributes over concatenation (`RemoveAllAppend`) and keeps any other single character. */
  function RemoveAll(s: string, c: char): (r: string)
    ensures multiset(r) == multiset(s)[c := 0]
    ensures c !in r && |r| <= |s|
    ensures c !in s ==> r == s
  {
    if |s| == 0 then ""
    else
      assert s == [s[0]] + s[1..];
      if s[0] == c then RemoveAll(s[1..], c)
      else [s[0]] + RemoveAll(s[1..], c)
  }

  /** Removing a character from a concatenation removes it from each part. */
  lemma {:induction false} RemoveAllAppend(a: string, b: string, c: char)
    ensures RemoveAll(a + b, c) == RemoveAll(a, c) + RemoveAll(b, c)
  {
    if |a| > 0 {
      assert (a + b)[0] == a[0] && (a + b)[1..] == a[1..] + b;
      RemoveAllAppend(a[1..], b, c);
    } else {
      assert a + b == b;
    }
  }

  /** `unicode.ToUpper` restricted to ASCII: only `a`..`z` change. */
  function UpperChar(c: char): (r: char)
    ensures IsLetter(c) <==> IsLetter(r)
    ensures IsDigit(c) <==> IsDigit(r)
    ensures !('a' <= c <= 'z') ==> r == c
    ensures 'a' <= c <= 'z' ==> 'A' <= r <= 'Z' && r as int == c as int - 32
  {
    if 'a' <= c <= 'z' then (c as int - 32) as char else c
  }

  /** `strings.ToUpper` on ASCII text. */
  function Upper(s: string): (r: string)
    ensures |r| == |s|
    ensures forall i :: 0 <= i < |s| ==> r[i] == UpperChar(s[i])
  {
    seq(|s|, i requires 0 <= i < |s| => UpperChar(s[i]))
  }

  function DigitChar(d: nat): (c: char)
    requires d < 10
    ensures IsDigit(c)
  {
    ('0' as int + d) as char
  }

  function DigitValue(c: char): (d: nat)
    requires IsDigit(c)
    ensures d < 10 && DigitChar(d) == c
  {
    c as int - '0' as int
  }

  /** Decimal digits of a natural number, most significant first, no leading zero. */
  function NatToDecimal(n: nat): (r: string)
    ensures |r| > 0 && AllDigits(r)
    ensures |r| > 1 ==> r[0] != '0'
  {
    if n < 10 then [DigitChar(n)] else NatToDecimal(n / 10) + [DigitChar(n % 10)]
  }

  /** `fmt.Sprintf("%d", n)` and `strconv.Itoa(n)`. */
  function IntToDecimal(n: int): (r: string)
    ensures |r| > 0
    ensures n >= 0 ==> AllDigits(r)
    ensures n < 0 ==> r[0] == '-' && AllDigits(r[1..])
  {
    if n < 0 then "-" + NatToDecimal(-n) else NatToDecimal(n)
  }

  /** The value of a run of decimal digits (an empty run reads as zero). */
  function DigitsValue(s: string): nat
    requires AllDigits(s)
  {
    if |s| == 0 then 0 else DigitsValue(s[..|s| - 1]) * 10 + DigitValue(s[|s| - 1])
  }

  lemma {:induction false} DigitsValueOfDecimal(n: nat)
    ensures DigitsValue(NatToDecimal(n)) == n
  {
    if n >= 10 {
      var s := NatToDecimal(n);
      assert s[..|s| - 1] == NatToDecimal(n / 10);
      DigitsValueOfDecimal(n / 10);
    }
  }

  lemma {:induction false} DecimalOfDigitsValue(s: string)
    requires AllDigits(s) && |s| > 0 && (|s| > 1 ==> s[0] != '0')
    ensures NatToDecimal(DigitsValue(s)) == s
  {
    if |s| > 1 {
      var p := s[..|s| - 1];
      DecimalOfDigitsValue(p);
      DigitsValueLowerBound(p);
      assert s == p + [s[|s| - 1]];
    }
  }

  lemma {:induction false} DigitsValueLowerBound(s: string)
    requires AllDigits(s) && |s| > 0 && s[0] != '0'
    ensures DigitsValue(s) >= 1
  {
    if |s| > 1 {
      DigitsValueLowerBound(s[..|s| - 1]);
    }
  }

  /** `strconv.Atoi`: an optional sign and at least one decimal digit, nothing else,
      within the 64-bit range. */
  function Atoi(s: string): (r: Option<int>)
    ensures r.Some? ==> MinInt64 <= r.value <= MaxInt64
    ensures |s| == 0 ==> r.None?
    ensures r.Some? ==> forall i :: 0 <= i < |s| ==> IsDigit(s[i]) || (i == 0 && (s[0] == '+' || s[0] == '-'))
  {
    var negative := |s| > 0 && s[0] == '-';
    var body := if |s| > 0 && (s[0] == '+' || s[0] == '-') then s[1..] else s;
    if |body| == 0 || !AllDigits(body) then None
    else
      var v: int := if negative then -(DigitsValue(body) as int) else DigitsValue(body);
      if v < MinInt64 || v > MaxInt64 then None else Some(v)
  }

  lemma AtoiOfDecimal(n: int)
    requires MinInt64 <= n <= MaxInt64
    ensures Atoi(IntToDecimal(n)) == Some(n)
  {
    var s := IntToDecimal(n);
    if n < 0 {
      var d := NatToDecimal(-n);
      assert s == "-" + d;
      assert s[0] == '-' && s[1..] == d;
      DigitsValueOfDecimal(-n);
      assert DigitsValue(d) == -n;
    } else {
      var d := NatToDecimal(n);
      assert s == d && IsDigit(d[0]);
      DigitsValueOfDecimal(n);
      assert DigitsValue(d) == n;
    }
  }

  /** `strings.Split(s, string(sep))`: the pieces between separators, always at least one. */
  function Split(s: string, sep: char): (r: seq<string>)
    ensures |r| > 0
    ensures forall i :: 0 <= i < |r| ==> sep !in r[i]
    ensures sep !in s ==> r == [s]
  {
    if |s| == 0 then [""]
    else if s[0] == sep then [""] + Split(s[1..], sep)
    else
      var rest := Split(s[1..], sep);
      assert sep !in s ==> [s[0]] + s[1..] == s;
      [[s[0]] + rest[0]] + rest[1..]
  }

  /** `strings.Join(parts, string(sep))`. */
  function Join(parts: seq<string>, sep: char): string
  {
    if |parts| == 0 then ""
    else if |parts| == 1 then parts[0]
    else parts[0] + [sep] + Join(parts[1..], sep)
  }

  /** Joining the pieces again restores the text. */
  lemma {:induction false} JoinSplit(s: string, sep: char)
    ensures Join(Split(s, sep), sep) == s
  {
    if |s| > 0 {
      var rest := Split(s[1..], sep);
      JoinSplit(s[1..], sep);
      if s[0] == sep {
        assert Split(s, sep) == [""] + rest;
        assert ([""] + rest)[1..] == rest;
      } else {
        var parts := Split(s, sep);
        assert parts == [[s[0]] + rest[0]] + rest[1..];
        if |rest| == 1 {
          assert parts == [[s[0]] + rest[0]];
        } else {
          assert parts[1..] == rest[1..];
          assert Join(rest, sep) == rest[0] + [sep] + Join(rest[1..], sep);
        }
      }
    }
  }

  /** Splitting a join of separator-free pieces gives the pieces back. */
  lemma {:induction false} SplitJoin(parts: seq<string>, sep: char)
    requires |parts| > 0
    requires forall i :: 0 <= i < |parts| ==> sep !in parts[i]
    ensures Split(Join(parts, sep), sep) == parts
  {
    if |parts| == 1 {
      assert Join(parts, sep) == parts[0];
    } else {
      SplitJoin(parts[1..], sep);
      SplitPrefix(parts[0], Join(parts[1..], sep), sep);
      assert Join(parts, sep) == parts[0] + [sep] + Join(parts[1..], sep);
      assert [parts[0]] + parts[1..] == parts;
    }
  }

  lemma {:induction false} SplitPrefix(a: string, b: string, sep: char)
    requires sep !in a
    ensures Split(a + [sep] + b, sep) == [a] + Split(b, sep)
  {
    if |a| == 0 {
      assert a + [sep] + b == [sep] + b;
      assert ([sep] + b)[1..] == b;
    } else {
      var s := a + [sep] + b;
      assert s[0] == a[0];
      assert s[1..] == a[1..] + [sep] + b;
      SplitPrefix(a[1..], b, sep);
      assert [a[0]] + a[1..] == a;
    }
  }
}
