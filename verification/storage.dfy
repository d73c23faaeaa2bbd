/** The pure parts of document storage: the `"r,c"` text form of a grid key, the conversion of
    a whole grid to and from its text-keyed form, and the dense row-by-row layout a grid is
    written to CSV in, together with the sparse grid read back from such rows. */
module Storage {
  import opened Text
  import opened Grid

  // -------------------------------------------------------------------------------------
  // Keys

  /** `keyToString`: the row, a comma, the column, both in decimal. */
  function KeyToString(k: Coord): (s: string)
    ensures FirstIndex(s, ',') == |IntToDecimal(k.0)|
  {
    var a := IntToDecimal(k.0);
    var s := a + "," + IntToDecimal(k.1);
    NoComma(a);
    assert s[|a|] == ',';
    s
  }

  /** A decimal number contains no comma. */
  lemma NoComma(a: string)
    requires forall i :: 0 <= i < |a| ==> a[i] == '-' || IsDigit(a[i])
    ensures FirstIndex(a + ",", ',') == |a|
  {
    var s := a + ",";
    assert s[|a|] == ',';
    assert forall j :: 0 <= j < |a| ==> s[j] == a[j];
  }

  /** One decimal integer in the form `keyToString` writes it, within Go's `int`. */
  function DecodeInt(t: string): (r: Option<int>)
    ensures r.Some? ==> IntToDecimal(r.value) == t && MinInt64 <= r.value <= MaxInt64
  {
    match Atoi(t)
    case None => None
    case Some(n) => if IntToDecimal(n) == t then Some(n) else None
  }

  /** `stringToKey` on the text `keyToString` writes: two decimal integers separated by the
      first comma.  Any other text is rejected. */
  function StringToKey(s: string): (r: Option<Coord>)
    ensures r.Some? ==> Key64(r.value)
  {
    var i := FirstIndex(s, ',');
    if i == |s| then None
    else
      match (DecodeInt(s[..i]), DecodeInt(s[i + 1..]))
      case (Some(a), Some(b)) => Some((a, b))
      case _ => None
  }

  /** A key fits Go's `int` in both components. */
  predicate Key64(k: Coord) {
    MinInt64 <= k.0 <= MaxInt64 && MinInt64 <= k.1 <= MaxInt64
  }

  /** Decoding undoes encoding for every key Go can hold. */
  lemma KeyRoundTrip(k: Coord)
    requires Key64(k)
    ensures StringToKey(KeyToString(k)) == Some(k)
  {
    var a := IntToDecimal(k.0);
    var b := IntToDecimal(k.1);
    var s := KeyToString(k);
    assert s[..|a|] == a && s[|a| + 1..] == b;
    AtoiOfDecimal(k.0);
    AtoiOfDecimal(k.1);
  }

  /** Only the encoding of a key decodes, and it decodes to that key. */
  lemma StringToKeyCanonical(s: string)
    requires StringToKey(s).Some?
    ensures KeyToString(StringToKey(s).value) == s
  {
    var i := FirstIndex(s, ',');
    var a, b := s[..i], s[i + 1..];
    var k := StringToKey(s).value;
    assert IntToDecimal(k.0) == a && IntToDecimal(k.1) == b;
    assert s == a + [s[i]] + b by {
      SplitAround(s, i);
    }
  }

  /** A text is the part before position `i`, the character there, and the part after. */
  lemma SplitAround(s: string, i: nat)
    requires i < |s|
    ensures s == s[..i] + [s[i]] + s[i + 1..]
  {
  }

  /** Different keys have different encodings. */
  lemma KeyToStringInjective(j: Coord, k: Coord)
    requires KeyToString(j) == KeyToString(k)
    ensures j == k
  {
    var s := KeyToString(j);
    var a := |IntToDecimal(j.0)|;
    assert a == |IntToDecimal(k.0)|;
    assert s[..a] == IntToDecimal(j.0) && s[..a] == IntToDecimal(k.0);
    assert s[a + 1..] == IntToDecimal(j.1) && s[a + 1..] == IntToDecimal(k.1);
    IntToDecimalInjective(j.0, k.0);
    IntToDecimalInjective(j.1, k.1);
  }

  lemma IntToDecimalInjective(m: int, n: int)
    requires IntToDecimal(m) == IntToDecimal(n)
    ensures m == n
  {
    var t := IntToDecimal(m);
    if m < 0 {
      assert n < 0 by { assert t[0] == '-'; }
      assert t[1..] == NatToDecimal(-m) == NatToDecimal(-n);
      DigitsValueOfDecimal(-m);
      DigitsValueOfDecimal(-n);
    } else {
      assert n >= 0 by { assert IsDigit(t[0]); }
      DigitsValueOfDecimal(m);
      DigitsValueOfDecimal(n);
    }
  }

  // -------------------------------------------------------------------------------------
  // Whole-grid conversion

  /** The text keys of a set of keys. */
  function EncodedKeys(keys: set<Coord>): (ks: set<string>)
    requires forall k :: k in keys ==> Key64(k)
    ensures forall s :: s in ks <==> StringToKey(s).Some? && StringToKey(s).value in keys
  {
    var ks := set k | k in keys :: KeyToString(k);
    EncodedKeysMembers(keys, ks);
    ks
  }

  lemma EncodedKeysMembers(keys: set<Coord>, ks: set<string>)
    requires forall k :: k in keys ==> Key64(k)
    requires ks == set k | k in keys :: KeyToString(k)
    ensures forall s :: s in ks <==> StringToKey(s).Some? && StringToKey(s).value in keys
  {
    forall s | s in ks
      ensures StringToKey(s).Some? && StringToKey(s).value in keys
    {
      var k :| k in keys && KeyToString(k) == s;
      KeyRoundTrip(k);
    }
    forall s | StringToKey(s).Some? && StringToKey(s).value in keys
      ensures s in ks
    {
      StringToKeyCanonical(s);
    }
  }

  /** `ConvertGridToDocumentGrid`: the same cells under their text keys.  Go's keys are
      `int`s, so every key fits in 64 bits. */
  function ToDocument(g: map<Coord, Cell>): (d: map<string, Cell>)
    requires forall k :: k in g ==> Key64(k)
    ensures forall s :: s in d <==> StringToKey(s).Some? && StringToKey(s).value in g
    ensures forall s :: s in d ==> d[s] == g[StringToKey(s).value]
  {
    var ks := EncodedKeys(g.Keys);
    map s | s in ks :: g[StringToKey(s).value]
  }

  /** Each cell of the grid is in the text-keyed grid under the text of its key. */
  lemma ToDocumentCell(g: map<Coord, Cell>, k: Coord)
    requires forall k :: k in g ==> Key64(k)
    requires k in g
    ensures KeyToString(k) in ToDocument(g) && ToDocument(g)[KeyToString(k)] == g[k]
  {
    KeyRoundTrip(k);
  }

  /** The text-keyed grid has exactly as many cells as the grid. */
  lemma ToDocumentSize(g: map<Coord, Cell>)
    requires forall k :: k in g ==> Key64(k)
    ensures |ToDocument(g)| == |g|
  {
    var d := ToDocument(g);
    assert d.Keys == EncodedKeys(g.Keys);
    EncodedKeysSize(g.Keys);
    assert |d| == |d.Keys|;
  }

  /** Encoding keeps the number of keys, since different keys have different texts. */
  lemma EncodedKeysSize(keys: set<Coord>)
    requires forall k :: k in keys ==> Key64(k)
    ensures |EncodedKeys(keys)| == |keys|
  {
    var ks := set k | k in keys :: KeyToString(k);
    assert forall j, k :: j in keys && k in keys && KeyToString(j) == KeyToString(k) ==> j == k by {
      forall j, k | j in keys && k in keys && KeyToString(j) == KeyToString(k)
        ensures j == k
      {
        KeyToStringInjective(j, k);
      }
    }
    ImageCard(keys, ks, KeyToString);
  }

  /** The keys decoded from a set of text keys. */
  function DecodedKeys(keys: set<string>): (ks: set<Coord>)
    ensures forall k :: k in ks <==> Key64(k) && KeyToString(k) in keys
  {
    var ks := set s | s in keys && StringToKey(s).Some? :: StringToKey(s).value;
    DecodedKeysMembers(keys, ks);
    ks
  }

  lemma DecodedKeysMembers(keys: set<string>, ks: set<Coord>)
    requires ks == set s | s in keys && StringToKey(s).Some? :: StringToKey(s).value
    ensures forall k :: k in ks <==> Key64(k) && KeyToString(k) in keys
  {
    forall k | k in ks
      ensures Key64(k) && KeyToString(k) in keys
    {
      var s :| s in keys && StringToKey(s).Some? && StringToKey(s).value == k;
      StringToKeyCanonical(s);
    }
    forall k | Key64(k) && KeyToString(k) in keys
      ensures k in ks
    {
      KeyRoundTrip(k);
      var s := KeyToString(k);
      assert s in keys && StringToKey(s).Some? && StringToKey(s).value == k;
    }
  }

  /** `ConvertDocumentGridToGrid`: an error as soon as any key fails to decode, else the
      same cells under their decoded keys. */
  function FromDocument(d: map<string, Cell>): (r: Option<map<Coord, Cell>>)
    ensures r.None? <==> exists s :: s in d && StringToKey(s).None?
    ensures r.Some? ==> forall k :: k in r.value <==> Key64(k) && KeyToString(k) in d
    ensures r.Some? ==> forall k :: k in r.value ==> r.value[k] == d[KeyToString(k)]
  {
    if exists s :: s in d && StringToKey(s).None? then None
    else
      var ks := DecodedKeys(d.Keys);
      Some(map k | k in ks :: d[KeyToString(k)])
  }

  /** Converting a grid to text keys and back gives the grid, when its keys fit Go's `int`. */
  lemma DocumentRoundTrip(g: map<Coord, Cell>)
    requires forall k :: k in g ==> Key64(k)
    ensures FromDocument(ToDocument(g)) == Some(g)
  {
    var d := ToDocument(g);
    assert FromDocument(d).Some?;
    ReDecoded(g, d, FromDocument(d).value);
  }

  lemma ReDecoded(g: map<Coord, Cell>, d: map<string, Cell>, h: map<Coord, Cell>)
    requires forall k :: k in g ==> Key64(k)
    requires forall s :: s in d <==> StringToKey(s).Some? && StringToKey(s).value in g
    requires forall s :: s in d ==> d[s] == g[StringToKey(s).value]
    requires forall k :: k in h <==> Key64(k) && KeyToString(k) in d
    requires forall k :: k in h ==> h[k] == d[KeyToString(k)]
    ensures h == g
  {
    forall k
      ensures k in h <==> k in g
      ensures k in h ==> h[k] == g[k]
    {
      if Key64(k) {
        var s := KeyToString(k);
        assert StringToKey(s) == Some(k) by {
          KeyRoundTrip(k);
        }
        assert k in h <==> s in d;
        assert s in d <==> k in g;
      } else {
        assert k !in h && k !in g;
      }
    }
    MapsEqual(h, g);
  }

  /** Converting text keys to a grid and back gives the text-keyed grid. */
  lemma GridRoundTrip(d: map<string, Cell>)
    requires FromDocument(d).Some?
    ensures ToDocument(FromDocument(d).value) == d
  {
    var g := FromDocument(d).value;
    ReEncoded(d, g, ToDocument(g));
  }

  lemma ReEncoded(d: map<string, Cell>, g: map<Coord, Cell>, e: map<string, Cell>)
    requires forall s :: s in d ==> StringToKey(s).Some?
    requires forall k :: k in g <==> Key64(k) && KeyToString(k) in d
    requires forall k :: k in g ==> g[k] == d[KeyToString(k)]
    requires forall s :: s in e <==> StringToKey(s).Some? && StringToKey(s).value in g
    requires forall s :: s in e ==> e[s] == g[StringToKey(s).value]
    ensures e == d
  {
    forall s
      ensures s in e <==> s in d
      ensures s in e ==> e[s] == d[s]
    {
      if StringToKey(s).Some? {
        var k := StringToKey(s).value;
        assert KeyToString(k) == s by {
          StringToKeyCanonical(s);
        }
        assert s in e <==> k in g;
        assert k in g <==> s in d;
      } else {
        assert s !in d && s !in e;
      }
    }
    MapsEqual(e, d);
  }

  // -------------------------------------------------------------------------------------
  // CSV layout

  /** `m` is what the scan in `SaveCSV` and `LoadCSV` leaves: the largest row of a key, or
      -1 when no key has a row of at least -1 above it. */
  predicate IsMaxRow(keys: set<Coord>, m: int) {
    m >= -1 && (forall k :: k in keys ==> k.0 <= m) && (m == -1 || exists k :: k in keys && k.0 == m)
  }

  predicate IsMaxCol(keys: set<Coord>, m: int) {
    m >= -1 && (forall k :: k in keys ==> k.1 <= m) && (m == -1 || exists k :: k in keys && k.1 == m)
  }

  /** The scan over the keys for the largest row and column, both starting at -1. */
  method Extents(keys: set<Coord>) returns (maxR: int, maxC: int)
    ensures IsMaxRow(keys, maxR) && IsMaxCol(keys, maxC)
  {
    maxR, maxC := -1, -1;
    var rest := keys;
    while rest != {}
      invariant rest <= keys
      invariant IsMaxRow(keys - rest, maxR) && IsMaxCol(keys - rest, maxC)
      decreases |rest|
    {
      var k :| k in rest;
      if k.0 > maxR {
        maxR := k.0;
      }
      if k.1 > maxC {
        maxC := k.1;
      }
      rest := rest - {k};
    }
    assert keys - rest == keys;
  }

  /** The CSV field for position (r, c): the cell's text, or empty where there is no cell. */
  function Field(g: map<Coord, Cell>, r: int, c: int): string {
    if (r, c) in g then g[(r, c)].text else ""
  }

  /** `maxR + 1` rows of `maxC + 1` fields each. */
  function Dense(g: map<Coord, Cell>, maxR: nat, maxC: nat): (rows: seq<seq<string>>)
    ensures |rows| == maxR + 1
    ensures forall r :: 0 <= r < |rows| ==> |rows[r]| == maxC + 1
    ensures forall r, c :: 0 <= r <= maxR && 0 <= c <= maxC ==> rows[r][c] == Field(g, r, c)
  {
    seq(maxR + 1, r => seq(maxC + 1, c => Field(g, r, c)))
  }

  /** The rows `SaveCSV` writes: none when no key has a row and a column of at least zero,
      otherwise the dense rectangle up to the largest row and column. */
  method SaveLayout(g: map<Coord, Cell>) returns (rows: seq<seq<string>>)
    ensures g == map[] ==> rows == []
    ensures rows != [] ==>
              exists mr, mc :: IsMaxRow(g.Keys, mr) && IsMaxCol(g.Keys, mc) &&
                               mr >= 0 && mc >= 0 && rows == Dense(g, mr, mc)
    ensures rows == [] ==> forall mr, mc :: IsMaxRow(g.Keys, mr) && IsMaxCol(g.Keys, mc) ==> mr < 0 || mc < 0
  {
    var maxR, maxC := Extents(g.Keys);
    if maxR < 0 || maxC < 0 {
      MaxUnique(g.Keys);
      rows := [];
    } else {
      rows := Dense(g, maxR, maxC);
    }
  }

  /** The largest row and column are unique. */
  lemma MaxUnique(keys: set<Coord>)
    ensures forall m, n :: IsMaxRow(keys, m) && IsMaxRow(keys, n) ==> m == n
    ensures forall m, n :: IsMaxCol(keys, m) && IsMaxCol(keys, n) ==> m == n
  {
  }

  /** The keys of the cells `LoadCSV` creates from the first `n` rows: every non-empty field,
      at (row index, field index). */
  function FieldKeys(rows: seq<seq<string>>, n: nat): (ks: set<Coord>)
    requires n <= |rows|
    ensures forall k :: k in ks <==> 0 <= k.0 < n && 0 <= k.1 < |rows[k.0]| && rows[k.0][k.1] != ""
  {
    if n == 0 then {} else FieldKeys(rows, n - 1) + RowKeys(rows[n - 1], n - 1)
  }

  /** The keys of the non-empty fields of one row. */
  function RowKeys(row: seq<string>, r: int): (ks: set<Coord>)
    ensures forall k :: k in ks <==> k.0 == r && 0 <= k.1 < |row| && row[k.1] != ""
  {
    set c | 0 <= c < |row| && row[c] != "" :: (r, c)
  }

  /** The sparse grid `LoadCSV` builds from the rows it read. */
  function Extract(rows: seq<seq<string>>): (g: map<Coord, Cell>)
    ensures forall k :: k in g <==> 0 <= k.0 < |rows| && 0 <= k.1 < |rows[k.0]| && rows[k.0][k.1] != ""
    ensures forall k :: k in g ==> g[k].text == rows[k.0][k.1]
  {
    var ks := FieldKeys(rows, |rows|);
    map k | k in ks :: Cell(rows[k.0][k.1])
  }

  /** `LoadCSV` after the file is read: the grid and its largest row and column. */
  method LoadGrid(rows: seq<seq<string>>) returns (g: map<Coord, Cell>, maxR: int, maxC: int)
    ensures g == Extract(rows)
    ensures IsMaxRow(g.Keys, maxR) && IsMaxCol(g.Keys, maxC)
    ensures maxR == -1 <==> g == map[]
  {
    g := Extract(rows);
    maxR, maxC := Extents(g.Keys);
    if maxR == -1 {
      assert forall k :: k !in g;
      assert g == map[];
    }
  }

  /** The cells of `g` that have non-empty text. */
  function NonEmpty(g: map<Coord, Cell>): (h: map<Coord, Cell>)
    ensures forall k :: k in h <==> k in g && g[k].text != ""
    ensures forall k :: k in h ==> h[k] == g[k]
  {
    map k | k in g && g[k].text != "" :: g[k]
  }

  /** A grid whose keys are not negative has no row or no column to write only when it is empty. */
  lemma LayoutEmpty(g: map<Coord, Cell>, mr: int, mc: int)
    requires forall k :: k in g ==> k.0 >= 0 && k.1 >= 0
    requires IsMaxRow(g.Keys, mr) && IsMaxCol(g.Keys, mc)
    ensures mr < 0 || mc < 0 <==> g == map[]
  {
    if mr < 0 || mc < 0 {
      assert forall k :: k !in g;
      assert g == map[];
    }
  }

  /** Writing a non-empty grid whose keys are not negative and reading the rows back gives
      its cells with non-empty text. */
  lemma LayoutRoundTrip(g: map<Coord, Cell>, mr: int, mc: int)
    requires forall k :: k in g ==> k.0 >= 0 && k.1 >= 0
    requires IsMaxRow(g.Keys, mr) && IsMaxCol(g.Keys, mc) && mr >= 0 && mc >= 0
    ensures Extract(Dense(g, mr, mc)) == NonEmpty(g)
  {
    var rows := Dense(g, mr, mc);
    ExtractedCells(g, mr, mc, rows, Extract(rows), NonEmpty(g));
  }

  /** The cells read back from the dense rows of `g` are its cells with non-empty text. */
  lemma ExtractedCells(g: map<Coord, Cell>, mr: nat, mc: nat, rows: seq<seq<string>>,
                       h: map<Coord, Cell>, n: map<Coord, Cell>)
    requires forall k :: k in g ==> 0 <= k.0 <= mr && 0 <= k.1 <= mc
    requires |rows| == mr + 1 && forall r :: 0 <= r < |rows| ==> |rows[r]| == mc + 1
    requires forall r, c :: 0 <= r <= mr && 0 <= c <= mc ==> rows[r][c] == Field(g, r, c)
    requires forall k :: k in h <==> 0 <= k.0 < |rows| && 0 <= k.1 < |rows[k.0]| && rows[k.0][k.1] != ""
    requires forall k :: k in h ==> h[k].text == rows[k.0][k.1]
    requires forall k :: k in n <==> k in g && g[k].text != ""
    requires forall k :: k in n ==> n[k] == g[k]
    ensures h == n
  {
    assert forall k :: k in h ==> k in n && h[k] == n[k] by {
      forall k | k in h
        ensures k in n && h[k] == n[k]
      {
        assert rows[k.0][k.1] == Field(g, k.0, k.1);
      }
    }
    assert forall k :: k in n ==> k in h by {
      forall k | k in n
        ensures k in h
      {
        assert rows[k.0][k.1] == Field(g, k.0, k.1);
      }
    }
    MapsEqual(h, n);
  }
}
