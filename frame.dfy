/**
 * The survey table as read from the file, the selection of the seven ranking
 * columns (`df[cols_to_use].copy()`), and the coercion of their cells to
 * numbers (`pd.to_numeric(..., errors='coerce')`).
 */
module Frame {
  import opened Wrappers
  import opened Sequences
  import opened Columns

  /** A cell as the file reader hands it over: an empty cell, a value already
      read as a number, or text. */
  datatype Cell = Blank | Number(v: real) | Text(s: string)

  /** The loaded table: the machine column codes of the first header row and
      the data rows (the two metadata rows are already skipped). */
  datatype Table = Table(header: seq<string>, rows: seq<seq<Cell>>)

  /** What the reader guarantees of every table: distinct column codes and one
      cell per column in every row. */
  predicate WellFormed(t: Table) {
    Distinct(t.header) && forall i :: 0 <= i < |t.rows| ==> |t.rows[i]| == |t.header|
  }

  /** A rows-by-columns block of cells in which every row has `width` cells. */
  predicate Rectangular(m: seq<seq<Cell>>, width: nat) {
    forall i :: 0 <= i < |m| ==> |m[i]| == width
  }

  /** The position of a column code in the header. */
  function IndexOf(header: seq<string>, code: string): (k: nat)
    requires code in header
    ensures k < |header| && header[k] == code
    ensures forall j :: 0 <= j < k ==> header[j] != code
  {
    if header[0] == code then 0 else 1 + IndexOf(header[1..], code)
  }

  /** `df[cols_to_use]`: every row restricted to the seven ranking columns, in
      the order of the mapping. */
  function Select(t: Table): (m: seq<seq<Cell>>)
    requires WellFormed(t) && MissingColumns(t.header) == []
    ensures |m| == |t.rows| && Rectangular(m, |RequiredColumns|)
    ensures forall i, k :: 0 <= i < |m| && 0 <= k < |RequiredColumns| ==>
              exists c :: 0 <= c < |t.header| && t.header[c] == RequiredColumns[k] && m[i][k] == t.rows[i][c]
  {
    seq(|t.rows|, i requires 0 <= i < |t.rows| =>
      seq(|RequiredColumns|, k requires 0 <= k < |RequiredColumns| =>
        t.rows[i][IndexOf(t.header, RequiredColumns[k])]))
  }

  // ---- A stand-in for pandas' string-to-number conversion ----

  predicate IsDigit(c: char) { '0' <= c <= '9' }

  predicate AllDigits(s: string) { forall i :: 0 <= i < |s| ==> IsDigit(s[i]) }

  /** The value of a string of decimal digits, most significant first. */
  function DigitsValue(s: string): nat
    requires AllDigits(s)
  {
    if s == [] then 0 else 10 * DigitsValue(s[..|s| - 1]) + (s[|s| - 1] as int - '0' as int)
  }

  function Pow10(n: nat): (p: nat)
    ensures p >= 1
  {
    if n == 0 then 1 else 10 * Pow10(n - 1)
  }

  /** The position of the first '.', or |s| when there is none. */
  function DotPosition(s: string): (k: nat)
    ensures k <= |s| && (k < |s| ==> s[k] == '.')
    ensures forall j :: 0 <= j < k ==> s[j] != '.'
  {
    if s == [] then 0 else if s[0] == '.' then 0 else 1 + DotPosition(s[1..])
  }

  /** Digits, optionally followed by '.' and more digits. */
  function ParseUnsigned(s: string): Option<real> {
    var k := DotPosition(s);
    var whole := s[..k];
    if whole == [] || !AllDigits(whole) then None
    else if k == |s| then Some(DigitsValue(whole) as real)
    else
      var frac := s[k + 1..];
      if frac == [] || !AllDigits(frac) then None
      else Some(DecimalValue(whole, frac))
  }

  /** The value of the text `whole.frac`: whole + frac / 10^|frac|. */
  function DecimalValue(whole: string, frac: string): real
    requires AllDigits(whole) && AllDigits(frac)
  {
    DigitsValue(whole) as real + DigitsValue(frac) as real / Pow10(|frac|) as real
  }

  /** A decimal number with an optional sign; anything else is not a number. */
  function ParseDecimal(s: string): Option<real> {
    if s != [] && s[0] == '-' then
      match ParseUnsigned(s[1..])
      case Some(v) => Some(-v)
      case None => None
    else if s != [] && s[0] == '+' then ParseUnsigned(s[1..])
    else ParseUnsigned(s)
  }

  /** The decimal digits of a natural number, without leading zeros. */
  function NatText(n: nat): (s: string)
    ensures s != [] && AllDigits(s) && DigitsValue(s) == n
    ensures s[0] != '-' && s[0] != '+'
  {
    var d := ['0' + (n % 10) as char];
    if n < 10 then d
    else
      var prefix := NatText(n / 10);
      assert (prefix + d)[..|prefix + d| - 1] == prefix;
      prefix + d
  }

  /** Reading back the decimal text of a whole number, with or without a minus
      sign, gives that number. */
  lemma {:induction false} ParseNatText(n: nat)
    ensures ParseDecimal(NatText(n)) == Some(n as real)
    ensures ParseDecimal("-" + NatText(n)) == Some(-(n as real))
  {
    var s := NatText(n);
    assert DotPosition(s) == |s|;
    assert s[..|s|] == s;
    assert ("-" + s)[1..] == s;
  }

  /** The shapes the stand-in accepts: digits, or digits '.' digits. */
  predicate UnsignedShape(s: string) {
    (s != [] && AllDigits(s))
    || exists k :: 0 < k < |s| - 1 && s[k] == '.' && AllDigits(s[..k]) && AllDigits(s[k + 1..])
  }

  lemma DotPositionOfDigits(w: string)
    requires AllDigits(w)
    ensures DotPosition(w) == |w|
  {
    assert DotPosition(w) < |w| ==> IsDigit(w[DotPosition(w)]);
  }

  /** Digits `w`, optionally followed by '.' and digits `f`, read as w + f / 10^|f|;
      leading zeros in either part are allowed. */
  lemma DigitsText(w: string, f: string)
    requires w != [] && AllDigits(w) && f != [] && AllDigits(f)
    ensures ParseDecimal(w) == Some(DigitsValue(w) as real)
    ensures ParseDecimal(w + "." + f) == Some(DecimalValue(w, f))
  {
    DigitsOnlyText(w);
    DigitsFractionText(w, f);
  }

  lemma DigitsOnlyText(w: string)
    requires w != [] && AllDigits(w)
    ensures ParseDecimal(w) == Some(DigitsValue(w) as real)
  {
    DotPositionOfDigits(w);
    assert w[..|w|] == w;
    assert IsDigit(w[0]);
    assert ParseDecimal(w) == ParseUnsigned(w);
  }

  lemma DigitsFractionText(w: string, f: string)
    requires w != [] && AllDigits(w) && f != [] && AllDigits(f)
    ensures ParseDecimal(w + "." + f) == Some(DecimalValue(w, f))
  {
    var s := w + "." + f;
    assert s[..|w|] == w && s[|w|] == '.' && s[|w| + 1..] == f;
    assert forall j :: 0 <= j < |w| ==> IsDigit(w[j]);
    DotPositionPrefix(w, s);
    var k := DotPosition(s);
    assert k == |w| && k < |s|;
    assert s[..k] == w && s[k + 1..] == f;
    var whole, frac := s[..k], s[k + 1..];
    assert whole != [] && AllDigits(whole) && frac != [] && AllDigits(frac);
    assert ParseUnsigned(s) == Some(DecimalValue(w, f));
    assert IsDigit(s[0]);
  }

  /** A '.' right after a dot-free prefix is the first '.'. */
  lemma {:induction false} DotPositionPrefix(w: string, s: string)
    requires |w| < |s| && s[..|w|] == w && s[|w|] == '.'
    requires forall j :: 0 <= j < |w| ==> w[j] != '.'
    ensures DotPosition(s) == |w|
  {
    if w != [] {
      assert s[1..][..|w| - 1] == w[1..];
      DotPositionPrefix(w[1..], s[1..]);
    }
  }

  /** Conversely, the stand-in accepts nothing of another shape: a text it reads
      as a number is an optional sign followed by one of the accepted shapes. */
  lemma ParseAcceptsOnlyShape(s: string)
    ensures ParseUnsigned(s).Some? ==> UnsignedShape(s)
    ensures ParseDecimal(s).Some? ==>
              if s != [] && (s[0] == '-' || s[0] == '+') then UnsignedShape(s[1..]) else UnsignedShape(s)
  {
    forall u: string | ParseUnsigned(u).Some? ensures UnsignedShape(u) {
      var k := DotPosition(u);
      if k == |u| {
        assert u[..k] == u;
      } else {
        assert 0 < k < |u| - 1 && u[k] == '.' && AllDigits(u[..k]) && AllDigits(u[k + 1..]);
      }
    }
  }

  /** Text that is not a number becomes missing. */
  lemma NonNumericText()
    ensures Coerce(Text("")) == None
    ensures Coerce(Text("n/a")) == None
    ensures Coerce(Text("3")) == Some(3.0)
  {
    ParseNatText(3);
    assert NatText(3) == "3";
  }

  // ---- Coercion ----

  /** A cell that is already a number or blank, read as a number or missing. */
  function AsNumber(c: Cell): (o: Option<real>)
    requires !c.Text?
    ensures o.None? <==> c.Blank?
    ensures o.Some? ==> c == Number(o.value)
  {
    match c
    case Blank => None
    case Number(v) => Some(v)
  }

  /** `pd.to_numeric(errors='coerce')` on one cell: a number or missing, never a
      failure. A number or a blank is kept as it is; text goes through the parser. */
  function Coerce(c: Cell): (r: Option<real>)
    ensures !c.Text? ==> r == AsNumber(c)
    ensures c.Text? ==> r == ParseDecimal(c.s)
  {
    match c
    case Blank => None
    case Number(v) => Some(v)
    case Text(s) => ParseDecimal(s)
  }

  /** The cell a coerced value is stored as; coercing it again gives the same value. */
  function ToCell(o: Option<real>): (c: Cell)
    ensures !c.Text? && Coerce(c) == o
  {
    match o
    case None => Blank
    case Some(v) => Number(v)
  }

  /** `df_rankings[col] = pd.to_numeric(df_rankings[col], errors='coerce')`:
      column `j` is coerced in every row, the other columns and the row count stay. */
  function CoerceColumn(m: seq<seq<Cell>>, j: nat): (r: seq<seq<Cell>>)
    requires forall i :: 0 <= i < |m| ==> j < |m[i]|
    ensures |r| == |m|
    ensures forall i :: 0 <= i < |m| ==> |r[i]| == |m[i]| && !r[i][j].Text?
    ensures forall i, k :: 0 <= i < |m| && 0 <= k < |m[i]| ==>
              r[i][k] == if k == j then ToCell(Coerce(m[i][j])) else m[i][k]
  {
    seq(|m|, i requires 0 <= i < |m| => m[i][j := ToCell(Coerce(m[i][j]))])
  }

  /** No cell of the block is text: every column has been coerced. */
  predicate Numeric(m: seq<seq<Cell>>) {
    forall i, k :: 0 <= i < |m| && 0 <= k < |m[i]| ==> !m[i][k].Text?
  }

  /** The numeric matrix a fully coerced block stands for; storing it back
      as cells gives the block again. */
  function NumericView(m: seq<seq<Cell>>): (r: seq<seq<Option<real>>>)
    requires Numeric(m)
    ensures |r| == |m|
    ensures forall i :: 0 <= i < |m| ==> |r[i]| == |m[i]|
    ensures forall i, k :: 0 <= i < |m| && 0 <= k < |m[i]| ==> ToCell(r[i][k]) == m[i][k]
  {
    seq(|m|, i requires 0 <= i < |m| => seq(|m[i]|, k requires 0 <= k < |m[i]| => AsNumber(m[i][k])))
  }

  /** Every cell of a block read as a number or as missing. */
  function CoerceMatrix(m: seq<seq<Cell>>): (r: seq<seq<Option<real>>>)
    ensures |r| == |m|
    ensures forall i :: 0 <= i < |m| ==> |r[i]| == |m[i]|
    ensures forall i, k :: 0 <= i < |m| && 0 <= k < |m[i]| ==> r[i][k] == Coerce(m[i][k])
  {
    seq(|m|, i requires 0 <= i < |m| => seq(|m[i]|, k requires 0 <= k < |m[i]| => Coerce(m[i][k])))
  }
}
