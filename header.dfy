/** The segment label `name!start-end!strand`, used as the FASTA header of a segment and as the query name
    of its alignment record, and how to read it back. */
module Header {
  import opened Placement

  predicate IsDigit(ch: char)
  {
    '0' <= ch <= '9'
  }

  predicate AllDigits(s: string)
  {
    forall i :: 0 <= i < |s| ==> IsDigit(s[i])
  }

  function DigitChar(d: nat): (ch: char)
    requires d < 10
    ensures IsDigit(ch)
  {
    ('0' as int + d) as char
  }

  function DigitValue(ch: char): (d: nat)
    requires IsDigit(ch)
    ensures d < 10
  {
    ch as int - '0' as int
  }

  /** Decimal rendering of an unsigned integer, as `{}` formats a `usize`. */
  function Decimal(n: nat): (s: string)
    ensures 0 < |s| && AllDigits(s)
    ensures |s| == 1 <==> n < 10
    ensures s[0] == '0' <==> n == 0
    decreases n
  {
    if n < 10 then [DigitChar(n)] else Decimal(n / 10) + [DigitChar(n % 10)]
  }

  /** The value of a string of decimal digits. */
  function DecimalValue(s: string): nat
    requires AllDigits(s)
  {
    if s == [] then 0 else 10 * DecimalValue(s[..|s| - 1]) + DigitValue(s[|s| - 1])
  }

  /** Reading a rendered number gives the number back. */
  lemma {:induction false} DecimalRoundTrip(n: nat)
    ensures DecimalValue(Decimal(n)) == n
    decreases n
  {
    if n >= 10 {
      DecimalRoundTrip(n / 10);
      var s := Decimal(n);
      assert s[..|s| - 1] == Decimal(n / 10);
    }
  }

  function StrandSymbol(s: Strand): (ch: char)
    ensures ch == '+' || ch == '-'
    ensures ch == '+' <==> s == Forward
  {
    if s == Forward then '+' else '-'
  }

  /** `name!start-end!strand`. */
  function Label(name: string, start: nat, end: nat, strand: Strand): (h: string)
    ensures |name| + 6 <= |h| && h[..|name| + 1] == name + "!"
    ensures h[|h| - 2..] == ['!', StrandSymbol(strand)]
  {
    name + "!" + Decimal(start) + "-" + Decimal(end) + "!" + [StrandSymbol(strand)]
  }

  /** The number of decimal digits at the end of `s`. */
  function TrailingDigits(s: string): (r: nat)
    ensures r <= |s|
    ensures AllDigits(s[|s| - r..])
    ensures r < |s| ==> !IsDigit(s[|s| - r - 1])
  {
    if s == [] || !IsDigit(s[|s| - 1]) then 0 else 1 + TrailingDigits(s[..|s| - 1])
  }

  lemma {:induction false} TrailingDigitsOfSuffix(p: string, q: string)
    requires AllDigits(q)
    requires 0 < |p| && !IsDigit(p[|p| - 1])
    ensures TrailingDigits(p + q) == |q|
    decreases |q|
  {
    if q != [] {
      var pq := p + q;
      assert pq[..|pq| - 1] == p + q[..|q| - 1];
      TrailingDigitsOfSuffix(p, q[..|q| - 1]);
    } else {
      assert p + q == p;
    }
  }

  /** The number at the end of `r` and what stands before the separator `sep` in front of it. */
  datatype NumberAtEnd = NoNumber | Number(before: string, value: nat)

  function SplitNumber(r: string, sep: char): NumberAtEnd
  {
    var d := TrailingDigits(r);
    if d == 0 || d == |r| || r[|r| - d - 1] != sep then NoNumber
    else Number(r[..|r| - d - 1], DecimalValue(r[|r| - d..]))
  }

  /** `p`, a separator that is not a digit, and a run of digits `q`: splitting off the number recovers `p`
      and the value of `q`. */
  lemma SplitAtDigits(p: string, sep: char, q: string)
    requires AllDigits(q) && 0 < |q| && !IsDigit(sep)
    ensures SplitNumber(p + [sep] + q, sep) == Number(p, DecimalValue(q))
  {
    var r := p + [sep] + q;
    TrailingDigitsOfSuffix(p + [sep], q);
    assert r[..|r| - |q| - 1] == p;
    assert r[|r| - |q|..] == q;
  }

  /** A label taken apart from the right: the strand symbol, then the end and the start as the digit runs
      before the separators, and everything before the first of those separators as the name. The name may
      itself contain `!`, `-` and digits. */
  datatype Parsed = Parsed(name: string, start: nat, end: nat, strand: Strand)
  datatype ParseResult = Malformed | Labelled(value: Parsed)

  function ParseLabel(h: string): (r: ParseResult)
  {
    if |h| < 2 || h[|h| - 2] != '!' || (h[|h| - 1] != '+' && h[|h| - 1] != '-') then Malformed
    else
      var strand := if h[|h| - 1] == '+' then Forward else Reverse;
      match SplitNumber(h[..|h| - 2], '-')
      case NoNumber => Malformed
      case Number(r, end) =>
        match SplitNumber(r, '!')
        case NoNumber => Malformed
        case Number(name, start) => Labelled(Parsed(name, start, end, strand))
  }

  /** A label ends in `!` and the strand symbol, after `name!start-end`. */
  lemma LabelEnds(name: string, start: nat, end: nat, strand: Strand)
    ensures var h := Label(name, start, end, strand);
      && |h| >= 2 && h[|h| - 2] == '!' && h[|h| - 1] == StrandSymbol(strand)
      && h[..|h| - 2] == name + ['!'] + Decimal(start) + ['-'] + Decimal(end)
  {
    var h := Label(name, start, end, strand);
    var r := name + ['!'] + Decimal(start) + ['-'] + Decimal(end);
    assert h == r + ['!', StrandSymbol(strand)];
  }

  /** Splitting the two numbers off `name!start-end`. */
  lemma CoordinatesReadBack(name: string, start: nat, end: nat)
    ensures var r := name + ['!'] + Decimal(start) + ['-'] + Decimal(end);
      && SplitNumber(r, '-') == Number(name + ['!'] + Decimal(start), end)
      && SplitNumber(name + ['!'] + Decimal(start), '!') == Number(name, start)
  {
    SplitAtDigits(name + ['!'] + Decimal(start), '-', Decimal(end));
    SplitAtDigits(name, '!', Decimal(start));
    DecimalRoundTrip(start);
    DecimalRoundTrip(end);
  }

  /** Every label reads back as the name, coordinates and strand it was made from, whatever the name holds:
      the label is an unambiguous encoding of the segment. */
  lemma LabelRoundTrip(name: string, start: nat, end: nat, strand: Strand)
    ensures ParseLabel(Label(name, start, end, strand)) == Labelled(Parsed(name, start, end, strand))
  {
    LabelEnds(name, start, end, strand);
    CoordinatesReadBack(name, start, end);
  }

  /** The label of segment `[0,10)` of `chr1` on the reverse strand. */
  lemma LabelExample()
    ensures Label("chr1", 0, 10, Reverse) == "chr1!0-10!-"
  {
    assert Decimal(10) == "10";
  }
}
