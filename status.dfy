/**
 * The status bar: `calculate_size` and `update_status` of the editor.
 *
 * The text read back from the widget always ends in the newline the widget
 * appends. The status shows the number of code points without that newline,
 * and the UTF-8 size of the whole text, newline included, in a 1024-based
 * unit. The size display is modelled with exact integer arithmetic: the
 * quotient `size / 1024**k` is rounded to hundredths, ties to even, as
 * `format(x, '.2f')` rounds the exact binary value it is given.
 */
module Status {
  import opened Utf8

  /** The code point of the newline the widget keeps at the end of its text. */
  const Newline: int := 10

  /** What `text_area.get(1.0, END)` returns: scalar text ending in the widget's newline. */
  predicate IsWidgetText(t: seq<int>) {
    |t| >= 1 && t[|t| - 1] == Newline && IsScalarText(t)
  }

  /** `calculate_size`: the length of the UTF-8 encoding of the text. */
  function CalculateSize(t: seq<int>): (n: nat)
    requires IsScalarText(t)
    ensures |t| <= n <= 4 * |t|
  {
    EncodedLengthBounds(t);
    |Encode(t)|
  }

  /** The character count of `update_status`: code points minus the trailing newline. */
  function CharCount(t: seq<int>): (c: int)
    ensures IsWidgetText(t) ==> 0 <= c < |t| && t == t[..c] + [Newline]
  {
    |t| - 1
  }

  /** The units of the size display, smallest first. */
  datatype Unit = Byte | KB | MB | GB | TB

  /** The divisor of a unit: the power of 1024 the source writes as `1024**k`. */
  function Scale(u: Unit): (s: nat)
    ensures s >= 1
  {
    match u
    case Byte => 1
    case KB => 1024
    case MB => 1024 * 1024
    case GB => 1024 * 1024 * 1024
    case TB => 1024 * 1024 * 1024 * 1024
  }

  /** The `if/elif` chain of `update_status` on the byte size. */
  function ChooseUnit(size: nat): (u: Unit)
    ensures u == Byte || Scale(u) <= size
    ensures u == TB || size < 1024 * Scale(u)
  {
    if size < 1024 then Byte
    else if size < 1024 * 1024 then KB
    else if size < 1024 * 1024 * 1024 then MB
    else if size < 1024 * 1024 * 1024 * 1024 then GB
    else TB
  }

  /** Division with remainder, and the product one step further up. */
  lemma DivisionFacts(n: nat, d: nat)
    requires d > 0
    ensures n == (n / d) * d + n % d && 0 <= n % d < d
    ensures (n / d + 1) * d == (n / d) * d + d
  {
  }

  /** Rounds n / d to the nearest integer, ties to the even neighbour. */
  function RoundHalfEven(n: nat, d: nat): (r: nat)
    requires d > 0
    ensures 2 * (r * d - n) <= d && 2 * (n - r * d) <= d
    ensures 2 * (r * d - n) == d || 2 * (n - r * d) == d ==> r % 2 == 0
  {
    DivisionFacts(n, d);
    var q, m := n / d, n % d;
    if 2 * m < d || (2 * m == d && q % 2 == 0) then q else q + 1
  }

  /** What the status bar shows for a size: the exact count of bytes, or hundredths of a unit. */
  datatype SizeDisplay = Whole(bytes: nat) | Fixed(hundredths: nat, unit: Unit)

  /** The size display of `update_status`, before it is turned into text. */
  function Display(size: nat): (d: SizeDisplay)
    ensures d.Whole? <==> size < 1024
    ensures d.Whole? ==> d.bytes == size
    ensures d.Fixed? ==> d.unit == ChooseUnit(size)
    ensures d.Fixed? ==> 2 * (d.hundredths * Scale(d.unit) - 100 * size) <= Scale(d.unit)
    ensures d.Fixed? ==> 2 * (100 * size - d.hundredths * Scale(d.unit)) <= Scale(d.unit)
  {
    var u := ChooseUnit(size);
    if u == Byte then Whole(size) else Fixed(RoundHalfEven(100 * size, Scale(u)), u)
  }

  // Rendering of numbers as Python's `str` and `format(x, '.2f')` do.

  predicate IsDigit(ch: char) {
    '0' <= ch <= '9'
  }

  predicate IsDigits(s: string) {
    forall i :: 0 <= i < |s| ==> IsDigit(s[i])
  }

  function DigitChar(d: nat): (ch: char)
    requires d < 10
    ensures IsDigit(ch) && ch as int - '0' as int == d
  {
    ('0' as int + d) as char
  }

  /** The value of a string of decimal digits. */
  function DecimalValue(s: string): nat
    requires IsDigits(s)
  {
    if s == [] then 0 else 10 * DecimalValue(s[..|s| - 1]) + (s[|s| - 1] as int - '0' as int)
  }

  /** `str(n)` for a natural number: its decimal digits, without leading zeros. */
  function Decimal(n: nat): (s: string)
    ensures |s| >= 1 && IsDigits(s)
    ensures s[0] == '0' ==> n == 0 && s == "0"
  {
    if n < 10 then [DigitChar(n)] else Decimal(n / 10) + [DigitChar(n % 10)]
  }

  /** `str(i)` for any integer. */
  function IntText(i: int): string {
    if i < 0 then "-" + Decimal(-i) else Decimal(i)
  }

  /** `format(h / 100, '.2f')` for a value already rounded to hundredths. */
  function FixedTwo(h: nat): (s: string)
    ensures |s| >= 4 && s[|s| - 3] == '.'
    ensures IsDigits(s[..|s| - 3]) && IsDigits(s[|s| - 2..])
    ensures s[0] == '0' ==> h < 100 && s[1] == '.'
  {
    Decimal(h / 100) + "." + [DigitChar(h % 100 / 10), DigitChar(h % 10)]
  }

  function UnitLabel(u: Unit): string {
    match u
    case Byte => "Byte"
    case KB => "KB"
    case MB => "MB"
    case GB => "GB"
    case TB => "TB"
  }

  /** The number of `size_display`: the bytes below 1024, the two-decimal quotient above. */
  function NumberText(size: nat): (s: string)
    ensures size < 1024 ==> IsDigits(s) && DecimalValue(s) == size
    ensures size >= 1024 ==>
      && |s| >= 4 && s[|s| - 3] == '.' && IsDigits(s[..|s| - 3]) && IsDigits(s[|s| - 2..])
      && 100 * DecimalValue(s[..|s| - 3]) + DecimalValue(s[|s| - 2..]) == Display(size).hundredths
    ensures size >= 1024 ==> s[0] != '0'
  {
    match Display(size)
    case Whole(b) => DecimalRoundTrip(b); Decimal(b)
    case Fixed(h, _) => FixedTwoRoundTrip(h); DisplayBounds(size); FixedTwo(h)
  }

  /** `size_display` of `update_status`: the number, a space and the label of the chosen unit. */
  function SizeText(size: nat): (r: string)
    ensures r == NumberText(size) + " " + UnitLabel(ChooseUnit(size))
  {
    match Display(size)
    case Whole(b) => Decimal(b) + " Byte"
    case Fixed(h, u) => FixedTwo(h) + " " + UnitLabel(u)
  }

  /** The label the status bar starts with, before any recomputation. */
  const InitialStatus: string := "인코딩: UTF-8 | 글자수: 0 | 용량: 0 Byte"

  /** The text `update_status` puts in the status bar for the widget's text. */
  function StatusLine(t: seq<int>): (r: string)
    requires IsScalarText(t)
    ensures IsWidgetText(t) ==>
      r == "인코딩: UTF-8 | 글자수: " + Decimal(|t| - 1) + " | 용량: " + SizeText(CalculateSize(t))
  {
    "인코딩: UTF-8 | 글자수: " + IntText(CharCount(t)) + " | 용량: " + SizeText(CalculateSize(t))
  }

  // Properties of the status computation.

  /** The size of a concatenation is the sum of the sizes of its parts. */
  lemma SizeOfConcatenation(a: seq<int>, b: seq<int>)
    requires IsScalarText(a) && IsScalarText(b)
    ensures IsScalarText(a + b)
    ensures CalculateSize(a + b) == CalculateSize(a) + CalculateSize(b)
  {
    EncodeAppend(a, b);
  }

  /** Inserting text anywhere grows the size by exactly the size of the inserted text. */
  lemma SizeAfterInsert(t: seq<int>, c: seq<int>, i: nat)
    requires IsScalarText(t) && IsScalarText(c) && i <= |t|
    ensures IsScalarText(t[..i] + c + t[i..])
    ensures CalculateSize(t[..i] + c + t[i..]) == CalculateSize(t) + CalculateSize(c)
  {
    var pre, post := t[..i], t[i..];
    assert IsScalarText(pre) && IsScalarText(post) by {
      forall k | 0 <= k < |pre| ensures IsScalar(pre[k]) { assert pre[k] == t[k]; }
      forall k | 0 <= k < |post| ensures IsScalar(post[k]) { assert post[k] == t[i + k]; }
    }
    SizeOfConcatenation(pre, c);
    SizeOfConcatenation(pre + c, post);
    SizeOfConcatenation(pre, post);
    assert pre + post == t;
  }

  /** The count leaves out the widget's newline: it is the number of code points typed. */
  lemma CharCountOfWidgetText(content: seq<int>)
    requires IsScalarText(content)
    ensures IsWidgetText(content + [Newline])
    ensures CharCount(content + [Newline]) == |content|
    ensures CharCount([Newline]) == 0
  {
    var t := content + [Newline];
    forall k | 0 <= k < |t| ensures IsScalar(t[k]) {
      if k < |content| { assert t[k] == content[k]; }
    }
  }

  /** Exactly one unit is chosen, by the thresholds of the `if/elif` chain. */
  lemma UnitThresholds(size: nat)
    ensures ChooseUnit(size) == Byte <==> size < 1024
    ensures ChooseUnit(size) == KB <==> 1024 <= size < 1024 * 1024
    ensures ChooseUnit(size) == MB <==> 1024 * 1024 <= size < 1024 * 1024 * 1024
    ensures ChooseUnit(size) == GB <==> 1024 * 1024 * 1024 <= size < 1024 * 1024 * 1024 * 1024
    ensures ChooseUnit(size) == TB <==> 1024 * 1024 * 1024 * 1024 <= size
  {
  }

  /** The chosen unit is the only one whose scale fits the size. */
  lemma ChooseUnitUnique(size: nat, u: Unit)
    requires u == Byte || Scale(u) <= size
    requires u == TB || size < 1024 * Scale(u)
    ensures u == ChooseUnit(size)
  {
  }

  /** The unrounded quotient `size / 1024**k` that the display shows. */
  function Quotient(size: nat, u: Unit): real {
    size as real / Scale(u) as real
  }

  /** Byte shows the size itself; KB, MB and GB a quotient in [1, 1024); TB one of at least 1. */
  lemma QuotientBounds(size: nat)
    ensures ChooseUnit(size) == Byte ==> Quotient(size, Byte) == size as real
    ensures ChooseUnit(size) in {KB, MB, GB} ==> 1.0 <= Quotient(size, ChooseUnit(size)) < 1024.0
    ensures ChooseUnit(size) == TB ==> 1.0 <= Quotient(size, TB)
  {
    var u := ChooseUnit(size);
    var s := Scale(u) as real;
    var q := Quotient(size, u);
    assert q * s == size as real;
    if u != Byte {
      assert s <= size as real;
    }
    if u != TB {
      assert size as real < 1024.0 * s;
    }
  }

  /** After rounding, KB, MB and GB show 1.00 to 1024.00 and TB at least 1.00. */
  lemma DisplayBounds(size: nat)
    ensures Display(size).Fixed? && Display(size).unit != TB ==> 100 <= Display(size).hundredths <= 102400
    ensures Display(size).Fixed? && Display(size).unit == TB ==> 100 <= Display(size).hundredths
  {
    var d := Display(size);
    if d.Fixed? {
      assert Scale(d.unit) <= size;
      assert d.unit != TB ==> size < 1024 * Scale(d.unit);
    }
  }

  /** Reading the digits of `str(n)` gives back n. */
  lemma {:induction false} DecimalRoundTrip(n: nat)
    ensures DecimalValue(Decimal(n)) == n
  {
    if n >= 10 {
      DecimalRoundTrip(n / 10);
      var s := Decimal(n);
      assert s[..|s| - 1] == Decimal(n / 10);
    }
  }

  /** The two-decimal rendering reads back as the hundredths it was given. */
  lemma FixedTwoRoundTrip(h: nat)
    ensures var s := FixedTwo(h); 100 * DecimalValue(s[..|s| - 3]) + DecimalValue(s[|s| - 2..]) == h
  {
    var s := FixedTwo(h);
    var whole := Decimal(h / 100);
    assert s[..|s| - 3] == whole;
    DecimalRoundTrip(h / 100);
    var frac := s[|s| - 2..];
    assert frac == [DigitChar(h % 100 / 10), DigitChar(h % 10)];
    assert frac[..1] == [DigitChar(h % 100 / 10)];
    assert frac[..1][..0] == [];
    assert DecimalValue(frac[..1]) == h % 100 / 10;
    assert DecimalValue(frac) == 10 * (h % 100 / 10) + h % 10;
  }

  lemma DecimalExamples()
    ensures Decimal(0) == "0" && Decimal(1) == "1"
    ensures Decimal(1023) == "1023" && Decimal(1024) == "1024"
  {
    assert Decimal(10) == "10";
    assert Decimal(102) == "102";
    assert Decimal(1023) == Decimal(102) + "3";
    assert Decimal(1024) == Decimal(102) + "4";
  }

  /** The worked examples of the size display below one kibibyte. */
  lemma SizeTextExamplesInBytes()
    ensures SizeText(0) == "0 Byte"
    ensures SizeText(1023) == "1023 Byte"
  {
    DecimalExamples();
  }

  /** One kibibyte shows as 1.00 KB; 1.125 KB is a tie and rounds to the even 1.12. */
  lemma SizeTextExamplesInKibibytes()
    ensures SizeText(1024) == "1.00 KB"
    ensures SizeText(1152) == "1.12 KB"
  {
    assert Display(1024) == Fixed(100, KB);
    assert FixedTwo(100) == "1.00";
    assert Display(1152) == Fixed(112, KB);
    assert FixedTwo(112) == "1.12";
  }

  /** One mebibyte shows as 1.00 MB. */
  lemma SizeTextAtMebibyte()
    ensures SizeText(1048576) == "1.00 MB"
  {
    assert Display(1048576) == Fixed(100, MB);
    assert FixedTwo(100) == "1.00";
  }

  /** One byte less than a mebibyte is below the MB threshold yet rounds up to 1024.00 KB. */
  lemma SizeTextBelowMebibyte()
    ensures ChooseUnit(1048575) == KB
    ensures SizeText(1048575) == "1024.00 KB"
  {
    DecimalExamples();
    assert Display(1048575) == Fixed(102400, KB);
    assert FixedTwo(102400) == Decimal(1024) + "." + "00";
  }

  /** An empty document shows 1 Byte once recomputed, not the 0 Byte of the initial label. */
  lemma EmptyDocumentStatus()
    ensures StatusLine([Newline]) == "인코딩: UTF-8 | 글자수: 0 | 용량: 1 Byte"
    ensures StatusLine([Newline]) != InitialStatus
  {
    assert CalculateSize([Newline]) == 1 by {
      assert Encode([Newline]) == [10] + Encode([]);
    }
    DecimalExamples();
    assert Display(1) == Whole(1);
  }
}
