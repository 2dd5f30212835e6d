/** The feature extractor: derives brand, category, sentiment and a numeric
    rating for every review row (src/data_processor.py). */
module DataProcessor {
  import opened Wrappers
  import opened Text

  /** The five values the `category` column can take. */
  datatype Category = Electronics | Clothing | Home | Beauty | General

  /** The three values of the `sentiment_label` column. */
  datatype Label = Positive | Negative | Neutral

  /** A polarity as the external lexical scorer produces it. */
  type Polarity = r: real | -1.0 <= r <= 1.0

  /** One raw cell: NaN, a string, or a number together with its `str()`
      rendering. */
  datatype Cell = Missing | Str(s: string) | Num(value: real, shown: string)

  /** A raw table: its column names, and one cell map per row (a column the
      row has no entry for reads as NaN). */
  datatype RawTable = RawTable(columns: set<string>, rows: seq<map<string, Cell>>)

  /** One enriched row. A row's identifier is its position in the table. */
  datatype Row = Row(brand: string, category: Category, sentiment: real, sentimentLabel: Label, rating: Option<real>)

  /** The enriched table, with the two column sets that enrichment adds only
      when their source column exists. */
  datatype Table = Table(rows: seq<Row>, hasSentiment: bool, hasRating: bool)

  /** The column names chosen once per table, first naming convention first. */
  datatype Columns = Columns(text: string, name: string, rating: string)

  // ---------------------------------------------------------------- brand

  /** `extract_brand`: the first whitespace-delimited word of the product
      name, or "Unknown" when the name is NaN or holds no word. */
  function ExtractBrand(name: Option<string>): (brand: string)
    ensures name.None? || AllSpace(name.value) ==> brand == "Unknown"
    ensures name.Some? && !AllSpace(name.value) ==> IsFirstWord(name.value, brand)
    ensures brand != [] && NoSpace(brand)
  {
    if name.Some? then
      var words := Split(name.value);
      if words != [] then
        SplitFirstWord(name.value);
        words[0]
      else
        "Unknown"
    else
      "Unknown"
  }

  // ------------------------------------------------------------- category

  /** The keyword list of each bucket; `General` is the fallback and has none. */
  function Keywords(c: Category): seq<string> {
    match c
    case Electronics => ["phone", "laptop", "tablet", "computer", "headphone", "speaker", "camera"]
    case Clothing => ["shirt", "pant", "dress", "shoe", "jacket", "coat"]
    case Home => ["furniture", "bed", "chair", "table", "lamp"]
    case Beauty => ["cream", "lotion", "makeup", "perfume", "shampoo"]
    case General => []
  }

  /** The buckets in the order they are tried. */
  const Priority: seq<Category> := [Electronics, Clothing, Home, Beauty]

  /** A bucket's place in that order; the fallback comes last. */
  function Rank(c: Category): nat {
    match c
    case Electronics => 0
    case Clothing => 1
    case Home => 2
    case Beauty => 3
    case General => 4
  }

  /** Some keyword of bucket `c` is a substring of `text`. */
  predicate Mentions(text: string, c: Category) {
    exists kw :: kw in Keywords(c) && Occurs(kw, text)
  }

  /** Python's `str()` of a cell value: NaN prints as "nan". */
  function StrOf(text: Option<string>): string {
    if text.Some? then text.value else "nan"
  }

  /** The position of the first of `buckets` that `text` mentions, or
      |buckets| when it mentions none (the early-returning loop over the
      buckets). */
  function FirstMentioned(text: string, buckets: seq<Category>): (k: nat)
    ensures k <= |buckets|
    ensures k < |buckets| ==> Mentions(text, buckets[k])
    ensures forall m :: 0 <= m < k ==> !Mentions(text, buckets[m])
  {
    if buckets == [] then
      0
    else if Mentions(text, buckets[0]) then
      0
    else
      1 + FirstMentioned(text, buckets[1..])
  }

  /** `extract_category`: lower-case the text and return the highest-priority
      bucket one of whose keywords occurs in it, `General` when none does. */
  function ExtractCategory(text: Option<string>): (c: Category)
    ensures c != General ==> Mentions(Lower(StrOf(text)), c)
    ensures forall b :: Rank(b) < Rank(c) ==> !Mentions(Lower(StrOf(text)), b)
  {
    var k := FirstMentioned(Lower(StrOf(text)), Priority);
    assert forall b :: b != General ==> Priority[Rank(b)] == b;
    if k < |Priority| then Priority[k] else General
  }

  /** The category is the only bucket that meets those two conditions. */
  lemma CategoryIsUnique(text: Option<string>, c: Category)
    requires c != General ==> Mentions(Lower(StrOf(text)), c)
    requires forall b :: Rank(b) < Rank(c) ==> !Mentions(Lower(StrOf(text)), b)
    ensures c == ExtractCategory(text)
  {
    var d := ExtractCategory(text);
    if Rank(c) < Rank(d) {
      assert !Mentions(Lower(StrOf(text)), c);
    } else if Rank(d) < Rank(c) {
      assert !Mentions(Lower(StrOf(text)), d);
    }
  }

  /** Matching ignores case. The upper-casing half holds for the ASCII
      `Upper` of this model; Python's `str.upper()` can change a non-ASCII
      text's lower-cased form (`"dreß".upper().lower()` is `"dress"`). */
  lemma CategoryIgnoresCase(t: string)
    ensures ExtractCategory(Some(Lower(t))) == ExtractCategory(Some(t))
    ensures ExtractCategory(Some(Upper(t))) == ExtractCategory(Some(t))
  {
    LowerUpper(t);
  }

  /** A keyword longer than the text cannot occur in it. */
  lemma {:induction false} TooLongToOccur(sub: string, s: string)
    requires |sub| > |s|
    ensures !Occurs(sub, s)
    decreases |s|
  {
    if s != [] {
      TooLongToOccur(sub, s[1..]);
    }
  }

  /** A NaN text reads as "nan", which mentions no bucket. */
  lemma MissingTextIsGeneral()
    ensures ExtractCategory(None) == General
  {
    var t := Lower(StrOf(None));
    assert t == "nan";
    forall c, kw | kw in Keywords(c) && kw != "bed" ensures !Occurs(kw, t) {
      TooLongToOccur(kw, t);
    }
    assert !Occurs("bed", t) by {
      assert "bed"[0] != t[0];
      TooLongToOccur("bed", t[1..]);
    }
  }

  // ------------------------------------------------------------ sentiment

  /** The three-way label with its +-0.1 deadband. */
  function LabelOf(p: real): (l: Label)
    ensures l == Positive <==> p > 0.1
    ensures l == Negative <==> p < -0.1
    ensures l == Neutral <==> -0.1 <= p <= 0.1
  {
    if p > 0.1 then Positive else if p < -0.1 then Negative else Neutral
  }

  function LabelOrder(l: Label): int {
    match l
    case Negative => -1
    case Neutral => 0
    case Positive => 1
  }

  /** The label never falls as polarity rises, and the deadband is symmetric. */
  lemma LabelMonotone(p: real, q: real)
    requires p <= q
    ensures LabelOrder(LabelOf(p)) <= LabelOrder(LabelOf(q))
    ensures LabelOrder(LabelOf(-p)) == -LabelOrder(LabelOf(p))
  {
  }

  /** `analyze_sentiment`: a NaN text scores 0 and is neutral; otherwise the
      scorer's polarity, unchanged, and its label. */
  function AnalyzeSentiment(text: Option<string>, polarity: string -> Polarity): (r: (real, Label))
    ensures text.None? ==> r == (0.0, Neutral)
    ensures text.Some? ==> r.0 == polarity(text.value)
    ensures r.1 == LabelOf(r.0) && -1.0 <= r.0 <= 1.0
  {
    if text.None? then
      (0.0, Neutral)
    else
      var p := polarity(text.value);
      (p, LabelOf(p))
  }

  // --------------------------------------------------------------- rating

  predicate IsDigit(c: char) {
    '0' <= c <= '9'
  }

  predicate AllDigits(s: string) {
    forall i :: 0 <= i < |s| ==> IsDigit(s[i])
  }

  /** The number a string of decimal digits denotes. */
  function DigitsValue(ds: string): nat
    requires AllDigits(ds)
    decreases |ds|
  {
    if ds == [] then 0 else 10 * DigitsValue(ds[..|ds| - 1]) + (ds[|ds| - 1] as int - '0' as int)
  }

  function Pow10(n: nat): (r: nat)
    ensures r >= 1
  {
    if n == 0 then 1 else 10 * Pow10(n - 1)
  }

  /** The position of the first '.', or |s| when there is none. */
  function DotIndex(s: string): (d: nat)
    ensures d <= |s| && (d < |s| ==> s[d] == '.')
    ensures forall i :: 0 <= i < d ==> s[i] != '.'
  {
    if s == [] then 0 else if s[0] == '.' then 0 else 1 + DotIndex(s[1..])
  }

  predicate IsSign(c: char) {
    c == '+' || c == '-'
  }

  /** An unsigned decimal numeral: digits and at most one '.', with at least
      one digit ("12", "1.5", ".5" and "5." are numerals; ".", "1.2.3" and ""
      are not). */
  predicate UnsignedNumeral(body: string) {
    && (forall i :: 0 <= i < |body| ==> IsDigit(body[i]) || body[i] == '.')
    && (forall i, j :: 0 <= i < j < |body| && body[i] == '.' ==> body[j] != '.')
    && (exists i :: 0 <= i < |body| && IsDigit(body[i]))
  }

  /** A decimal numeral: an optional sign, then an unsigned numeral ("+",
      "1-2" and "--1" are not numerals). */
  predicate IsNumeral(s: string) {
    if |s| > 0 && IsSign(s[0]) then UnsignedNumeral(s[1..]) else UnsignedNumeral(s)
  }

  /** The digits before the first '.'. */
  function WholePart(body: string): string {
    body[..DotIndex(body)]
  }

  /** The digits after the first '.', if any. */
  function FracPart(body: string): string {
    var dot := DotIndex(body);
    if dot < |body| then body[dot + 1..] else []
  }

  /** Splitting at the first '.' recognises exactly the unsigned numerals:
      both parts are digits and at least one of them is not empty. */
  lemma NumeralParts(body: string)
    ensures UnsignedNumeral(body) <==>
      AllDigits(WholePart(body)) && AllDigits(FracPart(body)) && |WholePart(body)| + |FracPart(body)| > 0
  {
    var dot := DotIndex(body);
    var whole, frac := WholePart(body), FracPart(body);
    assert forall i :: 0 <= i < dot ==> body[i] == whole[i];
    assert forall i :: dot < i < |body| ==> body[i] == frac[i - dot - 1];
    if UnsignedNumeral(body) {
      var k :| 0 <= k < |body| && IsDigit(body[k]);
      assert k != dot;
    }
    if AllDigits(whole) && AllDigits(frac) && |whole| + |frac| > 0 {
      assert |whole| > 0 ==> IsDigit(body[0]);
      assert |whole| == 0 ==> IsDigit(body[dot + 1]);
    }
  }

  /** The value of whole digits `w` and fractional digits `f`: `w + f / 10^|f|`. */
  function Magnitude(w: string, f: string): real
    requires AllDigits(w) && AllDigits(f)
  {
    DigitsValue(w) as real + DigitsValue(f) as real / Pow10(|f|) as real
  }

  /** An unsigned numeral's value: its whole and fractional digits. */
  function ParseUnsigned(body: string): (r: Option<real>)
    ensures r.Some? <==> UnsignedNumeral(body)
  {
    var whole, frac := WholePart(body), FracPart(body);
    NumeralParts(body);
    if AllDigits(whole) && AllDigits(frac) && |whole| + |frac| > 0 then
      Some(Magnitude(whole, frac))
    else
      None
  }

  /** `to_numeric` of a string: an optional sign and an unsigned numeral;
      anything else is absent. */
  function ParseDecimal(s: string): (r: Option<real>)
    ensures r.Some? <==> IsNumeral(s)
  {
    if |s| > 0 && IsSign(s[0]) then
      var magnitude := ParseUnsigned(s[1..]);
      if magnitude.Some? && s[0] == '-' then Some(-magnitude.value) else magnitude
    else
      ParseUnsigned(s)
  }

  /** The value a sign gives a magnitude. */
  function Signed(sign: string, m: real): real {
    if sign == "-" then -m else m
  }

  /** A sign in front of a string that does not start with one applies the
      sign to the string's unsigned value. */
  lemma ParseSigned(sign: string, body: string, m: real)
    requires sign == "" || sign == "+" || sign == "-"
    requires !(|body| > 0 && IsSign(body[0]))
    requires ParseUnsigned(body) == Some(m)
    ensures ParseDecimal(sign + body) == Some(Signed(sign, m))
  {
    if sign == "" {
      assert sign + body == body;
    } else {
      assert (sign + body)[1..] == body;
    }
  }

  /** `w.f` splits at its '.' into `w` and `f`, and starts with no sign. */
  lemma FractionParts(w: string, f: string)
    requires AllDigits(w)
    ensures WholePart(w + "." + f) == w && FracPart(w + "." + f) == f
    ensures !IsSign((w + "." + f)[0])
  {
    var body := w + "." + f;
    assert body[|w|] == '.';
    assert DotIndex(body) == |w| && body[..|w|] == w && body[|w| + 1..] == f;
    assert |w| > 0 ==> body[0] == w[0];
  }

  /** The value of a numeral with a fractional part: `sign w.f` parses to
      the sign applied to `w + f / 10^|f|` ("-4.25" to -4.25, ".5" to 0.5). */
  lemma ParseFraction(sign: string, w: string, f: string)
    requires sign == "" || sign == "+" || sign == "-"
    requires AllDigits(w) && AllDigits(f) && |w| + |f| > 0
    ensures ParseDecimal(sign + w + "." + f) == Some(Signed(sign, Magnitude(w, f)))
  {
    var body := w + "." + f;
    FractionParts(w, f);
    assert ParseUnsigned(body) == Some(Magnitude(w, f));
    ParseSigned(sign, body, Magnitude(w, f));
    assert sign + w + "." + f == sign + body;
  }

  /** The value of a numeral without a '.': `sign w` parses to the sign
      applied to the number `w` denotes. */
  lemma ParseWhole(sign: string, w: string)
    requires sign == "" || sign == "+" || sign == "-"
    requires AllDigits(w) && w != []
    ensures ParseDecimal(sign + w) == Some(Signed(sign, DigitsValue(w) as real))
  {
    assert DotIndex(w) == |w|;
    assert w[..|w|] == w;
    assert WholePart(w) == w && FracPart(w) == [];
    assert Magnitude(w, []) == DigitsValue(w) as real;
    ParseSigned(sign, w, DigitsValue(w) as real);
  }

  /** The decimal numeral of a natural number. */
  function NatText(n: nat): (s: string)
    ensures s != [] && AllDigits(s)
  {
    var d := [(n % 10 + '0' as int) as char];
    if n < 10 then d else NatText(n / 10) + d
  }

  lemma {:induction false} NatTextValue(n: nat)
    ensures DigitsValue(NatText(n)) == n
  {
    var s := NatText(n);
    assert s[..|s| - 1] == if n < 10 then [] else NatText(n / 10);
    if n >= 10 {
      NatTextValue(n / 10);
    }
  }

  /** Parsing the numeral of a natural number gives the number back. */
  lemma ParseNatText(n: nat)
    ensures ParseDecimal(NatText(n)) == Some(n as real)
  {
    var s := NatText(n);
    NatTextValue(n);
    ParseWhole("", s);
    assert "" + s == s;
  }

  /** A non-empty string of digits parses to the number it denotes. */
  lemma DigitsParse(s: string)
    ensures AllDigits(s) && s != [] ==> ParseDecimal(s) == Some(DigitsValue(s) as real)
  {
    if AllDigits(s) && s != [] {
      ParseWhole("", s);
      assert "" + s == s;
    }
  }

  /** `pd.to_numeric(..., errors='coerce')` on one cell: NaN and strings that
      are not numerals become absent, never a default value. */
  function ToNumeric(c: Cell): (r: Option<real>)
    ensures c.Missing? ==> r.None?
    ensures c.Num? ==> r == Some(c.value)
    ensures c.Str? ==> (r.Some? <==> IsNumeral(c.s))
    ensures c.Str? && AllDigits(c.s) && c.s != [] ==> r == Some(DigitsValue(c.s) as real)
  {
    match c
    case Missing => None
    case Num(v, _) => Some(v)
    case Str(s) =>
      DigitsParse(s);
      ParseDecimal(s)
  }

  // ------------------------------------------------------ process_reviews

  function CellAt(row: map<string, Cell>, col: string): Cell {
    if col in row then row[col] else Missing
  }

  /** The text `str()` gives for a cell, or None for NaN. */
  function TextOf(c: Cell): Option<string> {
    match c
    case Missing => None
    case Str(s) => Some(s)
    case Num(_, shown) => Some(shown)
  }

  /** The first naming convention's column when the table has it, otherwise
      the second's. */
  function Resolve(columns: set<string>, first: string, second: string): string {
    if first in columns then first else second
  }

  function ResolveColumns(columns: set<string>): Columns {
    Columns(Resolve(columns, "reviews.text", "Text"),
            Resolve(columns, "name", "ProductName"),
            Resolve(columns, "reviews.rating", "Rating"))
  }

  /** The derived fields of one raw row. `x.get(name_col, '')` reads an
      absent name column as the empty string. */
  function DeriveRow(cols: Columns, present: set<string>, row: map<string, Cell>,
                     polarity: string -> Polarity): Row
  {
    var name := if cols.name in present then CellAt(row, cols.name) else Str("");
    var text := TextOf(CellAt(row, cols.text));
    var hasText := cols.text in present;
    var sentiment := if hasText then AnalyzeSentiment(text, polarity) else (0.0, Neutral);
    Row(ExtractBrand(TextOf(name)),
        if hasText then ExtractCategory(text) else General,
        sentiment.0,
        sentiment.1,
        if cols.rating in present then ToNumeric(CellAt(row, cols.rating)) else None)
  }

  /** `process_reviews`: every row enriched from the resolved columns. The
      sentiment columns exist only when a text column does, and the rating
      column only when a rating column does. */
  function ProcessReviews(raw: RawTable, polarity: string -> Polarity): (t: Table)
    ensures |t.rows| == |raw.rows|
    ensures t.hasSentiment <==> "reviews.text" in raw.columns || "Text" in raw.columns
    ensures t.hasRating <==> "reviews.rating" in raw.columns || "Rating" in raw.columns
    ensures forall i :: 0 <= i < |t.rows| ==>
      t.rows[i] == DeriveRow(ResolveColumns(raw.columns), raw.columns, raw.rows[i], polarity)
    ensures forall i :: 0 <= i < |t.rows| ==>
      -1.0 <= t.rows[i].sentiment <= 1.0 && t.rows[i].sentimentLabel == LabelOf(t.rows[i].sentiment)
    ensures !t.hasSentiment ==> forall i :: 0 <= i < |t.rows| ==> t.rows[i].category == General
    ensures !t.hasRating ==> forall i :: 0 <= i < |t.rows| ==> t.rows[i].rating.None?
  {
    var cols := ResolveColumns(raw.columns);
    Table(seq(|raw.rows|, i requires 0 <= i < |raw.rows| => DeriveRow(cols, raw.columns, raw.rows[i], polarity)),
          cols.text in raw.columns,
          cols.rating in raw.columns)
  }

  /** Column resolution: the first convention wins whenever its column
      exists, the second is read only in its absence, and a table without a
      name column gives every row the brand "Unknown". */
  lemma ColumnPreference(raw: RawTable, polarity: string -> Polarity, i: nat)
    requires i < |raw.rows|
    ensures var row := ProcessReviews(raw, polarity).rows[i];
      && ("reviews.text" in raw.columns ==>
            row.category == ExtractCategory(TextOf(CellAt(raw.rows[i], "reviews.text"))) &&
            row.sentiment == AnalyzeSentiment(TextOf(CellAt(raw.rows[i], "reviews.text")), polarity).0)
      && ("reviews.text" !in raw.columns && "Text" in raw.columns ==>
            row.category == ExtractCategory(TextOf(CellAt(raw.rows[i], "Text"))) &&
            row.sentiment == AnalyzeSentiment(TextOf(CellAt(raw.rows[i], "Text")), polarity).0)
      && ("name" in raw.columns ==> row.brand == ExtractBrand(TextOf(CellAt(raw.rows[i], "name"))))
      && ("name" !in raw.columns && "ProductName" in raw.columns ==>
            row.brand == ExtractBrand(TextOf(CellAt(raw.rows[i], "ProductName"))))
      && ("name" !in raw.columns && "ProductName" !in raw.columns ==> row.brand == "Unknown")
      && ("reviews.rating" in raw.columns ==> row.rating == ToNumeric(CellAt(raw.rows[i], "reviews.rating")))
      && ("reviews.rating" !in raw.columns && "Rating" in raw.columns ==>
            row.rating == ToNumeric(CellAt(raw.rows[i], "Rating")))
  {
    assert AllSpace("");
  }
}
