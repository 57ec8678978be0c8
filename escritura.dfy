/** `RankingSystem.guardar_resultado_competencia`: the lines one contest
    result adds to the day's log, and what the log parser reads back from
    them. */
module Escritura {
  import opened Py
  import opened PyStr
  import opened Registro
  import opened Grafica
  import opened Tabla

  /** The hundredths in |x|, rounded to the nearest, ties to even, as the
      `.2f` format rounds. */
  function Cents(x: real): nat
  {
    var a := if x < 0.0 then -x else x;
    var f := (a * 100.0).Floor;
    var d := a * 100.0 - f as real;
    if d > 0.5 || (d == 0.5 && f % 2 == 1) then f + 1 else f
  }

  /** The value `.2f` writes: x rounded to hundredths. */
  function Rounded(x: real): real
  {
    CentsValue(x < 0.0, Cents(x))
  }

  /** c hundredths, negated when neg. */
  function CentsValue(neg: bool, c: nat): real
  {
    if neg then -Hundredths(c) else Hundredths(c)
  }

  /** c hundredths as a number. */
  function Hundredths(c: nat): real
  {
    c as real / 100.0
  }

  /** The rounding is to the nearest hundredth: the value written is within
      half a hundredth of x, and carries its sign. */
  lemma RoundedNear(x: real)
    ensures -0.005 <= Rounded(x) - x <= 0.005
    ensures x < 0.0 ==> Rounded(x) <= 0.0
    ensures x >= 0.0 ==> Rounded(x) >= 0.0
  {
    var a := if x < 0.0 then -x else x;
    var c := Cents(x);
    assert c as real - 0.5 <= a * 100.0 <= c as real + 0.5;
  }

  /** `f"{x:.2f}"`: a minus sign for a negative x, the integer part, a point
      and two digits. */
  function Fixed2(x: real): string
  {
    CentsText(x < 0.0, Cents(x))
  }

  /** c hundredths written with two decimals, after a minus sign when neg. */
  function CentsText(neg: bool, c: nat): string
  {
    Signed(neg, CentsBody(c))
  }

  /** A text after a minus sign when neg. */
  function Signed(neg: bool, t: string): string
  {
    if neg then "-" + t else t
  }

  /** c hundredths written with two decimals. */
  function CentsBody(c: nat): string
  {
    NatText(c / 100) + "." + [Digit(c % 100 / 10), Digit(c % 100 % 10)]
  }

  /** A `.2f` text reads back, by `float`, as the rounded value. */
  lemma Fixed2Parses(x: real)
    ensures ParseFloat(Fixed2(x)) == Some(Rounded(x))
  {
    CentsParse(x < 0.0, Cents(x));
  }

  /** c hundredths written with two decimals read back as c / 100. */
  lemma CentsParse(neg: bool, c: nat)
    ensures ParseFloat(CentsText(neg, c)) == Some(CentsValue(neg, c))
  {
    SignedCentsParse(neg, c);
  }

  /** The same, with the text and the value written out. */
  lemma SignedCentsParse(neg: bool, c: nat)
    ensures ParseFloat(Signed(neg, CentsBody(c))) == Some(if neg then -Hundredths(c) else Hundredths(c))
  {
    CentsBodyReads(c);
    NumberParses(neg, CentsBody(c), Hundredths(c));
  }

  /** The text of c hundredths, unsigned, is numeric and its mantissa is
      c / 100. */
  lemma CentsBodyReads(c: nat)
    ensures Numeric(CentsBody(c)) && |CentsBody(c)| > 0 && Mantissa(CentsBody(c)) == Some(Hundredths(c))
  {
    NumericCents(NatText(c / 100), [Digit(c % 100 / 10), Digit(c % 100 % 10)]);
    MantissaOf(NatText(c / 100), [Digit(c % 100 / 10), Digit(c % 100 % 10)], c);
  }

  /** A numeric text, after a minus sign when neg, reads as its mantissa,
      negated when neg. */
  lemma NumberParses(neg: bool, body: string, v: real)
    requires Numeric(body) && |body| > 0 && Mantissa(body) == Some(v)
    ensures ParseFloat(Signed(neg, body)) == Some(if neg then -v else v)
  {
    SignedText(neg, body);
    NoExponent(body);
    ParseFloatPlain(Signed(neg, body), neg, body, v);
  }

  /** Text made of digits and points only. */
  predicate Numeric(s: string)
  {
    forall i :: 0 <= i < |s| ==> IsDigit(s[i]) || s[i] == '.'
  }

  /** Digits, a point, digits. */
  lemma NumericCents(w: string, dd: string)
    requires forall i :: 0 <= i < |w| ==> IsDigit(w[i])
    requires forall i :: 0 <= i < |dd| ==> IsDigit(dd[i])
    ensures Numeric(w + "." + dd)
  {
    var body := w + "." + dd;
    forall i | 0 <= i < |body|
      ensures IsDigit(body[i]) || body[i] == '.'
    {
      if i < |w| {
        assert body[i] == w[i];
      } else if i > |w| {
        assert body[i] == dd[i - |w| - 1];
      }
    }
  }

  /** A numeric text, after an optional minus, strips to itself and signs
      as that minus and the text. */
  lemma SignedText(neg: bool, body: string)
    requires Numeric(body) && |body| > 0
    ensures Strip(Signed(neg, body)) == Signed(neg, body)
    ensures Sign(Signed(neg, body)) == (neg, body)
  {
    var s := Signed(neg, body);
    assert s[|s| - 1] == body[|body| - 1];
    assert IsDigit(body[0]) || body[0] == '.';
    StripClean(s);
    if neg {
      assert s[1..] == body;
    } else {
      assert s == body;
    }
  }

  /** A numeric text has no exponent marker. */
  lemma NoExponent(body: string)
    requires Numeric(body)
    ensures Find(body, "e").None? && Find(body, "E").None?
  {
    AbsentHead(body, "e");
    AbsentHead(body, "E");
  }

  /** `float` of a text without exponent whose mantissa reads: its value,
      negated after a minus sign. */
  lemma ParseFloatPlain(s: string, neg: bool, body: string, v: real)
    requires Sign(Strip(s)) == (neg, body)
    requires Find(body, "e").None? && Find(body, "E").None? && Mantissa(body) == Some(v)
    ensures ParseFloat(s) == Some(if neg then -v else v)
  {
    assert Pow10(0) == 1;
  }

  /** The mantissa of `q.dd`, q = c / 100 written out and dd the two digits
      of c % 100, is c / 100 exactly. */
  lemma MantissaOf(w: string, dd: string, c: nat)
    requires w == NatText(c / 100) && dd == [Digit(c % 100 / 10), Digit(c % 100 % 10)]
    ensures Mantissa(w + "." + dd) == Some(Hundredths(c))
  {
    NatTextValue(c / 100);
    DotFirst(w, dd);
    TwoDigits(dd, c % 100);
    MantissaSplit(w, dd);
    assert Pow10(2) == 100;
    CentsSplit(c);
  }

  /** c hundredths are c / 100 units and c % 100 hundredths. */
  lemma CentsSplit(c: nat)
    ensures (c / 100) as real + (c % 100) as real / 100.0 == Hundredths(c)
  {
    assert c == 100 * (c / 100) + c % 100;
  }

  /** The mantissa `w.f` of two digit parts whose first point is the one
      between them. */
  lemma MantissaSplit(w: string, f: string)
    requires Find(w + "." + f, ".") == Some(|w|) && DigitPart(w) && DigitPart(f)
    ensures Mantissa(w + "." + f) ==
      Some(DigitsValue(w) as real + DigitsValue(f) as real / Pow10(DigitCount(f)) as real)
  {
    var body := w + "." + f;
    assert body[..|w|] == w && body[|w| + 1..] == f;
  }

  /** The first point of `w.dd`, w all digits, is the one after w. */
  lemma DotFirst(w: string, dd: string)
    requires forall i :: 0 <= i < |w| ==> IsDigit(w[i])
    ensures Find(w + "." + dd, ".") == Some(|w|)
  {
    var body := w + "." + dd;
    assert At(body, ".", |w|);
    forall j: nat | j < |w|
      ensures !At(body, ".", j)
    {
      assert body[j] == w[j];
      assert body[j..j + 1][0] == body[j];
    }
    FindIs(body, ".", |w|);
  }

  /** Two digits read as a digit part worth 10 * d1 + d0 and counting two
      digits. */
  lemma TwoDigits(dd: string, n: nat)
    requires n < 100 && dd == [Digit(n / 10), Digit(n % 10)]
    ensures DigitPart(dd) && DigitsValue(dd) == n && DigitCount(dd) == 2
  {
    var d1 := dd[..1];
    assert dd[..|dd| - 1] == d1 && d1[..|d1| - 1] == [];
    assert DigitsValue(d1) == n / 10;
    assert DigitCount(d1) == 1;
  }

  /** A text written between double quotes. */
  function Quoted(v: string): string
  {
    "\"" + v + "\""
  }

  /** An indented `key: text` line of a record. */
  function Field(k: string, t: string): string
  {
    "  " + k + ": " + t
  }

  /** The line that opens a record. */
  function HeaderLine(v: string): string
  {
    Header + " " + Quoted(v)
  }

  /** The lines written for a result, in order: texts quoted, counts in
      decimal, energies with two decimals; `completada` is not written. */
  function RecordLines(r: Resultado): seq<string>
  {
    [HeaderLine(r.enfrentamiento)] +
    [Field("ganador", Quoted(r.ganador))] +
    [Field("puntos", IntText(r.puntos))] +
    [Field("col1_nombre", Quoted(r.col1Nombre))] +
    [Field("col2_nombre", Quoted(r.col2Nombre))] +
    [Field("col1_poblacion_final", IntText(r.col1Poblacion))] +
    [Field("col2_poblacion_final", IntText(r.col2Poblacion))] +
    [Field("col1_energia_final", Fixed2(r.col1Energia))] +
    [Field("col2_energia_final", Fixed2(r.col2Energia))] +
    [Field("duracion", IntText(r.duracion))] +
    [Field("timestamp", Quoted(r.timestamp))]
  }

  /** The text of successive writes of `line + "\n"`. */
  function Lines(ls: seq<string>): string
  {
    if |ls| == 0 then "" else Lines(ls[..|ls| - 1]) + ls[|ls| - 1] + "\n"
  }

  /** What one call adds to the log after the separator, if any. */
  function RecordText(r: Resultado): string
  {
    Lines(RecordLines(r))
  }

  /** The writer's test `if contests`: the stripped log, split at `---\n`,
      has a piece that is not blank. A missing file is an empty log. */
  predicate HasRecords(log: string)
  {
    var content := Strip(log);
    content != "" &&
    exists i :: 0 <= i < |Split(content, "---\n")| && Strip(Split(content, "---\n")[i]) != ""
  }

  /** The day's log after `guardar_resultado_competencia(r)`: the separator
      `\n---\n` when the log already has records, then the record. */
  function Appended(log: string, r: Resultado): string
  {
    log + (if HasRecords(log) then "\n---\n" else "") + RecordText(r)
  }

  /** A text that survives being written between quotes and read back: on
      one line, without the document separator, and without a quote at
      either end (the reader strips quotes). */
  predicate Quotable(v: string)
  {
    '\n' !in v && !Contains(v, "---") && (|v| > 0 ==> !IsQuote(v[0]) && !IsQuote(v[|v| - 1]))
  }

  /** The texts of r can be read back: all quotable, and the matchup name
      does not hold the header, which the reader removes everywhere. */
  predicate Clean(r: Resultado)
  {
    Quotable(r.enfrentamiento) && !Contains(r.enfrentamiento, Header) &&
    Quotable(r.ganador) && Quotable(r.col1Nombre) && Quotable(r.col2Nombre) && Quotable(r.timestamp)
  }

  /** The record the reader builds from the lines of r: every written key
      with its value, energies rounded to hundredths. */
  function Fields(r: Resultado): Contest
  {
    map["enfrentamiento" := Texto(r.enfrentamiento),
        "ganador" := Texto(r.ganador),
        "puntos" := Entero(r.puntos),
        "col1_nombre" := Texto(r.col1Nombre),
        "col2_nombre" := Texto(r.col2Nombre),
        "col1_poblacion_final" := Entero(r.col1Poblacion),
        "col2_poblacion_final" := Entero(r.col2Poblacion),
        "col1_energia_final" := Real(Rounded(r.col1Energia)),
        "col2_energia_final" := Real(Rounded(r.col2Energia)),
        "duracion" := Entero(r.duracion),
        "timestamp" := Texto(r.timestamp)]
  }

  /** Decimal text of a number: an optional minus sign, then digits and
      points, ending in a digit. */
  predicate NumberText(t: string)
  {
    |t| > 0 && (IsDigit(t[0]) || t[0] == '-') && IsDigit(t[|t| - 1]) &&
    forall i :: 0 < i < |t| ==> IsDigit(t[i]) || t[i] == '.'
  }

  lemma IntTextNumber(i: int)
    ensures NumberText(IntText(i))
  {
    if i < 0 {
      var d := NatText(-i);
      assert forall j :: 0 < j < |IntText(i)| ==> IntText(i)[j] == d[j - 1];
    }
  }

  lemma Fixed2Number(x: real)
    ensures NumberText(Fixed2(x))
  {
    var c := Cents(x);
    var w := NatText(c / 100);
    var body := CentsBody(c);
    NumericCents(w, [Digit(c % 100 / 10), Digit(c % 100 % 10)]);
    assert body[0] == w[0];
    var s := Signed(x < 0.0, body);
    if x < 0.0 {
      assert forall j :: 0 < j < |s| ==> s[j] == body[j - 1];
    }
  }

  /** The keys the writer uses: one word with no colon, dash or space. */
  predicate KeyOk(k: string)
  {
    |k| > 0 && ':' !in k && '-' !in k && '\n' !in k && !IsSpace(k[0]) && !IsSpace(k[|k| - 1]) && k[0] != '#'
  }

  /** `split(':', 1)` of a + ':' + b, where a holds no colon. */
  lemma SplitOnceAt(a: string, c: char, b: string)
    requires c !in a
    ensures Contains(a + [c] + b, [c]) && SplitOnce(a + [c] + b, c) == (a, b)
  {
    var s := a + [c] + b;
    ContainsChar(s, c);
    var (x, y) := SplitOnce(s, c);
    ContainsChar(x, c);
    assert s[|x|] == c && s[|a|] == c;
    assert forall i :: 0 <= i < |x| ==> x[i] == s[i];
    assert forall i :: 0 <= i < |a| ==> a[i] == s[i];
    assert |x| == |a|;
    assert x == s[..|x|] == a;
    assert y == s[|x| + 1..] == b;
  }

  /** A field line reads back as its key and its text, quotes stripped. */
  lemma FieldReads(k: string, t: string)
    requires KeyOk(k) && |t| > 0 && !IsSpace(t[0]) && !IsSpace(t[|t| - 1])
    ensures Classify(Field(k, t)) == Par(k, StripQuotes(t))
  {
    var line := k + [':'] + (" " + t);
    FieldStrip(k, t);
    SplitOnceAt(k, ':', " " + t);
    StripClean(k);
    StripPadded(" ", t, "", IsSpace);
    assert " " + t + "" == " " + t;
    ClassifyPair(Field(k, t), line, k, " " + t);
  }

  /** A field line strips to its key, a colon, a space and its text. */
  lemma FieldStrip(k: string, t: string)
    requires KeyOk(k) && |t| > 0 && !IsSpace(t[|t| - 1])
    ensures Strip(Field(k, t)) == k + [':'] + (" " + t)
  {
    var line := k + [':'] + (" " + t);
    assert Field(k, t) == "  " + line + "";
    assert line[0] == k[0] && line[|line| - 1] == t[|t| - 1];
    StripPadded("  ", line, "", IsSpace);
  }

  /** A stripped line that starts with neither `#` nor `-` and splits at
      its first colon into k and v is a key-value line. */
  lemma ClassifyPair(raw: string, line: string, k: string, v: string)
    requires Strip(raw) == line && |line| > 0 && line[0] != '#' && line[0] != '-'
    requires Contains(line, ":") && SplitOnce(line, ':') == (k, v)
    ensures Classify(raw) == Par(Strip(k), StripQuotes(Strip(v)))
  {
    StartsDiffer(line, "#");
    StartsDiffer(line, Header);
    StartsDiffer(line, "-");
  }

  /** Text does not start with a prefix whose first character differs. */
  lemma StartsDiffer(s: string, p: string)
    requires |s| > 0 && |p| > 0 && s[0] != p[0]
    ensures !StartsWith(s, p)
  {
    if |p| <= |s| {
      assert s[..|p|][0] == s[0];
    }
  }

  /** A header line reads back as the quoted text. */
  lemma HeaderReads(v: string)
    requires Quotable(v) && !Contains(v, Header)
    ensures Classify(HeaderLine(v)) == Cabecera(v)
  {
    HeaderStrip(v);
    HeaderRest(v);
    ClassifyHeader(HeaderLine(v), HeaderLine(v));
  }

  /** What the reader keeps of a header line once the header is removed:
      the text between the quotes. */
  lemma HeaderRest(v: string)
    requires Quotable(v) && !Contains(v, Header)
    ensures StripQuotes(Strip(Remove(HeaderLine(v), Header))) == v
  {
    var rest := " " + Quoted(v);
    assert HeaderLine(v) == Header + rest;
    QuotedFree(v, Header);
    ConsFree(' ', Quoted(v), Header);
    RemoveFront(Header, rest);
    StripPadded(" ", Quoted(v), "", IsSpace);
    assert " " + Quoted(v) + "" == rest;
    QuotedReads(v);
  }

  /** A header line is stripped already and starts with the header. */
  lemma HeaderStrip(v: string)
    ensures Strip(HeaderLine(v)) == HeaderLine(v) && StartsWith(HeaderLine(v), Header)
    ensures HeaderLine(v) == Header + (" " + Quoted(v))
  {
    var raw := HeaderLine(v);
    assert raw == Header + (" " + Quoted(v));
    assert raw[0] == '-' && raw[|raw| - 1] == '"';
    StripClean(raw);
    assert raw[..|Header|] == Header;
  }

  /** Removing p from p + rest, where rest holds no p, leaves rest. */
  lemma RemoveFront(p: string, rest: string)
    requires |p| > 0 && !Contains(rest, p)
    ensures Remove(p + rest, p) == rest
  {
    var s := p + rest;
    assert s[0..|p|] == p;
    FindIs(s, p, 0);
    assert s[|p|..] == rest;
  }

  /** A stripped line that starts with the header opens a record with the
      rest of the line, header removed, stripped and unquoted. */
  lemma ClassifyHeader(raw: string, line: string)
    requires Strip(raw) == line && StartsWith(line, Header)
    ensures Classify(raw) == Cabecera(StripQuotes(Strip(Remove(line, Header))))
  {
    assert line[..|Header|][0] == '-';
    StartsDiffer(line, "#");
  }

  /** A quoted text is free of a needle without quotes that the text is
      free of. */
  lemma QuotedFree(v: string, sep: string)
    requires |sep| > 0 && '"' !in sep && !Contains(v, sep)
    ensures !Contains(Quoted(v), sep)
  {
    assert Quoted(v) == "" + ['"'] + (v + "\"");
    assert v + "\"" == v + ['"'] + "";
    AbsentHead("", sep);
    if Contains(Quoted(v), sep) {
      ContainsAround("", '"', v + "\"", sep);
      ContainsAround(v, '"', "", sep);
    }
  }

  /** A character other than the needle's first, put in front of a text
      free of the needle, leaves it free. */
  lemma ConsFree(c: char, s: string, sep: string)
    requires |sep| > 0 && sep[0] != c && !Contains(s, sep)
    ensures !Contains([c] + s, sep)
  {
    var cs := [c] + s;
    assert Find(s, sep).None?;
    forall j: nat
      ensures !At(cs, sep, j)
    {
      if j == 0 && |sep| <= |cs| {
        assert cs[j..j + |sep|][0] == c;
      } else if 0 < j && j + |sep| <= |cs| {
        assert cs[j..j + |sep|] == s[j - 1..j - 1 + |sep|];
        assert !At(s, sep, j - 1);
      }
    }
  }

  /** Stripping quotes from a quoted text gives the text back. */
  lemma QuotedReads(v: string)
    requires |v| > 0 ==> !IsQuote(v[0]) && !IsQuote(v[|v| - 1])
    ensures StripQuotes(Quoted(v)) == v
  {
    StripPadded("\"", v, "\"", IsQuote);
  }

  /** A number text has no quotes to strip. */
  lemma NumberReads(t: string)
    requires NumberText(t)
    ensures StripQuotes(t) == t
  {
    StripPadded("", t, "", IsQuote);
    assert "" + t + "" == t;
  }

  /** A text with a dash at most at its start holds no run of three
      dashes. */
  lemma LoneDash(t: string)
    requires forall i :: 0 < i < |t| ==> t[i] != '-'
    ensures !Contains(t, "---")
  {
    forall j: nat
      ensures !At(t, "---", j)
    {
      if j + 3 <= |t| {
        assert t[j..j + 3][1] == t[j + 1];
      }
    }
  }

  /** A number text holds no run of three dashes. */
  lemma NumberFree(t: string)
    requires NumberText(t)
    ensures !Contains(t, "---")
  {
    LoneDash(t);
  }

  /** A line the reader gets back whole: no newline, no document
      separator, and no whitespace at its end. */
  predicate Sound(l: string)
  {
    '\n' !in l && !Contains(l, "---") && |l| > 0 && !IsSpace(l[|l| - 1])
  }

  /** A line made of a head and a text joined by a space is sound when
      both parts are. */
  lemma JoinedSound(a: string, t: string)
    requires '\n' !in a && !Contains(a, "---")
    requires '\n' !in t && !Contains(t, "---") && |t| > 0 && !IsSpace(t[|t| - 1])
    ensures Sound(a + [' '] + t)
  {
    var l := a + [' '] + t;
    if Contains(l, "---") {
      ContainsAround(a, ' ', t, "---");
    }
    assert l[|l| - 1] == t[|t| - 1];
  }

  lemma FieldSound(k: string, t: string)
    requires KeyOk(k) && |t| > 0 && '\n' !in t && !Contains(t, "---") && !IsSpace(t[|t| - 1])
    ensures Sound(Field(k, t))
  {
    var a := "  " + k + ":";
    assert Field(k, t) == a + [' '] + t;
    AbsentHead(a, "---");
    JoinedSound(a, t);
  }

  /** The header holds no newline and no document separator. */
  lemma HeaderFree()
    ensures '\n' !in Header && !Contains(Header, "---")
  {
    assert forall i :: 0 < i < |Header| ==> Header[i] != '-';
    LoneDash(Header);
  }

  lemma HeaderSound(v: string)
    requires Quotable(v)
    ensures Sound(HeaderLine(v)) && HeaderLine(v)[0] == '-'
  {
    HeaderFree();
    QuotedFree(v, "---");
    assert HeaderLine(v) == Header + [' '] + Quoted(v);
    JoinedSound(Header, Quoted(v));
  }

  /** The lines of a clean result are sound. */
  lemma RecordSound(r: Resultado)
    requires Clean(r)
    ensures var ls := RecordLines(r); |ls| == 11 && ls[0][0] == '-' && AllSound(ls)
  {
    KeysOk();
    var ls := [HeaderLine(r.enfrentamiento)];
    HeaderSound(r.enfrentamiento);
    ls := QuotedSnoc(ls, "ganador", r.ganador);
    ls := IntSnoc(ls, "puntos", r.puntos);
    ls := QuotedSnoc(ls, "col1_nombre", r.col1Nombre);
    ls := QuotedSnoc(ls, "col2_nombre", r.col2Nombre);
    ls := IntSnoc(ls, "col1_poblacion_final", r.col1Poblacion);
    ls := IntSnoc(ls, "col2_poblacion_final", r.col2Poblacion);
    ls := EnergySnoc(ls, "col1_energia_final", r.col1Energia);
    ls := EnergySnoc(ls, "col2_energia_final", r.col2Energia);
    ls := IntSnoc(ls, "duracion", r.duracion);
    ls := QuotedSnoc(ls, "timestamp", r.timestamp);
  }

  /** The keys the writer uses are plain words. */
  lemma KeysOk()
    ensures KeyOk("ganador") && KeyOk("puntos") && KeyOk("col1_nombre") && KeyOk("col2_nombre")
    ensures KeyOk("col1_poblacion_final") && KeyOk("col2_poblacion_final")
    ensures KeyOk("col1_energia_final") && KeyOk("col2_energia_final")
    ensures KeyOk("duracion") && KeyOk("timestamp")
  {
  }

  /** All the lines are sound. */
  predicate AllSound(ls: seq<string>)
  {
    forall k :: 0 <= k < |ls| ==> Sound(ls[k])
  }

  lemma QuotedSnoc(ls: seq<string>, k: string, v: string) returns (ls': seq<string>)
    requires AllSound(ls) && KeyOk(k) && Quotable(v)
    ensures ls' == ls + [Field(k, Quoted(v))] && AllSound(ls')
  {
    QuotedSound(k, v);
    ls' := ls + [Field(k, Quoted(v))];
  }

  lemma IntSnoc(ls: seq<string>, k: string, i: int) returns (ls': seq<string>)
    requires AllSound(ls) && KeyOk(k)
    ensures ls' == ls + [Field(k, IntText(i))] && AllSound(ls')
  {
    IntTextNumber(i);
    NumberSound(k, IntText(i));
    ls' := ls + [Field(k, IntText(i))];
  }

  lemma EnergySnoc(ls: seq<string>, k: string, x: real) returns (ls': seq<string>)
    requires AllSound(ls) && KeyOk(k)
    ensures ls' == ls + [Field(k, Fixed2(x))] && AllSound(ls')
  {
    Fixed2Number(x);
    NumberSound(k, Fixed2(x));
    ls' := ls + [Field(k, Fixed2(x))];
  }

  lemma QuotedSound(k: string, v: string)
    requires KeyOk(k) && Quotable(v)
    ensures Sound(Field(k, Quoted(v)))
  {
    QuotedFree(v, "---");
    FieldSound(k, Quoted(v));
  }

  lemma NumberSound(k: string, t: string)
    requires KeyOk(k) && NumberText(t)
    ensures Sound(Field(k, t))
  {
    NumberFree(t);
    FieldSound(k, t);
  }

  /** Reading one more line is one more step of the reader. */
  lemma ParseLinesSnoc(ls: seq<string>, l: string)
    ensures ParseLines(ls + [l]) == ParseLine(ParseLines(ls), l)
  {
    assert (ls + [l])[..|ls|] == ls;
  }

  /** The header line alone reads as the matchup. */
  lemma HeaderStep(v: string)
    requires Quotable(v) && !Contains(v, Header)
    ensures ParseLines([HeaderLine(v)]) == map["enfrentamiento" := Texto(v)]
  {
    HeaderReads(v);
    ParseLinesSnoc([], HeaderLine(v));
    assert [] + [HeaderLine(v)] == [HeaderLine(v)];
  }

  /** A quoted field line sets its key to the text. */
  lemma QuotedStep(ls: seq<string>, k: string, v: string) returns (ls': seq<string>)
    requires KeyOk(k) && Quotable(v) && !IsIntKey(k) && !IsEnergyKey(k) && k != "completada"
    ensures ls' == ls + [Field(k, Quoted(v))] && ParseLines(ls') == ParseLines(ls)[k := Texto(v)]
  {
    ls' := ls + [Field(k, Quoted(v))];
    ParseLinesSnoc(ls, Field(k, Quoted(v)));
    assert Quoted(v)[0] == '"' && Quoted(v)[|Quoted(v)| - 1] == '"';
    FieldReads(k, Quoted(v));
    QuotedReads(v);
  }

  /** A count line sets its key to the count. */
  lemma IntStep(ls: seq<string>, k: string, i: int) returns (ls': seq<string>)
    requires KeyOk(k) && IsIntKey(k)
    ensures ls' == ls + [Field(k, IntText(i))] && ParseLines(ls') == ParseLines(ls)[k := Entero(i)]
  {
    ls' := ls + [Field(k, IntText(i))];
    ParseLinesSnoc(ls, Field(k, IntText(i)));
    IntTextNumber(i);
    FieldReads(k, IntText(i));
    NumberReads(IntText(i));
    IntTextRoundTrip(i);
  }

  /** An energy line sets its key to the energy rounded to hundredths. */
  lemma EnergyStep(ls: seq<string>, k: string, x: real) returns (ls': seq<string>)
    requires KeyOk(k) && IsEnergyKey(k)
    ensures ls' == ls + [Field(k, Fixed2(x))] && ParseLines(ls') == ParseLines(ls)[k := Real(Rounded(x))]
  {
    ls' := ls + [Field(k, Fixed2(x))];
    ParseLinesSnoc(ls, Field(k, Fixed2(x)));
    Fixed2Number(x);
    FieldReads(k, Fixed2(x));
    NumberReads(Fixed2(x));
    EnergyValue(k, x);
  }

  /** An energy key reads the two-decimal text as the rounded energy. */
  lemma EnergyValue(k: string, x: real)
    requires IsEnergyKey(k)
    ensures Convert(k, Fixed2(x)) == Real(Rounded(x))
  {
    Fixed2Parses(x);
  }

  /** The lines of a clean result read back as its fields. */
  lemma RecordFields(r: Resultado)
    requires Clean(r)
    ensures ParseLines(RecordLines(r)) == Fields(r)
  {
    KeysOk();
    var ls := NamesRead(r);
    ls := IntStep(ls, "col1_poblacion_final", r.col1Poblacion);
    ls := IntStep(ls, "col2_poblacion_final", r.col2Poblacion);
    ls := EnergyStep(ls, "col1_energia_final", r.col1Energia);
    ls := EnergyStep(ls, "col2_energia_final", r.col2Energia);
    ls := IntStep(ls, "duracion", r.duracion);
    ls := QuotedStep(ls, "timestamp", r.timestamp);
  }

  /** The first five lines of a clean result: matchup, winner, points and
      the two names. */
  lemma NamesRead(r: Resultado) returns (ls: seq<string>)
    requires Clean(r)
    ensures ls == [HeaderLine(r.enfrentamiento)] +
      [Field("ganador", Quoted(r.ganador))] +
      [Field("puntos", IntText(r.puntos))] +
      [Field("col1_nombre", Quoted(r.col1Nombre))] +
      [Field("col2_nombre", Quoted(r.col2Nombre))]
    ensures ParseLines(ls) ==
      map["enfrentamiento" := Texto(r.enfrentamiento),
          "ganador" := Texto(r.ganador),
          "puntos" := Entero(r.puntos),
          "col1_nombre" := Texto(r.col1Nombre),
          "col2_nombre" := Texto(r.col2Nombre)]
  {
    KeysOk();
    ls := [HeaderLine(r.enfrentamiento)];
    HeaderStep(r.enfrentamiento);
    ls := QuotedStep(ls, "ganador", r.ganador);
    ls := IntStep(ls, "puntos", r.puntos);
    ls := QuotedStep(ls, "col1_nombre", r.col1Nombre);
    ls := QuotedStep(ls, "col2_nombre", r.col2Nombre);
  }

  /** Successive writes of the lines are their join, with a final
      newline. */
  lemma {:induction false} LinesJoin(ls: seq<string>)
    requires |ls| > 0
    ensures Lines(ls) == Join(ls, "\n") + "\n"
  {
    var n := |ls|;
    if n == 1 {
      assert Lines(ls[..0]) == "";
    } else {
      LinesJoin(ls[..n - 1]);
      JoinSnoc(ls[..n - 1], ls[n - 1], "\n");
      assert ls[..n - 1] + [ls[n - 1]] == ls;
    }
  }

  /** The join of pieces is the join of all but the last, the separator
      and the last. */
  lemma JoinLast(ls: seq<string>, sep: string)
    requires |ls| > 1
    ensures Join(ls, sep) == Join(ls[..|ls| - 1], sep) + sep + ls[|ls| - 1]
  {
    JoinSnoc(ls[..|ls| - 1], ls[|ls| - 1], sep);
    assert ls[..|ls| - 1] + [ls[|ls| - 1]] == ls;
  }

  /** A join starts as its first piece and ends as its last. */
  lemma JoinEnds(ls: seq<string>, sep: string)
    requires |ls| > 0 && |ls[0]| > 0 && |ls[|ls| - 1]| > 0
    ensures var b := Join(ls, sep); var z := ls[|ls| - 1];
      |b| > 0 && b[0] == ls[0][0] && b[|b| - 1] == z[|z| - 1]
  {
    if |ls| > 1 {
      JoinLast(ls, sep);
    }
  }

  /** Lines free of a needle that their separator is not part of join into
      a text free of it. */
  lemma {:induction false} JoinFree(ls: seq<string>, c: char, sep: string)
    requires |sep| > 0 && c !in sep && forall k :: 0 <= k < |ls| ==> !Contains(ls[k], sep)
    ensures !Contains(Join(ls, [c]), sep)
  {
    if |ls| == 0 {
      AbsentHead("", sep);
    } else if |ls| > 1 {
      JoinFree(ls[1..], c, sep);
      if Contains(Join(ls, [c]), sep) {
        ContainsAround(ls[0], c, Join(ls[1..], [c]), sep);
      }
    }
  }

  /** Sound lines joined by newlines form one document, stripped already
      and free of the separator, which the reader turns into the record the
      lines build, tagged with the file. */
  lemma DocReads(ls: seq<string>, file: string)
    requires |ls| > 0 && AllSound(ls) && !IsSpace(ls[0][0]) && Keep(ParseLines(ls))
    ensures var b := Join(ls, "\n");
      |b| > 0 && !IsSpace(b[0]) && !IsSpace(b[|b| - 1]) && Strip(b) == b && !Contains(b, "---") &&
      ParseDoc(b, file) == Some(ParseLines(ls)["file" := Texto(file)])
  {
    var b := Join(ls, "\n");
    JoinEnds(ls, "\n");
    StripClean(b);
    JoinFree(ls, '\n', "---");
    SplitJoinChar(ls, '\n');
  }

  /** The writer adds a separator exactly when the stripped log is not
      empty. */
  lemma SeparatorWhenRecords(log: string)
    ensures HasRecords(log) <==> Strip(log) != ""
  {
    var content := Strip(log);
    if content != "" {
      var sep := "---\n";
      var r := Split(content, sep);
      var n := |r|;
      var z := r[n - 1];
      var p, q := StripParts(log);
      SplitJoin(content, sep);
      if n > 1 {
        JoinLast(r, sep);
      }
      assert |z| > 0 && content[|content| - 1] == z[|z| - 1];
      StripEmpty(z);
      assert 0 <= n - 1 < |r| && Strip(r[n - 1]) != "";
    }
  }

  /** A document the reader takes whole: stripped already, without the
      separator, and read as c. */
  predicate Document(b: string, c: Contest, file: string)
  {
    |b| > 0 && !IsSpace(b[0]) && !IsSpace(b[|b| - 1]) && Strip(b) == b && !Contains(b, "---") &&
    ParseDoc(b, file) == Some(c)
  }

  /** A log with no records, then a document and a newline, reads as the
      document's record alone. */
  lemma AppendFirst(log: string, b: string, c: Contest, file: string)
    requires Strip(log) == "" && Document(b, c, file)
    ensures ParseContent(log + "" + (b + "\n"), file) == [c]
  {
    StripEmpty(log);
    assert log + "" + (b + "\n") == log + b + "\n";
    StripPadded(log, b, "\n", IsSpace);
    SplitAbsent(b, "---");
    assert ParseDocs([b], file) == ParseDocs([], file) + [c];
  }

  /** A log with records, the separator, then a document and a newline,
      reads as the log's records and then the document's. */
  lemma AppendAfter(log: string, b: string, c: Contest, file: string)
    requires Strip(log) != "" && Document(b, c, file)
    ensures ParseContent(log + "\n---\n" + (b + "\n"), file) == ParseContent(log, file) + [c]
  {
    var p, q := StripParts(log);
    var s := Strip(log);
    StripAppended(log, p, s, q, b);
    SplitAppended(s, q, b);
    DocsAppended(Split(s, "---"), q, b, c, file);
  }

  /** What `guardar_resultado_competencia` adds to a log, as sound lines,
      is read back after the log's records as one more record: the one the
      lines build, tagged with the file. */
  lemma AppendReads(log: string, ls: seq<string>, file: string)
    requires |ls| > 0 && AllSound(ls) && !IsSpace(ls[0][0]) && Keep(ParseLines(ls))
    ensures ParseContent(log + (if HasRecords(log) then "\n---\n" else "") + Lines(ls), file) ==
      ParseContent(log, file) + [ParseLines(ls)["file" := Texto(file)]]
  {
    var b := Join(ls, "\n");
    var c := ParseLines(ls)["file" := Texto(file)];
    LinesJoin(ls);
    DocReads(ls, file);
    SeparatorWhenRecords(log);
    if HasRecords(log) {
      AppendAfter(log, b, c, file);
    } else {
      AppendFirst(log, b, c, file);
    }
  }

  /** A log with records, the separator and the document strip to the
      log's strip, its trailing whitespace, the separator and the
      document. */
  lemma StripAppended(log: string, p: string, s: string, q: string, b: string)
    requires log == p + s + q && All(p, IsSpace) && All(q, IsSpace)
    requires |s| > 0 && !IsSpace(s[0]) && |b| > 0 && !IsSpace(b[|b| - 1])
    ensures Strip(log + "\n---\n" + (b + "\n")) == s + q + "\n---\n" + b
  {
    var m := s + q + "\n---\n" + b;
    assert log + "\n---\n" + (b + "\n") == p + m + "\n";
    assert m[0] == s[0] && m[|m| - 1] == b[|b| - 1];
    StripPadded(p, m, "\n", IsSpace);
  }

  /** Splitting the stripped text at `---`: the pieces of the old log, the
      last one lengthened by the whitespace before the separator, then the
      new document after its newline. */
  lemma SplitAppended(s: string, q: string, b: string)
    requires All(q, IsSpace) && |s| > 0 && !Contains(b, "---")
    ensures var r := Split(s, "---");
      Split(s + q + "\n---\n" + b, "---") == r[..|r| - 1] + [r[|r| - 1] + (q + "\n")] + ["\n" + b]
  {
    var x, y := s + (q + "\n"), "\n" + b;
    assert Split(s + q + "\n---\n" + b, "---") == Split(x, "---") + Split(y, "---") by {
      SeparatorAround(s, q, b);
      SplitConcat(x, "---", y);
    }
    assert Split(y, "---") == [y] by {
      NewlinePiece(b);
    }
    var r := Split(s, "---");
    assert Split(x, "---") == r[..|r| - 1] + [r[|r| - 1] + (q + "\n")] by {
      SeparatorAround(s, q, b);
      SplitTail(s, q + "\n", "---");
    }
  }

  /** The appended text around its separator `---`. */
  lemma SeparatorAround(s: string, q: string, b: string)
    requires All(q, IsSpace)
    ensures s + q + "\n---\n" + b == (s + (q + "\n")) + "---" + ("\n" + b)
    ensures var x := s + (q + "\n"); |x| > 0 && x[|x| - 1] !in "---"
    ensures forall k :: 0 <= k < |q + "\n"| ==> (q + "\n")[k] !in "---"
  {
    var w := q + "\n";
    assert forall k :: 0 <= k < |w| ==> IsSpace(w[k]);
    var x := s + w;
    assert x[|x| - 1] == '\n';
  }

  /** The document after its newline is one piece. */
  lemma NewlinePiece(b: string)
    requires !Contains(b, "---")
    ensures Split("\n" + b, "---") == ["\n" + b]
  {
    ConsFree('\n', b, "---");
    assert ['\n'] + b == "\n" + b;
    SplitAbsent("\n" + b, "---");
  }

  /** The records of those pieces: the old log's, then the new one. */
  lemma DocsAppended(r: seq<string>, q: string, b: string, c: Contest, file: string)
    requires |r| > 0 && All(q, IsSpace) && Strip(b) == b && |b| > 0 && !IsSpace(b[0])
    requires ParseDoc(b, file) == Some(c)
    ensures ParseDocs(r[..|r| - 1] + [r[|r| - 1] + (q + "\n")] + ["\n" + b], file) == ParseDocs(r, file) + [c]
  {
    var w := q + "\n";
    assert All(w, IsSpace);
    ParseDocsAppend(r[..|r| - 1] + [r[|r| - 1] + w], ["\n" + b], file);
    LastPieceTrailing(r, w, file);
    NewlineDoc(b, c, file);
  }

  /** Whitespace at the end of the last piece changes none of the
      records. */
  lemma LastPieceTrailing(r: seq<string>, w: string, file: string)
    requires |r| > 0 && All(w, IsSpace)
    ensures ParseDocs(r[..|r| - 1] + [r[|r| - 1] + w], file) == ParseDocs(r, file)
  {
    var x, z := r[..|r| - 1], r[|r| - 1];
    assert x + [z] == r;
    StripTrailing(z, w);
    SameDoc(z + w, z, file);
    ParseDocsAppend(x, [z + w], file);
    ParseDocsAppend(x, [z], file);
  }

  /** Documents that strip alike read alike. */
  lemma SameDoc(d: string, e: string, file: string)
    requires Strip(d) == Strip(e)
    ensures ParseDocs([d], file) == ParseDocs([e], file)
  {
    assert ParseDoc(d, file) == ParseDoc(e, file);
    assert [d][..0] == [] == [e][..0];
  }

  /** The document after the separator's newline reads as the document. */
  lemma NewlineDoc(b: string, c: Contest, file: string)
    requires Strip(b) == b && |b| > 0 && !IsSpace(b[0]) && ParseDoc(b, file) == Some(c)
    ensures ParseDocs(["\n" + b], file) == [c]
  {
    StripPadded("\n", b, "", IsSpace);
    assert "\n" + b + "" == "\n" + b;
    assert ParseDoc("\n" + b, file) == Some(c);
    assert ParseDocs(["\n" + b], file) == ParseDocs([], file) + [c];
  }

  /** `guardar_resultado_competencia(r)` on a clean result: the log, read
      back, holds the records it held before and then r's fields, tagged
      with the file. */
  lemma AppendRecord(log: string, r: Resultado, file: string)
    requires Clean(r)
    ensures ParseContent(Appended(log, r), file) == ParseContent(log, file) + [Fields(r)["file" := Texto(file)]]
  {
    RecordSound(r);
    RecordFields(r);
    assert "ganador" in Fields(r);
    AppendReads(log, RecordLines(r), file);
  }

  /** The first result of the day, read back alone. */
  lemma RecordRoundTrip(r: Resultado, file: string)
    requires Clean(r)
    ensures ParseContent(RecordText(r), file) == [Fields(r)["file" := Texto(file)]]
  {
    AppendRecord("", r, file);
    StripEmpty("");
    assert Appended("", r) == RecordText(r);
  }

  /** The ranking credits a read-back record to the result's two colonies,
      its winner and its points. */
  lemma RecordCredits(log: string, r: Resultado, file: string)
    requires Clean(r)
    ensures var cs := ParseContent(Appended(log, r), file);
      |cs| == |ParseContent(log, file)| + 1 &&
      var c := cs[|cs| - 1];
      Name1(c) == r.col1Nombre && Name2(c) == r.col2Nombre && Winner(c) == r.ganador && Points(c) == r.puntos
  {
    AppendRecord(log, r, file);
    FieldsCredits(r, file);
  }

  /** The fields of r, tagged with the file, name r's colonies, winner and
      points. */
  lemma FieldsCredits(r: Resultado, file: string)
    ensures var c := Fields(r)["file" := Texto(file)];
      Name1(c) == r.col1Nombre && Name2(c) == r.col2Nombre && Winner(c) == r.ganador && Points(c) == r.puntos
  {
    var c := Fields(r)["file" := Texto(file)];
    assert c["col1_nombre"] == Texto(r.col1Nombre);
    assert c["col2_nombre"] == Texto(r.col2Nombre);
    assert c["ganador"] == Texto(r.ganador);
    assert c["puntos"] == Entero(r.puntos);
  }
}
