/** The contest log as `RankingSystem._parse_contest_file` reads it: a text
    of YAML-like documents separated by `---`, each holding `key: value`
    lines, turned into one record (a dictionary) per document. */
module Registro {
  import opened Py
  import opened PyStr

  /** A value of a record: text, or what the known numeric and boolean keys
      convert to. */
  datatype Valor = Texto(s: string) | Entero(i: int) | Real(r: real) | Logico(b: bool)

  /** A parsed record, as the Python dictionary `contest`. */
  type Contest = map<string, Valor>

  const Header: string := "- enfrentamiento:"

  /** The keys read as `int`. */
  predicate IsIntKey(k: string)
  {
    k == "puntos" || k == "col1_poblacion_final" || k == "col2_poblacion_final" || k == "duracion"
  }

  /** The keys read as `float`. */
  predicate IsEnergyKey(k: string)
  {
    k == "col1_energia_final" || k == "col2_energia_final"
  }

  /** The value a key-value line stores under key k. */
  function Convert(k: string, v: string): (r: Valor)
    ensures IsIntKey(k) ==> r == Entero(IntOr0(v))
    ensures IsEnergyKey(k) ==> r == Real(FloatOr0(v))
    ensures k == "completada" ==> r == Logico(IsTrueText(v))
    ensures !IsIntKey(k) && !IsEnergyKey(k) && k != "completada" ==> r == Texto(v)
  {
    if IsIntKey(k) then Entero(IntOr0(v))
    else if IsEnergyKey(k) then Real(FloatOr0(v))
    else if k == "completada" then Logico(IsTrueText(v))
    else Texto(v)
  }

  /** Every value has the type its key calls for. */
  predicate WellTyped(c: Contest)
  {
    forall k :: k in c ==>
      (IsIntKey(k) ==> c[k].Entero?) && (IsEnergyKey(k) ==> c[k].Real?) &&
      (k == "completada" ==> c[k].Logico?) &&
      (!IsIntKey(k) && !IsEnergyKey(k) && k != "completada" ==> c[k].Texto?)
  }

  /** What a line of a document is, once stripped: nothing to read (blank,
      a `#` comment, or neither of the two forms below), the header
      `- enfrentamiento: value` that opens a record, or a `key: value` line
      split at its first colon, both sides stripped and the value's quotes
      dropped. */
  datatype Linea = Nada | Cabecera(valor: string) | Par(clave: string, valor: string)

  function Classify(raw: string): Linea
  {
    var line := Strip(raw);
    if line == "" || StartsWith(line, "#") then Nada
    else if StartsWith(line, Header) then Cabecera(StripQuotes(Strip(Remove(line, Header))))
    else if Contains(line, ":") && !StartsWith(line, "-") then
      var (k, v) := SplitOnce(line, ':');
      Par(Strip(k), StripQuotes(Strip(v)))
    else Nada
  }

  /** The effect of one line of a document on the record being built. */
  function ParseLine(c: Contest, raw: string): Contest
  {
    match Classify(raw)
    case Nada => c
    case Cabecera(v) => map["enfrentamiento" := Texto(v)]
    case Par(k, v) => c[k := Convert(k, v)]
  }

  /** Blank lines and comments leave the record alone. */
  lemma CommentIgnored(c: Contest, raw: string)
    requires Strip(raw) == "" || StartsWith(Strip(raw), "#")
    ensures ParseLine(c, raw) == c
  {
  }

  /** A header line starts a fresh record holding only `enfrentamiento`,
      whatever came before it in the document. */
  lemma HeaderResets(c: Contest, raw: string)
    requires StartsWith(Strip(raw), Header)
    ensures ParseLine(c, raw).Keys == {"enfrentamiento"} && ParseLine(c, raw)["enfrentamiento"].Texto?
  {
    assert Strip(raw)[0] == '-';
  }

  /** A `key: value` line sets its key, converted to the key's type, and
      leaves every other key alone. */
  lemma KeyLineSets(c: Contest, raw: string)
    requires Classify(raw).Par?
    ensures var k := Classify(raw).clave;
      var r := ParseLine(c, raw);
      r.Keys == c.Keys + {k} && r[k] == Convert(k, Classify(raw).valor) &&
      forall j :: j in c && j != k ==> r[j] == c[j]
  {
  }

  /** Each line keeps the record well typed. */
  lemma ParseLineWellTyped(c: Contest, raw: string)
    requires WellTyped(c)
    ensures WellTyped(ParseLine(c, raw))
  {
  }

  /** The record built from the lines of a document, from the empty
      dictionary, one line after the other. */
  function ParseLines(lines: seq<string>): Contest
  {
    if |lines| == 0 then map[] else ParseLine(ParseLines(lines[..|lines| - 1]), lines[|lines| - 1])
  }

  /** The record of a document is well typed. */
  lemma {:induction false} ParseLinesWellTyped(lines: seq<string>)
    ensures WellTyped(ParseLines(lines))
  {
    if |lines| > 0 {
      ParseLinesWellTyped(lines[..|lines| - 1]);
      ParseLineWellTyped(ParseLines(lines[..|lines| - 1]), lines[|lines| - 1]);
    }
  }

  /** Whether a record is kept: it holds `ganador`, `puntos` or
      `enfrentamiento`. */
  predicate Keep(c: Contest)
  {
    |c| > 0 && ("ganador" in c || "puntos" in c || "enfrentamiento" in c)
  }

  /** The record one document yields, tagged with the file's base name, or
      None when the document is blank or its record is not kept. */
  function ParseDoc(doc: string, file: string): (r: Option<Contest>)
    ensures r.Some? ==> WellTyped(r.value) && "file" in r.value && r.value["file"] == Texto(file)
    ensures r.Some? ==> "ganador" in r.value || "puntos" in r.value || "enfrentamiento" in r.value
    ensures Strip(doc) == "" ==> r.None?
  {
    var d := Strip(doc);
    if d == "" then None
    else
      var c := ParseLines(Split(d, "\n"));
      ParseLinesWellTyped(Split(d, "\n"));
      if Keep(c) then Some(c["file" := Texto(file)]) else None
  }

  /** The records of the documents in order, at most one per document. */
  function ParseDocs(docs: seq<string>, file: string): (r: seq<Contest>)
    ensures |r| <= |docs|
    ensures forall i :: 0 <= i < |r| ==> WellTyped(r[i]) && "file" in r[i] && r[i]["file"] == Texto(file)
  {
    if |docs| == 0 then []
    else
      ParseDocs(docs[..|docs| - 1], file) +
      match ParseDoc(docs[|docs| - 1], file) case Some(c) => [c] case None => []
  }

  /** `_parse_contest_file` on the text of a file: the records of its
      documents, nothing for a blank file. */
  function ParseContent(content: string, file: string): seq<Contest>
  {
    var s := Strip(content);
    if s == "" then [] else ParseDocs(Split(s, "---"), file)
  }

  /** The records of two runs of documents are those of each run. */
  lemma {:induction false} ParseDocsAppend(a: seq<string>, b: seq<string>, file: string)
    ensures ParseDocs(a + b, file) == ParseDocs(a, file) + ParseDocs(b, file)
    decreases |b|
  {
    if |b| > 0 {
      var b' := b[..|b| - 1];
      assert (a + b)[..|a + b| - 1] == a + b';
      assert (a + b)[|a + b| - 1] == b[|b| - 1];
      ParseDocsAppend(a, b', file);
    } else {
      assert a + b == a;
    }
  }
}
