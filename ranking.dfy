/** `RankingSystem`: the contests loaded from the daily logs, the rankings
    computed from them, the report built on the rankings, and the writer
    that appends one result to the day's log. Files are given as their
    path and their text; reading and writing them is left to the caller. */
module Ranking {
  import opened Py
  import opened PyStr
  import opened Registro
  import opened Tabla
  import opened Informe
  import opened Grafica
  import opened Escritura

  /** `os.path.basename(p)`: what follows the last `/`. */
  function Basename(p: string): (r: string)
    ensures '/' !in r && |r| <= |p| && r == p[|p| - |r|..]
    ensures |r| < |p| ==> p[|p| - |r| - 1] == '/'
  {
    if |p| == 0 || p[|p| - 1] == '/' then "" else Basename(p[..|p| - 1]) + [p[|p| - 1]]
  }

  /** A file as `glob` finds it: its path and its text. */
  datatype Archivo = Archivo(path: string, content: string)

  /** The records of the files, one file after the other, each tagged with
      the file's base name. */
  function Loaded(files: seq<Archivo>): seq<Contest>
  {
    if |files| == 0 then []
    else
      var f := files[|files| - 1];
      Loaded(files[..|files| - 1]) + ParseContent(f.content, Basename(f.path))
  }

  /** The name of the day's log, `competencias_<yymmdd>.yml`. */
  function DailyFile(day: string): string
  {
    "competencias_" + day + ".yml"
  }

  class RankingSystem {
    var resultsDir: string
    var contests: seq<Contest>
    var rankings: Tabla

    constructor (dir: string)
      ensures resultsDir == dir && contests == [] && rankings == Tabla(map[], [])
    {
      resultsDir := dir;
      contests := [];
      rankings := Tabla(map[], []);
    }

    /** `load_contest_files`: forget the contests held, then parse every
        file in the order given; the number of files. */
    method LoadContestFiles(files: seq<Archivo>) returns (n: nat)
      modifies this
      ensures contests == Loaded(files) && n == |files|
      ensures rankings == old(rankings) && resultsDir == old(resultsDir)
    {
      contests := [];
      var i := 0;
      while i < |files|
        invariant 0 <= i <= |files|
        invariant contests == Loaded(files[..i])
        invariant rankings == old(rankings) && resultsDir == old(resultsDir)
      {
        ParseContestFile(files[i].content, Basename(files[i].path));
        LoadedSnoc(files, i);
        i := i + 1;
      }
      assert files[..i] == files;
      n := |files|;
    }

    /** `_parse_contest_file` on the text of a file: the records of its
        documents are appended to the contests, in order. */
    method ParseContestFile(text: string, file: string)
      modifies this
      ensures contests == old(contests) + ParseContent(text, file)
      ensures rankings == old(rankings) && resultsDir == old(resultsDir)
    {
      var content := Strip(text);
      if content == "" {
        return;
      }
      var records := ParseDocuments(Split(content, "---"), file);
      contests := contests + records;
    }

    /** The loop of `_parse_contest_file` over the documents of a file:
        their records, in order. */
    static method ParseDocuments(documents: seq<string>, file: string) returns (records: seq<Contest>)
      ensures records == ParseDocs(documents, file)
    {
      records := [];
      var i := 0;
      while i < |documents|
        invariant 0 <= i <= |documents|
        invariant records == ParseDocs(documents[..i], file)
      {
        var found := ParseRecord(documents[i], file);
        DocsSnoc(documents, i, file);
        if found.Some? {
          records := records + [found.value];
        }
        i := i + 1;
      }
      assert documents[..i] == documents;
    }

    /** The body of the loop of `_parse_contest_file` over the documents:
        the record one document yields, tagged with the file, if it is
        kept. */
    static method ParseRecord(document: string, file: string) returns (found: Option<Contest>)
      ensures found == ParseDoc(document, file)
    {
      var doc := Strip(document);
      if doc == "" {
        return None;
      }
      var contest := ParseDocument(doc);
      if |contest| > 0 && ("ganador" in contest || "puntos" in contest || "enfrentamiento" in contest) {
        found := Some(contest["file" := Texto(file)]);
      } else {
        found := None;
      }
    }

    /** The record one stripped document builds, line after line. */
    static method ParseDocument(doc: string) returns (contest: Contest)
      ensures contest == ParseLines(Split(doc, "\n"))
    {
      var lines := Split(doc, "\n");
      contest := map[];
      var j := 0;
      while j < |lines|
        invariant 0 <= j <= |lines|
        invariant contest == ParseLines(lines[..j])
      {
        assert lines[..j + 1][..j] == lines[..j];
        contest := ParseLine(contest, lines[j]);
        j := j + 1;
      }
      assert lines[..j] == lines;
    }

    /** `self.rankings[n][...] += ...` for the counters d. */
    method Inc(n: string, d: Stats)
      modifies this
      ensures rankings == Bump(old(rankings), n, d)
      ensures contests == old(contests) && resultsDir == old(resultsDir)
    {
      rankings := Bump(rankings, n, d);
    }

    /** `calculate_rankings`: the rankings of the contests held, and their
        entries with the averages filled in, in the dictionary's order. */
    method CalculateRankings() returns (entries: seq<Fila>)
      modifies this
      ensures rankings == Tally(contests) && entries == Entries(rankings)
      ensures contests == old(contests) && resultsDir == old(resultsDir)
    {
      rankings := Tabla(map[], []);
      var i := 0;
      while i < |contests|
        invariant 0 <= i <= |contests|
        invariant rankings == Tally(contests[..i])
        invariant contests == old(contests) && resultsDir == old(resultsDir)
      {
        TallySnoc(contests, i);
        var contest := contests[i];
        var col1, col2 := Name1(contest), Name2(contest);
        var winner, points := Winner(contest), Points(contest);
        Inc(col1, AddContest());
        Inc(col2, AddContest());
        if winner == col1 {
          Inc(col1, AddWin(points));
          Inc(col2, AddLoss());
        } else if winner == col2 {
          Inc(col2, AddWin(points));
          Inc(col1, AddLoss());
        } else {
          Inc(col1, AddDraw());
          Inc(col2, AddDraw());
        }
        i := i + 1;
      }
      assert contests[..i] == contests;
      entries := Averages(rankings);
    }

    /** The loop of `calculate_rankings` over `self.rankings.items()` that
        fills in `avg_points` and `win_rate`: the entries in the
        dictionary's order. */
    static method Averages(t: Tabla) returns (entries: seq<Fila>)
      ensures entries == Entries(t)
    {
      var names := t.order;
      entries := [];
      var k := 0;
      while k < |names|
        invariant 0 <= k <= |names|
        invariant entries == Rows(t, names[..k])
      {
        assert names[..k + 1][..k] == names[..k];
        entries := entries + [Row(t, names[k])];
        k := k + 1;
      }
      assert names[..k] == names;
    }

    /** `generate_ranking_report(top_n)`: the report on the rankings of
        the contests held. */
    method GenerateRankingReport(topN: int) returns (report: Informe)
      modifies this
      ensures report == Report(Tally(contests), |contests|, topN)
      ensures rankings == Tally(contests)
      ensures contests == old(contests) && resultsDir == old(resultsDir)
    {
      var entries := CalculateRankings();
      if |rankings.stats| == 0 {
        return NoData;
      }
      var sorted := Sort(entries);
      var more := if |sorted| > topN then Some(|sorted| - topN) else None;
      report := Ranked(|contests|, |rankings.stats|, Take(sorted, topN), more);
    }

    /** `guardar_resultado_competencia(r)` on the day's log: the log with
        the separator when it holds records, then the lines of r, written
        one by one. A clean result is read back from the new log after the
        records the log held. */
    method GuardarResultadoCompetencia(log: string, r: Resultado, day: string) returns (written: string)
      ensures written == Appended(log, r)
      ensures Clean(r) ==>
        ParseContent(written, DailyFile(day)) ==
        ParseContent(log, DailyFile(day)) + [Fields(r)["file" := Texto(DailyFile(day))]]
    {
      var sep := if HasRecords(log) then "\n---\n" else "";
      written := Write(log + sep, RecordLines(r));
      assert written == Appended(log, r);
      if Clean(r) {
        AppendRecord(log, r, DailyFile(day));
      }
    }

    /** Successive `f.write(line + "\n")` calls on an open file holding
        text. */
    static method Write(text: string, lines: seq<string>) returns (written: string)
      ensures written == text + Lines(lines)
    {
      written := text;
      var k := 0;
      while k < |lines|
        invariant 0 <= k <= |lines|
        invariant written == text + Lines(lines[..k])
      {
        LinesSnoc(lines, k);
        written := written + lines[k] + "\n";
        k := k + 1;
      }
      assert lines[..k] == lines;
    }
  }

  /** One more document adds its record, if any. */
  lemma DocsSnoc(docs: seq<string>, i: nat, file: string)
    requires i < |docs|
    ensures var found := ParseDoc(docs[i], file);
      ParseDocs(docs[..i + 1], file) == ParseDocs(docs[..i], file) + (if found.Some? then [found.value] else [])
  {
    assert docs[..i + 1][..i] == docs[..i];
  }

  /** One more file adds its records after those of the files before it. */
  lemma LoadedSnoc(files: seq<Archivo>, i: nat)
    requires i < |files|
    ensures Loaded(files[..i + 1]) == Loaded(files[..i]) + ParseContent(files[i].content, Basename(files[i].path))
  {
    assert files[..i + 1][..i] == files[..i];
  }

  /** One more contest is one more step of the tally. */
  lemma TallySnoc(cs: seq<Contest>, i: nat)
    requires i < |cs|
    ensures Tally(cs[..i + 1]) == Apply(Tally(cs[..i]), cs[i])
  {
    assert cs[..i + 1][..i] == cs[..i];
  }

  /** One more line written is one more line of text. */
  lemma LinesSnoc(ls: seq<string>, k: nat)
    requires k < |ls|
    ensures forall t: string :: t + Lines(ls[..k]) + ls[k] + "\n" == t + Lines(ls[..k + 1])
  {
    assert ls[..k + 1][..k] == ls[..k];
  }
}
