/**
 * The Markdown report: a list of text pieces grown in a fixed section order
 * (title, one bullet per metric, two lines per figure, fixed notes) and then
 * joined. Writing the text to a file is not modelled.
 */
module Report {

  /** A metric name and the `str()` rendering of its value, in the order the
      metrics dictionary was filled. */
  type Metric = (string, string)

  /** A figure title and the figure's path relative to the report. */
  type Figure = (string, string)

  const Title: string := "# ChurnPulse Report\n\n"
  const MetricsHeading: string := "## Metrics\n"
  const FiguresHeading: string := "\n## Figures\n"
  const NotesHeading: string := "\n## Notes & Limitations\n"
  const Note1: string := "- Baseline, interpretable model (logistic regression).\n"
  const Note2: string := "- Results depend on dataset version and preprocessing choices.\n"
  const Note3: string := "- Use for decision support; avoid using as sole decision-maker.\n"

  /** `f"- **{k}**: {v}\n"` */
  function MetricLine(m: Metric): string
  {
    "- **" + m.0 + "**: " + m.1 + "\n"
  }

  /** `f"### {title}\n"` */
  function FigureHeading(f: Figure): string
  {
    "### " + f.0 + "\n"
  }

  /** `f"![{title}]({relpath})\n"` */
  function FigureLink(f: Figure): string
  {
    "![" + f.0 + "](" + f.1 + ")\n"
  }

  /** `"".join(pieces)` */
  function Join(pieces: seq<string>): string
  {
    if pieces == [] then "" else Join(pieces[..|pieces| - 1]) + pieces[|pieces| - 1]
  }

  /** The pieces appended for the metrics: one bullet each, in order. */
  function MetricLines(ms: seq<Metric>): (r: seq<string>)
    ensures |r| == |ms|
  {
    seq(|ms|, i requires 0 <= i < |ms| => MetricLine(ms[i]))
  }

  /** The pieces appended for the figures: a heading and an image link
      each, in order. */
  function FigureLines(fs: seq<Figure>): (r: seq<string>)
    ensures |r| == 2 * |fs|
  {
    if fs == [] then []
    else FigureLines(fs[..|fs| - 1]) + [FigureHeading(fs[|fs| - 1]), FigureLink(fs[|fs| - 1])]
  }

  const NotesLines: seq<string> := [NotesHeading, Note1, Note2, Note3]

  /** Every piece of the report, in the order it is appended. */
  function ReportPieces(ms: seq<Metric>, fs: seq<Figure>): (r: seq<string>)
    ensures |r| == 7 + |ms| + 2 * |fs|
  {
    [Title, MetricsHeading] + MetricLines(ms) + [FiguresHeading] + FigureLines(fs) + NotesLines
  }

  /** The report's text. */
  function ReportText(ms: seq<Metric>, fs: seq<Figure>): string
  {
    Join(ReportPieces(ms, fs))
  }

  /** The closing notes section. */
  function NotesBlock(): string
  {
    Join(NotesLines)
  }

  function MetricsBlock(ms: seq<Metric>): string
  {
    Join(MetricLines(ms))
  }

  function FiguresBlock(fs: seq<Figure>): string
  {
    Join(FigureLines(fs))
  }

  /** Builds the report as the source does: appends pieces to a list in
      section order, then joins them. */
  method WriteMarkdownReport(metrics: seq<Metric>, figures: seq<Figure>) returns (text: string)
    ensures text == ReportText(metrics, figures)
  {
    var md: seq<string> := [];
    md := md + [Title];
    md := md + [MetricsHeading];
    ghost var start := md;
    for i := 0 to |metrics|
      invariant md == start + MetricLines(metrics[..i])
    {
      md := md + [MetricLine(metrics[i])];
      assert MetricLines(metrics[..i + 1]) == MetricLines(metrics[..i]) + [MetricLine(metrics[i])];
    }
    assert metrics[..|metrics|] == metrics;
    md := md + [FiguresHeading];
    ghost var head := md;
    for i := 0 to |figures|
      invariant md == head + FigureLines(figures[..i])
    {
      var (title, relpath) := figures[i];
      md := md + [FigureHeading((title, relpath))];
      md := md + [FigureLink((title, relpath))];
      assert figures[..i + 1][..i] == figures[..i];
    }
    assert figures[..|figures|] == figures;
    ghost var body := md;
    md := md + [NotesHeading];
    md := md + [Note1];
    md := md + [Note2];
    md := md + [Note3];
    assert md == body + NotesLines;
    assert start == [Title, MetricsHeading];
    text := Join(md);
  }

  /** Joining two runs of pieces joins each and concatenates. */
  lemma {:induction false} JoinConcat(a: seq<string>, b: seq<string>)
    ensures Join(a + b) == Join(a) + Join(b)
    decreases |b|
  {
    if b == [] {
      assert a + b == a;
    } else {
      var c := b[..|b| - 1];
      assert (a + b)[..|a + b| - 1] == a + c;
      JoinConcat(a, c);
    }
  }

  lemma JoinOne(p: string)
    ensures Join([p]) == p
  {
    assert [p][..0] == [];
  }

  lemma JoinFour(a: string, b: string, c: string, d: string)
    ensures Join([a, b, c, d]) == a + b + c + d
  {
    assert [a, b, c, d][..3] == [a, b, c];
    assert [a, b, c][..2] == [a, b];
    assert [a, b][..1] == [a];
    JoinOne(a);
    assert Join([a, b]) == a + b;
    assert Join([a, b, c]) == a + b + c;
  }

  /** The notes section is the heading and the three notes, in order. */
  lemma NotesText()
    ensures NotesBlock() == NotesHeading + Note1 + Note2 + Note3
  {
    JoinFour(NotesHeading, Note1, Note2, Note3);
  }

  lemma JoinSections(t: string, mh: string, m: seq<string>, fh: string, f: seq<string>, n: seq<string>)
    ensures Join([t, mh] + m + [fh] + f + n) == t + mh + Join(m) + fh + Join(f) + Join(n)
  {
    JoinConcat([t, mh] + m + [fh] + f, n);
    JoinConcat([t, mh] + m + [fh], f);
    JoinConcat([t, mh] + m, [fh]);
    JoinConcat([t, mh], m);
    JoinConcat([t], [mh]);
    JoinOne(t);
    JoinOne(mh);
    JoinOne(fh);
  }

  /** The report is its sections, one after the other. */
  lemma ReportSections(ms: seq<Metric>, fs: seq<Figure>)
    ensures ReportText(ms, fs) ==
              Title + MetricsHeading + MetricsBlock(ms) + FiguresHeading + FiguresBlock(fs) + NotesBlock()
  {
    JoinSections(Title, MetricsHeading, MetricLines(ms), FiguresHeading, FigureLines(fs), NotesLines);
  }

  /** The metric bullets of two runs of metrics are the bullets of each. */
  lemma MetricsBlockAppend(a: seq<Metric>, b: seq<Metric>)
    ensures MetricsBlock(a + b) == MetricsBlock(a) + MetricsBlock(b)
  {
    assert MetricLines(a + b) == MetricLines(a) + MetricLines(b);
    JoinConcat(MetricLines(a), MetricLines(b));
  }

  lemma {:induction false} FigureLinesAppend(a: seq<Figure>, b: seq<Figure>)
    ensures FigureLines(a + b) == FigureLines(a) + FigureLines(b)
    decreases |b|
  {
    if b == [] {
      assert a + b == a;
    } else {
      var c, x := b[..|b| - 1], b[|b| - 1];
      assert (a + b)[..|a + b| - 1] == a + c;
      assert (a + b)[|a + b| - 1] == x;
      FigureLinesAppend(a, c);
    }
  }

  /** The figure entries of two runs of figures are the entries of each. */
  lemma FiguresBlockAppend(a: seq<Figure>, b: seq<Figure>)
    ensures FiguresBlock(a + b) == FiguresBlock(a) + FiguresBlock(b)
  {
    FigureLinesAppend(a, b);
    JoinConcat(FigureLines(a), FigureLines(b));
  }

  /** Title and Metrics heading, as one text. */
  lemma HeaderText()
    ensures Title + MetricsHeading == "# ChurnPulse Report\n\n## Metrics\n"
  {
  }

  lemma PrefixOf(h: string, rest: string)
    ensures |h + rest| >= |h| && (h + rest)[..|h|] == h
  {
  }

  lemma SuffixOf(rest: string, t: string)
    ensures |rest + t| >= |t| && (rest + t)[|rest + t| - |t|..] == t
  {
  }

  /** The report opens with the title and the Metrics heading. */
  lemma ReportStartsWithHeader(ms: seq<Metric>, fs: seq<Figure>)
    ensures var text, header := ReportText(ms, fs), "# ChurnPulse Report\n\n## Metrics\n";
            |text| >= |header| && text[..|header|] == header
  {
    ReportSections(ms, fs);
    var h, rest := Title + MetricsHeading, MetricsBlock(ms) + FiguresHeading + FiguresBlock(fs) + NotesBlock();
    assert ReportText(ms, fs) == h + rest;
    PrefixOf(h, rest);
    HeaderText();
  }

  /** Whatever the metrics and figures, the report closes with the notes. */
  lemma ReportEndsWithNotes(ms: seq<Metric>, fs: seq<Figure>)
    ensures var text, notes := ReportText(ms, fs),
              "\n## Notes & Limitations\n" +
              "- Baseline, interpretable model (logistic regression).\n" +
              "- Results depend on dataset version and preprocessing choices.\n" +
              "- Use for decision support; avoid using as sole decision-maker.\n";
            |text| >= |notes| && text[|text| - |notes|..] == notes
  {
    ReportSections(ms, fs);
    var rest := Title + MetricsHeading + MetricsBlock(ms) + FiguresHeading + FiguresBlock(fs);
    SuffixOf(rest, NotesBlock());
    NotesText();
  }

  /** With no metrics and no figures the report is the fixed skeleton. */
  lemma EmptyReport()
    ensures ReportText([], []) ==
              "# ChurnPulse Report\n\n" + "## Metrics\n" + "\n## Figures\n" + "\n## Notes & Limitations\n" +
              "- Baseline, interpretable model (logistic regression).\n" +
              "- Results depend on dataset version and preprocessing choices.\n" +
              "- Use for decision support; avoid using as sole decision-maker.\n"
  {
    ReportSections([], []);
    assert MetricsBlock([]) == [] && FiguresBlock([]) == [];
    var t := Title + MetricsHeading;
    assert t + MetricsBlock([]) == t;
    var u := t + FiguresHeading;
    assert u + FiguresBlock([]) == u;
    NotesText();
  }

  /** Metric `i` contributes its bullet right after the bullets of the
      metrics before it, and every bullet precedes the Figures heading. */
  lemma MetricLineInPlace(ms: seq<Metric>, fs: seq<Figure>, i: nat)
    requires i < |ms|
    ensures ReportText(ms, fs) ==
              Title + MetricsHeading + MetricsBlock(ms[..i]) + MetricLine(ms[i]) +
              MetricsBlock(ms[i + 1..]) + FiguresHeading + FiguresBlock(fs) + NotesBlock()
  {
    ReportSections(ms, fs);
    MetricsBlockSplit(ms, i);
  }

  lemma MetricsBlockSplit(ms: seq<Metric>, i: nat)
    requires i < |ms|
    ensures MetricsBlock(ms) == MetricsBlock(ms[..i]) + MetricLine(ms[i]) + MetricsBlock(ms[i + 1..])
  {
    assert ms == (ms[..i] + [ms[i]]) + ms[i + 1..];
    MetricsBlockAppend(ms[..i] + [ms[i]], ms[i + 1..]);
    MetricsBlockAppend(ms[..i], [ms[i]]);
    assert MetricLines([ms[i]]) == [MetricLine(ms[i])];
    JoinOne(MetricLine(ms[i]));
  }

  /** One figure gives its heading line and then its image line. */
  lemma FigureBlockOne(f: Figure)
    ensures FiguresBlock([f]) == FigureHeading(f) + FigureLink(f)
  {
    var pair := [FigureHeading(f), FigureLink(f)];
    assert [f][..0] == [];
    assert FigureLines([f]) == pair;
    JoinConcat([pair[0]], [pair[1]]);
    JoinOne(pair[0]);
    JoinOne(pair[1]);
    assert [pair[0]] + [pair[1]] == pair;
  }

  /** Figure `j` contributes its heading line and then its image line, after
      the entries of the figures before it and before the notes. */
  lemma FigureInPlace(ms: seq<Metric>, fs: seq<Figure>, j: nat)
    requires j < |fs|
    ensures ReportText(ms, fs) ==
              Title + MetricsHeading + MetricsBlock(ms) + FiguresHeading +
              FiguresBlock(fs[..j]) + FigureHeading(fs[j]) + FigureLink(fs[j]) +
              FiguresBlock(fs[j + 1..]) + NotesBlock()
  {
    ReportSections(ms, fs);
    FiguresBlockSplit(fs, j);
  }

  lemma FiguresBlockSplit(fs: seq<Figure>, j: nat)
    requires j < |fs|
    ensures FiguresBlock(fs) == FiguresBlock(fs[..j]) + FigureHeading(fs[j]) + FigureLink(fs[j]) + FiguresBlock(fs[j + 1..])
  {
    assert fs == (fs[..j] + [fs[j]]) + fs[j + 1..];
    FiguresBlockAppend(fs[..j] + [fs[j]], fs[j + 1..]);
    FiguresBlockAppend(fs[..j], [fs[j]]);
    FigureBlockOne(fs[j]);
  }

  /** A metric whose name and value hold no line break gives exactly one
      line. */
  lemma MetricIsOneLine(m: Metric)
    requires '\n' !in m.0 && '\n' !in m.1
    ensures var line := MetricLine(m); line[|line| - 1] == '\n' && '\n' !in line[..|line| - 1]
  {
    var line := MetricLine(m);
    assert line[..|line| - 1] == "- **" + m.0 + "**: " + m.1;
  }
}
