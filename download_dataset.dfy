/** scripts/download_dataset.py: the computer-science filter over the
    line-delimited arXiv metadata, and the synthetic sample dataset used
    when the download is unavailable. */
module DownloadDataset {
  import opened Optional
  import opened Text
  import Decimal
  import Batching

  // ------------------------------------------------------------ data model

  /** The `categories` value of a raw record: absent, a space-separated
      string (the arXiv dump's form) or an already split list. */
  datatype Categories = CatsMissing | CatsString(text: string) | CatsList(tags: seq<string>)

  /** A parsed line of the dump; `None` is a key the JSON object lacks. */
  datatype RawPaper = RawPaper(
    id: Option<string>,
    title: Option<string>,
    abstractText: Option<string>,
    categories: Categories,
    authors: Option<string>,
    updateDate: Option<string>)

  /** One input line: a JSON object, or text `json.loads` rejects. */
  datatype Line = Parsed(paper: RawPaper) | Malformed

  /** A record of the filtered dataset (and of the sample dataset). */
  datatype CsPaper = CsPaper(
    id: string,
    title: string,
    abstractText: string,
    categories: seq<string>,
    authors: string,
    updateDate: string)

  const CsPrefix: string := "cs."

  // ------------------------------------------------------ category filter

  /** `paper.get('categories', '')`, split on whitespace when it is a string. */
  function Tags(c: Categories): seq<string> {
    match c
    case CatsMissing => Split("")
    case CatsString(t) => Split(t)
    case CatsList(ts) => ts
  }

  /** `any(cat.startswith('cs.') for cat in tags)` */
  function AnyCs(tags: seq<string>): bool {
    if tags == [] then false else StartsWith(tags[0], CsPrefix) || AnyCs(tags[1..])
  }

  /** `[cat for cat in tags if cat.startswith('cs.')]` */
  function CsTags(tags: seq<string>): seq<string> {
    if tags == [] then []
    else if StartsWith(tags[0], CsPrefix) then [tags[0]] + CsTags(tags[1..])
    else CsTags(tags[1..])
  }

  /** The narrowed list holds exactly the tags with the `cs.` prefix:
      membership both ways (order and multiplicity: `CsTagsAppend`). */
  lemma {:induction false} CsTagsMembers(tags: seq<string>)
    ensures forall t :: t in CsTags(tags) <==> t in tags && StartsWith(t, CsPrefix)
    ensures |CsTags(tags)| <= |tags|
  {
    if tags != [] {
      CsTagsMembers(tags[1..]);
      assert tags == [tags[0]] + tags[1..];
    }
  }

  /** The narrowing distributes over concatenation, and keeps a single
      tag exactly when it has the prefix: so it keeps every prefixed tag
      with its multiplicity and in input order. */
  lemma {:induction false} CsTagsAppend(a: seq<string>, b: seq<string>)
    ensures CsTags(a + b) == CsTags(a) + CsTags(b)
    ensures forall t :: CsTags([t]) == if StartsWith(t, CsPrefix) then [t] else []
  {
    if a != [] {
      assert (a + b)[1..] == a[1..] + b;
      CsTagsAppend(a[1..], b);
    } else {
      assert a + b == b;
    }
  }

  /** The test `any(...)` succeeds exactly when the narrowed list is
      non-empty, which is exactly when some tag has the prefix. */
  lemma {:induction false} AnyCsIffCsTags(tags: seq<string>)
    ensures AnyCs(tags) <==> CsTags(tags) != []
    ensures AnyCs(tags) <==> exists k :: 0 <= k < |tags| && StartsWith(tags[k], CsPrefix)
  {
    if tags != [] {
      AnyCsIffCsTags(tags[1..]);
      if exists k :: 0 <= k < |tags| && StartsWith(tags[k], CsPrefix) {
        var k :| 0 <= k < |tags| && StartsWith(tags[k], CsPrefix);
        if k > 0 {
          assert tags[1..][k - 1] == tags[k];
        }
      }
      if AnyCs(tags[1..]) {
        var k :| 0 <= k < |tags[1..]| && StartsWith(tags[1..][k], CsPrefix);
        assert tags[k + 1] == tags[1..][k];
      }
    }
  }

  /** Narrowing twice is narrowing once. */
  lemma {:induction false} CsTagsIdempotent(tags: seq<string>)
    ensures CsTags(CsTags(tags)) == CsTags(tags)
  {
    if tags != [] {
      CsTagsIdempotent(tags[1..]);
    }
  }

  /** `s.replace('\n', ' ').strip()` */
  function Normalize(s: string): string {
    Strip(ReplaceChar(s, '\n', ' '))
  }

  /** A normalised text has no newline and no whitespace at either end,
      and keeps every non-whitespace character of the original in order. */
  lemma NormalizeSpec(s: string)
    ensures '\n' !in Normalize(s)
    ensures Normalize(s) == [] || (!IsSpace(Normalize(s)[0]) && !IsSpace(Normalize(s)[|Normalize(s)| - 1]))
    ensures NonSpace(Normalize(s)) == NonSpace(s)
  {
    var t := ReplaceChar(s, '\n', ' ');
    ReplaceCharAt(s, '\n', ' ');
    assert '\n' !in t by {
      forall k | 0 <= k < |t| ensures t[k] != '\n' { }
    }
    StripEnds(t);
    StripKeepsCharacters(t);
    StripKeepsNonSpace(t);
    ReplaceKeepsNonSpace(s);
  }

  lemma {:induction false} ReplaceKeepsNonSpace(s: string)
    ensures NonSpace(ReplaceChar(s, '\n', ' ')) == NonSpace(s)
  {
    if s != [] {
      ReplaceKeepsNonSpace(s[1..]);
      assert ReplaceChar(s, '\n', ' ')[1..] == ReplaceChar(s[1..], '\n', ' ');
    }
  }

  /** The record kept for a parsed paper, or `None` when it has no
      computer-science tag. */
  function Select(p: RawPaper): (r: Option<CsPaper>)
    ensures r.Some? <==> AnyCs(Tags(p.categories))
  {
    var tags := Tags(p.categories);
    if AnyCs(tags) then
      Some(CsPaper(
        p.id.GetOr(""),
        Normalize(p.title.GetOr("")),
        Normalize(p.abstractText.GetOr("")),
        CsTags(tags),
        p.authors.GetOr(""),
        p.updateDate.GetOr("")))
    else None
  }

  /** Selection, field by field: kept iff some tag has the prefix; the
      kept categories are the non-empty, prefixed subsequence of the tags;
      texts lose their newlines; missing keys become empty strings. */
  lemma SelectSpec(p: RawPaper)
    ensures Select(p).Some? <==>
            exists k :: 0 <= k < |Tags(p.categories)| && StartsWith(Tags(p.categories)[k], CsPrefix)
    ensures Select(p).Some? ==>
              var c := Select(p).value;
              && c.categories != []
              && (forall t :: t in c.categories <==> t in Tags(p.categories) && StartsWith(t, CsPrefix))
              && '\n' !in c.title && '\n' !in c.abstractText
              && c.id == p.id.GetOr("") && c.authors == p.authors.GetOr("")
              && c.updateDate == p.updateDate.GetOr("")
  {
    var tags := Tags(p.categories);
    AnyCsIffCsTags(tags);
    CsTagsMembers(tags);
    NormalizeSpec(p.title.GetOr(""));
    NormalizeSpec(p.abstractText.GetOr(""));
  }

  /** A record without `categories` reads as `''`, has no tags, and is
      never kept; so is one whose category string is blank. */
  lemma MissingCategoriesNeverKept(p: RawPaper)
    requires p.categories == CatsMissing || (p.categories.CatsString? && forall k :: 0 <= k < |p.categories.text| ==> IsSpace(p.categories.text[k]))
    ensures Select(p) == None
  {
    if p.categories.CatsString? {
      SplitBlank(p.categories.text);
    }
  }

  // ------------------------------------------------------ the filter loop
  //
  // The loop is stated for any per-record selection `select`; the filter
  // itself runs it with `Select`.

  type Selection = RawPaper -> Option<CsPaper>

  /** What one line contributes: the selected record of a parsed line,
      nothing for a malformed one. */
  function Outcome(line: Line, select: Selection): Option<CsPaper> {
    if line.Parsed? then select(line.paper) else None
  }

  function Emit(o: Option<CsPaper>): seq<CsPaper> {
    if o.Some? then [o.value] else []
  }

  /** The papers kept from `lines`, in input order, with no cap. */
  function Matches(lines: seq<Line>, select: Selection): seq<CsPaper> {
    if lines == [] then [] else Matches(lines[..|lines| - 1], select) + Emit(Outcome(lines[|lines| - 1], select))
  }

  /** How many lines of `lines` parse. */
  function ParsedCount(lines: seq<Line>): nat {
    if lines == [] then 0
    else ParsedCount(lines[..|lines| - 1]) + (if lines[|lines| - 1].Parsed? then 1 else 0)
  }

  lemma {:induction false} MatchesAppend(a: seq<Line>, b: seq<Line>, select: Selection)
    ensures Matches(a + b, select) == Matches(a, select) + Matches(b, select)
    decreases |b|
  {
    if b == [] {
      assert a + b == a;
    } else {
      assert (a + b)[..|a + b| - 1] == a + b[..|b| - 1];
      MatchesAppend(a, b[..|b| - 1], select);
    }
  }

  /** No more papers are kept than lines parsed. */
  lemma {:induction false} MatchesAtMostParsed(lines: seq<Line>, select: Selection)
    ensures |Matches(lines, select)| <= ParsedCount(lines)
  {
    if lines != [] {
      MatchesAtMostParsed(lines[..|lines| - 1], select);
    }
  }

  /** The effective cap: `max_papers` of `None` or `0` is falsy (no cap);
      any other value stops the loop once the kept count reaches it,
      which for a negative value is after the first kept paper. */
  function Cap(maxPapers: Option<int>): (r: Option<nat>)
    ensures r.Some? ==> r.value > 0
  {
    match maxPapers
    case None => None
    case Some(m) => if m == 0 then None else Some(if m < 1 then 1 else m)
  }

  /** Once a paper has been kept, the source's test
      `max_papers and len(cs_papers) >= max_papers` holds exactly when
      the kept count has reached the cap. */
  lemma CapMeansBreak(maxPapers: Option<int>, kept: nat)
    requires kept >= 1
    ensures (maxPapers.Some? && maxPapers.value != 0 && kept >= maxPapers.value) <==>
            (Cap(maxPapers).Some? && kept >= Cap(maxPapers).value)
  {
  }

  function Min(a: nat, b: nat): nat {
    if a <= b then a else b
  }

  /** One more line read: the kept papers and the parsed count grow by
      what that line contributes. */
  lemma MatchesStep(lines: seq<Line>, i: nat, select: Selection)
    requires i < |lines|
    ensures Matches(lines[..i + 1], select) == Matches(lines[..i], select) + Emit(Outcome(lines[i], select))
    ensures ParsedCount(lines[..i + 1]) == ParsedCount(lines[..i]) + (if lines[i].Parsed? then 1 else 0)
  {
    assert lines[..i + 1][..i] == lines[..i];
  }

  /** What the loop has kept when it stops after reading `i` lines: with
      no cap it has read everything and kept every match; with a cap it
      has kept the first `min(cap, #matches)` matches of the whole input. */
  lemma CapPrefix(lines: seq<Line>, i: nat, cap: Option<nat>, select: Selection)
    requires i <= |lines|
    requires cap.None? ==> i == |lines|
    requires cap.Some? ==> |Matches(lines[..i], select)| <= cap.value
    requires cap.Some? && i < |lines| ==> |Matches(lines[..i], select)| == cap.value
    ensures cap.None? ==> Matches(lines[..i], select) == Matches(lines, select)
    ensures cap.Some? ==> Matches(lines[..i], select) == Matches(lines, select)[..Min(cap.value, |Matches(lines, select)|)]
  {
    assert lines == lines[..i] + lines[i..];
    MatchesAppend(lines[..i], lines[i..], select);
    if i == |lines| {
      assert lines[i..] == [];
    }
  }

  /** The read loop: parse each line, skip malformed ones, keep what
      `select` keeps, and break once `cap` papers are kept. It reads every
      line unless the cap is reached, and stops on the very line that
      reaches it (`CapPrefix` turns this into "the first
      `min(cap, #matches)` matches"). */
  method FilterLines(lines: seq<Line>, cap: Option<nat>, select: Selection)
    returns (csPapers: seq<CsPaper>, totalProcessed: nat, linesRead: nat)
    requires cap.Some? ==> cap.value > 0
    ensures linesRead <= |lines|
    ensures csPapers == Matches(lines[..linesRead], select)
    ensures totalProcessed == ParsedCount(lines[..linesRead])
    ensures cap.None? ==> linesRead == |lines|
    ensures cap.Some? ==> |csPapers| <= cap.value
    ensures cap.Some? && linesRead < |lines| ==> |csPapers| == cap.value
    ensures cap.Some? && |csPapers| == cap.value ==>
              linesRead > 0 && |Matches(lines[..linesRead - 1], select)| == |csPapers| - 1
  {
    csPapers := [];
    totalProcessed := 0;
    var i := 0;
    var stopped := false;
    while i < |lines| && !stopped
      invariant 0 <= i <= |lines|
      invariant csPapers == Matches(lines[..i], select)
      invariant totalProcessed == ParsedCount(lines[..i])
      invariant stopped ==> cap.Some? && |csPapers| == cap.value
      invariant stopped ==> i > 0 && |Matches(lines[..i - 1], select)| == |csPapers| - 1
      invariant !stopped && cap.Some? ==> |csPapers| < cap.value
    {
      MatchesStep(lines, i, select);
      var line := lines[i];
      i := i + 1;
      if line.Parsed? {
        totalProcessed := totalProcessed + 1;
        var kept := select(line.paper);
        if kept.Some? {
          csPapers := csPapers + [kept.value];
          if cap.Some? && |csPapers| >= cap.value {
            stopped := true;
          }
        }
      }
    }
    linesRead := i;
  }

  /** `filter_cs_papers` without the file I/O: returns the count it
      reports, the kept papers it writes, the number of parsed lines it
      logs, and how many lines it read before stopping. The count is the
      number kept, which is at most the number of lines parsed. */
  method FilterCsPapers(lines: seq<Line>, maxPapers: Option<int>)
    returns (count: nat, csPapers: seq<CsPaper>, totalProcessed: nat, linesRead: nat)
    ensures count == |csPapers| <= totalProcessed
    ensures linesRead <= |lines|
    ensures csPapers == Matches(lines[..linesRead], Select)
    ensures totalProcessed == ParsedCount(lines[..linesRead])
    ensures Cap(maxPapers).None? ==> linesRead == |lines|
    ensures Cap(maxPapers).Some? ==> |csPapers| <= Cap(maxPapers).value
    ensures Cap(maxPapers).Some? && linesRead < |lines| ==> |csPapers| == Cap(maxPapers).value
    ensures Cap(maxPapers).Some? && |csPapers| == Cap(maxPapers).value ==>
              linesRead > 0 && |Matches(lines[..linesRead - 1], Select)| == |csPapers| - 1
  {
    csPapers, totalProcessed, linesRead := FilterLines(lines, Cap(maxPapers), Select);
    MatchesAtMostParsed(lines[..linesRead], Select);
    count := |csPapers|;
  }

  // ------------------------------------------------------- sample dataset

  const SampleCategories: seq<string> :=
    ["cs.AI", "cs.CL", "cs.CV", "cs.LG", "cs.NE", "cs.DB", "cs.DC", "cs.SE", "cs.PL", "cs.CR"]

  const Topics: seq<(string, string, string)> := [
    ("deep learning", "neural networks", "training"),
    ("natural language processing", "transformers", "attention"),
    ("computer vision", "image classification", "convolutional"),
    ("distributed systems", "consensus", "replication"),
    ("database systems", "query optimization", "indexing"),
    ("machine learning", "gradient descent", "optimization"),
    ("reinforcement learning", "policy", "reward"),
    ("graph neural networks", "node embeddings", "aggregation"),
    ("knowledge graphs", "reasoning", "embeddings"),
    ("federated learning", "privacy", "aggregation")]

  /** The topics as `str.title()` writes them: each word capitalised. */
  const TitledTopics: seq<(string, string, string)> := [
    ("Deep Learning", "Neural Networks", "Training"),
    ("Natural Language Processing", "Transformers", "Attention"),
    ("Computer Vision", "Image Classification", "Convolutional"),
    ("Distributed Systems", "Consensus", "Replication"),
    ("Database Systems", "Query Optimization", "Indexing"),
    ("Machine Learning", "Gradient Descent", "Optimization"),
    ("Reinforcement Learning", "Policy", "Reward"),
    ("Graph Neural Networks", "Node Embeddings", "Aggregation"),
    ("Knowledge Graphs", "Reasoning", "Embeddings"),
    ("Federated Learning", "Privacy", "Aggregation")]

  /** `f'{year:04d}.{serial:05d}'` */
  function Dotted(year: nat, serial: nat): string {
    Decimal.ZeroPad(year, 4) + "." + Decimal.ZeroPad(serial, 5)
  }

  /** `f'{2000 + i // 100:04d}.{i % 10000:05d}'` */
  function SampleId(i: nat): string {
    Dotted(2000 + i / 100, i % 10000)
  }

  /** `f'2023-{month:02d}-{day:02d}'` */
  function Date2023(month: nat, day: nat): string {
    "2023-" + Decimal.ZeroPad(month, 2) + "-" + Decimal.ZeroPad(day, 2)
  }

  /** `f'2023-{(i % 12) + 1:02d}-{(i % 28) + 1:02d}'` */
  function SampleDate(i: nat): string {
    Date2023(i % 12 + 1, i % 28 + 1)
  }

  function SampleAuthors(i: nat): string {
    "Author " + Decimal.Digits(i % 5 + 1) + ", Author " + Decimal.Digits((i + 1) % 5 + 1)
      + ", Author " + Decimal.Digits((i + 2) % 5 + 1)
  }

  /** The title, from the title-cased topic. */
  function SampleTitle(t: (string, string, string)): string {
    "Advances in " + t.0 + ": A Study of " + t.1 + " and " + t.2
  }

  const AbstractOpening: string := "This paper presents a comprehensive study of "
  const AbstractFocus: string := " with focus on "
  const AbstractMethod: string := ". We propose a novel approach using "
  const AbstractBody: string := " that achieves state-of-the-art results. Our method is evaluated on multiple benchmark datasets and demonstrates significant improvements over existing baselines. The experimental results show the effectiveness of our approach in various scenarios and highlight the importance of "
  const AbstractClosing: string := " in modern computer science applications."

  function SampleAbstract(t: (string, string, string)): string {
    AbstractOpening + t.0 + AbstractFocus + t.1 + AbstractMethod + t.2 + AbstractBody + t.0 + AbstractClosing
  }

  /** The `i`-th synthetic paper. */
  function SamplePaper(i: nat): CsPaper {
    var topic := Topics[i % |Topics|];
    CsPaper(
      SampleId(i),
      SampleTitle(TitledTopics[i % |TitledTopics|]),
      SampleAbstract(topic),
      [SampleCategories[i % |SampleCategories|]],
      SampleAuthors(i),
      SampleDate(i))
  }

  /** `[f(0), ..., f(n - 1)]` */
  function Tabulate<T>(n: nat, f: nat -> T): seq<T> {
    if n == 0 then [] else Tabulate(n - 1, f) + [f(n - 1)]
  }

  lemma {:induction false} TabulateAt<T>(n: nat, f: nat -> T)
    ensures |Tabulate(n, f)| == n
    ensures forall i :: 0 <= i < n ==> Tabulate(n, f)[i] == f(i)
  {
    if n > 0 {
      TabulateAt(n - 1, f);
    }
  }

  /** `for i in range(n): out.append(f(i))`: nothing for a non-positive
      `n`, otherwise `f(0)` to `f(n - 1)` in order. */
  method AppendEach<T>(n: int, f: nat -> T) returns (out: seq<T>)
    ensures out == Tabulate(if n > 0 then n else 0, f)
  {
    out := [];
    var i := 0;
    while i < n
      invariant 0 <= i && (n > 0 ==> i <= n) && (n <= 0 ==> i == 0)
      invariant out == Tabulate(i, f)
    {
      out := out + [f(i)];
      i := i + 1;
    }
  }

  /** The papers `create_sample_dataset(n)` generates. */
  function SampleDataset(numSamples: int): seq<CsPaper> {
    Tabulate(if numSamples > 0 then numSamples else 0, SamplePaper)
  }

  /** `create_sample_dataset(n)` generates `max(n, 0)` papers, entry `i`
      being `SamplePaper(i)`. */
  lemma SampleDatasetAt(numSamples: int)
    ensures |SampleDataset(numSamples)| == if numSamples > 0 then numSamples else 0
    ensures forall i :: 0 <= i < |SampleDataset(numSamples)| ==> SampleDataset(numSamples)[i] == SamplePaper(i)
  {
    TabulateAt(if numSamples > 0 then numSamples else 0, SamplePaper);
  }

  /** `create_sample_dataset` without the file write: the papers it would
      save and the count it returns (`num_samples` itself, even when it is
      negative and `range` yields nothing). */
  method CreateSampleDataset(numSamples: int) returns (count: int, samplePapers: seq<CsPaper>)
    ensures count == numSamples
    ensures samplePapers == SampleDataset(numSamples)
  {
    samplePapers := AppendEach(numSamples, SamplePaper);
    count := numSamples;
  }

  /** Every sample paper has one category, `cs_categories[i % 10]`, and so
      would pass the computer-science filter unchanged. */
  lemma SampleCategorySpec(i: nat)
    ensures SamplePaper(i).categories == [SampleCategories[i % 10]]
    ensures StartsWith(SamplePaper(i).categories[0], CsPrefix)
    ensures CsTags(SamplePaper(i).categories) == SamplePaper(i).categories
  {
    var c := SampleCategories[i % 10];
    assert c[..3] == "cs.";
  }

  /** A 2023 date with a month and a day below 100 is `2023-MM-DD`: ten
      characters whose month and day fields read back as the month and
      the day. */
  lemma Date2023Spec(month: nat, day: nat)
    requires month < 100 && day < 100
    ensures var d := Date2023(month, day);
      && |d| == 10 && d[..5] == "2023-" && d[7] == '-'
      && Decimal.AllDigits(d[5..7]) && Decimal.AllDigits(d[8..])
      && Decimal.Value(d[5..7]) == month && Decimal.Value(d[8..]) == day
  {
    var mm, dd := Decimal.ZeroPad(month, 2), Decimal.ZeroPad(day, 2);
    Decimal.ZeroPadWidth(month, 2);
    Decimal.ZeroPadWidth(day, 2);
    Decimal.ZeroPadValue(month, 2);
    Decimal.ZeroPadValue(day, 2);
    var d := Date2023(month, day);
    assert d == "2023-" + mm + "-" + dd;
    assert d[..5] == "2023-";
    assert d[5..7] == mm;
    assert d[8..] == dd;
  }

  /** The update date of paper `i` is `2023-MM-DD` with month
      `(i % 12) + 1` (1 to 12) and day `(i % 28) + 1` (1 to 28). */
  lemma SampleDateSpec(i: nat)
    ensures var d := SampleDate(i);
      && |d| == 10 && d[..5] == "2023-" && d[7] == '-'
      && Decimal.AllDigits(d[5..7]) && Decimal.AllDigits(d[8..])
      && 1 <= Decimal.Value(d[5..7]) == i % 12 + 1 <= 12
      && 1 <= Decimal.Value(d[8..]) == i % 28 + 1 <= 28
  {
    Date2023Spec(i % 12 + 1, i % 28 + 1);
  }

  /** The digits before the dot of a dotted identifier. */
  function YearPart(s: string): string
    requires |s| >= 6
  {
    s[..|s| - 6]
  }

  /** The five digits after the dot of a dotted identifier. */
  function SerialPart(s: string): string
    requires |s| >= 6
  {
    s[|s| - 5..]
  }

  /** A dotted identifier with a serial below 10000 ends in a dot and
      five digits, the first of them `0`; the two parts read back as the
      year and the serial. */
  lemma DottedSpec(year: nat, serial: nat)
    requires serial < 10000
    ensures |Dotted(year, serial)| >= 10
    ensures var s := Dotted(year, serial);
      && s[|s| - 6] == '.' && s[|s| - 5] == '0'
      && Decimal.AllDigits(YearPart(s)) && Decimal.AllDigits(SerialPart(s))
      && Decimal.Value(YearPart(s)) == year
      && Decimal.Value(SerialPart(s)) == serial
  {
    var y, n := Decimal.ZeroPad(year, 4), Decimal.ZeroPad(serial, 5);
    Decimal.ZeroPadWidth(serial, 5);
    Decimal.ZeroPadValue(year, 4);
    Decimal.ZeroPadValue(serial, 5);
    var s := Dotted(year, serial);
    assert s == y + "." + n;
    assert YearPart(s) == y;
    assert SerialPart(s) == n;
  }

  /** Two dotted identifiers with serials below 10000 are equal only when
      their years and serials are. */
  lemma DottedInjective(y1: nat, n1: nat, y2: nat, n2: nat)
    requires n1 < 10000 && n2 < 10000
    requires Dotted(y1, n1) == Dotted(y2, n2)
    ensures y1 == y2 && n1 == n2
  {
    DottedSpec(y1, n1);
    DottedSpec(y2, n2);
  }

  /** The last two digits of `i` are those of its last four. */
  lemma LastTwoDigits(i: nat)
    ensures i % 100 == (i % 10000) % 100
  {
    var q, r := i / 10000, i % 10000;
    var q2, r2 := r / 100, r % 100;
    assert i == 10000 * q + r;
    assert r == 100 * q2 + r2;
    assert i == (100 * q + q2) * 100 + r2;
    Batching.DivUnique(i, 100, 100 * q + q2, r2);
  }

  lemma IndexFromIdParts(i: nat, j: nat)
    requires i / 100 == j / 100 && i % 10000 == j % 10000
    ensures i == j
  {
    LastTwoDigits(i);
    LastTwoDigits(j);
    assert i == 100 * (i / 100) + i % 100;
    assert j == 100 * (j / 100) + j % 100;
  }

  /** Paper `i` has the identifier `YEAR.NNNNN` with year `2000 + i // 100`
      and serial `i % 10000`; distinct indices give distinct identifiers,
      because `i // 100` and `i % 100` (the last two digits of the serial)
      together determine `i`. */
  lemma SampleIdsDistinct(i: nat, j: nat)
    requires i != j
    ensures SampleId(i) != SampleId(j)
  {
    if SampleId(i) == SampleId(j) {
      DottedInjective(2000 + i / 100, i % 10000, 2000 + j / 100, j % 10000);
      IndexFromIdParts(i, j);
    }
  }
}
