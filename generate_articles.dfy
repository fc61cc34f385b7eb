/** scripts/generate-articles.js: turns each collected record into a Markdown
    file with front matter, writing either a text obtained from the language
    model or, when that fails, a fixed demo text, and keeps an index of the
    newest hundred generated articles. The model service, the clock and the
    file system are parameters. */
module GenerateArticles {

  import opened Wrappers
  import opened Text
  import Lists
  import FetchArticles

  type Record = FetchArticles.Record

  // ------------------------------------------------------------ file names

  predicate IsUpper(c: char) {
    'A' <= c <= 'Z'
  }

  /** `toLowerCase` on one character, where it matters. Only the characters
      whose lower case contains an ASCII letter are written out: the ASCII
      capitals, the Kelvin sign and the dotted capital I. Every other
      character stays as it is here: it either is its own lower case, or it
      lower-cases to characters that the `[^\w\s-]` step removes, so the
      sanitized name is exact. */
  function LowerChar(c: char): string {
    if IsUpper(c) then [(c as int + 32) as char]
    else if c == '\U{212A}' then "k"
    else if c == '\U{130}' then "i\U{307}"
    else [c]
  }

  /** `s.toLowerCase()` */
  function LowerAll(s: string): string {
    if s == [] then [] else LowerAll(s[..|s| - 1]) + LowerChar(s[|s| - 1])
  }

  /** The `\w` class without the `u` flag. */
  predicate IsWordChar(c: char) {
    'a' <= c <= 'z' || IsUpper(c) || '0' <= c <= '9' || c == '_'
  }

  /** What `replace(/[^\w\s-]/g, '')` lets through. */
  predicate Kept(c: char) {
    IsWordChar(c) || IsSpace(c) || c == '-'
  }

  /** The characters a sanitized title consists of. */
  predicate SafeChar(c: char) {
    'a' <= c <= 'z' || '0' <= c <= '9' || c == '_' || c == '-'
  }

  predicate AllSafe(s: string) {
    forall i :: 0 <= i < |s| ==> SafeChar(s[i])
  }

  /** Characters that lowering and the first replacement leave alone. */
  predicate Plain(c: char) {
    SafeChar(c) || IsSpace(c)
  }

  predicate SafeOrSpace(s: string) {
    forall i :: 0 <= i < |s| ==> Plain(s[i])
  }

  /** `s.replace(/\s+/g, '-')`: every maximal run of whitespace becomes one
      dash. Read left to right, a whitespace character yields a dash when it
      starts a run and nothing when it continues one. */
  function Collapse(s: string): string {
    if s == [] then []
    else
      var c := s[|s| - 1];
      if !IsSpace(c) then Collapse(s[..|s| - 1]) + [c]
      else if |s| >= 2 && IsSpace(s[|s| - 2]) then Collapse(s[..|s| - 1])
      else Collapse(s[..|s| - 1]) + "-"
  }

  const FileNameLength := 50

  /** `sanitizeFilename(title)` */
  function SanitizeFilename(title: string): string {
    Take(Collapse(Lists.Filter(LowerAll(title), Kept)), FileNameLength)
  }

  lemma {:induction false} LowerAllNoUpper(s: string)
    ensures forall i :: 0 <= i < |LowerAll(s)| ==> !IsUpper(LowerAll(s)[i])
  {
    if s != [] {
      LowerAllNoUpper(s[..|s| - 1]);
    }
  }

  lemma {:induction false} LowerAllSafe(s: string)
    requires SafeOrSpace(s)
    ensures LowerAll(s) == s
  {
    if s != [] {
      var init, c := s[..|s| - 1], s[|s| - 1];
      SafeOrSpacePrefix(s);
      LowerAllSafe(init);
      LowerCharKeeps(c);
      LowerSnoc(init, c);
      assert s == init + [c];
    }
  }

  lemma SafeOrSpacePrefix(s: string)
    requires s != [] && SafeOrSpace(s)
    ensures SafeOrSpace(s[..|s| - 1]) && Plain(s[|s| - 1])
  {
    var init := s[..|s| - 1];
    forall i | 0 <= i < |init| ensures Plain(init[i]) {
      assert init[i] == s[i];
    }
  }

  lemma LowerSnoc(init: string, c: char)
    ensures LowerAll(init + [c]) == LowerAll(init) + LowerChar(c)
  {
    assert (init + [c])[..|init|] == init;
  }

  lemma LowerCharKeeps(c: char)
    requires Plain(c)
    ensures LowerChar(c) == [c]
  {
  }

  lemma {:induction false} FilterKept(s: string)
    requires forall i :: 0 <= i < |s| ==> !IsUpper(s[i])
    ensures forall i :: 0 <= i < |Lists.Filter(s, Kept)| ==>
      SafeChar(Lists.Filter(s, Kept)[i]) || IsSpace(Lists.Filter(s, Kept)[i])
  {
    if s != [] {
      FilterKept(s[..|s| - 1]);
    }
  }

  lemma {:induction false} FilterSafe(s: string)
    requires SafeOrSpace(s)
    ensures Lists.Filter(s, Kept) == s
  {
    if s != [] {
      FilterSafe(s[..|s| - 1]);
      assert s == s[..|s| - 1] + [s[|s| - 1]];
    }
  }

  lemma {:induction false} CollapseSafe(s: string)
    requires forall i :: 0 <= i < |s| ==> SafeChar(s[i]) || IsSpace(s[i])
    ensures AllSafe(Collapse(s))
  {
    if s != [] {
      CollapseSafe(s[..|s| - 1]);
    }
  }

  /** Without whitespace there is nothing to replace. */
  lemma {:induction false} CollapseNoSpace(s: string)
    requires forall i :: 0 <= i < |s| ==> !IsSpace(s[i])
    ensures Collapse(s) == s
  {
    if s != [] {
      CollapseNoSpace(s[..|s| - 1]);
      assert s == s[..|s| - 1] + [s[|s| - 1]];
    }
  }

  /** A part that does not start with whitespace is replaced on its own. */
  lemma {:induction false} CollapseAppend(p: string, v: string)
    requires v == [] || !IsSpace(v[0])
    ensures Collapse(p + v) == Collapse(p) + Collapse(v)
  {
    if v == [] {
      assert p + v == p;
    } else {
      var vi := v[..|v| - 1];
      var s := p + v;
      assert s[..|s| - 1] == p + vi;
      assert s[|s| - 1] == v[|v| - 1];
      CollapseAppend(p, vi);
      if |v| >= 2 {
        assert s[|s| - 2] == v[|v| - 2];
      } else {
        assert !IsSpace(s[|s| - 1]);
      }
    }
  }

  /** A whitespace run after a part that does not end in whitespace yields one
      dash. */
  lemma {:induction false} CollapseSpaces(u: string, w: string)
    requires u == [] || !IsSpace(u[|u| - 1])
    requires w != [] && AllSpace(w)
    ensures Collapse(u + w) == Collapse(u) + "-"
  {
    var s := u + w;
    var init := s[..|s| - 1];
    assert IsSpace(s[|s| - 1]) by {
      assert s[|s| - 1] == w[|w| - 1];
    }
    if |w| >= 2 {
      assert init == u + w[..|w| - 1];
      assert IsSpace(s[|s| - 2]) by {
        assert s[|s| - 2] == w[|w| - 2];
      }
      CollapseSpaces(u, w[..|w| - 1]);
    } else {
      assert init == u;
      assert !(|s| >= 2 && IsSpace(s[|s| - 2])) by {
        if |s| >= 2 {
          assert s[|s| - 2] == u[|u| - 1];
        }
      }
    }
  }

  /** A whitespace run `w` between two parts that do not touch it with
      whitespace of their own becomes exactly one dash. */
  lemma CollapseRun(u: string, w: string, v: string)
    requires u == [] || !IsSpace(u[|u| - 1])
    requires w != [] && AllSpace(w)
    requires v == [] || !IsSpace(v[0])
    ensures Collapse(u + w + v) == Collapse(u) + "-" + Collapse(v)
  {
    CollapseAppend(u + w, v);
    CollapseSpaces(u, w);
  }

  /** A sanitized title is at most fifty characters of `[a-z0-9_-]`. */
  lemma SanitizeShape(title: string)
    ensures |SanitizeFilename(title)| <= FileNameLength
    ensures AllSafe(SanitizeFilename(title))
  {
    var lowered := LowerAll(title);
    LowerAllNoUpper(title);
    FilterKept(lowered);
    CollapseSafe(Lists.Filter(lowered, Kept));
  }

  /** A short title made of `[a-z0-9_-]` is its own sanitized form. */
  lemma SanitizeSafe(s: string)
    requires AllSafe(s) && |s| <= FileNameLength
    ensures SanitizeFilename(s) == s
  {
    LowerAllSafe(s);
    FilterSafe(s);
    CollapseNoSpace(s);
  }

  lemma SafeNoSpace(s: string)
    requires AllSafe(s)
    ensures forall i :: 0 <= i < |s| ==> !IsSpace(s[i])
  {
  }

  lemma CollapseSpaceDash(u: string)
    requires AllSafe(u)
    ensures Collapse(u + " -") == u + "--"
  {
    var sp, dash := " ", "-";
    assert u == [] || !IsSpace(u[|u| - 1]) by {
      SafeNoSpace(u);
    }
    assert AllSpace(sp) && !IsSpace(dash[0]);
    CollapseRun(u, sp, dash);
    assert Collapse(u) == u by {
      SafeNoSpace(u);
      CollapseNoSpace(u);
    }
    assert Collapse(dash) == dash by {
      assert dash[..0] == [];
    }
    DashesJoin(u, []);
  }

  lemma CollapseDashes(u: string, v: string)
    requires AllSafe(u) && AllSafe(v)
    ensures Collapse(u + " - " + v) == u + "---" + v
  {
    var a, sp := u + " -", " ";
    assert a[|a| - 1] == '-';
    assert v == [] || !IsSpace(v[0]) by {
      SafeNoSpace(v);
    }
    CollapseRun(a, sp, v);
    CollapseSpaceDash(u);
    CollapseNoSpace(v);
    DashesJoin(u, v);
  }

  lemma DashesJoin(u: string, v: string)
    ensures u + " - " + v == (u + " -") + " " + v
    ensures u + "--" + "-" + v == u + "---" + v
    ensures u + " -" == u + " " + "-" && u + "-" + "-" == u + "--"
  {
  }

  lemma SpacedSafe(u: string, v: string)
    requires AllSafe(u) && AllSafe(v)
    ensures SafeOrSpace(u + " - " + v)
  {
    var s := u + " - " + v;
    forall i | 0 <= i < |s| ensures Plain(s[i]) {
      if i < |u| {
        assert s[i] == u[i];
      } else if i >= |u| + 3 {
        assert s[i] == v[i - |u| - 3];
      }
    }
  }

  /** Existing dashes are kept and each whitespace run becomes one more:
      a title "u - v" is named "u---v". */
  lemma SanitizeDashes(u: string, v: string)
    requires AllSafe(u) && AllSafe(v) && |u| + |v| + 3 <= FileNameLength
    ensures SanitizeFilename(u + " - " + v) == u + "---" + v
  {
    SpacedSafe(u, v);
    LowerAllSafe(u + " - " + v);
    FilterSafe(u + " - " + v);
    CollapseDashes(u, v);
  }

  /** Sanitizing a sanitized title changes nothing. */
  lemma SanitizeIdempotent(title: string)
    ensures SanitizeFilename(SanitizeFilename(title)) == SanitizeFilename(title)
  {
    SanitizeShape(title);
    SanitizeSafe(SanitizeFilename(title));
  }

  /** The name of the Markdown file for the `index`-th record (from 1),
      without its extension. */
  function Stem(date: string, index: nat, title: string): string {
    date + "-" + Decimal(index) + "-" + SanitizeFilename(title)
  }

  function FileName(date: string, index: nat, title: string): string {
    Stem(date, index, title) + ".md"
  }

  lemma {:induction false} DigitsThenDash(a: string, b: string, x: string, y: string)
    requires forall i :: 0 <= i < |a| ==> IsDigit(a[i])
    requires forall i :: 0 <= i < |b| ==> IsDigit(b[i])
    requires a + "-" + x == b + "-" + y
    ensures a == b
  {
    var l, r := a + "-" + x, b + "-" + y;
    assert l[|a|] == '-' && r[|b|] == '-';
    assert |a| == |b|;
    assert a == l[..|a|] && b == r[..|b|];
  }

  lemma PositionFromName(p: string, i: nat, j: nat, x: string, y: string)
    requires p + Decimal(i) + "-" + x == p + Decimal(j) + "-" + y
    ensures i == j
  {
    var l, r := p + Decimal(i) + "-" + x, p + Decimal(j) + "-" + y;
    assert l[|p|..] == Decimal(i) + "-" + x;
    assert r[|p|..] == Decimal(j) + "-" + y;
    DigitsThenDash(Decimal(i), Decimal(j), x, y);
    DecimalValue(i);
    DecimalValue(j);
  }

  /** Two records with different positions never share a file name, whatever
      their titles, so no write of one run overwrites another. */
  lemma FileNamesDistinct(date: string, i: nat, j: nat, t1: string, t2: string)
    requires i != j
    ensures FileName(date, i, t1) != FileName(date, j, t2)
  {
    var p := date + "-";
    var x, y := SanitizeFilename(t1) + ".md", SanitizeFilename(t2) + ".md";
    assert FileName(date, i, t1) == p + Decimal(i) + "-" + x;
    assert FileName(date, j, t2) == p + Decimal(j) + "-" + y;
    if FileName(date, i, t1) == FileName(date, j, t2) {
      PositionFromName(p, i, j, x, y);
    }
  }

  // ------------------------------------------------------------- generation

  /** The models tried, in order. */
  const ModelNames := ["gemini-pro", "gemini-1.5-pro", "gemini-1.5-flash", "gemini-2.0-flash"]

  /** The model whose handle is left in `model` after the probing loop:
      the first one whose test request succeeds, or else the last one tried,
      since the handle is assigned before the test request is made. */
  function Chosen(names: seq<string>, probe: string -> bool): (r: Option<string>)
    ensures r.None? <==> names == []
    ensures r.Some? ==>
      (exists i :: 0 <= i < |names| && names[i] == r.value
        && (forall j :: 0 <= j < i ==> !probe(names[j]))
        && (probe(names[i]) || i == |names| - 1))
  {
    if names == [] then None
    else if probe(names[0]) || |names| == 1 then Some(names[0])
    else
      var r := Chosen(names[1..], probe);
      assert r.Some?;
      var i :| 0 <= i < |names| - 1 && names[1..][i] == r.value
        && (forall j :: 0 <= j < i ==> !probe(names[1..][j]))
        && (probe(names[1..][i]) || i == |names| - 2);
      assert names[i + 1] == r.value;
      r
  }

  /** The probing loop: set the handle, send a test request, stop at the
      first success. */
  method SelectModel(names: seq<string>, probe: string -> bool) returns (model: Option<string>)
    ensures model == Chosen(names, probe)
  {
    model := None;
    var i := 0;
    while i < |names|
      invariant 0 <= i <= |names|
      invariant forall j :: 0 <= j < i ==> !probe(names[j])
      invariant i > 0 ==> model == Some(names[i - 1])
      invariant i == 0 ==> model == None
    {
      model := Some(names[i]);
      if probe(names[i]) {
        ChosenAt(names, probe, i);
        return;
      }
      i := i + 1;
    }
    if i > 0 {
      ChosenAt(names, probe, i - 1);
    }
  }

  /** The loop stops at position `i` when every earlier name failed and this
      one passes or is the last. */
  lemma {:induction false} ChosenAt(names: seq<string>, probe: string -> bool, i: nat)
    requires i < |names| && (probe(names[i]) || i == |names| - 1)
    requires forall j :: 0 <= j < i ==> !probe(names[j])
    ensures Chosen(names, probe) == Some(names[i])
  {
    if i > 0 {
      ChosenAt(names[1..], probe, i - 1);
    }
  }

  /** The answers of the model service during the handling of one record:
      `probe(m)` says whether the test request to model `m` succeeds, and
      `generate(m, item)` is the text returned for the article request, or
      `None` when that request fails. */
  datatype Service = Service(probe: string -> bool, generate: (string, Record) -> Option<string>)

  /** What `generateArticleWithGemini` returns. */
  function Gemini(item: Record, service: Service): Option<string> {
    var m := Chosen(ModelNames, service.probe);
    service.generate(m.value, item)
  }

  method GenerateWithGemini(item: Record, service: Service) returns (text: Option<string>)
    ensures text == Gemini(item, service)
  {
    var model := SelectModel(ModelNames, service.probe);
    // `if (!model)` cannot fire: the list of names is not empty
    assert model.Some?;
    text := service.generate(model.value, item);
  }

  /** The fallback text; `localDate` stands for today's date in the Japanese
      locale. */
  function DemoArticle(item: Record, localDate: string): string {
    "## " + item.title + "\n\n**ソース**: " + item.source + "  \n**日付**: " + localDate
      + DemoOverview + item.url + DemoClosing
  }

  /** The fixed prose of the demo text, around the link to the record. */
  const DemoOverview := "\n\n### ニュース概要\n\nこのニュースは、ベイスターズに関する最新情報です。詳細については、以下のリンクをご確認ください。\n\n[元の記事を読む]("
  const DemoClosing := ")\n\n### ベイスターズファンの視点\n\nベイスターズの活動に関する重要なニュースが報告されました。このような情報は、ファンにとって重要な関心事です。\n\nチームの最新動向に注目しながら、今後の試合や選手の活躍を応援していきましょう。\n\n#ベイスターズ #横浜DeNA #プロ野球"

  /** The demo text opens with the record's title as a heading and links to
      the record's URL. */
  lemma DemoShape(item: Record, localDate: string)
    ensures StartsWith(DemoArticle(item, localDate), "## " + item.title)
    ensures |DemoArticle(item, localDate)| > |item.title| + 3
    ensures Contains(DemoArticle(item, localDate), item.url)
  {
    var d := DemoArticle(item, localDate);
    var h := "## " + item.title;
    assert d == h + d[|h|..];
    var pre := h + "\n\n**ソース**: " + item.source + "  \n**日付**: " + localDate + DemoOverview;
    assert d == pre + item.url + DemoClosing;
    assert d[|pre|..|pre| + |item.url|] == item.url;
    assert OccursAt(d, item.url, |pre|);
  }

  /** The content chosen for one record: the generated text when it is a
      non-empty string, the demo text otherwise. */
  function Content(item: Record, localDate: string, service: Service): (r: string)
    ensures r != []
  {
    DemoShape(item, localDate);
    var g := Gemini(item, service);
    if g.None? || g.value == [] then DemoArticle(item, localDate) else g.value
  }

  datatype Metadata = Metadata(title: string, date: string, filename: string, filepath: string)

  /** A file the script writes: where and what. */
  datatype Written = Written(path: string, text: string)

  datatype Created = Created(meta: Metadata, file: Written)

  function FrontMatter(item: Record, date: string): string {
    "---\ntitle: \"" + item.title + "\"\ndate: \"" + date + "\"\ncategory: \"ベイスターズニュース\"\nsource: \""
      + item.source + "\"\nsourceUrl: \"" + item.url + "\"\nauthor: \"AI記事生成\"\n---\n\n"
  }

  /** `path.join(dir, name)` for a plain file name. */
  function PathJoin(dir: string, name: string): string {
    dir + "/" + name
  }

  /** `createMarkdownFile`: nothing for an empty content, otherwise the file
      written under its generated name and the metadata returned. */
  function CreateMarkdownFile(item: Record, content: string, index: nat, date: string, dir: string): (r: Option<Created>)
    ensures r.None? <==> content == []
  {
    if content == [] then None
    else
      var filename := FileName(date, index, item.title);
      var filepath := PathJoin(dir, filename);
      Some(Created(Metadata(item.title, date, filename, filepath), Written(filepath, FrontMatter(item, date) + content)))
  }

  /** The file is named after the date, the position and the title, the
      metadata point at it, and its text is the front matter, which opens with
      the title, followed by the content. */
  lemma MarkdownShape(item: Record, content: string, index: nat, date: string, dir: string)
    requires content != []
    ensures var c := CreateMarkdownFile(item, content, index, date, dir).value;
      && c.meta == Metadata(item.title, date, FileName(date, index, item.title), c.file.path)
      && c.file.path == PathJoin(dir, c.meta.filename)
      && EndsWith(c.file.text, content)
      && StartsWith(c.file.text, "---\ntitle: \"" + item.title + "\"")
  {
    var text := CreateMarkdownFile(item, content, index, date, dir).value.file.text;
    var fm := FrontMatter(item, date);
    assert text == fm + content;
    assert text[|text| - |content|..] == content;
    var t := "---\ntitle: \"" + item.title + "\"";
    assert fm == t + (fm[|t|..]);
    assert text[..|t|] == t;
  }

  // ------------------------------------------------------------------ index

  /** What `index.json` holds before the update. */
  datatype Stored = Absent | NotAnArray | AnArray(items: seq<Metadata>) | Unparseable

  const IndexLength := 100

  /** `updateArticleIndex(batch)`: the new entries in front of the existing
      ones, the first hundred kept. A file that is not valid JSON makes
      `JSON.parse` throw, which ends the run. */
  function UpdateArticleIndex(batch: seq<Metadata>, stored: Stored): (r: Result<seq<Metadata>, string>)
    ensures r.Err? <==> stored == Unparseable
    ensures r.Ok? ==>
      && r.value <= batch + (if stored.AnArray? then stored.items else [])
      && |r.value| == Min(IndexLength, |batch| + if stored.AnArray? then |stored.items| else 0)
  {
    match stored
    case Unparseable => Err("index.json is not valid JSON")
    case AnArray(items) => Ok(Take(batch + items, IndexLength))
    case _ => Ok(Take(batch, IndexLength))
  }

  function Min(x: int, y: int): int {
    if x <= y then x else y
  }

  /** The index never grows past a hundred entries and starts with the batch;
      an empty batch leaves the first hundred existing entries, and a value
      that is not an array counts as no entries. */
  lemma IndexKeepsBatch(batch: seq<Metadata>, stored: Stored)
    requires stored != Unparseable
    ensures var index := UpdateArticleIndex(batch, stored).value;
      var existing := if stored.AnArray? then stored.items else [];
      && |index| <= IndexLength
      && index[..Min(|batch|, IndexLength)] == batch[..Min(|batch|, IndexLength)]
      && (batch == [] ==> index == Take(existing, IndexLength))
  {
    var existing := if stored.AnArray? then stored.items else [];
    var index := UpdateArticleIndex(batch, stored).value;
    var m := Min(|batch|, IndexLength);
    assert index[..m] == (batch + existing)[..m];
    if batch == [] {
      assert batch + existing == existing;
    }
  }

  /** The index left by a series of runs, oldest batch first, starting with
      no index file. */
  function Replay(batches: seq<seq<Metadata>>): seq<Metadata> {
    if batches == [] then []
    else UpdateArticleIndex(batches[|batches| - 1], AnArray(Replay(batches[..|batches| - 1]))).value
  }

  /** All batches, newest first. */
  function NewestFirst(batches: seq<seq<Metadata>>): seq<Metadata> {
    if batches == [] then [] else batches[|batches| - 1] + NewestFirst(batches[..|batches| - 1])
  }

  lemma TakeAppendTake<T>(x: seq<T>, y: seq<T>, n: nat)
    ensures Take(x + Take(y, n), n) == Take(x + y, n)
  {
    if |y| > n {
      if |x| < n {
        assert (x + y[..n])[..n] == (x + y)[..n];
      } else {
        assert (x + y[..n])[..n] == x[..n] == (x + y)[..n];
      }
    }
  }

  /** Across any number of runs the index is the newest hundred entries of
      all batches, newest batch first. */
  lemma {:induction false} ReplayIsNewest(batches: seq<seq<Metadata>>)
    ensures Replay(batches) == Take(NewestFirst(batches), IndexLength)
  {
    if batches != [] {
      var init := batches[..|batches| - 1];
      ReplayIsNewest(init);
      TakeAppendTake(batches[|batches| - 1], NewestFirst(init), IndexLength);
    }
  }

  // ------------------------------------------------------------------- runs

  /** What happens to the `i`-th record (from 0). The model service is asked
      afresh for each record and may answer differently each time, so its
      answers are looked up by position. */
  function Produce(i: nat, item: Record, date: string, localDate: string, dir: string,
                   service: nat -> Service): Created
  {
    var content := Content(item, localDate, service(i));
    CreateMarkdownFile(item, content, i + 1, date, dir).value
  }

  /** `f` applied to each element and its position. */
  function MapIndexed<A, B>(xs: seq<A>, f: (nat, A) -> B): seq<B> {
    if xs == [] then [] else MapIndexed(xs[..|xs| - 1], f) + [f(|xs| - 1, xs[|xs| - 1])]
  }

  lemma {:induction false} MapIndexedShape<A, B>(xs: seq<A>, f: (nat, A) -> B)
    ensures |MapIndexed(xs, f)| == |xs|
    ensures forall k :: 0 <= k < |xs| ==> MapIndexed(xs, f)[k] == f(k, xs[k])
  {
    if xs != [] {
      MapIndexedShape(xs[..|xs| - 1], f);
    }
  }

  /** What the loop produces for the records, in order. */
  function Plan(items: seq<Record>, date: string, localDate: string, dir: string, service: nat -> Service): seq<Created> {
    MapIndexed(items, (k, item) => Produce(k, item, date, localDate, dir, service))
  }

  /** The metadata of the created files, as pushed onto `generatedArticles`. */
  function Metas(cs: seq<Created>): seq<Metadata> {
    if cs == [] then [] else Metas(cs[..|cs| - 1]) + [cs[|cs| - 1].meta]
  }

  datatype Run =
    | MissingInput        // raw-articles.json does not exist: exit code 1
    | NothingToGenerate   // it holds no records: exit code 0
    | Generated(created: seq<Created>, articles: seq<Metadata>, index: Result<seq<Metadata>, string>)

  /** `generateAllArticles`. `raw` is the content of raw-articles.json (`None`
      when the file is missing), `stored` that of index.json, `date` the ISO
      date and `localDate` the local date at which the run takes place;
      `created` lists the Markdown files written, in order. */
  method GenerateAllArticles(raw: Option<seq<Record>>, stored: Stored, date: string, localDate: string, dir: string,
                             service: nat -> Service)
    returns (run: Run)
    ensures raw.None? <==> run == MissingInput
    ensures run == NothingToGenerate <==> raw == Some([])
    ensures run.Generated? ==>
      && run.created == Plan(raw.value, date, localDate, dir, service)
      && run.articles == Metas(run.created)
      && run.index == UpdateArticleIndex(run.articles, stored)
  {
    if raw.None? {
      return MissingInput;
    }
    var items := raw.value;
    if |items| == 0 {
      return NothingToGenerate;
    }
    var generated: seq<Metadata> := [];
    var created: seq<Created> := [];
    var apiAvailable := true;
    for i := 0 to |items|
      invariant created == Plan(items[..i], date, localDate, dir, service)
      invariant generated == Metas(created)
    {
      var c := GenerateOne(i, items[i], apiAvailable, date, localDate, dir, service);
      PlanSnoc(items, i, date, localDate, dir, service);
      if c.Some? {
        created := created + [c.value];
        generated := generated + [c.value.meta];
      }
    }
    assert items[..|items|] == items;
    var index := UpdateArticleIndex(generated, stored);
    return Generated(created, generated, index);
  }

  lemma PlanSnoc(items: seq<Record>, i: nat, date: string, localDate: string, dir: string, service: nat -> Service)
    requires i < |items|
    ensures Plan(items[..i + 1], date, localDate, dir, service)
      == Plan(items[..i], date, localDate, dir, service) + [Produce(i, items[i], date, localDate, dir, service)]
  {
    assert items[..i + 1][..i] == items[..i];
  }

  /** One file per record, in the order of the records, the `k`-th being what
      happens to the `k`-th record. */
  lemma PlanShape(items: seq<Record>, date: string, localDate: string, dir: string, service: nat -> Service)
    ensures |Plan(items, date, localDate, dir, service)| == |items|
    ensures forall k :: 0 <= k < |items| ==>
      Plan(items, date, localDate, dir, service)[k] == Produce(k, items[k], date, localDate, dir, service)
  {
    MapIndexedShape(items, (k, item) => Produce(k, item, date, localDate, dir, service));
  }

  /** A run that generates anything returns exactly one metadata entry per
      record, in the order of the records, the `k`-th named after position
      `k + 1` and carrying the record's title. */
  lemma OneEntryPerItem(items: seq<Record>, date: string, localDate: string, dir: string, service: nat -> Service)
    ensures var ms := Metas(Plan(items, date, localDate, dir, service));
      && |ms| == |items|
      && forall k :: 0 <= k < |items| ==>
           ms[k].title == items[k].title && ms[k].filename == FileName(date, k + 1, items[k].title)
  {
    var cs := Plan(items, date, localDate, dir, service);
    PlanShape(items, date, localDate, dir, service);
    MetasShape(cs);
    forall k | 0 <= k < |items|
      ensures Metas(cs)[k].title == items[k].title && Metas(cs)[k].filename == FileName(date, k + 1, items[k].title)
    {
      EveryRecordWritten(k, items[k], date, localDate, dir, service);
    }
  }

  /** The metadata list pairs up with the files. */
  lemma {:induction false} MetasShape(cs: seq<Created>)
    ensures |Metas(cs)| == |cs|
    ensures forall k :: 0 <= k < |cs| ==> Metas(cs)[k] == cs[k].meta
  {
    if cs != [] {
      MetasShape(cs[..|cs| - 1]);
    }
  }

  /** The body of the loop of `generateAllArticles` for the `i`-th record:
      choose the content, then write the file. `apiAvailable` is never
      cleared, so the service is always asked. */
  method GenerateOne(i: nat, item: Record, apiAvailable: bool, date: string, localDate: string, dir: string,
                     service: nat -> Service)
    returns (created: Option<Created>)
    ensures apiAvailable ==> created == Some(Produce(i, item, date, localDate, dir, service))
    ensures !apiAvailable ==> created == CreateMarkdownFile(item, DemoArticle(item, localDate), i + 1, date, dir)
  {
    var content: string;
    if apiAvailable {
      var text := GenerateWithGemini(item, service(i));
      if text.None? || text.value == [] {
        content := DemoArticle(item, localDate);
      } else {
        content := text.value;
      }
    } else {
      content := DemoArticle(item, localDate);
    }
    DemoShape(item, localDate);
    created := None;
    if content != [] {
      created := CreateMarkdownFile(item, content, i + 1, date, dir);
    }
  }

  /** Every record gets a file: the content is never empty, so
      `createMarkdownFile` never declines. The file holds the generated text
      when the service produced one, the demo text otherwise, and its name
      depends on the title and the position alone. */
  lemma EveryRecordWritten(i: nat, item: Record, date: string, localDate: string, dir: string,
                           service: nat -> Service)
    ensures var c := Produce(i, item, date, localDate, dir, service);
      var g := Gemini(item, service(i));
      && c.meta.filename == FileName(date, i + 1, item.title)
      && c.meta.title == item.title
      && c.file.path == c.meta.filepath == PathJoin(dir, c.meta.filename)
      && (g.Some? && g.value != [] ==> EndsWith(c.file.text, g.value))
      && (g.None? || g.value == [] ==> EndsWith(c.file.text, DemoArticle(item, localDate)))
  {
    MarkdownShape(item, Content(item, localDate, service(i)), i + 1, date, dir);
  }
}
