/** scripts/build-site.js: lists the Markdown articles newest first, reads
    their front matter into article records with a short excerpt, and renders
    one card per article, or a placeholder when there is none. The directory
    listing, the file reader with its front-matter parser, and the clock are
    parameters. */
module BuildSite {

  import opened Wrappers
  import opened Text
  import Sorting
  import Lists
  import GenerateArticles

  // ------------------------------------------------------------ file listing

  predicate IsMarkdown(name: string) {
    EndsWith(name, ".md")
  }

  /** `files.filter(f => f.endsWith('.md'))` */
  function MarkdownNames(listing: seq<string>): seq<string> {
    Lists.Filter(listing, IsMarkdown)
  }

  /** The sequence read from its end. */
  function Backwards<T>(s: seq<T>): (r: seq<T>)
    ensures |r| == |s|
  {
    if s == [] then [] else [s[|s| - 1]] + Backwards(s[..|s| - 1])
  }

  lemma {:induction false} BackwardsAt<T>(s: seq<T>)
    ensures forall i :: 0 <= i < |s| ==> Backwards(s)[i] == s[|s| - 1 - i]
  {
    if s != [] {
      BackwardsAt(s[..|s| - 1]);
    }
  }

  /** `Array.prototype.reverse`: swaps the two ends, moving inwards. */
  method ReverseInPlace<T>(a: array<T>)
    modifies a
    ensures a[..] == Backwards(old(a[..]))
  {
    ghost var s := a[..];
    var lo, hi := 0, a.Length;
    while lo + 1 < hi
      invariant 0 <= lo <= a.Length - hi + 1 && lo <= hi <= a.Length
      invariant lo == a.Length - hi
      invariant forall k :: 0 <= k < lo ==> a[k] == s[a.Length - 1 - k]
      invariant forall k :: hi <= k < a.Length ==> a[k] == s[a.Length - 1 - k]
      invariant forall k :: lo <= k < hi ==> a[k] == s[k]
    {
      a[lo], a[hi - 1] := a[hi - 1], a[lo];
      lo, hi := lo + 1, hi - 1;
    }
    BackwardsAt(s);
  }

  /** `y` precedes `x` in the default string order: `x` comes first in a
      list sorted and then reversed. */
  predicate After(x: string, y: string) {
    Less(y, x)
  }

  /** The file names in the order `parseArticles` visits them. */
  function Listed(listing: seq<string>): seq<string> {
    Backwards(Sorting.InsertionSort(MarkdownNames(listing), Less))
  }

  /** `.filter(...).sort().reverse()` on a fresh array. */
  method SortedNames(listing: seq<string>) returns (files: seq<string>)
    ensures files == Listed(listing)
  {
    var names := MarkdownNames(listing);
    var a := new string[|names|](i requires 0 <= i < |names| => names[i]);
    assert a[..] == names;
    Sorting.SortInPlace(a, Less);
    ReverseInPlace(a);
    files := a[..];
  }

  lemma LessIsStrictWeakOrder()
    ensures Sorting.StrictWeakOrder(Less)
  {
    forall x, y | Less(x, y) ensures !Less(y, x) {
      LessAsymmetric(x, y);
    }
    forall x, y, z | !Less(x, y) && !Less(y, z) ensures !Less(x, z) {
      LessTotal(x, y);
      LessTotal(y, z);
      if x != y && y != z {
        LessTransitive(z, y, x);
        LessAsymmetric(z, x);
      }
    }
  }

  lemma {:induction false} BackwardsSorted(s: seq<string>)
    requires Sorting.Sorted(s, Less)
    ensures Sorting.Sorted(Backwards(s), After)
  {
    BackwardsAt(s);
  }

  /** Only Markdown names are visited, each name of the listing that ends in
      ".md" is visited, and the names come in non-increasing string order, so
      with a date prefix the newest day comes first. */
  lemma ListedShape(listing: seq<string>)
    ensures forall f :: f in Listed(listing) ==> f in listing && IsMarkdown(f)
    ensures forall f :: f in listing && IsMarkdown(f) ==> f in Listed(listing)
    ensures multiset(Listed(listing)) == multiset(MarkdownNames(listing))
    ensures Sorting.Sorted(Listed(listing), After)
  {
    var names := MarkdownNames(listing);
    var sorted := Sorting.InsertionSort(names, Less);
    Sorting.SortPermutes(names, Less);
    BackwardsPermutes(sorted);
    SameMembers(Listed(listing), names);
    Lists.FilterMembers(listing, IsMarkdown);
    Lists.FilterComplete(listing, IsMarkdown);
    LessIsStrictWeakOrder();
    Sorting.SortSorted(names, Less);
    BackwardsSorted(sorted);
  }

  /** Two sequences with the same multiset have the same members. */
  lemma SameMembers<T>(a: seq<T>, b: seq<T>)
    requires multiset(a) == multiset(b)
    ensures forall x :: x in a <==> x in b
  {
    forall x ensures x in a <==> x in b {
      assert x in a <==> x in multiset(a);
      assert x in b <==> x in multiset(b);
    }
  }

  lemma {:induction false} BackwardsPermutes<T>(s: seq<T>)
    ensures multiset(Backwards(s)) == multiset(s)
  {
    if s != [] {
      BackwardsPermutes(s[..|s| - 1]);
      assert s == s[..|s| - 1] + [s[|s| - 1]];
    }
  }

  lemma {:induction false} LessCommonPrefix(p: string, a: string, b: string)
    ensures Less(p + a, p + b) == Less(a, b)
  {
    if p != [] {
      LessCommonPrefix(p[1..], a, b);
      assert (p + a)[1..] == p[1..] + a && (p + b)[1..] == p[1..] + b;
    } else {
      assert p + a == a && p + b == b;
    }
  }

  lemma TenBeforeTwo(date: string, x: string, y: string)
    ensures Less(date + "-10-" + y, date + "-2-" + x)
  {
    var a, b := "-10-" + y, "-2-" + x;
    assert date + "-10-" + y == date + a && date + "-2-" + x == date + b;
    LessCommonPrefix(date, a, b);
    assert a[0] == b[0] && a[1..][0] == '1' && b[1..][0] == '2';
  }

  /** Positions compare as strings, not as numbers: on one day the file of
      the second record is listed before that of the tenth. */
  lemma SecondBeforeTenth(listing: seq<string>, date: string, x: string, y: string, i: nat, j: nat)
    requires 0 <= i < |Listed(listing)| && Listed(listing)[i] == date + "-2-" + x
    requires 0 <= j < |Listed(listing)| && Listed(listing)[j] == date + "-10-" + y
    ensures i < j
  {
    TenBeforeTwo(date, x, y);
    LessIrreflexive(date + "-2-" + x);
    ListedShape(listing);
  }

  // ---------------------------------------------------------------- articles

  /** The front matter attributes the listing uses. */
  datatype Attributes = Attributes(title: string, date: string, category: string, source: string, sourceUrl: string, author: string)

  /** A file's front matter and body, as the parser returns them. */
  datatype Parsed = Parsed(attributes: Attributes, body: string)

  datatype Article = Article(title: string, date: string, category: string, source: string, sourceUrl: string,
                             author: string, filename: string, excerpt: string)

  const ExcerptLength := 150

  /** `parsed.body.substring(0, 150) + '...'` */
  function Excerpt(body: string): string {
    Take(body, ExcerptLength) + "..."
  }

  /** The excerpt is the first 150 characters of the body followed by an
      ellipsis; a short body is kept whole. */
  lemma ExcerptShape(body: string)
    ensures EndsWith(Excerpt(body), "...") && |Excerpt(body)| <= ExcerptLength + 3
    ensures StartsWith(body, Excerpt(body)[..|Excerpt(body)| - 3])
    ensures |body| <= ExcerptLength ==> Excerpt(body) == body + "..."
    ensures |body| > ExcerptLength ==> Excerpt(body) == body[..ExcerptLength] + "..."
  {
    var e := Excerpt(body);
    assert e[..|e| - 3] == Take(body, ExcerptLength);
  }

  function ToArticle(file: string, p: Parsed): Article {
    var a := p.attributes;
    Article(a.title, a.date, a.category, a.source, a.sourceUrl, a.author, file, Excerpt(p.body))
  }

  /** The articles pushed for `files`, where `read(f)` is `None` when reading
      or parsing `f` throws. */
  function Collect(files: seq<string>, read: string -> Option<Parsed>): seq<Article> {
    if files == [] then []
    else
      var f := files[|files| - 1];
      Collect(files[..|files| - 1], read) + match read(f) case Some(p) => [ToArticle(f, p)] case None => []
  }

  function FileNames(articles: seq<Article>): seq<string> {
    if articles == [] then [] else FileNames(articles[..|articles| - 1]) + [articles[|articles| - 1].filename]
  }

  predicate Readable(read: string -> Option<Parsed>, f: string) {
    read(f).Some?
  }

  /** `parseArticles`: nothing when the directory is missing; otherwise one
      article per listed file that can be read and parsed, in listing order. */
  method ParseArticles(dirExists: bool, listing: seq<string>, read: string -> Option<Parsed>) returns (articles: seq<Article>)
    ensures !dirExists ==> articles == []
    ensures dirExists ==> articles == Collect(Listed(listing), read)
  {
    articles := [];
    if !dirExists {
      return;
    }
    var files := SortedNames(listing);
    for i := 0 to |files|
      invariant articles == Collect(files[..i], read)
    {
      var file := files[i];
      assert files[..i + 1][..i] == files[..i];
      match read(file) {
        case Some(parsed) =>
          articles := articles + [ToArticle(file, parsed)];
        case None =>
      }
    }
    assert files[..|files|] == files;
  }

  /** A file that cannot be parsed is skipped and the others keep their
      order: the file names of the articles are exactly the readable listed
      names, in order. */
  lemma {:induction false} CollectNames(files: seq<string>, read: string -> Option<Parsed>)
    ensures FileNames(Collect(files, read)) == Lists.Filter(files, f => Readable(read, f))
    ensures |Collect(files, read)| <= |files|
  {
    if files != [] {
      var init, f := files[..|files| - 1], files[|files| - 1];
      CollectNames(init, read);
      var c := Collect(init, read);
      if read(f).Some? {
        var a := ToArticle(f, read(f).value);
        assert Collect(files, read) == c + [a];
        assert (c + [a])[..|c|] == c;
      } else {
        assert Collect(files, read) == c;
      }
      assert files[..|files| - 1] == init;
    }
  }

  lemma {:induction false} FileNamesAt(articles: seq<Article>)
    ensures |FileNames(articles)| == |articles|
    ensures forall i :: 0 <= i < |articles| ==> FileNames(articles)[i] == articles[i].filename
  {
    if articles != [] {
      FileNamesAt(articles[..|articles| - 1]);
    }
  }

  /** What the listing promises about the parsed articles: at most one per
      Markdown name, each from a listed Markdown file, newest name first. */
  lemma ParsedShape(listing: seq<string>, read: string -> Option<Parsed>)
    ensures var articles := Collect(Listed(listing), read);
      && |articles| <= |MarkdownNames(listing)|
      && (forall i :: 0 <= i < |articles| ==> articles[i].filename in listing && IsMarkdown(articles[i].filename))
      && (forall i, j :: 0 <= i < j < |articles| ==> !Less(articles[i].filename, articles[j].filename))
  {
    var files := Listed(listing);
    var articles := Collect(files, read);
    var ok := f => Readable(read, f);
    ListedShape(listing);
    CollectNames(files, read);
    FileNamesAt(articles);
    Lists.FilterMembers(files, ok);
    Sorting.FilterSorted(files, ok, After);
    assert |multiset(files)| == |multiset(MarkdownNames(listing))|;
    forall i | 0 <= i < |articles| ensures articles[i].filename in listing && IsMarkdown(articles[i].filename) {
      assert FileNames(articles)[i] in Lists.Filter(files, ok);
    }
    forall i, j | 0 <= i < j < |articles| ensures !Less(articles[i].filename, articles[j].filename) {
      assert !After(FileNames(articles)[j], FileNames(articles)[i]);
    }
  }

  // -------------------------------------------------------------------- HTML

  /** `s.replace(pat, rep)` with a string pattern: only the first occurrence
      is replaced. */
  function ReplaceFirst(s: string, pat: string, rep: string): string {
    var i := IndexOf(s, pat);
    if i < 0 then s else s[..i] + rep + s[i + |pat|..]
  }

  /** The target of both links of a card. */
  function Link(filename: string): string {
    "articles/" + ReplaceFirst(filename, ".md", ".html")
  }

  /** Only the first ".md" is replaced, wherever it is: a name that contains
      ".md" before its extension keeps the extension. */
  lemma LinkReplacesFirst(stem: string, rest: string)
    requires !Contains(stem, ".md")
    ensures Link(stem + ".md" + rest) == "articles/" + stem + ".html" + rest
  {
    var s := stem + ".md" + rest;
    assert OccursAt(s, ".md", |stem|) by {
      assert s[|stem|..|stem| + 3] == ".md";
    }
    forall k | 0 <= k < |stem| ensures !OccursAt(s, ".md", k) {
      NotBefore(stem, rest, k);
    }
    assert IndexOf(s, ".md") == |stem|;
    assert s[..|stem|] == stem && s[|stem| + 3..] == rest;
  }

  lemma NotBefore(stem: string, rest: string, k: nat)
    requires !Contains(stem, ".md") && k < |stem|
    ensures !OccursAt(stem + ".md" + rest, ".md", k)
  {
    var s := stem + ".md" + rest;
    if k + 3 <= |stem| {
      assert s[k..k + 3] == stem[k..k + 3];
      assert !OccursAt(stem, ".md", k);
    } else {
      assert s[k..k + 3][|stem| - k] == '.';
    }
  }

  predicate NoDot(s: string) {
    forall i :: 0 <= i < |s| ==> s[i] != '.'
  }

  lemma NoDotNoMd(s: string)
    requires NoDot(s)
    ensures !Contains(s, ".md")
  {
    forall k | 0 <= k <= |s| ensures !OccursAt(s, ".md", k) {
      if k + 3 <= |s| {
        assert s[k..k + 3][0] == s[k];
      }
    }
  }

  lemma LinkOfStem(stem: string)
    requires NoDot(stem)
    ensures Link(stem + ".md") == "articles/" + stem + ".html"
  {
    NoDotNoMd(stem);
    LinkReplacesFirst(stem, "");
    assert stem + ".md" + "" == stem + ".md";
    assert stem + ".html" + "" == stem + ".html";
  }

  /** The name the generator gives a file, without its extension, has a
      dot only where the date has one. */
  lemma StemHasNoDot(date: string, index: nat, title: string)
    requires NoDot(date)
    ensures NoDot(GenerateArticles.Stem(date, index, title))
  {
    var d, t := Decimal(index), GenerateArticles.SanitizeFilename(title);
    GenerateArticles.SanitizeShape(title);
    var tail := d + "-" + t;
    forall i | 0 <= i < |tail| ensures tail[i] != '.' {
      if i < |d| {
        assert tail[i] == d[i];
      } else if i > |d| {
        assert tail[i] == t[i - |d| - 1];
      }
    }
    assert date + "-" + d + "-" + t == date + "-" + tail;
  }

  /** A file written by the generator is linked as the same name with ".html"
      for ".md", provided the date has no dot in it. */
  lemma GeneratedLink(date: string, index: nat, title: string)
    requires NoDot(date)
    ensures Link(GenerateArticles.FileName(date, index, title)) == "articles/" + GenerateArticles.Stem(date, index, title) + ".html"
  {
    StemHasNoDot(date, index, title);
    LinkOfStem(GenerateArticles.Stem(date, index, title));
  }

  // The pieces of the card template between its interpolations. The first
  // character of the two literals below is written apart so that proofs can
  // read it off without unfolding the whole string.
  const CardOpen := "\n" + "    <article class=\"article-card\">\n      <div class=\"article-header\">\n        <h2><a href=\""
  const CardTitle := "\">"
  const CardMeta := "</a></h2>\n        <div class=\"article-meta\">\n          <span class=\"date\">"
  const CardCategory := "</span>\n          <span class=\"category\">"
  const CardSource := "</span>\n          <span class=\"source\">"
  const CardExcerpt := "</span>\n        </div>\n      </div>\n      <p class=\"excerpt\">"
  const CardMore := "</p>\n      <a href=\""
  const CardClose := "\" class=\"read-more\">続きを読む →</a>\n    </article>\n  "

  /** The heading of a card: its link and the title. */
  function CardHead(a: Article): string {
    CardOpen + Link(a.filename) + CardTitle + a.title
  }

  /** The date, category and source line, then the excerpt. */
  function CardBody(a: Article): string {
    CardMeta + a.date + CardCategory + a.category + CardSource + a.source + CardExcerpt + a.excerpt
  }

  /** The "read more" link. */
  function CardFoot(a: Article): string {
    CardMore + Link(a.filename) + CardClose
  }

  /** The card of one article; no value is escaped. */
  function Card(a: Article): string {
    CardHead(a) + CardBody(a) + CardFoot(a)
  }

  /** Both anchors of a card point at the article's link, and the card
      starts with a line break. */
  lemma CardLinks(a: Article)
    ensures StartsWith(Card(a), CardOpen + Link(a.filename) + CardTitle + a.title)
    ensures EndsWith(Card(a), CardMore + Link(a.filename) + CardClose)
    ensures Card(a)[0] == '\n'
  {
    var c, head := Card(a), CardHead(a);
    assert c[..|head|] == head;
    assert c[|c| - |CardFoot(a)|..] == CardFoot(a);
    assert CardOpen[0] == '\n';
    assert head[0] == CardOpen[0];
  }

  /** `xs.join(sep)` */
  function Join(xs: seq<string>, sep: string): string {
    if xs == [] then []
    else if |xs| == 1 then xs[0]
    else Join(xs[..|xs| - 1], sep) + sep + xs[|xs| - 1]
  }

  function Cards(articles: seq<Article>): seq<string> {
    Lists.Map(articles, Card)
  }

  /** The placeholder block; its first character is written apart, as for
      `CardOpen`. */
  const NoArticles := "<" + "div class=\"no-articles\"><p>記事がまだ公開されていません。</p></div>"

  /** The content of the articles container: the cards joined by line
      breaks, or the placeholder when there is no article. */
  function Container(articles: seq<Article>): string {
    if |articles| > 0 then Join(Cards(articles), "\n") else NoArticles
  }

  lemma {:induction false} JoinStart(xs: seq<string>, sep: string)
    requires xs != []
    ensures StartsWith(Join(xs, sep), xs[0])
  {
    if |xs| > 1 {
      var init := xs[..|xs| - 1];
      JoinStart(init, sep);
      var j := Join(init, sep);
      assert (j + sep + xs[|xs| - 1])[..|xs[0]|] == j[..|xs[0]|];
    }
  }

  lemma {:induction false} JoinAppend(xs: seq<string>, ys: seq<string>, sep: string)
    requires xs != [] && ys != []
    ensures Join(xs + ys, sep) == Join(xs, sep) + sep + Join(ys, sep)
  {
    var s := xs + ys;
    if |ys| == 1 {
      assert s[..|s| - 1] == xs;
    } else {
      var init, last := ys[..|ys| - 1], ys[|ys| - 1];
      JoinAppend(xs, init, sep);
      assert s[..|s| - 1] == xs + init && s[|s| - 1] == last;
      calc {
        Join(s, sep);
        Join(xs + init, sep) + sep + last;
        Join(xs, sep) + sep + Join(init, sep) + sep + last;
        Join(xs, sep) + sep + (Join(init, sep) + sep + last);
      }
    }
  }

  /** The placeholder appears exactly when there is no article. */
  lemma PlaceholderIffEmpty(articles: seq<Article>)
    ensures Container(articles) == NoArticles <==> articles == []
  {
    if articles != [] {
      Lists.MapShape(articles, Card);
      JoinStart(Cards(articles), "\n");
      var c := Join(Cards(articles), "\n");
      CardLinks(articles[0]);
      assert c[0] == Card(articles[0])[0];
      assert NoArticles[0] == '<';
    }
  }

  /** Cards are rendered in the order of the articles: the container of two
      lists is their containers joined by a line break. */
  lemma ContainerAppend(xs: seq<Article>, ys: seq<Article>)
    requires xs != [] && ys != []
    ensures Container(xs + ys) == Container(xs) + "\n" + Container(ys)
  {
    Lists.MapAppend(xs, ys, Card);
    JoinAppend(Cards(xs), Cards(ys), "\n");
  }

  /** `buildSite`: the container of index.html and the records written to
      articles.json. */
  method BuildSite(dirExists: bool, listing: seq<string>, read: string -> Option<Parsed>)
    returns (container: string, json: seq<Article>)
    ensures json == (if dirExists then Collect(Listed(listing), read) else [])
    ensures container == Container(json)
  {
    json := ParseArticles(dirExists, listing, read);
    container := Container(json);
  }
}
