/** Dot::build, buildContent, addToIndex and finalizeIndex with the filesystem abstracted:
    the scanned folders and their Markdown files are inputs, the files written are outputs. */
module Build {
  import opened Text
  import Template
  import Metadata

  /** A Markdown file: its name without ".md" and its contents. */
  datatype MarkdownFile = MarkdownFile(baseName: string, contents: string)

  /** An entry of the source directory, in scan order, with its `*.md` files in glob order
      (none for an entry that is not a folder). */
  datatype Folder = Folder(name: string, markdownFiles: seq<MarkdownFile>)

  /** A file written: its path and its contents. */
  datatype Output = Output(path: string, html: string)

  /** The template files of the frontend's html/ directory. */
  datatype Templates = Templates(article: string, page: string, indexItem: string, indexPre: string, indexPost: string)

  /** The output locations the constructor derives from the project directory. */
  datatype Layout = Layout(renderedDir: string, articleHtmlDir: string, pageHtmlDir: string, indexFile: string)

  /** rtrim($dir, '/'): the longest prefix of `dir` not ending in a slash, all of whose
      removed characters are slashes. */
  function TrimSlashes(dir: string): (r: string)
    ensures |r| <= |dir| && r == dir[..|r|]
    ensures r == [] || r[|r| - 1] != '/'
    ensures forall k :: |r| <= k < |dir| ==> dir[k] == '/'
    decreases |dir|
  {
    if dir != [] && dir[|dir| - 1] == '/' then
      var r := TrimSlashes(dir[..|dir| - 1]);
      assert dir[..|dir| - 1][..|r|] == dir[..|r|];
      r
    else dir
  }

  /** The constructor: everything rendered lives under `<project>.rendered/`. */
  function LayoutOf(projectDir: string): (l: Layout)
    ensures l.renderedDir == TrimSlashes(projectDir) + ".rendered/"
    ensures StartsWith(l.articleHtmlDir, l.renderedDir) && StartsWith(l.pageHtmlDir, l.renderedDir)
    ensures StartsWith(l.indexFile, l.renderedDir)
    ensures l.articleHtmlDir != l.pageHtmlDir && l.indexFile != l.articleHtmlDir && l.indexFile != l.pageHtmlDir
  {
    var rendered := TrimSlashes(projectDir) + ".rendered/";
    var l := Layout(rendered, rendered + "articles/", rendered + "pages/", rendered + "index.html");
    assert l.articleHtmlDir[..|rendered|] == rendered;
    assert l.pageHtmlDir[..|rendered|] == rendered;
    assert l.indexFile[..|rendered|] == rendered;
    assert l.articleHtmlDir[|rendered|] == 'a' && l.pageHtmlDir[|rendered|] == 'p';
    assert l.indexFile[|rendered|] == 'i';
    l
  }

  /** pathinfo($file, PATHINFO_FILENAME) . '.html'. */
  function HtmlName(f: MarkdownFile): string {
    f.baseName + ".html"
  }

  /** The URL addToIndex receives for an article. */
  function ArticleUrl(folder: string, md: MarkdownFile): string {
    "articles/" + folder + "/" + HtmlName(md)
  }

  const UrlKey: string := "url"

  /** The placeholders addToIndex renders an index entry with. */
  function ItemPlaceholders(headline: string, url: string): seq<(string, string)> {
    [(Metadata.HeadlineKey, headline), (UrlKey, url)]
  }

  /** Where a folder's page is written: `outputDir/<folder>/<first file's name>.html`. */
  function PageFile(f: Folder, outputDir: string): string
    requires f.markdownFiles != []
  {
    outputDir + f.name + "/" + HtmlName(f.markdownFiles[0])
  }

  /** The page a folder's first Markdown file is rendered to. */
  function PageOf(f: Folder, outputDir: string, template: string): Output
    requires f.markdownFiles != []
  {
    Output(PageFile(f, outputDir),
           Template.RenderSeq(template, Metadata.Placeholders(Metadata.ExtractArticleData(f.markdownFiles[0].contents))))
  }

  /** The index entry addToIndex renders for an article folder. */
  function ItemOf(f: Folder, itemTemplate: string): string
    requires f.markdownFiles != []
  {
    var md := f.markdownFiles[0];
    Template.RenderSeq(itemTemplate,
                       ItemPlaceholders(Metadata.ExtractArticleData(md.contents).headline, ArticleUrl(f.name, md)))
  }

  /** What one folder contributes to the written files: its page, or nothing. */
  function FolderPage(f: Folder, outputDir: string, template: string): seq<Output> {
    if f.markdownFiles == [] then [] else [PageOf(f, outputDir, template)]
  }

  /** What one folder contributes to the index: its entry, or nothing. */
  function FolderItem(f: Folder, itemTemplate: string): string {
    if f.markdownFiles == [] then [] else ItemOf(f, itemTemplate)
  }

  /** What buildContent writes for the folders `fs`, in scan order. */
  function Pages(fs: seq<Folder>, outputDir: string, template: string): (r: seq<Output>)
    ensures |r| <= |fs|
  {
    if fs == [] then []
    else Pages(fs[..|fs| - 1], outputDir, template) + FolderPage(fs[|fs| - 1], outputDir, template)
  }

  /** What buildContent appends to the index for the folders `fs`, in scan order. */
  function Items(fs: seq<Folder>, itemTemplate: string): (r: string)
    ensures (forall k :: 0 <= k < |fs| ==> fs[k].markdownFiles == []) ==> r == []
  {
    if fs == [] then []
    else Items(fs[..|fs| - 1], itemTemplate) + FolderItem(fs[|fs| - 1], itemTemplate)
  }

  /** The folders that hold a Markdown file, in scan order. */
  function WithMarkdown(fs: seq<Folder>): (r: seq<Folder>)
    ensures |r| <= |fs|
    ensures forall k :: 0 <= k < |r| ==> r[k].markdownFiles != [] && r[k] in fs
  {
    if fs == [] then []
    else
      var rest := WithMarkdown(fs[..|fs| - 1]);
      var last := fs[|fs| - 1];
      if last.markdownFiles == [] then rest else rest + [last]
  }

  /** The body of buildContent's loop for one folder: render the first Markdown file into
      `outputDir/<folder>/<name>.html` and, when asked, the folder's index entry. */
  method RenderFolder(folder: Folder, outputDir: string, template: string, itemTemplate: string, addToIndex: bool)
    returns (page: seq<Output>, item: string)
    ensures page == FolderPage(folder, outputDir, template)
    ensures item == if addToIndex then FolderItem(folder, itemTemplate) else []
  {
    page, item := [], [];
    if folder.markdownFiles != [] {
      var md := folder.markdownFiles[0];
      var data := Metadata.ExtractArticleData(md.contents);
      var html := Template.RenderTemplate(template, Metadata.Placeholders(data));
      page := [Output(PageFile(folder, outputDir), html)];
      if addToIndex {
        item := Template.RenderTemplate(itemTemplate, ItemPlaceholders(data.headline, ArticleUrl(folder.name, md)));
      }
    }
  }

  /** buildContent: the folders in scan order, the pages collected in `written`, the entries
      appended to the index passed in. */
  method BuildContent(folders: seq<Folder>, outputDir: string, template: string, itemTemplate: string,
                      indexIn: string, addToIndex: bool)
    returns (written: seq<Output>, index: string)
    ensures written == Pages(folders, outputDir, template)
    ensures index == indexIn + (if addToIndex then Items(folders, itemTemplate) else [])
  {
    written := [];
    index := indexIn;
    var i := 0;
    while i < |folders|
      invariant 0 <= i <= |folders|
      invariant written == Pages(folders[..i], outputDir, template)
      invariant index == indexIn + (if addToIndex then Items(folders[..i], itemTemplate) else [])
    {
      var page, item := RenderFolder(folders[i], outputDir, template, itemTemplate, addToIndex);
      PrefixStep(folders, i, outputDir, template, itemTemplate);
      written := written + page;
      if addToIndex {
        AppendAssoc(indexIn, Items(folders[..i], itemTemplate), item);
      } else {
        assert item == [];
      }
      index := index + item;
      i := i + 1;
    }
    assert folders[..i] == folders;
  }

  /** One more folder adds its page and its entry at the end. */
  lemma PrefixStep(fs: seq<Folder>, i: nat, outputDir: string, template: string, itemTemplate: string)
    requires i < |fs|
    ensures Pages(fs[..i + 1], outputDir, template) == Pages(fs[..i], outputDir, template) + FolderPage(fs[i], outputDir, template)
    ensures Items(fs[..i + 1], itemTemplate) == Items(fs[..i], itemTemplate) + FolderItem(fs[i], itemTemplate)
  {
    assert fs[..i + 1][..i] == fs[..i];
  }

  /** Regrouping an append. Proved apart from BuildContent, whose loop context makes the same
      step far more costly when stated inline. */
  lemma AppendAssoc(a: string, b: string, c: string)
    ensures a + (b + c) == a + b + c
  {
  }

  /** build: articles (indexed), then pages (not indexed), then the index file made of
      indexPre, the article entries and indexPost. */
  method Build(projectDir: string, articles: seq<Folder>, pages: seq<Folder>, t: Templates)
    returns (written: seq<Output>)
    ensures var l := LayoutOf(projectDir);
            written == Pages(articles, l.articleHtmlDir, t.article) + Pages(pages, l.pageHtmlDir, t.page) +
                       [Output(l.indexFile, t.indexPre + Items(articles, t.indexItem) + t.indexPost)]
  {
    var l := LayoutOf(projectDir);
    var articlePages, index := BuildContent(articles, l.articleHtmlDir, t.article, t.indexItem, "", true);
    var pagePages, index2 := BuildContent(pages, l.pageHtmlDir, t.page, t.indexItem, index, false);
    written := articlePages + pagePages + [Output(l.indexFile, t.indexPre + index2 + t.indexPost)];
    assert index2 == index == Items(articles, t.indexItem);
  }

  /** `f` applied to each folder of `ws`, in order, built up one folder at a time. */
  function MapFolders<T>(ws: seq<Folder>, f: Folder --> T): (r: seq<T>)
    requires forall k :: 0 <= k < |ws| ==> f.requires(ws[k])
    ensures |r| == |ws|
    ensures forall k :: 0 <= k < |ws| ==> r[k] == f(ws[k])
  {
    if ws == [] then [] else MapFolders(ws[..|ws| - 1], f) + [f(ws[|ws| - 1])]
  }

  /** PageOf as a value, for the folders holding a Markdown file. */
  function PageFn(outputDir: string, template: string): Folder --> Output {
    (f: Folder) requires f.markdownFiles != [] => PageOf(f, outputDir, template)
  }

  /** The pages of the folders holding a Markdown file, one each, in order. */
  function PagesOf(ws: seq<Folder>, outputDir: string, template: string): (r: seq<Output>)
    requires forall k :: 0 <= k < |ws| ==> ws[k].markdownFiles != []
    ensures |r| == |ws|
  {
    MapFolders(ws, PageFn(outputDir, template))
  }

  /** The `k`-th of those pages is the `k`-th folder's page. */
  lemma PagesOfAt(ws: seq<Folder>, outputDir: string, template: string, k: nat)
    requires forall j :: 0 <= j < |ws| ==> ws[j].markdownFiles != []
    requires k < |ws|
    ensures PagesOf(ws, outputDir, template)[k] == PageOf(ws[k], outputDir, template)
  {
  }

  /** One page per folder that holds a Markdown file, in scan order: the folders without
      one are skipped. */
  lemma {:induction false} PagesFollowFolders(fs: seq<Folder>, outputDir: string, template: string)
    ensures Pages(fs, outputDir, template) == PagesOf(WithMarkdown(fs), outputDir, template)
  {
    if fs != [] {
      var init := fs[..|fs| - 1];
      var last := fs[|fs| - 1];
      PagesFollowFolders(init, outputDir, template);
      if last.markdownFiles != [] {
        var w := WithMarkdown(init);
        assert (w + [last])[..|w|] == w;
      }
    }
  }

  /** Every page lands under the output directory, in its folder, with an ".html" name. */
  lemma PageFileInFolder(f: Folder, outputDir: string)
    requires f.markdownFiles != []
    ensures StartsWith(PageFile(f, outputDir), outputDir + f.name + "/")
    ensures EndsWith(PageFile(f, outputDir), ".html")
  {
    var p := PageFile(f, outputDir);
    var dir := outputDir + f.name + "/";
    assert p == dir + (f.markdownFiles[0].baseName + ".html");
    assert p[..|dir|] == dir;
    assert p[|p| - 5..] == ".html";
  }

  /** Concatenation of strings, left to right. */
  function Concat(xs: seq<string>): string
  {
    if xs == [] then [] else Concat(xs[..|xs| - 1]) + xs[|xs| - 1]
  }

  lemma ConcatSnoc(xs: seq<string>, x: string)
    ensures Concat(xs + [x]) == Concat(xs) + x
  {
    assert (xs + [x])[..|xs|] == xs;
  }

  /** The entries of the folders holding a Markdown file. */
  function ItemsOf(ws: seq<Folder>, itemTemplate: string): (r: seq<string>)
    requires forall k :: 0 <= k < |ws| ==> ws[k].markdownFiles != []
    ensures |r| == |ws|
  {
    if ws == [] then [] else ItemsOf(ws[..|ws| - 1], itemTemplate) + [ItemOf(ws[|ws| - 1], itemTemplate)]
  }

  /** The index is the entries of the folders holding a Markdown file, one each, in scan order. */
  lemma {:induction false} ItemsFollowFolders(fs: seq<Folder>, itemTemplate: string)
    ensures Items(fs, itemTemplate) == Concat(ItemsOf(WithMarkdown(fs), itemTemplate))
  {
    if fs != [] {
      var init := fs[..|fs| - 1];
      var last := fs[|fs| - 1];
      ItemsFollowFolders(init, itemTemplate);
      if last.markdownFiles != [] {
        var w := WithMarkdown(init);
        assert (w + [last])[..|w|] == w;
        ConcatSnoc(ItemsOf(w, itemTemplate), ItemOf(last, itemTemplate));
      }
    }
  }

  /** An index entry substitutes the headline first, then the URL: a `{{URL}}` inside the
      headline is filled with the URL. */
  lemma ItemRendering(itemTemplate: string, headline: string, url: string)
    ensures Template.RenderSeq(itemTemplate, ItemPlaceholders(headline, url)) ==
            Template.RenderSeq(Template.RenderSeq(itemTemplate, [(Metadata.HeadlineKey, headline)]), [(UrlKey, url)])
  {
    assert ItemPlaceholders(headline, url) == [(Metadata.HeadlineKey, headline)] + [(UrlKey, url)];
    Template.RenderAppend(itemTemplate, [(Metadata.HeadlineKey, headline)], [(UrlKey, url)]);
  }

  /** The URL an index entry links to, taken relative to the rendered directory, is the
      file the article's page is written to. */
  lemma IndexLinksResolve(projectDir: string, f: Folder)
    requires f.markdownFiles != []
    ensures var l := LayoutOf(projectDir);
            PageFile(f, l.articleHtmlDir) == l.renderedDir + ArticleUrl(f.name, f.markdownFiles[0])
  {
  }

  /** Folders without a Markdown file add neither a page nor an index entry. */
  lemma {:induction false} SkipWithoutMarkdown(fs: seq<Folder>, outputDir: string, template: string, itemTemplate: string)
    requires forall k :: 0 <= k < |fs| ==> fs[k].markdownFiles == []
    ensures Pages(fs, outputDir, template) == [] && Items(fs, itemTemplate) == []
  {
    if fs != [] {
      SkipWithoutMarkdown(fs[..|fs| - 1], outputDir, template, itemTemplate);
    }
  }
}
