/**
 * The document-level rules of the converter (documents/convert_to_html.py:701-815):
 * which Markdown files are converted and in what order (the parent folder's
 * README.md first, then the current folder's other .md files sorted by name),
 * how each file's page title and output name are derived from its name, the
 * per-file pipeline (fence repair, diagram extraction, Markdown conversion,
 * diagram restoration), and which page the viewer opens first.
 *
 * Folders are given as the lists of names their glob returned; file contents
 * are given by a function from documents to text; the Markdown library is a
 * function parameter.
 */
module Documents {
  import opened Text
  import Fences
  import Mermaid

  const Readme := "README.md"
  const ReadmeHtml := "README.html"
  const Blank := "about:blank"

  /** Where a Markdown file was found: the working folder or its parent. */
  datatype Folder = Current | Parent

  datatype Doc = Doc(folder: Folder, name: string)

  // ---------------------------------------------------------------------------
  // Ordering

  /** Python's a <= b on str: code points compared left to right, a prefix first. */
  predicate LexLeq(a: string, b: string)
  {
    a == [] || (b != [] && (a[0] < b[0] || (a[0] == b[0] && LexLeq(a[1..], b[1..]))))
  }

  lemma {:induction false} LexLeqTotal(a: string, b: string)
    ensures LexLeq(a, b) || LexLeq(b, a)
  {
    if a != [] && b != [] && a[0] == b[0] {
      LexLeqTotal(a[1..], b[1..]);
    }
  }

  lemma {:induction false} LexLeqAntisymmetric(a: string, b: string)
    requires LexLeq(a, b) && LexLeq(b, a)
    ensures a == b
  {
    if a != [] {
      LexLeqAntisymmetric(a[1..], b[1..]);
      assert a == [a[0]] + a[1..] && b == [b[0]] + b[1..];
    }
  }

  predicate Sorted(s: seq<string>)
  {
    forall i :: 0 < i < |s| ==> LexLeq(s[i - 1], s[i])
  }

  /** x placed before the first element it does not exceed. */
  function Insert(x: string, s: seq<string>): (r: seq<string>)
    ensures multiset(r) == multiset(s) + multiset{x}
  {
    if s == [] || LexLeq(x, s[0]) then [x] + s
    else
      assert s == [s[0]] + s[1..];
      [s[0]] + Insert(x, s[1..])
  }

  lemma {:induction false} InsertSorted(x: string, s: seq<string>)
    requires Sorted(s)
    ensures Sorted(Insert(x, s))
    ensures Insert(x, s)[0] == x || (s != [] && Insert(x, s)[0] == s[0])
  {
    if s != [] && !LexLeq(x, s[0]) {
      var rest := Insert(x, s[1..]);
      InsertSorted(x, s[1..]);
      LexLeqTotal(x, s[0]);
      var r := [s[0]] + rest;
      forall i | 0 < i < |r| ensures LexLeq(r[i - 1], r[i]) {
        if i > 1 {
          assert r[i - 1] == rest[i - 2] && r[i] == rest[i - 1];
        }
      }
    }
  }

  /** other_files.sort(key=lambda x: x.name): names in ascending order. */
  function SortNames(s: seq<string>): seq<string>
  {
    if s == [] then [] else Insert(s[0], SortNames(s[1..]))
  }

  /** The sorted names are in order and are the same names, each as often as before. */
  lemma {:induction false} SortNamesCorrect(s: seq<string>)
    ensures Sorted(SortNames(s)) && multiset(SortNames(s)) == multiset(s)
  {
    if s != [] {
      SortNamesCorrect(s[1..]);
      InsertSorted(s[0], SortNames(s[1..]));
      assert s == [s[0]] + s[1..];
    }
  }

  /** The names that are not README.md, in their original order. */
  function Others(names: seq<string>): seq<string>
  {
    if names == [] then []
    else Others(names[..|names| - 1]) + (if names[|names| - 1] != Readme then [names[|names| - 1]] else [])
  }

  /** Others drops every README.md and keeps every other name as often as it occurs. */
  lemma {:induction false} OthersCount(names: seq<string>, x: string)
    ensures multiset(Others(names))[x] == if x == Readme then 0 else multiset(names)[x]
  {
    if names != [] {
      var init := names[..|names| - 1];
      OthersCount(init, x);
      assert names == init + [names[|names| - 1]];
    }
  }

  function InCurrent(names: seq<string>): (r: seq<Doc>)
    ensures |r| == |names| && forall i :: 0 <= i < |names| ==> r[i] == Doc(Current, names[i])
  {
    if names == [] then [] else [Doc(Current, names[0])] + InCurrent(names[1..])
  }

  /** The documents converted, in order: README.md from the parent folder if it is there, then the rest sorted. */
  function DocumentList(mdFiles: seq<string>, parentMdFiles: seq<string>): seq<Doc>
  {
    (if Readme in parentMdFiles then [Doc(Parent, Readme)] else []) + InCurrent(SortNames(Others(mdFiles)))
  }

  /** The number of documents before the current folder's files: one README.md or none. */
  function Head(parentMdFiles: seq<string>): nat
  {
    if Readme in parentMdFiles then 1 else 0
  }

  /** The current folder's part of the list: what follows the parent's README.md, if any. */
  lemma {:induction false} DocumentListRest(mdFiles: seq<string>, parentMdFiles: seq<string>)
    ensures Head(parentMdFiles) <= |DocumentList(mdFiles, parentMdFiles)|
    ensures DocumentList(mdFiles, parentMdFiles)[Head(parentMdFiles)..] == InCurrent(SortNames(Others(mdFiles)))
  {
  }

  /** The list starts with the parent folder's README.md exactly when the parent has one. */
  lemma {:induction false} DocumentListReadmeFirst(mdFiles: seq<string>, parentMdFiles: seq<string>)
    ensures var docs := DocumentList(mdFiles, parentMdFiles);
      |docs| > 0 && docs[0] == Doc(Parent, Readme) <==> Readme in parentMdFiles
  {
    var docs := DocumentList(mdFiles, parentMdFiles);
    DocumentListRest(mdFiles, parentMdFiles);
    if Readme !in parentMdFiles && |docs| > 0 {
      assert docs[0] == InCurrent(SortNames(Others(mdFiles)))[0];
    }
  }

  /** After README.md come only the current folder's files, sorted by name. */
  lemma {:induction false} DocumentListSorted(mdFiles: seq<string>, parentMdFiles: seq<string>)
    ensures Head(parentMdFiles) <= |DocumentList(mdFiles, parentMdFiles)|
    ensures var rest := DocumentList(mdFiles, parentMdFiles)[Head(parentMdFiles)..];
      && (forall i :: 0 <= i < |rest| ==> rest[i].folder == Current)
      && (forall i :: 0 < i < |rest| ==> LexLeq(rest[i - 1].name, rest[i].name))
  {
    DocumentListRest(mdFiles, parentMdFiles);
    SortNamesCorrect(Others(mdFiles));
  }

  /**
   * The current folder's part holds exactly the current folder's names other than
   * README.md, each as often as it was found.
   */
  lemma {:induction false} DocumentListCounts(mdFiles: seq<string>, parentMdFiles: seq<string>, x: string)
    ensures Head(parentMdFiles) <= |DocumentList(mdFiles, parentMdFiles)|
    ensures var rest := DocumentList(mdFiles, parentMdFiles)[Head(parentMdFiles)..];
      multiset(Names(rest))[x] == if x == Readme then 0 else multiset(mdFiles)[x]
  {
    DocumentListRest(mdFiles, parentMdFiles);
    var sorted := SortNames(Others(mdFiles));
    SortNamesCorrect(Others(mdFiles));
    OthersCount(mdFiles, x);
    assert Names(InCurrent(sorted)) == sorted;
  }

  function Names(docs: seq<Doc>): (r: seq<string>)
    ensures |r| == |docs| && forall i :: 0 <= i < |docs| ==> r[i] == docs[i].name
  {
    if docs == [] then [] else [docs[0].name] + Names(docs[1..])
  }

  /**
   * Collecting the documents as the converter does: one pass over the parent
   * folder's names looking for README.md, one pass over the current folder's
   * names keeping the others, an in-place sort of those by name, and the final
   * list with README.md (when found) in front.
   */
  method CollectDocuments(mdFiles: seq<string>, parentMdFiles: seq<string>) returns (readmeFound: bool, allFiles: seq<Doc>)
    ensures readmeFound == (Readme in parentMdFiles)
    ensures allFiles == DocumentList(mdFiles, parentMdFiles)
  {
    readmeFound := false;
    for i := 0 to |parentMdFiles|
      invariant readmeFound == (Readme in parentMdFiles[..i])
    {
      assert parentMdFiles[..i + 1] == parentMdFiles[..i] + [parentMdFiles[i]];
      if parentMdFiles[i] == Readme {
        readmeFound := true;
      }
    }
    assert parentMdFiles[..|parentMdFiles|] == parentMdFiles;
    var otherFiles: seq<string> := [];
    for i := 0 to |mdFiles|
      invariant otherFiles == Others(mdFiles[..i])
    {
      assert mdFiles[..i + 1][..i] == mdFiles[..i];
      if mdFiles[i] != Readme {
        otherFiles := otherFiles + [mdFiles[i]];
      }
    }
    assert mdFiles[..|mdFiles|] == mdFiles;
    otherFiles := SortNames(otherFiles);
    allFiles := [];
    if readmeFound {
      allFiles := allFiles + [Doc(Parent, Readme)];
    }
    allFiles := allFiles + InCurrent(otherFiles);
  }

  // ---------------------------------------------------------------------------
  // Names and titles

  /** name.rfind('.'): the last position holding a dot, or -1. */
  function LastDot(name: string): (r: int)
    ensures -1 <= r < |name| && (r >= 0 ==> name[r] == '.')
    ensures forall j :: r < j < |name| ==> name[j] != '.'
  {
    if name == [] then -1
    else if name[|name| - 1] == '.' then |name| - 1
    else LastDot(name[..|name| - 1])
  }

  /** Path.stem: the name without its last suffix; a leading or trailing dot starts no suffix. */
  function Stem(name: string): string
  {
    var i := LastDot(name);
    if 0 < i < |name| - 1 then name[..i] else name
  }

  /** The output file: the stem followed by .html. */
  function HtmlName(name: string): string
  {
    Stem(name) + ".html"
  }

  /** A glob result <s>.md is written to <s>.html; the bare name .md has no suffix and gives .md.html. */
  lemma {:induction false} HtmlNameOfMd(s: string)
    ensures s != [] ==> Stem(s + ".md") == s && HtmlName(s + ".md") == s + ".html"
    ensures HtmlName(".md") == ".md.html"
  {
    var n := s + ".md";
    var i := LastDot(n);
    assert n[|s|] == '.' && n[|s| + 1] == 'm' && n[|s| + 2] == 'd';
    assert i == |s|;
    assert n[..|s|] == s;
    var d := ".md";
    assert LastDot(d) == 0 by {
      assert d[0] == '.' && d[1] == 'm' && d[2] == 'd';
    }
  }

  lemma {:induction false} ReadmeHtmlName()
    ensures HtmlName(Readme) == ReadmeHtml
  {
    HtmlNameOfMd("README");
    assert "README" + ".md" == Readme;
  }

  predicate IsUpper(c: char) { 'A' <= c <= 'Z' }
  predicate IsLower(c: char) { 'a' <= c <= 'z' }
  /** A character that has case (ASCII letters only). */
  predicate IsCased(c: char) { IsUpper(c) || IsLower(c) }

  function ToUpper(c: char): (r: char)
    ensures IsCased(r) == IsCased(c) && (IsCased(c) ==> IsUpper(r)) && (!IsCased(c) ==> r == c)
  {
    if IsLower(c) then (c as int - 32) as char else c
  }

  function ToLower(c: char): (r: char)
    ensures IsCased(r) == IsCased(c) && (IsCased(c) ==> IsLower(r)) && (!IsCased(c) ==> r == c)
  {
    if IsUpper(c) then (c as int + 32) as char else c
  }

  /** s.replace(a, b) for single characters. */
  function ReplaceChar(s: string, a: char, b: char): (r: string)
    ensures |r| == |s|
    ensures forall i :: 0 <= i < |s| ==> r[i] == (if s[i] == a then b else s[i])
  {
    if s == [] then [] else [if s[0] == a then b else s[0]] + ReplaceChar(s[1..], a, b)
  }

  /**
   * str.title() from a position whose previous character was cased (afterCased)
   * or not: the first cased character of each run of cased characters is
   * upper-cased and the rest lower-cased.
   */
  function TitleFrom(s: string, afterCased: bool): (r: string)
    ensures |r| == |s|
  {
    if s == [] then []
    else [if afterCased then ToLower(s[0]) else ToUpper(s[0])] + TitleFrom(s[1..], IsCased(s[0]))
  }

  /** Whether the character before position i of s is cased, with `start` standing for the position before 0. */
  predicate CasedBefore(s: string, i: nat, start: bool)
    requires i < |s|
  {
    if i == 0 then start else IsCased(s[i - 1])
  }

  /** Each character of the title is its input character upper-cased where a word starts and lower-cased elsewhere. */
  lemma {:induction false} TitleFromAt(s: string, afterCased: bool)
    ensures forall i :: 0 <= i < |s| ==>
      TitleFrom(s, afterCased)[i] == (if CasedBefore(s, i, afterCased) then ToLower(s[i]) else ToUpper(s[i]))
  {
    if s != [] {
      TitleFromAt(s[1..], IsCased(s[0]));
      forall i | 0 < i < |s|
        ensures TitleFrom(s, afterCased)[i] == (if CasedBefore(s, i, afterCased) then ToLower(s[i]) else ToUpper(s[i]))
      {
        assert TitleFrom(s, afterCased)[i] == TitleFrom(s[1..], IsCased(s[0]))[i - 1];
        assert CasedBefore(s[1..], i - 1, IsCased(s[0])) == CasedBefore(s, i, afterCased);
      }
    }
  }

  /** The page title: md_file.stem.replace('_', ' ').replace('-', ' ').title(). */
  function Title(stem: string): string
  {
    TitleFrom(ReplaceChar(ReplaceChar(stem, '_', ' '), '-', ' '), false)
  }

  /** The separators each become a space, and the casing follows the word boundaries of the stem. */
  lemma {:induction false} TitleAt(stem: string)
    ensures |Title(stem)| == |stem|
    ensures forall i :: 0 <= i < |stem| ==>
      Title(stem)[i] == (if stem[i] == '_' || stem[i] == '-' then ' '
                         else if CasedBefore(stem, i, false) then ToLower(stem[i]) else ToUpper(stem[i]))
  {
    var r := ReplaceChar(ReplaceChar(stem, '_', ' '), '-', ' ');
    TitleFromAt(r, false);
    forall i | 0 <= i < |stem| ensures CasedBefore(r, i, false) == CasedBefore(stem, i, false) {
      if i > 0 {
        assert IsCased(r[i - 1]) == IsCased(stem[i - 1]);
      }
    }
  }

  /** The title holds no underscore and no hyphen. */
  lemma {:induction false} TitleHasNoSeparators(stem: string)
    ensures '_' !in Title(stem) && '-' !in Title(stem)
  {
    TitleAt(stem);
    var t := Title(stem);
    forall i | 0 <= i < |t| ensures t[i] != '_' && t[i] != '-' {
      if !(stem[i] == '_' || stem[i] == '-') {
        assert t[i] == ToLower(stem[i]) || t[i] == ToUpper(stem[i]);
      }
    }
  }

  // ---------------------------------------------------------------------------
  // One document and the whole run

  /** What the run records for a converted file: its name, its title and its output file. */
  datatype Converted = Converted(name: string, title: string, htmlFile: string)

  /** A converted file with the HTML body that goes into the page template. */
  datatype Page = Page(entry: Converted, html: string)

  function Entry(doc: Doc): Converted
  {
    Converted(doc.name, Title(Stem(doc.name)), HtmlName(doc.name))
  }

  /**
   * One file's text through the pipeline: fence repair, diagram extraction, the
   * Markdown converter, then restoration; None where a placeholder names a diagram
   * that was never stored (the list lookup raises and the run stops).
   */
  function ConvertDocument(content: string, markdown: string -> string): Option<string>
  {
    var e := Mermaid.Extract(Fences.FixContent(content), 0, 0);
    Mermaid.Restore(markdown(e.text), 0, e.blocks)
  }

  /** The text contains neither "<p>" nor the placeholder head, so restoration can only see placeholders. */
  predicate NoMarkers(t: string)
  {
    !Occurs(t, Mermaid.ParaOpen) && !Occurs(t, Mermaid.TokenHead)
  }

  /**
   * With a converter that returns its input, a file whose repaired text holds no
   * marker comes out as that text with each mermaid block turned into its div.
   */
  lemma {:induction false} ConvertDocumentIdentity(content: string, markdown: string -> string)
    requires forall s :: markdown(s) == s
    requires NoMarkers(Fences.FixContent(content))
    ensures ConvertDocument(content, markdown) == Some(Mermaid.Render(Fences.FixContent(content), 0))
  {
    var fixed := Fences.FixContent(content);
    var e := Mermaid.Extract(fixed, 0, 0);
    assert markdown(e.text) == e.text;
    Mermaid.RoundTrip(fixed);
  }

  /** The per-file conversion the run applies, with the given Markdown converter. */
  function Converter(markdown: string -> string): string -> Option<string>
  {
    content => ConvertDocument(content, markdown)
  }

  /** The pages of the documents in order, each converted by `convert`; None as soon as one fails. */
  function Pages(docs: seq<Doc>, read: Doc -> string, convert: string -> Option<string>): Option<seq<Page>>
  {
    if docs == [] then Some([])
    else match convert(read(docs[0]))
      case None => None
      case Some(html) =>
        match Pages(docs[1..], read, convert)
        case None => None
        case Some(rest) => Some([Page(Entry(docs[0]), html)] + rest)
  }

  /**
   * The run succeeds exactly when every document converts, and then it has one page
   * per document, in the documents' order, named after its document and holding
   * that document's converted text.
   */
  lemma {:induction false} PagesAt(docs: seq<Doc>, read: Doc -> string, convert: string -> Option<string>)
    ensures Pages(docs, read, convert).Some? <==> forall i :: 0 <= i < |docs| ==> convert(read(docs[i])).Some?
    ensures Pages(docs, read, convert).Some? ==>
      var ps := Pages(docs, read, convert).value;
      |ps| == |docs| && forall i :: 0 <= i < |docs| ==> ps[i] == Page(Entry(docs[i]), convert(read(docs[i])).value)
  {
    if docs != [] {
      var tl := docs[1..];
      PagesAt(tl, read, convert);
      assert forall j :: 0 <= j < |tl| ==> tl[j] == docs[j + 1];
      if convert(read(docs[0])).Some? && Pages(tl, read, convert).Some? {
        var ps := Pages(docs, read, convert).value;
        forall i | 1 <= i < |docs| ensures ps[i] == Page(Entry(docs[i]), convert(read(docs[i])).value) {
          assert ps[i] == Pages(tl, read, convert).value[i - 1];
        }
      }
    }
  }

  /** With the identity converter and marker-free files, every document is converted and its diagrams restored in place. */
  lemma {:induction false} PagesIdentity(docs: seq<Doc>, read: Doc -> string, markdown: string -> string)
    requires forall s :: markdown(s) == s
    requires forall i :: 0 <= i < |docs| ==> NoMarkers(Fences.FixContent(read(docs[i])))
    ensures Pages(docs, read, Converter(markdown)).Some?
    ensures var ps := Pages(docs, read, Converter(markdown)).value;
      |ps| == |docs| && forall i :: 0 <= i < |docs| ==>
        ps[i] == Page(Entry(docs[i]), Mermaid.Render(Fences.FixContent(read(docs[i])), 0))
  {
    var convert := Converter(markdown);
    forall i | 0 <= i < |docs|
      ensures convert(read(docs[i])) == Some(Mermaid.Render(Fences.FixContent(read(docs[i])), 0))
    {
      ConvertDocumentIdentity(read(docs[i]), markdown);
    }
    PagesAt(docs, read, convert);
  }

  /** Pages of the documents before i followed by the outcome for the rest. */
  function Prepend(done: seq<Page>, rest: Option<seq<Page>>): Option<seq<Page>>
  {
    match rest
    case None => None
    case Some(ps) => Some(done + ps)
  }

  /** Before the loop: no page yet, all documents still to convert. */
  lemma {:induction false} PagesStart(docs: seq<Doc>, read: Doc -> string, convert: string -> Option<string>)
    ensures Pages(docs, read, convert) == Prepend([], Pages(docs[0..], read, convert))
  {
    assert docs[0..] == docs;
    match Pages(docs, read, convert)
    case None =>
    case Some(ps) => assert [] + ps == ps;
  }

  /** One document converted: a failure ends the run, a page extends the pages so far. */
  lemma {:induction false} PagesStep(docs: seq<Doc>, read: Doc -> string, convert: string -> Option<string>, done: seq<Page>, i: nat)
    requires i < |docs|
    requires Pages(docs, read, convert) == Prepend(done, Pages(docs[i..], read, convert))
    ensures convert(read(docs[i])).None? ==> Pages(docs, read, convert) == None
    ensures convert(read(docs[i])).Some? ==>
      Pages(docs, read, convert) == Prepend(done + [Page(Entry(docs[i]), convert(read(docs[i])).value)], Pages(docs[i + 1..], read, convert))
  {
    var tl := docs[i..];
    assert tl[0] == docs[i] && tl[1..] == docs[i + 1..];
    match Pages(docs[i + 1..], read, convert)
    case None =>
    case Some(ps) =>
      if convert(read(docs[i])).Some? {
        var p := Page(Entry(docs[i]), convert(read(docs[i])).value);
        assert done + ([p] + ps) == (done + [p]) + ps;
      }
  }

  /** When all documents are converted, the pages so far are the whole result. */
  lemma {:induction false} PagesEnd(docs: seq<Doc>, read: Doc -> string, convert: string -> Option<string>, done: seq<Page>)
    requires Pages(docs, read, convert) == Prepend(done, Pages(docs[|docs|..], read, convert))
    ensures Pages(docs, read, convert) == Some(done)
  {
    assert docs[|docs|..] == [];
    assert done + [] == done;
  }

  /**
   * One iteration of the conversion loop on a file's text: the fence repair, the
   * extraction (filling the list of diagram bodies), the Markdown converter and
   * the restoration.
   */
  method ConvertOne(content: string, markdown: string -> string) returns (html: Option<string>)
    ensures html == ConvertDocument(content, markdown)
  {
    var fixed := Fences.FixIndentedCodeBlocks(content);
    var text, blocks := Mermaid.ExtractMermaid(fixed);
    html := Mermaid.Restore(markdown(text), 0, blocks);
  }

  /**
   * The conversion loop: each document in turn is read and converted and its page
   * appended; a failed restoration ends the run with nothing further produced.
   */
  method ConvertAll(docs: seq<Doc>, read: Doc -> string, markdown: string -> string) returns (pages: Option<seq<Page>>)
    ensures pages == Pages(docs, read, Converter(markdown))
  {
    var convert := Converter(markdown);
    var done: seq<Page> := [];
    var i := 0;
    PagesStart(docs, read, convert);
    while i < |docs|
      invariant 0 <= i <= |docs|
      invariant Pages(docs, read, convert) == Prepend(done, Pages(docs[i..], read, convert))
      decreases |docs| - i
    {
      var html := ConvertOne(read(docs[i]), markdown);
      PagesStep(docs, read, convert, done, i);
      if html.None? {
        return None;
      }
      done := done + [Page(Entry(docs[i]), html.value)];
      i := i + 1;
    }
    PagesEnd(docs, read, convert, done);
    pages := Some(done);
  }

  /** The page the viewer opens first. */
  function InitialSrc(readmeFound: bool, converted: seq<Converted>): string
  {
    if readmeFound then ReadmeHtml
    else if converted != [] then converted[0].htmlFile
    else Blank
  }

  function Entries(pages: seq<Page>): (r: seq<Converted>)
    ensures |r| == |pages| && forall i :: 0 <= i < |pages| ==> r[i] == pages[i].entry
  {
    if pages == [] then [] else [pages[0].entry] + Entries(pages[1..])
  }

  /**
   * The whole run on the two folders' names: the documents in order, their pages,
   * and the page opened first; None when a restoration fails.
   */
  method ConvertMdToHtml(mdFiles: seq<string>, parentMdFiles: seq<string>, read: Doc -> string, markdown: string -> string)
    returns (r: Option<(seq<Page>, string)>)
    ensures r.Some? <==> Pages(DocumentList(mdFiles, parentMdFiles), read, Converter(markdown)).Some?
    ensures r.Some? ==> r.value.0 == Pages(DocumentList(mdFiles, parentMdFiles), read, Converter(markdown)).value
    ensures r.Some? ==> r.value.1 == (if r.value.0 == [] then Blank else r.value.0[0].entry.htmlFile)
  {
    var readmeFound, allFiles := CollectDocuments(mdFiles, parentMdFiles);
    var pages := ConvertAll(allFiles, read, markdown);
    if pages.None? {
      return None;
    }
    InitialIsFirstPage(mdFiles, parentMdFiles, read, Converter(markdown));
    r := Some((pages.value, InitialSrc(readmeFound, Entries(pages.value))));
  }

  /**
   * The initial page is README.html when the parent folder has a README, which is
   * then the first page converted; otherwise the first page's file, or about:blank.
   * Either way it is the first converted page, when there is one.
   */
  lemma {:induction false} InitialIsFirstPage(mdFiles: seq<string>, parentMdFiles: seq<string>, read: Doc -> string, convert: string -> Option<string>)
    requires Pages(DocumentList(mdFiles, parentMdFiles), read, convert).Some?
    ensures var ps := Pages(DocumentList(mdFiles, parentMdFiles), read, convert).value;
      InitialSrc(Readme in parentMdFiles, Entries(ps)) == (if ps == [] then Blank else ps[0].entry.htmlFile)
  {
    var docs := DocumentList(mdFiles, parentMdFiles);
    PagesAt(docs, read, convert);
    if Readme in parentMdFiles {
      assert docs[0] == Doc(Parent, Readme);
      ReadmeHtmlName();
    }
  }
}
