# Markdown-to-HTML documentation converter: a Dafny model

`documents/convert_to_html.py` turns a folder of Markdown documents into HTML pages for a
documentation viewer. For each run it does the following:

- It collects the documents: the parent folder's `README.md`, if there is one, comes first. After it
  come the current folder's other `.md` files, sorted by name.
- It repairs each file's fenced code blocks. A fence line loses its leading whitespace. A line
  inside the block that starts with as many spaces as its opening fence was indented loses those
  spaces; a line indented less, or with tabs, is kept as it is.
- It takes every fenced `mermaid` diagram out of the text and leaves a numbered placeholder
  `XMERMAIDIDX<n>XEND` in its place.
- It runs the Markdown converter.
- It puts each diagram back as a `<div class="mermaid">`. The placeholder is replaced whether it
  stands bare or the converter wrapped it in `<p>…</p>`.
- It derives each page's title and output file name from the file name.
- It computes which page the viewer should open first (the script computes this value and does not
  use it further).

The model has four modules:

- `Text` holds the Python string operations used: `str.isspace`, `lstrip`, `split('\n')` and
  `'\n'.join`, `str(n)` and `int(...)` on digit strings.
- `Fences` models the fence repair. It is a line-by-line state machine, with an imperative method
  proved equal to its functional specification.
- `Mermaid` models the two regular-expression substitutions. Each is written as a scanner that
  follows Python's `re.sub`:
  - it picks the leftmost match;
  - it tries the alternatives in the engine's backtracking order;
  - it resumes after each match.

  Extraction is also an imperative method that fills the list of diagram bodies. The module proves
  the round trip: with a Markdown converter that changes nothing, extraction followed by restoration
  turns every diagram into its `div` in place.
- `Documents` models the rest of the run:
  - the document order;
  - `Path.stem`, the output name and `str.title()`;
  - the per-file pipeline, with the Markdown library as a function parameter;
  - the conversion loop, which stops at the first failed restoration;
  - the initial page it computes.

Folders are given as the lists of names their globs return. File contents are given by a function
from documents to text.

## Model

| member | source | states |
|---|---|---|
| Text.LeadingSpaces | documents/convert_to_html.py:736 | the whitespace prefix that `lstrip` removes is all whitespace and stops at the first non-whitespace character |
| Text.JoinSplit | documents/convert_to_html.py:730-750 | joining the lines that `split('\n')` returns gives back the text |
| Text.SplitJoin | documents/convert_to_html.py:730-750 | splitting a join of newline-free lines gives back the lines |
| Text.ParseNatToString | documents/convert_to_html.py:760-784 | `int()` of the decimal digits written for a placeholder number is that number |
| Fences.EmitRemovesLeadingWhitespace | documents/convert_to_html.py:735-748 | each emitted line is its input line with some leading whitespace removed. A fence line is emitted starting with three backticks. Outside a block a non-fence line is unchanged. Inside a block a non-fence line is unchanged or loses exactly the block's indentation |
| Fences.FixAt | documents/convert_to_html.py:735-748 | the i-th output line is the i-th input line emitted in the state the lines before it leave |
| Fences.InsideIffOddFences | documents/convert_to_html.py:737-744 | after some lines, the pass is inside a block exactly when an odd number of them were fences |
| Fences.NoFenceUnchanged | documents/convert_to_html.py:745-748 | lines without any fence pass through unchanged |
| Fences.NoFenceContentUnchanged | documents/convert_to_html.py:730-750 | a text without fence lines is returned as it was |
| Fences.FixContentLines | documents/convert_to_html.py:730-750 | the repaired text has as many lines as the input, and line i of it is input line i as the state machine emits it |
| Fences.FenceLineFixed | documents/convert_to_html.py:735-744 | in the repaired file, a fence line appears left-stripped. With an even number of fence lines before it, it opens a block that records its own indentation; with an odd number, it closes the block |
| Fences.CodeLineFixed | documents/convert_to_html.py:735-748 | a non-fence line after an odd number of fence lines, the last at line j, loses exactly as many leading characters as line j was indented when it starts with that many spaces, and is kept as it is otherwise |
| Fences.OutsideLineFixed | documents/convert_to_html.py:745-748 | a non-fence line after an even number of fence lines is kept as it is |
| Fences.FixIndentedCodeBlocks | documents/convert_to_html.py:729-750 | the loop over the lines with its two state variables computes the functional pass |
| Mermaid.TryNewlinesSound | documents/convert_to_html.py:763 | the newline the greedy `\s*\n` gives back, with the lazy body and the closing found after it, forms an instance of the pattern |
| Mermaid.MatchAtSound | documents/convert_to_html.py:763 | a match found at a position is an instance of the pattern: the opening fence, whitespace ending in a newline, the shortest body, a newline, whitespace and the closing backticks |
| Mermaid.MatchAtComplete | documents/convert_to_html.py:763 | wherever the pattern has an instance, the scanner finds a match there; the match found is the instance whose whitespace before the body is longest (greedy `\s*`), and it is the only instance with that body start |
| Mermaid.FindMermaidLeftmost | documents/convert_to_html.py:762-767 | no instance of the pattern starts between the scan position and the match the scan reports |
| Mermaid.MatchesScan | documents/convert_to_html.py:762-767 | no instance of the pattern starts before the first match replaced, between one match's end and the next match, or after the last; with no match replaced, the text has no instance at all |
| Mermaid.MatchesSound | documents/convert_to_html.py:762-767 | every match the substitution replaces is an instance of the pattern |
| Mermaid.ExtractBlocks | documents/convert_to_html.py:756-760 | diagram bodies are stored in order of appearance: body i is the body of the i-th match |
| Mermaid.ExtractMermaid | documents/convert_to_html.py:756-767 | the substitution with its closure appending to the list yields the extraction's text and list of bodies |
| Mermaid.TokenHasNoUnderscore | documents/convert_to_html.py:753-760 | neither the placeholder nor its core contains an underscore |
| Mermaid.RestoreAtIff | documents/convert_to_html.py:783-790 | the matcher reports a match at p naming diagram idx and ending at e exactly when `<p>\s*XMERMAIDIDX(\d+)XEND\s*</p>` or `XMERMAIDIDX(\d+)XEND` matches there, its digits read as idx by `int()` |
| Mermaid.NoMatchBetweenIff | documents/convert_to_html.py:788-792 | the search from r passes position a with no match exactly when the pattern matches nowhere in between |
| Mermaid.RestoreUnchanged | documents/convert_to_html.py:788-792 | text in which the pattern matches nowhere, such as ordinary paragraphs, comes through restoration unchanged |
| Mermaid.RestoreBare | documents/convert_to_html.py:783-792 | in any text, a bare placeholder at a, with the pattern matching nowhere between r and a, is replaced by the `div` of the body stored under its number: the result from r is the text up to a, that `div`, then the rest restored, and it fails when the rest fails or when no body has that number |
| Mermaid.RestoreWrapped | documents/convert_to_html.py:783-792 | in any text, `<p>`, whitespace, a placeholder, whitespace and `</p>` at a, with the pattern matching nowhere between r and a, are replaced as a whole by the placeholder's `div`, followed by the rest restored; restoration fails when the rest fails or when no body has that number |
| Mermaid.RestoreFound | documents/convert_to_html.py:783-792 | where the pattern matches at a, naming diagram idx, and nowhere between r and a, restoration from r fails if no body has number idx (the `IndexError` of the list lookup), and otherwise gives the text before a, that body's `div` and the rest restored, failing exactly when the rest fails |
| Mermaid.RestoreCopied | documents/convert_to_html.py:788-792 | text holding neither `<p>` nor `XMERMAIDIDX` comes through restoration unchanged |
| Mermaid.RestoreExtracted | documents/convert_to_html.py:752-792 | restoring the text after any suffix of the extraction gives that part of the text with each diagram as its `div` |
| Mermaid.RoundTrip | documents/convert_to_html.py:752-792 | restoring the extracted text with the extracted bodies gives the original text with each diagram turned into its `div` in place |
| Documents.LexLeqTotal | documents/convert_to_html.py:712 | any two names are comparable in the order the sort uses |
| Documents.LexLeqAntisymmetric | documents/convert_to_html.py:712 | names that are each at most the other are equal |
| Documents.InsertSorted | documents/convert_to_html.py:712 | inserting a name into a sorted list keeps it sorted |
| Documents.SortNamesCorrect | documents/convert_to_html.py:712 | the sorted names are in order and are the same names, each as often as before |
| Documents.OthersCount | documents/convert_to_html.py:708-710 | the kept names contain no `README.md` and every other name as often as the folder has it |
| Documents.DocumentListReadmeFirst | documents/convert_to_html.py:704-717 | the list starts with the parent's `README.md` exactly when the parent has one |
| Documents.DocumentListSorted | documents/convert_to_html.py:708-717 | after that come only current-folder files, in ascending order of name |
| Documents.DocumentListCounts | documents/convert_to_html.py:708-717 | those files are exactly the current folder's names other than `README.md`, each as often as it was found |
| Documents.CollectDocuments | documents/convert_to_html.py:701-717 | the two loops, the sort and the final list compute whether a README was found and the document list |
| Documents.LastDot | documents/convert_to_html.py:794-797 | the position found holds a dot and no later position does, or there is no dot |
| Documents.HtmlNameOfMd | documents/convert_to_html.py:797 | a file `<s>.md` is written to `<s>.html`; the name `.md` has no suffix and gives `.md.html` |
| Documents.ReadmeHtmlName | documents/convert_to_html.py:797-811 | `README.md` is written to `README.html` |
| Documents.TitleFromAt | documents/convert_to_html.py:794 | title-casing upper-cases a letter that follows a non-letter and lower-cases one that follows a letter |
| Documents.TitleAt | documents/convert_to_html.py:794 | each title character is a space where the stem has `_` or `-`, and is otherwise the stem's character cased by the word boundaries of the stem |
| Documents.TitleHasNoSeparators | documents/convert_to_html.py:794 | a title contains no `_` and no `-` |
| Documents.ConvertDocumentIdentity | documents/convert_to_html.py:729-792 | with a converter that returns its input, a marker-free file becomes its repaired text with each diagram as its `div` |
| Documents.ConvertOne | documents/convert_to_html.py:729-792 | one iteration's fence repair, extraction, conversion and restoration computes the per-file conversion |
| Documents.PagesAt | documents/convert_to_html.py:723-805 | the run succeeds exactly when every document converts. Then there is one page per document, in order, with its name, title, output file and converted text |
| Documents.PagesIdentity | documents/convert_to_html.py:723-805 | with a converter that returns its input, every page holds its file's repaired text with the diagrams restored |
| Documents.PagesStep | documents/convert_to_html.py:723-805 | converting the next document either ends the run or appends its page |
| Documents.ConvertAll | documents/convert_to_html.py:723-805 | the conversion loop yields the pages of all documents in order, or nothing when a restoration fails |
| Documents.InitialIsFirstPage | documents/convert_to_html.py:810-815 | the initial page is `README.html` when a README was found, and that is then the first page; otherwise it is the first page's file, or `about:blank` when there is none |
| Documents.ConvertMdToHtml | documents/convert_to_html.py:701-815 | the run fails exactly when a document's conversion fails; otherwise it gives the pages of the ordered documents, and its initial page is the first page's output file, or `about:blank` |

## Left out

- Reading and writing files, the directory globs and the console messages are left out. Folder
  contents are given as lists of names, and file contents as a function from document to text.
- The Markdown library (`markdown.markdown` with its extensions) is a function parameter. The round
  trip is proved for a converter that returns its input.
- The HTML template, its JavaScript, and the `__TITLE__`/`__CONTENT__` substitution are left out.
  A page records its title and converted body instead.
- Mermaid.RoundTrip: this property requires the repaired text to contain neither `<p>` nor
  `XMERMAIDIDX`. Restoration can also rewrite such text when it comes from the author, so the
  property may not hold for it (for instance, a `<p>` line directly before a diagram and a `</p>`
  line directly after it are removed together with the placeholder).
- Mermaid.RestoreBare, Mermaid.RestoreWrapped: the `IndexError` raised for a placeholder with no
  stored body is modelled as a failed result that ends the run. The pages already written are not
  modelled.
- `\d` and `int()` are limited to ASCII digits, and `\s` to the whitespace of `str.isspace`.
- `str.title()` is modelled for ASCII letters only. Unicode case mappings and other cased characters
  belong to the Python library.
- `Path.stem` follows the rule that a dot in first or last position starts no suffix.
- `list.sort` is modelled by an insertion sort on names, compared code point by code point. Its
  in-place update is not modelled.
- Documents.ConvertMdToHtml returns the initial page as part of its result. The script computes it and
  uses it no further.
- The repository's other code, including the token-refresh interceptor, is not part of this model.
