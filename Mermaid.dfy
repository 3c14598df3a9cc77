/**
 * Mermaid diagrams survive the Markdown conversion by being taken out first
 * and put back afterwards (documents/convert_to_html.py:752-792).
 *
 * Extraction is the substitution of the pattern  ```mermaid\s*\n(.*?)\n\s*```
 * (with `.` matching newlines) by a numbered placeholder, the body of the i-th
 * diagram being appended to a list at index i. Restoration is the substitution
 * of  <p>\s*XMERMAIDIDX(\d+)XEND\s*</p>  or  XMERMAIDIDX(\d+)XEND  by a
 * <div class="mermaid"> holding the body stored under that number.
 * Both substitutions scan left to right and resume after each match, as Python's
 * re.sub does; the scanners below work on positions of the whole text and follow
 * the backtracking order of each pattern.
 */
module Mermaid {
  import opened Text

  const Opening := "```mermaid"
  const Closing := "```"
  const TokenHead := "XMERMAIDIDX"
  const TokenTail := "XEND"
  const ParaOpen := "<p>"
  const ParaClose := "</p>"

  /** The placeholder core for diagram n: XMERMAIDIDX<n>XEND. */
  function Token(n: nat): string
  {
    TokenHead + NatToString(n) + TokenTail
  }

  /** What a diagram is replaced by in the Markdown text. */
  function Placeholder(n: nat): string
  {
    "\n" + Token(n) + "\n"
  }

  /** What a placeholder is replaced by in the HTML. */
  function Div(code: string): string
  {
    "<div class=\"mermaid\">\n" + code + "\n</div>"
  }

  /** The end of the whitespace run that starts at i (what a greedy \s* consumes). */
  function WsEnd(t: string, i: nat): (k: nat)
    requires i <= |t|
    ensures i <= k <= |t|
    decreases |t| - i
  {
    if i < |t| && IsSpace(t[i]) then WsEnd(t, i + 1) else i
  }

  /** WsEnd stops at the first character that is not whitespace. */
  lemma {:induction false} WsEndSpec(t: string, i: nat)
    requires i <= |t|
    ensures forall j :: i <= j < WsEnd(t, i) ==> IsSpace(t[j])
    ensures WsEnd(t, i) == |t| || !IsSpace(t[WsEnd(t, i)])
    decreases |t| - i
  {
    if i < |t| && IsSpace(t[i]) {
      WsEndSpec(t, i + 1);
    }
  }

  /** The end of the digit run that starts at i (what a greedy \d+ consumes). */
  function DigitsEnd(t: string, i: nat): (k: nat)
    requires i <= |t|
    ensures i <= k <= |t|
    ensures AllDigits(t[i..k])
    ensures k == |t| || !IsDigit(t[k])
    decreases |t| - i
  {
    if i < |t| && IsDigit(t[i]) then DigitsEnd(t, i + 1) else i
  }

  // ---------------------------------------------------------------------------
  // Extraction

  /** The tail  \n\s*```  of the extraction pattern matches at position j. */
  predicate ClosesAt(t: string, j: nat)
  {
    j < |t| && t[j] == '\n' && HasAt(t, WsEnd(t, j + 1), Closing)
  }

  /** The lazy body (.*?) ends at the first closing at or after j. */
  function FindClose(t: string, j: nat): (r: Option<nat>)
    requires j <= |t|
    ensures r.Some? ==> j <= r.value < |t| && ClosesAt(t, r.value)
    decreases |t| - j
  {
    if j == |t| then None
    else if ClosesAt(t, j) then Some(j)
    else FindClose(t, j + 1)
  }

  /** FindClose finds the first closing at or after j. */
  lemma {:induction false} FindCloseSpec(t: string, j: nat)
    requires j <= |t|
    ensures FindClose(t, j).Some? ==> forall m :: j <= m < FindClose(t, j).value ==> !ClosesAt(t, m)
    decreases |t| - j
  {
    if j < |t| && !ClosesAt(t, j) {
      FindCloseSpec(t, j + 1);
    }
  }

  /** A match: the body is t[bodyStart..bodyEnd] and the match ends at `end`. */
  datatype Match = Match(bodyStart: nat, bodyEnd: nat, end: nat)

  /**
   * m is an instance of the extraction pattern at position p of t: the opening
   * fence, whitespace ending in a newline, the body, a newline, whitespace and
   * three backticks; and the body is the shortest one possible (lazy).
   */
  predicate IsMermaidMatch(t: string, p: nat, m: Match)
  {
    p + |Opening| < m.bodyStart <= m.bodyEnd < m.end <= |t|
    && OccursAt(t, Opening, p)
    && t[m.bodyStart - 1] == '\n'
    && (forall j :: p + |Opening| <= j < m.bodyStart - 1 ==> IsSpace(t[j]))
    && ClosesAt(t, m.bodyEnd)
    && m.end == WsEnd(t, m.bodyEnd + 1) + |Closing|
    && (forall j :: m.bodyStart <= j < m.bodyEnd ==> !ClosesAt(t, j))
  }

  /**
   * The greedy \s*\n gives back characters one at a time: the newline positions k
   * of the whitespace run after the opening fence are tried from the last one down
   * to the first, and the first k after which a lazy body and its closing are
   * found wins.
   */
  function TryNewlines(t: string, p: nat, k: int): (r: Option<Match>)
    requires p + |Opening| <= |t| && p + |Opening| - 1 <= k < |t|
    ensures r.Some? ==> p + |Opening| < r.value.bodyStart <= r.value.bodyEnd < r.value.end <= |t|
    decreases k
  {
    if k < p + |Opening| then None
    else if t[k] == '\n' then
      match FindClose(t, k + 1)
      case Some(j) => Some(Match(k + 1, j, WsEnd(t, j + 1) + |Closing|))
      case None => TryNewlines(t, p, k - 1)
    else TryNewlines(t, p, k - 1)
  }

  /** The extraction pattern matched at position p of t, if it matches there. */
  function MatchAt(t: string, p: nat): (r: Option<Match>)
    ensures r.Some? ==> p + |Opening| < r.value.bodyStart <= r.value.bodyEnd < r.value.end <= |t|
  {
    if HasAt(t, p, Opening) then
      TryNewlines(t, p, WsEnd(t, p + |Opening|) - 1)
    else None
  }

  /** A newline at k ending the whitespace after the fence, and the first closing j after it, form a match. */
  lemma {:induction false} NewlineMatch(t: string, p: nat, k: nat, j: nat)
    requires p + |Opening| <= k < |t| && OccursAt(t, Opening, p) && t[k] == '\n'
    requires forall i :: p + |Opening| <= i <= k ==> IsSpace(t[i])
    requires FindClose(t, k + 1) == Some(j)
    ensures IsMermaidMatch(t, p, Match(k + 1, j, WsEnd(t, j + 1) + |Closing|))
  {
    FindCloseSpec(t, k + 1);
  }

  lemma {:induction false} TryNewlinesSound(t: string, p: nat, k: int)
    requires p + |Opening| <= |t| && p + |Opening| - 1 <= k < |t|
    requires OccursAt(t, Opening, p)
    requires forall j :: p + |Opening| <= j <= k ==> IsSpace(t[j])
    ensures TryNewlines(t, p, k).Some? ==> IsMermaidMatch(t, p, TryNewlines(t, p, k).value)
    decreases k
  {
    if k >= p + |Opening| {
      if t[k] == '\n' && FindClose(t, k + 1).Some? {
        NewlineMatch(t, p, k, FindClose(t, k + 1).value);
      } else {
        TryNewlinesSound(t, p, k - 1);
      }
    }
  }

  /** Whatever MatchAt finds is an instance of the pattern, with the shortest body. */
  lemma {:induction false} MatchAtSound(t: string, p: nat)
    ensures MatchAt(t, p).Some? ==> IsMermaidMatch(t, p, MatchAt(t, p).value)
  {
    HasAtIff(t, p, Opening);
    if HasAt(t, p, Opening) {
      WsEndSpec(t, p + |Opening|);
      TryNewlinesSound(t, p, WsEnd(t, p + |Opening|) - 1);
    }
  }

  /** A closing at x is found by the search from any j <= x, at x or before it. */
  lemma {:induction false} FindCloseFinds(t: string, j: nat, x: nat)
    requires j <= x && ClosesAt(t, x)
    ensures FindClose(t, j).Some? && FindClose(t, j).value <= x
    decreases x - j
  {
    if !ClosesAt(t, j) {
      FindCloseFinds(t, j + 1, x);
    }
  }

  /** Once the newline ending an instance's whitespace is reached, some newline at or after it succeeds. */
  lemma {:induction false} TryNewlinesComplete(t: string, p: nat, k: int, m: Match)
    requires p + |Opening| <= |t| && p + |Opening| - 1 <= k < |t|
    requires IsMermaidMatch(t, p, m) && m.bodyStart - 1 <= k
    ensures TryNewlines(t, p, k).Some? && TryNewlines(t, p, k).value.bodyStart >= m.bodyStart
    decreases k
  {
    if k == m.bodyStart - 1 {
      FindCloseFinds(t, k + 1, m.bodyEnd);
    } else if !(t[k] == '\n' && FindClose(t, k + 1).Some?) {
      TryNewlinesComplete(t, p, k - 1, m);
    }
  }

  /** A whitespace run covering [i, k] ends after k. */
  lemma {:induction false} WsEndPast(t: string, i: nat, k: nat)
    requires i <= k < |t|
    requires forall j :: i <= j <= k ==> IsSpace(t[j])
    ensures WsEnd(t, i) > k
    decreases k - i
  {
    if i < k {
      WsEndPast(t, i + 1, k);
    }
  }

  /** Two instances at the same position whose bodies start at the same place are the same match. */
  lemma {:induction false} MatchDeterminedByStart(t: string, p: nat, m1: Match, m2: Match)
    requires IsMermaidMatch(t, p, m1) && IsMermaidMatch(t, p, m2) && m1.bodyStart == m2.bodyStart
    ensures m1 == m2
  {
    if m1.bodyEnd < m2.bodyEnd {
      assert false;
    } else if m2.bodyEnd < m1.bodyEnd {
      assert false;
    }
  }

  /**
   * Wherever the pattern has an instance, MatchAt finds one, and the one it finds
   * is the instance whose opening whitespace is longest (the greedy \s*): every
   * instance at p has its body starting no later, and one starting at the same
   * place is the match found.
   */
  lemma {:induction false} MatchAtComplete(t: string, p: nat, m: Match)
    requires IsMermaidMatch(t, p, m)
    ensures MatchAt(t, p).Some? && IsMermaidMatch(t, p, MatchAt(t, p).value)
    ensures MatchAt(t, p).value.bodyStart >= m.bodyStart
    ensures MatchAt(t, p).value.bodyStart == m.bodyStart ==> MatchAt(t, p).value == m
  {
    HasAtIff(t, p, Opening);
    WsEndSpec(t, p + |Opening|);
    var w := WsEnd(t, p + |Opening|);
    WsEndPast(t, p + |Opening|, m.bodyStart - 1);
    TryNewlinesComplete(t, p, w - 1, m);
    MatchAtSound(t, p);
    if MatchAt(t, p).value.bodyStart == m.bodyStart {
      MatchDeterminedByStart(t, p, MatchAt(t, p).value, m);
    }
  }

  /** The leftmost match at or after position p. */
  function FindMermaid(t: string, p: nat): (r: Option<(nat, Match)>)
    requires p <= |t|
    ensures r.Some? ==> p <= r.value.0 < r.value.1.bodyStart <= r.value.1.bodyEnd < r.value.1.end <= |t|
    decreases |t| - p
  {
    if p == |t| then None
    else match MatchAt(t, p)
      case Some(m) => Some((p, m))
      case None => FindMermaid(t, p + 1)
  }

  /**
   * The matches re.finditer would report from position p on: the leftmost one,
   * then those after its end.
   */
  function Matches(t: string, p: nat): (r: seq<(nat, Match)>)
    requires p <= |t|
    ensures Ordered(t, p, r)
    decreases |t| - p
  {
    match FindMermaid(t, p)
    case None => []
    case Some((q, m)) => [(q, m)] + Matches(t, m.end)
  }

  /** Matches that lie in t from p on, each ending before the next begins. */
  predicate Ordered(t: string, p: nat, ms: seq<(nat, Match)>)
    decreases |ms|
  {
    ms == [] ||
    (p <= ms[0].0 < ms[0].1.bodyStart <= ms[0].1.bodyEnd < ms[0].1.end <= |t| && Ordered(t, ms[0].1.end, ms[1..]))
  }

  /** The text after extraction and the diagram bodies in the order they were met. */
  datatype Extraction = Extraction(text: string, blocks: seq<string>)

  /** Substitution of the matches ms in t from p on, the placeholders numbered from n. */
  function ExtractAll(t: string, p: nat, n: nat, ms: seq<(nat, Match)>): Extraction
    requires p <= |t| && Ordered(t, p, ms)
    decreases |ms|
  {
    if ms == [] then Extraction(t[p..], [])
    else
      var (q, m) := ms[0];
      var rest := ExtractAll(t, m.end, n + 1, ms[1..]);
      Extraction(t[p..q] + Placeholder(n) + rest.text, [t[m.bodyStart..m.bodyEnd]] + rest.blocks)
  }

  /** Extraction of t from position p on, the placeholders numbered from n. */
  function Extract(t: string, p: nat, n: nat): Extraction
    requires p <= |t|
  {
    ExtractAll(t, p, n, Matches(t, p))
  }

  /** The i-th stored body (counting from n) is the body of the i-th match: numbering follows the order of appearance. */
  lemma {:induction false} ExtractBlocks(t: string, p: nat, n: nat, ms: seq<(nat, Match)>)
    requires p <= |t| && Ordered(t, p, ms)
    ensures var blocks := ExtractAll(t, p, n, ms).blocks;
      |blocks| == |ms| && forall i :: 0 <= i < |ms| ==>
        ms[i].1.bodyStart <= ms[i].1.bodyEnd <= |t| && blocks[i] == t[ms[i].1.bodyStart..ms[i].1.bodyEnd]
    decreases |ms|
  {
    if ms != [] {
      ExtractBlocks(t, ms[0].1.end, n + 1, ms[1..]);
    }
  }

  /** Every match reported is an instance of the pattern. */
  lemma {:induction false} MatchesSound(t: string, p: nat)
    requires p <= |t|
    ensures forall i :: 0 <= i < |Matches(t, p)| ==> IsMermaidMatch(t, Matches(t, p)[i].0, Matches(t, p)[i].1)
    decreases |t| - p
  {
    match FindMermaid(t, p)
    case None =>
    case Some((q, m)) =>
      FindMermaidFound(t, p);
      MatchAtSound(t, q);
      MatchesSound(t, m.end);
  }

  /** A leftmost match found from p is the match at its own position. */
  lemma {:induction false} FindMermaidFound(t: string, p: nat)
    requires p <= |t| && FindMermaid(t, p).Some?
    ensures MatchAt(t, FindMermaid(t, p).value.0) == Some(FindMermaid(t, p).value.1)
    decreases |t| - p
  {
    if MatchAt(t, p).None? {
      FindMermaidFound(t, p + 1);
    }
  }

  /** No instance of the pattern starts at a position in [lo, hi). */
  ghost predicate NoInstanceIn(t: string, lo: nat, hi: nat)
  {
    forall q: nat, m: Match :: lo <= q < hi ==> !IsMermaidMatch(t, q, m)
  }

  /** The search from p skips no instance: none starts before the match it finds, or anywhere when it finds none. */
  lemma {:induction false} FindMermaidGap(t: string, p: nat)
    requires p <= |t|
    ensures FindMermaid(t, p).None? ==> NoInstanceIn(t, p, |t|)
    ensures FindMermaid(t, p).Some? ==> NoInstanceIn(t, p, FindMermaid(t, p).value.0)
  {
    forall q: nat, m: Match | p <= q < |t| && (FindMermaid(t, p).Some? ==> q < FindMermaid(t, p).value.0)
      ensures !IsMermaidMatch(t, q, m)
    {
      FindMermaidLeftmost(t, p, q);
    }
  }

  /**
   * The matches replaced are exactly the scan re.sub makes: no instance of the
   * pattern starts before the first match, between the end of one match and the
   * start of the next, or after the last; with no match, none starts at all.
   */
  lemma {:induction false} MatchesScan(t: string, p: nat)
    requires p <= |t|
    ensures var ms := Matches(t, p);
      && (ms == [] ==> NoInstanceIn(t, p, |t|))
      && (ms != [] ==> NoInstanceIn(t, p, ms[0].0) && NoInstanceIn(t, ms[|ms| - 1].1.end, |t|))
      && (forall i :: 0 < i < |ms| ==> NoInstanceIn(t, ms[i - 1].1.end, ms[i].0))
    decreases |t| - p
  {
    FindMermaidGap(t, p);
    match FindMermaid(t, p)
    case None =>
    case Some((q, m)) =>
      var ms := Matches(t, p);
      var rest := Matches(t, m.end);
      MatchesScan(t, m.end);
      assert ms == [(q, m)] + rest;
      if rest != [] {
        assert ms[|ms| - 1] == rest[|rest| - 1];
      }
      forall i | 0 < i < |ms| ensures NoInstanceIn(t, ms[i - 1].1.end, ms[i].0) {
        if i > 1 {
          assert ms[i - 1] == rest[i - 2] && ms[i] == rest[i - 1];
        }
      }
  }

  /** Every match of ms turned into its div in place. */
  function RenderAll(t: string, p: nat, ms: seq<(nat, Match)>): string
    requires p <= |t| && Ordered(t, p, ms)
    decreases |ms|
  {
    if ms == [] then t[p..]
    else
      var (q, m) := ms[0];
      t[p..q] + "\n" + Div(t[m.bodyStart..m.bodyEnd]) + "\n" + RenderAll(t, m.end, ms[1..])
  }

  /** The reference result: every diagram turned into its div in place, in one pass. */
  function Render(t: string, p: nat): string
    requires p <= |t|
  {
    RenderAll(t, p, Matches(t, p))
  }

  /** The search finds the leftmost match: no instance of the pattern starts between p and the one it returns. */
  lemma {:induction false} FindMermaidLeftmost(t: string, p: nat, q: nat)
    requires p <= q < |t|
    requires FindMermaid(t, p).Some? ==> q < FindMermaid(t, p).value.0
    ensures MatchAt(t, q).None?
    ensures forall m :: !IsMermaidMatch(t, q, m)
    decreases |t| - p
  {
    if p < q && MatchAt(t, p).None? {
      FindMermaidLeftmost(t, p + 1, q);
    }
    forall m | IsMermaidMatch(t, q, m) ensures false {
      MatchAtComplete(t, q, m);
    }
  }
  /**
   * One re.sub step: when the search from `last` first finds a match at `pos`, the text
   * before it and the placeholder join the output, and the body joins the list.
   */
  lemma {:induction false} ExtractAdvance(t: string, last: nat, pos: nat, m: Match, text: string, blocks: seq<string>)
    requires last <= pos < |t| && MatchAt(t, pos) == Some(m) && FindMermaid(t, last) == FindMermaid(t, pos)
    requires Extract(t, 0, 0).text == text + Extract(t, last, |blocks|).text
    requires Extract(t, 0, 0).blocks == blocks + Extract(t, last, |blocks|).blocks
    ensures Extract(t, 0, 0).text == text + t[last..pos] + Placeholder(|blocks|) + Extract(t, m.end, |blocks| + 1).text
    ensures Extract(t, 0, 0).blocks == blocks + [t[m.bodyStart..m.bodyEnd]] + Extract(t, m.end, |blocks| + 1).blocks
  {
    var rest := Extract(t, m.end, |blocks| + 1);
    assert Matches(t, last) == [(pos, m)] + Matches(t, m.end);
    assert Extract(t, last, |blocks|)
        == Extraction(t[last..pos] + Placeholder(|blocks|) + rest.text, [t[m.bodyStart..m.bodyEnd]] + rest.blocks);
    Assoc(text, t[last..pos], Placeholder(|blocks|), rest.text);
    Assoc3(blocks, [t[m.bodyStart..m.bodyEnd]], rest.blocks);
  }

  lemma {:induction false} Assoc3<T>(a: seq<T>, b: seq<T>, c: seq<T>)
    ensures a + (b + c) == a + b + c
  {
  }

  lemma {:induction false} Assoc<T>(a: seq<T>, b: seq<T>, c: seq<T>, d: seq<T>)
    ensures a + (b + c + d) == a + b + c + d
  {
  }

  /** When the search from p finds nothing, the extraction from p copies the rest of the text. */
  lemma {:induction false} ExtractEnd(t: string, p: nat, n: nat)
    requires p <= |t| && FindMermaid(t, p) == FindMermaid(t, |t|)
    ensures Extract(t, p, n) == Extraction(t[p..], [])
  {
  }

  /** No match at p: the search from p is the search from p + 1. */
  lemma {:induction false} FindMermaidSkip(t: string, p: nat)
    requires p < |t| && MatchAt(t, p).None?
    ensures FindMermaid(t, p) == FindMermaid(t, p + 1)
  {
  }

  /**
   * The extraction as the converter runs it: re.sub scans the text, and on each
   * match the callback appends the body to `mermaidBlocks` and returns the
   * placeholder numbered by the list's length before the append.
   */
  method ExtractMermaid(content: string) returns (text: string, mermaidBlocks: seq<string>)
    ensures Extraction(text, mermaidBlocks) == Extract(content, 0, 0)
  {
    text, mermaidBlocks := "", [];
    var last: nat, pos: nat := 0, 0;
    while pos < |content|
      invariant last <= pos <= |content|
      invariant FindMermaid(content, last) == FindMermaid(content, pos)
      invariant Extract(content, 0, 0).text == text + Extract(content, last, |mermaidBlocks|).text
      invariant Extract(content, 0, 0).blocks == mermaidBlocks + Extract(content, last, |mermaidBlocks|).blocks
      decreases |content| - pos
    {
      var found := MatchAt(content, pos);
      match found
      case Some(m) =>
        ExtractAdvance(content, last, pos, m, text, mermaidBlocks);
        text := text + content[last..pos] + Placeholder(|mermaidBlocks|);
        mermaidBlocks := mermaidBlocks + [content[m.bodyStart..m.bodyEnd]];
        pos := m.end;
        last := pos;
      case None =>
        FindMermaidSkip(content, pos);
        pos := pos + 1;
    }
    ExtractEnd(content, last, |mermaidBlocks|);
    text := text + content[last..];
  }

  // ---------------------------------------------------------------------------
  // Restoration


  /** Where a placeholder names a diagram: its number and the end of the matched text. */
  datatype TokenMatch = TokenMatch(index: nat, end: nat)

  /** XMERMAIDIDX(\d+)XEND at position i of u: the number and the end of the match. */
  function TokenAt(u: string, i: nat): (r: Option<TokenMatch>)
    requires i <= |u|
    ensures r.Some? ==> i + |TokenHead| < r.value.end <= |u|
  {
    if HasAt(u, i, TokenHead) then
      var d := DigitsEnd(u, i + |TokenHead|);
      if d > i + |TokenHead| && HasAt(u, d, TokenTail) then
        Some(TokenMatch(ParseDigits(u[i + |TokenHead|..d]), d + |TokenTail|))
      else None
    else None
  }

  /** The first alternative, <p>\s*XMERMAIDIDX(\d+)XEND\s*</p>, at position p of u. */
  function WrappedAt(u: string, p: nat): (r: Option<TokenMatch>)
    requires p <= |u|
    ensures r.Some? ==> p < r.value.end <= |u|
  {
    if HasAt(u, p, ParaOpen) then
      match TokenAt(u, WsEnd(u, p + |ParaOpen|))
      case Some(TokenMatch(idx, d)) =>
        var e := WsEnd(u, d);
        if HasAt(u, e, ParaClose) then Some(TokenMatch(idx, e + |ParaClose|))
        else None
      case None => None
    else None
  }

  /** The restoration pattern at position p of u: the first alternative, else the second. */
  function RestoreAt(u: string, p: nat): (r: Option<TokenMatch>)
    requires p <= |u|
    ensures r.Some? ==> p < r.value.end <= |u|
  {
    var wrapped := WrappedAt(u, p);
    if wrapped.Some? then wrapped
    else TokenAt(u, p)
  }

  /** The leftmost restoration match at or after position p. */
  function FindToken(u: string, p: nat): (r: Option<(nat, TokenMatch)>)
    requires p <= |u|
    ensures r.Some? ==> p <= r.value.0 < r.value.1.end <= |u|
    decreases |u| - p
  {
    if p == |u| then None
    else match RestoreAt(u, p)
      case Some(tm) => Some((p, tm))
      case None => FindToken(u, p + 1)
  }

  /**
   * restore_mermaid applied by re.sub to u from position p on. A placeholder whose
   * number has no stored diagram makes the list lookup fail (IndexError): None.
   */
  function Restore(u: string, p: nat, blocks: seq<string>): Option<string>
    requires p <= |u|
    decreases |u| - p
  {
    match FindToken(u, p)
    case None => Some(u[p..])
    case Some((q, tm)) =>
      if tm.index < |blocks| then
        match Restore(u, tm.end, blocks)
        case Some(rest) => Some(u[p..q] + Div(blocks[tm.index]) + rest)
        case None => None
      else None
  }


  /** No restoration match starts at any position of [p, k). */
  predicate NoMatchBetween(u: string, p: nat, k: nat)
    requires p <= k <= |u|
    decreases k - p
  {
    p == k || (RestoreAt(u, p).None? && NoMatchBetween(u, p + 1, k))
  }

  lemma {:induction false} NoMatchBetweenIntro(u: string, p: nat, k: nat)
    requires p <= k <= |u|
    requires forall q :: p <= q < k ==> RestoreAt(u, q).None?
    ensures NoMatchBetween(u, p, k)
    decreases k - p
  {
    if p < k {
      NoMatchBetweenIntro(u, p + 1, k);
    }
  }


  /** No restoration match starts in [p, k): the search from p gives what the search from k gives. */
  lemma {:induction false} FindTokenFrom(u: string, p: nat, k: nat)
    requires p <= k <= |u| && NoMatchBetween(u, p, k)
    ensures FindToken(u, p) == FindToken(u, k)
    decreases k - p
  {
    if p < k {
      FindTokenFrom(u, p + 1, k);
    }
  }

  // ---------------------------------------------------------------------------
  // The restoration pattern on its own, independent of the scanner

  /**
   * The second alternative, XMERMAIDIDX(\d+)XEND, matches u from p to e and names
   * diagram idx: the head, a non-empty run of ASCII digits that int() reads as idx,
   * and the tail ending at e.
   */
  predicate IsBareInstance(u: string, p: nat, idx: nat, e: nat)
  {
    p + |TokenHead| + |TokenTail| < e <= |u|
    && OccursAt(u, TokenHead, p)
    && OccursAt(u, TokenTail, e - |TokenTail|)
    && AllDigits(u[p + |TokenHead|..e - |TokenTail|])
    && idx == ParseDigits(u[p + |TokenHead|..e - |TokenTail|])
  }

  /**
   * The first alternative, <p>\s*XMERMAIDIDX(\d+)XEND\s*</p>, matches u from p to e:
   * <p>, whitespace up to s, a bare placeholder from s to te naming idx, whitespace,
   * and </p> ending at e.
   */
  predicate IsWrappedInstance(u: string, p: nat, s: nat, te: nat, idx: nat, e: nat)
  {
    p + |ParaOpen| <= s && te + |ParaClose| <= e <= |u|
    && OccursAt(u, ParaOpen, p)
    && IsBareInstance(u, s, idx, te)
    && (forall j :: p + |ParaOpen| <= j < s ==> IsSpace(u[j]))
    && (forall j :: te <= j < e - |ParaClose| ==> IsSpace(u[j]))
    && OccursAt(u, ParaClose, e - |ParaClose|)
  }

  /** The restoration pattern matches u from p to e, naming diagram idx, by one of its alternatives. */
  ghost predicate IsRestoreInstance(u: string, p: nat, idx: nat, e: nat)
  {
    IsBareInstance(u, p, idx, e) || exists s: nat, te: nat :: IsWrappedInstance(u, p, s, te, idx, e)
  }

  /** The restoration pattern matches nowhere in u starting in [lo, hi). */
  ghost predicate NoRestoreInstanceIn(u: string, lo: nat, hi: nat)
  {
    forall q: nat, idx: nat, e: nat :: lo <= q < hi ==> !IsRestoreInstance(u, q, idx, e)
  }

  lemma {:induction false} TokenAtSound(u: string, i: nat)
    requires i <= |u|
    ensures TokenAt(u, i).Some? ==> IsBareInstance(u, i, TokenAt(u, i).value.index, TokenAt(u, i).value.end)
  {
    if TokenAt(u, i).Some? {
      HasAtIff(u, i, TokenHead);
      HasAtIff(u, DigitsEnd(u, i + |TokenHead|), TokenTail);
    }
  }

  lemma {:induction false} TokenAtComplete(u: string, i: nat, idx: nat, e: nat)
    requires i <= |u|
    ensures IsBareInstance(u, i, idx, e) ==> TokenAt(u, i) == Some(TokenMatch(idx, e))
  {
    if IsBareInstance(u, i, idx, e) {
      var h, d := i + |TokenHead|, e - |TokenTail|;
      HasAtIff(u, i, TokenHead);
      HasAtIff(u, d, TokenTail);
      assert u[d] == u[d..e][0] == TokenTail[0];
      forall j | h <= j < d ensures IsDigit(u[j]) {
        assert u[j] == u[h..d][j - h];
      }
      DigitsEndAt(u, h, d);
    }
  }

  /** The parts WrappedAt checks form an instance of the first alternative. */
  lemma {:induction false} WrappedSoundParts(u: string, p: nat, s: nat, idx: nat, te: nat, c: nat)
    requires p + |ParaOpen| <= |u| && HasAt(u, p, ParaOpen) && s == WsEnd(u, p + |ParaOpen|)
    requires TokenAt(u, s) == Some(TokenMatch(idx, te)) && c == WsEnd(u, te) && HasAt(u, c, ParaClose)
    ensures IsWrappedInstance(u, p, s, te, idx, c + |ParaClose|)
  {
    HasAtIff(u, p, ParaOpen);
    HasAtIff(u, c, ParaClose);
    WsEndSpec(u, p + |ParaOpen|);
    WsEndSpec(u, te);
    TokenAtSound(u, s);
  }

  lemma {:induction false} WrappedAtSound(u: string, p: nat)
    requires p <= |u|
    ensures WrappedAt(u, p).Some? ==>
      exists s: nat, te: nat :: IsWrappedInstance(u, p, s, te, WrappedAt(u, p).value.index, WrappedAt(u, p).value.end)
  {
    if WrappedAt(u, p).Some? {
      var s := WsEnd(u, p + |ParaOpen|);
      var TokenMatch(idx, te) := TokenAt(u, s).value;
      var c := WsEnd(u, te);
      WrappedSoundParts(u, p, s, idx, te, c);
    }
  }

  /** An instance of the first alternative has the parts WrappedAt checks. */
  lemma {:induction false} WrappedCompleteParts(u: string, p: nat, s: nat, te: nat, idx: nat, e: nat)
    requires IsWrappedInstance(u, p, s, te, idx, e)
    ensures HasAt(u, p, ParaOpen) && WsEnd(u, p + |ParaOpen|) == s
    ensures WsEnd(u, te) == e - |ParaClose| && HasAt(u, e - |ParaClose|, ParaClose)
  {
    var c := e - |ParaClose|;
    HasAtIff(u, p, ParaOpen);
    HasAtIff(u, c, ParaClose);
    assert u[s] == u[s..s + |TokenHead|][0] == TokenHead[0];
    WsEndAt(u, p + |ParaOpen|, s);
    assert u[c] == u[c..e][0] == ParaClose[0];
    WsEndAt(u, te, c);
  }

  /** The first alternative, assembled from the parts WrappedAt checks. */
  lemma {:induction false} WrappedAtParts(u: string, p: nat, s: nat, idx: nat, te: nat, c: nat)
    requires p <= |u| && HasAt(u, p, ParaOpen) && WsEnd(u, p + |ParaOpen|) == s
    requires TokenAt(u, s) == Some(TokenMatch(idx, te)) && WsEnd(u, te) == c && HasAt(u, c, ParaClose)
    ensures WrappedAt(u, p) == Some(TokenMatch(idx, c + |ParaClose|))
  {
  }

  lemma {:induction false} WrappedAtComplete(u: string, p: nat, s: nat, te: nat, idx: nat, e: nat)
    requires p <= |u|
    ensures IsWrappedInstance(u, p, s, te, idx, e) ==> WrappedAt(u, p) == Some(TokenMatch(idx, e))
  {
    if IsWrappedInstance(u, p, s, te, idx, e) {
      WrappedCompleteParts(u, p, s, te, idx, e);
      TokenAtComplete(u, s, idx, te);
      WrappedAtParts(u, p, s, idx, te, e - |ParaClose|);
    }
  }

  /** Every match the scanner reports at p is an instance of the pattern. */
  lemma {:induction false} RestoreAtSound(u: string, p: nat)
    requires p <= |u|
    ensures RestoreAt(u, p).Some? ==> IsRestoreInstance(u, p, RestoreAt(u, p).value.index, RestoreAt(u, p).value.end)
  {
    WrappedAtSound(u, p);
    TokenAtSound(u, p);
  }

  /** Every instance of the pattern at p is the match the scanner reports there. */
  lemma {:induction false} RestoreAtComplete(u: string, p: nat, idx: nat, e: nat)
    requires p <= |u|
    ensures IsRestoreInstance(u, p, idx, e) ==> RestoreAt(u, p) == Some(TokenMatch(idx, e))
  {
    if IsBareInstance(u, p, idx, e) {
      TokenAtComplete(u, p, idx, e);
      assert u[p] == u[p..p + |TokenHead|][0] == TokenHead[0];
      NotWrapped(u, p);
    } else if IsRestoreInstance(u, p, idx, e) {
      var s: nat, te: nat :| IsWrappedInstance(u, p, s, te, idx, e);
      WrappedAtComplete(u, p, s, te, idx, e);
    }
  }

  /**
   * The scanner at p reports the match naming idx and ending at e exactly when the
   * pattern <p>\s*XMERMAIDIDX(\d+)XEND\s*</p>|XMERMAIDIDX(\d+)XEND matches there so.
   */
  lemma {:induction false} RestoreAtIff(u: string, p: nat, idx: nat, e: nat)
    requires p <= |u|
    ensures RestoreAt(u, p) == Some(TokenMatch(idx, e)) <==> IsRestoreInstance(u, p, idx, e)
  {
    RestoreAtSound(u, p);
    RestoreAtComplete(u, p, idx, e);
  }

  lemma {:induction false} NoMatchBetweenElim(u: string, p: nat, k: nat, q: nat)
    requires p <= q < k <= |u| && NoMatchBetween(u, p, k)
    ensures RestoreAt(u, q).None?
    decreases q - p
  {
    if p < q {
      NoMatchBetweenElim(u, p + 1, k, q);
    }
  }

  /** The scanner finds no match in [r, a) exactly when the pattern matches nowhere there. */
  lemma {:induction false} NoMatchBetweenIff(u: string, r: nat, a: nat)
    requires r <= a <= |u|
    ensures NoMatchBetween(u, r, a) <==> NoRestoreInstanceIn(u, r, a)
  {
    if NoRestoreInstanceIn(u, r, a) {
      forall q | r <= q < a ensures RestoreAt(u, q).None? {
        RestoreAtSound(u, q);
      }
      NoMatchBetweenIntro(u, r, a);
    }
    if NoMatchBetween(u, r, a) {
      forall q: nat, idx: nat, e: nat | r <= q < a ensures !IsRestoreInstance(u, q, idx, e) {
        NoMatchBetweenElim(u, r, a, q);
        RestoreAtComplete(u, q, idx, e);
      }
    }
  }

  /** A restoration match starts with "<p>" or with the token head. */
  lemma {:induction false} RestoreAtWord(u: string, p: nat)
    requires p <= |u|
    ensures RestoreAt(u, p).Some? ==> OccursAt(u, ParaOpen, p) || OccursAt(u, TokenHead, p)
  {
    HasAtIff(u, p, ParaOpen);
    HasAtIff(u, p, TokenHead);
  }

  /** If u[r..] is x followed by y, then u holds x at r and y right after it. */
  lemma {:induction false} SliceSplit(u: string, r: nat, x: string, y: string)
    requires r <= |u| && u[r..] == x + y
    ensures r + |x| <= |u| && u[r..r + |x|] == x && u[r + |x|..] == y
  {
    assert u[r..][..|x|] == x;
    assert u[r..][|x|..] == y;
  }

  /** A digit run that is known to stop at e. */
  lemma {:induction false} DigitsEndAt(u: string, i: nat, e: nat)
    requires i <= e < |u| && !IsDigit(u[e])
    requires forall j :: i <= j < e ==> IsDigit(u[j])
    ensures DigitsEnd(u, i) == e
    decreases e - i
  {
    if i < e {
      DigitsEndAt(u, i + 1, e);
    }
  }

  /** A whitespace run that is known to stop at e. */
  lemma {:induction false} WsEndAt(u: string, i: nat, e: nat)
    requires i <= e < |u| && !IsSpace(u[e])
    requires forall j :: i <= j < e ==> IsSpace(u[j])
    ensures WsEnd(u, i) == e
    decreases e - i
  {
    if i < e {
      WsEndAt(u, i + 1, e);
    }
  }

  /** Three strings laid side by side at position a of u: where each one sits. */
  lemma {:induction false} SliceParts3(u: string, a: nat, x: string, y: string, z: string)
    requires a + |x| + |y| + |z| <= |u| && u[a..a + |x| + |y| + |z|] == x + y + z
    ensures u[a..a + |x|] == x && u[a + |x|..a + |x| + |y|] == y
    ensures u[a + |x| + |y|..a + |x| + |y| + |z|] == z
  {
    var v := u[a..a + |x| + |y| + |z|];
    assert u[a..a + |x|] == v[..|x|];
    forall k | 0 <= k < |y| ensures u[a + |x| + k] == y[k] {
      assert u[a + |x| + k] == v[|x| + k];
    }
    assert u[a + |x|..a + |x| + |y|] == y;
    forall k | 0 <= k < |z| ensures u[a + |x| + |y| + k] == z[k] {
      assert u[a + |x| + |y| + k] == v[|x| + |y| + k];
    }
    assert u[a + |x| + |y|..a + |x| + |y| + |z|] == z;
  }

  /** A digit run copied at h of u and followed by the token tail ends where the tail begins. */
  lemma {:induction false} DigitsBeforeTail(u: string, h: nat, digits: string)
    requires AllDigits(digits) && h + |digits| <= |u| && u[h..h + |digits|] == digits
    requires HasAt(u, h + |digits|, TokenTail)
    ensures DigitsEnd(u, h) == h + |digits|
  {
    var e := h + |digits|;
    forall j | h <= j < e ensures IsDigit(u[j]) {
      assert u[j] == u[h..e][j - h];
    }
    DigitsEndAt(u, h, e);
  }

  /** The token head, a digit run and the token tail at position a of u. */
  lemma {:induction false} TokenAtParts(u: string, a: nat, digits: string)
    requires |digits| > 0 && AllDigits(digits)
    requires HasAt(u, a, TokenHead)
    requires a + |TokenHead| + |digits| <= |u| && u[a + |TokenHead|..a + |TokenHead| + |digits|] == digits
    requires DigitsEnd(u, a + |TokenHead|) == a + |TokenHead| + |digits|
    requires HasAt(u, a + |TokenHead| + |digits|, TokenTail)
    ensures TokenAt(u, a) == Some(TokenMatch(ParseDigits(digits), a + |TokenHead| + |digits| + |TokenTail|))
  {
  }

  /** The three parts of the placeholder core for n at position a of u. */
  lemma {:induction false} TokenLayout(u: string, a: nat, n: nat)
    requires a + |Token(n)| <= |u| && u[a..a + |Token(n)|] == Token(n)
    ensures var h := a + |TokenHead|;
      var digits := NatToString(n);
      HasAt(u, a, TokenHead) && h + |digits| <= |u| && u[h..h + |digits|] == digits
      && HasAt(u, h + |digits|, TokenTail)
  {
    var digits := NatToString(n);
    var h := a + |TokenHead|;
    SliceParts3(u, a, TokenHead, digits, TokenTail);
    HasAtSlice(u, a, TokenHead);
    HasAtSlice(u, h + |digits|, TokenTail);
  }

  /** The placeholder core for n at position a of u is read back as n. */
  lemma {:induction false} TokenReadBack(u: string, a: nat, n: nat)
    requires a + |Token(n)| <= |u| && u[a..a + |Token(n)|] == Token(n)
    ensures TokenAt(u, a) == Some(TokenMatch(n, a + |Token(n)|))
  {
    var digits := NatToString(n);
    TokenLayout(u, a, n);
    DigitsBeforeTail(u, a + |TokenHead|, digits);
    TokenAtParts(u, a, digits);
    ParseNatToString(n);
  }

  /** The first alternative needs "<p>" where it starts. */
  lemma {:induction false} NotWrapped(u: string, p: nat)
    requires p < |u| && u[p] != ParaOpen[0]
    ensures WrappedAt(u, p) == None
  {
  }

  /** The placeholder core for n at position a of u is a restoration match for n. */
  lemma {:induction false} TokenRecognised(u: string, a: nat, n: nat)
    requires a + |Token(n)| <= |u| && u[a..a + |Token(n)|] == Token(n)
    ensures RestoreAt(u, a) == Some(TokenMatch(n, a + |Token(n)|))
  {
    TokenReadBack(u, a, n);
    assert u[a] == Token(n)[0] == TokenHead[0];
    NotWrapped(u, a);
  }

  /** A match at p is the one the search from p reports. */
  lemma {:induction false} FindTokenHere(u: string, p: nat, tm: TokenMatch)
    requires p <= |u| && RestoreAt(u, p) == Some(tm)
    ensures FindToken(u, p) == Some((p, tm))
  {
  }

  /** A newline starts no restoration match. */
  lemma {:induction false} NoMatchAtNewline(u: string, p: nat)
    requires p < |u| && u[p] == '\n'
    ensures RestoreAt(u, p) == None
  {
    NotWrapped(u, p);
  }

  /** With no match left, the rest of the text is copied. */
  lemma {:induction false} RestoreEnd(u: string, r: nat, blocks: seq<string>)
    requires r <= |u| && FindToken(u, r) == None
    ensures Restore(u, r, blocks) == Some(u[r..])
  {
  }

  /** One substitution: the text before the match, the diagram, then the rest restored. */
  lemma {:induction false} RestoreStep(u: string, r: nat, a: nat, tm: TokenMatch, blocks: seq<string>, rest: string)
    requires r <= |u| && FindToken(u, r) == Some((a, tm))
    requires tm.index < |blocks| && Restore(u, tm.end, blocks) == Some(rest)
    ensures Restore(u, r, blocks) == Some(u[r..a] + Div(blocks[tm.index]) + rest)
  {
  }

  /** A match at a, with the search from r reaching a: the search from r reports it. */
  lemma {:induction false} FoundHere(u: string, r: nat, a: nat, tm: TokenMatch)
    requires r <= a <= |u| && RestoreAt(u, a) == Some(tm)
    requires FindToken(u, r) == FindToken(u, a)
    ensures FindToken(u, r) == Some((a, tm))
  {
    FindTokenHere(u, a, tm);
  }

  /** re.sub's step at the match the search from r reports first. */
  lemma {:induction false} RestoreFirst(u: string, r: nat, a: nat, idx: nat, end: nat, blocks: seq<string>)
    requires r <= |u| && FindToken(u, r) == Some((a, TokenMatch(idx, end)))
    ensures idx >= |blocks| ==> Restore(u, r, blocks) == None
    ensures idx < |blocks| ==> (Restore(u, r, blocks).Some? <==> Restore(u, end, blocks).Some?)
    ensures idx < |blocks| && Restore(u, end, blocks).Some? ==>
      Restore(u, r, blocks) == Some(u[r..a] + Div(blocks[idx]) + Restore(u, end, blocks).value)
  {
  }

  /**
   * re.sub's step, stated on the pattern: when the pattern matches at a, naming
   * diagram idx and ending at `end`, and nowhere in [r, a), restoration from r fails
   * if idx has no stored diagram, and otherwise gives the text before a, that
   * diagram's div and the rest restored, failing exactly when the rest fails.
   */
  lemma {:induction false} RestoreFound(u: string, r: nat, a: nat, idx: nat, end: nat, blocks: seq<string>)
    requires r <= a <= |u| && NoRestoreInstanceIn(u, r, a) && IsRestoreInstance(u, a, idx, end)
    ensures idx >= |blocks| ==> Restore(u, r, blocks) == None
    ensures idx < |blocks| ==> (Restore(u, r, blocks).Some? <==> Restore(u, end, blocks).Some?)
    ensures idx < |blocks| && Restore(u, end, blocks).Some? ==>
      Restore(u, r, blocks) == Some(u[r..a] + Div(blocks[idx]) + Restore(u, end, blocks).value)
  {
    NoMatchBetweenIff(u, r, a);
    RestoreFoundScan(u, r, a, idx, end, blocks);
  }

  /** RestoreFound, with the absence of earlier matches stated as the scanner sees it. */
  lemma {:induction false} RestoreFoundScan(u: string, r: nat, a: nat, idx: nat, end: nat, blocks: seq<string>)
    requires r <= a <= |u| && NoMatchBetween(u, r, a) && IsRestoreInstance(u, a, idx, end)
    ensures idx >= |blocks| ==> Restore(u, r, blocks) == None
    ensures idx < |blocks| ==> (Restore(u, r, blocks).Some? <==> Restore(u, end, blocks).Some?)
    ensures idx < |blocks| && Restore(u, end, blocks).Some? ==>
      Restore(u, r, blocks) == Some(u[r..a] + Div(blocks[idx]) + Restore(u, end, blocks).value)
  {
    RestoreAtComplete(u, a, idx, end);
    FindTokenFrom(u, r, a);
    FoundHere(u, r, a, TokenMatch(idx, end));
    RestoreFirst(u, r, a, idx, end, blocks);
  }

  /** Text in which the pattern matches nowhere comes through restoration unchanged. */
  lemma {:induction false} RestoreUnchanged(u: string, r: nat, blocks: seq<string>)
    requires r <= |u| && NoRestoreInstanceIn(u, r, |u|)
    ensures Restore(u, r, blocks) == Some(u[r..])
  {
    NoMatchBetweenIff(u, r, |u|);
    FindTokenFrom(u, r, |u|);
    RestoreEnd(u, r, blocks);
  }

  /** The placeholder for n at a is the second alternative's instance naming n. */
  lemma {:induction false} TokenInstance(u: string, a: nat, n: nat)
    requires a + |Token(n)| <= |u| && u[a..a + |Token(n)|] == Token(n)
    ensures IsBareInstance(u, a, n, a + |Token(n)|)
  {
    var digits := NatToString(n);
    var h := a + |TokenHead|;
    TokenLayout(u, a, n);
    HasAtIff(u, a, TokenHead);
    HasAtIff(u, h + |digits|, TokenTail);
    ParseNatToString(n);
  }

  lemma {:induction false} BareInstance(u: string, a: nat, n: nat)
    requires a + |Token(n)| <= |u| && u[a..a + |Token(n)|] == Token(n)
    ensures IsRestoreInstance(u, a, n, a + |Token(n)|)
  {
    TokenInstance(u, a, n);
  }

  /** The pieces of <p>, whitespace, the placeholder for n, whitespace and </p> at a. */
  lemma {:induction false} WrappedPieces(u: string, a: nat, before: string, n: nat, after: string)
    requires AllSpace(before) && AllSpace(after)
    requires var w := ParaOpen + before + Token(n) + after + ParaClose;
      a + |w| <= |u| && u[a..a + |w|] == w
    ensures var ta := a + |ParaOpen| + |before|;
      var d := ta + |Token(n)|;
      var e := d + |after|;
      && e + |ParaClose| == a + |ParaOpen + before + Token(n) + after + ParaClose| <= |u|
      && u[ta..ta + |Token(n)|] == Token(n)
      && HasAt(u, a, ParaOpen) && HasAt(u, e, ParaClose)
      && (forall j :: a + |ParaOpen| <= j < ta ==> IsSpace(u[j]))
      && (forall j :: d <= j < e ==> IsSpace(u[j]))
  {
    WrappedLayout(u, a, before, n, after);
    var ta := a + |ParaOpen| + |before|;
    var d := ta + |Token(n)|;
    var e := d + |after|;
    WrappedRuns(u, a, ta, d, e, before, n, after);
  }

  /** <p> at a, whitespace up to ta, a placeholder up to d, whitespace up to e and </p> at e. */
  lemma {:induction false} WrappedInstanceParts(u: string, a: nat, ta: nat, d: nat, e: nat, n: nat, end: nat)
    requires a + |ParaOpen| <= ta && d <= e && end == e + |ParaClose| <= |u|
    requires HasAt(u, a, ParaOpen) && HasAt(u, e, ParaClose) && IsBareInstance(u, ta, n, d)
    requires forall j :: a + |ParaOpen| <= j < ta ==> IsSpace(u[j])
    requires forall j :: d <= j < e ==> IsSpace(u[j])
    ensures IsRestoreInstance(u, a, n, end)
  {
    HasAtIff(u, a, ParaOpen);
    HasAtIff(u, e, ParaClose);
    assert IsWrappedInstance(u, a, ta, d, n, end);
  }

  /**
   * The second alternative in context: a bare XMERMAIDIDX<n>XEND at a, the first
   * match from r, is replaced by diagram n; with no diagram n, restoration fails.
   */
  lemma {:induction false} RestoreBare(u: string, r: nat, a: nat, n: nat, blocks: seq<string>)
    requires r <= a && a + |Token(n)| <= |u| && u[a..a + |Token(n)|] == Token(n)
    requires NoRestoreInstanceIn(u, r, a)
    ensures var end := a + |Token(n)|;
      && (n >= |blocks| ==> Restore(u, r, blocks) == None)
      && (n < |blocks| ==> (Restore(u, r, blocks).Some? <==> Restore(u, end, blocks).Some?))
      && (n < |blocks| && Restore(u, end, blocks).Some? ==>
            Restore(u, r, blocks) == Some(u[r..a] + Div(blocks[n]) + Restore(u, end, blocks).value))
  {
    BareInstance(u, a, n);
    RestoreFound(u, r, a, n, a + |Token(n)|, blocks);
  }

  /** A piece x found at offset off of a text v that u holds at a is found at a + off in u. */
  lemma {:induction false} PieceAt(u: string, a: nat, v: string, off: nat, x: string)
    requires a + |v| <= |u| && u[a..a + |v|] == v
    requires off + |x| <= |v| && v[off..off + |x|] == x
    ensures u[a + off..a + off + |x|] == x
  {
    forall j | 0 <= j < |x| ensures u[a + off + j] == x[j] {
      assert u[a + off + j] == v[off + j] == v[off..off + |x|][j];
    }
  }

  /** Where the five pieces of a concatenation sit in it. */
  lemma {:induction false} Parts5(v: string, x1: string, x2: string, x3: string, x4: string, x5: string)
    requires v == x1 + x2 + x3 + x4 + x5
    ensures var b2, b3, b4, b5 := |x1|, |x1| + |x2|, |x1| + |x2| + |x3|, |x1| + |x2| + |x3| + |x4|;
      |v| == b5 + |x5| && v[0..b2] == x1 && v[b2..b3] == x2 && v[b3..b4] == x3 && v[b4..b5] == x4
      && v[b5..b5 + |x5|] == x5
  {
    var b2, b3, b4, b5 := |x1|, |x1| + |x2|, |x1| + |x2| + |x3|, |x1| + |x2| + |x3| + |x4|;
    assert v[0..b2] == x1;
    assert v[b2..b3] == x2;
    assert v[b3..b4] == x3;
    assert v[b4..b5] == x4;
    assert v[b5..b5 + |x5|] == x5;
  }

  /** Where the parts of <p>, whitespace, a placeholder, whitespace, </p> sit when u holds them at a. */
  lemma {:induction false} WrappedLayout(u: string, a: nat, before: string, n: nat, after: string)
    requires var w := ParaOpen + before + Token(n) + after + ParaClose;
      a + |w| <= |u| && u[a..a + |w|] == w
    ensures var ta := a + |ParaOpen| + |before|;
      var d := ta + |Token(n)|;
      var e := d + |after|;
      && e + |ParaClose| <= |u|
      && u[a..a + |ParaOpen|] == ParaOpen && u[a + |ParaOpen|..ta] == before
      && u[ta..d] == Token(n) && u[d..e] == after && u[e..e + |ParaClose|] == ParaClose
  {
    var w := ParaOpen + before + Token(n) + after + ParaClose;
    Parts5(w, ParaOpen, before, Token(n), after, ParaClose);
    var b2, b3, b4, b5 := |ParaOpen|, |ParaOpen| + |before|, |ParaOpen| + |before| + |Token(n)|, |ParaOpen| + |before| + |Token(n)| + |after|;
    PieceAt(u, a, w, 0, ParaOpen);
    PieceAt(u, a, w, b2, before);
    PieceAt(u, a, w, b3, Token(n));
    PieceAt(u, a, w, b4, after);
    PieceAt(u, a, w, b5, ParaClose);
  }

  /** The whitespace runs of the first alternative and the characters that end them. */
  lemma {:induction false} WrappedRuns(u: string, a: nat, ta: nat, d: nat, e: nat, before: string, n: nat, after: string)
    requires AllSpace(before) && AllSpace(after)
    requires a + |ParaOpen| <= ta && ta + |Token(n)| == d <= e && e + |ParaClose| <= |u|
    requires u[a..a + |ParaOpen|] == ParaOpen && u[a + |ParaOpen|..ta] == before
    requires u[ta..d] == Token(n) && u[d..e] == after && u[e..e + |ParaClose|] == ParaClose
    ensures HasAt(u, a, ParaOpen) && HasAt(u, e, ParaClose)
    ensures forall j :: a + |ParaOpen| <= j < ta ==> IsSpace(u[j])
    ensures forall j :: d <= j < e ==> IsSpace(u[j])
    ensures !IsSpace(u[ta]) && !IsSpace(u[e])
  {
    HasAtSlice(u, a, ParaOpen);
    HasAtSlice(u, e, ParaClose);
    forall j | a + |ParaOpen| <= j < ta ensures IsSpace(u[j]) {
      assert u[j] == before[j - a - |ParaOpen|];
    }
    forall j | d <= j < e ensures IsSpace(u[j]) {
      assert u[j] == after[j - d];
    }
    assert u[ta] == Token(n)[0] == 'X';
    assert u[e] == ParaClose[0];
  }

  /**
   * The first alternative in context: <p>, whitespace, XMERMAIDIDX<n>XEND,
   * whitespace and </p> at a, the first match from r, are replaced as a whole by
   * diagram n; with no diagram n, restoration fails.
   */
  lemma {:induction false} RestoreWrapped(u: string, r: nat, a: nat, before: string, n: nat, after: string, end: nat, blocks: seq<string>)
    requires AllSpace(before) && AllSpace(after)
    requires var w := ParaOpen + before + Token(n) + after + ParaClose;
      r <= a && end == a + |w| <= |u| && u[a..end] == w
    requires NoRestoreInstanceIn(u, r, a)
    ensures n >= |blocks| ==> Restore(u, r, blocks) == None
    ensures n < |blocks| ==> (Restore(u, r, blocks).Some? <==> Restore(u, end, blocks).Some?)
    ensures n < |blocks| && Restore(u, end, blocks).Some? ==>
      Restore(u, r, blocks) == Some(u[r..a] + Div(blocks[n]) + Restore(u, end, blocks).value)
  {
    var ta := a + |ParaOpen| + |before|;
    NoMatchBetweenIff(u, r, a);
    WrappedPieces(u, a, before, n, after);
    RestoreWrappedParts(u, r, a, ta, ta + |Token(n)|, ta + |Token(n)| + |after|, n, end, blocks);
  }

  /** RestoreWrapped, with the pieces of the first alternative given by their positions. */
  lemma {:induction false} RestoreWrappedParts(u: string, r: nat, a: nat, ta: nat, d: nat, e: nat, n: nat, end: nat, blocks: seq<string>)
    requires r <= a && a + |ParaOpen| <= ta && d == ta + |Token(n)| <= e && end == e + |ParaClose| <= |u|
    requires HasAt(u, a, ParaOpen) && HasAt(u, e, ParaClose) && u[ta..ta + |Token(n)|] == Token(n)
    requires forall j :: a + |ParaOpen| <= j < ta ==> IsSpace(u[j])
    requires forall j :: d <= j < e ==> IsSpace(u[j])
    requires NoMatchBetween(u, r, a)
    ensures n >= |blocks| ==> Restore(u, r, blocks) == None
    ensures n < |blocks| ==> (Restore(u, r, blocks).Some? <==> Restore(u, end, blocks).Some?)
    ensures n < |blocks| && Restore(u, end, blocks).Some? ==>
      Restore(u, r, blocks) == Some(u[r..a] + Div(blocks[n]) + Restore(u, end, blocks).value)
  {
    TokenInstance(u, ta, n);
    WrappedInstanceParts(u, a, ta, d, e, n, end);
    RestoreFoundScan(u, r, a, n, end, blocks);
  }

  /**
   * A newline-free word w that occurs nowhere in t does not occur at q in u when
   * u[lo..hi] copies t[x..y] after an optional newline and hi ends u or holds a newline.
   */
  lemma {:induction false} WordNotAt(u: string, w: string, q: nat, lo: nat, hi: nat, pre: string, t: string, x: nat, y: nat)
    requires lo <= q <= hi <= |u| && x <= y <= |t| && (pre == "" || pre == "\n")
    requires u[lo..hi] == pre + t[x..y] && (hi == |u| || u[hi] == '\n')
    requires |w| > 0 && '\n' !in w && !Occurs(t, w)
    ensures !OccursAt(u, w, q)
  {
    if q + |w| <= |u| {
      var v := u[q..q + |w|];
      if q + |w| > hi {
        assert v[hi - q] == u[hi] == '\n';
        assert w[hi - q] in w;
      } else if q == lo && pre == "\n" {
        assert v[0] == u[lo..hi][0] == '\n';
        assert w[0] in w;
      } else {
        var s := x + q - lo - |pre|;
        assert v == t[s..s + |w|] by {
          forall k | 0 <= k < |w| ensures v[k] == t[s + k] {
            assert v[k] == u[lo..hi][q + k - lo];
          }
        }
        assert !OccursAt(t, w, s);
      }
    }
  }

  /** The copied stretch of WordNotAt, and the newline after it, hold no restoration match. */
  lemma {:induction false} NothingToRestoreIn(u: string, lo: nat, hi: nat, pre: string, t: string, x: nat, y: nat)
    requires lo <= hi <= |u| && x <= y <= |t| && (pre == "" || pre == "\n")
    requires u[lo..hi] == pre + t[x..y] && (hi == |u| || u[hi] == '\n')
    requires !Occurs(t, ParaOpen) && !Occurs(t, TokenHead)
    ensures forall q :: lo <= q <= hi && q < |u| ==> RestoreAt(u, q).None?
  {
    forall q | lo <= q <= hi && q < |u| ensures RestoreAt(u, q).None? {
      RestoreAtWord(u, q);
      WordNotAt(u, ParaOpen, q, lo, hi, pre, t, x, y);
      WordNotAt(u, TokenHead, q, lo, hi, pre, t, x, y);
    }
  }

  /** Where the pieces of an extracted text sit: before the placeholder, the token, after it. */
  lemma {:induction false} PlaceholderSplit(u: string, r: nat, pre: string, x: string, tok: string, y: string, b: nat, a: nat, c: nat)
    requires r <= |u| && u[r..] == pre + (x + ("\n" + tok + "\n") + y)
    requires b == r + |pre| + |x| && a == b + 1 && c == a + |tok|
    ensures c < |u| && u[r..b] == pre + x && u[b] == '\n' && u[r..a] == pre + x + "\n"
    ensures u[a..c] == tok && u[c] == '\n' && u[c..] == "\n" + y
  {
    assert u[r..] == (pre + x) + ("\n" + (tok + ("\n" + y)));
    SliceSplit(u, r, pre + x, "\n" + (tok + ("\n" + y)));
    SliceSplit(u, b, "\n", tok + ("\n" + y));
    SliceSplit(u, a, tok, "\n" + y);
    assert u[r..a] == u[r..b] + u[b..a];
  }

  /** The bodies stored from index n on: the first one, then the rest from n + 1. */
  lemma {:induction false} BlocksShift(blocks: seq<string>, n: nat, body: string, more: seq<string>)
    requires n + 1 + |more| <= |blocks| && blocks[n..n + 1 + |more|] == [body] + more
    ensures blocks[n] == body && blocks[n + 1..n + 1 + |more|] == more
  {
    assert blocks[n] == blocks[n..n + 1 + |more|][0];
    assert blocks[n + 1..n + 1 + |more|] == blocks[n..n + 1 + |more|][1..];
  }

  lemma {:induction false} RenderAssoc(pre: string, x: string, d: string, rest: string)
    ensures (pre + x + "\n") + d + ("\n" + rest) == pre + (x + "\n" + d + "\n" + rest)
  {
  }

  /** With no diagram left in t from p, what u holds from r is copied unchanged by restoration. */
  lemma {:induction false} RestoreCopied(t: string, p: nat, pre: string, u: string, r: nat, blocks: seq<string>)
    requires p <= |t| && r <= |u| && (pre == "" || pre == "\n")
    requires !Occurs(t, ParaOpen) && !Occurs(t, TokenHead)
    requires u[r..] == pre + t[p..]
    ensures Restore(u, r, blocks) == Some(pre + t[p..])
  {
    assert u[r..|u|] == u[r..] && t[p..|t|] == t[p..];
    NothingToRestoreIn(u, r, |u|, pre, t, p, |t|);
    NoMatchBetweenIntro(u, r, |u|);
    FindTokenFrom(u, r, |u|);
  }

  /** Where the placeholder of the first match of ms sits in u, and what follows it. */
  lemma {:induction false} ExtractedLayout(t: string, p: nat, n: nat, ms: seq<(nat, Match)>, pre: string, u: string, r: nat, a: nat, c: nat)
    requires p <= |t| && r <= |u| && Ordered(t, p, ms) && ms != []
    requires u[r..] == pre + ExtractAll(t, p, n, ms).text
    requires a == r + |pre| + (ms[0].0 - p) + 1 && c == a + |Token(n)|
    ensures c < |u| && u[a..c] == Token(n) && u[c] == '\n'
    ensures u[c..] == "\n" + ExtractAll(t, ms[0].1.end, n + 1, ms[1..]).text
    ensures u[r..a - 1] == pre + t[p..ms[0].0] && u[a - 1] == '\n' && u[r..a] == pre + t[p..ms[0].0] + "\n"
  {
    var (q, m) := ms[0];
    var rest := ExtractAll(t, m.end, n + 1, ms[1..]);
    assert ExtractAll(t, p, n, ms).text == t[p..q] + ("\n" + Token(n) + "\n") + rest.text;
    PlaceholderSplit(u, r, pre, t[p..q], Token(n), rest.text, a - 1, a, c);
  }

  /** A copied stretch of t ended by a newline holds no restoration match: the search skips it. */
  lemma {:induction false} SkipCopied(t: string, x: nat, y: nat, pre: string, u: string, r: nat, a: nat)
    requires x <= y <= |t| && (pre == "" || pre == "\n")
    requires !Occurs(t, ParaOpen) && !Occurs(t, TokenHead)
    requires r + |pre| + (y - x) + 1 == a <= |u| && u[r..a - 1] == pre + t[x..y] && u[a - 1] == '\n'
    ensures FindToken(u, r) == FindToken(u, a)
  {
    NothingToRestoreIn(u, r, a - 1, pre, t, x, y);
    NoMatchBetweenIntro(u, r, a);
    FindTokenFrom(u, r, a);
  }

  /** Restoration from r finds the placeholder of the first match of ms first. */
  lemma {:induction false} ExtractedFound(t: string, p: nat, n: nat, ms: seq<(nat, Match)>, pre: string, u: string, r: nat, a: nat, c: nat)
    requires p <= |t| && r <= |u| && Ordered(t, p, ms) && ms != []
    requires pre == "" || pre == "\n"
    requires !Occurs(t, ParaOpen) && !Occurs(t, TokenHead)
    requires u[r..] == pre + ExtractAll(t, p, n, ms).text
    requires a == r + |pre| + (ms[0].0 - p) + 1 && c == a + |Token(n)|
    ensures r <= a && c < |u| && FindToken(u, r) == Some((a, TokenMatch(n, c)))
    ensures u[c..] == "\n" + ExtractAll(t, ms[0].1.end, n + 1, ms[1..]).text
    ensures u[r..a] == pre + t[p..ms[0].0] + "\n"
  {
    ExtractedLayout(t, p, n, ms, pre, u, r, a, c);
    SkipCopied(t, p, ms[0].0, pre, u, r, a);
    PlaceholderFound(u, r, a, n);
  }

  /** A placeholder at a that the search from r reaches is the match it reports. */
  lemma {:induction false} PlaceholderFound(u: string, r: nat, a: nat, n: nat)
    requires r <= a && a + |Token(n)| <= |u| && u[a..a + |Token(n)|] == Token(n)
    requires FindToken(u, r) == FindToken(u, a)
    ensures FindToken(u, r) == Some((a, TokenMatch(n, a + |Token(n)|)))
  {
    TokenRecognised(u, a, n);
    FoundHere(u, r, a, TokenMatch(n, a + |Token(n)|));
  }

  /** The bodies stored for the first match of ms and for those after it. */
  lemma {:induction false} ExtractedBlocks(t: string, p: nat, n: nat, ms: seq<(nat, Match)>, blocks: seq<string>)
    requires p <= |t| && Ordered(t, p, ms) && ms != []
    requires var e := ExtractAll(t, p, n, ms).blocks; n + |e| <= |blocks| && blocks[n..n + |e|] == e
    ensures var m := ms[0].1;
      var more := ExtractAll(t, m.end, n + 1, ms[1..]).blocks;
      blocks[n] == t[m.bodyStart..m.bodyEnd]
      && n + 1 + |more| <= |blocks| && blocks[n + 1..n + 1 + |more|] == more
  {
    var m := ms[0].1;
    var more := ExtractAll(t, m.end, n + 1, ms[1..]).blocks;
    assert ExtractAll(t, p, n, ms).blocks == [t[m.bodyStart..m.bodyEnd]] + more;
    BlocksShift(blocks, n, t[m.bodyStart..m.bodyEnd], more);
  }

  /**
   * The round trip, one diagram at a time: if u holds, from position r on, the
   * substitution of the matches ms in t from p (after the newline a previous
   * placeholder leaves), then restoring u from r with the extracted bodies gives
   * t from p with each of those matches turned into its div.
   */
  lemma {:induction false} RestoreExtracted(t: string, p: nat, n: nat, ms: seq<(nat, Match)>, pre: string, u: string, r: nat, blocks: seq<string>)
    requires p <= |t| && r <= |u| && Ordered(t, p, ms)
    requires pre == "" || pre == "\n"
    requires !Occurs(t, ParaOpen) && !Occurs(t, TokenHead)
    requires u[r..] == pre + ExtractAll(t, p, n, ms).text
    requires var e := ExtractAll(t, p, n, ms).blocks; n + |e| <= |blocks| && blocks[n..n + |e|] == e
    ensures Restore(u, r, blocks) == Some(pre + RenderAll(t, p, ms))
    decreases |ms|
  {
    if ms == [] {
      RestoreCopied(t, p, pre, u, r, blocks);
    } else {
      var (q, m) := ms[0];
      var a := r + |pre| + (q - p) + 1;
      var c := a + |Token(n)|;
      ExtractedFound(t, p, n, ms, pre, u, r, a, c);
      ExtractedBlocks(t, p, n, ms, blocks);
      var tail := RenderAll(t, m.end, ms[1..]);
      RestoreExtracted(t, m.end, n + 1, ms[1..], "\n", u, c, blocks);
      RestoreStep(u, r, a, TokenMatch(n, c), blocks, "\n" + tail);
      RenderAssoc(pre, t[p..q], Div(t[m.bodyStart..m.bodyEnd]), tail);
    }
  }

  /** Extracting, converting with the identity and restoring yields every diagram body in its original order. */
  lemma {:induction false} RoundTrip(t: string)
    requires !Occurs(t, ParaOpen) && !Occurs(t, TokenHead)
    ensures Restore(Extract(t, 0, 0).text, 0, Extract(t, 0, 0).blocks) == Some(Render(t, 0))
  {
    var e := Extract(t, 0, 0);
    assert e.text[0..] == "" + e.text;
    assert e.blocks[0..|e.blocks|] == e.blocks;
    RestoreExtracted(t, 0, 0, Matches(t, 0), "", e.text, 0, e.blocks);
    assert "" + Render(t, 0) == Render(t, 0);
  }

  /** The placeholder has no underscore, so Markdown emphasis cannot rewrite it. */
  lemma {:induction false} TokenHasNoUnderscore(n: nat)
    ensures '_' !in Token(n) && '_' !in Placeholder(n)
  {
    var digits := NatToString(n);
    forall i | 0 <= i < |digits| ensures digits[i] != '_' {
      assert IsDigit(digits[i]);
    }
    assert Token(n) == TokenHead + digits + TokenTail;
  }
}
