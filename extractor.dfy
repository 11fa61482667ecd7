/**
 * `WikipediaService.extractParagraphs`: the global, dot-all, non-greedy
 * regular expression `/<p>(.*?)<\/p>/gs` driven by `regex.exec` and its
 * `lastIndex`, the clean-up of each captured paragraph, and the filter that
 * drops paragraphs with no visible text.
 */
module Extractor {
  import opened Wrappers
  import opened Markup

  /** The literal delimiters of the pattern; `<p>` with attributes does not match. */
  const OpenTag: string := "<p>"
  const CloseTag: string := "</p>"

  /** One match of the pattern: `<p>` starts at `open`, `</p>` starts at `close`. */
  datatype Match = Match(open: nat, close: nat)

  /** `m` delimits a `<p>…</p>` element of `html`. */
  predicate IsMatch(html: string, m: Match)
  {
    OccursAt(html, OpenTag, m.open) && m.open + |OpenTag| <= m.close && OccursAt(html, CloseTag, m.close)
  }

  /**
   * `regex.exec(html)` with `regex.lastIndex == from`: the leftmost `<p>` at
   * or after `from` that some `</p>` follows, closed by the first such `</p>`
   * (`.*?` is lazy and, with the `s` flag, crosses line ends).
   */
  function Exec(html: string, from: nat): (r: Option<Match>)
    ensures r.Some? ==> from <= r.value.open && IsMatch(html, r.value)
  {
    match IndexOf(html, OpenTag, from)
    case None => None
    case Some(i) =>
      match IndexOf(html, CloseTag, i + |OpenTag|)
      case None => None
      case Some(j) => Some(Match(i, j))
  }

  /**
   * The match `Exec` returns is the leftmost one and ends at the first `</p>`
   * after its `<p>`; when it returns none, no `<p>` at or after `from` is
   * followed by a `</p>`.
   */
  lemma ExecIsLeftmostLazy(html: string, from: nat)
    ensures Exec(html, from).Some? ==>
      var m := Exec(html, from).value;
      (forall k :: from <= k < m.open ==> !OccursAt(html, OpenTag, k)) &&
      (forall k :: m.open + |OpenTag| <= k < m.close ==> !OccursAt(html, CloseTag, k))
    ensures Exec(html, from).None? ==>
      forall i, j :: from <= i && i + |OpenTag| <= j && OccursAt(html, OpenTag, i) ==> !OccursAt(html, CloseTag, j)
  {
    IndexOfIsFirst(html, OpenTag, from);
    match IndexOf(html, OpenTag, from)
    case None =>
    case Some(i) =>
      IndexOfIsFirst(html, CloseTag, i + |OpenTag|);
  }

  /**
   * Every match the `while ((match = regex.exec(html)) !== null)` loop
   * meets when it starts with `lastIndex == from`, in document order; each
   * is a `<p>…</p>` match at or after `from`.
   */
  function MatchesFrom(html: string, from: nat): (ms: seq<Match>)
    ensures forall k :: 0 <= k < |ms| ==> IsMatch(html, ms[k]) && from <= ms[k].open
    decreases |html| - from
  {
    match Exec(html, from)
    case None => []
    case Some(m) => [m] + MatchesFrom(html, m.close + |CloseTag|)
  }

  /** One `exec` call: its match, then the matches after its `</p>`. */
  lemma MatchesStep(html: string, from: nat, m: Match, next: nat)
    requires Exec(html, from) == Some(m) && next == m.close + |CloseTag|
    ensures MatchesFrom(html, from) == [m] + MatchesFrom(html, next)
  {
  }

  /** The capture group `(.*?)` of a match. */
  function Capture(html: string, m: Match): (c: string)
    requires IsMatch(html, m)
    ensures |c| == m.close - (m.open + |OpenTag|)
  {
    html[m.open + |OpenTag|..m.close]
  }

  /** The capture is exactly the text between the match's `<p>` and its `</p>`. */
  lemma CaptureBetweenDelimiters(html: string, m: Match)
    requires IsMatch(html, m)
    ensures html[m.open..m.close + |CloseTag|] == OpenTag + Capture(html, m) + CloseTag
  {
    var o := m.open + |OpenTag|;
    assert html[m.open..o] == OpenTag;
    assert html[m.close..m.close + |CloseTag|] == CloseTag;
    assert html[m.open..m.close + |CloseTag|] == html[m.open..o] + html[o..m.close] + html[m.close..m.close + |CloseTag|];
  }

  /** The clean-up of one captured paragraph: tags first, then footnote markers. */
  function Clean(raw: string): (r: string)
    ensures |r| <= |raw|
  {
    StripFootnotes(StripTags(raw))
  }

  /** No complete tag survives the clean-up. */
  lemma CleanLeavesNoTag(raw: string)
    ensures NoCompleteTag(Clean(raw))
  {
    StripTagsLeavesNoTag(raw);
    StripFootnotesKeepsNoTag(StripTags(raw));
  }

  /** Text that `extractParagraphs` can return: visible text with no complete tag. */
  predicate IsParagraphText(p: string)
  {
    HasText(p) && NoCompleteTag(p)
  }

  /**
   * What one cleaned capture contributes: itself, untrimmed, when its
   * trimmed text is not empty, and nothing otherwise.
   */
  function Keep(c: string): (ps: seq<string>)
    ensures |Trim(c)| > 0 ==> ps == [c]
    ensures |Trim(c)| == 0 ==> ps == []
  {
    if |Trim(c)| > 0 then [c] else []
  }

  /**
   * The cleaned captures of `ms` that keep visible text once trimmed, in
   * the order of `ms`; each is stored untrimmed.
   */
  function Kept(html: string, ms: seq<Match>): (ps: seq<string>)
    requires forall k :: 0 <= k < |ms| ==> IsMatch(html, ms[k])
    ensures |ps| <= |ms|
  {
    if ms == [] then []
    else
      var c := Clean(Capture(html, ms[0]));
      Keep(c) + Kept(html, ms[1..])
  }

  /** `Kept` takes the matches one at a time. */
  lemma KeptCons(html: string, m: Match, rest: seq<Match>)
    requires IsMatch(html, m)
    requires forall k :: 0 <= k < |rest| ==> IsMatch(html, rest[k])
    ensures Kept(html, [m] + rest) == Keep(Clean(Capture(html, m))) + Kept(html, rest)
  {
    var ms := [m] + rest;
    assert ms[0] == m && ms[1..] == rest;
  }

  /**
   * Every kept paragraph has visible text and no complete tag, and its
   * trimmed text is not empty.
   */
  lemma {:induction false} KeptAreParagraphText(html: string, ms: seq<Match>)
    requires forall k :: 0 <= k < |ms| ==> IsMatch(html, ms[k])
    ensures forall k :: 0 <= k < |Kept(html, ms)| ==>
      |Trim(Kept(html, ms)[k])| > 0 && IsParagraphText(Kept(html, ms)[k])
  {
    if ms != [] {
      var c := Clean(Capture(html, ms[0]));
      var rest := Kept(html, ms[1..]);
      KeptAreParagraphText(html, ms[1..]);
      if |Trim(c)| > 0 {
        TrimNonEmptyIffText(c);
        CleanLeavesNoTag(Capture(html, ms[0]));
        var ps := Kept(html, ms);
        assert ps == [c] + rest;
        forall k | 0 <= k < |ps| ensures |Trim(ps[k])| > 0 && IsParagraphText(ps[k]) {
          if k > 0 { assert ps[k] == rest[k - 1]; }
        }
      }
    }
  }

  /**
   * What `extractParagraphs(html)` returns: the kept cleaned captures of
   * the matches, in document order, never more than there are matches.
   */
  function Paragraphs(html: string): (ps: seq<string>)
    ensures |ps| <= |MatchesFrom(html, 0)|
  {
    Kept(html, MatchesFrom(html, 0))
  }

  /**
   * `extractParagraphs`: the `exec` loop, the two `replace` calls on each
   * capture, and the `push` of every paragraph whose trimmed text is not
   * empty.
   */
  method ExtractParagraphs(html: string) returns (paragraphs: seq<string>)
    ensures paragraphs == Paragraphs(html)
    ensures forall k :: 0 <= k < |paragraphs| ==> |Trim(paragraphs[k])| > 0 && IsParagraphText(paragraphs[k])
  {
    paragraphs := [];
    var lastIndex: nat := 0;
    var found := Exec(html, lastIndex);
    while found.Some?
      invariant found == Exec(html, lastIndex)
      invariant paragraphs + Kept(html, MatchesFrom(html, lastIndex)) == Paragraphs(html)
      decreases |html| - lastIndex
    {
      var m := found.value;
      var content := html[m.open + |OpenTag|..m.close];
      content := StripTags(content);
      content := StripFootnotes(content);
      var next := m.close + |CloseTag|;
      LoopStep(paragraphs, html, lastIndex, m, content, next);
      if |Trim(content)| > 0 {
        paragraphs := paragraphs + [content];
      }
      lastIndex := next;
      found := Exec(html, lastIndex);
    }
    ParagraphsHaveText(html);
  }

  /**
   * One turn of the `exec` loop: pushing the cleaned capture when its
   * trimmed text is not empty and moving on to the next match keeps what is
   * collected plus what remains to collect unchanged.
   */
  lemma LoopStep(done: seq<string>, html: string, from: nat, m: Match, content: string, next: nat)
    requires Exec(html, from) == Some(m) && content == Clean(Capture(html, m)) && next == m.close + |CloseTag|
    ensures (if |Trim(content)| > 0 then done + [content] else done) + Kept(html, MatchesFrom(html, next)) ==
      done + Kept(html, MatchesFrom(html, from))
  {
    MatchesStep(html, from, m, next);
    KeptCons(html, m, MatchesFrom(html, next));
    var rest := Kept(html, MatchesFrom(html, next));
    if |Trim(content)| > 0 {
      assert Kept(html, MatchesFrom(html, from)) == [content] + rest;
      AppendAssoc(done, [content], rest);
    } else {
      assert Kept(html, MatchesFrom(html, from)) == [] + rest;
      assert [] + rest == rest;
    }
  }

  /** Every paragraph returned has non-empty trimmed text and no complete tag. */
  lemma ParagraphsHaveText(html: string)
    ensures forall k :: 0 <= k < |Paragraphs(html)| ==>
      |Trim(Paragraphs(html)[k])| > 0 && IsParagraphText(Paragraphs(html)[k])
  {
    KeptAreParagraphText(html, MatchesFrom(html, 0));
  }

  /**
   * Markup in which no literal `<p>` has a `</p>` after it yields no
   * paragraph: a `<p class=…>`, or a `<p>` left open, matches nothing.
   */
  lemma NoElementNoParagraphs(html: string)
    requires forall i, j :: i + |OpenTag| <= j && OccursAt(html, OpenTag, i) ==> !OccursAt(html, CloseTag, j)
    ensures Paragraphs(html) == []
  {
    assert Exec(html, 0).None?;
  }

  /** Each match of `ms` ends, `</p>` included, before any later one starts. */
  predicate InDocumentOrder(ms: seq<Match>)
  {
    forall i, j :: 0 <= i < j < |ms| ==> ms[i].close + |CloseTag| <= ms[j].open
  }

  /** A match that ends before every match of an ordered `rest` starts keeps the order. */
  lemma ConsInOrder(m: Match, rest: seq<Match>)
    requires InDocumentOrder(rest)
    requires forall k :: 0 <= k < |rest| ==> m.close + |CloseTag| <= rest[k].open
    ensures InDocumentOrder([m] + rest)
  {
    var ms := [m] + rest;
    forall i, j | 0 <= i < j < |ms| ensures ms[i].close + |CloseTag| <= ms[j].open {
      assert ms[j] == rest[j - 1];
      if i > 0 {
        assert ms[i] == rest[i - 1];
      }
    }
  }

  /** The matches do not overlap and come in document order. */
  lemma {:induction false} MatchesInOrder(html: string, from: nat)
    ensures InDocumentOrder(MatchesFrom(html, from))
    decreases |html| - from
  {
    match Exec(html, from)
    case None =>
    case Some(m) =>
      var next := m.close + |CloseTag|;
      MatchesStep(html, from, m, next);
      MatchesInOrder(html, next);
      ConsInOrder(m, MatchesFrom(html, next));
  }

  /**
   * `exec` meets the element `<p>body</p>` at `from` when no `</p>` starts
   * inside `body`.
   */
  lemma ExecFindsElement(html: string, from: nat, body: string)
    requires from + |OpenTag| + |body| + |CloseTag| <= |html|
    requires html[from..from + |OpenTag|] == OpenTag
    requires html[from + |OpenTag|..from + |OpenTag| + |body|] == body
    requires html[from + |OpenTag| + |body|..from + |OpenTag| + |body| + |CloseTag|] == CloseTag
    requires forall k :: from + |OpenTag| <= k < from + |OpenTag| + |body| ==> !OccursAt(html, CloseTag, k)
    ensures Exec(html, from) == Some(Match(from, from + |OpenTag| + |body|))
    ensures Capture(html, Match(from, from + |OpenTag| + |body|)) == body
  {
    IndexOfFinds(html, OpenTag, from, from);
    IndexOfFinds(html, CloseTag, from + |OpenTag|, from + |OpenTag| + |body|);
  }

  /**
   * No `</p>` starts inside `body`, not even one running on into the `</p>`
   * that closes it: the lazy `.*?` then stops exactly at the end of `body`.
   */
  predicate NoCloseTagInside(body: string)
  {
    NoOccurrenceBefore(body + CloseTag, CloseTag, |body|)
  }

  /** A body that lacks a `<`, or lacks a `p`, holds no `</p>` of its own. */
  lemma NoCloseTagInBody(body: string)
    requires '<' !in body || 'p' !in body
    ensures NoCloseTagInside(body)
  {
    var s := body + CloseTag;
    forall k | 0 <= k < |body| ensures !OccursAt(s, CloseTag, k) {
      assert s[k] == body[k];
      if '<' !in body {
        assert s[k..k + |CloseTag|][0] != CloseTag[0];
      } else {
        assert s[k + 2] != 'p' by {
          if k + 2 < |body| {
            assert s[k + 2] == body[k + 2];
          } else {
            assert s[k + 2] == CloseTag[k + 2 - |body|];
          }
        }
        assert s[k..k + |CloseTag|][2] != CloseTag[2];
      }
    }
  }

  /** No `</p>` starts inside a body of `html` that `NoCloseTagInside` clears. */
  lemma CloseTagInsideShift(html: string, lo: nat, body: string)
    requires lo + |body| + |CloseTag| <= |html|
    requires html[lo..lo + |body|] == body
    requires html[lo + |body|..lo + |body| + |CloseTag|] == CloseTag
    requires NoCloseTagInside(body)
    ensures forall k :: lo <= k < lo + |body| ==> !OccursAt(html, CloseTag, k)
  {
    var hi := lo + |body| + |CloseTag|;
    var w := html[lo..hi];
    assert w == body + CloseTag by {
      assert w == html[lo..lo + |body|] + html[lo + |body|..hi];
    }
    forall k | lo <= k < lo + |body| ensures !OccursAt(html, CloseTag, k) {
      assert !OccursAt(w, CloseTag, k - lo);
      if k + |CloseTag| <= |html| {
        var j :| 0 <= j < |CloseTag| && w[k - lo + j] != CloseTag[j];
        assert html[k + j] == w[k - lo + j];
        assert html[k..k + |CloseTag|][j] != CloseTag[j];
      }
    }
  }

  /** Paragraph elements around each of `ps`, in order. */
  function Wrap(ps: seq<string>): (html: string)
    ensures ps == [] <==> html == []
  {
    if ps == [] then [] else OpenTag + ps[0] + CloseTag + Wrap(ps[1..])
  }

  /** Text that tag and footnote removal leave alone: no `<` and no `[`. */
  predicate IsPlain(p: string)
  {
    '<' !in p && '[' !in p
  }

  /** The clean-up leaves plain text unchanged. */
  lemma CleanKeepsPlain(p: string)
    requires IsPlain(p)
    ensures Clean(p) == p
  {
    StripTagsKeepsTagFree(p);
    NoBracketIsMarkerFree(p);
    StripFootnotesKeepsMarkerFree(p);
  }

  /** The pieces of `html` from `from` on, when it starts with `<p>body</p>`. */
  lemma ElementSlices(html: string, from: nat, body: string, rest: string)
    requires from <= |html| && html[from..] == OpenTag + body + CloseTag + rest
    ensures from + |OpenTag| + |body| + |CloseTag| <= |html|
    ensures html[from..from + |OpenTag|] == OpenTag
    ensures html[from + |OpenTag|..from + |OpenTag| + |body|] == body
    ensures html[from + |OpenTag| + |body|..from + |OpenTag| + |body| + |CloseTag|] == CloseTag
    ensures html[from + |OpenTag| + |body| + |CloseTag|..] == rest
  {
    var w := html[from..];
    var o := |OpenTag|;
    var c := o + |body|;
    assert html[from..from + o] == w[..o];
    assert html[from + o..from + c] == w[o..c];
    assert html[from + c..from + c + |CloseTag|] == w[c..c + |CloseTag|];
    assert html[from + c + |CloseTag|..] == w[c + |CloseTag|..];
  }

  /**
   * One paragraph element `<p>body</p>` at `from`, no `</p>` starting inside
   * its body: the scan contributes the kept cleaned body, then resumes
   * right after the element.
   */
  lemma ElementStep(html: string, from: nat, body: string, rest: string, next: nat)
    requires from <= |html| && html[from..] == OpenTag + body + CloseTag + rest
    requires NoCloseTagInside(body)
    requires next == from + |OpenTag| + |body| + |CloseTag|
    ensures Kept(html, MatchesFrom(html, from)) == Keep(Clean(body)) + Kept(html, MatchesFrom(html, next))
  {
    var e := OpenTag + body + CloseTag + rest;
    assert [] + e == e;
    GapElementStep(html, from, [], body, rest, next);
  }

  /** A plain paragraph with visible text is kept as it is. */
  lemma KeepPlain(p: string)
    requires IsPlain(p) && HasText(p)
    ensures Keep(Clean(p)) == [p]
  {
    CleanKeepsPlain(p);
    TrimNonEmptyIffText(p);
  }

  /** A plain element with visible text contributes its body unchanged. */
  lemma PlainElementStep(html: string, from: nat, p: string, rest: string, next: nat)
    requires from <= |html| && html[from..] == OpenTag + p + CloseTag + rest
    requires IsPlain(p) && HasText(p)
    requires next == from + |OpenTag| + |p| + |CloseTag|
    ensures Kept(html, MatchesFrom(html, from)) == [p] + Kept(html, MatchesFrom(html, next))
  {
    NoCloseTagInBody(p);
    ElementStep(html, from, p, rest, next);
    KeepPlain(p);
  }

  lemma {:induction false} WrapRoundTripFrom(html: string, from: nat, ps: seq<string>)
    requires from <= |html| && html[from..] == Wrap(ps)
    requires forall k :: 0 <= k < |ps| ==> IsPlain(ps[k]) && HasText(ps[k])
    ensures Kept(html, MatchesFrom(html, from)) == ps
    decreases |ps|
  {
    if ps == [] {
      assert IndexOf(html, OpenTag, from).None?;
    } else {
      var p := ps[0];
      var tail := ps[1..];
      var next := from + |OpenTag| + |p| + |CloseTag|;
      ElementSlices(html, from, p, Wrap(tail));
      PlainElementStep(html, from, p, Wrap(tail), next);
      WrapRoundTripFrom(html, next, tail);
      HeadTail(ps);
    }
  }

  /**
   * Wrapping plain paragraphs, each with visible text, in `<p>…</p>` and
   * extracting gives them back.
   */
  lemma WrapRoundTrip(ps: seq<string>)
    requires forall k :: 0 <= k < |ps| ==> IsPlain(ps[k]) && HasText(ps[k])
    ensures Paragraphs(Wrap(ps)) == ps
  {
    WrapRoundTripFrom(Wrap(ps), 0, ps);
  }

  /**
   * A single paragraph element, no `</p>` starting inside its body: the
   * result is its cleaned body, kept only when it has visible text.
   */
  lemma SingleElement(p: string)
    requires NoCloseTagInside(p)
    ensures Paragraphs(Wrap([p])) == if |Trim(Clean(p))| > 0 then [Clean(p)] else []
  {
    var html := Wrap([p]);
    var next := |OpenTag| + |p| + |CloseTag|;
    assert html == OpenTag + p + CloseTag + [];
    ElementSlices(html, 0, p, []);
    ElementStep(html, 0, p, [], next);
    assert IndexOf(html, OpenTag, next).None?;
  }

  /**
   * Text in front of the next `<p>` in which no `<p>` starts is skipped:
   * `exec` from its start finds what `exec` from its end finds.
   */
  lemma ExecSkipsGap(html: string, from: nat, stop: nat)
    requires from <= stop <= |html| && NoOccurrenceBefore(html[from..], OpenTag, stop - from)
    ensures Exec(html, from) == Exec(html, stop)
  {
    forall k | from <= k < stop ensures !OccursAt(html, OpenTag, k) {
      OccursShift(html, OpenTag, from, k - from);
    }
    IndexOfSkip(html, OpenTag, from, stop);
  }

  /** What follows a known prefix of `html[from..]`. */
  lemma DropAfterPrefix(html: string, from: nat, gap: string, after: string)
    requires from <= |html| && html[from..] == gap + after
    ensures from + |gap| <= |html| && html[from + |gap|..] == after
  {
    assert html[from + |gap|..] == html[from..][|gap|..];
  }

  /**
   * Text before a paragraph element in which no `<p>` starts, then the
   * element: the scan contributes the element's kept cleaned body and
   * resumes at `next`, right after the element.
   */
  lemma GapElementStep(html: string, from: nat, gap: string, body: string, rest: string, next: nat)
    requires from <= |html| && html[from..] == gap + (OpenTag + body + CloseTag + rest)
    requires NoOccurrenceBefore(gap + (OpenTag + body + CloseTag + rest), OpenTag, |gap|)
    requires NoCloseTagInside(body)
    requires next == from + |gap| + |OpenTag| + |body| + |CloseTag|
    ensures Kept(html, MatchesFrom(html, from)) == Keep(Clean(body)) + Kept(html, MatchesFrom(html, next))
  {
    var at := from + |gap|;
    var m := Match(at, at + |OpenTag| + |body|);
    assert Exec(html, from) == Some(m) && Capture(html, m) == body by {
      DropAfterPrefix(html, from, gap, OpenTag + body + CloseTag + rest);
      ElementSlices(html, at, body, rest);
      CloseTagInsideShift(html, at + |OpenTag|, body);
      ExecFindsElement(html, at, body);
      ExecSkipsGap(html, from, at);
    }
    MatchesStep(html, from, m, next);
    KeptCons(html, m, MatchesFrom(html, next));
  }

  /** No `<p>` starts in the stretch of markup `g`. */
  predicate NoOpenTagIn(g: string)
  {
    NoOccurrenceBefore(g, OpenTag, |g|)
  }

  /**
   * The `<` that opens the element after a stretch without `<p>` keeps a
   * `<p>` from starting across the stretch's end.
   */
  lemma NoOpenTagBeforeElement(g: string, rest: string)
    requires NoOpenTagIn(g)
    ensures NoOccurrenceBefore(g + (OpenTag + rest), OpenTag, |g|)
  {
    NoOccurrenceAcrossEnd(g, OpenTag + rest, OpenTag);
  }

  /** A stretch of markup that opens with one tag other than `<p>` and holds no other `<`. */
  lemma TagGapHasNoOpenTag(g: string, j: nat)
    requires 0 < j < |g| && j < |OpenTag| && g[j] != OpenTag[j]
    requires '<' !in g[1..]
    ensures NoOpenTagIn(g)
  {
    TagNoOccurrence(g, [], OpenTag, j);
    assert g + [] == g;
  }

  /** `<p>` elements with the given bodies, between and around the given stretches of markup. */
  function Layout(gaps: seq<string>, bodies: seq<string>): (html: string)
    requires |gaps| == |bodies| + 1
    ensures bodies == [] ==> html == gaps[0]
    decreases |bodies|
  {
    if bodies == [] then gaps[0]
    else gaps[0] + (OpenTag + bodies[0] + CloseTag + Layout(gaps[1..], bodies[1..]))
  }

  /** The kept cleaned bodies, in order. */
  function KeptBodies(bodies: seq<string>): (ps: seq<string>)
    ensures |ps| <= |bodies|
  {
    if bodies == [] then [] else Keep(Clean(bodies[0])) + KeptBodies(bodies[1..])
  }

  /** Scanning a laid-out document from its start gives the kept cleaned bodies. */
  lemma {:induction false} LayoutFrom(html: string, from: nat, gaps: seq<string>, bodies: seq<string>)
    requires |gaps| == |bodies| + 1
    requires from <= |html| && html[from..] == Layout(gaps, bodies)
    requires forall k :: 0 <= k < |gaps| ==> NoOpenTagIn(gaps[k])
    requires forall k :: 0 <= k < |bodies| ==> NoCloseTagInside(bodies[k])
    ensures Kept(html, MatchesFrom(html, from)) == KeptBodies(bodies)
    decreases |bodies|
  {
    if bodies == [] {
      assert Exec(html, from).None? by {
        ExecSkipsGap(html, from, |html|);
        assert IndexOf(html, OpenTag, |html|).None?;
      }
    } else {
      var g := gaps[0];
      var b := bodies[0];
      var rest := Layout(gaps[1..], bodies[1..]);
      var next := from + |g| + |OpenTag| + |b| + |CloseTag|;
      assert next <= |html| && html[next..] == rest by {
        DropAfterPrefix(html, from, g + (OpenTag + b + CloseTag), rest);
      }
      assert OpenTag + b + CloseTag + rest == OpenTag + (b + CloseTag + rest);
      NoOpenTagBeforeElement(g, b + CloseTag + rest);
      GapElementStep(html, from, g, b, rest, next);
      LayoutFrom(html, next, gaps[1..], bodies[1..]);
    }
  }

  /**
   * A document made of stretches of markup in which no `<p>` starts and of
   * `<p>` elements in whose bodies no `</p>` starts yields the bodies,
   * cleaned, in document order, less those with no visible text.
   */
  lemma LayoutParagraphs(gaps: seq<string>, bodies: seq<string>)
    requires |gaps| == |bodies| + 1
    requires forall k :: 0 <= k < |gaps| ==> NoOpenTagIn(gaps[k])
    requires forall k :: 0 <= k < |bodies| ==> NoCloseTagInside(bodies[k])
    ensures Paragraphs(Layout(gaps, bodies)) == KeptBodies(bodies)
  {
    var html := Layout(gaps, bodies);
    assert html[0..] == html;
    LayoutFrom(html, 0, gaps, bodies);
  }

  /**
   * Extracting again from the output wrapped back in `<p>…</p>` gives the
   * same paragraphs, when none of them holds a `<` or a `[`.
   */
  lemma ExtractAgainWhenPlain(html: string)
    requires forall k :: 0 <= k < |Paragraphs(html)| ==> IsPlain(Paragraphs(html)[k])
    ensures Paragraphs(Wrap(Paragraphs(html))) == Paragraphs(html)
  {
    ParagraphsHaveText(html);
    WrapRoundTrip(Paragraphs(html));
  }
}
