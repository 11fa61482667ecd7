/**
 * Worked inputs for `extractParagraphs`, each derived from the general
 * lemmas about tag and footnote removal.
 */
module ExtractorExamples {
  import opened Markup
  import opened Extractor

  /** Tag removal takes out one element's two tags and keeps its text, in plain text. */
  lemma CleanDropsElementTags(lead: string, open: string, inner: string, close: string, tail: string)
    requires IsPlain(lead) && IsPlain(inner) && IsPlain(tail)
    requires IsTag(open) && IsTag(close)
    ensures Clean(lead + open + inner + close + tail) == lead + inner + tail
  {
    var r2 := close + tail;
    var r1 := open + (inner + r2);
    AppendAssoc(lead + open + inner, close, tail);
    AppendAssoc(lead + open, inner, r2);
    AppendAssoc(lead, open, inner + r2);
    assert lead + open + inner + close + tail == lead + r1;
    StripTagsKeepsPlainPrefix(lead, r1);
    StripTagsDropsTag(open, inner + r2);
    StripTagsKeepsPlainPrefix(inner, r2);
    StripTagsDropsTag(close, tail);
    StripTagsKeepsPlainPrefix(tail, []);
    assert tail + [] == tail;
    AppendAssoc(lead, inner, tail);
    var out := lead + inner + tail;
    NoBracketIsMarkerFree(out);
    StripFootnotesKeepsMarkerFree(out);
  }

  const Lead: string := "Internet est le "
  const Bold: string := "réseau informatique mondial"
  const Tail: string := " accessible au public."

  lemma BoldPiecesArePlain()
    ensures IsPlain(Lead) && IsPlain(Bold) && IsPlain(Tail)
  {
    assert IsPlain(Lead);
    assert IsPlain(Bold);
  }

  /**
   * The first paragraph of the article in the end-to-end test: the `<b>`
   * tags go, their text stays.
   */
  lemma CleanDropsBoldTags()
    ensures Clean(Lead + "<b>" + Bold + "</b>" + Tail) == Lead + Bold + Tail
  {
    BoldPiecesArePlain();
    CleanDropsElementTags(Lead, "<b>", Bold, "</b>", Tail);
  }

  /** A footnote marker after plain text is removed. */
  lemma CleanDropsTrailingMarker(t: string, digits: string)
    requires IsPlain(t)
    requires |digits| > 0 && forall k :: 0 <= k < |digits| ==> IsDigit(digits[k])
    ensures Clean(t + ("[" + digits + "]")) == t
  {
    var raw := t + ("[" + digits + "]");
    assert '<' !in raw;
    StripTagsKeepsPlainPrefix(raw, []);
    assert raw + [] == raw;
    assert raw == t + ("[" + digits + "]") + [];
    NoBracketIsMarkerFree(t);
    StripFootnotesDropsMarker(t, digits, []);
    assert t + [] == t;
  }

  const Water: string := "Water is wet."

  /** `Water is wet.[12]` becomes `Water is wet.` */
  lemma WaterIsWet()
    ensures Clean(Water + "[12]") == Water
  {
    assert "[12]" == "[" + "12" + "]";
    assert IsDigit("12"[0]) && IsDigit("12"[1]);
    CleanDropsTrailingMarker(Water, "12");
  }

  /** `<p>Water is wet.[12]</p>` yields the one paragraph `Water is wet.` */
  lemma WaterParagraph()
    ensures Paragraphs(Wrap([Water + "[12]"])) == [Water]
  {
    WaterIsWet();
    assert !IsJsWhitespace(Water[0]);
    TrimNonEmptyIffText(Water);
    assert IsPlain(Water);
    NoCloseTagInBody(Water + "[12]");
    SingleElement(Water + "[12]");
  }

  const ClaimLead: string := "A "
  const ClaimWord: string := "bold"
  const ClaimTail: string := " claim."

  /** `A <b>bold</b> claim.` becomes `A bold claim.` */
  lemma BoldClaim()
    ensures Clean(ClaimLead + "<b>" + ClaimWord + "</b>" + ClaimTail) == ClaimLead + ClaimWord + ClaimTail
  {
    CleanDropsElementTags(ClaimLead, "<b>", ClaimWord, "</b>", ClaimTail);
  }

  /** `<p>A <b>bold</b> claim.</p>` yields the one paragraph `A bold claim.` */
  lemma BoldClaimParagraph()
    ensures Paragraphs(Wrap([ClaimLead + "<b>" + ClaimWord + "</b>" + ClaimTail])) == [ClaimLead + ClaimWord + ClaimTail]
  {
    BoldClaim();
    var out := ClaimLead + ClaimWord + ClaimTail;
    assert !IsJsWhitespace(out[0]);
    TrimNonEmptyIffText(out);
    assert 'p' !in ClaimLead + "<b>" + ClaimWord + "</b>" + ClaimTail;
    NoCloseTagInBody(ClaimLead + "<b>" + ClaimWord + "</b>" + ClaimTail);
    SingleElement(ClaimLead + "<b>" + ClaimWord + "</b>" + ClaimTail);
  }

  /** The two other paragraphs of the article in the end-to-end test. */
  // The second and third paragraphs, in pieces short enough to check one by one.
  const Second1: string := "C'est un réseau de réseaux, "
  const Second2: string := "sans centre névralgique, "
  const Second3: string := "composé de millions de réseaux."
  const Second: string := Second1 + Second2 + Second3
  const Third1: string := "L'information est transmise "
  const Third2: string := "par Internet grâce à un "
  const Third3: string := "ensemble standardisé de "
  const Third4: string := "protocoles de transfert de données."
  const Third: string := Third1 + Third2 + Third3 + Third4

  /** The first paragraph's body, with its `<b>` element. */
  const First: string := Lead + "<b>" + Bold + "</b>" + Tail

  /** The markup around and between the paragraphs of the end-to-end test. */
  const DivOpen: string := "<div class=\"mw-parser-output\">"
  const Indent: string := "\n          "
  const DivClose: string := "\n        </div>"

  /** The introduction HTML the end-to-end test's parse request answers with. */
  const IntroHtml: string :=
    DivOpen + Indent + OpenTag + First + CloseTag + Indent + OpenTag + Second + CloseTag +
    Indent + OpenTag + Third + CloseTag + DivClose

  /**
   * No `</p>` starts inside the first paragraph's body, although it holds
   * both a `<` and a `p`: its `<` open `<b>` and `</b>`.
   */
  lemma FirstHasNoCloseTag()
    ensures NoCloseTagInside(First)
  {
    var x4 := Tail + CloseTag;
    var x3 := "</b>" + x4;
    var x2 := Bold + x3;
    var x1 := "<b>" + x2;
    BoldPiecesArePlain();
    PlainNoOccurrence(Tail, CloseTag, CloseTag);
    TagNoOccurrence("</b>", x4, CloseTag, 2);
    NoOccurrenceAppend("</b>", x4, CloseTag, |Tail|);
    PlainNoOccurrence(Bold, x3, CloseTag);
    NoOccurrenceAppend(Bold, x3, CloseTag, 4 + |Tail|);
    TagNoOccurrence("<b>", x2, CloseTag, 1);
    NoOccurrenceAppend("<b>", x2, CloseTag, |Bold| + 4 + |Tail|);
    PlainNoOccurrence(Lead, x1, CloseTag);
    NoOccurrenceAppend(Lead, x1, CloseTag, 3 + |Bold| + 4 + |Tail|);
    assert First + CloseTag == Lead + x1;
  }

  /** Four stretches of markup around three elements, written out. */
  lemma LayoutOfThree(g0: string, b1: string, g1: string, b2: string, g2: string, b3: string, g3: string)
    ensures Layout([g0, g1, g2, g3], [b1, b2, b3]) ==
      g0 + OpenTag + b1 + CloseTag + g1 + OpenTag + b2 + CloseTag + g2 + OpenTag + b3 + CloseTag + g3
  {
    var e3 := g2 + (OpenTag + b3 + CloseTag + g3);
    var e2 := g1 + (OpenTag + b2 + CloseTag + e3);
    assert [g0, g1, g2, g3][1..] == [g1, g2, g3] && [b1, b2, b3][1..] == [b2, b3];
    assert [g1, g2, g3][1..] == [g2, g3] && [b2, b3][1..] == [b3];
    assert [g2, g3][1..] == [g3] && [b3][1..] == [];
    assert Layout([g3], []) == g3;
    assert Layout([g2, g3], [b3]) == e3;
    assert Layout([g1, g2, g3], [b2, b3]) == e2;
  }

  // Each piece has a lemma of its own, which keeps each proof small.
  lemma Second1IsPlain() ensures IsPlain(Second1) {}
  lemma Second2IsPlain() ensures IsPlain(Second2) {}
  lemma Second3IsPlain() ensures IsPlain(Second3) {}
  lemma Third1IsPlain() ensures IsPlain(Third1) {}
  lemma Third2IsPlain() ensures IsPlain(Third2) {}
  lemma Third3IsPlain() ensures IsPlain(Third3) {}
  lemma Third4IsPlain() ensures IsPlain(Third4) {}

  /** The second and third paragraphs hold neither tags nor markers, and have visible text. */
  lemma PlainIntroBodies()
    ensures IsPlain(Second) && HasText(Second)
    ensures IsPlain(Third) && HasText(Third)
  {
    Second1IsPlain(); Second2IsPlain(); Second3IsPlain();
    Third1IsPlain(); Third2IsPlain(); Third3IsPlain(); Third4IsPlain();
    assert !IsJsWhitespace(Second[0]) && !IsJsWhitespace(Third[0]);
  }

  /** No `<p>` starts in the markup around the introduction's elements. */
  lemma IntroGapsHaveNoOpenTag()
    ensures NoOpenTagIn(DivOpen + Indent) && NoOpenTagIn(Indent) && NoOpenTagIn(DivClose)
  {
    TagGapHasNoOpenTag(DivOpen + Indent, 1);
    PlainNoOccurrence(Indent, [], OpenTag);
    assert Indent + [] == Indent;
    var spaces, tag := "\n        ", "</div>";
    assert DivClose == spaces + tag;
    PlainNoOccurrence(spaces, tag, OpenTag);
    TagNoOccurrence(tag, [], OpenTag, 1);
    assert tag + [] == tag;
    NoOccurrenceAppend(spaces, tag, OpenTag, |tag|);
  }

  /** Three bodies in a row contribute what each keeps, in order. */
  lemma KeptBodiesOfThree(b1: string, b2: string, b3: string)
    ensures KeptBodies([b1, b2, b3]) == Keep(Clean(b1)) + Keep(Clean(b2)) + Keep(Clean(b3))
  {
    assert [b3][1..] == [];
    assert KeptBodies([b3]) == Keep(Clean(b3));
    assert [b2, b3][1..] == [b3];
    assert KeptBodies([b2, b3]) == Keep(Clean(b2)) + Keep(Clean(b3));
    assert [b1, b2, b3][1..] == [b2, b3];
  }

  /** The first paragraph keeps its text once its `<b>` tags are gone. */
  lemma FirstKept()
    ensures Keep(Clean(First)) == [Lead + Bold + Tail]
  {
    CleanDropsBoldTags();
    assert !IsJsWhitespace((Lead + Bold + Tail)[0]);
    TrimNonEmptyIffText(Lead + Bold + Tail);
  }

  /** The cleaned bodies of the introduction's three elements all have visible text and are kept. */
  lemma IntroKept()
    ensures KeptBodies([First, Second, Third]) == [Lead + Bold + Tail, Second, Third]
  {
    KeptBodiesOfThree(First, Second, Third);
    FirstKept();
    PlainIntroBodies();
    KeepPlain(Second);
    KeepPlain(Third);
  }

  /**
   * The introduction of the end-to-end test yields its three paragraphs, in
   * order; the first has lost its `<b>` tags and kept their text.
   */
  lemma IntroParagraphs()
    ensures Paragraphs(IntroHtml) == [Lead + Bold + Tail, Second, Third]
  {
    var gaps := [DivOpen + Indent, Indent, Indent, DivClose];
    var bodies := [First, Second, Third];
    LayoutOfThree(DivOpen + Indent, First, Indent, Second, Indent, Third, DivClose);
    IntroGapsHaveNoOpenTag();
    PlainIntroBodies();
    FirstHasNoCloseTag();
    NoCloseTagInBody(Second);
    NoCloseTagInBody(Third);
    LayoutParagraphs(gaps, bodies);
    IntroKept();
  }

  /**
   * `[[1]2]` loses its inner marker `[1]` in the single pass and comes out
   * as `[2]`, itself a marker.
   */
  lemma FootnotesOfNestedMarker()
    ensures StripFootnotes("[[1]2]") == "[2]"
  {
    var inner := "[1]2]";
    assert StripFootnotes(inner) == "2]" by {
      assert inner == "" + ("[" + "1" + "]") + "2]";
      StripFootnotesDropsMarker("", "1", "2]");
      NoBracketIsMarkerFree("2]");
      StripFootnotesKeepsMarkerFree("2]");
    }
    assert "[[1]2]" == "[" + inner;
    StripFootnotesKeepsBracket(inner);
  }

  lemma CleanNestedMarker()
    ensures Clean("[[1]2]") == "[2]"
  {
    StripTagsKeepsPlainPrefix("[[1]2]", []);
    assert "[[1]2]" + [] == "[[1]2]";
    FootnotesOfNestedMarker();
  }

  /** The paragraph `<p>[[1]2]</p>` comes out as `[2]`. */
  lemma NestedMarkerSurvives()
    ensures Paragraphs(Wrap(["[[1]2]"])) == ["[2]"]
  {
    CleanNestedMarker();
    TrimNonEmptyIffText("[2]");
    assert !IsJsWhitespace("[2]"[0]);
    NoCloseTagInBody("[[1]2]");
    SingleElement("[[1]2]");
  }

  /** A paragraph that is nothing but a marker has no visible text left and is dropped. */
  lemma MarkerOnlyDropped()
    ensures Paragraphs(Wrap(["[2]"])) == []
  {
    var s := "[2]";
    StripTagsKeepsPlainPrefix(s, []);
    assert s + [] == s;
    assert s == "" + ("[" + "2" + "]") + [];
    StripFootnotesDropsMarker("", "2", []);
    assert Clean(s) == [];
    NoCloseTagInBody(s);
    SingleElement(s);
  }

  /**
   * Extracting again from the output wrapped back in `<p>…</p>` does not
   * always give the same paragraphs: `<p>[[1]2]</p>` yields `[2]`, which
   * yields nothing.
   */
  lemma ExtractAgainCanDiffer()
    ensures var html := Wrap(["[[1]2]"]);
      Paragraphs(Wrap(Paragraphs(html))) != Paragraphs(html)
  {
    NestedMarkerSurvives();
    MarkerOnlyDropped();
  }

  /**
   * A `[` that starts no marker does not hide the marker after it:
   * `a[1x[2]` loses `[2]` and keeps `[1x`.
   */
  lemma BrokenMarkerBeforeMarker()
    ensures StripFootnotes("a[1x[2]") == "a[1x"
  {
    var t := "a[1x";
    assert MarkerFree(t) by {
      forall k | 0 <= k < |t| ensures !MarkerAt(t, k) {
        if k == 1 {
          assert t[1..][1..] == "1x";
          assert DigitRun("1x") == 1 by { assert "1x"[1..] == "x"; }
        }
      }
    }
    StripFootnotesDropsMarker(t, "2", []);
    assert t + ("[" + "2" + "]") + [] == "a[1x[2]";
    assert t + StripFootnotes([]) == t;
  }

  /** An element that is opened and never closed yields nothing: `<p>x` has no paragraph. */
  lemma UnclosedElementNoParagraphs()
    ensures Paragraphs("<p>x") == []
  {
    NoElementNoParagraphs("<p>x");
  }

  /** One element between two stretches of markup, written out. */
  lemma LayoutOfOne(g0: string, b: string, g1: string)
    ensures Layout([g0, g1], [b]) == g0 + (OpenTag + b + CloseTag + g1)
  {
    assert [g0, g1][1..] == [g1] && [b][1..] == [];
  }

  /** The body of a lone element contributes what it keeps. */
  lemma KeptBodiesOfOne(b: string)
    ensures KeptBodies([b]) == Keep(Clean(b))
  {
    assert [b][1..] == [];
  }

  /**
   * Markup holding a tag that starts like `<p` but is not `<p>` is skipped:
   * `<pre><p>a</p>` has the one paragraph `a`.
   */
  lemma PreTagSkipped()
    ensures Paragraphs("<pre><p>a</p>") == ["a"]
  {
    var pre, a := "<pre>", "a";
    assert NoOpenTagIn(pre) && NoOpenTagIn([]) by {
      TagGapHasNoOpenTag(pre, 2);
    }
    assert Keep(Clean(a)) == [a] by {
      assert IsPlain(a) && !IsJsWhitespace(a[0]);
      KeepPlain(a);
    }
    assert Layout([pre, []], [a]) == "<pre><p>a</p>" by {
      LayoutOfOne(pre, a, []);
    }
    NoCloseTagInBody(a);
    KeptBodiesOfOne(a);
    LayoutParagraphs([pre, []], [a]);
  }
}
