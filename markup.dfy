/**
 * The three string scans that the paragraph extractor of `WikipediaService`
 * performs with regular expressions and `String.prototype.trim`, written as
 * explicit scanners over `string` (a `seq<char>`):
 *   - a literal search (how `/<p>(.*?)<\/p>/` finds its two delimiters),
 *   - tag removal, `replace(/<[^>]*>/g, '')`,
 *   - footnote-marker removal, `replace(/\[\d+\]/g, '')`,
 *   - `trim()` with JavaScript's set of white-space characters.
 *
 * The functions carry only cheap contracts; what each one guarantees is
 * stated and proved in the lemmas that follow it.
 */
module Markup {
  import opened Wrappers

  /** `pat` occurs in `s` starting at index `k`. */
  predicate OccursAt(s: string, pat: string, k: int)
  {
    0 <= k && k + |pat| <= |s| && s[k..k + |pat|] == pat
  }

  /** The first index at or after `from` where `pat` occurs in `s`. */
  function IndexOf(s: string, pat: string, from: nat): (r: Option<nat>)
    ensures r.Some? ==> from <= r.value && OccursAt(s, pat, r.value)
    decreases |s| - from
  {
    if from + |pat| > |s| then None
    else if s[from..from + |pat|] == pat then Some(from)
    else IndexOf(s, pat, from + 1)
  }

  /**
   * `IndexOf` skips no occurrence: none lies between `from` and the index it
   * returns, and there is none at all at or after `from` when it returns none.
   */
  lemma {:induction false} IndexOfIsFirst(s: string, pat: string, from: nat)
    ensures IndexOf(s, pat, from).Some? ==>
      forall k :: from <= k < IndexOf(s, pat, from).value ==> !OccursAt(s, pat, k)
    ensures IndexOf(s, pat, from).None? ==> forall k :: from <= k ==> !OccursAt(s, pat, k)
    decreases |s| - from
  {
    if from + |pat| <= |s| && s[from..from + |pat|] != pat {
      IndexOfIsFirst(s, pat, from + 1);
    }
  }

  /** A search that meets an occurrence with none before it returns that occurrence. */
  lemma {:induction false} IndexOfFinds(s: string, pat: string, from: nat, i: nat)
    requires from <= i && OccursAt(s, pat, i)
    requires forall k :: from <= k < i ==> !OccursAt(s, pat, k)
    ensures IndexOf(s, pat, from) == Some(i)
    decreases i - from
  {
    if from < i {
      assert !OccursAt(s, pat, from);
      IndexOfFinds(s, pat, from + 1, i);
    }
  }

  /** A search from `from` skips a stretch up to `stop` in which `pat` never starts. */
  lemma {:induction false} IndexOfSkip(s: string, pat: string, from: nat, stop: nat)
    requires from <= stop
    requires forall k :: from <= k < stop ==> !OccursAt(s, pat, k)
    ensures IndexOf(s, pat, from) == IndexOf(s, pat, stop)
    decreases stop - from
  {
    if from < stop {
      assert !OccursAt(s, pat, from);
      IndexOfSkip(s, pat, from + 1, stop);
    }
  }

  /** `pat` starts nowhere among the first `n` positions of `s`. */
  predicate NoOccurrenceBefore(s: string, pat: string, n: int)
  {
    forall k :: 0 <= k < n ==> !OccursAt(s, pat, k)
  }

  /** An occurrence in `s` from `from` on is an occurrence in `s[from..]`, shifted. */
  lemma OccursShift(s: string, pat: string, from: nat, k: nat)
    requires from <= |s|
    ensures OccursAt(s, pat, from + k) <==> OccursAt(s[from..], pat, k)
  {
    if from + k + |pat| <= |s| {
      assert s[from + k..from + k + |pat|] == s[from..][k..k + |pat|];
    }
  }

  /** `pat` cannot start inside text that lacks its first character. */
  lemma PlainNoOccurrence(t: string, rest: string, pat: string)
    requires pat != [] && pat[0] !in t
    ensures NoOccurrenceBefore(t + rest, pat, |t|)
  {
    forall k | 0 <= k < |t| ensures !OccursAt(t + rest, pat, k) {
      if k + |pat| <= |t + rest| {
        assert (t + rest)[k..k + |pat|][0] == t[k];
      }
    }
  }

  /**
   * `pat` does not start inside `tag` when the first character of `pat`
   * appears only at the head of `tag`, and `tag` differs from `pat` at `j`.
   */
  lemma TagNoOccurrence(tag: string, rest: string, pat: string, j: nat)
    requires 0 < j < |tag| && j < |pat| && tag[j] != pat[j]
    requires pat[0] !in tag[1..]
    ensures NoOccurrenceBefore(tag + rest, pat, |tag|)
  {
    var s := tag + rest;
    forall k | 0 <= k < |tag| ensures !OccursAt(s, pat, k) {
      if k + |pat| <= |s| {
        if k == 0 {
          assert s[k..k + |pat|][j] == tag[j];
        } else {
          assert s[k..k + |pat|][0] == tag[1..][k - 1];
        }
      }
    }
  }

  /**
   * `pat` starting nowhere inside `g` does not start across its end either
   * when the text after `g` opens with a character found nowhere in `pat`
   * but at its head.
   */
  lemma NoOccurrenceAcrossEnd(g: string, rest: string, pat: string)
    requires NoOccurrenceBefore(g, pat, |g|)
    requires rest != [] && forall j :: 0 < j < |pat| ==> pat[j] != rest[0]
    ensures NoOccurrenceBefore(g + rest, pat, |g|)
  {
    var s := g + rest;
    forall k | 0 <= k < |g| ensures !OccursAt(s, pat, k) {
      if k + |pat| <= |g| {
        assert s[k..k + |pat|] == g[k..k + |pat|];
        assert !OccursAt(g, pat, k);
      } else if k + |pat| <= |s| {
        assert s[k..k + |pat|][|g| - k] == rest[0];
      }
    }
  }

  /** Text in front of `rest` adds its own positions to those where `pat` does not start. */
  lemma NoOccurrenceAppend(t: string, rest: string, pat: string, n: nat)
    requires NoOccurrenceBefore(t + rest, pat, |t|)
    requires n <= |rest| && NoOccurrenceBefore(rest, pat, n)
    ensures NoOccurrenceBefore(t + rest, pat, |t| + n)
  {
    var s := t + rest;
    assert s[|t|..] == rest;
    forall k | |t| <= k < |t| + n ensures !OccursAt(s, pat, k) {
      OccursShift(s, pat, |t|, k - |t|);
    }
  }

  lemma AppendAssoc<T>(a: seq<T>, b: seq<T>, c: seq<T>)
    ensures a + (b + c) == (a + b) + c
  {
  }

  lemma HeadTail<T>(s: seq<T>)
    requires s != []
    ensures s == [s[0]] + s[1..]
  {
  }

  lemma ConsAppend<T>(t: seq<T>, x: seq<T>)
    requires t != []
    ensures [t[0]] + (t[1..] + x) == t + x
  {
    assert t == [t[0]] + t[1..];
  }

  lemma OneCharOccurs(s: string, c: char, k: int)
    requires 0 <= k < |s|
    ensures OccursAt(s, [c], k) <==> s[k] == c
  {
    assert s[k..k + 1] == [s[k]];
  }

  /** Every character of `s[n..]` is a character of `s`. */
  lemma DropKeepsChars(s: string, n: nat, r: string)
    requires n <= |s|
    requires forall k :: 0 <= k < |r| ==> r[k] in s[n..]
    ensures forall k :: 0 <= k < |r| ==> r[k] in s
  {
    forall k | 0 <= k < |r| ensures r[k] in s {
      var j :| 0 <= j < |s[n..]| && s[n..][j] == r[k];
      assert s[j + n] == r[k];
    }
  }

  // ---------------------------------------------------------------------
  // Tags: /<[^>]*>/g
  // ---------------------------------------------------------------------

  /**
   * No complete tag is left in `s`: no `<` has a `>` anywhere after it, so
   * `/<[^>]*>/` has nothing to match.
   */
  predicate NoCompleteTag(s: string)
  {
    forall i, j :: 0 <= i < j < |s| && s[i] == '<' ==> s[j] != '>'
  }

  /** A suffix of text with no complete tag has none either. */
  lemma SuffixKeepsNoTag(s: string, t: nat)
    requires t <= |s| && NoCompleteTag(s)
    ensures NoCompleteTag(s[t..])
  {
    forall i, j | 0 <= i < j < |s[t..]| && s[t..][i] == '<' ensures s[t..][j] != '>' {
      assert s[i + t] == '<';
    }
  }

  /** Putting `c` before tag-free text keeps it tag-free unless `c` opens a tag the text closes. */
  lemma ConsKeepsNoTag(c: char, rest: string)
    requires NoCompleteTag(rest)
    requires c == '<' ==> forall k :: 0 <= k < |rest| ==> rest[k] != '>'
    ensures NoCompleteTag([c] + rest)
  {
    var r := [c] + rest;
    forall i, j | 0 <= i < j < |r| && r[i] == '<' ensures r[j] != '>' {
      if i > 0 { assert r[i] == rest[i - 1] && r[j] == rest[j - 1]; }
      else { assert r[j] == rest[j - 1]; }
    }
  }

  /**
   * `s.replace(/<[^>]*>/g, '')`. A match starts at a `<` and runs to the
   * first `>` after it (`[^>]*` cannot cross a `>`); a `<` with no `>` after
   * it is not a match and is kept.
   */
  function StripTags(s: string): (r: string)
    ensures |r| <= |s|
    decreases |s|
  {
    if s == [] then []
    else if s[0] == '<' then
      match IndexOf(s, ">", 1)
      case Some(m) => StripTags(s[m + 1..])
      case None => [s[0]] + StripTags(s[1..])
    else
      [s[0]] + StripTags(s[1..])
  }

  /** Tag removal only deletes: every character it returns is one of `s`. */
  lemma {:induction false} StripTagsOnlyDeletes(s: string)
    ensures forall k :: 0 <= k < |StripTags(s)| ==> StripTags(s)[k] in s
    decreases |s|
  {
    if s != [] {
      var r := StripTags(s);
      if s[0] == '<' && IndexOf(s, ">", 1).Some? {
        var m := IndexOf(s, ">", 1).value;
        StripTagsOnlyDeletes(s[m + 1..]);
        assert r == StripTags(s[m + 1..]);
        DropKeepsChars(s, m + 1, r);
      } else {
        var rest := StripTags(s[1..]);
        StripTagsOnlyDeletes(s[1..]);
        DropKeepsChars(s, 1, rest);
        assert r == [s[0]] + rest;
        forall k | 0 <= k < |r| ensures r[k] in s {
          if k > 0 { assert r[k] == rest[k - 1]; }
        }
      }
    }
  }

  /** After tag removal no complete tag is left. */
  lemma {:induction false} StripTagsLeavesNoTag(s: string)
    ensures NoCompleteTag(StripTags(s))
    decreases |s|
  {
    if s != [] {
      if s[0] == '<' && IndexOf(s, ">", 1).Some? {
        var m := IndexOf(s, ">", 1).value;
        StripTagsLeavesNoTag(s[m + 1..]);
      } else {
        var r := StripTags(s);
        var rest := StripTags(s[1..]);
        StripTagsLeavesNoTag(s[1..]);
        assert r == [s[0]] + rest;
        if s[0] == '<' {
          IndexOfIsFirst(s, ">", 1);
          StripTagsOnlyDeletes(s[1..]);
          forall k | 0 <= k < |rest| ensures rest[k] != '>' {
            var j :| 0 <= j < |s[1..]| && s[1..][j] == rest[k];
            OneCharOccurs(s, '>', j + 1);
          }
        }
        ConsKeepsNoTag(s[0], rest);
      }
    }
  }

  /** Text without a complete tag passes through tag removal unchanged. */
  lemma {:induction false} StripTagsKeepsTagFree(s: string)
    requires NoCompleteTag(s)
    ensures StripTags(s) == s
    decreases |s|
  {
    if s != [] {
      SuffixKeepsNoTag(s, 1);
      StripTagsKeepsTagFree(s[1..]);
      if s[0] == '<' {
        forall k | 1 <= k < |s| ensures !OccursAt(s, ">", k) { OneCharOccurs(s, '>', k); }
        assert IndexOf(s, ">", 1).None?;
        assert s == [s[0]] + s[1..];
      } else {
        assert s == [s[0]] + s[1..];
      }
    }
  }

  /** Text with no `<` in front of the rest keeps that text. */
  lemma {:induction false} StripTagsKeepsPlainPrefix(t: string, rest: string)
    requires '<' !in t
    ensures StripTags(t + rest) == t + StripTags(rest)
    decreases |t|
  {
    if t != [] {
      var s := t + rest;
      assert t[0] in t;
      assert s[0] == t[0] && s[1..] == t[1..] + rest;
      assert StripTags(s) == [t[0]] + StripTags(t[1..] + rest);
      assert '<' !in t[1..];
      StripTagsKeepsPlainPrefix(t[1..], rest);
      ConsAppend(t, StripTags(rest));
    } else {
      assert t + rest == rest;
    }
  }

  /** A complete tag `<…>` (its body free of `>`) is deleted with nothing else. */
  /** `t` is one whole match of `/<[^>]*>/`: a `<`, no `>`, then a `>`. */
  predicate IsTag(t: string)
  {
    |t| >= 2 && t[0] == '<' && t[|t| - 1] == '>' && forall k :: 1 <= k < |t| - 1 ==> t[k] != '>'
  }

  /** A tag in front of the rest is deleted whole. */
  lemma StripTagsDropsTag(t: string, rest: string)
    requires IsTag(t)
    ensures StripTags(t + rest) == StripTags(rest)
  {
    var s := t + rest;
    var m := |t| - 1;
    assert s[m] == '>';
    OneCharOccurs(s, '>', m);
    forall k | 1 <= k < m ensures !OccursAt(s, ">", k) {
      assert s[k] == t[k];
      OneCharOccurs(s, '>', k);
    }
    IndexOfFinds(s, ">", 1, m);
    assert s[m + 1..] == rest;
  }

  // ---------------------------------------------------------------------
  // Footnote markers: /\[\d+\]/g
  // ---------------------------------------------------------------------

  /** `\d` without the `u` flag: an ASCII decimal digit. */
  predicate IsDigit(c: char)
  {
    '0' <= c <= '9'
  }

  /** `m` is a whole footnote marker `[` digit+ `]`. */
  predicate IsMarker(m: string)
  {
    |m| >= 3 && m[0] == '[' && m[|m| - 1] == ']' &&
    forall k :: 1 <= k < |m| - 1 ==> IsDigit(m[k])
  }

  /** The number of digits `s` starts with. */
  function DigitRun(s: string): (n: nat)
    ensures n <= |s|
    decreases |s|
  {
    if s != [] && IsDigit(s[0]) then 1 + DigitRun(s[1..]) else 0
  }

  /** `DigitRun` takes every leading digit and stops at the first non-digit. */
  lemma {:induction false} DigitRunIsMaximal(s: string)
    ensures forall k :: 0 <= k < DigitRun(s) ==> IsDigit(s[k])
    ensures DigitRun(s) < |s| ==> !IsDigit(s[DigitRun(s)])
    decreases |s|
  {
    if s != [] && IsDigit(s[0]) {
      DigitRunIsMaximal(s[1..]);
      forall k | 0 <= k < DigitRun(s) ensures IsDigit(s[k]) {
        if k > 0 { assert s[k] == s[1..][k - 1]; }
      }
    }
  }

  /**
   * The length of the footnote marker at the start of `s`, 0 when there is
   * none: `\d+` takes every digit and then needs a `]`.
   */
  function MarkerLength(s: string): (n: nat)
    ensures n <= |s|
  {
    if s != [] && s[0] == '[' then
      var d := DigitRun(s[1..]);
      if d > 0 && d + 1 < |s| && s[d + 1] == ']' then d + 2 else 0
    else
      0
  }

  /**
   * `MarkerLength` returns the length of the one marker `s` starts with, and
   * 0 exactly when no prefix of `s` is a marker.
   */
  lemma MarkerLengthIsMarker(s: string)
    ensures MarkerLength(s) > 0 ==> IsMarker(s[..MarkerLength(s)])
    ensures forall len :: 0 < len <= |s| && IsMarker(s[..len]) ==> MarkerLength(s) == len
  {
    if s != [] && s[0] == '[' {
      var d := DigitRun(s[1..]);
      DigitRunIsMaximal(s[1..]);
      if d > 0 && d + 1 < |s| && s[d + 1] == ']' {
        var m := s[..d + 2];
        forall k | 1 <= k < |m| - 1 ensures IsDigit(m[k]) { assert m[k] == s[1..][k - 1]; }
      }
      forall len | 0 < len <= |s| && IsMarker(s[..len]) ensures MarkerLength(s) == len {
        var m := s[..len];
        forall k | 0 <= k < len - 2 ensures IsDigit(s[1..][k]) { assert m[k + 1] == s[1..][k]; }
      }
    }
  }

  lemma MarkerLengthOfMarker(digits: string, rest: string)
    requires |digits| > 0 && forall k :: 0 <= k < |digits| ==> IsDigit(digits[k])
    ensures MarkerLength("[" + digits + "]" + rest) == |digits| + 2
  {
    var m := "[" + digits + "]";
    forall k | 1 <= k < |m| - 1 ensures IsDigit(m[k]) { assert m[k] == digits[k - 1]; }
    assert IsMarker(m);
    assert (m + rest)[..|m|] == m;
    MarkerLengthIsMarker(m + rest);
  }

  /** A footnote marker starts at index `k` of `s`. */
  predicate MarkerAt(s: string, k: int)
  {
    0 <= k < |s| && MarkerLength(s[k..]) > 0
  }

  /** No footnote marker starts anywhere in `s`. */
  predicate MarkerFree(s: string)
  {
    forall k :: 0 <= k < |s| ==> !MarkerAt(s, k)
  }

  /**
   * `s.replace(/\[\d+\]/g, '')`: one left-to-right pass that deletes each
   * marker it meets and resumes after it.
   */
  function StripFootnotes(s: string): (r: string)
    ensures |r| <= |s|
    decreases |s|
  {
    if s == [] then []
    else
      var n := MarkerLength(s);
      if n > 0 then StripFootnotes(s[n..])
      else [s[0]] + StripFootnotes(s[1..])
  }

  /** Footnote removal only deletes: every character it returns is one of `s`. */
  lemma {:induction false} StripFootnotesOnlyDeletes(s: string)
    ensures forall k :: 0 <= k < |StripFootnotes(s)| ==> StripFootnotes(s)[k] in s
    decreases |s|
  {
    if s != [] {
      var r := StripFootnotes(s);
      var n := MarkerLength(s);
      if n > 0 {
        StripFootnotesOnlyDeletes(s[n..]);
        assert r == StripFootnotes(s[n..]);
        DropKeepsChars(s, n, r);
      } else {
        var rest := StripFootnotes(s[1..]);
        StripFootnotesOnlyDeletes(s[1..]);
        DropKeepsChars(s, 1, rest);
        assert r == [s[0]] + rest;
        forall k | 0 <= k < |r| ensures r[k] in s {
          if k > 0 { assert r[k] == rest[k - 1]; }
        }
      }
    }
  }

  /** Text in which no marker starts passes through footnote removal unchanged. */
  lemma {:induction false} StripFootnotesKeepsMarkerFree(s: string)
    requires MarkerFree(s)
    ensures StripFootnotes(s) == s
    decreases |s|
  {
    if s != [] {
      assert !MarkerAt(s, 0);
      assert s[0..] == s;
      assert MarkerFree(s[1..]) by {
        forall k | 0 <= k < |s[1..]| ensures !MarkerAt(s[1..], k) {
          assert !MarkerAt(s, k + 1);
          assert s[1..][k..] == s[k + 1..];
        }
      }
      StripFootnotesKeepsMarkerFree(s[1..]);
      assert s == [s[0]] + s[1..];
    }
  }

  /** A marker starts with `[`, so text without `[` holds none. */
  lemma NoBracketIsMarkerFree(s: string)
    requires '[' !in s
    ensures MarkerFree(s)
  {
    forall k | 0 <= k < |s| ensures !MarkerAt(s, k) {
      MarkerLengthIsMarker(s[k..]);
      assert s[k..][0] == s[k];
    }
  }

  /** A non-digit after a digit run ends it. */
  lemma {:induction false} DigitRunBeforeNonDigit(a: string, b: string)
    requires b != [] && !IsDigit(b[0])
    ensures DigitRun(a + b) == DigitRun(a)
    decreases |a|
  {
    if a == [] {
      assert a + b == b;
    } else {
      assert (a + b)[0] == a[0];
      assert (a + b)[1..] == a[1..] + b;
      if IsDigit(a[0]) {
        DigitRunBeforeNonDigit(a[1..], b);
      }
    }
  }

  /**
   * A `[` after `a` can neither extend a digit run nor close a marker, so
   * the marker `a + b` starts with is the one `a` starts with.
   */
  lemma MarkerLengthBeforeBracket(a: string, b: string)
    requires a != [] && b != [] && b[0] == '['
    ensures MarkerLength(a + b) == MarkerLength(a)
  {
    var s := a + b;
    assert s[0] == a[0];
    if a[0] == '[' {
      assert s[1..] == a[1..] + b;
      DigitRunBeforeNonDigit(a[1..], b);
      var d := DigitRun(a[1..]);
      if d + 1 < |a| {
        assert s[d + 1] == a[d + 1];
      } else {
        assert s[d + 1] == b[0];
      }
    }
  }

  /**
   * A marker after text in which no marker starts is deleted, and the text
   * before it is kept as it is.
   */
  lemma {:induction false} StripFootnotesDropsMarker(t: string, digits: string, rest: string)
    requires MarkerFree(t)
    requires |digits| > 0 && forall k :: 0 <= k < |digits| ==> IsDigit(digits[k])
    ensures StripFootnotes(t + ("[" + digits + "]") + rest) == t + StripFootnotes(rest)
    decreases |t|
  {
    var m := "[" + digits + "]";
    var s := t + m + rest;
    if t == [] {
      assert s == m + rest;
      MarkerLengthOfMarker(digits, rest);
      assert s[|m|..] == rest;
    } else {
      assert MarkerLength(s) == 0 by {
        assert !MarkerAt(t, 0) && t[0..] == t;
        assert s == t + (m + rest);
        MarkerLengthBeforeBracket(t, m + rest);
      }
      assert s[1..] == t[1..] + m + rest;
      assert MarkerFree(t[1..]) by {
        forall k | 0 <= k < |t[1..]| ensures !MarkerAt(t[1..], k) {
          assert !MarkerAt(t, k + 1);
          assert t[1..][k..] == t[k + 1..];
        }
      }
      StripFootnotesDropsMarker(t[1..], digits, rest);
      ConsAppend(t, StripFootnotes(rest));
    }
  }

  /** A `[` that no digit follows starts no marker and is kept. */
  lemma StripFootnotesKeepsBracket(rest: string)
    requires rest != [] && !IsDigit(rest[0])
    ensures StripFootnotes("[" + rest) == "[" + StripFootnotes(rest)
  {
    var s := "[" + rest;
    assert s[1..] == rest;
    assert MarkerLength(s) == 0;
  }

  /** Deleting markers cannot create a complete tag. */
  lemma {:induction false} StripFootnotesKeepsNoTag(s: string)
    requires NoCompleteTag(s)
    ensures NoCompleteTag(StripFootnotes(s))
    decreases |s|
  {
    if s != [] {
      var n := MarkerLength(s);
      var tail := if n > 0 then n else 1;
      SuffixKeepsNoTag(s, tail);
      StripFootnotesKeepsNoTag(s[tail..]);
      if n == 0 {
        var rest := StripFootnotes(s[1..]);
        assert StripFootnotes(s) == [s[0]] + rest;
        if s[0] == '<' {
          StripFootnotesOnlyDeletes(s[1..]);
          forall k | 0 <= k < |rest| ensures rest[k] != '>' {
            var j :| 0 <= j < |s[1..]| && s[1..][j] == rest[k];
            assert s[j + 1] == rest[k];
          }
        }
        ConsKeepsNoTag(s[0], rest);
      }
    }
  }

  // ---------------------------------------------------------------------
  // String.prototype.trim
  // ---------------------------------------------------------------------

  /**
   * The characters `trim()` removes: ECMAScript WhiteSpace (tab, vertical
   * tab, form feed, the byte-order mark and every space separator) and
   * LineTerminator (line feed, carriage return, U+2028, U+2029).
   */
  predicate IsJsWhitespace(c: char)
  {
    c == '\t' || c == '\n' || c == '\U{B}' || c == '\U{C}' || c == '\r' ||
    c == ' ' || c == '\U{A0}' || c == '\U{1680}' || ('\U{2000}' <= c <= '\U{200A}') ||
    c == '\U{2028}' || c == '\U{2029}' || c == '\U{202F}' || c == '\U{205F}' ||
    c == '\U{3000}' || c == '\U{FEFF}'
  }

  /** `s` holds a character that `trim()` keeps. */
  predicate HasText(s: string)
  {
    exists k :: 0 <= k < |s| && !IsJsWhitespace(s[k])
  }

  /** `s` without its leading white space. */
  function TrimStart(s: string): (r: string)
    ensures |r| <= |s|
    decreases |s|
  {
    if s != [] && IsJsWhitespace(s[0]) then TrimStart(s[1..]) else s
  }

  /** `s` without its trailing white space. */
  function TrimEnd(s: string): (r: string)
    ensures |r| <= |s|
    decreases |s|
  {
    if s != [] && IsJsWhitespace(s[|s| - 1]) then TrimEnd(s[..|s| - 1]) else s
  }

  /** `s.trim()`. */
  function Trim(s: string): (r: string)
    ensures |r| <= |s|
  {
    TrimEnd(TrimStart(s))
  }

  /**
   * `TrimStart` drops the longest white-space prefix: what it returns is a
   * suffix of `s`, everything before it is white space, and it does not
   * start with white space.
   */
  lemma {:induction false} TrimStartDropsWhitespace(s: string)
    ensures var r := TrimStart(s);
      r == s[|s| - |r|..] &&
      (forall k :: 0 <= k < |s| - |r| ==> IsJsWhitespace(s[k])) &&
      (r != [] ==> !IsJsWhitespace(r[0]))
    decreases |s|
  {
    if s != [] && IsJsWhitespace(s[0]) {
      TrimStartDropsWhitespace(s[1..]);
      var r := TrimStart(s);
      assert s[1..][|s[1..]| - |r|..] == s[|s| - |r|..];
      forall k | 0 <= k < |s| - |r| ensures IsJsWhitespace(s[k]) {
        if k > 0 { assert s[k] == s[1..][k - 1]; }
      }
    }
  }

  /**
   * `TrimEnd` drops the longest white-space suffix: what it returns is a
   * prefix of `s`, everything after it is white space, and it does not end
   * with white space.
   */
  lemma {:induction false} TrimEndDropsWhitespace(s: string)
    ensures var r := TrimEnd(s);
      r == s[..|r|] &&
      (forall k :: |r| <= k < |s| ==> IsJsWhitespace(s[k])) &&
      (r != [] ==> !IsJsWhitespace(r[|r| - 1]))
    decreases |s|
  {
    if s != [] && IsJsWhitespace(s[|s| - 1]) {
      var t := s[..|s| - 1];
      TrimEndDropsWhitespace(t);
      var r := TrimEnd(s);
      assert t[..|r|] == s[..|r|];
      forall k | |r| <= k < |s| ensures IsJsWhitespace(s[k]) {
        if k < |s| - 1 { assert s[k] == t[k]; }
      }
    }
  }

  /**
   * `trim()` cuts `s` down to the stretch between its leading and trailing
   * white space: what it returns is a slice of `s`, everything outside the
   * slice is white space, and the slice neither starts nor ends with white
   * space.
   */
  lemma TrimDropsWhitespace(s: string)
    ensures var r := Trim(s); var lo := |s| - |TrimStart(s)|;
      lo + |r| <= |s| && r == s[lo..lo + |r|] &&
      (forall k :: 0 <= k < lo ==> IsJsWhitespace(s[k])) &&
      (forall k :: lo + |r| <= k < |s| ==> IsJsWhitespace(s[k])) &&
      (r != [] ==> !IsJsWhitespace(r[0]) && !IsJsWhitespace(r[|r| - 1]))
  {
    var a := TrimStart(s);
    var r := TrimEnd(a);
    var lo := |s| - |a|;
    assert a == s[lo..] && (forall k :: 0 <= k < lo ==> IsJsWhitespace(s[k])) &&
      (a != [] ==> !IsJsWhitespace(a[0])) by {
      TrimStartDropsWhitespace(s);
    }
    assert r == a[..|r|] && (forall k :: |r| <= k < |a| ==> IsJsWhitespace(a[k])) &&
      (r != [] ==> !IsJsWhitespace(r[|r| - 1])) by {
      TrimEndDropsWhitespace(a);
    }
    assert r == s[lo..lo + |r|];
    forall k | lo + |r| <= k < |s| ensures IsJsWhitespace(s[k]) {
      assert s[k] == a[k - lo];
    }
    if r != [] {
      assert r[0] == a[0];
    }
  }

  /** `s.trim().length > 0` exactly when `s` holds a non-white-space character. */
  lemma TrimNonEmptyIffText(s: string)
    ensures |Trim(s)| > 0 <==> HasText(s)
  {
    var a := TrimStart(s);
    var b := TrimEnd(a);
    TrimStartDropsWhitespace(s);
    TrimEndDropsWhitespace(a);
    if |b| > 0 {
      assert a[0] == b[0];
      assert s[|s| - |a|] == a[0];
    }
    if HasText(s) {
      var k :| 0 <= k < |s| && !IsJsWhitespace(s[k]);
      assert |s| - |a| <= k;
      assert a[k - (|s| - |a|)] == s[k];
      assert !IsJsWhitespace(a[k - (|s| - |a|)]);
      assert |b| > 0;
    }
  }
}
