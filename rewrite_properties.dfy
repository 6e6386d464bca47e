/**
 * What the rewrite does to the text, proved about the
 * functions of module Utils.
 */
module RewriteProperties {
  import opened Wrappers
  import opened JsString
  import opened Utils

  /** Nothing is uploaded exactly when no scanned source is a data image. */
  lemma {:induction false} DataMatchesEmpty(ms: seq<Match>)
    decreases |ms|
    ensures DataMatches(ms) == [] <==> forall i :: 0 <= i < |ms| ==> !IsDataImage(ms[i].src)
  {
    if ms != [] {
      var n := |ms| - 1;
      var r := DataMatches(ms[..n]);
      DataMatchesEmpty(ms[..n]);
      if IsDataImage(ms[n].src) {
        assert DataMatches(ms) == r + [ms[n]];
      } else {
        assert DataMatches(ms) == r;
        assert (forall i :: 0 <= i < n ==> !IsDataImage(ms[..n][i].src)) <==>
               (forall i :: 0 <= i < |ms| ==> !IsDataImage(ms[i].src));
      }
    }
  }

  /**
   * When no source the scan captures begins with "data:image/", nothing is
   * uploaded and the content comes back unchanged, whatever the store would
   * have returned.
   */
  lemma NoDataImagesUnchanged(content: string, urls: seq<string>)
    requires forall i :: 0 <= i < |AllMatches(content, 0)| ==> !IsDataImage(AllMatches(content, 0)[i].src)
    ensures DataSources(content) == []
    ensures RewriteInlineImages(content, urls) == content
  {
    DataMatchesEmpty(AllMatches(content, 0));
  }

  /** Spans that lie inside `s`, do not overlap and come in position order. */
  ghost predicate SpansIn(s: string, ms: seq<Match>) {
    Ordered(ms) && forall i :: 0 <= i < |ms| ==> ms[i].End() <= |s|
  }

  /**
   * The reference rewrite: every capture in `ms` replaced IN PLACE by its own
   * URL, all other text kept, in order. (Out-of-range spans, which SpansIn
   * rules out, leave the text as it is.)
   */
  ghost function Splice(s: string, ms: seq<Match>, urls: seq<string>): (r: string)
    decreases |ms|
  {
    if ms == [] then s
    else
      var n := |ms| - 1;
      var p, e := ms[n].SrcStart(), ms[n].SrcEnd();
      if e <= |s| && n < |urls| then Splice(s[..p], ms[..n], urls) + urls[n] + s[e..] else s
  }

  /** The original text between capture `j - 1` (or the start) and capture `j`. */
  ghost function Gap(s: string, ms: seq<Match>, j: nat): (g: string) {
    if j < |ms| then
      var from, to := if j == 0 then 0 else ms[j - 1].SrcEnd(), ms[j].SrcStart();
      if from <= to <= |s| then s[from..to] else ""
    else ""
  }

  /**
   * The condition under which "replace the first remaining occurrence" hits
   * the capture itself: no earlier gap of original text and no earlier URL
   * contains the source.
   */
  ghost predicate NoStrayCopies(s: string, ms: seq<Match>, urls: seq<string>) {
    forall i, j :: 0 <= j <= i < |ms| ==>
      !Contains(Gap(s, ms, j), ms[i].src) && (j < i < |urls| ==> !Contains(urls[j], ms[i].src))
  }

  /** Splitting off an untouched tail of the text commutes with Splice. */
  lemma SpliceTail(s: string, ms: seq<Match>, urls: seq<string>, L: nat)
    requires |ms| <= |urls| && L <= |s|
    requires forall i :: 0 <= i < |ms| ==> ms[i].End() <= L
    ensures Splice(s, ms, urls) == Splice(s[..L], ms, urls) + s[L..]
  {
    if ms == [] {
      TakeDrop(s, L);
    } else {
      SpliceTailLast(s, ms, urls, L);
    }
  }

  lemma SpliceTailLast(s: string, ms: seq<Match>, urls: seq<string>, L: nat)
    requires 0 < |ms| <= |urls| && L <= |s|
    requires forall i :: 0 <= i < |ms| ==> ms[i].End() <= L
    ensures Splice(s, ms, urls) == Splice(s[..L], ms, urls) + s[L..]
  {
    var n := |ms| - 1;
    var p, e := ms[n].SrcStart(), ms[n].SrcEnd();
    var head := Splice(s[..p], ms[..n], urls);
    var u := urls[n];
    assert Splice(s, ms, urls) == head + u + s[e..];
    assert Splice(s[..L], ms, urls) == head + u + s[e..L] by {
      assert s[..L][..p] == s[..p];
      assert s[..L][e..] == s[e..L];
    }
    assert s[e..] == s[e..L] + s[L..] by {
      SliceSplit(s, e, L);
    }
    RegroupTail(head, u, s[e..L], s[L..]);
  }

  /** A capture sits between two quotes, inside the text. */
  lemma QuotesAround(s: string, m: Match)
    requires RegexMatchesAt(s, m.start, m.src)
    ensures 1 <= m.SrcStart() && s[m.SrcStart() - 1] == '"'
    ensures m.End() <= |s| && s[m.SrcEnd()] == '"'
    ensures s[m.SrcStart()..m.SrcEnd()] == m.src
  {
    assert s[m.start..m.SrcStart()] == ImgSrcPrefix;
    assert s[m.SrcStart() - 1] == s[m.start..m.SrcStart()][|ImgSrcPrefix| - 1];
  }

  /** Splice up to capture `n` is Splice up to capture `n - 1`, its URL, and gap `n`. */
  lemma SpliceUnfoldPrefix(s: string, ms: seq<Match>, urls: seq<string>, n: nat)
    requires SpansIn(s, ms) && |ms| <= |urls| && 0 < n < |ms|
    ensures Splice(s[..ms[n].SrcStart()], ms[..n], urls) ==
            Splice(s[..ms[n - 1].SrcStart()], ms[..n - 1], urls) + urls[n - 1] + Gap(s, ms, n)
  {
    var p, q, e := ms[n].SrcStart(), ms[n - 1].SrcStart(), ms[n - 1].SrcEnd();
    assert ms[n - 1].End() <= ms[n].start;
    assert ms[..n][..n - 1] == ms[..n - 1];
    assert s[..p][..q] == s[..q];
    assert s[..p][e..] == Gap(s, ms, n);
  }

  /** No copy of a quote-free `d` can straddle the quotes that join three pieces. */
  lemma NoCopyAcrossQuotes(b: string, u: string, g: string, d: string)
    requires |b| > 0 && b[|b| - 1] == '"' && |g| > 0 && g[0] == '"' && '"' !in d
    requires !Contains(b, d) && !Contains(u, d) && !Contains(g, d)
    ensures !Contains(b + u + g, d)
  {
    if Contains(b + u + g, d) {
      OccurrenceSplitsAt(b + u, g, d, '"', |b + u|);
      if Contains(b + u, d) {
        OccurrenceSplitsAt(b, u, d, '"', |b| - 1);
      }
      assert false;
    }
  }

  /** The spliced text before capture `n`. */
  ghost function SplicedBefore(s: string, ms: seq<Match>, urls: seq<string>, n: nat): (r: string)
    requires SpansIn(s, ms) && n < |ms|
  {
    Splice(s[..ms[n].SrcStart()], ms[..n], urls)
  }

  /** Gap `n` between two captures starts with the closing and ends with the opening quote. */
  lemma GapQuoted(s: string, ms: seq<Match>, n: nat)
    requires SpansIn(s, ms) && 0 < n < |ms|
    requires RegexMatchesAt(s, ms[n].start, ms[n].src)
    requires RegexMatchesAt(s, ms[n - 1].start, ms[n - 1].src)
    ensures var g := Gap(s, ms, n); |g| > 0 && g[0] == '"' && g[|g| - 1] == '"'
  {
    var p, e := ms[n].SrcStart(), ms[n - 1].SrcEnd();
    QuotesAround(s, ms[n]);
    QuotesAround(s, ms[n - 1]);
    assert ms[n - 1].End() <= ms[n].start;
    assert Gap(s, ms, n) == s[e..p];
  }

  /** One step of PrefixAvoids: from the text before capture `n - 1` to the text before capture `n`. */
  lemma PrefixAvoidsStep(s: string, ms: seq<Match>, urls: seq<string>, n: nat, d: string)
    requires SpansIn(s, ms) && |ms| <= |urls| && 0 < n < |ms| && '"' !in d
    requires RegexMatchesAt(s, ms[n].start, ms[n].src)
    requires RegexMatchesAt(s, ms[n - 1].start, ms[n - 1].src)
    requires !Contains(Gap(s, ms, n), d) && !Contains(urls[n - 1], d)
    requires var b := SplicedBefore(s, ms, urls, n - 1); !Contains(b, d) && |b| > 0 && b[|b| - 1] == '"'
    ensures var a := SplicedBefore(s, ms, urls, n); !Contains(a, d) && |a| > 0 && a[|a| - 1] == '"'
  {
    var b, u, g := SplicedBefore(s, ms, urls, n - 1), urls[n - 1], Gap(s, ms, n);
    GapQuoted(s, ms, n);
    SpliceUnfoldPrefix(s, ms, urls, n);
    assert SplicedBefore(s, ms, urls, n) == b + u + g;
    NoCopyAcrossQuotes(b, u, g, d);
  }

  /**
   * The text before capture `n` after captures 0 .. n-1 have been spliced:
   * it holds no copy of a quote-free `d` missing from the gaps and URLs it is
   * made of, and it ends with the `"` that opens capture `n`.
   */
  lemma {:induction false} PrefixAvoids(s: string, ms: seq<Match>, urls: seq<string>, n: nat, d: string)
    requires SpansIn(s, ms) && Genuine(s, ms) && |ms| <= |urls| && n < |ms|
    requires '"' !in d
    requires forall j :: 0 <= j <= n ==> !Contains(Gap(s, ms, j), d)
    requires forall j :: 0 <= j < n ==> !Contains(urls[j], d)
    decreases n
    ensures var a := SplicedBefore(s, ms, urls, n); !Contains(a, d) && |a| > 0 && a[|a| - 1] == '"'
  {
    if n == 0 {
      var p := ms[0].SrcStart();
      QuotesAround(s, ms[0]);
      assert SplicedBefore(s, ms, urls, 0) == s[..p] == Gap(s, ms, 0);
    } else {
      PrefixAvoids(s, ms, urls, n - 1, d);
      PrefixAvoidsStep(s, ms, urls, n, d);
    }
  }

  /** Replacing the first occurrence of `d` in `a + d + r` hits the `d` after `a`. */
  lemma ReplaceAfterQuotedPrefix(a: string, d: string, r: string, u: string)
    requires |a| > 0 && a[|a| - 1] == '"' && '"' !in d && !Contains(a, d)
    ensures ReplaceFirst(a + d + r, d, u) == a + u + r
  {
    var t := a + d + r;
    assert OccursAt(t, d, |a|) by { assert t[|a|..|a| + |d|] == d; }
    forall j | 0 <= j < |a| ensures !OccursAt(t, d, j) {
      if OccursAt(t, d, j) {
        if j + |d| <= |a| {
          assert a[j..j + |d|] == t[j..j + |d|];
          assert OccursAt(a, d, j);
        } else {
          OccursAtCovers(t, d, j);
        }
        assert false;
      }
    }
    ReplaceFirstAt(t, d, u, |a|);
    assert t[..|a|] == a;
    assert t[|a| + |d|..] == r;
  }

  lemma SourcesPrefixSnoc(ms: seq<Match>, k: nat)
    requires k < |ms|
    ensures Sources(ms[..k + 1]) == Sources(ms[..k]) + [ms[k].src]
  {
    assert ms[..k + 1] == ms[..k] + [ms[k]];
    SourcesAppend(ms[..k], [ms[k]]);
  }

  /** Splice up to capture `k` inclusive: the spliced text before it, its URL, the rest. */
  lemma SpliceUnfoldLast(s: string, ms: seq<Match>, urls: seq<string>, k: nat)
    requires SpansIn(s, ms) && |ms| <= |urls| && k < |ms|
    ensures Splice(s, ms[..k + 1], urls) == SplicedBefore(s, ms, urls, k) + urls[k] + s[ms[k].SrcEnd()..]
  {
    assert ms[..k + 1][..k] == ms[..k];
  }

  /** The k-th replacement lands on capture k when the text before it holds no copy. */
  lemma PositionalStep(s: string, ms: seq<Match>, urls: seq<string>, k: nat)
    requires SpansIn(s, ms) && |ms| <= |urls| && k < |ms|
    requires RegexMatchesAt(s, ms[k].start, ms[k].src)
    requires ApplyReplacements(s, Sources(ms[..k]), urls) == Splice(s, ms[..k], urls)
    requires var a := SplicedBefore(s, ms, urls, k); !Contains(a, ms[k].src) && |a| > 0 && a[|a| - 1] == '"'
    ensures ApplyReplacements(s, Sources(ms[..k + 1]), urls) == Splice(s, ms[..k + 1], urls)
  {
    var d := ms[k].src;
    var p, e := ms[k].SrcStart(), ms[k].SrcEnd();
    var a := SplicedBefore(s, ms, urls, k);
    var before := Sources(ms[..k]);
    var prev := ApplyReplacements(s, before, urls);
    SourcesPrefixSnoc(ms, k);
    ApplyReplacementsSnoc(s, before, d, urls);
    assert ApplyReplacements(s, Sources(ms[..k + 1]), urls) == ReplaceFirst(prev, d, urls[k]);
    assert forall i :: 0 <= i < k ==> ms[..k][i].End() <= p by {
      assert forall i :: 0 <= i < k ==> ms[..k][i] == ms[i];
    }
    SpliceTail(s, ms[..k], urls, p);
    assert prev == a + s[p..];
    QuotesAround(s, ms[k]);
    assert s[p..] == d + s[e..] by {
      SliceSplit(s, p, e);
    }
    assert prev == a + d + s[e..];
    ReplaceAfterQuotedPrefix(a, d, s[e..], urls[k]);
    SpliceUnfoldLast(s, ms, urls, k);
  }

  /** NoStrayCopies, read for capture `k`'s own source. */
  lemma NoStrayCopiesOf(s: string, ms: seq<Match>, urls: seq<string>, k: nat)
    requires NoStrayCopies(s, ms, urls) && k < |ms| <= |urls|
    ensures forall j :: 0 <= j <= k ==> !Contains(Gap(s, ms, j), ms[k].src)
    ensures forall j :: 0 <= j < k ==> !Contains(urls[j], ms[k].src)
  {
    forall j | 0 <= j <= k
      ensures !Contains(Gap(s, ms, j), ms[k].src)
      ensures j < k ==> !Contains(urls[j], ms[k].src)
    {
      assert 0 <= j <= k < |ms|;
    }
  }

  /**
   * Under NoStrayCopies, the first n sequential first-occurrence
   * replacements put each of the first n captures' URLs in that capture's
   * own place.
   */
  lemma {:induction false} ReplacementsArePositional(s: string, ms: seq<Match>, urls: seq<string>, n: nat)
    requires SpansIn(s, ms) && Genuine(s, ms) && |ms| <= |urls| && n <= |ms|
    requires NoStrayCopies(s, ms, urls)
    decreases n
    ensures ApplyReplacements(s, Sources(ms[..n]), urls) == Splice(s, ms[..n], urls)
  {
    if n > 0 {
      var k := n - 1;
      var d := ms[k].src;
      ReplacementsArePositional(s, ms, urls, k);
      NoStrayCopiesOf(s, ms, urls, k);
      PrefixAvoids(s, ms, urls, k, d);
      PositionalStep(s, ms, urls, k);
    }
  }

  /** The data-image matches lie inside the content, in order, and are genuine matches. */
  lemma DataMatchesWellFormed(content: string)
    ensures SpansIn(content, DataMatches(AllMatches(content, 0)))
    ensures Genuine(content, DataMatches(AllMatches(content, 0)))
  {
    var all := AllMatches(content, 0);
    var q := DataMatches(all);
    AllMatchesSound(content, 0);
    DataMatchesSubsequence(all);
    forall i | 0 <= i < |q|
      ensures RegexMatchesAt(content, q[i].start, q[i].src) && q[i].End() <= |content|
    {
      var k :| 0 <= k < |all| && all[k] == q[i];
    }
  }

  /**
   * Each uploaded source is replaced in its own `<img src="…">` by the URL
   * returned for its own upload, and all other text is kept in order,
   * provided no source also appears, before its tag, in text the rewrite
   * keeps or in an earlier URL. In particular k identical data URIs get k
   * uploads and each tag gets its own URL.
   */
  lemma RewriteIsPositional(content: string, urls: seq<string>)
    requires |DataSources(content)| <= |urls|
    requires NoStrayCopies(content, DataMatches(AllMatches(content, 0)), urls)
    ensures RewriteInlineImages(content, urls) == Splice(content, DataMatches(AllMatches(content, 0)), urls)
  {
    var q := DataMatches(AllMatches(content, 0));
    DataMatchesWellFormed(content);
    ReplacementsArePositional(content, q, urls, |q|);
    assert q[..|q|] == q;
  }

}
