/**
 * What the rewrite does with a repeated data URI: two tags holding the
 * same `data:image/…` source give two uploads, and each tag receives the
 * URL of its own upload.
 */
module RewriteExamples {
  import opened Wrappers
  import opened JsString
  import opened Utils
  import opened RewriteProperties

  /** `<img src="` + `src` + `">`. */
  function Tag(src: string): (t: string) {
    ImgSrcPrefix + src + "\">"
  }

  /** A data URI in the shape the scan looks for. */
  predicate DataUri(d: string) {
    IsDataImage(d) && '"' !in d
  }

  /** Text without the letter `d` holds no data URI. */
  lemma NoDataUriWithoutD(g: string, d: string)
    requires DataUri(d) && forall k :: 0 <= k < |g| ==> g[k] != 'd'
    ensures !Contains(g, d)
  {
    assert d[0] == d[..11][0] == 'd';
    forall i: nat ensures !OccursAt(g, d, i) {
      if i + |d| <= |g| {
        assert g[i..i + |d|][0] != d[0];
      }
    }
  }

  /** The two tags, cut at the places the scan looks at. */
  lemma TwoTagsLayout(d: string)
    requires DataUri(d)
    ensures var s, L := Tag(d) + Tag(d), |Tag(d)|;
            && L == |ImgSrcPrefix| + |d| + 2 && |s| == 2 * L
            && s[..|ImgSrcPrefix|] == ImgSrcPrefix && s[L..L + |ImgSrcPrefix|] == ImgSrcPrefix
            && s[|ImgSrcPrefix|..|ImgSrcPrefix| + |d|] == d && s[L + |ImgSrcPrefix|..L + |ImgSrcPrefix| + |d|] == d
            && s[L - 2] == '"' && s[L - 1] == '>' && s[2 * L - 2] == '"'
            && s[L - 2..L + |ImgSrcPrefix|] == "\">" + ImgSrcPrefix
            && s[2 * L - 2..] == "\">"
  {
    var t := Tag(d);
    var s, L := t + t, |t|;
    assert t[..|ImgSrcPrefix|] == ImgSrcPrefix && t[|ImgSrcPrefix|..|ImgSrcPrefix| + |d|] == d;
    assert t[L - 2..] == "\">";
    assert s[..|ImgSrcPrefix|] == t[..|ImgSrcPrefix|];
    assert s[L..L + |ImgSrcPrefix|] == t[..|ImgSrcPrefix|];
    assert s[|ImgSrcPrefix|..|ImgSrcPrefix| + |d|] == t[|ImgSrcPrefix|..|ImgSrcPrefix| + |d|];
    assert s[L + |ImgSrcPrefix|..L + |ImgSrcPrefix| + |d|] == t[|ImgSrcPrefix|..|ImgSrcPrefix| + |d|];
    assert s[L - 2..L + |ImgSrcPrefix|] == t[L - 2..] + t[..|ImgSrcPrefix|];
    assert s[2 * L - 2..] == t[L - 2..];
  }

  /** Both tags match where they start. */
  lemma TwoTagsMatchAt(d: string)
    requires DataUri(d)
    ensures var s, L := Tag(d) + Tag(d), |Tag(d)|;
            MatchAt(s, 0) == Some(Match(0, d)) && MatchAt(s, L) == Some(Match(L, d))
  {
    var s, L := Tag(d) + Tag(d), |Tag(d)|;
    TwoTagsLayout(d);
    assert RegexMatchesAt(s, 0, d);
    assert RegexMatchesAt(s, L, d);
    MatchAtComplete(s, 0, d);
    MatchAtComplete(s, L, d);
  }

  /** A position that does not hold `<` is skipped. */
  lemma ScanSkips(s: string, p: nat, m: Match)
    requires p < |s| && s[p] != '<' && MatchAt(s, p + 1) == Some(m)
    ensures NextMatch(s, p) == Some(m)
  {
    assert !OccursAt(s, ImgSrcPrefix, p) by {
      if p + |ImgSrcPrefix| <= |s| {
        assert s[p..p + |ImgSrcPrefix|][0] != ImgSrcPrefix[0];
      }
    }
    assert NextMatch(s, p + 1) == Some(m);
  }

  /** The scan finds nothing in the last character. */
  lemma ScanEndsAt(s: string, p: nat)
    requires p + 1 == |s|
    ensures NextMatch(s, p) == None
  {
    assert MatchAt(s, p).None?;
    assert NextMatch(s, p + 1) == None;
  }

  /** After the first match the scan resumes on its `>` and finds the second tag next. */
  lemma TwoTagsSecond(d: string)
    requires DataUri(d)
    ensures var s, L := Tag(d) + Tag(d), |Tag(d)|;
            NextMatch(s, Match(0, d).End()) == Some(Match(L, d))
  {
    var s, L := Tag(d) + Tag(d), |Tag(d)|;
    var m1 := Match(L, d);
    assert L - 1 < |s| && s[L - 1] == '>' by {
      assert s[L - 1] == Tag(d)[L - 1];
    }
    assert MatchAt(s, L) == Some(m1) by {
      TwoTagsMatchAt(d);
    }
    assert Match(0, d).End() == L - 1 by {
      assert |Tag(d)| == |ImgSrcPrefix| + |d| + 2;
    }
    ScanSkips(s, L - 1, m1);
  }

  /** After the second match only `>` is left, and the scan stops. */
  lemma TwoTagsEnd(d: string)
    requires DataUri(d)
    ensures var s, L := Tag(d) + Tag(d), |Tag(d)|;
            NextMatch(s, Match(L, d).End()) == None
  {
    var s, L := Tag(d) + Tag(d), |Tag(d)|;
    assert |s| == 2 * L && L == |ImgSrcPrefix| + |d| + 2;
    assert Match(L, d).End() == 2 * L - 1 by {
      assert |Tag(d)| == |ImgSrcPrefix| + |d| + 2;
    }
    ScanEndsAt(s, 2 * L - 1);
  }

  /** A scan that finds a match at 0, then one more, then nothing. */
  lemma ScanTwo(s: string, m0: Match, m1: Match)
    requires 0 < |s| && MatchAt(s, 0) == Some(m0)
    requires NextMatch(s, m0.End()) == Some(m1) && NextMatch(s, m1.End()) == None
    ensures AllMatches(s, 0) == [m0, m1]
  {
    assert NextMatch(s, 0) == Some(m0);
    AllMatchesStops(s, m1.End());
    AllMatchesFinds(s, m0.End(), m1);
    AllMatchesFinds(s, 0, m0);
  }

  /** The scan finds exactly the two tags, in order. */
  lemma TwoTagsMatches(d: string)
    requires DataUri(d)
    ensures var L := |Tag(d)|;
            AllMatches(Tag(d) + Tag(d), 0) == [Match(0, d), Match(L, d)]
  {
    var s, L := Tag(d) + Tag(d), |Tag(d)|;
    var m0, m1 := Match(0, d), Match(L, d);
    TwoTagsMatchAt(d);
    TwoTagsSecond(d);
    TwoTagsEnd(d);
    ScanTwo(s, m0, m1);
  }

  /** Two tags with the same data URI: two uploads of that URI. */
  lemma DuplicateUploadedTwice(d: string)
    requires DataUri(d)
    ensures DataSources(Tag(d) + Tag(d)) == [d, d]
    ensures DataMatches(AllMatches(Tag(d) + Tag(d), 0)) == [Match(0, d), Match(|Tag(d)|, d)]
  {
    var ms := [Match(0, d), Match(|Tag(d)|, d)];
    TwoTagsMatches(d);
    assert ms[..1] == [ms[0]];
    assert DataMatches(ms[..1]) == [ms[0]] by {
      assert ms[..1][..0] == [];
    }
    assert DataMatches(ms) == ms;
  }

  /** The gaps between the two tags hold no copy of the data URI. */
  lemma TwoTagsNoStrayCopies(d: string, u0: string, u1: string)
    requires DataUri(d) && !Contains(u0, d)
    ensures NoStrayCopies(Tag(d) + Tag(d), [Match(0, d), Match(|Tag(d)|, d)], [u0, u1])
  {
    var s, L := Tag(d) + Tag(d), |Tag(d)|;
    var ms := [Match(0, d), Match(L, d)];
    TwoTagsLayout(d);
    forall k | 0 <= k < |ImgSrcPrefix| ensures ImgSrcPrefix[k] != 'd' { }
    NoDataUriWithoutD(s[..|ImgSrcPrefix|], d);
    var g := s[L - 2..L + |ImgSrcPrefix|];
    forall k | 0 <= k < |g| ensures g[k] != 'd' {
      assert g == "\">" + ImgSrcPrefix;
    }
    NoDataUriWithoutD(g, d);
    assert Gap(s, ms, 0) == s[..|ImgSrcPrefix|];
    assert Gap(s, ms, 1) == g;
  }

  /**
   * Two tags with the same data URI: two uploads; the first tag gets the
   * first upload's URL and the second tag the second's, provided the first
   * URL does not itself contain the data URI.
   */
  lemma DuplicateEachGetsOwnUrl(d: string, u0: string, u1: string)
    requires DataUri(d) && !Contains(u0, d)
    ensures DataSources(Tag(d) + Tag(d)) == [d, d]
    ensures RewriteInlineImages(Tag(d) + Tag(d), [u0, u1]) == Tag(u0) + Tag(u1)
  {
    var s := Tag(d) + Tag(d);
    DuplicateUploadedTwice(d);
    TwoTagsNoStrayCopies(d, u0, u1);
    RewriteIsPositional(s, [u0, u1]);
    SpliceTwo(s, d, u0, u1);
  }

  /** The reference rewrite up to the second capture. */
  lemma SpliceFirstTag(first: string, d: string, u0: string, u1: string)
    requires DataUri(d) && first == Tag(d) + ImgSrcPrefix
    ensures Splice(first, [Match(0, d)], [u0, u1]) == ImgSrcPrefix + u0 + ("\">" + ImgSrcPrefix)
  {
    assert first[..|ImgSrcPrefix|] == ImgSrcPrefix;
    assert first[|ImgSrcPrefix| + |d|..] == "\">" + ImgSrcPrefix;
    assert [Match(0, d)][..0] == [];
  }

  /** The reference rewrite of the two tags. */
  lemma SpliceTwo(s: string, d: string, u0: string, u1: string)
    requires DataUri(d) && s == Tag(d) + Tag(d)
    ensures Splice(s, [Match(0, d), Match(|Tag(d)|, d)], [u0, u1]) == Tag(u0) + Tag(u1)
  {
    var L := |Tag(d)|;
    var ms, urls := [Match(0, d), Match(L, d)], [u0, u1];
    var first := s[..ms[1].SrcStart()];
    assert first == Tag(d) + ImgSrcPrefix by { TwoTagsLayout(d); }
    SpliceFirstTag(first, d, u0, u1);
    assert Splice(s, ms, urls) == Splice(first, [ms[0]], urls) + u1 + "\">" by {
      TwoTagsLayout(d);
      assert ms[..1] == [ms[0]];
    }
  }

  /** The scan passes over positions where nothing matches. */
  lemma {:induction false} ScanSkipsNone(s: string, from: nat, p: nat, m: Match)
    requires from <= p && forall q :: from <= q < p ==> MatchAt(s, q).None?
    requires NextMatch(s, p) == Some(m)
    decreases p - from
    ensures NextMatch(s, from) == Some(m)
  {
    if from < p {
      ScanSkipsNone(s, from + 1, p, m);
    }
  }

  /** A data URI is free of `"`, so no tag can start inside it, even when it is followed by one. */
  lemma NoTagInsideDataUri(d: string)
    requires DataUri(d)
    ensures forall q :: 0 <= q < |d| ==> MatchAt(d + Tag(d), q).None?
  {
    var s, n := d + Tag(d), |d|;
    forall q | 0 <= q < n ensures !OccursAt(s, ImgSrcPrefix, q) {
      if q + |ImgSrcPrefix| <= |s| {
        assert s[q..q + |ImgSrcPrefix|][|ImgSrcPrefix| - 1] == s[q + |ImgSrcPrefix| - 1];
        if q + |ImgSrcPrefix| - 1 < n {
          assert s[q + |ImgSrcPrefix| - 1] == d[q + |ImgSrcPrefix| - 1];
        } else {
          assert s[q + |ImgSrcPrefix| - 1] == ImgSrcPrefix[q + |ImgSrcPrefix| - 1 - n];
        }
      }
    }
  }

  /** The tag after the data URI matches, and its match ends on the last `>`. */
  lemma StrayTagMatches(d: string)
    requires DataUri(d)
    ensures var s := d + Tag(d);
            MatchAt(s, |d|) == Some(Match(|d|, d)) && Match(|d|, d).End() + 1 == |s|
  {
    var s, n := d + Tag(d), |d|;
    assert |s| == 2 * n + |ImgSrcPrefix| + 2;
    assert s[n..n + |ImgSrcPrefix|] == ImgSrcPrefix;
    assert s[n + |ImgSrcPrefix|..n + |ImgSrcPrefix| + n] == d;
    assert s[2 * n + |ImgSrcPrefix|] == '"';
    MatchAtComplete(s, n, d);
  }

  /** A scan whose first match ends on the last character finds that match alone. */
  lemma ScanOne(s: string, m: Match)
    requires NextMatch(s, 0) == Some(m) && m.End() + 1 == |s|
    ensures AllMatches(s, 0) == [m]
  {
    ScanEndsAt(s, m.End());
    AllMatchesStops(s, m.End());
    AllMatchesFinds(s, 0, m);
  }

  /** The scan of a data URI followed by its tag finds the tag alone. */
  lemma StrayCopyScan(d: string)
    requires DataUri(d)
    ensures AllMatches(d + Tag(d), 0) == [Match(|d|, d)]
  {
    var s, n := d + Tag(d), |d|;
    var m := Match(n, d);
    StrayTagMatches(d);
    assert NextMatch(s, n) == Some(m);
    NoTagInsideDataUri(d);
    ScanSkipsNone(s, 0, n, m);
    ScanOne(s, m);
  }

  /** A scan that finds one data image uploads just its source. */
  lemma OneDataSource(s: string, m: Match)
    requires AllMatches(s, 0) == [m] && IsDataImage(m.src)
    ensures DataSources(s) == [m.src]
  {
    assert DataMatches([m]) == [m] by {
      assert [m][..0] == [];
    }
  }

  /** One source, one URL: one `replace`. */
  lemma ApplyOne(s: string, x: string, u: string)
    ensures ApplyReplacements(s, [x], [u]) == ReplaceFirst(s, x, u)
  {
    assert [x][..0] == [];
  }

  /** When the text starts with the only uploaded source, the URL replaces that leading copy. */
  lemma LeadingCopyReplaced(s: string, d: string, rest: string, u: string)
    requires s == d + rest
    ensures ApplyReplacements(s, [d], [u]) == u + rest
  {
    ApplyOne(s, d, u);
    assert OccursAt(s, d, 0) by {
      assert s[..|d|] == d;
    }
    ReplaceFirstAt(s, d, u, 0);
    assert s[|d|..] == rest;
  }

  /**
   * A copy of the data URI in the text before its tag is what `replace`
   * rewrites: the URL lands in the text and the tag keeps the data URI.
   */
  lemma StrayCopyTakesTheUrl(d: string, u: string)
    requires DataUri(d)
    ensures DataSources(d + Tag(d)) == [d]
    ensures RewriteInlineImages(d + Tag(d), [u]) == u + Tag(d)
  {
    var s := d + Tag(d);
    assert DataSources(s) == [d] by {
      StrayCopyScan(d);
      OneDataSource(s, Match(|d|, d));
    }
    LeadingCopyReplaced(s, d, Tag(d), u);
  }
}
