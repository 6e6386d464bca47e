/**
 * The inline-image rewriter `replaceLocalImagesWithCloudinary` of utils.js.
 *
 * The content is scanned left to right with the global regular expression
 * /<img src="([^"]+)"/g. Every captured source that starts with
 * "data:image/" is sent to the remote image store, and the first remaining
 * occurrence of that source in the output is replaced with the URL the store
 * returns. The store is an oracle: `urls[k]` is the URL it returns for the
 * k-th upload of the call.
 */
module Utils {
  import opened Wrappers
  import opened JsString

  /** The literal part of the pattern before the capture group. */
  const ImgSrcPrefix: string := "<img src=\""
  /** Sources with this prefix are uploaded. */
  const DataImagePrefix: string := "data:image/"

  /** One match of the pattern: where `<img src="` starts, and the capture. */
  datatype Match = Match(start: nat, src: string) {
    /** Index of the first character of the capture. */
    function SrcStart(): nat { start + |ImgSrcPrefix| }
    /** Index just after the capture, where the closing quote stands. */
    function SrcEnd(): nat { SrcStart() + |src| }
    /** Index just after the closing quote: the regex's next `lastIndex`. */
    function End(): nat { SrcEnd() + 1 }
  }

  /**
   * The pattern /<img src="([^"]+)"/ matches `s` at `p` with capture `src`:
   * the exact, case-sensitive literal, then a non-empty run free of `"`,
   * then a `"`.
   */
  ghost predicate RegexMatchesAt(s: string, p: nat, src: string) {
    && OccursAt(s, ImgSrcPrefix, p)
    && |src| > 0
    && '"' !in src
    && OccursAt(s, src, p + |ImgSrcPrefix|)
    && p + |ImgSrcPrefix| + |src| < |s|
    && s[p + |ImgSrcPrefix| + |src|] == '"'
  }

  /** The first `"` at or after `i`, or `|s|` when there is none. */
  function QuoteFrom(s: string, i: nat): (j: nat)
    requires i <= |s|
    decreases |s| - i
    ensures i <= j <= |s|
    ensures forall k :: i <= k < j ==> s[k] != '"'
    ensures j < |s| ==> s[j] == '"'
  {
    if i == |s| || s[i] == '"' then i else QuoteFrom(s, i + 1)
  }

  /**
   * The pattern tried at position `p` alone. `[^"]+` is greedy and the only
   * character that can follow it is `"`, so the capture is the whole
   * quote-free run after the literal.
   */
  function MatchAt(s: string, p: nat): (r: Option<Match>)
    ensures r.Some? ==> r.value.start == p && RegexMatchesAt(s, p, r.value.src)
  {
    if OccursAt(s, ImgSrcPrefix, p) then
      var i := p + |ImgSrcPrefix|;
      var j := QuoteFrom(s, i);
      if i < j < |s| then
        assert '"' !in s[i..j] by {
          forall k | 0 <= k < j - i ensures s[i..j][k] != '"' {
            assert s[i..j][k] == s[i + k];
          }
        }
        Some(Match(p, s[i..j]))
      else None
    else None
  }

  /** The pattern matches at `p` with exactly one capture, the one MatchAt finds. */
  lemma MatchAtComplete(s: string, p: nat, src: string)
    requires RegexMatchesAt(s, p, src)
    ensures MatchAt(s, p) == Some(Match(p, src))
  {
    var i := p + |ImgSrcPrefix|;
    var e := i + |src|;
    var j := QuoteFrom(s, i);
    OccursAtCovers(s, src, i);
    assert j == e;
    assert s[i..j] == src;
  }

  /**
   * `RegExp.prototype.exec` with the global flag from index `from`: the
   * leftmost position at or after `from` where the pattern matches.
   */
  function NextMatch(s: string, from: nat): (r: Option<Match>)
    decreases |s| - from
    ensures r.Some? ==> from <= r.value.start && MatchAt(s, r.value.start) == r
    ensures forall q :: from <= q && (r.None? || q < r.value.start) ==> MatchAt(s, q).None?
  {
    if from >= |s| then None
    else
      var here := MatchAt(s, from);
      if here.Some? then here else NextMatch(s, from + 1)
  }

  /** Non-overlapping and in increasing position order. */
  ghost predicate Ordered(ms: seq<Match>) {
    forall i, j :: 0 <= i < j < |ms| ==> ms[i].End() <= ms[j].start
  }

  /** Every element is a match of the pattern in `s`. */
  ghost predicate Genuine(s: string, ms: seq<Match>) {
    forall i :: 0 <= i < |ms| ==> RegexMatchesAt(s, ms[i].start, ms[i].src)
  }

  /**
   * The matches the `while ((match = re.exec(content)) !== null)` loop
   * visits when the search starts at `from`.
   */
  function AllMatches(s: string, from: nat): (ms: seq<Match>)
    decreases |s| - from
  {
    match NextMatch(s, from)
    case None => []
    case Some(m) => [m] + AllMatches(s, m.End())
  }

  /**
   * Every match the scan visits is a match of the pattern at or after the
   * starting point, and the matches are non-overlapping and in increasing
   * position order.
   */
  lemma {:induction false} AllMatchesSound(s: string, from: nat)
    decreases |s| - from
    ensures forall i :: 0 <= i < |AllMatches(s, from)| ==>
              from <= AllMatches(s, from)[i].start &&
              MatchAt(s, AllMatches(s, from)[i].start) == Some(AllMatches(s, from)[i])
    ensures Genuine(s, AllMatches(s, from)) && Ordered(AllMatches(s, from))
  {
    match NextMatch(s, from)
    case None =>
      AllMatchesStops(s, from);
    case Some(m) =>
      AllMatchesSound(s, m.End());
      AllMatchesFinds(s, from, m);
      FoundThenRest(s, from, m, AllMatches(s, m.End()));
  }

  /** The step of AllMatchesSound: a match found from `from`, then sound matches after it. */
  lemma FoundThenRest(s: string, from: nat, m: Match, rest: seq<Match>)
    requires from <= m.start && MatchAt(s, m.start) == Some(m)
    requires forall i :: 0 <= i < |rest| ==> m.End() <= rest[i].start && MatchAt(s, rest[i].start) == Some(rest[i])
    requires Ordered(rest)
    ensures var ms := [m] + rest;
            && (forall i :: 0 <= i < |ms| ==> from <= ms[i].start && MatchAt(s, ms[i].start) == Some(ms[i]))
            && Genuine(s, ms) && Ordered(ms)
  {
    var ms := [m] + rest;
    forall i | 0 <= i < |ms|
      ensures from <= ms[i].start && MatchAt(s, ms[i].start) == Some(ms[i])
    {
      if i > 0 { assert ms[i] == rest[i - 1]; }
    }
    FoundThenRestOrdered(m, rest);
  }

  lemma FoundThenRestOrdered(m: Match, rest: seq<Match>)
    requires forall i :: 0 <= i < |rest| ==> m.End() <= rest[i].start
    requires Ordered(rest)
    ensures Ordered([m] + rest)
  {
    var ms := [m] + rest;
    forall i, j | 0 <= i < j < |ms| ensures ms[i].End() <= ms[j].start {
      assert ms[j] == rest[j - 1];
      if i > 0 { assert ms[i] == rest[i - 1]; }
    }
  }



  /**
   * The scan misses no match except those that start inside a match it has
   * already taken: the pattern can match at `p` only where the scan took a
   * match that begins at `p` or runs across it.
   */
  lemma {:induction false} AllMatchesCover(s: string, from: nat, p: nat)
    requires from <= p && MatchAt(s, p).Some?
    decreases |s| - from
    ensures exists i :: 0 <= i < |AllMatches(s, from)| &&
                        AllMatches(s, from)[i].start <= p < AllMatches(s, from)[i].End()
  {
    var ms := AllMatches(s, from);
    var m := NextMatch(s, from);
    assert m.Some?;
    assert ms[0] == m.value;
    if p >= m.value.End() {
      AllMatchesCover(s, m.value.End(), p);
      var rest := AllMatches(s, m.value.End());
      assert ms == [m.value] + rest;
      var i :| 0 <= i < |rest| && rest[i].start <= p < rest[i].End();
      assert ms[i + 1] == rest[i];
    } else {
      assert ms[0].start <= p < ms[0].End();
    }
  }

  /** `localPath.startsWith("data:image/")`. */
  predicate IsDataImage(src: string) {
    StartsWith(src, DataImagePrefix)
  }

  /** The matches whose capture is uploaded, in scan order. */
  function DataMatches(ms: seq<Match>): (r: seq<Match>)
    decreases |ms|
    ensures |r| <= |ms|
    ensures forall i :: 0 <= i < |r| ==> IsDataImage(r[i].src)
  {
    if ms == [] then []
    else
      var n := |ms| - 1;
      DataMatches(ms[..n]) + (if IsDataImage(ms[n].src) then [ms[n]] else [])
  }

  /**
   * The uploaded matches are a subsequence of the scanned ones: each is one
   * of them, and they keep the scan's order.
   */
  lemma {:induction false} DataMatchesSubsequence(ms: seq<Match>)
    decreases |ms|
    ensures forall i :: 0 <= i < |DataMatches(ms)| ==> DataMatches(ms)[i] in ms
    ensures Ordered(ms) ==> Ordered(DataMatches(ms))
  {
    if ms != [] {
      var n := |ms| - 1;
      var r := DataMatches(ms[..n]);
      DataMatchesSubsequence(ms[..n]);
      assert forall i :: 0 <= i < |r| ==> r[i] in ms;
      if Ordered(ms) {
        assert Ordered(ms[..n]);
        assert forall i :: 0 <= i < |r| ==> r[i].End() <= ms[n].start;
      }
    }
  }

  /** Every scanned match whose capture is a data image is uploaded. */
  lemma {:induction false} DataMatchesComplete(ms: seq<Match>)
    decreases |ms|
    ensures forall i :: 0 <= i < |ms| && IsDataImage(ms[i].src) ==> ms[i] in DataMatches(ms)
  {
    if ms != [] {
      var n := |ms| - 1;
      DataMatchesComplete(ms[..n]);
      forall i | 0 <= i < |ms| && IsDataImage(ms[i].src) ensures ms[i] in DataMatches(ms) {
        if i < n {
          assert ms[i] == ms[..n][i];
        }
      }
    }
  }

  lemma {:induction false} DataMatchesAppend(a: seq<Match>, b: seq<Match>)
    decreases |b|
    ensures DataMatches(a + b) == DataMatches(a) + DataMatches(b)
  {
    if b == [] {
      assert a + b == a;
    } else {
      var n := |b| - 1;
      DataMatchesAppend(a, b[..n]);
      assert (a + b)[..|a + b| - 1] == a + b[..n];
    }
  }

  /** The captures of a list of matches. */
  function Sources(ms: seq<Match>): (r: seq<string>)
  {
    seq(|ms|, i requires 0 <= i < |ms| => ms[i].src)
  }

  lemma SourcesAppend(a: seq<Match>, b: seq<Match>)
    ensures Sources(a + b) == Sources(a) + Sources(b)
  {
  }

  /** The sources the rewrite uploads, in upload order. */
  function DataSources(content: string): (srcs: seq<string>) {
    Sources(DataMatches(AllMatches(content, 0)))
  }

  /**
   * A source is uploaded only if it is the capture of a match of the
   * pattern in the content and begins with "data:image/".
   */
  lemma DataSourcesSound(content: string)
    ensures forall i :: 0 <= i < |DataSources(content)| ==>
              IsDataImage(DataSources(content)[i]) &&
              exists p: nat :: RegexMatchesAt(content, p, DataSources(content)[i])
  {
    var ms := AllMatches(content, 0);
    var q := DataMatches(ms);
    AllMatchesSound(content, 0);
    DataMatchesSubsequence(ms);
    forall i | 0 <= i < |q|
      ensures IsDataImage(q[i].src) && RegexMatchesAt(content, q[i].start, q[i].src)
    {
      var k :| 0 <= k < |ms| && ms[k] == q[i];
    }
  }

  /**
   * `updatedContent` after the loop has handled `srcs` (the sources uploaded
   * so far, oldest first) with the URLs the store returned for them.
   */
  function ApplyReplacements(s: string, srcs: seq<string>, urls: seq<string>): (r: string)
    requires |srcs| <= |urls|
    decreases |srcs|
  {
    if srcs == [] then s
    else
      var n := |srcs| - 1;
      ReplaceFirst(ApplyReplacements(s, srcs[..n], urls), srcs[n], urls[n])
  }

  lemma ApplyReplacementsSnoc(s: string, srcs: seq<string>, x: string, urls: seq<string>)
    requires |srcs| < |urls|
    ensures ApplyReplacements(s, srcs + [x], urls) ==
            ReplaceFirst(ApplyReplacements(s, srcs, urls), x, urls[|srcs|])
  {
    assert (srcs + [x])[..|srcs|] == srcs;
  }

  /** What `replaceLocalImagesWithCloudinary(content)` resolves to. */
  function RewriteInlineImages(content: string, urls: seq<string>): (updated: string)
    requires |DataSources(content)| <= |urls|
  {
    ApplyReplacements(content, DataSources(content), urls)
  }

  /** One turn of the scan loop: the match found moves from the unvisited part to the visited one. */
  lemma ScanStep(content: string, visited: seq<Match>, from: nat, m: Match)
    requires NextMatch(content, from) == Some(m)
    requires AllMatches(content, 0) == visited + AllMatches(content, from)
    ensures AllMatches(content, 0) == (visited + [m]) + AllMatches(content, m.End())
    ensures AllMatches(content, from) == [m] + AllMatches(content, m.End())
  {
    var rest := AllMatches(content, m.End());
    AllMatchesFinds(content, from, m);
    MatchesRegroup(visited, m, rest);
  }

  /** The scan from `from` finds `m` and then carries on after it. */
  lemma AllMatchesFinds(s: string, from: nat, m: Match)
    requires NextMatch(s, from) == Some(m)
    ensures AllMatches(s, from) == [m] + AllMatches(s, m.End())
  {
  }

  /** The scan from `from` finds nothing. */
  lemma AllMatchesStops(s: string, from: nat)
    requires NextMatch(s, from) == None
    ensures AllMatches(s, from) == []
  {
  }

  lemma MatchesRegroup(visited: seq<Match>, m: Match, rest: seq<Match>)
    ensures visited + ([m] + rest) == (visited + [m]) + rest
  {
  }

  /** Visiting one more match uploads its source when it is a data image. */
  lemma UploadStep(visited: seq<Match>, m: Match, rest: seq<Match>)
    ensures Sources(DataMatches(visited + [m])) ==
            Sources(DataMatches(visited)) + (if IsDataImage(m.src) then [m.src] else [])
    ensures |DataMatches([m] + rest)| == |DataMatches(rest)| + (if IsDataImage(m.src) then 1 else 0)
  {
    DataMatchesAppend(visited, [m]);
    DataMatchesAppend([m], rest);
    assert DataMatches([m]) == if IsDataImage(m.src) then [m] else [] by {
      assert [m][..0] == [];
    }
    SourcesAppend(DataMatches(visited), DataMatches([m]));
    if IsDataImage(m.src) {
      assert Sources([m]) == [m.src];
    } else {
      assert Sources([]) == [];
    }
  }

  /** One turn of the loop keeps its invariants. */
  lemma ScanLoopStep(content: string, urls: seq<string>, visited: seq<Match>, from: nat, m: Match,
                     uploaded: seq<string>, updatedContent: string)
    requires NextMatch(content, from) == Some(m)
    requires AllMatches(content, 0) == visited + AllMatches(content, from)
    requires uploaded == Sources(DataMatches(visited))
    requires |DataMatches(visited)| + |DataMatches(AllMatches(content, from))| <= |urls|
    requires updatedContent == ApplyReplacements(content, uploaded, urls)
    ensures AllMatches(content, 0) == (visited + [m]) + AllMatches(content, m.End())
    ensures IsDataImage(m.src) ==> |uploaded| < |urls|
    ensures var next := if IsDataImage(m.src) then uploaded + [m.src] else uploaded;
            && next == Sources(DataMatches(visited + [m]))
            && |DataMatches(visited + [m])| + |DataMatches(AllMatches(content, m.End()))| <= |urls|
            && ApplyReplacements(content, next, urls) ==
               (if IsDataImage(m.src) then ReplaceFirst(updatedContent, m.src, urls[|uploaded|]) else updatedContent)
  {
    ScanStep(content, visited, from, m);
    UploadStep(visited, m, AllMatches(content, m.End()));
    if IsDataImage(m.src) {
      ApplyReplacementsSnoc(content, uploaded, m.src, urls);
    }
  }

  /**
   * A `RegExp` object with the global flag: `exec` searches from
   * `lastIndex`, moves it past the match it returns, and resets it to 0 when
   * it finds nothing.
   */
  class ImgTagRegex {
    var lastIndex: nat

    constructor ()
      ensures lastIndex == 0
    {
      lastIndex := 0;
    }

    method Exec(s: string) returns (m: Option<Match>)
      modifies this
      ensures m == NextMatch(s, old(lastIndex))
      ensures lastIndex == if m.Some? then m.value.End() else 0
    {
      m := NextMatch(s, lastIndex);
      lastIndex := if m.Some? then m.value.End() else 0;
    }
  }

  /**
   * The loop of utils.js. Matches are taken from `content`, never from the
   * output, so a URL put into the output is never scanned. `uploaded` is the
   * list of sources sent to the store.
   */
  method ReplaceLocalImagesWithCloudinary(content: string, urls: seq<string>)
    returns (updatedContent: string, uploaded: seq<string>)
    requires |DataSources(content)| <= |urls|
    ensures uploaded == DataSources(content)
    ensures updatedContent == ApplyReplacements(content, uploaded, urls)
  {
    var imgTagRegex := new ImgTagRegex();
    updatedContent := content;
    uploaded := [];
    ghost var visited: seq<Match> := [];
    ghost var from: nat := 0;
    var found := imgTagRegex.Exec(content);
    while found.Some?
      invariant found == NextMatch(content, from)
      invariant imgTagRegex.lastIndex == if found.Some? then found.value.End() else 0
      invariant AllMatches(content, 0) == visited + AllMatches(content, from)
      invariant uploaded == Sources(DataMatches(visited))
      invariant |DataMatches(visited)| + |DataMatches(AllMatches(content, from))| <= |urls|
      invariant updatedContent == ApplyReplacements(content, uploaded, urls)
      decreases |content| - from
    {
      var m := found.value;
      var localPath := m.src;
      ScanLoopStep(content, urls, visited, from, m, uploaded, updatedContent);
      if IsDataImage(localPath) {
        var cloudinaryUrl := urls[|uploaded|];
        updatedContent := ReplaceFirst(updatedContent, localPath, cloudinaryUrl);
        uploaded := uploaded + [localPath];
      }
      visited := visited + [m];
      from := m.End();
      found := imgTagRegex.Exec(content);
    }
    DataMatchesAppend(visited, []);
  }
}
