/** The pure parts of src/web_ingest.py: URL cleaning, the post-crawl filter with its
    order-preserving dedupe, and the assembly of the text corpus from extracted pages. */
module WebIngest {
  import opened Sequences
  import opened Text

  // ---------------------------------------------------------------------------
  // clean_url: re.sub(r"#.*$", "", u) followed by re.sub(r"\?.*$", "", u)

  /** Where a greedy `.*` started at `i` stops: the first line break at or after `i`, or the end. */
  function LineStop(u: string, i: nat): (p: nat)
    requires i <= |u|
    ensures i <= p <= |u|
    ensures forall k | i <= k < p :: u[k] != '\n'
    ensures p < |u| ==> u[p] == '\n'
    decreases |u| - i
  {
    if i == |u| || u[i] == '\n' then i else LineStop(u, i + 1)
  }

  /** Where `$` matches without the MULTILINE flag: at the very end, or just before a final line break. */
  predicate AtEnd(u: string, p: nat)
  {
    p == |u| || (p + 1 == |u| && u[p] == '\n')
  }

  /** The pattern `c.*$` matches starting at index `i`: `.*` cannot cross a line break, and no
      shorter run of `.` can reach a `$` position, so the only candidate end is the line stop. */
  predicate MatchesAt(u: string, c: char, i: nat)
    requires i < |u|
  {
    u[i] == c && AtEnd(u, LineStop(u, i + 1))
  }

  /** `re.sub(c + ".*$", "", u)` with the scan for a match starting at `i`. After the first
      match only a final line break can remain, so there is never a second one. */
  function SubToEndFrom(u: string, c: char, i: nat): (r: string)
    requires c != '\n' && i <= |u|
    ensures |r| <= |u|
    decreases |u| - i
  {
    if i == |u| then u
    else if MatchesAt(u, c, i) then u[..i] + u[LineStop(u, i + 1)..]
    else SubToEndFrom(u, c, i + 1)
  }

  function SubToEnd(u: string, c: char): string
    requires c != '\n'
  {
    SubToEndFrom(u, c, 0)
  }

  /** `clean_url(u)`: drop the fragment, then the query. */
  function CleanUrl(u: string): string
  {
    SubToEnd(SubToEnd(u, '#'), '?')
  }

  /** The characters `clean_url` cuts at. */
  predicate IsCut(c: char)
  {
    c == '#' || c == '?'
  }

  /** On a one-line text, `re.sub(c + ".*$", "", u)` keeps exactly the prefix before the first `c`. */
  lemma {:induction false} SubToEndFromCuts(u: string, c: char, i: nat)
    requires c != '\n' && '\n' !in u
    requires i <= |u| && c !in u[..i]
    ensures SubToEndFrom(u, c, i) <= u
    ensures c !in SubToEndFrom(u, c, i)
    ensures |SubToEndFrom(u, c, i)| < |u| ==> u[|SubToEndFrom(u, c, i)|] == c
    decreases |u| - i
  {
    if i == |u| {
      assert u[..i] == u;
    } else if u[i] == c {
      assert LineStop(u, i + 1) == |u|;
      assert SubToEndFrom(u, c, i) == u[..i];
    } else {
      assert u[..i + 1] == u[..i] + [u[i]];
      SubToEndFromCuts(u, c, i + 1);
    }
  }

  /** For a URL without line breaks, `clean_url(u)` is the prefix of `u` that ends just before
      the first `#` or `?`, or all of `u` when neither occurs. */
  lemma CleanUrlIsPrefixBeforeCut(u: string)
    requires '\n' !in u
    ensures CleanUrl(u) <= u
    ensures '#' !in CleanUrl(u) && '?' !in CleanUrl(u)
    ensures |CleanUrl(u)| < |u| ==> IsCut(u[|CleanUrl(u)|])
  {
    var a := SubToEnd(u, '#');
    SubToEndFromCuts(u, '#', 0);
    assert '\n' !in a by {
      forall k | 0 <= k < |a| ensures a[k] != '\n' {
        assert a[k] == u[k];
      }
    }
    var b := SubToEnd(a, '?');
    SubToEndFromCuts(a, '?', 0);
    assert '#' !in b by {
      forall k | 0 <= k < |b| ensures b[k] != '#' {
        assert b[k] == a[k];
      }
    }
    if |b| < |u| && |b| < |a| {
      assert u[|b|] == a[|b|];
    }
  }

  /** Cleaning twice is cleaning once. */
  lemma CleanUrlIdempotent(u: string)
    requires '\n' !in u
    ensures CleanUrl(CleanUrl(u)) == CleanUrl(u)
  {
    var v := CleanUrl(u);
    CleanUrlIsPrefixBeforeCut(u);
    assert '\n' !in v by {
      forall k | 0 <= k < |v| ensures v[k] != '\n' {
        assert v[k] == u[k];
      }
    }
    CleanUrlIsPrefixBeforeCut(v);
    assert forall k | 0 <= k < |v| :: !IsCut(v[k]);
  }

  /** With a line break inside, cleaning is not idempotent: `$` matches only at the end or before
      a final line break, so dropping a query on the last line exposes a fragment on the line
      before it to the next call. This is why `CleanUrlIdempotent` is stated for one-line URLs. */
  lemma CleanUrlNotIdempotentAcrossLines()
    ensures CleanUrl("a#\n?") == "a#\n"
    ensures CleanUrl("a#\n") == "a\n"
  {
  }

  // ---------------------------------------------------------------------------
  // The tail of fetch_urls: drop administrative pages, then list(dict.fromkeys(filtered))

  const SkipPatterns: seq<string> := ["/wp-admin", "/login", "/cart", "/tag/", "/category/", "/feed"]

  /** The URL contains one of the skip patterns as a substring. */
  predicate Skipped(u: string)
  {
    exists k | 0 <= k < |SkipPatterns| :: Contains(u, SkipPatterns[k])
  }

  /** The loop that builds `filtered`: every crawled URL without a skip pattern, in crawl order. */
  function DropSkipped(out: seq<string>): (filtered: seq<string>)
    ensures forall k | 0 <= k < |filtered| :: !Skipped(filtered[k])
    ensures forall u :: u in filtered <==> u in out && !Skipped(u)
    ensures forall u :: multiset(filtered)[u] == if Skipped(u) then 0 else multiset(out)[u]
    ensures IsSubseq(filtered, out)
  {
    if |out| == 0 then []
    else
      assert out == [out[0]] + out[1..];
      if Skipped(out[0]) then DropSkipped(out[1..])
      else
        var rest := DropSkipped(out[1..]);
        assert ([out[0]] + rest)[1..] == rest;
        [out[0]] + rest
  }

  /** `list(dict.fromkeys(xs))`: each key is inserted once, at its first occurrence. */
  function Dedupe(xs: seq<string>): (ys: seq<string>)
    ensures Distinct(ys)
    ensures forall x :: x in ys <==> x in xs
    ensures IsSubseq(ys, xs)
    ensures forall i, j | 0 <= i < j < |ys| :: FirstIndex(xs, ys[i]) < FirstIndex(xs, ys[j])
    decreases |xs|
  {
    if |xs| == 0 then []
    else
      var init, x := xs[..|xs| - 1], xs[|xs| - 1];
      var d := Dedupe(init);
      assert xs == init + [x];
      SubseqSnoc(d, init, x);
      forall i | 0 <= i < |d| ensures FirstIndex(xs, d[i]) == FirstIndex(init, d[i]) {
        FirstIndexPrefix(init, [x], d[i]);
      }
      if x in d then d
      else
        assert FirstIndex(xs, x) == |xs| - 1 by {
          assert forall k | 0 <= k < |init| :: xs[k] == init[k];
        }
        d + [x]
  }

  /** Everything `fetch_urls` does after crawling: `list(dict.fromkeys(filtered))`. */
  function CrawlFilter(out: seq<string>): seq<string>
  {
    Dedupe(DropSkipped(out))
  }

  /** The first occurrences of two kept URLs come in the same order before and after the
      skip-pattern filter, because the filter keeps every occurrence of a kept URL. */
  lemma {:induction false} DropSkippedKeepsFirstOrder(out: seq<string>, a: string, b: string)
    requires a in out && b in out && !Skipped(a) && !Skipped(b)
    ensures FirstIndex(DropSkipped(out), a) < FirstIndex(DropSkipped(out), b)
        ==> FirstIndex(out, a) < FirstIndex(out, b)
    decreases |out|
  {
    var f := DropSkipped(out);
    if out[0] != a && out[0] != b {
      DropSkippedKeepsFirstOrder(out[1..], a, b);
      if !Skipped(out[0]) {
        assert f[0] == out[0];
        assert f[1..] == DropSkipped(out[1..]);
      }
    } else if out[0] == b {
      assert f[0] == b;
    }
  }

  /** The crawl filter's promise: no administrative page, no duplicates, only crawled URLs,
      every crawled URL without a skip pattern, in order of first discovery. */
  lemma CrawlFilterSpec(out: seq<string>)
    ensures forall k | 0 <= k < |CrawlFilter(out)| :: !Skipped(CrawlFilter(out)[k])
    ensures Distinct(CrawlFilter(out))
    ensures IsSubseq(CrawlFilter(out), out)
    ensures forall u :: u in CrawlFilter(out) <==> u in out && !Skipped(u)
    ensures forall i, j | 0 <= i < j < |CrawlFilter(out)| ::
      FirstIndex(out, CrawlFilter(out)[i]) < FirstIndex(out, CrawlFilter(out)[j])
  {
    var filtered := DropSkipped(out);
    var r := Dedupe(filtered);
    SubseqTrans(r, filtered, out);
    forall i, j | 0 <= i < j < |r| ensures FirstIndex(out, r[i]) < FirstIndex(out, r[j]) {
      DropSkippedKeepsFirstOrder(out, r[i], r[j]);
    }
  }

  // ---------------------------------------------------------------------------
  // save_corpus: page acceptance and the join of page blocks

  /** Extracted pages shorter than this count as failures. */
  const MinPageChars := 120

  /** A crawled URL with the text `extract_main_text` returned for it. */
  datatype Page = Page(url: string, text: string)

  /** The negation of `not txt or len(txt) < 120`. */
  predicate Accepted(txt: string)
  {
    !(|txt| == 0 || |txt| < MinPageChars)
  }

  /** The block a page contributes to the corpus: a `[URL]` header line with the URL, then the
      page text, then a line break. */
  function PageBlock(p: Page): string
  {
    "[URL] " + p.url + "\n" + p.text + "\n"
  }

  /** The pages that pass the length test, in URL order. */
  function AcceptedPages(pages: seq<Page>): (acc: seq<Page>)
    ensures forall k | 0 <= k < |acc| :: |acc[k].text| >= MinPageChars
    ensures forall p :: p in acc <==> p in pages && |p.text| >= MinPageChars
    ensures IsSubseq(acc, pages)
  {
    if |pages| == 0 then []
    else if Accepted(pages[0].text) then
      var rest := AcceptedPages(pages[1..]);
      assert ([pages[0]] + rest)[1..] == rest;
      [pages[0]] + rest
    else AcceptedPages(pages[1..])
  }

  /** A long enough page is kept as many times as it was crawled; a short one never. */
  lemma {:induction false} AcceptedPagesCount(pages: seq<Page>)
    ensures forall p :: multiset(AcceptedPages(pages))[p] == if |p.text| >= MinPageChars then multiset(pages)[p] else 0
    decreases |pages|
  {
    if |pages| > 0 {
      assert pages == [pages[0]] + pages[1..];
      AcceptedPagesCount(pages[1..]);
    }
  }

  /** The pages that fail the length test, in URL order. */
  function RejectedPages(pages: seq<Page>): (rej: seq<Page>)
    ensures forall k | 0 <= k < |rej| :: |rej[k].text| < MinPageChars
    ensures IsSubseq(rej, pages)
  {
    if |pages| == 0 then []
    else if Accepted(pages[0].text) then RejectedPages(pages[1..])
    else
      var rest := RejectedPages(pages[1..]);
      assert ([pages[0]] + rest)[1..] == rest;
      [pages[0]] + rest
  }

  /** A short page is rejected as many times as it was crawled; a long enough one never. */
  lemma {:induction false} RejectedPagesCount(pages: seq<Page>)
    ensures forall p :: multiset(RejectedPages(pages))[p] == if |p.text| < MinPageChars then multiset(pages)[p] else 0
    decreases |pages|
  {
    if |pages| > 0 {
      assert pages == [pages[0]] + pages[1..];
      RejectedPagesCount(pages[1..]);
    }
  }

  /** The URL of every page, in order. */
  function Urls(pages: seq<Page>): (us: seq<string>)
    ensures |us| == |pages| && forall k | 0 <= k < |pages| :: us[k] == pages[k].url
  {
    seq(|pages|, k requires 0 <= k < |pages| => pages[k].url)
  }

  /** The URLs of the pages that fail the length test, in URL order. */
  function FailedUrls(pages: seq<Page>): (fail: seq<string>)
    ensures |fail| <= |pages|
    ensures forall u :: u in fail <==> exists k | 0 <= k < |pages| :: pages[k].url == u && |pages[k].text| < MinPageChars
  {
    if |pages| == 0 then []
    else
      var rest := FailedUrls(pages[1..]);
      assert forall k | 1 <= k < |pages| :: pages[k] == pages[1..][k - 1];
      if Accepted(pages[0].text) then rest else [pages[0].url] + rest
  }

  /** `fail` holds one entry per rejected page: the page's URL, in URL order. */
  lemma {:induction false} FailedUrlsAreRejectedUrls(pages: seq<Page>)
    ensures FailedUrls(pages) == Urls(RejectedPages(pages))
    decreases |pages|
  {
    if |pages| > 0 {
      FailedUrlsAreRejectedUrls(pages[1..]);
    }
  }

  function Blocks(acc: seq<Page>): (bs: seq<string>)
    ensures |bs| == |acc|
    ensures forall k | 0 <= k < |acc| :: bs[k] == PageBlock(acc[k])
  {
    seq(|acc|, k requires 0 <= k < |acc| => PageBlock(acc[k]))
  }

  /** The blocks of the accepted pages separated by blank lines, with surrounding whitespace
      stripped. */
  function Corpus(pages: seq<Page>): string
  {
    Strip(Join("\n\n", Blocks(AcceptedPages(pages))))
  }

  /** What `save_corpus` reports: the corpus it would write, `ok_count`, `fail`, and its result. */
  datatype Report = Report(corpus: string, okCount: nat, fail: seq<string>, saved: bool)

  lemma {:induction false} AcceptedPagesAppend(a: seq<Page>, b: seq<Page>)
    ensures AcceptedPages(a + b) == AcceptedPages(a) + AcceptedPages(b)
    decreases |a|
  {
    if |a| == 0 {
      assert a + b == b;
    } else {
      assert (a + b)[1..] == a[1..] + b;
      AcceptedPagesAppend(a[1..], b);
    }
  }

  lemma {:induction false} FailedUrlsAppend(a: seq<Page>, b: seq<Page>)
    ensures FailedUrls(a + b) == FailedUrls(a) + FailedUrls(b)
    decreases |a|
  {
    if |a| == 0 {
      assert a + b == b;
    } else {
      assert (a + b)[1..] == a[1..] + b;
      FailedUrlsAppend(a[1..], b);
    }
  }

  /** Every page is either accepted or reported as failed. */
  lemma {:induction false} AcceptedOrFailed(pages: seq<Page>)
    ensures |AcceptedPages(pages)| + |FailedUrls(pages)| == |pages|
    decreases |pages|
  {
    if |pages| > 0 {
      AcceptedOrFailed(pages[1..]);
    }
  }

  /** What one more page contributes to the accepted blocks and the failure list. */
  lemma SaveCorpusStep(pages: seq<Page>, i: nat)
    requires i < |pages|
    ensures Accepted(pages[i].text) ==>
      && Blocks(AcceptedPages(pages[..i + 1])) == Blocks(AcceptedPages(pages[..i])) + [PageBlock(pages[i])]
      && FailedUrls(pages[..i + 1]) == FailedUrls(pages[..i])
    ensures !Accepted(pages[i].text) ==>
      && Blocks(AcceptedPages(pages[..i + 1])) == Blocks(AcceptedPages(pages[..i]))
      && FailedUrls(pages[..i + 1]) == FailedUrls(pages[..i]) + [pages[i].url]
  {
    var pre, p := pages[..i], pages[i];
    assert pages[..i + 1] == pre + [p];
    AcceptedPagesAppend(pre, [p]);
    FailedUrlsAppend(pre, [p]);
    assert [p][1..] == [];
    assert AcceptedPages([p]) == if Accepted(p.text) then [p] else [];
    assert FailedUrls([p]) == if Accepted(p.text) then [] else [p.url];
    if Accepted(p.text) {
      BlocksSnoc(AcceptedPages(pre), p);
    }
  }

  lemma BlocksSnoc(acc: seq<Page>, p: Page)
    ensures Blocks(acc + [p]) == Blocks(acc) + [PageBlock(p)]
  {
    assert forall k | 0 <= k < |acc| :: (acc + [p])[k] == acc[k];
  }

  /** The loop of `save_corpus` with the extracted texts given. */
  method SaveCorpus(pages: seq<Page>) returns (r: Report)
    ensures r.okCount + |r.fail| == |pages|
    ensures r.okCount == |AcceptedPages(pages)|
    ensures r.fail == FailedUrls(pages)
    ensures r.corpus == Corpus(pages)
    ensures r.saved <==> r.okCount > 0
    ensures r.saved <==> r.corpus != []
  {
    var okCount: nat := 0;
    var fail: seq<string> := [];
    var chunks: seq<string> := [];
    for i := 0 to |pages|
      invariant chunks == Blocks(AcceptedPages(pages[..i]))
      invariant fail == FailedUrls(pages[..i])
      invariant okCount == |chunks|
    {
      var u, txt := pages[i].url, pages[i].text;
      SaveCorpusStep(pages, i);
      if |txt| == 0 || |txt| < 120 {
        fail := fail + [u];
        continue;
      }
      var pageBlock := "[URL] " + u + "\n" + txt + "\n";
      chunks := chunks + [pageBlock];
      okCount := okCount + 1;
    }
    assert pages[..|pages|] == pages;
    AcceptedOrFailed(pages);
    var corpus := Strip(Join("\n\n", chunks));
    CorpusShape(pages);
    if corpus == [] {
      return Report(corpus, okCount, fail, false);
    }
    return Report(corpus, okCount, fail, true);
  }

  /** The corpus is empty exactly when no page was accepted; otherwise it opens with the
      `[URL]` tag of the first accepted page and is the joined blocks minus trailing whitespace. */
  lemma CorpusShape(pages: seq<Page>)
    ensures Corpus(pages) == [] <==> AcceptedPages(pages) == []
    ensures AcceptedPages(pages) != [] ==> "[URL]" <= Corpus(pages)
    ensures Corpus(pages) <= Join("\n\n", Blocks(AcceptedPages(pages)))
    ensures IsBlank(Join("\n\n", Blocks(AcceptedPages(pages)))[|Corpus(pages)|..])
    ensures Corpus(pages) != [] ==> !IsSpace(Corpus(pages)[|Corpus(pages)| - 1])
  {
    var acc := AcceptedPages(pages);
    var bs := Blocks(acc);
    if |bs| > 0 {
      assert bs[0] == "[URL] " + acc[0].url + "\n" + acc[0].text + "\n";
    }
    StrippedJoinShape(bs);
    if Corpus(pages) != [] {
      StripEnds(Join("\n\n", bs));
    }
  }

  /** `"\n\n".join(blocks).strip()` when the first block opens with `[URL]`: empty exactly for
      no blocks, otherwise starting with `[URL]`, and always the join minus trailing whitespace. */
  lemma StrippedJoinShape(bs: seq<string>)
    requires |bs| > 0 ==> "[URL]" <= bs[0]
    ensures Strip(Join("\n\n", bs)) == [] <==> bs == []
    ensures bs != [] ==> "[URL]" <= Strip(Join("\n\n", bs))
    ensures Strip(Join("\n\n", bs)) <= Join("\n\n", bs)
    ensures IsBlank(Join("\n\n", bs)[|Strip(Join("\n\n", bs))|..])
  {
    var joined := Join("\n\n", bs);
    if |bs| == 0 {
      assert joined == [];
    } else {
      JoinPrefix("\n\n", bs);
      assert joined[..5] == bs[0][..5] == "[URL]";
      StripNoLeadingSpace(joined);
      StripKeepsUpToNonSpace(joined, 5, 4);
    }
  }

  /** Stripping a text that starts with a non-space character keeps every character up to
      any non-space one. */
  lemma StripKeepsUpToNonSpace(s: string, n: nat, m: nat)
    requires n <= m + 1 && m < |s| && !IsSpace(s[0]) && !IsSpace(s[m])
    ensures s[..n] <= Strip(s)
  {
    StripNoLeadingSpace(s);
    var c := Strip(s);
    var rest := s[|c|..];
    assert |c| > m by {
      assert forall k | 0 <= k < |rest| :: rest[k] == s[|c| + k];
    }
    assert c == s[..|c|];
    assert s[..n] == c[..n];
  }
}
