/** The batch-building parts of `add_pdf_to_index` and `add_txt_to_index` in app.py: page texts
    are chunked and turned into parallel lists of IDs, documents and metadata, which are handed
    to `collection.add` only when non-empty. */
module Ingest {
  import opened Wrappers
  import opened Sequences
  import opened Text
  import opened Decimal
  import opened Chunker
  import opened Index

  /** `page.extract_text() or ""`: a page without extractable text counts as empty. */
  function PageText(page: Option<string>): string
  {
    ValueOr(page, "")
  }

  /** The chunks of one page (or TXT file) with the default window. */
  function DefaultChunks(text: string): seq<string>
  {
    ChunkText(text, DefaultSize, DefaultOverlap)
  }

  /** The ID of chunk `ci` of page `pno` of a PDF: the file name, then `_p` and the page number,
      then `_c` and the chunk index, both in decimal. */
  function PdfId(fname: string, pno: nat, ci: nat): string
  {
    fname + "_p" + NatToString(pno) + "_c" + NatToString(ci)
  }

  /** The ID of chunk `ci` of a TXT file: the file name, then `_c` and the chunk index in decimal. */
  function TxtId(fname: string, ci: nat): string
  {
    fname + "_c" + NatToString(ci)
  }

  /** The metadata of a PDF chunk: the file name as source, and the page number and chunk index
      as decimal strings. */
  function PdfMeta(fname: string, pno: nat, ci: nat): Metadata
  {
    map["source" := Str(fname), "page" := Str(NatToString(pno)), "chunk" := Str(NatToString(ci))]
  }

  /** The metadata of a TXT chunk: the file name as source, an empty page, and the chunk index
      as a decimal string. */
  function TxtMeta(fname: string, ci: nat): Metadata
  {
    map["source" := Str(fname), "page" := Str(""), "chunk" := Str(NatToString(ci))]
  }

  // ---------------------------------------------------------------------------
  // PDF

  /** The entries the inner loop of `add_pdf_to_index` appends for page number `pno`. */
  function PageBatch(fname: string, pno: nat, chunks: seq<string>): (b: Batch)
    ensures b.Parallel() && |b.docs| == |chunks|
  {
    Batch(seq(|chunks|, ci requires 0 <= ci => PdfId(fname, pno, ci)), chunks,
          seq(|chunks|, ci requires 0 <= ci => PdfMeta(fname, pno, ci)))
  }

  /** The entries for `pages`, numbering the first of them `pno`. */
  function PdfBatchFrom(fname: string, pages: seq<Option<string>>, pno: nat): (b: Batch)
    ensures b.Parallel()
    decreases |pages|
  {
    if |pages| == 0 then EmptyBatch
    else Append(PageBatch(fname, pno, DefaultChunks(PageText(pages[0]))),
                PdfBatchFrom(fname, pages[1..], pno + 1))
  }

  /** The lists `add_pdf_to_index` builds: pages are numbered from 1 (`enumerate(..., start=1)`). */
  function PdfBatch(fname: string, pages: seq<Option<string>>): Batch
  {
    PdfBatchFrom(fname, pages, 1)
  }

  /** The `collection.add` calls `add_pdf_to_index` makes: one call with the whole batch, or
      none when no page has any text. */
  function AddPdfToIndex(fname: string, pages: seq<Option<string>>): (calls: seq<Batch>)
    ensures |calls| <= 1
    ensures calls == [] <==> forall p | 0 <= p < |pages| :: IsBlank(PageText(pages[p]))
    ensures forall c | c in calls :: c == PdfBatch(fname, pages) && c.Parallel() && |c.docs| > 0
  {
    var b := PdfBatch(fname, pages);
    PdfDocsInPageOrder(fname, pages);
    FlattenEmpty(PageChunkLists(pages));
    if |b.docs| > 0 then [b] else []
  }

  /** The chunk list of every page, in page order. */
  function PageChunkLists(pages: seq<Option<string>>): (r: seq<seq<string>>)
    ensures |r| == |pages|
    ensures forall p | 0 <= p < |pages| :: r[p] == DefaultChunks(PageText(pages[p]))
  {
    seq(|pages|, p requires 0 <= p < |pages| => DefaultChunks(PageText(pages[p])))
  }

  /** `docs` is the concatenation of the chunks of every page, in page order. */
  lemma {:induction false} PdfDocsFromInPageOrder(fname: string, pages: seq<Option<string>>, pno: nat)
    ensures PdfBatchFrom(fname, pages, pno).docs == Flatten(PageChunkLists(pages))
    decreases |pages|
  {
    if |pages| > 0 {
      PdfDocsFromInPageOrder(fname, pages[1..], pno + 1);
      assert PageChunkLists(pages)[1..] == PageChunkLists(pages[1..]);
    }
  }

  lemma PdfDocsInPageOrder(fname: string, pages: seq<Option<string>>)
    ensures PdfBatch(fname, pages).docs == Flatten(PageChunkLists(pages))
  {
    PdfDocsFromInPageOrder(fname, pages, 1);
  }

  /** `(page number, chunk index)` of each entry, in the order the two loops visit them. */
  function PdfKeysFrom(pages: seq<Option<string>>, pno: nat): seq<(nat, nat)>
    decreases |pages|
  {
    if |pages| == 0 then []
    else seq(|DefaultChunks(PageText(pages[0]))|, ci requires 0 <= ci => (pno, ci as nat))
         + PdfKeysFrom(pages[1..], pno + 1)
  }

  /** Strictly before in (page, chunk) order. */
  predicate KeyBefore(x: (nat, nat), y: (nat, nat))
  {
    x.0 < y.0 || (x.0 == y.0 && x.1 < y.1)
  }

  /** `key` names an existing chunk of one of `pages`, the first of which is numbered `pno`. */
  predicate ValidKey(pages: seq<Option<string>>, pno: nat, key: (nat, nat))
  {
    pno <= key.0 < pno + |pages| && key.1 < |DefaultChunks(PageText(pages[key.0 - pno]))|
  }

  /** Key `k` is `(pno, k)` on the first page and the shifted tail key afterwards. */
  lemma PdfKeyAt(pages: seq<Option<string>>, pno: nat, k: nat)
    requires |pages| > 0 && k < |PdfKeysFrom(pages, pno)|
    ensures k < |DefaultChunks(PageText(pages[0]))| ==> PdfKeysFrom(pages, pno)[k] == (pno, k)
    ensures k >= |DefaultChunks(PageText(pages[0]))| ==>
      PdfKeysFrom(pages, pno)[k] == PdfKeysFrom(pages[1..], pno + 1)[k - |DefaultChunks(PageText(pages[0]))|]
  {
  }

  /** A valid key of the later pages is a valid key of all pages, on a later page than `pno`. */
  lemma ValidKeyOfTail(pages: seq<Option<string>>, pno: nat, t: (nat, nat))
    requires |pages| > 0 && ValidKey(pages[1..], pno + 1, t)
    ensures ValidKey(pages, pno, t) && t.0 > pno
  {
    assert pages[1..][t.0 - (pno + 1)] == pages[t.0 - pno];
  }

  /** The keys strictly increase in (page, chunk) order, and each names an existing chunk of a
      page in range. */
  lemma {:induction false} PdfKeysOrdered(pages: seq<Option<string>>, pno: nat)
    ensures forall k | 0 <= k < |PdfKeysFrom(pages, pno)| ::
      ValidKey(pages, pno, PdfKeysFrom(pages, pno)[k])
    ensures forall k, l | 0 <= k < l < |PdfKeysFrom(pages, pno)| ::
      KeyBefore(PdfKeysFrom(pages, pno)[k], PdfKeysFrom(pages, pno)[l])
    decreases |pages|
  {
    if |pages| > 0 {
      var keys := PdfKeysFrom(pages, pno);
      var n := |DefaultChunks(PageText(pages[0]))|;
      var tailK := PdfKeysFrom(pages[1..], pno + 1);
      PdfKeysOrdered(pages[1..], pno + 1);
      forall k | 0 <= k < |keys| ensures ValidKey(pages, pno, keys[k]) {
        PdfKeyAt(pages, pno, k);
        if k >= n {
          ValidKeyOfTail(pages, pno, tailK[k - n]);
        }
      }
      forall k, l | 0 <= k < l < |keys| ensures KeyBefore(keys[k], keys[l]) {
        PdfKeyAt(pages, pno, k);
        PdfKeyAt(pages, pno, l);
        if l >= n {
          ValidKeyOfTail(pages, pno, tailK[l - n]);
        }
      }
    }
  }

  /** Entry `k < n` of the batch comes from the first page, with key `(pno, k)`. */
  lemma EntryOnFirstPage(fname: string, pages: seq<Option<string>>, pno: nat, k: nat)
    requires |pages| > 0 && k < |DefaultChunks(PageText(pages[0]))|
    ensures EntryAt(fname, pages, pno, PdfBatchFrom(fname, pages, pno), k, (pno, k))
  {
    var cs := DefaultChunks(PageText(pages[0]));
    var b := PdfBatchFrom(fname, pages, pno);
    assert b == Append(PageBatch(fname, pno, cs), PdfBatchFrom(fname, pages[1..], pno + 1));
  }

  /** An entry of the later pages' batch reappears, shifted past the first page's entries. */
  lemma EntryOnLaterPage(fname: string, pages: seq<Option<string>>, pno: nat, k: nat, t: (nat, nat))
    requires |pages| > 0
    requires EntryAt(fname, pages[1..], pno + 1, PdfBatchFrom(fname, pages[1..], pno + 1), k, t)
    ensures EntryAt(fname, pages, pno, PdfBatchFrom(fname, pages, pno),
                    |DefaultChunks(PageText(pages[0]))| + k, t)
  {
    var cs := DefaultChunks(PageText(pages[0]));
    var tailB := PdfBatchFrom(fname, pages[1..], pno + 1);
    var b := PdfBatchFrom(fname, pages, pno);
    assert b == Append(PageBatch(fname, pno, cs), tailB);
    ValidKeyOfTail(pages, pno, t);
    var n := |cs|;
    assert b.docs[n + k] == tailB.docs[k];
    assert b.ids[n + k] == tailB.ids[k];
    assert b.metas[n + k] == tailB.metas[k];
    assert pages[1..][t.0 - (pno + 1)] == pages[t.0 - pno];
  }

  /** Entry `k` of the PDF batch is chunk `ci` of page `pno` for its key `(pno, ci)`: its
      document is that chunk, and its ID and metadata depend on nothing but `(fname, pno, ci)`. */
  lemma {:induction false} PdfBatchEntries(fname: string, pages: seq<Option<string>>, pno: nat)
    ensures |PdfKeysFrom(pages, pno)| == |PdfBatchFrom(fname, pages, pno).docs|
    ensures forall k | 0 <= k < |PdfKeysFrom(pages, pno)| ::
      EntryAt(fname, pages, pno, PdfBatchFrom(fname, pages, pno), k, PdfKeysFrom(pages, pno)[k])
    decreases |pages|
  {
    if |pages| > 0 {
      var keys := PdfKeysFrom(pages, pno);
      var n := |DefaultChunks(PageText(pages[0]))|;
      var tailK := PdfKeysFrom(pages[1..], pno + 1);
      PdfBatchEntries(fname, pages[1..], pno + 1);
      assert |keys| == n + |tailK|;
      assert |PdfBatchFrom(fname, pages, pno).docs| == n + |PdfBatchFrom(fname, pages[1..], pno + 1).docs|;
      forall k | 0 <= k < |keys|
        ensures EntryAt(fname, pages, pno, PdfBatchFrom(fname, pages, pno), k, keys[k])
      {
        PdfKeyAt(pages, pno, k);
        if k < n {
          EntryOnFirstPage(fname, pages, pno, k);
        } else {
          EntryOnLaterPage(fname, pages, pno, k - n, tailK[k - n]);
        }
      }
    }
  }

  /** Entry `k` of batch `b` is chunk `key.1` of page number `key.0`, with the ID and metadata
      of that key. */
  predicate EntryAt(fname: string, pages: seq<Option<string>>, pno: nat, b: Batch, k: nat, key: (nat, nat))
  {
    && k < |b.docs| && k < |b.ids| && k < |b.metas|
    && ValidKey(pages, pno, key)
    && b.docs[k] == DefaultChunks(PageText(pages[key.0 - pno]))[key.1]
    && b.ids[k] == PdfId(fname, key.0, key.1)
    && b.metas[k] == PdfMeta(fname, key.0, key.1)
  }

  /** Within one PDF batch, IDs are pairwise distinct. */
  lemma PdfIdsDistinct(fname: string, pages: seq<Option<string>>)
    ensures Distinct(PdfBatch(fname, pages).ids)
  {
    var b := PdfBatch(fname, pages);
    var keys := PdfKeysFrom(pages, 1);
    PdfBatchEntries(fname, pages, 1);
    PdfKeysOrdered(pages, 1);
    forall k, l | 0 <= k < l < |b.ids| ensures b.ids[k] != b.ids[l] {
      if b.ids[k] == b.ids[l] {
        PdfIdInjective(fname, keys[k].0, keys[k].1, fname, keys[l].0, keys[l].1);
      }
    }
  }

  // ---------------------------------------------------------------------------
  // TXT

  /** The lists `add_txt_to_index` builds: one entry per chunk of the whole text. */
  function TxtBatch(fname: string, text: string): (b: Batch)
    ensures b.Parallel() && b.docs == DefaultChunks(text)
    ensures forall k | 0 <= k < |b.ids| :: b.ids[k] == TxtId(fname, k) && b.metas[k] == TxtMeta(fname, k)
    ensures forall k | 0 <= k < |b.metas| ::
      && "source" in b.metas[k] && b.metas[k]["source"] == Str(fname)
      && "page" in b.metas[k] && b.metas[k]["page"] == Str("")
      && "chunk" in b.metas[k] && b.metas[k]["chunk"] == Str(NatToString(k))
  {
    var cs := DefaultChunks(text);
    Batch(seq(|cs|, ci requires 0 <= ci => TxtId(fname, ci)), cs,
          seq(|cs|, ci requires 0 <= ci => TxtMeta(fname, ci)))
  }

  /** The `collection.add` calls `add_txt_to_index` makes: none for a blank text. */
  function AddTxtToIndex(fname: string, text: string): (calls: seq<Batch>)
    ensures |calls| <= 1
    ensures calls == [] <==> IsBlank(text)
    ensures forall c | c in calls :: c == TxtBatch(fname, text) && |c.docs| > 0
  {
    var b := TxtBatch(fname, text);
    if |b.docs| > 0 then [b] else []
  }

  /** Within one TXT batch, IDs are pairwise distinct. */
  lemma TxtIdsDistinct(fname: string, text: string)
    ensures Distinct(TxtBatch(fname, text).ids)
  {
    var b := TxtBatch(fname, text);
    forall k, l | 0 <= k < l < |b.ids| ensures b.ids[k] != b.ids[l] {
      if b.ids[k] == b.ids[l] {
        TxtIdInjective(fname, k, fname, l);
      }
    }
  }

  // ---------------------------------------------------------------------------
  // The ID scheme

  /** A PDF chunk ID determines its file name, page number and chunk index. */
  lemma PdfIdInjective(f1: string, p1: nat, c1: nat, f2: string, p2: nat, c2: nat)
    requires PdfId(f1, p1, c1) == PdfId(f2, p2, c2)
    ensures f1 == f2 && p1 == p2 && c1 == c2
  {
    var x1 := f1 + "_p" + NatToString(p1) + "_c";
    var x2 := f2 + "_p" + NatToString(p2) + "_c";
    DigitsSuffixUnique(x1, NatToString(c1), x2, NatToString(c2));
    NatToStringInjective(c1, c2);
    assert x1[..|x1| - 2] == f1 + "_p" + NatToString(p1);
    assert x2[..|x2| - 2] == f2 + "_p" + NatToString(p2);
    DigitsSuffixUnique(f1 + "_p", NatToString(p1), f2 + "_p", NatToString(p2));
    NatToStringInjective(p1, p2);
    assert f1 == (f1 + "_p")[..|f1|];
    assert f2 == (f2 + "_p")[..|f2|];
  }

  /** A TXT chunk ID determines its file name and chunk index. */
  lemma TxtIdInjective(f1: string, c1: nat, f2: string, c2: nat)
    requires TxtId(f1, c1) == TxtId(f2, c2)
    ensures f1 == f2 && c1 == c2
  {
    DigitsSuffixUnique(f1 + "_c", NatToString(c1), f2 + "_c", NatToString(c2));
    NatToStringInjective(c1, c2);
    assert f1 == (f1 + "_c")[..|f1|];
    assert f2 == (f2 + "_c")[..|f2|];
  }

  /** A TXT file whose name does not end in a digit (such as any `*.txt`) never shares an ID
      with a PDF chunk. */
  lemma TxtAndPdfIdsDiffer(ft: string, c: nat, fp: string, p: nat, c': nat)
    requires |ft| > 0 && !IsDigit(ft[|ft| - 1])
    ensures TxtId(ft, c) != PdfId(fp, p, c')
  {
    var xt := ft + "_c";
    var xp := fp + "_p" + NatToString(p) + "_c";
    var d := NatToString(p);
    DigitsSuffixUnique(xt, NatToString(c), xp, NatToString(c'));
    assert xt[|xt| - 3] == ft[|ft| - 1];
    assert xp[|xp| - 3] == d[|d| - 1];
    assert xt != xp;
  }
}
