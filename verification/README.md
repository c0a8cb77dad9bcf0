# Ayten-bot ingestion, retrieval and corpus helpers in Dafny

Ayten-bot is a Turkish-speaking chat assistant that answers from a small document collection. This
project models the deterministic string and sequence logic around that collection:

- `chunk_text` (app.py). It collapses whitespace the way Python's `" ".join(s.split())` does. It then
  cuts the normalised text into windows of `size` characters, and each window starts `overlap`
  characters before the previous one ended (module `Chunker`).
- The batches handed to `collection.add` by `add_pdf_to_index` and `add_txt_to_index`: parallel lists
  of IDs `"{fname}_p{pno}_c{ci}"` / `"{fname}_c{ci}"`, chunk texts and metadata dictionaries
  (modules `Index`, `Ingest`). A PDF is a sequence of optional page texts, because `extract_text()`
  may return `None`. `collection.add` is modelled as the list of batches passed to it: empty, or
  exactly one batch.
- The distance filter of `retrieve`. It walks `zip(docs, metas, dists)` and keeps the entries whose
  distance is `None` or at most `max_distance`. Each kept entry's metadata is copied and gets a
  `"distance"` key (module `Retrieval`).
- `build_prompt_with_context`: persona, style guard, an optional bulleted context block, and the
  user turn (module `Prompt`).
- From src/web_ingest.py:
  - `clean_url`, modelled exactly as the two `re.sub(..., ".*$", ...)` calls, including how `.` and
    `$` treat line breaks;
  - the skip-pattern filter and `dict.fromkeys` dedupe at the end of `fetch_urls`;
  - the page acceptance and corpus join of `save_corpus` (module `WebIngest`).

Supporting modules:
- `Wrappers`: `Option`.
- `Sequences`: flattening, subsequences, distinctness and first occurrence.
- `Text`: Python's whitespace set, `split()`/`join`, `strip()`, substring search, `endswith`,
  `split(sep)`.
- `Decimal`: `str(n)` for natural numbers, with its parse-back round trip.

External inputs are parameters:
- the persona text read from `prompts/ayten_system.txt`;
- the page texts a PDF reader extracts;
- the result lists of the vector query;
- the text `extract_main_text` returns for each URL.

## Model

| member | source | states |
|---|---|---|
| Text.NormalizeShape | app.py:116 | `Normalize`, the whitespace-normalised text, has no leading or trailing whitespace, separates words by exactly one `' '`, and keeps every non-whitespace character in order |
| Text.NormalizeEmptyIffBlank | app.py:116-118 | the normalised text is empty exactly when the input is all whitespace |
| Text.NormalizeIdempotent | app.py:116 | normalising an already-normalised text changes nothing |
| Text.WordsOfJoin | app.py:116 | splitting the single-space join of whitespace-free words gives the same words back |
| Text.StripEmptyIffBlank | src/web_ingest.py:140-141 | `strip()` gives the empty string exactly when the text is all whitespace |
| Text.StripNoLeadingSpace | src/web_ingest.py:140 | for a text that does not start with whitespace, `strip()` removes only a trailing whitespace run: text = stripped + blank tail |
| Text.SplitOfJoin | app.py:171 | splitting a `sep`-join at `sep` recovers the parts when no part contains `sep` |
| Decimal.StringToNatOfNatToString | app.py:134-136 | `NatToString`, the model of `str(n)`, gives a non-empty digit string that parses back to `n` |
| Decimal.NatToStringInjective | app.py:134-136 | different numbers have different decimal strings |
| Chunker.Windows | app.py:119-125 | the window loop from cursor `i` yields chunks exactly when `i` is inside the text; each chunk is non-empty, at most `size` long, exactly `size` long unless last, and a substring of the text |
| Chunker.ChunkText | app.py:115-126 | `chunk_text` returns no chunk exactly when the input is blank; chunks are non-empty, at most `size`, all but the last exactly `size`, and substrings of the normalised text |
| Chunker.ChunkTextLoop | app.py:115-126 | the `while` loop with its `j == n` break computes the same chunks as the recursive window definition |
| Chunker.CursorStallsWithoutAdvance | app.py:121-125 | with `overlap >= size`, after a window that stops short of the end (a normalised text longer than one window) the next cursor is not past the current one, so the loop would not terminate there |
| Chunker.CursorsAdvance | app.py:121-125 | with `0 <= overlap < size`, the cursor starts at 0 and advances by exactly `size - overlap` per window before the final one |
| Chunker.WindowsOverlap | app.py:121-125 | each chunk begins with the last `overlap` characters of the previous chunk |
| Chunker.ChunkTiling | app.py:116-125 | the chunks tile the normalised text: the first starts at 0, the last ends at its length, each is the slice at its cursor, and each next cursor is `overlap` before the previous end |
| Chunker.ChunksReassemble | app.py:116-125 | the first chunk followed by every later chunk minus its first `overlap` characters equals the normalised text |
| Chunker.ChunkExample | app.py:115-126 | a normalised text of 2000 characters with the defaults 800/150 gives chunks of lengths 800, 800 and 700 |
| Chunker.ChunksHaveNoNewline | app.py:116-122 | no chunk contains a line break |
| Index.Append | app.py:130-136 | concatenating two aligned batches keeps ids, docs and metas aligned, and the entry count is the sum of the two |
| Ingest.PageBatch | app.py:133-136 | the entries of one PDF page line up, one per chunk |
| Ingest.PdfBatchFrom | app.py:131-136 | the PDF batch built over the pages keeps ids, docs and metas the same length |
| Ingest.AddPdfToIndex | app.py:128-138 | at most one `add` call; none exactly when every page text (with `None` as `""`) is blank; the batch added is the PDF batch, aligned and non-empty |
| Ingest.PdfDocsInPageOrder | app.py:131-135 | the documents are the chunk lists of the pages concatenated in page order |
| Ingest.PdfKeysOrdered | app.py:131-134 | the visited `(page, chunk)` keys strictly increase and each names an existing chunk of a page numbered from 1 |
| Ingest.PdfBatchEntries | app.py:131-136 | in `PdfBatch`, entry `k` is the chunk of its key; its ID is `PdfId`, `fname_p{pno}_c{ci}`, and its metadata is `PdfMeta`, `{source, page: str(pno), chunk: str(ci)}`, for that key |
| Ingest.PdfIdsDistinct | app.py:134 | the IDs within one PDF batch are pairwise distinct |
| Ingest.PdfIdInjective | app.py:134 | a PDF ID determines its `(fname, pno, ci)` |
| Ingest.TxtBatch | app.py:141-145 | the TXT batch's documents are the text's default chunks in order; entry k has the ID `TxtId`, `fname_c{k}`, and exactly the metadata `TxtMeta`: the file name as source, an empty page and `str(k)` as chunk |
| Ingest.AddTxtToIndex | app.py:140-147 | at most one `add` call; none exactly when the text is blank; the batch added is the TXT batch and is non-empty |
| Ingest.TxtIdsDistinct | app.py:143 | the IDs within one TXT batch are pairwise distinct |
| Ingest.TxtIdInjective | app.py:143 | a TXT ID determines its `(fname, ci)` |
| Ingest.TxtAndPdfIdsDiffer | app.py:134-143 | a TXT file whose name ends in a non-digit (such as `.txt`) never produces an ID of any PDF chunk |
| Retrieval.WithDistance | app.py:162-163 | the copied metadata (`{}` for `None`) has `"distance"` set to the distance, and every other key and value is unchanged |
| Retrieval.ZipLength | app.py:160 | `zip` stops at the shortest of the three lists |
| Retrieval.KeptIndices | app.py:160-161 | the kept positions are exactly the zipped positions whose distance is `None` or at most `max_distance`, in increasing order |
| Retrieval.FilterByDistance | app.py:159-165 | the result is the kept entries in zip order, each with its document and its distance-tagged metadata; it is no longer than the zip, and every kept distance is `None` or within the threshold |
| Retrieval.KeptIndicesBound | app.py:159-165 | at most one kept entry per zipped position |
| Prompt.BuildPrompt | app.py:167-181 | the prompt starts with persona and style guard and ends with `"Kullanıcı: " + user + "\nAyten:"`; with no context it is exactly persona, guard and user turn; otherwise it contains `"BAĞLAM:\n" + context + "\n---"` |
| Prompt.ContextPromptLayout | app.py:172-181 | with context, the prompt begins with the header, a line break, the fixed instruction to answer only from the context (`---` … `Belge adı/sayfa yazma.`), the `BAĞLAM` section and a blank line, in that order, and the user turn follows |
| Prompt.PromptIgnoresMetadata | app.py:170 | two contexts with the same texts give the same prompt, whatever their metadata |
| Prompt.EveryTextInPrompt | app.py:170-177 | every context text occurs in the prompt as `"- " + txt` |
| Prompt.ContextLinesRecoverable | app.py:170-171 | for texts without line breaks (chunks never have one), splitting the context block at `"\n"` gives back the bullet lines in input order |
| WebIngest.SubToEndFromCuts | src/web_ingest.py:33-34 | on a one-line string, `re.sub(c + ".*$", "", u)` keeps exactly the prefix before the first `c` |
| WebIngest.CleanUrlIsPrefixBeforeCut | src/web_ingest.py:32-35 | for a URL without line breaks, `CleanUrl` (`clean_url`) returns a prefix of it with no `#` and no `?`, cut exactly at a `#` or `?` when shorter: the prefix before the first of them |
| WebIngest.CleanUrlIdempotent | src/web_ingest.py:32-35 | cleaning a clean one-line URL changes nothing |
| WebIngest.CleanUrlNotIdempotentAcrossLines | src/web_ingest.py:32-35 | with a line break inside, cleaning twice can differ from cleaning once: `"a#\n?"` cleans to `"a#\n"`, which cleans to `"a\n"` |
| WebIngest.DropSkipped | src/web_ingest.py:71-76 | the filtered list holds exactly the crawled URLs without a skip pattern (`Skipped`), each as many times as it was crawled, as a subsequence of the crawl order |
| WebIngest.Dedupe | src/web_ingest.py:78 | `list(dict.fromkeys(xs))` has no duplicates, the same elements as `xs`, is a subsequence of `xs`, and lists them in order of first occurrence |
| WebIngest.DropSkippedKeepsFirstOrder | src/web_ingest.py:73-78 | filtering out skipped URLs does not change the relative order of first occurrences of kept ones |
| WebIngest.CrawlFilterSpec | src/web_ingest.py:71-78 | the URLs `CrawlFilter` returns after crawling have no skip pattern and no duplicate; they are exactly the crawled URLs without a skip pattern, in a subsequence of the crawl order and in order of first discovery |
| WebIngest.AcceptedPages | src/web_ingest.py:123-131 | the accepted pages are exactly those whose text is at least 120 characters long, in URL order |
| WebIngest.AcceptedPagesCount | src/web_ingest.py:123-131 | a page of at least 120 characters is accepted as many times as it occurs; a shorter one never |
| WebIngest.RejectedPages | src/web_ingest.py:123-127 | the rejected pages all have texts shorter than 120 characters and come in URL order |
| WebIngest.RejectedPagesCount | src/web_ingest.py:123-127 | a page shorter than 120 characters is rejected as many times as it occurs; a longer one never |
| WebIngest.FailedUrls | src/web_ingest.py:123-127 | a URL is in `fail` exactly when one of its pages has a text shorter than 120 characters |
| WebIngest.FailedUrlsAreRejectedUrls | src/web_ingest.py:123-127 | `fail` is the URL of each rejected page, one entry per page, in URL order |
| WebIngest.AcceptedOrFailed | src/web_ingest.py:123-138 | every page is either accepted or failed: `ok_count + len(fail) == len(urls)` |
| WebIngest.SaveCorpus | src/web_ingest.py:116-151 | the loop reports `ok_count + len(fail) == len(urls)`, the accepted count, the failures in order, the stripped join of the accepted blocks (`Corpus` over `PageBlock`s), and returns `True` exactly when a page was accepted, which is exactly when the corpus is non-empty |
| WebIngest.CorpusShape | src/web_ingest.py:130-145 | the corpus is empty exactly when no page was accepted; otherwise it starts with `[URL]` and ends with a non-whitespace character, and it is the `"\n\n"`-joined blocks minus a trailing whitespace run |

## Left out

- The Streamlit page, chat loop, session state, Gemini calls and the meta-reply re-ask heuristic: UI
  and a remote API.
- Chroma and SentenceTransformer setup and the vector query itself. `retrieve` returning at most `k`
  results depends on the store, so the model starts from the three result lists.
- The store's treatment of duplicate IDs. The code calls `collection.add`, so the model describes
  the batch, not the stored state.
- PDF text extraction (pypdf / PyPDF2), `preload_documents` and file scanning. The reader becomes a
  sequence of optional page texts.
- Chunker.ChunkText: the `text or ""` guard for a `None` argument is not modelled, because both
  callers pass a string.
- Chunker.ChunkText: the model requires `0 < size` and `overlap < size`. Both callers
  (`add_pdf_to_index` and `add_txt_to_index`) pass the defaults 800 and 150, which meet it. Inputs
  outside it are not modelled, although some of them terminate in the source:
  - a blank text returns `[]` for any `size` and `overlap`;
  - with `overlap >= size`, a normalised text no longer than `size` is one window and the loop
    breaks at `j == n`; it stalls only when the text is longer than one window
    (`CursorStallsWithoutAdvance`);
  - `size = 0` with a negative `overlap` emits one empty chunk every `-overlap` characters (one per
    character when `overlap = -1`);
  - a negative `size` makes `text[i:j]` index from the end of the string.
- Chunker.ChunksReassemble: the tiling, overlap and reassembly lemmas also require `overlap >= 0`.
  A negative overlap still terminates and is admitted by `ChunkText`, but then the windows leave
  gaps.
- Retrieval.FilterByDistance: distances are `real` numbers. Python floats, rounding and NaN are not
  modelled; the code only compares them with `<=`.
- WebIngest.CleanUrlIsPrefixBeforeCut: the prefix characterisation is proved only for URLs without
  a line break. `CleanUrl` itself models the regular expressions for every string. There, `.`
  stops at a line break and `$` matches only at the end or before a final line break, so a `#` on an
  earlier line is kept. For the same reason `clean_url` is not idempotent on such strings
  (`CleanUrlNotIdempotentAcrossLines`), and `CleanUrlIdempotent` is stated for one-line URLs.
- The crawl loop of `fetch_urls`: HTTP requests, HTML parsing, `urljoin`, `same_domain`, sleeping,
  exception handling.
- `extract_with_trafilatura`, `extract_with_bs4` and `extract_main_text`: network and HTML parsing.
  Their result is the `text` field of each page.
- The file writes, the per-page files and the printed messages of `save_corpus`, and `main` with
  argparse.
- src/app.py (a demo) and src/settings.py (environment configuration) have no logic to model.
