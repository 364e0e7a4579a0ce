# A verified model of a small retrieval pipeline for Vietnamese history sources

The repository has three parts, and the model covers each:

- **Crawler (`crawl.py`).** It collects articles from two Vietnamese
  Communist Party history sites. It keeps links on allowed domains, and
  pages that are long enough and mention one of five keywords. Each
  accepted page is written to `data/web/<md5(url)>.txt` as a metadata
  block and a content block.
- **Indexer (`build_embeddings.py`).** It reads the `.txt` records back.
  It splits each text into overlapping 800-character windows (150-character
  overlap). It embeds the windows in batches of 50 and stores two parallel
  arrays: chunks and per-chunk metadata.
- **Question side (`app.py`).** It assembles a context from web pages and
  YouTube transcripts. It extracts video ids with a small regular
  expression. It wraps the context and the question in a closed-context
  prompt for a chat model.

The model is six Dafny modules:

| module | file | models |
|---|---|---|
| `Strings` | strings.dfy | the Python string primitives used (`in`, `split` on a delimiter, `strip`, `replace(p, "")`, `endswith`, `join`) |
| `Chunker` | chunker.dfy | `split_text`, generic over the element type |
| `Records` | records.dfy | the record layout, the parse in `load_documents`, and `load_documents` itself |
| `Corpus` | corpus.dfy | the main block of the indexer: parallel arrays, batching, and the dimension read |
| `Crawler` | crawler.dfy | the filters, `generate_filename`, `save_article`, and `crawl_source` |
| `Query` | query.dfy | `extract_video_id`, `load_websites`, `load_youtube`, `build_context`, and the prompts |

Library calls and I/O are function-typed parameters:

- HTTP fetches plus HTML cleaning;
- `urljoin` and `urlparse(..).netloc`;
- md5;
- `json.dumps` and `json.loads`;
- `str.lower`;
- the clock;
- the transcript service;
- the embedder.

An exception from a fetch, a decoder or `urljoin` is an `Option` whose `None` stands for the raise. The output directory is a map from file name to contents. Metadata is a map from strings to strings.

Two behaviours of `split_text` that a reader might not expect, both modelled as the code has them:

- **Short texts.** A text shorter than `chunk_size` is not always a single chunk. With `C − O < len <= C` and `len <= 2(C − O)` the code returns the two chunks `[text, text[C−O:]]` (see `Chunker.TwoChunks`). The second bound matters for large overlaps: with `C = 10`, `O = 8` and `len = 9` the windows start at 0, 2, 4, 6 and 8, giving five chunks. For the indexer's 800/150 configuration the second bound always holds, so every text of 651 to 800 characters gives two chunks.
- **`overlap >= chunk_size`.** Nothing rejects this configuration; the code loops forever on any non-empty text. `Chunker.NeverTerminates` proves the loop guard stays true, and `Chunker.SplitText` requires `overlap < chunk_size` for non-empty text.

## Model

| member | source | states |
|---|---|---|
| Strings.Strip | build_embeddings.py:55-62 | the result of `strip()` is no longer than the text and neither starts nor ends with Python whitespace |
| Strings.StripSlice | build_embeddings.py:55-62 | the result of `strip()` is the slice of the text right after its leading whitespace run, and only whitespace follows it |
| Strings.StripPadded | build_embeddings.py:55-62 | whitespace added on either side of a text does not change its `strip()` |
| Strings.RemoveAll | build_embeddings.py:55 | `replace(pat, "")` leaves a text without the pattern unchanged and otherwise shortens it by at least the pattern's length |
| Strings.RemoveAllAfter | build_embeddings.py:55 | when the first occurrence comes right after `a`, `replace` keeps `a`, drops that occurrence and goes on with the rest |
| Chunker.Chunks | build_embeddings.py:25-32 | the windows `text[start:start+C]` for `start = 0, C−O, 2(C−O), …` below `len(text)`; its shape is stated by `ChunkCount` and `ChunkContents` |
| Chunker.SplitText | build_embeddings.py:25-32 | the `while start < len(text)` loop returns exactly the windows `Chunks(text, C, O)`; empty text gives `[]` |
| Chunker.NeverTerminates | build_embeddings.py:28-31 | with `overlap >= chunk_size`, `start` after any number of rounds is still `<= 0 < len(text)`, so the loop never stops on non-empty text |
| Chunker.ChunkCount | build_embeddings.py:25-32 | the number of chunks is `ceil(len/(C−O))`, and it is zero exactly for the empty text |
| Chunker.ChunkContents | build_embeddings.py:28-31 | chunk `i` is `text[i*(C−O) : i*(C−O)+C]` clipped to the end, starting below `len(text)` |
| Chunker.ChunksBounded | build_embeddings.py:28-31 | every chunk is non-empty and at most `C` long |
| Chunker.OneChunk | build_embeddings.py:28-31 | for `0 < len <= C−O` the result is `[text]` |
| Chunker.TwoChunks | build_embeddings.py:28-31 | for `C−O < len <= C` (and `len <= 2(C−O)`) the result is `[text, text[C−O:]]` |
| Chunker.Reconstruction | build_embeddings.py:25-32 | the first chunk followed by every later chunk minus its first `O` characters gives back the text |
| Chunker.OverlapAgrees | build_embeddings.py:29-31 | a full-length chunk's last `O` characters are the next chunk's first `O` |
| Chunker.PartitionFlattens | build_embeddings.py:106-107 | windows with no overlap (the batches) concatenate back to the input |
| Records.Layout | crawl.py:72-75 | the four writes of `save_article`: metadata header line, JSON dump, blank line, content header, blank line, text |
| Records.SecondPart | build_embeddings.py:53 | `split(D)[1]` is the slice that starts after the first delimiter, has no delimiter starting inside it, and ends where the next delimiter starts or at the end of the file |
| Records.ParseRecord | build_embeddings.py:51-62 | the `try` body and its `except` fallback: placeholder metadata and the whole file when there is no delimiter or the JSON does not decode; its cases are stated by the three lemmas below |
| Records.FallbackWithoutDelimiter | build_embeddings.py:51-62 | without the content delimiter, `split(D)[1]` raises and the record is the whole file stripped, with placeholder metadata |
| Records.ParseSucceeds | build_embeddings.py:51-62 | with a first delimiter at `i` and a metadata part that decodes to `m`, the record is `(strip(split(D)[1]), m)` |
| Records.FallbackOnBadJson | build_embeddings.py:55-62 | when the metadata part does not decode, the record is the whole file stripped, with placeholder metadata |
| Records.RoundTrip | crawl.py:71-75 | parsing the writer's layout returns the saved metadata and `text.strip()`, if the JSON has neither delimiter, the text has no content delimiter, and decoding inverts the dump |
| Records.ReadText | build_embeddings.py:48-49 | reading in text mode leaves no carriage return, never lengthens the file, and leaves a file without carriage returns unchanged |
| Records.ReadSplit | build_embeddings.py:48-49 | reading a concatenation is the concatenation of the reads, unless the split falls between the `\r` and the `\n` of a pair |
| Records.ReadCrLf | build_embeddings.py:48-49 | a `\r\n` pair anywhere in the file is read as one `\n` |
| Records.ReadLoneCr | build_embeddings.py:48-49 | a `\r` not followed by `\n` is read as `\n` |
| Records.ReadTextAppend | build_embeddings.py:48-49 | a prefix without carriage returns is read unchanged, whatever follows it |
| Records.ReadRecord | build_embeddings.py:48-62 | one `.txt` file of `load_documents`: its contents read in text mode, then parsed by `ParseRecord` |
| Records.ReadKeepsAbsent | build_embeddings.py:48-49 | reading creates no occurrence of a pattern that has no line break |
| Records.ReadLayout | build_embeddings.py:48-49 | reading the writer's layout translates the line endings of the text only, when the dump has no carriage return |
| Records.ReadBack | build_embeddings.py:48-62 | reading and parsing the writer's layout returns the saved metadata and the stripped, newline-translated text, under `RoundTrip`'s conditions and a dump without carriage returns |
| Records.LoadDocuments | build_embeddings.py:39-64 | the listing loop returns the records of the `.txt` files, each read with newline translation and parsed, in listing order |
| Records.LoadedDocumentsAre | build_embeddings.py:42-62 | the documents are exactly the read-and-parse results of the `.txt` entries, one per entry, in order |
| Records.TxtFiles | build_embeddings.py:42-44 | the selected entries all end in `.txt` and every `.txt` entry is selected |
| Records.TxtFilesAppend | build_embeddings.py:42-44 | selecting from two listings in a row is selecting from each, in order |
| Records.TxtFilesSingle | build_embeddings.py:42-44 | one entry is selected, once, exactly when its name ends in `.txt` |
| Corpus.AllMetadata | build_embeddings.py:88-96 | `all_metadata` has the length of `all_chunks` |
| Corpus.BuildChunkArrays | build_embeddings.py:88-96 | the nested loops build `all_chunks` and `all_metadata` as the per-document chunks and metadata copies, of equal length |
| Corpus.Locate | build_embeddings.py:92-96 | position `j` of both arrays comes from one document `d` and its chunk `c`: `all_chunks[j]` is that chunk and `all_metadata[j]` is `d`'s metadata |
| Corpus.LocateOrdered | build_embeddings.py:92-96 | positions are ordered by document, then by chunk |
| Corpus.EveryChunkPlaced | build_embeddings.py:92-96 | every chunk of every document occupies some position |
| Corpus.NoChunksIffEmptyTexts | build_embeddings.py:92-96 | there are no chunks exactly when every document text is empty |
| Corpus.EmbedAll | build_embeddings.py:101-109 | the batch loop's `embeddings` is the concatenation of the embedder's outputs for the batches, in order |
| Corpus.BatchesPartition | build_embeddings.py:106-107 | batches are non-empty, hold at most 50 chunks, and concatenate to `all_chunks` |
| Corpus.EmbedBatchesLength | build_embeddings.py:108-109 | with one vector per input, the output has one vector per batched text |
| Corpus.EmbeddingsAligned | build_embeddings.py:104-109 | with one vector per input, `len(embeddings) == len(all_chunks)` |
| Corpus.PointwiseEmbedding | build_embeddings.py:104-109 | an embedder that maps each text on its own yields, at position `j`, the vector of chunk `j` |
| Corpus.BuildIndex | build_embeddings.py:86-111 | the build fails at `embeddings[0]` exactly when every document text is empty; otherwise the three arrays align and `dimension` is the first vector's length |
| Crawler.IsAllowedDomain | crawl.py:44-46 | true iff some allowed domain occurs at some position of the netloc |
| Crawler.AllowedAnywhere | crawl.py:44-46 | an allowed domain with anything before or after it passes, so the test is containment, not suffix |
| Crawler.LookalikeHostAccepted | crawl.py:44-46 | `dangcongsan.vn.example.com` passes the filter |
| Crawler.ShortNetlocRejected | crawl.py:44-46 | a netloc shorter than `dangcongsan.vn` fails the filter |
| Crawler.Accepted | crawl.py:112-116 | a fetched page is kept iff its text has at least 500 characters and contains a keyword |
| Crawler.ContainsKeywords | crawl.py:49-51 | true iff some lower-cased keyword is a substring of the lower-cased text |
| Crawler.KeywordFound | crawl.py:49-51 | with character-wise lower-casing, a text containing a keyword as written passes |
| Crawler.GenerateFilename | crawl.py:60-62 | the name is the URL's digest followed by `.txt` |
| Crawler.SameFileIffSameDigest | crawl.py:60-62 | two URLs target the same file iff their digests agree; the same URL always targets the same file |
| Crawler.SaveArticle | crawl.py:65-75 | the file named after `metadata["url"]` holds the metadata header, the JSON dump, the content header and the text; no other file changes |
| Crawler.SameUrlOverwrites | crawl.py:68-71 | saving twice with the same URL leaves only the second record |
| Crawler.SavedArticleLoads | crawl.py:68-75 | a saved article's file ends in `.txt` and is read back as its stripped, newline-translated text and its metadata |
| Crawler.ArticleMetadata | crawl.py:118-122 | the record of a saved page: `source` is the link's netloc, `url` the link, `crawl_time` the clock reading |
| Crawler.CandidateLinks | crawl.py:94-99 | the anchor loop raises iff some anchor fails to resolve; otherwise the candidate set holds exactly the resolved anchor targets that pass the domain filter |
| Crawler.CollectLinks | crawl.py:94-99 | the anchor loop builds exactly the candidate set, or raises exactly when `CandidateLinks` says so |
| Crawler.VisitLinks | crawl.py:101-129 | at most 30 saves; each saved link was fetched and accepted and saved once; below the cap no accepted link is missed; the directory is the saves in order |
| Crawler.VisitLink | crawl.py:105-129 | one round of the loop saves the link, as article number `count`, exactly when its page was fetched and is accepted; the saved-from and none-missed facts extend to the visited link, and the directory stays the saves in order |
| Crawler.CrawlSource | crawl.py:84-129 | `crawl_source` raises exactly when the seed page was fetched and one of its anchors fails to resolve; a failed seed fetch or a raise saves nothing; otherwise saved links are distinct candidates whose fetched text is at least 500 long and has a keyword, at most 30 of them, all accepted candidates when fewer than 30, and the directory holds their records |
| Crawler.SavedRecordKept | crawl.py:118-124 | the `i`-th saved article's file holds its record (source, url, crawl time) unless a later save reused the file name |
| Crawler.CrawledArticleLoads | crawl.py:118-124 | each crawled article is read back by the indexer with its stripped, newline-translated text and `{source: netloc, url: link, crawl_time}` |
| Query.RunEnd | app.py:28 | the greedy `[^&?/]+` run ends at the end of the URL or at the first `&`, `?` or `/` |
| Query.FindMatch | app.py:28 | the scan returns the leftmost position where the pattern matches, or none |
| Query.ExtractVideoId | app.py:27-29 | an id exists iff the pattern matches somewhere; it is non-empty and free of `&?/`; it is the maximal run after the prefix at the leftmost match (`LeftmostId`) |
| Query.ShortLinkId | app.py:28 | `youtu.be/abc?t=5` gives `abc` |
| Query.WildcardInShortLink | app.py:28 | the `.` matches any character: `youtuXbe/abc` gives `abc` |
| Query.EmptyRunSkipped | app.py:28 | in `v=&v=xy` the first `v=` has an empty run and the id is `xy` |
| Query.NewlineBreaksShortLink | app.py:28 | `.` does not match a newline: `youtu\nbe/abc` gives no id |
| Query.TranscriptsAppend | app.py:35-44 | the collected transcripts of a concatenated URL list are the two collections in order |
| Query.TranscriptsSingle | app.py:36-51 | one URL contributes its joined segments if it has an id and a transcript, and nothing otherwise |
| Query.LoadYoutube | app.py:32-53 | the result is the newline-join of the space-joined transcripts, in input order, skipping failures |
| Query.PageTexts | app.py:14-23 | the page texts exist iff every fetch succeeds, one per URL in order |
| Query.LoadWebsites | app.py:11-25 | fails iff some fetch fails; otherwise the newline-join of the page texts |
| Query.BuildContext | app.py:55-64 | web part before YouTube part, each only if its list is non-empty, newline-joined; `""` when both are empty; a web fetch failure propagates |
| Query.Prompt | app.py:71-85 | the `ask_llm` prompt: the rules with the quoted refusal sentence, the `<CONTEXT>` block, then `Câu hỏi: ` and the question; its layout is stated by the three lemmas below |
| Query.ContextEnclosed | app.py:80-82 | the context stands verbatim at a fixed offset, right after the `<CONTEXT>` line and right before the `</CONTEXT>` line |
| Query.QuestionLast | app.py:84-85 | the prompt ends with `Câu hỏi: ` and the question |
| Query.RefusalInstructed | app.py:77-78 | the prompt contains the quoted refusal sentence |
| Query.ContextRecoverable | app.py:71-85 | for a fixed question, different contexts give different prompts |
| Query.PublicPrompt | app.py:98-104 | the `ask_llm_public` prompt: one instruction line, the context, then `Câu hỏi: ` and the question |
| Query.PublicPromptLayout | app.py:98-104 | the public prompt is its instruction, the context verbatim, then the labelled question |

## Left out

- HTTP, HTML parsing and `clean_text` (crawl.py:54-57, 88-110, app.py:15-22) are I/O and a foreign library. Each page is the result of a fetch function.
- `urljoin` and `urlparse(..).netloc` are library calls, passed in as functions. `urljoin` returns `None` where resolving an anchor raises `ValueError`, either in `urljoin` itself or in the `urlparse` of the result inside `is_allowed_domain` (crawl.py:45, 97-98). The netloc of a link is total: a link in the candidate set already parsed once, so the `urlparse` of crawl.py:119 cannot raise for it.
- The `__main__` loop of crawl.py (136-140) calls `crawl_source` once per seed in `START_URLS`. It is not modelled. Since it has no `try`, a raise in one `crawl_source` (`CrawlSource`'s `raised`) stops the crawl of the remaining seeds.
- md5 is an abstract function. Digest collisions, behind `SavedRecordKept`'s requirement, are not excluded.
- `json.dumps(.., ensure_ascii=False, indent=2)` and `json.loads` are abstract. Metadata is a map from strings to strings, which is all the crawler writes. A decoder result that is not such a map is not represented.
- Records.RoundTrip: it assumes the decoder inverts the dump and that the dump mentions no delimiter; nothing about the JSON format is proved.
- Python `str.lower` is an arbitrary function on strings, applied to text and keywords alike. It is not Unicode case mapping.
- Crawler.KeywordFound: it holds only for a character-wise lower-casing.
- The iteration order of the Python set of links is unspecified. `VisitLinks` picks the next link non-deterministically, so its contract holds for every order.
- `time.strftime` is the parameter `clock`, read at the `n`-th save. `time.sleep` and `print` are left out.
- File-system errors inside `save_article` are left out. They would be caught by the `except` in `crawl_source` without incrementing the count; in the model a save always succeeds.
- Chunker.SplitText: it requires `overlap < chunk_size` for non-empty text, because the source loops forever there (see `NeverTerminates`). A negative `chunk_size` (the parameter is a `nat`) is not modelled.
- Chunker.TwoChunks: it carries the extra bound `len <= 2(C−O)`, without which a third window can start. With the indexer's 800/150 configuration the bound is implied (`len <= 800 <= 1300`).
- Chunker.Reconstruction and Chunker.OverlapAgrees: both are stated for a non-negative overlap. With a negative overlap the code skips characters between windows.
- `os.listdir` has no specified order. The directory listing is a sequence of (name, stored characters) pairs given as input. Reading a file (build_embeddings.py:48-49) is `ReadText`, the universal-newline translation of text mode; decoding UTF-8 is not modelled, since files are already character sequences. A file that is not valid UTF-8 makes `f.read()` raise outside the `try` and aborts `load_documents`; that abort is not represented.
- `save_article` writes in text mode, which on a platform whose line separator is not `\n` turns each `\n` into that separator. The model writes the characters unchanged, as on POSIX; `ReadText` maps a `\r\n` written there back to `\n`.
- Crawler.SavedArticleLoads and Crawler.CrawledArticleLoads: they require the JSON dump to contain no carriage return. `json.dumps` escapes control characters, so this holds of the real dump, but the dump is abstract here.
- The embedder (build_embeddings.py:71-76) is abstract. `BuildIndex` requires it to return one vector per input.
- faiss, numpy, `write_index` and the `metadata.json` dump (build_embeddings.py:112-123) are foreign libraries over floats. Only the arrays they receive are modelled.
- The transcript service call (app.py:41-43, with its language preference) is a function returning the segment texts or `None`. `TranscriptsDisabled` and other exceptions are one case.
- The chat calls in `ask_llm` and `ask_llm_public` (app.py:87-92, 106-115) are external, along with their model name, temperature and system message. Only the prompts are modelled.
- `build_context`'s default `None` and an empty list are both falsy, and both are the empty sequence here.
- web.py is a user interface and is not part of this model.
