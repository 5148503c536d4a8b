# ClauseLens — a Dafny model of retrieval, reranking, answer selection and chunking

ClauseLens answers questions about legal documents. At ingestion time it turns each PDF into overlapping text chunks, each tagged with its page and a short section hint. At question time its `/ask` endpoint works in five steps:

1. It fuses the ids found by a dense and a lexical search into one candidate list.
2. It reranks the candidates with a cross-encoder.
3. It runs an extractive QA model over each reranked chunk and keeps the confident answers.
4. It merges answers that agree once trimmed and keeps the best three.
5. It returns one of three responses: an abstention, an extractive answer (quotes with citations) or an abstractive preview.

This project models the logic of those steps in Dafny and proves what they promise.

Every model and index call is a foreign collaborator. Its results are plain inputs to the model:

- the dense and lexical hit lists, as sequences of ids;
- the cross-encoder, as a function from the (query, text) pairs to one score per pair;
- the QA outputs, one `(answer, score)` per reranked chunk;
- the raw page texts of a PDF, with the pieces the heading split produced for each page.

Files:

- `common.dfy` (`Common`): `Option` and `Min`.
- `text.dfy` (`Text`): the Python string operations the code relies on:
  - `str.isspace` and `str.strip`;
  - `str(n)`, with its inverse;
  - `sep.join`;
  - `s[:n]`;
  - single-character `replace`.
- `order.dfy` (`Order`):
  - the order-preserving deduplicating walk (a `seen` set plus an output list);
  - Python's stable `sorted(..., reverse=True)[:t]`, as an arrangement of indices. It is proved to be the only arrangement sorted by (score descending, position ascending).
- `corpus.dfy` (`Corpus`):
  - the chunk record, a datatype;
  - the per-request copy of a record that the reranker annotates, a class with a mutable `rerankScore` field.
- `utils.dfy` (`Utils`): `clean_text`, and the page / piece / window loops of `extract_pdf_chunks`. These are written as methods proved against functions.
- `rerank.dfy` (`Rerank`): `CrossEncoderReranker.rerank`. The method writes the scores into the docs' fields in place.
- `merge.dfy` (`Merge`): the dedup-by-key dict loop of `ask`, stated over abstract keys and scores. It has two forms:
  - the literal walk (`Walk`);
  - a declarative definition: per key, in first-appearance order, the first entry with the top score (`Winners`).

  They are proved to agree.
- `app.dfy` (`App`): `hybrid_candidates`, `format_citation` and the body of `ask`:
  - pooling;
  - merging;
  - top-3 selection;
  - the abstain / extractive / abstractive responses;
  - the whole endpoint, `App.Ask`.

Where the code and its prose description differ, the model follows the code:

- An abstractive request can also abstain, because pooling runs before the mode test.
- Any mode other than exactly `"extractive"` gets the abstractive response.
- The request's `top_k` is never read. The configured `TOP_K_RERANKED` is used instead.

## Model

| member | source | states |
|---|---|---|
| Text.StripDropsSpaces | ClauseLens/utils.py:11 | `strip` removes only whitespace: everything before and after the kept slice is whitespace |
| Text.StripEnds | ClauseLens/utils.py:11 | a stripped string neither starts nor ends with whitespace |
| Text.StripStripped | ClauseLens/utils.py:11 | a string with no whitespace at either end is its own strip |
| Text.Decimal | ClauseLens/app.py:78 | `str(n)` is a non-empty run of digits with no leading zero |
| Text.DecimalRoundTrip | ClauseLens/app.py:78 | reading the decimal rendering back gives the number |
| Text.JoinFront | ClauseLens/app.py:120 | `sep.join(parts)` is the first part, a separator, then the join of the rest |
| Text.JoinLength | ClauseLens/app.py:120 | the join's length is the parts' lengths plus one separator between neighbours |
| Text.ReplaceCharAt | ClauseLens/utils.py:41 | `replace` on one character: each position holds `b` where `s` held `a`, and `s`'s character elsewhere |
| Text.ReplaceCharChars | ClauseLens/utils.py:41 | after the replacement every character is `b` or a character of `s` other than `a` |
| Text.ReplaceAbsent | ClauseLens/utils.py:41 | replacing a character that does not occur changes nothing |
| Order.DedupFromFacts | ClauseLens/app.py:68-74 | the seen-set walk keeps every element once: exactly the elements not seen before |
| Order.DedupAppend | ClauseLens/app.py:70 | walking `a + b` is walking `a`, then walking `b` with `a`'s elements already seen |
| Order.DedupSnoc | ClauseLens/app.py:70-74 | one more element is appended exactly when it was not met before |
| Order.DedupDistinctUnseen | ClauseLens/app.py:68-74 | on a list without repeats the seen-set walk only filters: it keeps exactly the unseen elements, in their order |
| Order.ConcatMember | ClauseLens/utils.py:17-45 | an element of the concatenated page results comes from one page |
| Order.Insert | ClauseLens/rerank.py:15 | inserting an index keeps the other indices and adds that one |
| Order.InsertSorted | ClauseLens/rerank.py:15 | inserting after everything that goes before it keeps the arrangement sorted |
| Order.SortPrefix | ClauseLens/rerank.py:15 | the insertion sort of the first `n` positions arranges exactly those positions |
| Order.StableOrder | ClauseLens/rerank.py:15 | the stable descending order is an arrangement of all positions |
| Order.StableOrderSorted | ClauseLens/rerank.py:15 | that order is non-increasing in score, equal scores keep input order, and no position repeats |
| Order.DroppedNoHigher | ClauseLens/rerank.py:15 | every position past the cut scores no higher than the last one kept |
| Order.SortedUnique | ClauseLens/rerank.py:15 | two arrangements of the same positions sorted by (score desc, position asc) are equal |
| Order.StableOrderUnique | ClauseLens/rerank.py:15 | any such sorted arrangement of all positions is the stable order, so the model is Python's stable sort |
| Order.Top | ClauseLens/rerank.py:15 | `sorted(...)[:t]` keeps `min(t, n)` positions, all in range |
| Order.TopFacts | ClauseLens/rerank.py:15 | the kept positions are distinct, best first, and each goes before every dropped position |
| Corpus.Doc.constructor | ClauseLens/app.py:74 | `meta[i].copy()`: the copy holds the chunk record and no rerank score yet |
| Utils.SkipBlanksFacts | ClauseLens/utils.py:9 | skipping a run of spaces and tabs leaves a suffix that starts with neither |
| Utils.CollapseBlanks | ClauseLens/utils.py:9 | collapsing blanks keeps emptiness, and a leading blank run becomes one space |
| Utils.CollapseBlanksNormal | ClauseLens/utils.py:9 | after `re.sub(r'[ \t]+', ' ', …)` there is no tab and no two spaces in a row |
| Utils.CollapseBlanksChars | ClauseLens/utils.py:9 | collapsing writes only spaces and characters of its input |
| Utils.CollapseBlanksIdentity | ClauseLens/utils.py:9 | text with no tab and no double space is left alone |
| Utils.LeadingNewlinesFacts | ClauseLens/utils.py:10 | the leading newline run is all newlines and is followed by something else |
| Utils.SqueezeNewlines | ClauseLens/utils.py:10 | squeezing keeps emptiness and the first character |
| Utils.SqueezeNewlinesNormal | ClauseLens/utils.py:10 | after `re.sub(r'\n{2,}', '\n\n', …)` there are no three newlines in a row |
| Utils.SqueezeNewlinesChars | ClauseLens/utils.py:10 | squeezing writes only characters of its input |
| Utils.SqueezeNewlinesSpaces | ClauseLens/utils.py:9-10 | squeezing newlines never brings two spaces together |
| Utils.SqueezeNewlinesIdentity | ClauseLens/utils.py:10 | text with no triple newline is left alone |
| Utils.NormaliseChars | ClauseLens/utils.py:8-9 | no non-breaking space and no tab survive the substitutions |
| Utils.NormaliseNormal | ClauseLens/utils.py:8-10 | the substituted text has no non-breaking space, tab, double space or triple newline |
| Utils.NormaliseIdentity | ClauseLens/utils.py:8-10 | text already in that normal form passes the substitutions unchanged |
| Utils.StripKeeps | ClauseLens/utils.py:11 | stripping keeps the normal form and leaves no whitespace at either end |
| Utils.SliceKeeps | ClauseLens/utils.py:11 | a slice keeps every "no such character or run" property of the whole |
| Utils.CleanTextNormal | ClauseLens/utils.py:7-11 | `clean_text` output has no `\xa0`, no tab, no two spaces or three newlines in a row, and no whitespace at either end |
| Utils.CleanTextIdempotent | ClauseLens/utils.py:7-11 | cleaning a cleaned text changes nothing |
| Utils.SpansFrom | ClauseLens/utils.py:32-45 | the windows from `start` begin at `start` and the last ends at the piece's end |
| Utils.SpansFromFits | ClauseLens/utils.py:33-35 | every window is a non-empty range inside the piece |
| Utils.SpansFromAt | ClauseLens/utils.py:34 | window `k` lies in `[start, n)`, is non-empty and at most `chunk_size` long |
| Utils.SpansFromChain | ClauseLens/utils.py:43-45 | each window but the last is full and ends before the end, and the next starts `overlap` before its end |
| Utils.SpansFromCover | ClauseLens/utils.py:32-45 | every position from `start` on lies inside some window |
| Utils.Spans | ClauseLens/utils.py:32-45 | all windows over a piece fit inside it |
| Utils.SpansEnds | ClauseLens/utils.py:32-45 | an empty piece has no windows; otherwise the first starts at 0 and the last ends at `len(piece)` |
| Utils.SpansBounds | ClauseLens/utils.py:34-35 | each window is non-empty, inside the piece and at most `chunk_size` long |
| Utils.SpansChained | ClauseLens/utils.py:45 | neighbouring windows satisfy `next.start == prev.end - overlap` |
| Utils.SpansCover | ClauseLens/utils.py:32-45 | the windows cover every position of the piece |
| Utils.SectionHint | ClauseLens/utils.py:41 | the hint has `min(120, len(piece))` characters |
| Utils.SectionHintChars | ClauseLens/utils.py:41 | the hint holds no newline and is the piece's first 120 characters with `\n` turned into a space |
| Utils.MapWindows | ClauseLens/utils.py:36-42 | one chunk record per window |
| Utils.MapWindowsAt | ClauseLens/utils.py:35-42 | record `k` is the slice of window `k`, with page `pno + 1`, the source and the piece's hint |
| Utils.ChunksFromWindows | ClauseLens/utils.py:32-45 | the records the loop emits are the records of the windows, in order |
| Utils.PieceChunksWindows | ClauseLens/utils.py:32-45 | a piece's records are the records of its windows |
| Utils.PieceChunksShape | ClauseLens/utils.py:29-45 | one record per window; none exactly for an empty piece |
| Utils.PieceChunkShape | ClauseLens/utils.py:35-41 | a piece's record: non-empty text of at most `chunk_size`, page `pno + 1` twice, the source, the piece's hint |
| Utils.SpansChunkShape | ClauseLens/utils.py:35-41 | the same for the records built from the windows |
| Utils.WindowChunks | ClauseLens/utils.py:32-45 | the `while` loop emits exactly the records of the piece's windows |
| Utils.BaseStartFacts | ClauseLens/utils.py:40 | the base-name start is just past a `/` (or at 0) with no `/` after it |
| Utils.BaseStartAt | ClauseLens/utils.py:40 | such a start is the one found |
| Utils.BasenameFacts | ClauseLens/utils.py:40 | `os.path.basename` is a `/`-free suffix of the path, preceded by `/` when shorter than the path |
| Utils.BasenameJoin | ClauseLens/utils.py:40 | the base name of `dir + "/" + name` is `name` when `name` has no `/` |
| Utils.ExtractChunks | ClauseLens/utils.py:13-47 | `extract_pdf_chunks` returns exactly the page results laid end to end, labelled with the base name |
| Utils.PageLoop | ClauseLens/utils.py:18-30 | one pass of the page loop cleans the page and emits exactly that page's chunks: none for an empty page, the whole page as one piece when the split found no heading, else the split pieces |
| Utils.PiecesLoop | ClauseLens/utils.py:27-45 | the piece loop emits exactly the windowed chunks of each stripped, non-empty piece, in piece order |
| Utils.PageChunkShape | ClauseLens/utils.py:20-42 | a chunk of page `pno` has page `pno + 1`, the source, a bounded text and hint, and comes from a non-empty cleaned page |
| Utils.PiecesChunkShape | ClauseLens/utils.py:27-42 | a chunk of a page's pieces has page `pno + 1`, the source, a non-empty text of at most `chunk_size` and a hint of at most 120 |
| Utils.PageResultShape | ClauseLens/utils.py:17-42 | a chunk of page result `k` has page `k + 1` and comes from a non-empty cleaned page |
| Utils.DocChunksShape | ClauseLens/utils.py:17-47 | every chunk of a document has `1 <= page_start == page_end <= #pages`, the source, bounded text and hint, from a non-empty page |
| Rerank.Pairs | ClauseLens/rerank.py:10 | one pair per doc |
| Rerank.PairsAt | ClauseLens/rerank.py:10 | pair `k` is the query with doc `k`'s text |
| Rerank.Rerank | ClauseLens/rerank.py:9-16 | the scorer is applied to the (query, text) pairs; each doc now carries its own pair's score; the output is `min(top_k, n)` docs, the stable descending order's prefix, non-increasing, and no dropped doc scores above the last kept |
| Merge.WinnerAt | ClauseLens/app.py:111-115 | the position kept for a key holds that key |
| Merge.WinnerBest | ClauseLens/app.py:114 | the kept entry has its key's top score, and every earlier entry with that key scores strictly less |
| Merge.WinnersAt | ClauseLens/app.py:111-116 | kept position `m` holds the `m`-th distinct key in order of first appearance |
| Merge.WinnersInRange | ClauseLens/app.py:111-116 | the kept positions are positions of the entries |
| Merge.WinnersDistinct | ClauseLens/app.py:111-116 | two kept positions hold different keys |
| Merge.WinnersCover | ClauseLens/app.py:111-116 | every key is kept somewhere |
| Merge.WinnersBest | ClauseLens/app.py:114 | a kept entry scores at least as high as every entry with its key, and strictly higher than every earlier one |
| Merge.WalkStep | ClauseLens/app.py:112-115 | one dict update keeps the walk state: a new key is appended, and a seen key's value is replaced only by a strictly higher score |
| Merge.WalkDone | ClauseLens/app.py:116 | at the end, `uniq.values()` in insertion order are the winners' values |
| Merge.WalkWinners | ClauseLens/app.py:111-115 | after any number of steps the literal dict walk equals the declarative winners |
| App.CitationLayout | ClauseLens/app.py:78 | character by character: source, ` p.`, first page, `-`, last page, ` \| `, the hint's start |
| App.CitationSlices | ClauseLens/app.py:78 | the fields as slices: the source, both page decimals, the hint prefix |
| App.CitationFields | ClauseLens/app.py:77-78 | a citation reads back: it starts with the source, both page fields parse back to the pages, and the tail is at most 80 characters beginning the hint |
| App.Citations | ClauseLens/app.py:107 | one citation per reranked chunk |
| App.CitationsAt | ClauseLens/app.py:107 | citation `k` is chunk `k`'s, in rank order |
| App.FusedFacts | ClauseLens/app.py:68-74 | the fused ids are distinct, and their set is `set(dense) ∪ set(lex)`; they are the walk over the dense ids, then the walk over the lexical ids with the dense ones already seen, at most `len(dense) + len(lex)` of them |
| App.FusedDistinctLists | ClauseLens/app.py:65-75 | when neither hit list repeats an id, the candidates are the dense ids as given, then the lexical ids the dense list lacks, in lexical order |
| App.FusedFrom | ClauseLens/app.py:70-74 | every fused id is a dense or lexical hit |
| App.DedupDistinct | ClauseLens/app.py:68-74 | a repeat-free dense list comes through whole, first |
| App.FuseStep | ClauseLens/app.py:70-74 | one loop step: a seen id adds nothing, a new one is appended and remembered |
| App.HybridCandidates | ClauseLens/app.py:65-75 | `hybrid_candidates` returns one fresh unscored copy of `meta[id]` per fused id, in fused order, all distinct objects |
| App.KeptSound | ClauseLens/app.py:89-99 | every pooled answer comes from a confident QA output over its chunk |
| App.KeptComplete | ClauseLens/app.py:89-99 | every confident QA output is pooled |
| App.KeptMembers | ClauseLens/app.py:93-94 | pooled iff the score (absent reads as 0.0) is at least the threshold and the answer is non-empty |
| App.KeptEmpty | ClauseLens/app.py:94-101 | nothing is pooled iff no QA output is confident |
| App.PoolAnswers | ClauseLens/app.py:89-99 | the pooling loop builds exactly the pooled list, in rank order |
| App.Merged | ClauseLens/app.py:111-116 | one merged answer per distinct trimmed text |
| App.MergedMember | ClauseLens/app.py:111-116 | each merged answer is a pooled one |
| App.MergedDistinct | ClauseLens/app.py:113 | merged answers have pairwise different trimmed texts |
| App.MergedCover | ClauseLens/app.py:111-115 | every pooled answer's trimmed text is represented |
| App.MergedBest | ClauseLens/app.py:114 | a merged answer scores at least as high as every answer with its trimmed text, and every answer of the group that ties it comes no earlier than it: ties keep the first |
| App.MergeUnique | ClauseLens/app.py:111-116 | the `uniq` dict loop computes exactly the merged answers |
| App.Select | ClauseLens/app.py:116 | the selection has `min(3, n)` answers |
| App.Final | ClauseLens/app.py:116 | `final` has `min(3, #distinct trimmed texts)` answers |
| App.SelectOrdered | ClauseLens/app.py:116 | the selection is non-increasing in score and drawn from the merged answers |
| App.SelectDropped | ClauseLens/app.py:116 | a merged answer left out scores no higher than any selected one |
| App.FinalPooled | ClauseLens/app.py:116 | every quote is a pooled answer |
| App.FinalSize | ClauseLens/app.py:116 | at most three quotes, and at least one when anything was pooled |
| App.FinalDistinct | ClauseLens/app.py:113-116 | no two quotes agree once trimmed |
| App.QuoteFields | ClauseLens/app.py:120 | a quote is `"`, the answer, `" [`, the citation, `]` |
| App.JoinedQuotes | ClauseLens/app.py:120 | `joined` is the first quote, then `; ` and the rest; its length is the quotes plus 2 per separator |
| App.Preview | ClauseLens/app.py:136 | the preview is at most 1203 characters, and the whole context when it has at most 1200; otherwise it is its first 1200 characters then `...` (length 1203 iff the context is longer than 1200) |
| App.Retrieved | ClauseLens/app.py:84-86 | the reranked chunks number `min(TOP_K_RERANKED, #candidates)` |
| App.RespondAbstains | ClauseLens/app.py:94-108 | the response abstains iff no QA output is confident, in either mode |
| App.AbstainCites | ClauseLens/app.py:101-108 | an abstention echoes query and mode, carries the fixed message and one citation per reranked chunk in rank order |
| App.RespondMode | ClauseLens/app.py:119-137 | once something is confident: extractive iff the mode is exactly `"extractive"`, abstractive otherwise |
| App.RespondQuotes | ClauseLens/app.py:116-126 | with a confident output and mode `"extractive"` the response is extractive, with 1 to 3 pooled quotes, best first, pairwise distinct when trimmed, joined by `; ` |
| App.ContextFront | ClauseLens/app.py:129 | `combined_ctx` is the first reranked text, then a blank line and the rest; its length is the texts plus 2 per gap |
| App.Ask | ClauseLens/app.py:80-137 | `ask` returns the response built from the fused candidates, reranked by the scorer's scores for their (query, text) pairs, and the QA outputs over the top chunks |

## Left out

- Loading the config, the metadata JSONL, the FAISS and BM25 indexes and the models, the FastAPI app, and the JSONL writer and reader (app.py:13-47, utils.py:49-59) are I/O and process setup. They are not modelled.
- The dense search (embedding plus FAISS) and BM25 `get_scores` are foreign libraries. Their hit lists are inputs.
- The order from `np.argsort(scores)[::-1][:k]` depends on an unstable sort, so ties have no specified order. It is not modelled; the lexical hit list is an input.
- `FlagReranker.compute_score` and the HF QA pipeline are foreign model calls. Their scores and answers are inputs. The `isinstance(ans, list)` unwrapping is therefore left out: a QA output is already one answer.
- Scores are reals, not floats. Only their order and the threshold comparison matter.
- PyMuPDF page extraction and the heading-split regex (utils.py:15-24) are left out: the page texts and each page's split pieces are inputs.
- `ingest.py` and `streamlit_app.py` are not part of this model.
- Utils.Basename: only POSIX paths are modelled. On Windows, `os.path.basename` also splits at `\` and after a drive colon.
- App.Ask: FAISS pads with id `-1` when fewer than `k` vectors exist, and Python would then read `meta[-1]`. The model requires every hit to be a valid index of `meta`.
- App.Ask: the assert that the index exists and `meta` is non-empty becomes the precondition `|meta| > 0`.
- App.Ask: the dense and lexical hit lists are not required to have at most `TOP_K_CANDIDATES` entries. The model accepts lists of any length.
- Rerank.Rerank: the docs must be pairwise distinct objects, which holds for the fresh copies `hybrid_candidates` makes. Aliased docs are not modelled.
- Rerank.Rerank: the scorer must return exactly one score per pair. `zip` would silently truncate a shorter score list, and a one-element score list returned as a bare number is not modelled.
- Rerank.Rerank, App.Ask, Utils.ExtractChunks: `top_k`, `TOP_K_RERANKED`, `CHUNK_SIZE` and `OVERLAP` are natural numbers. In Python a negative `top_k` in `[:top_k]` drops docs from the end instead of keeping `min(k, n)`, and a negative overlap leaves gaps between windows; neither is modelled.
- Utils.ExtractChunks: `overlap < chunk_size` is required. Without it the window loop does not terminate on a piece longer than `chunk_size` (or on any non-empty piece when `chunk_size` is 0); pieces of at most `chunk_size` characters would still end after one window.
- Utils.WindowChunks, Utils.PageLoop, Utils.PiecesLoop: the same `overlap < chunk_size` requirement applies.
- The response is a tagged datatype, not a JSON dictionary (app.py:102-137). The constant `status` and `answer_mode` entries are represented by the constructor, and the other entries are fields of the same values.
