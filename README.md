# Chunking and retrieval ranking of the RAG assistant

This project is a Dafny model of the text-processing core of `data.py`, a
retrieval-augmented question-answering assistant. The assistant splits
support tickets into tagged chunks, ranks stored chunks against a query
and packs the best of them into a context window under a token budget.
The model covers the deterministic list and string processing between the
tokenizer, the vector store and the language model:

- **Tokens** (`tokens.dfy`). `token_len` is the parameter `tok: string -> nat`
  of every member that measures text. Nothing is assumed about it. In
  particular, the tokens of a concatenation are not assumed to be the sum
  of the tokens of its parts.
- **Text** (`text.dfy`). Python's `str.isspace` (the full table of 29 code
  points), `str.strip`, `sep.join`, the substring test `k in s` and
  `str.lower` on ASCII, Latin-1 and Latin Extended-A, and on U+0130, the
  Kelvin sign and the Angstrom sign.
- **Segmenter** (`segmenter.dfy`). `split_into_paragraphs` and
  `split_into_sentences`. Each `re.split` is modelled as Python's
  leftmost-match scan for its own pattern: `\n\s*\n`, whose greedy `\s*`
  backtracks to the last line feed of the whitespace run, and
  `(?<=[.!?])\s+`.
- **Topics** (`topics.dfy`). `TOPIC_MAP` as a sequence in declaration order,
  `DEFAULT_LABEL`, `SPECIAL_KEYWORDS` and `detect_topic_label`.
- **Sentence chunker** (`sentence_chunker.dfy`). `_chunk_sentences` is a
  method with the loop over the buffer `cur` and its running length
  `cur_len`. It is proved equal to a function of the loop's own state.
  That function is then proved equal to a description of its output as
  windows `(lo, hi)` of consecutive sentences.
- **Hybrid chunker** (`hybrid_chunker.dfy`). `hybrid_chunk`, with its loop
  over paragraphs and its three outcomes per paragraph.
- **Packer** (`packer.dfy`). `pack_chunks_by_token_budget`, the greedy prefix
  packer with its fallback when no budget is left.
- **Stable sort** (`stable_sort.dfy`). Python's stable `sort` with
  `reverse=True` on scored pairs.
- **Retrieval** (`retrieval.dfy`). The ranking parts of
  `retrieve_top_ticket_ids` and `retrieve_chunks_for_ticket`, once the
  database has returned its rows.
  - Stage 1 sums the scores per ticket in the dictionary `agg`, then keeps
    the `top_tickets` best tickets.
  - Stage 2 sorts one ticket's rows in place, in an `array`.
- **Context assembler** (`context.dfy`). `build_context_for_tickets`:
  per-ticket blocks, the empty context, the check that all blocks fit,
  truncation at block level and the fallback to the packer.

The vector store is an input. Stage 1 takes its candidate rows
`(score, source_id)`, and `source_id` may be NULL. The context assembler
takes a function `fetch` from ticket id to that ticket's rows
`(score, content)`.

### Sentence chunks can exceed `max_tokens`

A sentence chunk can exceed `max_tokens` even when every one of its
sentences is within the limit. After a flush, data.py:199 reseeds the
buffer with `cur[-overlap:] + [s]` and makes no budget check on it. Here
`overlap = max(10, int(max_tokens * 0.15))` counts sentences, so the
reseeded buffer is usually the whole flushed buffer plus the new sentence.
The next flush emits it as it is. `SentenceChunker.ChunkOverBudget` shows
such a chunk, built only from sentences within the limit. For the same
reason, the model proves no token bound on sentence chunks.

## Model

| member | source | states |
|---|---|---|
| Packer.PackChunksByTokenBudget | data.py:109-137 | the greedy loop over `out` and `used` returns `Pack`: the first piece (or nothing) when the budget is not positive, otherwise the longest prefix whose charge fits, joined by the separator |
| Packer.Pack | data.py:109-137 | what `pack_chunks_by_token_budget` returns; no contract of its own: `PackChunksByTokenBudget` returns it and `PackNoBudget`, `PackWithinBudget` and `PackSingle` state its cases |
| Packer.Budget | data.py:119 | `model_max_context - token_len(header) - reserve_for_answer`; no contract of its own, used by `PackNoBudget` and `PackWithinBudget` |
| Packer.Cost | data.py:126-133 | what the loop charges for the accepted pieces; no contract of its own: `CostClosedForm` and `CostMonotone` state its properties |
| Packer.GreedyIsLongest | data.py:128-135 | stopping at the first rejected piece yields exactly the longest prefix whose charge fits the budget |
| Packer.CostClosedForm | data.py:126-133 | the charge of the accepted pieces is their token sum plus `token_len(sep)` for every join after the first |
| Packer.CostMonotone | data.py:128-133 | a longer prefix is never charged less, which is why the first rejection ends the packing |
| Packer.LongestFit | data.py:128-135 | the prefix length it returns fits the budget and no longer prefix does |
| Packer.PackNoBudget | data.py:119-122 | with `budget <= 0` the result is the first chunk, or `""` when there are no chunks |
| Packer.PackWithinBudget | data.py:119-137 | with a positive budget the result is the separator join of a prefix whose charge fits, and every longer prefix would not fit |
| Packer.PackSingle | data.py:118-137 | a single piece is kept when no budget is left or when its tokens fit the budget, and is dropped (`""`) otherwise |
| Text.Strip | data.py:144 | `strip()` yields a trimmed slice; only whitespace lies outside it; it is empty exactly when the text is all whitespace |
| Text.JoinSnoc | data.py:496 | joining one more part appends the separator and that part, except after no parts |
| Text.Join | data.py:496 | `sep.join(parts)`; no contract of its own: `JoinSnoc` states how it grows |
| Text.Contains | data.py:169 | the substring test `k in low`; no contract of its own: `Topics.ContainsAt` states that an occurrence at a position is a hit |
| Text.NonSpaceStrip | data.py:144 | `strip()` removes whitespace only: the other characters of the text are kept, in order |
| Tokens.SumTok | data.py:200 | `sum(token_len(x) for x in cur)`; no contract of its own: `ChunkSentences` proves `cur_len` equal to it after every sentence |
| CaseFold.LowerConcat | data.py:167 | the model lowers code point by code point, so lowering a concatenation lowers each part (Python's context-dependent final sigma is not modelled) |
| CaseFold.LowerPointwise | data.py:167 | a text without U+0130 keeps its length, and each code point lowers to its own lower-case form |
| Segmenter.MatchAt | data.py:144-149 | a match of either split pattern is non-empty and consists of whitespace only |
| Segmenter.Split | data.py:144-149 | `re.split(pattern, t)`; no contract of its own: `SplitSpansTile`, `SplitSpansNonSpace` and `SplitPiecesHaveNoMatch` state its properties |
| Segmenter.SplitSpansTile | data.py:144-149 | the pieces tile the text: the first starts where the split starts, the last ends at the end of the text, and consecutive pieces are separated by exactly one match of the pattern |
| Segmenter.SplitSpansNonSpace | data.py:144-149 | the pieces, read in order, hold exactly the characters of the text that are not whitespace, in order |
| Segmenter.StripNonEmptySnoc | data.py:144 | the comprehension is an ordered filter: one more piece appends its strip, unless the piece is blank |
| Segmenter.StripNonEmptyAppend | data.py:144 | the comprehension treats each piece on its own: on concatenated piece lists it gives the concatenated results |
| Segmenter.StripNonEmptyNonSpace | data.py:144 | the kept strips, read in order, hold exactly the characters of the pieces that are not whitespace, in order |
| Segmenter.ParagraphsKeepText | data.py:143-144 | the paragraphs, read in order, hold exactly the characters of the text that are not whitespace, in order: nothing is lost or moved |
| Segmenter.BlankLineMatchIff | data.py:144 | `\n\s*\n` matches at a position exactly when two line feeds with only whitespace between them start there |
| Segmenter.SplitSpans | data.py:144-149 | the pieces of `re.split` are never zero in number and lie inside the text; `SplitSpansTile` and `SplitSpansNonSpace` state how they tile it |
| Segmenter.StripNonEmpty | data.py:144-149 | the comprehension keeps non-empty trimmed strips of pieces, and keeps none exactly when every piece is whitespace; `StripNonEmptySnoc` states that it keeps them in order |
| Segmenter.Paragraphs | data.py:143-144 | every paragraph is non-empty and trimmed |
| Segmenter.CollapseFrom | data.py:148 | `re.sub(r"\s+", " ", ...)` from a position leaves only single spaces, never two in a row, and starts with a space exactly where the text starts with whitespace |
| Segmenter.Collapse | data.py:148 | `re.sub(r"\s+", " ", ...)` on the whole text leaves only single spaces; `CollapseSplice` states that each run becomes one space |
| Segmenter.CollapseNonSpace | data.py:148 | collapsing whitespace changes whitespace only: the other characters are kept, in order |
| Segmenter.CollapseShift | data.py:148 | collapsing from a position depends only on the text from that position on |
| Segmenter.CollapseAppend | data.py:148 | text that does not end in whitespace and what follows it collapse separately, and the results are concatenated |
| Segmenter.CollapseRun | data.py:148 | a non-empty whitespace run before text that does not start with whitespace becomes exactly one space |
| Segmenter.CollapseSplice | data.py:148 | a whole whitespace run between two texts becomes one space, and each side collapses on its own |
| Segmenter.CollapseCons | data.py:148 | a leading character that is not whitespace is kept as it is |
| Segmenter.Sentences | data.py:147-149 | every sentence is non-empty and trimmed |
| Segmenter.SentencesKeepText | data.py:147-149 | the sentences, read in order, hold exactly the characters of the paragraph that are not whitespace, in order |
| Segmenter.SplitKeepsNonSpace | data.py:144-149 | every character that is not whitespace lies in some piece of the split |
| Segmenter.SplitAllSpace | data.py:144-149 | all pieces are whitespace exactly when the text is |
| Segmenter.ParagraphsEmpty | data.py:143-144 | `split_into_paragraphs` returns nothing exactly for blank text |
| Segmenter.SplitPiecesHaveNoMatch | data.py:144-149 | no piece of the split contains a position where the pattern matches |
| Segmenter.StrippedPieceHasNoMatch | data.py:144-149 | a stripped piece holds no match of its pattern |
| Segmenter.ParagraphsHaveNoBlankLine | data.py:143-144 | no paragraph contains a blank line |
| Segmenter.SingleParagraph | data.py:143-144 | a trimmed non-empty text without a blank line is one paragraph |
| Segmenter.ParagraphsIdempotent | data.py:143-144 | splitting a paragraph into paragraphs again gives back that paragraph alone |
| Segmenter.SentencesEmpty | data.py:147-149 | `split_into_sentences` returns nothing exactly for blank text |
| Segmenter.SentencesSingleSpaced | data.py:148-149 | every sentence has only single spaces as whitespace |
| Segmenter.SingleSentence | data.py:147-149 | a trimmed, single-spaced text without a sentence boundary is one sentence |
| Segmenter.SentencesIdempotent | data.py:147-149 | splitting a sentence into sentences again gives back that sentence alone |
| Topics.DetectInFirstHit | data.py:168-170 | the search returns the bracketed label of the first entry whose keywords hit |
| Topics.DetectInNoHit | data.py:168-171 | when no entry hits, the search returns `DEFAULT_LABEL` |
| Topics.DetectIn | data.py:168-171 | the loop over `TOPIC_MAP.items()`; no contract of its own: `DetectInFirstHit` and `DetectInNoHit` state its two outcomes |
| Topics.DetectTopicLabel | data.py:166-171 | `detect_topic_label`; no contract of its own: `DetectTopicLabelSpec`, `NonDefaultIffSpecial` and `DetectTopicLabelRange` state its properties |
| Topics.SpecialIffSomeEntry | data.py:155-163 | a keyword of `SPECIAL_KEYWORDS` occurs exactly when some entry's keyword occurs |
| Topics.DetectTopicLabelSpec | data.py:166-171 | the label is that of the first entry in declaration order with a keyword in the lower-cased text, else `DEFAULT_LABEL` |
| Topics.LabelsDiffer | data.py:155-162 | no entry's bracketed label equals `DEFAULT_LABEL` |
| Topics.NonDefaultIffSpecial | data.py:163-171 | the label differs from `DEFAULT_LABEL` exactly when a special keyword occurs in the lower-cased text |
| Topics.DetectTopicLabelRange | data.py:166-171 | the label is `DEFAULT_LABEL` or the bracketed name of a table entry |
| Topics.ExampleDeclarationOrder | data.py:155-170 | for "Invoice LOGIN" both the login and the billing entry hit, and the login entry, declared first, wins |
| Topics.ExampleDottedCapitalI | data.py:166-170 | "BELÉPNİ" lowers to "belépni" followed by U+0307, so the login keyword "belépni" hits |
| Topics.ExampleKelvinSign | data.py:166-170 | "FIÓ" followed by the Kelvin sign U+212A lowers to "fiók", so the login keyword "fiók" hits |
| SentenceChunker.Overlap | data.py:178 | `max(10, int(max_tokens * 0.15))`: the overlap is 10, or, when that is more, the largest whole number within 15% of `max_tokens` |
| SentenceChunker.Advance | data.py:183-200 | one turn of the loop; no contract of its own: `Step` and `ReseedBuffer` state what a turn does |
| SentenceChunker.Scan | data.py:183-200 | the loop state after each sentence; no contract of its own: `ScanMirrors` relates it to the windows |
| SentenceChunker.Chunks | data.py:177-205 | what `_chunk_sentences` returns; no contract of its own: `ChunkSentences` returns it and `ChunksAreWindows`, `WindowsShape` and `WindowsCover` describe it |
| SentenceChunker.ChunkSentences | data.py:177-205 | the loop over `cur` and `cur_len` returns the chunks of the state-by-state scan (`Chunks`), with `cur_len` the token sum of `cur` throughout |
| SentenceChunker.Step | data.py:183-200 | each turn keeps the emitted windows inside the sentences and moves the buffer start no further than just past the current sentence |
| SentenceChunker.ReseedBuffer | data.py:199 | `cur[-overlap:] + [s]` is the last `min(overlap, len(cur))` sentences of the flushed buffer followed by the current sentence |
| SentenceChunker.ScanMirrors | data.py:183-200 | after every sentence the loop's chunks are the texts of the emitted windows and its buffer is the run of sentences of the open window |
| SentenceChunker.ChunksAreWindows | data.py:183-205 | chunk `k` of `_chunk_sentences` is the sentences of window `k` joined by single spaces |
| SentenceChunker.WindowsShape | data.py:183-205 | there are no windows exactly when there are no sentences; none is empty (no chunk from an empty buffer); they run from the first to the last sentence; each starts `min(overlap, len)` sentences before its predecessor's end, or right after it around an oversized sentence; an oversized sentence is a window of its own |
| SentenceChunker.WindowsCover | data.py:183-205 | every sentence lies in some window, and an oversized sentence is exactly one window |
| SentenceChunker.ChunkOverBudget | data.py:194-200 | with one token per character and `max_tokens = 1`, the sentences "a" and "b" give the chunks "a" and "a b", and "a b" exceeds the limit |
| HybridChunker.TagEach | data.py:224-225 | the inner loop appends each sentence chunk with its own label |
| HybridChunker.HasSpecialKeyword | data.py:211-214 | `any(k in low for k in SPECIAL_KEYWORDS)`; no contract of its own: `Topics.NonDefaultIffSpecial` ties it to the label |
| HybridChunker.Tag | data.py:215 | `f"{detect_topic_label(para)} {para}"`; no contract of its own: `HybridChunksTagged` states what every tagged chunk looks like |
| HybridChunker.ParagraphChunks | data.py:210-225 | the chunks of one paragraph; no contract of its own: `ParagraphKeptWhole`, `ParagraphSplit` and `ParagraphChunksNonEmpty` state its cases |
| HybridChunker.HybridChunks | data.py:208-227 | what `hybrid_chunk` returns; no contract of its own: `HybridChunk` returns it and `HybridChunksTagged`, `HybridChunksEmpty` and `RechunkParagraph` state its properties |
| HybridChunker.ChunkParagraph | data.py:210-225 | one paragraph's chunks: the whole paragraph tagged when it has a special keyword or fits, otherwise its sentence chunks, each tagged |
| HybridChunker.HybridChunk | data.py:208-227 | the paragraph loop returns the paragraphs' chunks concatenated in paragraph order |
| HybridChunker.ChunkPrefixFlatten | data.py:210-225 | the chunks of the first `n` paragraphs are their per-paragraph chunk lists concatenated |
| HybridChunker.HybridChunksTagged | data.py:208-225 | every chunk is `detect_topic_label(x) + " " + x` for some text `x`, with a label that is `DEFAULT_LABEL` or a table entry's |
| HybridChunker.ParagraphKeptWhole | data.py:213-221 | a paragraph with a special keyword or within the limit gives exactly one chunk, the whole paragraph tagged, and its label is not the default exactly when it has a special keyword |
| HybridChunker.ParagraphSplit | data.py:223-225 | an overlong paragraph without a special keyword gives one chunk per sentence window, in order, and chunk `w` is window `w`'s sentences joined by single spaces and tagged; every sentence lies in one of those windows |
| HybridChunker.ParagraphChunksNonEmpty | data.py:210-225 | a paragraph that is not blank contributes at least one chunk |
| HybridChunker.HybridChunksEmpty | data.py:208-227 | `hybrid_chunk` returns no chunk exactly for blank text |
| HybridChunker.RechunkParagraph | data.py:208-225 | chunking one paragraph of a text on its own gives exactly the chunks it got inside the text |
| HybridChunker.ShortParagraphOneChunk | data.py:218-221 | a single short paragraph without a special keyword is one chunk tagged `DEFAULT_LABEL` |
| StableSort.WithScore | data.py:459 | the pairs of one score, all of that score and no more than the input |
| StableSort.SortDesc | data.py:459 | the stable descending sort, by insertion; no contract of its own: `SortDescSortedPerm`, `SortDescStable` and `SortDescUnique` state its properties |
| StableSort.SortDescSortedPerm | data.py:459 | the sort is non-increasing by score and a permutation of its input |
| StableSort.SortDescStable | data.py:459 | pairs of equal score keep their input order |
| StableSort.SortDescUnique | data.py:459 | any non-increasing permutation that keeps the order of equal scores is this sort's result |
| StableSort.SortDescTieOrder | data.py:459 | two outputs of equal score come from input positions in the same order |
| Retrieval.SliceEnd | data.py:427 | `[:top_tickets]` keeps `min(top_tickets, len)` items for a non-negative count, and counts from the end for a negative one |
| Retrieval.Ids | data.py:417-422 | the keys of `agg`; no contract of its own: `IdsDistinct`, `IdsMembers` and `IdsPrefix` state its properties |
| Retrieval.Total | data.py:417-422 | the value of `agg` for a ticket; no contract of its own: `TotalSnoc` and `TotalAbsent` state its properties |
| Retrieval.TopTicketIds | data.py:425-428 | what stage 1 returns; no contract of its own: `RetrieveTopTicketIds` returns it and `TopTicketIdsSpec`, `TopTicketIdsBest`, `TopTicketIdsTieOrder` and `TopTicketIdsTieCut` describe it |
| Retrieval.RetrieveTopTicketIds | data.py:416-428 | the aggregation loop over `agg` and the sort and slice return `TopTicketIds`: the first `top_tickets` tickets by summed score |
| Retrieval.IdsDistinct | data.py:417-422 | the dictionary holds each ticket once |
| Retrieval.IdsMembers | data.py:418-422 | a ticket is a key exactly when some row carries it; NULL ids add nothing |
| Retrieval.IdsPrefix | data.py:417-422 | keys keep the order of first appearance |
| Retrieval.TotalSnoc | data.py:422 | a row adds its score to its own ticket's sum only |
| Retrieval.TotalAbsent | data.py:422 | a ticket no row carries sums to zero (`agg.get(sid, 0.0)`) |
| Retrieval.RankedItems | data.py:425-427 | the sorted items are a non-increasing permutation of the tickets, each with its own sum, no ticket twice |
| Retrieval.RankedDistinct | data.py:425-427 | no ticket appears twice in the ranking |
| Retrieval.TopTicketIdsSpec | data.py:425-428 | stage 1 returns `min(top_tickets, #tickets)` ids, no ticket twice, only tickets some row carries |
| Retrieval.TopTicketIdsBest | data.py:425-428 | the returned tickets are in non-increasing summed score, and no ticket left out outscores one that is kept |
| Retrieval.TopTicketIdsTieOrder | data.py:417-427 | tickets with equal sums come in the order of their first appearance among the rows |
| Retrieval.TopTicketIdsTieCut | data.py:417-427 | a ticket left out at the cut with the same sum as a kept one first appears among the rows after it |
| Retrieval.ExampleSumBeatsBest | data.py:416-428 | rows (0.9, A), (0.8, A), (0.85, B) with `top_tickets = 1` give `[A]` |
| Retrieval.ExampleTieFirstAppearance | data.py:416-428 | rows (0.5, A), (0.5, B) with `top_tickets = 1` give `[A]` |
| Retrieval.SortRows | data.py:459 | the in-place sort leaves the array holding the stable descending sort of its old contents |
| Retrieval.RetrieveChunksForTicket | data.py:459-460 | stage 2 returns the fetched rows permuted into non-increasing score order, equal scores in fetched order |
| Retrieval.ExampleStageTwo | data.py:459 | rows scored 0.5, 0.2, 1.0 come back as 1.0, 0.5, 0.2 |
| ContextAssembler.NatToString | data.py:478 | the rendering of a number is a non-empty string of decimal digits without leading zeros: its first digit is `0` exactly for zero |
| ContextAssembler.ParseNatToString | data.py:478 | reading back the digits of a number gives the number |
| ContextAssembler.ParseIntToString | data.py:478 | reading back `str(tid)` gives `tid`, for negative ids too |
| ContextAssembler.ParseNegative | data.py:478 | a minus sign followed by the digits of `n` reads back as `-n` |
| ContextAssembler.IntToString | data.py:478 | `str(tid)`; no contract of its own: `ParseIntToString` reads it back |
| ContextAssembler.TicketLabel | data.py:478 | `f"[TICKET {tid}]\n"`; no contract of its own: `TicketLabelInjective` states that labels differ |
| ContextAssembler.Block | data.py:477-478 | one ticket's block; no contract of its own: `BlocksSpec` states its place and content |
| ContextAssembler.BlockOf | data.py:473-479 | the block a ticket adds, if any; no contract of its own: `TicketBlock` states it |
| ContextAssembler.Blocks | data.py:471-479 | the blocks of the first loop; no contract of its own: `BlocksCount`, `BlocksSpec`, `BlockOrigin` and `CollectBlocks` state its properties |
| ContextAssembler.TicketLabelInjective | data.py:478 | different tickets get different `[TICKET {tid}]` labels |
| ContextAssembler.GatherAt | data.py:472-479 | the part of the `i`-th ticket comes right after the parts of the tickets before it |
| ContextAssembler.GatherOrigin | data.py:472-479 | every gathered element comes from the part of one ticket |
| ContextAssembler.BlocksCount | data.py:472-479 | there is one block per ticket with rows |
| ContextAssembler.BlocksSpec | data.py:472-479 | a ticket with rows owns the block after those of earlier tickets: its label, then its chunks best first, joined by the chunk separator |
| ContextAssembler.BlockOrigin | data.py:472-479 | every block is the block of one ticket that has rows |
| ContextAssembler.TicketBlock | data.py:473-479 | a ticket adds its block when its ranked rows are non-empty, and nothing otherwise |
| ContextAssembler.CollectBlocks | data.py:471-479 | the first loop returns the blocks of the tickets with rows, in ticket order |
| ContextAssembler.FirstMisfit | data.py:491-501 | every join of the leading blocks up to the returned count fits, and adding the next block does not |
| ContextAssembler.FirstMisfitUnique | data.py:491-501 | a loop that keeps blocks while they fit and stops at the first misfit keeps exactly that many |
| ContextAssembler.CandidateJoin | data.py:493-496 | the candidate tested at block `i` is the join of the first `i + 1` blocks |
| ContextAssembler.KeepFitting | data.py:491-501 | the truncating loop keeps the longest run of leading blocks whose joins all fit, stopping at the first that does not |
| ContextAssembler.BuildContextForTickets | data.py:464-507 | the method returns `Context`: empty, all blocks, the fitting leading blocks, or the packer's fallback on the first block |
| ContextAssembler.Context | data.py:464-507 | what `build_context_for_tickets` returns; no contract of its own: `BuildContextForTickets` returns it and `ContextEmpty` and `ContextOutcomes` state its cases |
| ContextAssembler.NoRowsNoBlocks | data.py:472-479 | no ticket with rows, no blocks |
| ContextAssembler.ContextEmpty | data.py:481-482 | when no ticket has rows the context is `""` |
| ContextAssembler.ContextOutcomes | data.py:481-507 | all blocks joined when they fit together; otherwise the leading blocks up to the first misfit, which themselves fit; when not even the first block fits, the packer keeps it when no budget is left or its tokens fit, and returns `""` otherwise |
| ContextAssembler.ExampleOneBlock | data.py:471-488 | tickets 3 (no rows) and 7 (rows b: 0.5, a: 0.9) give the context `[TICKET 7]` with `a` before `b` when it fits |

## Left out

- Tokenizer: tiktoken's `cl100k_base` encoding (data.py:102-106) is replaced by the parameter `tok`. No property of token counts is assumed, so nothing is proved about the token length of a joined string.
- Packer.PackChunksByTokenBudget: no bound on the token length of header plus output is stated. data.py:126-135 charges each piece plus one separator per join and never measures the joined output.
- Embedding, the database and SQL: the embedder, the query `encode`, `init_db`, `index_documents` and the two SQL queries are left out. This includes the pgvector distance, the `1 / (1 + d)` score and the `LIMIT` by `candidate_k` and `top_k`. Their rows are inputs: a sequence for stage 1, and the function `fetch` for stage 2 and the context assembler.
- `retrieve_top_ticket_ids` also returns the query embedding. The embedding is not part of this model.
- Floating point: scores are `real`. Sums and comparisons are exact, so float rounding in `agg` is not modelled.
- SentenceChunker.Overlap: `int(max_tokens * 0.15)` is modelled as `15 * max_tokens / 100`. The two agree for `0 <= max_tokens < 2000000`; above that the float product can round differently.
- CaseFold.Lower: only ASCII, Latin-1 and Latin Extended-A are lowered as Python does (the capitals U+0041 to U+005A, U+00C0 to U+00DE except U+00D7, and U+0100 to U+017E), together with U+0130 (to "i" followed by U+0307), the Kelvin sign U+212A (to "k") and the Angstrom sign U+212B (to "å"). Every other code point is kept unchanged, although Python lowers it. This includes Latin Extended-B (U+0181 to "ɓ", for one), Latin Extended Additional (U+1E02 to "ḃ"), the fullwidth forms (U+FF21 to "ａ"), Greek, Cyrillic and the other scripts. Python's context-dependent final sigma ("ΑΣ" lowers to "ας") is not modelled either; the model lowers each code point on its own. No code point left out lowers to a character that occurs in a topic keyword, so the topic search is unaffected.
- Regular expressions: only the two split patterns and the `\s+` substitution are modelled, each by its own scan. No general regex engine is modelled.
- Retrieval.SortRows: Python's timsort is not modelled step by step. The array receives the stable sort's result in one parallel assignment.
- The `print(chunks)` in `hybrid_chunk` (data.py:226) is an output side effect and is left out.
- Configuration and environment variables, logging, prompt building, the Ollama HTTP calls and the command-line interface are left out. They are plumbing and I/O.
