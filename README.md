# Geological RAG system: ingestion, retrieval join and answer synthesis

This project models, in Dafny, the logic of `utils.py` in the geological
retrieval-augmented question-answering tool. It covers the parts of the file that
are not calls into external libraries:

- `normalize_text`: collapses every run of whitespace into one space, then strips
  both ends (module `Text`, file `text.dfy`).
- The chunking step of `add_document` (module `Chunker`, file `chunker.dfy`):
  - split the document wherever a run of whitespace follows `.`, `!` or `?`;
  - keep the pieces whose stripped length exceeds 40 characters;
  - normalise each kept piece.
- The store of `add_document` and `retrieve` (module `Store`, file `store.dfy`):
  - The store on disk is a `class Store` whose field `files` is either a readable
    index/metadata pair or something `load_store` cannot use.
  - `LoadStore`, `SaveStore`, `AddDocument` and `Retrieve` are methods that update
    that field.
  - `AddDocument` chunks the text and hands the chunks to `AddChunks`, the store half
    of `add_document`. `AddChunks` hashes each chunk and skips chunks whose hash is
    already stored, comparing against the hash set computed once before its loop. It
    then appends the new entries and as many index vectors.
  - `Retrieve` joins the ids returned by the index search back to the metadata list.
    It applies the source's guard `i < len(metadata)` and Python's negative
    indexing.
- `synthesize_answer` (module `Answer`, file `answer.dfy`):
  - Hits are deduplicated case-insensitively; the first occurrence wins.
  - List intent is detected by keyword.
  - The list branch numbers the evidence items shorter than 200 characters.
  - The narrative fallback joins the first four evidence texts with spaces.
  - The synthesiser is specified by pure functions (`Evidence`, `ShortItems`,
    `NumberedLines`, `Synthesis`). `SynthesizeAnswer` implements it with the
    source's loops and is proved equal to `Synthesis`.

The index is modelled only by its vector count. `hash_text` (MD5) is an arbitrary
function parameter `hash`. The embedding model and the index search together are
one parameter `search`, which returns the (id, score) candidates for a query and
`top_k`.

Four behaviours of the code may surprise a reader of it.
The model follows the code in each case:

- Chunks are meant to be the sentences longer than 40 characters. The code applies
  the length test to `s.strip()` of the raw piece (utils.py:84), before whitespace
  runs are collapsed. A piece that is long only because of an inner run of
  whitespace therefore becomes a chunk of 40 characters or fewer
  (`Chunker.LongPieceMayGiveShortChunk`).
- A document such as "This is a test sentence for the system. This one too, also
  long enough." reads like two chunks. Its sentences are 39 and 31 characters long,
  so the code keeps neither (`Chunker.ShortSentencesGiveNoChunk`).
- Hash deduplication suggests that no two stored chunks share a hash. The code checks
  each chunk only against the hashes stored before the call (utils.py:87, 94), so a
  sentence repeated within one document is stored twice
  (`Store.KeepsRepeatWithinCall`). What does hold is that no appended entry repeats
  a hash stored before the call (`Store.AddAppendsOnly`).
- The guard in `retrieve` is meant to skip ids outside the metadata list. It is only
  an upper bound; see "## Findings".

## Model

| member | source | states |
|---|---|---|
| Text.IsSpace | utils.py:23-24 | the characters Python's `\s` and `str.strip()` treat as whitespace: space, `\t` to `\r`, `\x1c` to `\x1f`, `\x85`, `\xa0`, and the Unicode space separators |
| Text.TrimStart | utils.py:24 | `str.lstrip()`: the result is a suffix of the input, the part removed is all whitespace, and the result is empty or starts with a non-space |
| Text.TrimEnd | utils.py:24 | `str.rstrip()`: the result is a prefix of the input, the part removed is all whitespace, and the result is empty or ends with a non-space |
| Text.Strip | utils.py:24 | `str.strip()`: the result has no whitespace at either end and is no longer than the input |
| Text.StripKeepsNonSpace | utils.py:24 | stripping keeps every non-whitespace character in order, so the result is empty exactly when the input is all whitespace |
| Text.StripRemovesEnds | utils.py:24 | stripping removes one leading and one trailing whitespace run and nothing else: the result is a slice of the input with only whitespace before and after it |
| Text.StripUnchanged | utils.py:24 | a string with no whitespace at either end is returned unchanged |
| Text.StripAroundSpace | utils.py:24 | stripping a string with one space between a part ending in a non-space and a part starting with a non-space strips the two parts separately and keeps the space |
| Text.Collapse | utils.py:23 | `re.sub(r"\s+", " ", t)`: never lengthens, is empty exactly when the input is, and starts with whitespace exactly when the input does |
| Text.CollapseKeepsNonSpace | utils.py:23 | collapsing keeps the non-whitespace characters in order |
| Text.CollapseSpacing | utils.py:23 | after collapsing, every whitespace character is a plain space and no two are adjacent |
| Text.CollapseShape | utils.py:23 | both of the above together |
| Text.CollapseGapThen | utils.py:23 | a whole whitespace run in front of a word becomes exactly one space |
| Text.CollapseAppend | utils.py:23 | the substitution works piece by piece across a point that follows a non-space |
| Text.CollapseLast | utils.py:23 | a final non-whitespace character is kept at the end |
| Text.Normalize | utils.py:22-24 | `normalize_text`: the result has no whitespace at either end and is no longer than the input |
| Text.NormalizeShape | utils.py:22-24 | the result is in normal form (no whitespace at the ends, only plain single spaces inside) and keeps the input's non-whitespace characters in order |
| Text.NormalizeJoin | utils.py:22-24 | a whitespace run between a part ending in a non-space and a part starting with a non-space becomes exactly one space, and the two parts are normalised on their own |
| Text.NormalFixed | utils.py:22-24 | a string already in normal form is returned unchanged |
| Text.NormalizeIdempotent | utils.py:22-24 | normalising twice equals normalising once |
| Text.CollapseNormal | utils.py:23 | collapsing a string with single plain spaces only changes nothing |
| Text.Lower | utils.py:136 | `str.lower()`: same length, each ASCII capital mapped to the small letter at the same alphabet position, every other character kept |
| Text.Contains | utils.py:136 | `needle in hay` holds exactly when the needle occurs at some position of the haystack |
| Chunker.SplitFrom | utils.py:83 | the scan behind the split: at least one piece, and the first piece extends the part already scanned |
| Chunker.SplitSentences | utils.py:83 | `re.split(r"(?<=[.!?])\s+", text)` returns at least one piece |
| Chunker.SplitSentencesShape | utils.py:83 | no piece contains a boundary; every piece but the last ends in `.`, `!` or `?`; every piece but the first is empty or starts with a non-space; the pieces, glued back with whole whitespace runs, give back the text |
| Chunker.SplitFromWellSplit | utils.py:83 | the scan that splits the text yields pieces of the shape above, and the first piece starts with the text's first character |
| Chunker.SplitFromRejoins | utils.py:83 | the pieces of the scan and the whitespace runs between them reassemble the scanned text |
| Chunker.SplitWithoutBoundary | utils.py:83 | a text with no punctuation-then-whitespace boundary is returned as one piece |
| Chunker.SplitTwoSentences | utils.py:83 | two sentences joined by one space split into exactly those two pieces |
| Chunker.IsLong | utils.py:84 | the filter `len(s.strip()) > 40` on the raw piece; see KeepLongKeepsLong, KeepLongOnlyLong and LongPieceMayGiveShortChunk |
| Chunker.KeepLong | utils.py:81-85 | the comprehension yields at most one chunk per piece |
| Chunker.KeepLongShape | utils.py:81-85 | every chunk is in normal form and non-empty |
| Chunker.KeepLongKeepsLong | utils.py:81-85 | every piece whose stripped length exceeds 40 contributes its normalisation as a chunk |
| Chunker.KeepLongOnlyLong | utils.py:81-85 | every chunk is the normalisation of a piece whose stripped length exceeds 40 |
| Chunker.KeepLongAppend | utils.py:81-85 | chunks follow split order: the chunks of a concatenation are the chunks of the first part followed by those of the second |
| Chunker.ShortPieceDropped | utils.py:84 | a piece whose stripped length is 40 or less contributes nothing |
| Chunker.NoLongPieces | utils.py:84 | when every piece is short there are no chunks |
| Chunker.LongNormalizesNonEmpty | utils.py:82-84 | a piece that passes the filter normalises to a non-empty chunk |
| Chunker.Chunks | utils.py:81-84 | the `sentences` comprehension: KeepLong of the split text; its properties are ChunksShape, KeepLongKeepsLong, KeepLongOnlyLong and KeepLongAppend |
| Chunker.ChunksShape | utils.py:81-85 | every chunk of a document is in normal form and non-empty |
| Chunker.OnePieceChunks | utils.py:81-85 | a long document with no boundary gives exactly its normalisation as the one chunk |
| Chunker.TwoShortSentencesGiveNoChunk | utils.py:81-85 | two sentences of at most 40 characters each, joined by a space, give no chunk |
| Chunker.ShortSentencesGiveNoChunk | utils.py:81-85 | the 39- and 31-character two-sentence document gives no chunk |
| Chunker.PaddedPieceNormalizes | utils.py:82 | a word, a whitespace run and a two-character word normalise to the words separated by one space |
| Chunker.LongPieceMayGiveShortChunk | utils.py:81-85 | a piece long only because of an inner run of 40 or more whitespace characters passes the filter and yields a four-character chunk |
| Store.Loaded | utils.py:35-63 | what `load_store` returns: the stored pair when readable, otherwise an empty index and no metadata |
| Store.HashSet | utils.py:87 | `{m["hash"] for m in metadata}`; HashSetAppend states how it grows |
| Store.NewEntries | utils.py:87-100 | at most one entry per chunk |
| Store.NewEntriesSound | utils.py:87-100 | each entry's text is a chunk, its source is the call's source, its hash is the hash of its text, and that hash was not stored before the call |
| Store.CollectNewEntries | utils.py:88-100 | the loop computes exactly the new entries, and `new_texts` lists their texts in the same order |
| Store.NewEntriesComplete | utils.py:92-100 | every chunk whose hash was not stored before the call gets an entry |
| Store.NewEntriesAppend | utils.py:92-100 | new entries follow chunk order |
| Store.NothingNew | utils.py:92-100 | when every chunk's hash is already stored no entry is collected |
| Store.KeepsRepeatWithinCall | utils.py:87-100 | a chunk that occurs twice in one document, with a hash not yet stored, yields two entries |
| Store.NothingNewLeavesStore | utils.py:102-103 | when every chunk's hash is already stored (or there are no chunks) the store is left as it was |
| Store.AfterAdd | utils.py:86-107 | the store after `add_document`: unchanged when no entry is new, otherwise the new entries after the old and as many vectors more; its properties are AddAppendsOnly, NothingNewLeavesStore, AddKeepsAligned and AddIdempotent |
| Store.AddAppendsOnly | utils.py:96-109 | the old metadata is a prefix of the new; the vector count grows by exactly the number of appended entries, which is at most the number of chunks; each appended entry is a chunk with the call's source and its own hash, and that hash was not stored before |
| Store.AddKeepsAligned | utils.py:105-107 | if vector count and metadata length agreed before, they agree after |
| Store.AddIdempotent | utils.py:78-109 | adding the same chunks a second time leaves the store as the first addition left it |
| Store.HashSetAppend | utils.py:87 | the hash set of appended metadata is the union of the two hash sets |
| Store.Position | utils.py:125 | Python's index into a list of length n: a non-negative index is itself, a negative one counts from the end, and the result is in range |
| Store.Join | utils.py:121-126 | the join as written: ids at or above `len(metadata)` are skipped, ids below `-len(metadata)` raise `IndexError`, and every other id reads `metadata[i]` with Python's negative indexing; its properties are JoinHitsFromCandidates, JoinFailsIff and JoinAppend |
| Store.JoinHitsFromCandidates | utils.py:121-126 | when the join succeeds, it has at most one hit per candidate; each hit comes from a candidate whose id passed the guard and lies in Python's index range, and carries that candidate's score and the fields of the entry that id reads |
| Store.JoinFailsIff | utils.py:121-126 | the join raises `IndexError` if and only if some id lies below `-len(metadata)` |
| Store.JoinAppend | utils.py:120-128 | results keep the search order: the join of a concatenation is the join of the first part followed by the join of the second, and the first failure wins |
| Store.JoinInRange | utils.py:121-126 | the corrected join: at most one hit per candidate, each from a candidate with `0 <= id < len(metadata)` paired with `metadata[id]` and its score |
| Store.JoinInRangeComplete | utils.py:121-126 | the corrected join yields a hit for every candidate with a stored id |
| Store.JoinInRangeAppend | utils.py:120-128 | the corrected join keeps the search order |
| Store.JoinAgreesOnNonNegativeIds | utils.py:122 | when the search returns no negative id, the join as written and the corrected join give the same hits |
| Store.FillerIdRepeatsLastEntry | utils.py:118-126 | the filler id -1 produces a copy of the last stored entry in the join as written; the corrected join drops it |
| Store.RetrieveResult | utils.py:113-128 | what `retrieve` returns: no hits for an empty index, otherwise the join as written of the search candidates |
| Store.Store.LoadStore | utils.py:35-63 | a readable store is returned unchanged and left as is; otherwise an empty store (count 0, no metadata) is returned and written |
| Store.Store.SaveStore | utils.py:65-75 | the files then hold exactly the given index count and metadata |
| Store.Store.constructor | utils.py:35-63 | the store object starts with the given files |
| Store.Store.AddDocument | utils.py:78-109 | the files then hold the loaded store after `AfterAdd` with the document's chunks |
| Store.Store.AddChunks | utils.py:79-109 | the files then hold the loaded store after `AfterAdd`: unchanged when nothing is new, otherwise the new entries appended in chunk order with as many vectors |
| Store.Store.Retrieve | utils.py:112-128 | the files hold the loaded store; the result is empty for an empty index and otherwise the join of the search candidates with the metadata |
| Answer.IsListQuery | utils.py:136 | list intent: one of "list", "laws", "acts", "units", "types" occurs in the lower-cased query |
| Answer.DedupFrom | utils.py:139-147 | evidence has at most one text per hit |
| Answer.Evidence | utils.py:139-147 | the `evidence` list: the hit texts deduplicated from an empty `seen` set; see DedupSound, DedupDistinct, DedupCovers, DedupKeepsFirst and EvidenceNonEmpty |
| Answer.DedupSound | utils.py:139-147 | each evidence text is a hit text whose lower-cased key was not already seen |
| Answer.DedupDistinct | utils.py:139-147 | no two evidence texts share a lower-cased key |
| Answer.DedupCovers | utils.py:142-147 | every hit text's key is either already seen or carried by some evidence text |
| Answer.DedupKeepsFirst | utils.py:142-147 | the first text with a given key is the one kept |
| Answer.DedupAppend | utils.py:142-147 | deduplication preserves order: a concatenation deduplicates to the first part's evidence followed by the second part's evidence with the first part's keys already seen |
| Answer.CaseVariantsCollapse | utils.py:142-147 | two hits whose texts differ only in case leave only the first text as evidence |
| Answer.EvidenceNonEmpty | utils.py:139-147 | with at least one hit, the evidence starts with the first hit's text |
| Answer.ShortItems | utils.py:150-153 | at most one item per evidence text |
| Answer.ShortItemsSound | utils.py:150-153 | every item is an evidence text shorter than 200 characters |
| Answer.ShortItemsComplete | utils.py:150-153 | every evidence text shorter than 200 characters is an item |
| Answer.ShortItemsAll | utils.py:150-153 | when all evidence is short the items are the evidence itself, in order |
| Answer.ShortItemsAppend | utils.py:150-153 | items keep evidence order: the items of a concatenation are the items of the first part followed by those of the second |
| Answer.ItemComesFromHit | utils.py:139-153 | every list item is the text of some hit |
| Answer.ItemEndsLikeHits | utils.py:139-153 | when every hit text is non-empty and ends in a non-space, so does every list item |
| Answer.DecimalString | utils.py:158 | `str(n)` is a non-empty string of decimal digits with no leading zero unless it is the single digit |
| Answer.DecimalRoundTrip | utils.py:158 | the item number reads back as the same number |
| Answer.Line | utils.py:158 | one line `f"{i}. {it}\n"` |
| Answer.NumberedLines | utils.py:157-158 | the lines of the items numbered from `start`, in item order; NumberedLinesLast and NumberedLinesEnd describe its end |
| Answer.NumberedLinesLast | utils.py:157-158 | the numbered lines end with the line `n. item` of the last item, numbered after all earlier items |
| Answer.NumberedLinesEnd | utils.py:157-159 | the rendered lines end with a newline that follows the last item's last character |
| Answer.ListTextStripped | utils.py:156-159 | when the last item ends in a non-space, stripping the header and lines removes only the final newline |
| Answer.JoinSpaced | utils.py:162 | `" ".join(xs)`; JoinSpacedAppend and JoinSpacedFirstThenRest fix its order and separators, JoinSpacedContains states that every joined text occurs in it |
| Answer.Narrative | utils.py:162 | `" ".join(evidence[:4])`; NarrativeAnswer states its exact text and NarrativeContainsLeadingEvidence what it contains |
| Answer.JoinSpacedContains | utils.py:162 | each joined text occurs in the space-joined paragraph |
| Answer.JoinSpacedAppend | utils.py:162 | joining a concatenation gives the join of the first part, one space, then the join of the second part, so the texts keep their order |
| Answer.JoinSpacedFirstThenRest | utils.py:162 | the joined paragraph is the first text followed by each later text, in order, each preceded by exactly one space |
| Answer.Synthesis | utils.py:131-163 | the result of `synthesize_answer`: the not-found message and no sources for no hits, the stripped numbered list for a list query with short items, otherwise the narrative; the sources are the hits |
| Answer.ListAnswer | utils.py:149-159 | for hits that are chunks, the list answer is the header followed by the numbered lines without their final newline |
| Answer.ListCoversAllShortEvidence | utils.py:149-159 | for a list query whose hits are all shorter than 200 characters, the list numbers every evidence text, in evidence order |
| Answer.NarrativeAnswer | utils.py:161-163 | outside the list branch, the answer is the first evidence text followed by the next evidence texts, up to four in all, in evidence order and each after exactly one space |
| Answer.NarrativeContainsLeadingEvidence | utils.py:161-163 | outside the list branch, the answer contains each of the first min(4, number of evidence texts) evidence texts |
| Answer.CollectEvidence | utils.py:139-147 | the loop with the `seen` set computes exactly `Evidence` |
| Answer.CollectItems | utils.py:150-153 | the filtering loop computes exactly the short items |
| Answer.RenderList | utils.py:156-158 | the accumulating loop produces the header followed by one numbered line per item |
| Answer.SynthesizeAnswer | utils.py:131-163 | the answer and sources equal the function `Synthesis`: no hits give the fixed not-found message and no sources; otherwise the sources are the original, non-deduplicated hits |

## Left out

- `extract_text_from_pdf` (utils.py:30-32) is a wrapper over the PDF library; its output is the arbitrary `text` parameter of `AddDocument`.
- The sentence-embedding model and the index's inner-product search (utils.py:15, 105-106, 117-118) are floating-point library code. The index is its vector count, and search is the parameter `search`. Scores are carried through as `real`s without interpretation.
- `hash_text` (utils.py:26-27): MD5 is not modelled. `hash` is an arbitrary function, so nothing depends on the digest being collision-free.
- File I/O, JSON and directory creation in `load_store` and `save_store` (utils.py:35-75) are reduced to the `files` field of `Store`. An unreadable or missing pair (including the caught exception at utils.py:51-52) is `Unreadable`.
- Text.Lower: lower-cases ASCII letters only. Python's `str.lower()` also maps non-ASCII capitals, so two texts differing only in non-ASCII case are kept apart by the model but merged by the source.
- Store.Store.Retrieve: `retrieve` returns `[]` for an empty index without calling the embedder. The model cannot state that a call did not happen; it states that the result is empty.
- A `metadata.json` that parses but holds an entry without `hash` or `text` makes the source raise `KeyError` (utils.py:87, 143). An `Entry` always has all three fields, so this case cannot arise in the model.
- Store.Store.Retrieve: `top_k` defaults to 6 in the source (utils.py:112). The model has no default arguments, so `topK` is always passed explicitly.
- Exceptions raised by the libraries (embedding load failure, write errors) are not modelled; the only error path modelled is the `IndexError` of the join.
- `app.py` is the Streamlit user interface and holds no logic of its own.
- Two ingestions running at once can each load the store and then overwrite each other's save. The model has one store object and no concurrency.

## Findings

| source | as written | input that shows it | evidently intended | confidence | as-written member | corrected member |
|---|---|---|---|---|---|---|
| utils.py:118-126 | `if i < len(metadata)` lets negative ids through, and `metadata[i]` then reads from the end of the list | a store with fewer vectors than `top_k` (e.g. 1 vector, `top_k=6`): the index pads its answer with id -1, which passes the guard and appends a copy of the last metadata entry once per filler | skip every id outside `0 <= i < len(metadata)` | high, not executed | Store.FillerIdRepeatsLastEntry | Store.JoinInRange |

`Store.Join` is the join as written. `Store.JoinInRange` is the corrected join, and
`Store.JoinInRangeComplete` and `Store.JoinInRangeAppend` prove its intended
properties: every stored id is joined, and search order is kept.
`Store.JoinAgreesOnNonNegativeIds` proves the two joins agree whenever the search
returns no filler ids. `Store.Store.Retrieve` keeps the join as written so that the
store operations describe the code.
