# Document chunking and Pinecone record handling, modelled in Dafny

The repository turns uploaded documents and crawled pages into records of a Pinecone
vector index and later assembles retrieved text into a prompt context. This project
models its sequential text logic and proves properties of it:

- `file_processor.py`
  - the classification of a file extension that `extract_text` does before it calls an
    extractor (`FileProcessor.ExtensionKind`, pure);
  - the overlapping chunker `chunk_text` (`FileProcessor.ChunkText`, a `while` loop
    proved against `FileProcessor.WindowsFrom`, its sequence of windows; that sequence
    is the recursive `FileProcessor.Walk`, the loop's stepping rule for any window
    end, taken with the window end `FileProcessor.CutEnd` that the loop computes);
  - `format_records_for_pinecone` (`FileProcessor.FormatRecords`, a `for` loop proved
    against `FileProcessor.Formatted`).
- `pinecone_client.py`
  - the validation and filtering loop of `upsert_data`
    (`PineconeClient.PrepareUpsert`, which updates an `array` of records in place and
    is proved against `PineconeClient.Validated` and `PineconeClient.Normalise`);
  - the token-budget loop of `build_context` (`PineconeClient.BuildContext`, proved
    against `PineconeClient.Assemble`).

Supporting modules: `Text` defines `str.strip` over the ASCII whitespace that
`str.isspace` accepts, `str.rfind`, ASCII `str.lower` and the decimal rendering of a
natural number. `Records` models a record dictionary with its three keys `_id`,
`text` and `assistant`. Each key holds a missing value, a string, or some other value
of which only its truthiness matters. `Wrappers` has `Option` and `Result`. A raised
`ValueError` becomes a `Failure` value, and a `None` return becomes `None`.

The tokenizer is a parameter: a `Tokenizer` value that holds an arbitrary `encode`
from strings to token sequences and an arbitrary `decode` back. The token count of a
string is the length of its encoding. The hits of the search are a parameter too:
the sequence of their texts, in rank order.

Two behaviours of the code are worth knowing; the model follows the code in both:

- `chunk_text` terminates for every text only when `overlap <= chunk_size // 2`.
  A cut keeps more than `chunk_size // 2` characters, so each cut step advances by at
  least one character. With a larger overlap the next start can fall back onto the
  old one, as `FileProcessor.LargeOverlapStalls` shows. The condition
  `overlap < chunk_size` alone is not enough, so the model requires
  `0 < chunk_size` and `overlap <= chunk_size // 2`. A negative overlap is allowed,
  because it only makes the steps longer.
- `chunk_text` can emit an empty chunk: a window cut to whitespace strips to `""`,
  and nothing removes it (`FileProcessor.EmptyChunkCanBeEmitted`). The validation of
  `upsert_data` later drops such a record (`PineconeClient.EmptyChunkIsFiltered`).

## Model

| member | source | states |
|---|---|---|
| `FileProcessor.LStripDots` | file_processor.py:137 | `lstrip('.')` leaves the suffix after a run of dots; that suffix does not start with a dot |
| `FileProcessor.ExtensionKindIgnoresCase` | file_processor.py:137 | lower-casing the extension first does not change the extractor chosen or the error raised |
| `FileProcessor.ExtensionKindIgnoresLeadingDot` | file_processor.py:137 | one more leading dot does not change the extractor chosen or the error raised |
| `FileProcessor.ExtensionKindExamples` | file_processor.py:137-148 | ".PDF" selects the PDF extractor, "..pptx" the PowerPoint one, and ".Doc" raises the unsupported-extension error carrying "doc" |
| `Text.StripSpec` | file_processor.py:167 | `strip` returns the infix between a start and an end index with only whitespace before the start and after the end; the result neither starts nor ends with whitespace, and it is empty exactly when all of the text is whitespace |
| `Text.StripEmptyIff` | file_processor.py:163 | `strip` gives the empty string exactly for all-whitespace text |
| `Text.StripIdempotent` | pinecone_client.py:51 | stripping twice is stripping once |
| `Text.RFindSpec` | file_processor.py:186-190 | `rfind` returns -1 or an index where the pattern occurs, and no occurrence lies to its right; so -1 means the pattern occurs nowhere |
| `FileProcessor.BreakPoint` | file_processor.py:186-190 | the break point is -1 or an index inside the window |
| `FileProcessor.BreakPointPriority` | file_processor.py:186-190 | the break point is the last newline if one lies at or after `chunk_size - 200`; otherwise the last ". " under the same condition; otherwise the last space anywhere, or -1 if there is none; whatever is found is the index of a break character |
| `FileProcessor.FindBreakPoint` | file_processor.py:186-190 | the three reassignments of `break_point` compute `BreakPoint` |
| `FileProcessor.CutEnd` | file_processor.py:178-194 | a window ends after its start and at most `chunk_size` later; a cut window keeps more than `chunk_size // 2` characters |
| `FileProcessor.CutEndSpec` | file_processor.py:184-194 | a window is cut exactly when more text follows, the overlap is positive and the break point lies beyond `chunk_size // 2`; the cut ends the chunk at the break character, so that character is dropped |
| `FileProcessor.CutWindow` | file_processor.py:178-194 | the loop body computes `end` as `CutEnd` and `chunk` as `text[start:end]`, clamped at the text's end |
| `FileProcessor.WindowsFrom` | file_processor.py:174-201 | the loop from a given start emits at least one window, each within the text |
| `FileProcessor.CutIsAdvancing` | file_processor.py:192-199 | with `0 < chunk_size` and `overlap <= chunk_size // 2` every window is non-empty and the next start lies after the current one |
| `FileProcessor.WalkAt` | file_processor.py:174-201 | for any window end that advances the loop, window k starts inside the text, at the start for k = 0, ends where the window end puts it, and is followed by a window at its end minus the overlap exactly when that lies inside the text |
| `FileProcessor.WindowAt` | file_processor.py:174-201 | the same for the windows of `chunk_text`, whose ends are `CutEnd` |
| `FileProcessor.WindowsChain` | file_processor.py:174-201 | windows start at 0, and each later one starts at the previous end minus the overlap; starts strictly increase and stay inside the text; each window is at most `chunk_size` long; the loop stops at the first window whose end minus the overlap reaches the text's end |
| `FileProcessor.ChunksOf` | file_processor.py:196 | one chunk per window, in order, each the strip of the window's slice |
| `FileProcessor.ChunksOfSnoc` | file_processor.py:196 | appending the chunk of one more window extends the chunks of the windows before it |
| `FileProcessor.ChunkLoop` | file_processor.py:174-203 | the `while` loop returns the stripped slices of exactly the windows of `WindowsFrom` |
| `FileProcessor.ChunkText` | file_processor.py:151-203 | `chunk_text` returns `Chunks`: nothing for blank text, the stripped text when it fits one window, otherwise the loop's chunks; `chunk_size` and `overlap` default to 2000 and 100 as in the source |
| `FileProcessor.ChunksOfShortText` | file_processor.py:163-171 | the result is empty exactly for whitespace-only text; stripped text of at most `chunk_size` characters is returned as the one chunk |
| `FileProcessor.ChunksAreStrippedSlices` | file_processor.py:178-196 | every chunk is the strip of a contiguous slice of the stripped text at most `chunk_size` long, so it has at most `chunk_size` characters |
| `FileProcessor.WindowsWithoutBreaks` | file_processor.py:174-201 | in text without spaces and newlines no window is cut: window k starts at `start + k * (chunk_size - overlap)` and spans `chunk_size` characters |
| `FileProcessor.WalkEvenly` | file_processor.py:174-201 | when the window end is always the start plus `chunk_size`, window k starts at `start + k * (chunk_size - overlap)` and spans `chunk_size` characters |
| `FileProcessor.Example4500Windows` | file_processor.py:174-201 | 4500 characters without breaks, at 2000/100, give windows starting at 0, 1900 and 3800 |
| `FileProcessor.Example4500` | file_processor.py:151-203 | the same text gives the chunks `t[0:2000]`, `t[1900:3900]` and `t[3800:4500]` |
| `FileProcessor.EmptyChunkCanBeEmitted` | file_processor.py:196 | "ab      cd" at 4/1 yields an empty second chunk |
| `FileProcessor.LargeOverlapStalls` | file_processor.py:192-199 | with an overlap above half the window the next start can equal the current one, so the loop does not advance |
| `FileProcessor.RecordIdsDiffer` | file_processor.py:224 | ids `base_i` and `base_j` differ whenever `i` and `j` do |
| `FileProcessor.FormattedIdsDistinct` | file_processor.py:218-228 | no two formatted records share an id |
| `FileProcessor.FormatRecords` | file_processor.py:206-230 | one record per chunk, in order; record i, counting from 1, has id `base_id + "_" + i`, the chunk as text and the assistant; `base_id` defaults to the assistant; the ids are pairwise distinct |
| `Text.ParseDecimalOfDecimal` | file_processor.py:224 | the decimal rendering of the record number reads back to that number |
| `PineconeClient.PrepareUpsert` | pinecone_client.py:33-75 | an empty list fails with "no records provided"; otherwise the accepted records, in input order with stripped text, or "no valid records" with the filtered count; each record in the caller's array ends up with its text stripped if it was accepted, and is otherwise unchanged |
| `PineconeClient.AcceptedIff` | pinecone_client.py:42-66 | a record is kept exactly when its text is a string, it strips to at least 3 characters, and its `_id` and `assistant` are truthy |
| `PineconeClient.NormaliseChangesOnlyText` | pinecone_client.py:69-70 | an accepted record changes only in its text, which becomes the stripped text; a rejected record is not changed at all |
| `PineconeClient.KeptSingleton` | pinecone_client.py:40-70 | a single record is kept, cleaned, exactly when it is accepted, and is otherwise counted as filtered |
| `PineconeClient.KeptAppend` | pinecone_client.py:40-70 | the kept list and the filtered count of a concatenation are the concatenation and the sum of the parts, so kept records stay in input order |
| `PineconeClient.CountsAddUp` | pinecone_client.py:37-70 | `filtered_count + len(valid_records) == len(records)` |
| `PineconeClient.KeptRecordsPass` | pinecone_client.py:51-70 | every kept record passes all checks again, and its text is already stripped |
| `PineconeClient.KeptIdempotent` | pinecone_client.py:40-70 | validating the kept records again keeps all of them unchanged and filters none |
| `PineconeClient.ValidatedCounts` | pinecone_client.py:72-75 | the "no valid records" error reports every input record as filtered; on success the number of records sent is the input count minus the filtered count |
| `PineconeClient.AllRejected` | pinecone_client.py:72-75 | a non-empty batch whose every record fails a check keeps nothing and is refused with "no valid records" counting all of them as filtered |
| `PineconeClient.FormattedRecordsPass` | pinecone_client.py:40-70 | records formatted from stripped chunks of at least 3 characters, with a non-empty assistant, pass validation unchanged |
| `PineconeClient.ChunksAreStripped` | file_processor.py:196 | every chunk of `chunk_text` is already stripped |
| `PineconeClient.EmptyChunkIsFiltered` | pinecone_client.py:45-48 | the empty chunk of "ab      cd" becomes a record rejected for invalid text |
| `PineconeClient.BuildContext` | pinecone_client.py:105-135 | the loop returns `Assemble`: None without hits, otherwise the concatenated text; `max_tokens` defaults to 7000 as in the source (pinecone_client.py:93) |
| `PineconeClient.PartialHit` | pinecone_client.py:119-130 | the overflow branch adds a space and the decoding of the first `remaining_tokens` tokens of the hit, and nothing when no token is left or the hit encodes to no token |
| `PineconeClient.FitCountSpec` | pinecone_client.py:113-133 | the hits appended whole form the longest prefix whose running token total stays within `max_tokens` at every step; adding the next hit would exceed it |
| `PineconeClient.FillShape` | pinecone_client.py:113-133 | the context is the whole hits that fit, each after a space, in rank order, followed by the fragment of the first hit that overflows |
| `PineconeClient.AllHitsFit` | pinecone_client.py:113-135 | when all hits fit, the context is every hit text after a space |
| `PineconeClient.HitsAfterOverflowIgnored` | pinecone_client.py:119-130 | hits after the first overflowing hit never reach the context, however small they are |
| `PineconeClient.BudgetRespected` | pinecone_client.py:111-133 | for `max_tokens >= 0` the tokens of the hits appended whole stay within `max_tokens` |
| `PineconeClient.NothingFits` | pinecone_client.py:119-135 | when the first hit overflows and no part of it can be added, the result is `""`, not None |
| `PineconeClient.NoContextIffNoHits` | pinecone_client.py:105-107 | the result is None exactly when there are no hits |
| `PineconeClient.SingleOversizedHit` | pinecone_client.py:119-130 | a single hit over a positive budget contributes a space and the decoding of its first `max_tokens` tokens |

## Left out

- The text extractors for PDF, DOCX, PowerPoint and plain text (file_processor.py:11-119) are library parsing and byte decoding. Only the choice of extractor is modelled.
- The Pinecone client and its calls are network code: client setup, `pc.Index`, `upsert_records`, `index.search` and the hit fields other than `text`. The model takes the hit texts as a parameter and ends the upsert validation by returning the records that would be sent. The success message, the re-raised SDK exception and the `KeyError` for a hit without `text` are not modelled.
- The `cl100k_base` tokenizer is replaced by arbitrary `encode` and `decode` functions. No claim is made about the token count of the whole returned context. The code counts each piece on its own, and tokenization neither adds up over concatenation nor round-trips.
- Logging, including the ids printed in the warnings, is not modelled.
- Whitespace is not Unicode-complete. `strip` removes only the ASCII characters that `str.isspace` accepts. `lower` maps only `A`-`Z`.
- Record dictionaries are reduced to their three keys. Other keys are not modelled. The list the source hands to `upsert_records` (pinecone_client.py:85) holds the caller's own dictionary objects. The model returns values equal to the updated array elements, so the aliasing is lost.
- `chunk_text` with `chunk_size <= 0` or `overlap > chunk_size // 2` is excluded by the precondition: with those arguments the source loop need not terminate. The precondition is stronger than it has to be: it also excludes blank text and text no longer than `chunk_size` after stripping, which the source returns before the loop (file_processor.py:163-171) whatever the overlap.
- `recursive_crawl.py`, `app.py` and `semantic_search.py` are not part of this model: they are crawling, HTTP routes and a streaming completion call.
