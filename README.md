# Bulk catalog extraction, modelled in Dafny

This project models the core of `pdf-scale.js`, a script that pulls a product list out of a large PDF catalog. It does this batch by batch, using a generative model.

- **The orchestrator** `iniciarProcessamentoEmMassa` cuts the catalog into batches of `PAGINAS_POR_LOTE = 3` pages. For each batch it:
  1. writes a temporary PDF `temp_lote_<n>.pdf`;
  2. hands the file to `processarLote`;
  3. appends the returned records to a master list;
  4. deletes the temporary file.

  At the end it writes the master list to `catalogo_completo_1000.json`.
- **The per-batch step** `processarLote` does the following:
  1. It uploads the file and asks the model for a JSON array.
  2. It strips every "```json" and then every "```" from the reply, and trims it.
  3. It cuts out the text from the first `[` to the last `]`, and parses that text.
  4. A model or parse failure gives the empty list. A failed upload throws out of the step and ends the whole run.

The model has five modules:

- `Options`: the `Option` datatype.
- `JsText`: the JavaScript string built-ins the step relies on, over `seq<char>`:
  - global `replace` with an empty replacement;
  - `trim` over the ECMAScript whitespace set;
  - `indexOf` and `lastIndexOf`;
  - `substring`, including the way it swaps reversed bounds;
  - the decimal rendering of a number inside a template literal.
- `Batching`: the page partition.
  - `PagesToCopy` is the inner loop, written as a method with a loop invariant.
  - `Batches` is the list of all batches the outer loop visits.
- `Extraction`: the reply cleanup, the bracket slice and `processarLote` as pure functions.
  - The upload and the model call form one parameter of the model, the `Exchange` of a batch.
  - `JSON.parse` is another parameter, a partial function `parse`.
- `BulkProcessing`: the orchestrator as the method `ProcessInBulk`.
  - The method is proved equal to the reference function `BulkRun`.
  - The properties of the run are proved about `BulkRun`.
  - The filesystem is the ordered list of writes and deletes a run performs (`Effect`), and `ApplyEffects` replays that list on a set of file names.
  - The orchestrator is generic over the per-batch step. `SourceStep(ai, parse)` is the step the source uses.

## Model

| member | source | states |
|---|---|---|
| JsText.RemoveAllAbsent | pdf-scale.js:63 | a global `replace` of a pattern that does not occur leaves the text unchanged |
| JsText.RemoveAll | pdf-scale.js:63 | a global `replace` with an empty replacement never lengthens the text; `RemoveAllAbsent` and `RemoveAllSkip` together fix its result for every text; `Extraction.RemoveFencesLeavesNone` and `Extraction.InnerFenceRemoved` state what the "```" pass removes and keeps |
| JsText.RemoveAllPrefix | pdf-scale.js:63 | an occurrence at the very start of the text is dropped and the scan resumes right after it |
| JsText.RemoveAllSkip | pdf-scale.js:63 | the first occurrence is dropped wherever it sits: the text before it is kept unchanged and the scan resumes right after it |
| JsText.TrimRemovesEdges | pdf-scale.js:63 | `trim` returns the slice of the text that starts after its leading whitespace; only whitespace is dropped, and only at the two ends |
| JsText.TrimStart | pdf-scale.js:63 | the result is a suffix of the text, everything dropped is whitespace, and it does not start with whitespace |
| JsText.TrimEnd | pdf-scale.js:63 | the result is a prefix of the text, everything dropped is whitespace, and it does not end with whitespace |
| JsText.Trim | pdf-scale.js:63 | `trim` never lengthens the text and leaves no whitespace at either end; `TrimRemovesEdges` states that it keeps the middle unchanged |
| JsText.TrimFixed | pdf-scale.js:63 | a text with no whitespace at either end is its own `trim` |
| JsText.IndexOf | pdf-scale.js:65 | `indexOf('[')` is -1 exactly when there is no `[`; otherwise it is a position holding `[` with no `[` before it |
| JsText.LastIndexOf | pdf-scale.js:66 | `lastIndexOf(']')` is -1 exactly when there is no `]`; otherwise it is a position holding `]` with no `]` after it |
| JsText.IndexOfIs | pdf-scale.js:65 | a `[` with none before it is the position `indexOf` finds |
| JsText.LastIndexOfIs | pdf-scale.js:66 | a `]` with none after it is the position `lastIndexOf` finds |
| JsText.Substring | pdf-scale.js:68 | `substring(a, b)` is the slice `a..b` for in-range ordered bounds, and the slice `b..a` when the bounds are reversed |
| JsText.Decimal | pdf-scale.js:113 | the rendering of a batch number is a non-empty string of digits, one digit long exactly for numbers below 10, with a leading `0` only for zero |
| JsText.DecimalAppend | pdf-scale.js:113 | a number's last decimal digit is the last character of its rendering, after the rendering of the rest, so the most significant digit comes first |
| JsText.DecimalInjective | pdf-scale.js:113 | different batch numbers render to different texts |
| Batching.PagesToCopy | pdf-scale.js:104-107 | the inner loop builds exactly the page list of the batch that starts at `i` |
| Batching.BatchCount | pdf-scale.js:98 | there are ceil(total / 3) batches, and none for an empty document |
| Batching.BatchesFrom | pdf-scale.js:98 | no contract of its own: the batches from start page `i` on, in loop order; `BatchCountFrom`, `BatchAtFrom` and `BatchIndexFrom` state its length and contents |
| Batching.Batches | pdf-scale.js:98-107 | no contract of its own: every batch the outer loop visits; `BatchCount`, `BatchAt`, `BatchShape`, `BatchesCover` and `PageInOneBatch` state what it holds |
| Batching.BatchIndex | pdf-scale.js:98 | batch `b` exists exactly when its start page `3b` is below the page count |
| Batching.BatchStartsAt | pdf-scale.js:98 | the outer loop with counter `i = 3b` runs batch `b` exactly when `i` is below the page count, and batch `b` holds the pages the inner loop lists for `i` |
| Batching.BatchAt | pdf-scale.js:98-107 | batch `b` is the page list of the batch that starts at page `3b` |
| Batching.BatchShape | pdf-scale.js:98-107 | batch `b` holds between one and three pages, `3b, 3b+1, ...` in ascending order, all below the page count |
| Batching.BatchesCover | pdf-scale.js:98-110 | read in loop order, the batches list every page `0 .. total-1` exactly once, in document order |
| Batching.PageInOneBatch | pdf-scale.js:98-107 | page `p` lies in batch `p / 3` and in no other batch |
| Extraction.RemoveFencesLeavesNone | pdf-scale.js:63 | after every "```" is removed left to right, no run of three backticks is left |
| Extraction.Cleanup | pdf-scale.js:63 | the cleaned reply is no longer than the reply and holds no run of three backticks; what it keeps is stated by `FencedReplyCleansAsBare`, for a fenced reply with text before and after the fences, and by `CleanupFixes` |
| Extraction.NoFenceNothingToRemove | pdf-scale.js:63 | in a text without three backticks in a row, neither replace changes anything |
| Extraction.CleanupFixes | pdf-scale.js:63 | a text with no fence and no whitespace at either end comes out of the cleanup unchanged |
| Extraction.CleanupIdempotent | pdf-scale.js:63 | cleaning a cleaned reply changes nothing |
| Extraction.NoJsonFenceInside | pdf-scale.js:63 | in a fence-free text followed by three backticks, no "```json" starts inside the text |
| Extraction.NoJsonFenceAround | pdf-scale.js:63 | a fence-free text, then "```", then more text holds no "```json" unless the closing fence and the text after it spell one, so the first replace leaves it alone |
| Extraction.InnerFenceRemoved | pdf-scale.js:63 | the "```" replace turns a fence-free text with one "```" put anywhere in it back into that text |
| Extraction.FencedReplyCleansAsBare | pdf-scale.js:63-64 | a fence-free reply with a "```json" fence opened after any preamble and a "```" fence closed before any trailing text cleans to exactly what it cleans to without the two fences |
| Extraction.FencedReply | pdf-scale.js:63-68 | a reply that wraps its JSON in "```json" and "```", with any text before and after, hands `JSON.parse` the same text as the same reply without the fences |
| Extraction.BracketSlice | pdf-scale.js:65-68 | no slice is taken exactly when the cleaned text lacks `[` or lacks `]` |
| Extraction.BracketSliceOrdered | pdf-scale.js:65-69 | when the first `[` comes no later than the last `]`, the parser gets exactly the text from that `[` through that `]`, which starts with `[` and ends with `]` |
| Extraction.ArrayText | pdf-scale.js:63-68 | no contract of its own: the text handed to `JSON.parse`, that is the bracket slice of the cleaned reply; `FencedReply` and the `BracketSlice` lemmas state what it is |
| Extraction.BracketSliceSwapped | pdf-scale.js:65-69 | when the last `]` comes before the first `[`, the parser gets the text strictly between them, which holds no bracket |
| Extraction.ArrayTextIgnoresFences | pdf-scale.js:63-69 | a consequence of `CleanupIdempotent`: cleaning the reply before extraction changes nothing; `FencedReply` states the fence round trip |
| Extraction.ProcessBatch | pdf-scale.js:27-75 | a batch escapes exactly when its upload fails; a failed model call, a reply without a bracket or a slice that does not parse gives the empty list; a slice that parses gives exactly the parsed list; a non-empty list came from a reply whose sliced text parsed to it |
| BulkProcessing.SourceStepOutcomes | pdf-scale.js:23-75 | with the source's step, a failed upload escapes; a failed model call, a missing bracket or a parse error add nothing; otherwise the parsed records are added |
| BulkProcessing.TempFileName | pdf-scale.js:113 | a temporary file name never equals the output file name |
| BulkProcessing.SourceStep | pdf-scale.js:23-75 | no contract of its own: `processarLote` for a given model and parser; `SourceStepOutcomes` states what it yields |
| BulkProcessing.TempFileNamesDistinct | pdf-scale.js:113 | two batches never share a temporary file |
| BulkProcessing.ProcessInBulk | pdf-scale.js:79-141 | the orchestrator performs exactly the writes and deletes of the reference run and ends as it does: `MissingPdf` without the catalog, `UploadCrashed` at the first failed upload, otherwise `Finished` with the master list |
| BulkProcessing.Advance | pdf-scale.js:113-132 | an iteration whose upload goes through appends its records to the master list and one write and one delete of its temporary file to the effects, which keeps the loop invariant |
| BulkProcessing.BulkRun | pdf-scale.js:79-141 | no contract of its own: the reference run; `ProcessInBulk` is proved equal to it, and `FinishedRun`, `FinishedProducts`, `FinishedDisk`, `CrashedRun` and `EmptyDocument` state what it does |
| BulkProcessing.BulkRunCrashesAt | pdf-scale.js:113-121 | when batch `n + 1` (counted as `loteAtual` counts, from 1) is the first failed upload, the run ends there: its temporary file is written, and the records collected so far are never saved |
| BulkProcessing.BulkRunFinishes | pdf-scale.js:98-139 | when every upload goes through, the run writes the master list after all iterations and finishes with it |
| BulkProcessing.FinishedRun | pdf-scale.js:98-139 | a run finishes exactly when no batch's upload fails |
| BulkProcessing.FinishedProducts | pdf-scale.js:122-136 | a finished run's master list is every batch's records, in batch order, and its length is the sum of their counts |
| BulkProcessing.FinishedDisk | pdf-scale.js:113-139 | after a finished run, every temporary file it wrote is gone and the output file is present; nothing else on disk changed |
| BulkProcessing.CrashedRun | pdf-scale.js:113-130 | a run that crashes does so at the first batch whose upload fails, with all earlier batches returned; that batch's temporary file stays on disk and the output file is never written |
| BulkProcessing.EmptyDocument | pdf-scale.js:98-139 | a catalog without pages runs no batch and writes an empty master list |
| BulkProcessing.CollectedConcat | pdf-scale.js:125 | splitting the batches anywhere splits the master list there |
| BulkProcessing.CollectedLength | pdf-scale.js:122-125 | the master list holds as many records as the batches returned in total |
| BulkProcessing.EmptyBatchChangesNothing | pdf-scale.js:122-127 | a batch that returns the empty list leaves the master list as if it had not run |
| BulkProcessing.BatchRecordsInOrder | pdf-scale.js:122-125 | the records of batch `k` sit in the master list right after those of the batches before it |
| BulkProcessing.LifecycleSteps | pdf-scale.js:113-132 | iteration `k` writes `temp_lote_k.pdf` with batch `k`'s pages and deletes it before iteration `k + 1` |
| BulkProcessing.LifecycleRemovesTemps | pdf-scale.js:115-130 | after `n` completed iterations, none of their temporary files is left and nothing else on disk changed |
| BulkProcessing.LifecycleWritesNoOutput | pdf-scale.js:113-132 | completed iterations only write and delete temporary files |

## Left out

- pdf-lib (`PDFDocument.load`, `create`, `copyPages`, `addPage`, `save`) is a foreign library. The document is its page count, and a temporary PDF is the list of page indices it holds; `copyPages` is taken to keep the requested order. A `load` failure is not modelled.
- A throw from `copyPages` or `save` inside the loop is not modelled. It would end the run like a failed upload, but before that batch's temporary file is written.
- The upload, the model call and the two-second wait are network and timing. The `Exchange` of each batch is a parameter of the model (`UploadFailed`, `InvokeFailed` or a `Replied` text). The prompt and the upload metadata are not modelled.
- A model reply whose content is not a string, such as a list of content parts, makes `.replace` throw inside the `try`, so the batch yields `[]`. The model has no separate case for it: it is the `InvokeFailed` exchange, which yields `[]` in the same way.
- `JSON.parse` and `JSON.stringify` are not modelled as a JSON grammar. `parse` is an arbitrary partial function from text to a list of records, with `None` for a syntax error. The serialised form of the output file is not modelled either: `WriteOutput` records the list itself.
- Extraction.ProcessBatch: a parse that succeeds with something other than an array is not modelled. That can only happen in the reversed-bracket case, because then the sliced text holds no bracket. Depending on the value, the source would append it as one element, skip it, or throw on `.length` outside the `try`.
- Filesystem calls are abstracted. `existsSync` becomes the `Option` page count, and `writeFileSync` and `unlinkSync` become `Effect` entries. A write or delete that itself fails is not modelled.
- Numbers are unbounded in the model. The source's page counter, batch counter and `${loteAtual}` rendering are JavaScript doubles: they are exact only below 2^53, and template rendering switches to exponent notation from 1e21 up. No real catalog comes near either bound.
- `console` logging has no effect on the result and is left out.
- JavaScript strings are UTF-16 code units; the model uses Dafny characters. This makes no difference for the ASCII fences and brackets the cleanup looks for.
- pdf-audit-langchain.js, gerar-token.js and server.js are not part of this model. They are upload, HTTP and static-serving glue; the only shared logic, the fence strip, is the one modelled here.
