# AIM: verified model of the prover's bookkeeping and the lemma viewer's text logic

AIM is a mathematical research agent. A Rust backend drives three language-model
agents: an explorer that proposes conjectures with proofs, a reviewer that checks
them, and a refiner that repairs flawed proofs. It records every conjecture as a
*memory block* in a dependency graph. A Next.js frontend shows the resulting
lemmas, with their statements, proofs and review comments rendered as Markdown
with LaTeX math.

This project models the deterministic core of both halves in Dafny and proves
what that code promises. It has one module per source file, plus two shared
helper modules (`Strings`, `MathTokens`) and one module of worked examples
(`RenderExamples`).

- **`Utils`** (`src/utils.rs`) covers extraction from model responses.
  - `find_box` is an imperative brace-depth scan after the last `boxed`, with a fallback up to the next `$`.
  - `extract_component` and `extract_all_component` take the lazy, non-overlapping `\begin{tag}…\end{tag}` matches, written out by hand.
- **`Agents`** (`src/agents.rs`) covers the memory graph.
  - `MemoryBlock` is a value datatype with its builders and setters; the clock is a parameter.
  - `Memory` is a class whose `memory` sequence is extended in place.
  - The proof-path closure (`get_proof_path_ids`) is a worklist walk, then a sort.
  - The Markdown formatters.
  - Two string routines of the chat client: the request-URL normalisation, and the line framing of the server-sent event stream.
- **`Sessions`** (`src/sessions.rs`) covers the review bookkeeping of the theorem-graph mode.
  - The skip rule of `review_mems`.
  - The per-node update loop of `backtrace_review_from`.
  - The refinement write-back of `backtrace_refine_from`.
  - The acceptance, review-round and "solved" logic of `graph_step`.
  - All of these are on a `Session` class whose methods change the shared `Memory`. The language-model results are parameters.
- **`MathTokens`**, **`ContentNodes`**, **`LemmaDetail`**, **`ProjectPage`**, **`ProjectDetailClient`** and **`RenderExamples`** cover the math renderer, which the frontend copies five times.
  - `MathTokens` holds the JavaScript `split` on `/\n{2,}/`, and the capturing-alternation `split` with `filter(Boolean)` as a hand-written scanner. A flag turns the `\(…\)` alternative on or off.
  - `ContentNodes` holds the classifier of trimmed tokens and the buffer-and-flush assembler, an imperative method checked against a specification fold.
  - `LemmaDetail` holds the proof renderer's Markdown headings.
  - `ProjectPage` and `ProjectDetailClient` hold the two description renderers and the lemma filter.
  - Lemmas relate the copies to each other.
- **`LemmaList`** (with its duplicate in `LemmaDetail`) covers the status and importance tiers.
- **`LanguageContext`** covers the `t(key, vars)` dictionary lookup with global placeholder replacement. It includes JavaScript's `$` replacement patterns.

Rust `u8` is a `newtype`. Where the source can overflow a `u8`, the model states the bound as a precondition or returns `None`. JavaScript and Rust `trim` are two whitespace predicates.

## Model

| member | source | states |
|---|---|---|
| Utils.FindBox | src/utils.rs:5-42 | the scanning method returns exactly what the specification `FindBoxSpec` defines |
| Utils.FindBoxNone | src/utils.rs:6-13 | no `boxed` in the text, or `boxed` as the very last word, gives None |
| Utils.FindBoxLast | src/utils.rs:6 | only the last `boxed` counts: any text before a part that contains `boxed` does not change the result |
| Utils.EmptyBox | src/utils.rs:15-32 | `boxed{}` yields `Some("")` |
| Utils.CloseIndex | src/utils.rs:19-31 | a found closing position holds a `}` at or after the start |
| Utils.CloseIndexDepth | src/utils.rs:19-31 | at the closing brace the running depth first returns to zero, and never drops to zero before it |
| Utils.BraceBodyBalanced | src/utils.rs:15-32 | when a matching `}` exists, the returned body has balanced braces, nested ones included |
| Utils.BraceBodyUnclosed | src/utils.rs:19-32 | with no matching `}`, the whole remainder after `{` is returned |
| Utils.DollarBody | src/utils.rs:34-40 | the non-brace form never returns an empty string |
| Utils.DollarBodySpec | src/utils.rs:34-40 | the non-brace form is the Rust-trimmed text up to the first `$` (or the end), and None exactly when that is empty |
| Utils.NextPair | src/utils.rs:47 | a found pair lies inside the text, with the body after the opening tag and before the closing tag |
| Utils.NextPairSpec | src/utils.rs:47 | the pair starts at the leftmost opening tag, and its body ends at the first closing tag after it |
| Utils.CaptureStep | src/utils.rs:71-73 | captures are the body of the first pair followed by the captures resumed after its closing tag |
| Utils.LastCaptureStep | src/utils.rs:50-52 | iterating to the last capture moves past each pair in turn |
| Utils.LastCaptureIsLast | src/utils.rs:50-52 | the last-capture walk returns the final element of the capture list, or its default when the list is empty |
| Utils.ExtractComponentIsLast | src/utils.rs:44-57 | `extract_component` is None when `extract_all_component` is empty and its last element otherwise |
| Utils.CapturesEmptyIffNoPair | src/utils.rs:71-78 | the capture list is empty iff no opening tag is followed by a closing tag |
| Utils.ExtractEmptyIffNoPair | src/utils.rs:59-79 | `extract_all_component` is empty iff no `\begin{tag}` … `\end{tag}` pair exists |
| Utils.CapturedBody | src/utils.rs:62 | each captured body sits verbatim in the text between the two tags and contains no closing tag |
| Utils.CapturedBodies | src/utils.rs:71-73 | every capture from a position is such a verbatim body |
| Utils.ExtractedBodies | src/utils.rs:59-79 | every body `extract_all_component` returns is a verbatim slice of the text between `\begin{tag}` and the first following `\end{tag}` |
| Strings.TrimSpec | src/utils.rs:35 | trimming removes exactly the leading and trailing whitespace of the flavour (JavaScript or Rust) and keeps the middle |
| Strings.TrimEndMatches | src/agents.rs:361 | the result is a prefix of the input that does not end with the pattern |
| Strings.TrimEndMatchesSpec | src/agents.rs:361 | the input is the result followed by whole copies of the pattern |
| Strings.TrimEndMatchesOf | src/agents.rs:361 | every trailing copy is removed: a text that does not end with the pattern, followed by any number of copies, trims back to that text |
| Strings.TrimStartMatches | src/agents.rs:409 | the result is a suffix of the input that does not start with the pattern |
| Strings.TrimStartMatchesSpec | src/agents.rs:409 | the input is whole copies of the pattern followed by the result |
| Strings.TrimStartMatchesOf | src/agents.rs:409 | every leading copy is removed: copies of the pattern before a text that does not start with it trim away to that text |
| Strings.IndexOfSpec | src/agents.rs:405 | the found index is the leftmost occurrence at or after the start, and None means there is none |
| Strings.LastIndexOfSpec | src/utils.rs:6 | the found index is the rightmost occurrence, and None means there is none |
| Strings.NatToString | src/agents.rs:235 | decimal rendering of an index is a non-empty string of digits with no leading zero except for 0 itself |
| Strings.NatToStringValue | src/agents.rs:235 | the digits read back as the index rendered |
| Strings.DebugList | src/agents.rs:125 | the `{:?}` rendering of the dependency list is bracketed, and is `[]` exactly for the empty list |
| Strings.JoinNatsInjective | src/agents.rs:125 | the comma-separated numbers determine the list element by element |
| Strings.DebugListInjective | src/agents.rs:125 | two dependency lists render alike only when they are equal |
| Agents.NewBlock | src/agents.rs:48-62 | a new block has empty texts, no deps, zero reviews, is unsolved, and both timestamps are the clock reading |
| Agents.WithMemtype | src/agents.rs:63-67 | stores the memtype, stamps `updated_at` with the clock, keeps `created_at` (and the chronological order) and leaves every other field unchanged |
| Agents.WithContent | src/agents.rs:68-72 | stores the content, stamps `updated_at` with the clock, keeps `created_at` (and the chronological order) and leaves every other field unchanged |
| Agents.WithProof | src/agents.rs:73-77 | stores the proof, stamps `updated_at` with the clock, keeps `created_at` (and the chronological order) and leaves every other field unchanged |
| Agents.WithProofSummary | src/agents.rs:78-82 | stores the proof summary, stamps `updated_at` with the clock, keeps `created_at` (and the chronological order) and leaves every other field unchanged |
| Agents.WithSolved | src/agents.rs:101-105 | stores the solved flag, stamps `updated_at` with the clock, keeps `created_at` (and the chronological order) and leaves every other field unchanged |
| Agents.WithReviews | src/agents.rs:109-113 | stores the review count, stamps `updated_at` with the clock, keeps `created_at` (and the chronological order) and leaves every other field unchanged |
| Agents.WithComment | src/agents.rs:117-121 | stores the comment, stamps `updated_at` with the clock, keeps `created_at` (and the chronological order) and leaves every other field unchanged |
| Agents.WithDeps | src/agents.rs:93-97 | stores the dependency list, stamps `updated_at` with the clock, keeps `created_at` (and the chronological order) and leaves every other field unchanged |
| Agents.Format | src/agents.rs:123-128 | the block is `\begin{memtype}`, its content, the `**DEPENDENCY**:` line with the `{:?}` list, and `\end{memtype}`, and nothing else |
| Agents.FormatShowsDeps | src/agents.rs:123-128 | blocks of the same kind and content format alike only when their dependency lists are equal |
| Agents.FormatWithProof | src/agents.rs:129-139 | equals `_format` exactly when the proof is empty; otherwise it extends `_format` and ends with the proof and `\end{proof}` |
| Agents.FormatWithProofSummary | src/agents.rs:141-154 | always adds `**Proof Sketch**` after `_format`; the `<proof_summary>` part appears iff the summary is non-empty |
| Agents.Section | src/agents.rs:234-242 | a listed section is never empty |
| Agents.SectionHeaderNamesId | src/agents.rs:235 | the `#### Memory **ID: i**` header names its index: different indices give different headers |
| Agents.SectionShape | src/agents.rs:273-278 | a section starts with `#### Memory **ID: i**` and a blank line, followed by the block's formatting |
| Agents.AddNew | src/agents.rs:176-180 | queueing deps extends the queue, adds each new dep once and in order, adds nothing already queued, and keeps it duplicate-free |
| Agents.QueueDeps | src/agents.rs:176-180 | the push loop computes `AddNew` |
| Agents.ExploreFrom | src/agents.rs:175-186 | the walk only ever extends the queue |
| Agents.Explore | src/agents.rs:172-186 | the walk starts at the requested id and yields a duplicate-free queue |
| Agents.ExploreStep | src/agents.rs:175-186 | one step expands the current id and stops when the cursor reaches the end of the queue |
| Agents.ExploreFromSpec | src/agents.rs:172-186 | every id before the stop point is expanded, and every later id was queued as a dependency of an expanded one |
| Agents.ExploreSpec | src/agents.rs:172-186 | the walk expands a prefix up to the first out-of-range id, and everything queued comes from that prefix |
| Agents.ExploreClosed | src/agents.rs:172-186 | with all deps in range, the result is in range and closed under dependencies |
| Agents.ExploreLeast | src/agents.rs:172-186 | the result lies inside every dependency-closed set that contains the id, so it is the least closure |
| Agents.InsertSpec | src/agents.rs:198 | inserting keeps a sequence strictly increasing and adds exactly the new element |
| Agents.SortDistinct | src/agents.rs:198 | sorting a duplicate-free list gives a strictly increasing list with the same elements |
| Agents.FinishPath | src/agents.rs:187-198 | the result is ascending; it holds the walk, less the first id unless `include_end_node`, plus 0 when block 0 is context |
| Agents.ProofPathIds | src/agents.rs:169-200 | the ids come out strictly ascending, hence without duplicates |
| Agents.ProofPathEnds | src/agents.rs:187-196 | the requested id is present iff `include_end_node` (or it is 0 and block 0 is context); 0 is present whenever block 0 is context |
| Agents.ProofPathMembers | src/agents.rs:172-189 | every other id on the path was reached by the dependency walk |
| Agents.Listed | src/agents.rs:232-233 | keeps exactly the ids that name an existing block |
| Agents.SectionOf | src/agents.rs:233-243 | an id yields text iff it names an existing block |
| Agents.RevJoinedListed | src/agents.rs:232-244 | appending sections in reverse order equals joining the listed ids in reverse |
| Agents.ReversedSectionsListed | src/agents.rs:232-244 | the reverse loop that skips absent ids is the section list of the present ids, newest first |
| Agents.ListedDescending | src/agents.rs:232 | walking an ascending list backwards lists strictly descending ids |
| Agents.SectionsEmpty | src/agents.rs:246 | the output is empty iff no section was listed |
| Agents.FormatDepsListing | src/agents.rs:217-247 | `format_deps` lists the existing path blocks in strictly descending order, is None iff none exists, and uses the proof format iff `with_proof` |
| Agents.FormatAll | src/agents.rs:263-303 | None iff memory is empty |
| Agents.FormatAllFilteredOut | src/agents.rs:265-280 | with `solved_only` and no solved block, the result is `Some("")` |
| Agents.FormatAllUpdate | src/agents.rs:268-280 | after `update`, the listing is the old listing plus the new block's section under its own index, if the filter keeps it |
| Agents.ChatUrl | src/agents.rs:359-362 | the URL is a stem and `/v1/chat/completions`; the base URL is that stem, then `/v1` repeated, then `/` repeated, and the stem does not end in `/v1` |
| Agents.ChatUrlOf | src/agents.rs:359-362 | conversely, any base made of such a stem, `/v1` copies and slashes posts to exactly the stem and the path |
| Agents.ChatUrlTrailingSlash | src/agents.rs:361 | a trailing `/` on the base URL makes no difference |
| Agents.ChatUrlVersionSuffix | src/agents.rs:361 | a trailing `/v1` on the base URL makes no difference |
| Agents.NewlineFrom | src/agents.rs:405 | a found position holds a newline |
| Agents.NewlineFromSpec | src/agents.rs:405 | it is the first newline from the start position, and None means there is none |
| Agents.LinesStep | src/agents.rs:405-406 | draining takes the text up to and including the first newline, then the rest |
| Agents.LinesJoin | src/agents.rs:403-406 | the drained lines and the leftover concatenate back to the buffer: nothing is lost or repeated |
| Agents.LinesComplete | src/agents.rs:405-407 | each drained line ends in its only newline, and the leftover holds no newline |
| Agents.LinesSpec | src/agents.rs:405-406 | line framing splits the buffer into complete lines in order, plus a newline-free leftover |
| Agents.LinesAppend | src/agents.rs:402-406 | framing chunk by chunk equals framing the concatenated stream |
| Agents.Payload | src/agents.rs:407-413 | a payload comes only from a `data:` line (any other line gives none), is never `[DONE]`, and is trimmed |
| Agents.PayloadOfDataLine | src/agents.rs:407-413 | a `data:` line, after its newlines and carriage returns and every leading `data:` are removed, gives its trimmed text unless that is `[DONE]` |
| Agents.FailuresPrefix | src/agents.rs:393-399 | the count of chunk errors never decreases as the stream proceeds |
| Agents.Drain | src/agents.rs:405-439 | the inner loop appends the content of every complete line and keeps the leftover |
| Agents.DrainStep | src/agents.rs:405-406 | draining one line and then the rest equals draining the whole buffer |
| Agents.DecodeLine | src/agents.rs:407-437 | per-line handling yields the decoded `content` delta of a `data:` payload, or nothing |
| Agents.ReadStream | src/agents.rs:384-446 | the read fails iff more than 16 chunks fail; otherwise it returns the content of every complete line of the received text and keeps the leftover |
| Agents.Memory.constructor | src/agents.rs:163-165 | a new memory is empty |
| Agents.Memory.Update | src/agents.rs:166-168 | `update` appends the block and changes nothing else |
| Agents.Memory.GetProofPathIds | src/agents.rs:169-200 | the worklist method returns the ids `ProofPathIds` specifies |
| Agents.Memory.FormatDeps | src/agents.rs:217-247 | the appending loop returns what `FormatDepsSpec` specifies |
| Agents.Memory.FormatAllWithProof | src/agents.rs:263-282 | None iff memory is empty |
| Agents.Memory.FormatAllWithProofSummary | src/agents.rs:284-303 | None iff memory is empty |
| Sessions.ReviewOf | src/sessions.rs:170-176 | context blocks and blocks with 24 or more reviews get no review; any other answer is the stored non-empty comment or the reviewer's verdict |
| Sessions.ReviewerConsulted | src/sessions.rs:170-176 | the reviewer's verdict matters only for an uncapped, non-context block with no stored comment; a stored comment is returned as is |
| Sessions.CappedBlock | src/sessions.rs:27 | a block at the cap of 24 reviews is skipped by review and shows as 关键 in the lemma list |
| Sessions.ReviewsFor | src/sessions.rs:154-194 | one review per path id, each given by the skip rule |
| Sessions.Grown | src/sessions.rs:212 | the review count grows by the per-round reviews, capped at 24 |
| Sessions.ReviewNode | src/sessions.rs:208-219 | a context node and the flag are untouched; otherwise reviews grow (capped), a flaw sets the comment, resets reviews to 0 and clears the flag, and `solved` becomes the flag |
| Sessions.UpdateBlock | src/sessions.rs:208-219 | the in-place update of one path node computes `ReviewNode` |
| Sessions.BacktraceFrom | src/sessions.rs:205-222 | memory keeps its length, and a correct path requires a correct start |
| Sessions.BacktraceKeeps | src/sessions.rs:207-221 | the update never changes a block's identity, and review counts only drop or stay within the cap |
| Sessions.BacktraceFlag | src/sessions.rs:205-222 | `backtrace_review_from` returns true iff no aligned review reports a flaw on a non-context node |
| Sessions.BacktraceFrame | src/sessions.rs:207-221 | blocks off the zipped path are unchanged |
| Sessions.BacktraceNode | src/sessions.rs:207-221 | each zipped path node ends as `ReviewNode` with the flag as it stood after the nodes before it |
| Sessions.SolvedPrefix | src/sessions.rs:213-219 | if a later node ends solved, every earlier non-context node ends solved and no flaw came before it |
| Sessions.BacktraceStep | src/sessions.rs:207-221 | the loop is one node update followed by the loop over the rest of the path |
| Sessions.RefineNode | src/sessions.rs:251-266 | a solved node, a node without comment, or an empty reply changes nothing; otherwise the comment is cleared, the content changes exactly to the `conjecture` component when there is one under a `false` box, and the proof exactly to the `proof` component when there is one under some box; otherwise each stays |
| Sessions.RefineBlock | src/sessions.rs:252-266 | the write-back method computes `RefineNode` |
| Sessions.RefinePath | src/sessions.rs:229-268 | memory keeps its length |
| Sessions.RefineKeeps | src/sessions.rs:250-268 | refinement never changes memtype, deps, review count or solved flag |
| Sessions.RefinePathSpec | src/sessions.rs:229-268 | path nodes are refined by `RefineNode` and all other blocks are unchanged |
| Sessions.Accepts | src/sessions.rs:398-402 | a response is accepted iff the dependency block is non-empty and either a final proof or both conjecture and proof are present |
| Sessions.NewNode | src/sessions.rs:403-423 | a final proof creates a theorem whose content is the problem; otherwise a lemma with the conjecture and proof; fresh, unsolved, zero reviews |
| Sessions.Rounds | src/sessions.rs:425-434 | the review rounds keep every block's memtype and deps |
| Sessions.Settle | src/sessions.rs:424-441 | a `true` answer means the new node is solved and its content is the problem |
| Sessions.StepOn | src/sessions.rs:398-441 | a step either appends exactly one node or rejects the response and leaves memory alone |
| Sessions.GraphStepSpec | src/sessions.rs:389-441 | as `StepOn`, with the components extracted from the raw response |
| Sessions.SolvedNeedsFinalProof | src/sessions.rs:436-441 | `true` needs a final proof and deps, and a solved theorem node for the problem; a rejected response leaves memory unchanged and answers false |
| Sessions.PathInRange | src/sessions.rs:199 | with all deps in range, every proof-path id indexes memory |
| Sessions.RoundsNoPanic | src/sessions.rs:425-434 | with deps in range and review counts capped, no review round overflows or indexes out of range |
| Sessions.StepNoPanic | src/sessions.rs:424-441 | with deps in range, counts capped and `iterations < 255`, a graph step always completes |
| Sessions.Session.ReviewMems | src/sessions.rs:150-195 | the review list equals `ReviewsFor` on the current memory |
| Sessions.Session.BacktraceReviewFrom | src/sessions.rs:197-223 | memory and the returned flag are those of `BacktraceFrom` on the proof path and its reviews |
| Sessions.Session.BacktraceRefineFrom | src/sessions.rs:225-270 | memory becomes `RefinePath` over the proof path |
| Sessions.Session.UpdateMemoryGraph | src/sessions.rs:284-289 | the block is appended to memory |
| Sessions.Session.ReviewRounds | src/sessions.rs:425-434 | finishes iff `Rounds` is defined and leaves its memory; at most `iterations+1` review rounds, with one refinement between rounds and none after the last |
| Sessions.Session.GraphStep | src/sessions.rs:389-442 | the answer and new memory are those of `GraphStepSpec` |
| MathTokens.InlineRunEnd | frontend/src/components/LemmaDetail.tsx:31 | the run for `$[^$\n]+$` stops at the first `$` or newline |
| MathTokens.NewlineRunEnd | frontend/src/components/LemmaDetail.tsx:17 | the run of newlines is maximal |
| MathTokens.MatchAt | frontend/src/components/LemmaDetail.tsx:31 | a match at a position spans at least two characters inside the text |
| MathTokens.SplitFrom | frontend/src/components/LemmaDetail.tsx:31 | the pieces start with the text before the first match |
| MathTokens.SplitAt | frontend/src/components/LemmaDetail.tsx:31 | one scanning step keeps that shape |
| MathTokens.SplitTiles | frontend/src/components/LemmaDetail.tsx:31 | the pieces tile the input from the start to the end, without gaps or overlaps |
| MathTokens.SplitAlternates | frontend/src/components/LemmaDetail.tsx:31 | the pieces alternate text, match, text, …, and there is an odd number of them, as JavaScript `split` with one capture group gives |
| MathTokens.SplitMatches | frontend/src/components/LemmaDetail.tsx:31 | every captured piece is the leftmost-alternative match at its start |
| MathTokens.SplitTexts | frontend/src/components/LemmaDetail.tsx:31 | no match starts inside a text piece, so the scan is leftmost |
| MathTokens.NonEmpty | frontend/src/components/LemmaDetail.tsx:31 | `filter(Boolean)` keeps only non-empty pieces, drawn from the input list |
| MathTokens.RawTokens | frontend/src/components/LemmaDetail.tsx:31 | tokens are non-empty slices of the block |
| MathTokens.BlockPieces | frontend/src/components/LemmaDetail.tsx:17 | blocks are slices of the text |
| MathTokens.NonEmptyTiles | frontend/src/components/LemmaDetail.tsx:31 | dropping empty pieces keeps the tiling |
| MathTokens.ConcatTexts | frontend/src/components/LemmaDetail.tsx:31 | the slices of a tiling concatenate to the tiled range |
| MathTokens.TokensConcat | frontend/src/components/LemmaDetail.tsx:31 | the tokens of a block concatenate back to the block exactly |
| MathTokens.NonEmptyNoAdjacentText | frontend/src/components/LemmaDetail.tsx:31 | dropping empty pieces never makes two text pieces adjacent |
| MathTokens.RawTokensNoAdjacentText | frontend/src/components/LemmaDetail.tsx:31 | two plain-text tokens are never adjacent |
| MathTokens.NoBlankLineInside | frontend/src/components/LemmaDetail.tsx:17 | a stretch with no blank-line match contains no `\n\n` |
| MathTokens.BlocksNoBlankLine | frontend/src/components/LemmaDetail.tsx:17 | no block contains a blank line, so no math span crosses one |
| MathTokens.SplitSame | frontend/src/app/project/page.tsx:52 | two patterns that agree at every position split alike |
| MathTokens.TokensWithoutParens | frontend/src/app/project/page.tsx:52 | on text without `\(` the two tokenizers agree |
| MathTokens.SplitNoMatch | frontend/src/components/LemmaDetail.tsx:31 | with no match the split is the whole input as one text piece |
| MathTokens.NoNewlineNoBlankLine | frontend/src/components/LemmaDetail.tsx:17 | text without newlines has no blank line |
| MathTokens.SingleBlock | frontend/src/components/LemmaDetail.tsx:17 | text without `\n\n` is a single block |
| MathTokens.SingleToken | frontend/src/components/LemmaDetail.tsx:31 | text without delimiters is a single token (none when empty) |
| ContentNodes.JsSlice | frontend/src/components/LemmaDetail.tsx:49 | `slice(a, -b)` is the middle of the string, or empty when the string is too short |
| ContentNodes.ClassifyAll | frontend/src/components/LemmaDetail.tsx:45-62 | one classification per token |
| ContentNodes.ClassifyAllAt | frontend/src/components/LemmaDetail.tsx:45-46 | each token is classified independently |
| ContentNodes.ClassifyUntrimmed | frontend/src/components/LemmaDetail.tsx:46 | a token without surrounding whitespace is its own trimmed text |
| ContentNodes.LazyToken | frontend/src/components/LemmaDetail.tsx:31 | a lazy two-character-delimited match starts and ends with its delimiters and has at least four characters |
| ContentNodes.ClassifyBlockMath | frontend/src/components/LemmaDetail.tsx:47-49 | a `$$…$$` or `\[…\]` match is block math of its trimmed inside |
| ContentNodes.ClassifyParen | frontend/src/components/LemmaDetail.tsx:55-56 | a `\(…\)` match is inline math of its trimmed inside |
| ContentNodes.DollarToken | frontend/src/components/LemmaDetail.tsx:31 | a `$…$` match has a non-`$` first inner character and ends with `$` |
| ContentNodes.ClassifyDollarInline | frontend/src/components/LemmaDetail.tsx:57-58 | a `$…$` match is inline math of its trimmed inside |
| ContentNodes.ClassifyMatch | frontend/src/components/LemmaDetail.tsx:46-58 | every captured token classifies by its delimiters: block math for `$$`/`\[`, inline math for `\(` and `$`, with the trimmed inside |
| ContentNodes.NoDelimitersNoShape | frontend/src/components/LemmaDetail.tsx:47-60 | text without delimiters matches none of the math shapes |
| ContentNodes.ClassifyPlain | frontend/src/components/LemmaDetail.tsx:59-60 | such text stays plain, untrimmed |
| ContentNodes.Flush | frontend/src/components/LemmaDetail.tsx:35-44 | a flush emits a paragraph of the buffer iff the buffer is non-empty |
| ContentNodes.AssembleTokens | frontend/src/components/LemmaDetail.tsx:33-63 | the buffer-and-flush loop computes the specification fold `Assemble` |
| ContentNodes.AssembleBlock | frontend/src/components/LemmaDetail.tsx:47-54 | block math flushes the buffer, then emits itself and starts an empty buffer |
| ContentNodes.AssembleItem | frontend/src/components/LemmaDetail.tsx:55-61 | inline and plain tokens go to the buffer |
| ContentNodes.AssembleWellGrouped | frontend/src/components/LemmaDetail.tsx:33-63 | no heading, every paragraph non-empty, and two paragraphs are never adjacent |
| ContentNodes.AssembleFlatten | frontend/src/components/LemmaDetail.tsx:45-63 | flattening the nodes gives back the buffer and the tokens in order: nothing is lost or reordered |
| ContentNodes.AssembleItems | frontend/src/components/LemmaDetail.tsx:59-61 | a run of inline tokens only grows the buffer |
| ContentNodes.AssembleInverse | frontend/src/components/LemmaDetail.tsx:33-63 | every well-grouped node list is the assembly of its own flattening, so assembly is onto the well-grouped lists |
| ContentNodes.RenderBlock | frontend/src/components/LemmaDetail.tsx:31-63 | a block renders to a well-grouped node list |
| ContentNodes.RenderParagraph | frontend/src/components/LemmaDetail.tsx:31-63 | the imperative block renderer computes `RenderBlock` |
| ContentNodes.RenderBlocks | frontend/src/components/LemmaDetail.tsx:17 | the rendered blocks hold no headings |
| ContentNodes.Render | frontend/src/components/LemmaDetail.tsx:171-209 | the statement-style renderer produces paragraphs and block math only |
| ContentNodes.NoAdjacentPlain | frontend/src/components/LemmaDetail.tsx:31 | classified tokens never have two plain tokens in a row |
| ContentNodes.ClassifyAllAgree | frontend/src/components/LemmaDetail.tsx:45-58 | when each token classifies alike with and without `\(`, so do the lists |
| ContentNodes.RenderBlockWithoutParens | frontend/src/components/LemmaDetail.tsx:31 | a block without `\(` renders alike with and without that alternative |
| ContentNodes.BlocksWithoutParens | frontend/src/components/LemmaDetail.tsx:17 | the same holds block by block |
| ContentNodes.RenderWithoutParens | frontend/src/components/ProjectDetailClient.tsx:69 | a text without `\(` renders alike by both tokenizers |
| ContentNodes.PlainBlock | frontend/src/components/LemmaDetail.tsx:59-63 | a block without delimiters is one paragraph of its untrimmed text, or nothing when empty |
| LemmaDetail.HashRunEnd | frontend/src/components/LemmaDetail.tsx:21 | the `#` run stays within the text |
| LemmaDetail.HashRunEndSpec | frontend/src/components/LemmaDetail.tsx:21 | the run is maximal: all `#`, then a non-`#` or the end |
| LemmaDetail.IsHeadingRegex | frontend/src/components/LemmaDetail.tsx:20 | a block is a heading iff it starts with one to six `#` followed by whitespace |
| LemmaDetail.SevenHashesNoHeading | frontend/src/components/LemmaDetail.tsx:20 | seven or more `#` is not a heading |
| LemmaDetail.LineEnd | frontend/src/components/LemmaDetail.tsx:21 | the line end stays within the text |
| LemmaDetail.LineEndSpec | frontend/src/components/LemmaDetail.tsx:21 | it is the first line terminator, as `.` stops there |
| LemmaDetail.HeadingTextSpec | frontend/src/components/LemmaDetail.tsx:21-24 | the heading text follows the `#` run and its whitespace, and is the rest of the first line only |
| LemmaDetail.HeadingTag | frontend/src/components/LemmaDetail.tsx:25-27 | headings render as h2 to h4 |
| LemmaDetail.HeadingTagShift | frontend/src/components/LemmaDetail.tsx:25-27 | level 1 is h2, level 2 is h3, and level 3 or more is h4 |
| LemmaDetail.ProofBlockHeading | frontend/src/components/LemmaDetail.tsx:18-29 | a proof block yields a heading iff its trimmed text is a heading; the heading is alone, with level = number of `#` and the first-line text; otherwise the block renders as math |
| LemmaDetail.HeadingDropsLaterLines | frontend/src/components/LemmaDetail.tsx:21-24 | `### x` then a newline and `y` renders as the heading `x` alone |
| LemmaDetail.RenderProofBlock | frontend/src/components/LemmaDetail.tsx:17-65 | the imperative proof-block renderer computes `ProofBlock` |
| LemmaDetail.RenderStatement | frontend/src/components/LemmaDetail.tsx:171-209 | statements produce no headings |
| LemmaDetail.RenderComment | frontend/src/components/LemmaDetail.tsx:96-129 | comments produce no headings |
| LemmaDetail.ProofBlocksWithoutHeadings | frontend/src/components/LemmaDetail.tsx:17-65 | blocks without headings render like a statement |
| LemmaDetail.ProofWithoutHeadings | frontend/src/components/LemmaDetail.tsx:17-65 | a proof without heading blocks renders exactly like a statement or a comment |
| LemmaDetail.ProofBlocksHeadings | frontend/src/components/LemmaDetail.tsx:17-29 | every heading block contributes its heading node |
| LemmaDetail.ProofHeadings | frontend/src/components/LemmaDetail.tsx:17-29 | every heading block of a proof appears as a heading node |
| LemmaDetail.StatusIconColor | frontend/src/components/LemmaDetail.tsx:68-79 | an unknown status gets the gray icon |
| LemmaDetail.DetailStatusLabel | frontend/src/components/LemmaDetail.tsx:143-145 | the detail label equals the lemma-list label |
| LemmaDetail.DetailImportanceText | frontend/src/components/LemmaDetail.tsx:84-88 | the detail importance text equals the lemma-list one |
| LemmaDetail.DetailImportanceAgrees | frontend/src/components/LemmaDetail.tsx:82-93 | detail colours differ exactly when list colours and detail texts differ |
| LemmaList.StatusColor | frontend/src/components/LemmaList.tsx:16-23 | an unknown status is gray |
| LemmaList.StatusLabel | frontend/src/components/LemmaList.tsx:61-63 | an unknown status is 待处理 |
| LemmaList.StatusColorMatchesLabel | frontend/src/components/LemmaList.tsx:16-23 | two statuses share a colour iff they share a label |
| LemmaList.StatusLabelsDistinct | frontend/src/components/LemmaList.tsx:61-63 | proved, in_progress and invalid are 已证明, 证明中 and 无效, and no known status is 待处理 |
| LemmaList.AsciiLower | frontend/src/components/LemmaList.tsx:26 | upper-case letters map to lower case; everything else is unchanged |
| LemmaList.LowerCase | frontend/src/components/LemmaList.tsx:26 | lower-casing works character by character and keeps the length |
| LemmaList.IsTheoremCaseInsensitive | frontend/src/components/LemmaList.tsx:26 | a title is a theorem iff "theorem" occurs in it in any letter case |
| LemmaList.ImportanceColor | frontend/src/components/LemmaList.tsx:28-32 | a theorem is red whatever its reviews |
| LemmaList.ImportanceText | frontend/src/components/LemmaList.tsx:33-37 | a theorem is 关键 whatever its reviews |
| LemmaList.ImportanceByTier | frontend/src/components/LemmaList.tsx:28-37 | colour and text are both functions of one tier |
| LemmaList.ImportanceColorMatchesText | frontend/src/components/LemmaList.tsx:28-37 | two lemmas share a colour iff they share a text |
| LemmaList.ImportanceThresholds | frontend/src/components/LemmaList.tsx:29-36 | 24 or more reviews are critical, 12-23 major and below 12 minor for non-theorems; critical iff theorem or at least 24 |
| LemmaList.TierMonotone | frontend/src/components/LemmaList.tsx:28-37 | more reviews never lower the tier |
| LanguageContext.Placeholder | frontend/src/context/LanguageContext.tsx:327 | the placeholder is the key in braces |
| LanguageContext.ExpandPlain | frontend/src/context/LanguageContext.tsx:327 | a replacement without `$` is inserted literally |
| LanguageContext.CutFrom | frontend/src/context/LanguageContext.tsx:327 | cutting at occurrences always yields at least one segment |
| LanguageContext.CutFree | frontend/src/context/LanguageContext.tsx:327 | no segment contains the pattern, so the cut misses no occurrence |
| LanguageContext.FirstPieceFree | frontend/src/context/LanguageContext.tsx:327 | a position where the pattern does not start extends an occurrence-free first segment |
| LanguageContext.CutIsSplit | frontend/src/context/LanguageContext.tsx:327 | the segments joined by the placeholder give back the string |
| LanguageContext.ReplaceIsJoin | frontend/src/context/LanguageContext.tsx:327 | a global replace with a `$`-free value joins the same segments with the value; with `CutFree`, every occurrence is replaced |
| LanguageContext.ReplaceAbsent | frontend/src/context/LanguageContext.tsx:327 | with no occurrence, replace changes nothing |
| LanguageContext.Lookup | frontend/src/context/LanguageContext.tsx:325 | a missing key is returned as itself; a present key gives its translation |
| LanguageContext.LookupFallback | frontend/src/context/LanguageContext.tsx:325-326 | without vars the looked-up string is returned unchanged, and so with empty vars |
| LanguageContext.SingleVariable | frontend/src/context/LanguageContext.tsx:327 | with one var, `t` cuts the entry into `{k}`-free segments that join back to it with `{k}` and joins them with the value instead |
| LanguageContext.UnusedVariable | frontend/src/context/LanguageContext.tsx:327 | a placeholder that does not occur leaves the text alone |
| LanguageContext.BracelessUnchanged | frontend/src/context/LanguageContext.tsx:325-327 | a text without `{` comes back unchanged whatever the variables |
| LanguageContext.SequentialSubstitution | frontend/src/context/LanguageContext.tsx:327 | vars apply in order: text inserted by an earlier var is rewritten by a later one |
| LanguageContext.DollarPatterns | frontend/src/context/LanguageContext.tsx:327 | JavaScript replacement patterns apply: `$$` inserts `$` and `$&` re-inserts the match |
| ProjectPage.RenderDescription | frontend/src/app/project/page.tsx:50-85 | the description renders to paragraphs and block math only, never headings |
| ProjectPage.RenderDescriptionBlock | frontend/src/app/project/page.tsx:52-83 | the imperative loop computes `RenderBlock` without the `\(` alternative, well grouped |
| ProjectPage.HeadingStaysLiteral | frontend/src/app/project/page.tsx:51 | `### x` stays literal text |
| ProjectPage.ParenMathStaysLiteral | frontend/src/app/project/page.tsx:52 | `\(x\)` stays literal text |
| ProjectPage.FilteredLemmas | frontend/src/app/project/page.tsx:152-154 | keeps exactly the lemmas whose title or statement contains the filter |
| ProjectPage.FilterAppend | frontend/src/app/project/page.tsx:152-154 | filtering distributes over concatenation, so order is kept |
| ProjectPage.FilterAllMatch | frontend/src/app/project/page.tsx:152-154 | if all lemmas match, all are kept |
| ProjectPage.EmptyFilterKeepsAll | frontend/src/app/project/page.tsx:152-154 | the empty filter keeps everything |
| ProjectPage.FilterIdempotent | frontend/src/app/project/page.tsx:152-154 | filtering twice equals filtering once |
| ProjectPage.FilterCaseSensitive | frontend/src/app/project/page.tsx:153 | `theorem` does not match the title `Theorem` |
| ProjectPage.FilterIsSubsequence | frontend/src/app/project/page.tsx:152-154 | the result is an order-preserving subsequence of the input |
| ProjectDetailClient.RenderDescription | frontend/src/components/ProjectDetailClient.tsx:67-102 | renders to paragraphs and block math only |
| ProjectDetailClient.SameAsProjectPage | frontend/src/components/ProjectDetailClient.tsx:67-102 | produces the same nodes as the project page for every input, by definition: the two source copies are identical |
| ProjectDetailClient.SameAsStatementWithoutParens | frontend/src/components/ProjectDetailClient.tsx:69 | without `\(` it produces the same nodes as the statement and comment renderers |
| ProjectDetailClient.DiffersWithParens | frontend/src/components/ProjectDetailClient.tsx:69 | with `\(x\)` the description keeps text where the statement shows inline math |
| RenderExamples.LeftoverDollar | frontend/src/components/LemmaDetail.tsx:47-58 | in `$$x$` the leftover `$` becomes empty inline math before `x` |
| RenderExamples.BareDoubleDollar | frontend/src/components/LemmaDetail.tsx:47-49 | a block that is just `$$` becomes empty block math |
| RenderExamples.BlankBlock | frontend/src/components/LemmaDetail.tsx:59-63 | a whitespace-only block still yields a paragraph of its untrimmed text |
| RenderExamples.EmptyText | frontend/src/components/LemmaDetail.tsx:17 | empty text yields no nodes |
| RenderExamples.ParenInline | frontend/src/components/LemmaDetail.tsx:55-56 | `\(x\)` in a statement is inline math `x` |

## Left out

- React, JSX keys, KaTeX and CSS. Rendered elements are a `Node` datatype: a heading, a paragraph of plain and inline-math items, or block math.
- Network, language-model calls and concurrency are left out:
  - the request and retry loop of `LMClient::comp`;
  - `Reviewer::pverify`, `Explorer` and `Refiner` are parameters (verdict, reproof and raw-response functions);
  - the `JoinSet` tasks of `review_mems` and `backtrace_refine_from`.
- Sessions.ReviewsFor: returns the reviews in path order, while `review_mems` collects them in task completion order and `backtrace_review_from` zips them with the path (src/sessions.rs:179-207). The model takes them as already aligned.
- Sessions.RefinePath: applies the refinements in path order, where the source applies them in completion order. Each refinement writes only its own block, so the order does not change the result.
- Agents.ReadStream: each chunk is already decoded text, so the per-chunk `String::from_utf8_lossy` and its effect on characters split across chunks are not modelled. The JSON decoding of a payload is an abstract function, and echoing to stdout is left out.
- The clock: `Utc::now()` is a `now` parameter, one reading per modelled operation. The source reads the clock once per setter.
- Sessions.Grown: `get_reviews() + config.reviews` at src/sessions.rs:212 can overflow a `u8`. The model requires that it does not. `Rounds` returns None where it would overflow, and `RoundsNoPanic` gives conditions under which it cannot. Where it would overflow the model follows a debug build, whose overflow check panics; a release build wraps instead, so the count would restart low and the answer could differ.
- Sessions.StepNoPanic: `iterations + 1` at src/sessions.rs:425 overflows when `iterations` is 255. The model counts rounds in unbounded integers, and this lemma asks for `iterations < 255`. At 255 `Settle` answers `Panic`, as a debug build does; a release build wraps `255 + 1` to 0, runs no review round and answers false.
- Sessions.Rounds: its own contract only states what the rounds preserve. What each round does is stated by `BacktraceFlag`, `BacktraceNode`, `RefinePathSpec` and `Session.ReviewRounds`.
- Sessions.BacktraceFrom and Sessions.RefinePath: their own contracts only give the length. The content of the new memory is stated by the lemmas named beside them in the table.
- `Memory::format_all` is commented out in src/agents.rs:248-262, yet src/sessions.rs:277 and src/sessions.rs:390 call it. `update_memory` and the context refresh in `graph_step` are therefore not modelled. `FormatAll` is the shared body of the two defined `format_all_with_proof*` functions.
- `ResearchSession::new`, `load_context`, `resume`, the non-graph `step`, `run`, `remote_run`, saving and Markdown export are file I/O, the database or the CLI. `Session.constructor` takes an existing memory instead.
- src/server/app.rs, src/main.rs and src/aim.rs are not part of this model. Neither are the login, signup, home and new-project pages, the modals, `CopyableBlock` and `AuthContext`.
- Strings: JavaScript strings are UTF-16 and Rust strings are UTF-8. The model works on sequences of characters. Every delimiter involved is ASCII, so the modelled results are the same.
- LemmaList.LowerCase: lowers ASCII letters only. `toLowerCase` also changes non-ASCII letters, but none lowers into the letters of `theorem`.
- The lemma filter of frontend/src/components/ProjectDetailClient.tsx:134 is the same predicate as the project page's, so `ProjectPage.FilteredLemmas` models both.
- LanguageContext: the placeholder key must be a plain name, so that `new RegExp` reads it literally. Numeric values are taken already converted by `String(...)`. The language state and `localStorage` are left out.
