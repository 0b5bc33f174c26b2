# Stable Diffusion tag organizer — Dafny model

The tag organizer takes a Stable Diffusion prompt and reorders its tokens by
category. It asks the user, category by category, which tokens belong there,
offering tab completion from the prompt's own tokens. This project models
the pure core of that pipeline and proves properties about it:

- `split_tokens` (module `Tokenizer`). It splits a prompt at the commas that
  lie outside parentheses and square brackets, then strips each piece. The
  scanner is the left fold of the source's loop body over the characters.
  Its specification, `Buffers`, decides each split from the character counts
  of the prefix before the comma.
- `remove_dups` (module `Dedup`). It keeps the first occurrence of each
  token, and every occurrence of the keyword `"BREAK"`.
- `TagCompleter` (module `Completer`). `complete(text, state)` is a pure
  function that returns the updated completer and the suggestion.
  `remove_tokens` returns the new pool.
- `categorize_tokens` (module `Categorize`). It is a fold over a sequence
  of `Response`s, one per category prompt:
  - `Eof` stands for end of file.
  - `Interrupt` stands for Ctrl+C.
  - `Line(s)` stands for a typed line.
- The older script `categorize-tokens.py` (module `Legacy`): its own
  `categorize_tokens`, which returns its input unchanged. Its other
  functions are the package's code, covered as described below.
- A defect in `categorize_tokens`, and a corrected version (module
  `Findings`).

Shared vocabulary lives in `Text`: `str.strip`, the substring test, and
`str.join`. `Seqs` holds subsequences, flattening, first occurrences and
`list.remove`. Both default category lists are constants:
`Categorize.DefaultCategories` and `Legacy.LegacyDefaultCategories`.

Three details of the code that the proofs rely on:
- `remove_dups` keeps every "BREAK" and the first copy of anything else
  (sd_tag_organizer/utils.py:81-84), so `["x", "x", "BREAK", "x", "BREAK"]`
  becomes `["x", "BREAK", "BREAK"]`.
- `remove_tokens` removes only the first occurrence of each listed token
  (sd_tag_organizer/completer.py:50-52), so a second copy can still be
  suggested.
- An answer without a comma is kept verbatim as one token, not stripped
  (sd_tag_organizer/categorize.py:54-55).

The script categorize-tokens.py holds copies of `split_tokens`,
`remove_dups` and `TagCompleter.complete` that differ from the package's
only in a docstring line and a comment. They are modelled by the same
definitions, so every `Tokenizer`, `Dedup` and `Completer` row below holds
for the script's copies too: categorize-tokens.py:21-71, 84-103 and
158-189 respectively.

## Model

| member | source | states |
|---|---|---|
| Tokenizer.Step | sd_tag_organizer/utils.py:31-50 | One iteration of the character loop: update whichever depth counter the character moves, then either emit the stripped buffer (a comma with both counters at zero) or append the character to the buffer. ScanMatchesBuffers states what the fold of these steps holds. |
| Tokenizer.SplitTokens | sd_tag_organizer/utils.py:4-54 | `split_tokens`: the loop's tokens plus the stripped final buffer, so there is always at least one token. SplitTokensMatchesBuffers and SplitTokensRoundTrip state its result. |
| Tokenizer.ScanMatchesBuffers | sd_tag_organizer/utils.py:31-50 | Loop invariant of the scan. After any prefix, the emitted tokens are the stripped separator-delimited pieces of that prefix except the last. The current buffer is the last piece. |
| Tokenizer.ScanDepths | sd_tag_organizer/utils.py:31-39 | The two depth counters are exactly the net counts of opening minus closing characters read so far. They are unbounded and go negative on unbalanced closers. |
| Tokenizer.SplitTokensMatchesBuffers | sd_tag_organizer/utils.py:41-52 | The result is the strip of each piece. There is one token more than there are commas at net depth (0, 0), so there is always at least one token. |
| Tokenizer.SplitTokensStripped | sd_tag_organizer/utils.py:46-52 | No returned token starts or ends with whitespace. |
| Tokenizer.SplitTokensRoundTrip | sd_tag_organizer/utils.py:41-50 | Token `i` is the strip of piece `i`. The unstripped pieces joined with "," reproduce the prompt exactly. |
| Tokenizer.SplitTokensWithoutGrouping | sd_tag_organizer/utils.py:31-52 | On a prompt without `()[]` the result equals Python's `split(",")` followed by stripping each piece. |
| Tokenizer.SplitEmpty | sd_tag_organizer/utils.py:52 | The empty prompt yields `[""]`, because the final buffer is always appended. |
| Tokenizer.TwoTokens | sd_tag_organizer/utils.py:41-52 | A plain stripped head, ", ", then a comma-free stripped body give exactly the two tokens [head, body], whatever grouping the body contains. |
| Tokenizer.TrailingSeparator | sd_tag_organizer/utils.py:46-52 | A separator at the end leaves an empty last token. |
| Tokenizer.SplitTrailingComma | sd_tag_organizer/utils.py:46-52 | `"a,"` splits into `["a", ""]`. |
| Tokenizer.SplitDocstringExample | sd_tag_organizer/utils.py:18-20 | The docstring's example: "Zootopia, solo (((nick wilde))) with ((neck tuft))" gives two tokens, the second holding the nested groups. |
| Tokenizer.SplitUnbalancedExample | sd_tag_organizer/utils.py:34-43 | An unbalanced `)` drives the depth negative, and a comma after it does not split: `"),"` stays one token. |
| Dedup.RemoveDups | sd_tag_organizer/utils.py:67-86 | `remove_dups`: the loop appends a token when the pruned list lacks it or it is "BREAK"; the output is never longer than the input. RemoveDupsSpec and RemoveDupsIsKeepFirst state its result. |
| Dedup.RemoveDupsSpec | sd_tag_organizer/utils.py:79-86 | The output is an order-preserving subsequence of the input with the same set of values. Every value other than "BREAK" occurs at most once. Every "BREAK" of the input is kept. |
| Dedup.RemoveDupsIsKeepFirst | sd_tag_organizer/utils.py:81-84 | Equals the reference filter: keep position `i` iff the token is "BREAK" or does not occur earlier in the input. |
| Dedup.RemoveDupsFixpoint | sd_tag_organizer/utils.py:81-84 | A list in which only "BREAK" repeats is returned unchanged. |
| Dedup.RemoveDupsIdempotent | sd_tag_organizer/utils.py:76-86 | Deduplicating twice equals deduplicating once. |
| Dedup.RemoveDupsKeepsEveryBreak | sd_tag_organizer/utils.py:76-84 | For any token x other than "BREAK", [x, x, BREAK, x, BREAK] becomes [x, BREAK, BREAK]. |
| Dedup.RemoveDupsExample | sd_tag_organizer/utils.py:76-86 | The concrete instance with x = "x". |
| Completer.MatchesOf | sd_tag_organizer/completer.py:31-33 | The comprehension yields a subsequence of the pool, and every element contains the text. |
| Completer.MatchesOfCounts | sd_tag_organizer/completer.py:31-33 | The comprehension keeps every copy of each token containing the text and no copy of any other. With the order, this fixes the candidate list. |
| Completer.Index | sd_tag_organizer/completer.py:35-40 | Python indexing: a result exists iff `-len <= state < len`. A negative index counts from the end. Otherwise `IndexError` becomes `None`. |
| Completer.Complete | sd_tag_organizer/completer.py:13-42 | The pool is unchanged. The candidates form a subsequence of the pool, each containing the stripped text. For `state >= 0` the result is `None` exactly when `state` is past the last candidate, and otherwise it is candidate `state`, a pool token containing the stripped text. |
| Completer.CompleteBlank | sd_tag_organizer/completer.py:25-42 | With blank text, suggestion `state` is pool token `state`, or `None` when `state >= len(pool)`. |
| Completer.CompleteFiltered | sd_tag_organizer/completer.py:29-38 | With non-blank text, the candidates keep the pool's order. They hold every copy of each pool token containing the stripped text and no copy of any other. Suggestion `state` is candidate `state`, or `None` past the end. |
| Completer.CompleteIgnoresMatches | sd_tag_organizer/completer.py:28-33 | The previous `matches` has no influence on the suggestion. |
| Completer.RemoveTokens | sd_tag_organizer/completer.py:44-52 | `remove_tokens`: for each listed token in order, remove its first occurrence from the pool when it is there. RemoveTokensSpec states the resulting pool. |
| Completer.RemoveTokensSpec | sd_tag_organizer/completer.py:44-52 | The new pool is the multiset difference of the pool and the listed tokens. It keeps the pool's order and is shorter by at most the number of listed tokens. |
| Completer.RemoveTokensDisjoint | sd_tag_organizer/completer.py:51 | Listed tokens absent from the pool are ignored: a disjoint list leaves the pool unchanged. |
| Completer.RemoveTokensAppend | sd_tag_organizer/completer.py:50-52 | Removing `a` then `b` equals removing `a + b`, so the loop is a fold. |
| Completer.RemoveFirstOccurrenceExample | sd_tag_organizer/completer.py:50-52 | Removing ["a"] from ["a", "b", "a"] leaves ["b", "a"], so blank-text suggestion 1 is still "a". |
| Seqs.RemoveFirst | sd_tag_organizer/completer.py:52 | `list.remove(t)` on a pool that holds `t`; a pool without `t` is returned as it is. RemoveFirstAt states which element goes. |
| Seqs.RemoveFirstAt | sd_tag_organizer/completer.py:52 | `list.remove(t)` deletes exactly the first occurrence of `t`, wherever it is. |
| Seqs.RemoveFirstCount | sd_tag_organizer/completer.py:51-52 | Removing a present token drops exactly one copy of it and keeps the order of the rest. |
| Text.StripIsSlice | sd_tag_organizer/completer.py:25 | `strip()` returns a slice of the text with only whitespace cut away on either side. |
| Text.ContainsChar | sd_tag_organizer/categorize.py:51 | For a one-character needle, the substring test is membership of that character. |
| Categorize.Categories | sd_tag_organizer/categorize.py:29-31 | The categories asked for: the caller's list when it is non-empty, else the five defaults, in order. |
| Categorize.CategoryTokens | sd_tag_organizer/categorize.py:49-55 | A non-empty answer gives at least one token. Without a comma the answer itself is the only token. With a comma the tokens are the first occurrences of `split_tokens`' values plus every "BREAK", in order, as the reference first-occurrence filter states. |
| Categorize.MarkLast | sd_tag_organizer/categorize.py:57 | Prefix the last token of a category's non-empty list with "\n", leaving the list's length and other tokens as they were. |
| Categorize.Loop | sd_tag_organizer/categorize.py:35-61 | The category loop as written: it threads the output and the pool through the categories, skipping on an empty line or end of file and stopping on an interrupt. LoopIsGroups states its result. |
| Categorize.Groups | sd_tag_organizer/categorize.py:35-57 | At most one group per category, and every group is non-empty, so the `[-1]` on line 57 never fails. |
| Categorize.LoopIsGroups | sd_tag_organizer/categorize.py:35-61 | The loop appends the marked groups of the answered categories, in category order, and removes exactly those marked tokens from the pool. |
| Categorize.AppendMissing | sd_tag_organizer/categorize.py:63-66 | The final loop as written: append each prompt token not yet in the output. AppendMissingIsFresh states its result. |
| Categorize.AppendMissingIsFresh | sd_tag_organizer/categorize.py:63-66 | The final loop appends the first occurrence of each prompt token not already in the output, in prompt order. |
| Categorize.CategorizeTokens | sd_tag_organizer/categorize.py:15-68 | The output is the marked category tokens followed by the prompt tokens they lack. The new pool is `remove_tokens` of the marked tokens. |
| Categorize.CategorizeTokensKeepsPrompt | sd_tag_organizer/categorize.py:59-66 | Every prompt token is in the output. The pool loses one copy of each marked token it holds and keeps its order. `categorize_tokens` itself never assigns `matches`. |
| Categorize.CategorizeAllSkipped | sd_tag_organizer/categorize.py:40-66 | If every answer is empty or end of file, the output is the prompt with later repeats dropped (even "BREAK"), duplicate-free, and the completer is unchanged. |
| Categorize.GroupsAllSkipped | sd_tag_organizer/categorize.py:42-45 | Skipped categories contribute no tokens. |
| Categorize.GroupsSkip | sd_tag_organizer/categorize.py:42-45 | One empty or end-of-file answer adds nothing and removes nothing: dropping it with its category leaves the categorized tokens as they were. |
| Categorize.GroupsInterrupt | sd_tag_organizer/categorize.py:46-47 | An interrupt at prompt k ends the loop: later answers play no part. |
| Categorize.CategorizeInterrupt | sd_tag_organizer/categorize.py:46-66 | An interrupt keeps what was categorized before it, and the final append still runs: the result equals that of the answers cut at k. |
| Findings.MarkedTokenAppendedAgain | sd_tag_organizer/categorize.py:57-66 | As written, answering a single token `a` for a prompt [a, b] outputs ["\na", a, b]: the plain `a` is appended a second time. |
| Findings.MarkedTokenStaysInPool | sd_tag_organizer/categorize.py:57-59 | As written, that answer leaves the pool [a, b] unchanged, so `a` is still offered for completion. |
| Findings.MarkedTokenExample | sd_tag_organizer/categorize.py:57-66 | The concrete instance: prompt ["a", "b"], answer "a". |
| Findings.CategorizeFixed | sd_tag_organizer/categorize.py:15-68 | Corrected version: the output is the marked category tokens, then the prompt tokens neither in them nor categorized. The pool is the multiset difference with the unmarked categorized tokens. |
| Findings.CategorizeFixedIntended | sd_tag_organizer/categorize.py:57-66 | Corrected version: the output starts with the marked tokens. Nothing categorized is appended again. Every prompt token is categorized or appended. A categorized token the pool held once is no longer offered. |
| Findings.FixedRemovesCategorized | sd_tag_organizer/categorize.py:57-66 | On the same input the corrected version outputs ["\na", b] and leaves the pool [b]. |
| Legacy.LegacyLoop | categorize-tokens.py:122-141 | The script's category loop returns the dict it was given, whatever the answers. |
| Legacy.LegacyCategorize | categorize-tokens.py:106-147 | The script's `categorize_tokens` returns its input list, whether answers are skipped, interrupted or given. |

## Left out

- Readline wiring is terminal I/O and is not modelled: `init_completer`, `readline.clear_history`, `set_completer_delims`, `set_completer` and `parse_and_bind`.
- `print_token_list` and every `print` are not modelled, because they only produce output.
- `input()` with its `EOFError` and `KeyboardInterrupt` becomes the `Response` sequence. Once the sequence runs out, every further prompt reads as end of file.
- `sd_tag_organizer/__main__.py` is not part of this model. The same goes for the script's `main()`: argument parsing, reading `prompt.txt`, the display sort, writing the output file and `lstrip`. That entry point also calls `categorize_tokens` with two arguments against a three-parameter signature, a run-time error outside the model.
- List aliasing is not modelled. The pool and the prompt tokens are separate values, though the program can pass the same list object as both.
- Completer.NewCompleter: `matches` is `[]` until the first `complete`. In Python the attribute does not exist before then; nothing in the core reads it earlier.
- Text.IsSpace: `str.strip` is modelled over Python's `isspace` character set as a fixed list. There is no Unicode normalisation.
- Categorize.CategorizeTokensKeepsPrompt: `matches` is promised unchanged only because the model has no completion calls during the prompts and no list sharing. In the program, readline calls `complete` while `input()` waits (sd_tag_organizer/categorize.py:41), which reassigns `matches`. After a blank-text call `matches` is the pool list itself (sd_tag_organizer/completer.py:28), so `remove_tokens` changes it as well.
- Completer.Complete: `state` is any integer with Python's negative indexing. The `None`-exactly-past-the-end clause is stated for `state >= 0`, the only values readline passes.

## Findings

| source | as written | input that shows it | evidently intended | confidence | as-written member | corrected member |
|---|---|---|---|---|---|---|
| sd_tag_organizer/categorize.py:57-66 | The last token of each category gets its "\n" marker before it is passed to `remove_tokens` and before it joins the list the final loop checks. | Prompt ["a", "b"], pool ["a", "b"], one category answered "a": output ["\na", "a", "b"], pool still ["a", "b"]. | The categorized token leaves the completion pool and is not appended again; only the output copy carries the marker. | not executed | Findings.MarkedTokenAppendedAgain | Findings.CategorizeFixedIntended |
