# ai-code-reviewer, modelled in Dafny

The reviewer fetches a pull request's changed files and joins their patches into one diff. It counts the diff's lines naively and asks a language model for review prose. It then posts the analysis sentence and the generated text as one review body. This project models the string logic in `src/main.py` and proves what it does:

- `PyText` gives the Python built-ins the code relies on. These are `str.split` and `str.join` with a one-character separator, and the decimal rendering of an `int` in an f-string.
- `CodeAnalyzer` models `CodeAnalyzer.analyze_diff`: `len(diff.split('\n'))` placed in a fixed sentence.
- `ReviewPipeline` models the truthiness filter and newline join of the patches in `main`, the review-body f-string, and `main`'s sequence from fetch to post. In that sequence, each external call is given only by its outcome.
- `Wrappers` holds `Option` (Python's `None` or a value) and `Result` (a value, or the message of the exception that aborted the run).

The count is the source's naive split, not a true line count. An empty diff reports 1. A diff ending in a newline counts an extra, empty, trailing segment. Consecutive newlines each add a segment. The model keeps this convention exactly as the code has it, and the lemmas below state it.

## Model

| member | source | states |
|---|---|---|
| PyText.Split | src/main.py:42 | `s.split(sep)` always yields at least one segment, and no segment contains the separator |
| PyText.SplitLength | src/main.py:42 | the number of segments is the number of separators plus one |
| PyText.JoinSplit | src/main.py:42 | joining the segments with the separator gives the original string back, so splitting neither drops nor merges anything |
| PyText.SplitAround | src/main.py:42 | splitting `a + sep + b` gives the segments of `a` followed by those of `b` |
| PyText.Join | src/main.py:64 | `sep.join(parts)` is `""` for no parts; for one part or more its separators number the parts' own plus one fewer than the parts (where they stand is stated by `SplitJoin`) |
| PyText.SplitJoin | src/main.py:64 | for one part or more, the segments of `sep.join(parts)` are the segments of each part, in order, so the added separators stand exactly between the parts (for no parts the join is `""`, one empty segment; see `AggregateSegments`) |
| PyText.SplitJoinInverse | src/main.py:64 | for one part or more, splitting the join of separator-free parts gives the parts back (for no parts it gives `[""]`, not `[]`) |
| PyText.SplitEachLength | src/main.py:42 | the segments of a list of parts number the sum of (separators + 1) over the parts |
| PyText.Decimal | src/main.py:43 | the rendering of a count is a non-empty string of digits with no leading zero unless it is "0" |
| PyText.DecimalRoundTrip | src/main.py:43 | reading the rendering back as a decimal gives the count |
| PyText.DecimalCanonical | src/main.py:43 | every canonical digit string is the rendering of its value, so the rendering is a bijection onto canonical digit strings |
| PyText.DecimalInjective | src/main.py:43 | different counts render differently |
| CodeAnalyzer.LinesChanged | src/main.py:42 | `len(diff.split('\n'))` equals the number of newlines in the diff plus one, so it is at least 1 |
| CodeAnalyzer.AnalyzeDiff | src/main.py:39-43 | the sentence reads back, as lead text, decimal count and trail text, to exactly newlines + 1; it holds no newline |
| CodeAnalyzer.AnalysisSentence | src/main.py:43 | the sentence is exactly "Analysis of diff: ", the decimal rendering of newlines + 1, and " lines changed" |
| CodeAnalyzer.SingleSegment | src/main.py:42 | the count is 1 if and only if the diff holds no newline |
| CodeAnalyzer.ReportedCountOf | src/main.py:43 | the sentence built from a canonical count reads back as that count and holds no newline |
| CodeAnalyzer.ReportedCountExact | src/main.py:43 | any sentence that reads back as count n is exactly "Analysis of diff: " + str(n) + " lines changed" |
| CodeAnalyzer.TrailingNewline | src/main.py:42 | a trailing newline adds one empty segment and raises the count by one |
| CodeAnalyzer.ConsecutiveNewlines | src/main.py:42 | two adjacent newlines leave an empty segment between them; they are not collapsed |
| CodeAnalyzer.EmptyDiff | src/main.py:42-43 | the empty diff splits to `[""]` and reports "Analysis of diff: 1 lines changed" |
| CodeAnalyzer.ThreeLines | src/main.py:42-43 | "a\nb\nc" reports 3 lines |
| ReviewPipeline.KeptPatches | src/main.py:64 | the kept patches are no more than the files, and each is non-empty |
| ReviewPipeline.KeptSingle | src/main.py:64 | one file contributes its patch exactly when the patch is neither `None` nor `""` |
| ReviewPipeline.KeptAppend | src/main.py:64 | filtering distributes over concatenation of the file list, so relative order is preserved |
| ReviewPipeline.KeptMembers | src/main.py:64 | a string is kept if and only if it is non-empty and some file carries it as its patch |
| ReviewPipeline.KeptAll | src/main.py:64 | when every patch is truthy, all are kept in order, repeats included; there is no de-duplication |
| ReviewPipeline.AggregateDiff | src/main.py:64 | the full diff is `""` if and only if no patch is kept; otherwise its newlines plus one equal the sum of (newlines + 1) over the kept patches |
| ReviewPipeline.AggregateSegments | src/main.py:64-65 | the segments of the full diff are the segments of the kept patches in file order, or `[""]` when none is kept |
| ReviewPipeline.AggregateLines | src/main.py:64-65 | the reported count of the full diff is the sum over the kept patches of (newlines + 1), and 1 when none is kept |
| ReviewPipeline.EmptyPatchDropped | src/main.py:64 | patches "a", "" and "b" give the diff "a\nb" |
| ReviewPipeline.ComposeReview | src/main.py:69 | the body starts with the analysis, continues with "\n\nAI Review:\n", and ends with the generated text unchanged; its length is the sum of the three |
| ReviewPipeline.ReviewRoundTrip | src/main.py:69 | a body built from a single-line analysis splits back into that analysis and the generated text |
| ReviewPipeline.ReviewSplitExact | src/main.py:69 | any body that splits into two parts is their composition, and its analysis part is a single line |
| ReviewPipeline.ReviewBodyParts | src/main.py:64-69 | the posted body splits into the analysis of the full diff and the generated text, and the analysis reads back as the diff's newline count plus one |
| ReviewPipeline.Run | src/main.py:58-72 | a failed fetch or a failed generation aborts with its message unchanged and makes no post call; otherwise the post call is made exactly once, with the review body of the fetched patches and the generated text; a failed post aborts with the post's message unchanged; the run succeeds if and only if fetch, generation and post all succeed, and its result is then the posted body |
| ReviewPipeline.TwoFilesOneWithoutPatch | src/main.py:58-72 | with two single-line patches and a file without a patch, the one post call carries "Analysis of diff: 2 lines changed", the header and the generated text, and the run returns that body |
| ReviewPipeline.EndToEnd | src/main.py:58-72 | patches "diff1", "diff2" and none, with the answer "Looks good.", make one post call, with "Analysis of diff: 2 lines changed\n\nAI Review:\nLooks good.", and the run returns that body |

## Left out

- `GitHubIntegration` (src/main.py:9-21) calls a hosting-service client library that is not part of this model. `Run` receives the outcome of `get_repo`/`get_pull`/`get_files` as one `Result` of the files' patches, and `create_review` as a function from body to outcome. Pagination and the library's error kinds are not modelled; an error is only its message.
- `AIIntegration` (src/main.py:23-36) is a remote completion request. Its model name, system prompt, response indexing and the global `openai.api_key` are left out. Its answer is an arbitrary function from diff text to outcome, so nothing is assumed about the generated text.
- Changed files are represented by their `patch` attribute alone (`Option<string>`), since nothing else of a file is read.
- Configuration in `main` (src/main.py:7, 47-50) is left out: `load_dotenv`, `os.getenv`, and the `int()` parse of `PR_NUMBER`. Their failures belong to the process environment and to Python built-ins.
- The success message printed at src/main.py:74 and the process exit status are I/O only.
- `Run` records each body passed to the post call and models a failed post as an `Err` result. It does not model whether a review is visible on the service after the post reports a failure.
- Python strings are modelled as sequences of Unicode scalar values (`char`). Nothing in the modelled code depends on the encoding.
