# Telescope backend: feed list parsing and enqueueing

This project models the feed-list side of the Telescope backend entry point
(`src/backend/index.js`). Two things happen there:

- `processFeedUrls` turns the text of the feed list into feed jobs. It splits
  the text into lines at every match of `/\r?\n/`. It keeps the lines that
  begin with `http`. It wraps each kept line as `{ url }`.
- `enqueueFeedJobs` walks the list of jobs. For each job it calls
  `feedQueue.add(job, options)` once, always with the same options: 8 attempts,
  exponential backoff with a 60000 ms base delay, `removeOnComplete` and
  `removeOnFail` both true.

The model has two modules:

- `JsString` (`js_string.dfy`) gives the JavaScript semantics of
  `split(/\r?\n/)` as `SplitLines`. The split of the empty text is `[""]`.
  The leftmost match that ends at an LF starts at the CR before it when there
  is one, so a CRLF is consumed whole. A CR with no LF after it is ordinary
  text. `JoinLines` (`Array.prototype.join`) and `CollapseCRLF` (remove every
  CR that directly precedes an LF) are the reference definitions the split is
  proved against, in both directions.
- `Backend` (`backend.dfy`) holds the feed job, the filter (`FeedLines`), the
  mapping (`ToFeedJobs`), `ProcessFeedUrls`, and the `add` requests.
  `EnqueueFeedJobs` is a method with a loop. It returns the sequence of
  `add` calls it issues, in order. `AddRequests` is the function that
  specifies it.

The `forEach` callback is `async`, but each callback calls `feedQueue.add`
before its first `await`. So the adds are issued one per job, in list order,
and that order is what the model records.

The filter is the bare prefix test `startsWith('http')`. It does no URL
check and no de-duplication, so duplicate lines give duplicate jobs
(`FeedLinesMultiplicity`). `enqueueFeedJobs` neither awaits nor collects the
per-job promises, so a failed `add` is not reported to its caller.

## Model

| member | source | states |
|---|---|---|
| `JsString.SplitLines` | src/backend/index.js:22 | the split always has at least one piece, and no piece contains an LF |
| `JsString.SplitLinesCount` | src/backend/index.js:22 | the number of pieces is the number of LF characters plus one |
| `JsString.SingleLine` | src/backend/index.js:22 | a text without LF is one piece, CR characters included |
| `JsString.LineThenRest` | src/backend/index.js:22 | a line followed by CRLF, or by an LF when the line does not end in CR, is one piece and the separator is consumed whole |
| `JsString.SplitLinesConcat` | src/backend/index.js:22 | splitting distributes over a CRLF, and over an LF not preceded by CR: the pieces of the two sides, in order |
| `JsString.SplitOfCRLFJoin` | src/backend/index.js:22 | splitting the CRLF-join of any non-empty list of LF-free lines gives the list back |
| `JsString.SplitOfLFJoin` | src/backend/index.js:22 | splitting the LF-join of LF-free lines, none but the last ending in CR, gives the list back |
| `JsString.JoinOfSplit` | src/backend/index.js:22 | joining the pieces with LF gives the text with every CRLF turned into LF and every lone CR kept in place |
| `JsString.RoundTripWithoutCR` | src/backend/index.js:22 | for a text without CR, joining the pieces with LF reproduces the text exactly |
| `Backend.FeedLines` | src/backend/index.js:24 | the filter keeps at most all lines; every kept line is an input line that begins with `http`, and every input line that begins with `http` is kept |
| `Backend.FeedLinesConcat` | src/backend/index.js:24 | the filter keeps input order: filtering a concatenation concatenates the filtered parts |
| `Backend.FeedLinesMultiplicity` | src/backend/index.js:24 | a line beginning with `http` occurs in the result as often as in the input; any other line does not occur |
| `Backend.ToFeedJobsUrls` | src/backend/index.js:26 | wrapping as `{ url }` keeps every url unchanged and in order |
| `Backend.ToFeedJobsMembers` | src/backend/index.js:26 | wrapping gives one job per url, and a job is present exactly when its url is |
| `Backend.ToFeedJobsConcat` | src/backend/index.js:26 | wrapping distributes over concatenation |
| `Backend.ProcessFeedUrls` | src/backend/index.js:18-28 | every returned url begins with `http`, is one of the split lines, and contains no LF |
| `Backend.ProcessSingleLine` | src/backend/index.js:20-26 | a text without LF gives one job with the whole text as url when it begins with `http`, whatever follows the prefix, and no job otherwise |
| `Backend.ProcessLineThenRest` | src/backend/index.js:20-26 | a line and its separator contribute that line's job, if any, ahead of the jobs of the rest of the text |
| `Backend.ProcessConcat` | src/backend/index.js:20-26 | the jobs of a text joined at a CRLF, or at an LF not preceded by CR, are the jobs of each side, in order |
| `Backend.NonFeedLineThenRest` | src/backend/index.js:22-24 | an LF-ended line that does not begin with `http` contributes no job, whether or not it ends in CR |
| `Backend.ProcessCount` | src/backend/index.js:22-24 | there are at most as many jobs as the number of LF characters plus one |
| `Backend.ProcessUrlCount` | src/backend/index.js:20-26 | each url occurs among the jobs exactly as often as it occurs among the split lines when it begins with `http`, and never otherwise |
| `Backend.ProcessMembers` | src/backend/index.js:20-26 | a job with url `u` is produced if and only if `u` is a split line that begins with `http` |
| `Backend.ProcessEmpty` | src/backend/index.js:22-24 | no job is produced if and only if no split line begins with `http` |
| `Backend.CRLFEndedLine` | src/backend/index.js:22 | a url line ended by CRLF gives its url without the trailing CR |
| `Backend.LoneCRKept` | src/backend/index.js:22 | a final url line ending in a CR with no LF after it keeps the CR in its url |
| `Backend.EnqueueFeedJobs` | src/backend/index.js:34-47 | exactly one `add` per job, in list order, each with the job unchanged and options attempts 8, exponential backoff with delay 60000, removeOnComplete and removeOnFail true |
| `Backend.AddRequestsConcat` | src/backend/index.js:35-45 | the requests for a concatenation of job lists are those of each list, in order |
| `Backend.FeedListScenario` | src/backend/index.js:18-47 | two url lines around a non-url line, each ended by LF, give exactly two `add` requests, one per url, in order |

## Left out

- Reading `feeds.txt` and the `process.exit(-1)` when it cannot be read (src/backend/index.js:52-57): file I/O and process control.
- Starting the web server (src/backend/index.js:12) and all logging through `logger` (src/backend/index.js:6,10,36,54,67): side effects with no result the feed list depends on.
- What `feedQueue.add` and `feedWorker.start()` do (src/backend/index.js:7-8,37,64): they are calls into the queue and worker modules, which are not part of this model. Job storage, claiming, retry scheduling, the backoff delay formula, retention and lease recovery all live there. The model records only the `add` requests issued.
- The promise behaviour of `enqueueFeedJobs` (src/backend/index.js:35-46): the returned promise does not wait for the adds. When the adds complete, and what happens when one rejects, are not modelled. Only the sequence of issued requests is.
- JavaScript strings are sequences of UTF-16 code units; the model uses Dafny `char` sequences. Both the split and the prefix test compare single units, so this makes no difference to the results.
