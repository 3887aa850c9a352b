/** The feed-list side of the backend entry point: turning the text of the
    feed list into feed jobs, and the `add` requests that are issued to the
    feed queue for those jobs. */
module Backend {
  import opened JsString

  /** A unit of work for the feed queue: `{ url }`. */
  datatype FeedJob = FeedJob(url: string)

  /** `backoff` option of a queue job: the retry delay policy and its base delay in milliseconds. */
  datatype Backoff = Backoff(kind: string, delay: nat)

  /** Options passed with every `add` to the feed queue. */
  datatype JobOptions = JobOptions(attempts: nat, backoff: Backoff, removeOnComplete: bool, removeOnFail: bool)

  /** One call `feedQueue.add(job, options)`. */
  datatype AddRequest = AddRequest(job: FeedJob, options: JobOptions)

  /** The retry configuration every feed job is enqueued with: eight attempts,
      exponential backoff from one minute, and no retention of finished jobs. */
  const FeedJobOptions := JobOptions(8, Backoff("exponential", 60 * 1000), true, true)

  /** The line filter: a line is kept exactly when it begins with `http`. */
  predicate IsFeedLine(line: string)
  {
    "http" <= line
  }

  /** `lines.filter(line => line.startsWith('http'))`. */
  function FeedLines(lines: seq<string>): (urls: seq<string>)
    ensures |urls| <= |lines|
    ensures forall u :: u in urls ==> u in lines && IsFeedLine(u)
    ensures forall l :: l in lines && IsFeedLine(l) ==> l in urls
  {
    if lines == [] then []
    else if IsFeedLine(lines[0]) then [lines[0]] + FeedLines(lines[1..])
    else FeedLines(lines[1..])
  }

  /** `urls.map(url => ({ url }))`. */
  function ToFeedJobs(urls: seq<string>): seq<FeedJob>
  {
    if urls == [] then [] else [FeedJob(urls[0])] + ToFeedJobs(urls[1..])
  }

  /** The urls carried by a list of jobs. */
  function Urls(jobs: seq<FeedJob>): seq<string>
  {
    if jobs == [] then [] else [jobs[0].url] + Urls(jobs[1..])
  }

  /** `processFeedUrls(lines)`: every line of the text that begins with
      `http`, wrapped as a feed job. Each url is one whole line: it begins
      with `http` and holds no LF. */
  function ProcessFeedUrls(text: string): (jobs: seq<FeedJob>)
    ensures forall j :: j in jobs ==> IsFeedLine(j.url) && j.url in SplitLines(text) && '\n' !in j.url
  {
    var lines := SplitLines(text);
    ToFeedJobsMembers(FeedLines(lines));
    ToFeedJobs(FeedLines(lines))
  }

  /** The requests `enqueueFeedJobs` issues: one per job, in list order. */
  function AddRequests(jobs: seq<FeedJob>): seq<AddRequest>
  {
    if jobs == [] then [] else [AddRequest(jobs[0], FeedJobOptions)] + AddRequests(jobs[1..])
  }

  /** `enqueueFeedJobs(feedJobs)`: walks the list and issues one
      `feedQueue.add(job, options)` per job; `issued` is the sequence of those
      calls in the order they are made. */
  method EnqueueFeedJobs(feedJobs: seq<FeedJob>) returns (issued: seq<AddRequest>)
    ensures issued == AddRequests(feedJobs)
    ensures |issued| == |feedJobs|
    ensures forall i :: 0 <= i < |issued| ==> issued[i].job == feedJobs[i]
    ensures forall i :: 0 <= i < |issued| ==>
      issued[i].options == JobOptions(8, Backoff("exponential", 60000), true, true)
  {
    issued := [];
    for i := 0 to |feedJobs|
      invariant issued == AddRequests(feedJobs[..i])
      invariant |issued| == i
      invariant forall j :: 0 <= j < i ==> issued[j] == AddRequest(feedJobs[j], FeedJobOptions)
    {
      assert feedJobs[..i + 1] == feedJobs[..i] + [feedJobs[i]];
      AddRequestsConcat(feedJobs[..i], [feedJobs[i]]);
      issued := issued + [AddRequest(feedJobs[i], FeedJobOptions)];
    }
    assert feedJobs[..|feedJobs|] == feedJobs;
  }

  // ---------------------------------------------------------------------------
  // Properties of the filter and the mapping

  /** Wrapping keeps the urls: the jobs carry the given urls, in order. */
  lemma {:induction false} ToFeedJobsUrls(urls: seq<string>)
    ensures Urls(ToFeedJobs(urls)) == urls
  {
    if urls != [] {
      ToFeedJobsUrls(urls[1..]);
    }
  }

  /** A job is in the wrapped list exactly when its url is in the url list. */
  lemma {:induction false} ToFeedJobsMembers(urls: seq<string>)
    ensures |ToFeedJobs(urls)| == |urls|
    ensures forall j :: j in ToFeedJobs(urls) <==> j.url in urls
  {
    if urls != [] {
      ToFeedJobsMembers(urls[1..]);
      assert urls == [urls[0]] + urls[1..];
    }
  }

  /** Wrapping distributes over concatenation. */
  lemma {:induction false} ToFeedJobsConcat(a: seq<string>, b: seq<string>)
    ensures ToFeedJobs(a + b) == ToFeedJobs(a) + ToFeedJobs(b)
  {
    if a != [] {
      assert (a + b)[0] == a[0] && (a + b)[1..] == a[1..] + b;
      ToFeedJobsConcat(a[1..], b);
    } else {
      assert a + b == b;
    }
  }

  /** The filter keeps the order of the lines: filtering a concatenation is
      concatenating the filtered parts. */
  lemma {:induction false} FeedLinesConcat(a: seq<string>, b: seq<string>)
    ensures FeedLines(a + b) == FeedLines(a) + FeedLines(b)
  {
    if a != [] {
      assert (a + b)[0] == a[0] && (a + b)[1..] == a[1..] + b;
      FeedLinesConcat(a[1..], b);
    } else {
      assert a + b == b;
    }
  }

  /** The filter neither duplicates nor loses a line: each line beginning with
      `http` occurs in the result as often as in the input, any other not at all. */
  lemma {:induction false} FeedLinesMultiplicity(lines: seq<string>, u: string)
    ensures multiset(FeedLines(lines))[u] == if IsFeedLine(u) then multiset(lines)[u] else 0
  {
    if lines != [] {
      FeedLinesMultiplicity(lines[1..], u);
      assert lines == [lines[0]] + lines[1..];
      assert multiset(lines) == multiset([lines[0]]) + multiset(lines[1..]);
    }
  }

  // ---------------------------------------------------------------------------
  // Properties of processFeedUrls

  /** A single line (no LF) yields one job when it begins with `http`, however
      the rest of it looks, and none otherwise; a lone CR stays in the url. */
  lemma ProcessSingleLine(line: string)
    requires '\n' !in line
    ensures ProcessFeedUrls(line) == if IsFeedLine(line) then [FeedJob(line)] else []
  {
    SingleLine(line);
    assert [line][1..] == [];
    var urls := FeedLines([line]);
    assert urls == if IsFeedLine(line) then [line] else [];
    if urls != [] {
      assert urls[1..] == [];
      assert ToFeedJobs(urls) == [FeedJob(line)] + ToFeedJobs([]);
    }
  }

  /** Order is preserved across a separator: the jobs of `a`, then those of `b`. */
  lemma ProcessConcat(a: string, sep: string, b: string)
    requires sep == "\r\n" || (sep == "\n" && !EndsInCR(a))
    ensures ProcessFeedUrls(a + sep + b) == ProcessFeedUrls(a) + ProcessFeedUrls(b)
  {
    SplitLinesConcat(a, sep, b);
    FeedLinesConcat(SplitLines(a), SplitLines(b));
    ToFeedJobsConcat(FeedLines(SplitLines(a)), FeedLines(SplitLines(b)));
  }

  /** One line and its separator: the line contributes its own job, if it
      begins with `http`, ahead of the jobs of the rest of the text. */
  lemma ProcessLineThenRest(line: string, sep: string, rest: string)
    requires '\n' !in line
    requires sep == "\r\n" || (sep == "\n" && !EndsInCR(line))
    ensures ProcessFeedUrls(line + sep + rest) ==
      (if IsFeedLine(line) then [FeedJob(line)] else []) + ProcessFeedUrls(rest)
  {
    ProcessSingleLine(line);
    ProcessConcat(line, sep, rest);
  }

  /** There are at most as many jobs as lines: one more than the number of LF
      characters in the text. */
  lemma ProcessCount(text: string)
    ensures |ProcessFeedUrls(text)| <= multiset(text)['\n'] + 1
  {
    SplitLinesCount(text);
    ToFeedJobsMembers(FeedLines(SplitLines(text)));
  }

  /** The urls of the result are exactly the split lines that begin with
      `http`: each one as many times as it occurs among the lines. */
  lemma ProcessUrlCount(text: string, u: string)
    ensures multiset(Urls(ProcessFeedUrls(text)))[u] ==
      if IsFeedLine(u) then multiset(SplitLines(text))[u] else 0
  {
    ToFeedJobsUrls(FeedLines(SplitLines(text)));
    FeedLinesMultiplicity(SplitLines(text), u);
  }

  /** A job with url `u` is produced exactly when `u` is one of the lines
      and begins with `http`. */
  lemma ProcessMembers(text: string, u: string)
    ensures FeedJob(u) in ProcessFeedUrls(text) <==> u in SplitLines(text) && IsFeedLine(u)
  {
  }

  /** Nothing is produced exactly when no line begins with `http`. */
  lemma ProcessEmpty(text: string)
    ensures ProcessFeedUrls(text) == [] <==> forall l :: l in SplitLines(text) ==> !IsFeedLine(l)
  {
  }

  // ---------------------------------------------------------------------------
  // Properties of the enqueue requests

  /** The requests for a concatenation are those of each part, in order. */
  lemma {:induction false} AddRequestsConcat(a: seq<FeedJob>, b: seq<FeedJob>)
    ensures AddRequests(a + b) == AddRequests(a) + AddRequests(b)
  {
    if a != [] {
      assert (a + b)[0] == a[0] && (a + b)[1..] == a[1..] + b;
      AddRequestsConcat(a[1..], b);
    } else {
      assert a + b == b;
    }
  }

  /** Two jobs give two requests, in the same order. */
  lemma AddRequestsPair(x: FeedJob, y: FeedJob)
    ensures AddRequests([x, y]) == [AddRequest(x, FeedJobOptions), AddRequest(y, FeedJobOptions)]
  {
    var jobs := [x, y];
    assert jobs[1..] == [y] && jobs[1..][1..] == [];
    assert AddRequests(jobs[1..]) == [AddRequest(y, FeedJobOptions)] + AddRequests([]);
  }

  /** A line ended by CRLF: the whole separator goes, so the url has no trailing CR. */
  lemma CRLFEndedLine(line: string)
    requires '\n' !in line && IsFeedLine(line)
    ensures ProcessFeedUrls(line + "\r\n") == [FeedJob(line)]
  {
    assert line + "\r\n" == line + "\r\n" + "";
    ProcessConcat(line, "\r\n", "");
    ProcessSingleLine(line);
    ProcessSingleLine("");
  }

  /** A last line ending in a CR that no LF follows keeps that CR in its url. */
  lemma LoneCRKept(line: string)
    requires '\n' !in line && IsFeedLine(line)
    ensures ProcessFeedUrls(line + "\r") == [FeedJob(line + "\r")]
  {
    assert (line + "\r")[..4] == line[..4];
    assert forall c :: c in line + "\r" ==> c in line || c == '\r';
    ProcessSingleLine(line + "\r");
  }

  /** An LF-ended line that does not begin with `http` contributes no job,
      whether or not it ends in CR (a CR there joins the LF as a CRLF). */
  lemma NonFeedLineThenRest(f: string, rest: string)
    requires '\n' !in f && !IsFeedLine(f)
    ensures ProcessFeedUrls(f + "\n" + rest) == ProcessFeedUrls(rest)
  {
    if EndsInCR(f) {
      var g := f[..|f| - 1];
      assert f + "\n" + rest == g + "\r\n" + rest;
      assert forall c :: c in g ==> c in f;
      assert "http" <= g ==> "http" <= f;
      ProcessLineThenRest(g, "\r\n", rest);
    } else {
      ProcessLineThenRest(f, "\n", rest);
    }
  }

  /** Three LF-ended lines, the middle one not beginning with `http`: the
      jobs of the outer two, in order. */
  lemma ProcessThreeLines(a: string, f: string, b: string)
    requires '\n' !in a && '\n' !in f && '\n' !in b
    requires !EndsInCR(a) && !EndsInCR(b)
    requires IsFeedLine(a) && !IsFeedLine(f) && IsFeedLine(b)
    ensures ProcessFeedUrls(a + "\n" + (f + "\n" + (b + "\n" + ""))) == [FeedJob(a), FeedJob(b)]
  {
    var t3 := b + "\n" + "";
    var t2 := f + "\n" + t3;
    assert ProcessFeedUrls("") == [] by { ProcessSingleLine(""); }
    ProcessLineThenRest(b, "\n", "");
    NonFeedLineThenRest(f, t3);
    ProcessLineThenRest(a, "\n", t2);
  }

  /** The feed list end to end: two url lines with a line between them that
      does not begin with `http`, each ended by LF, give exactly two `add`
      requests, one per url, in order. */
  lemma FeedListScenario(a: string, f: string, b: string)
    requires '\n' !in a && '\n' !in f && '\n' !in b
    requires !EndsInCR(a) && !EndsInCR(b)
    requires IsFeedLine(a) && !IsFeedLine(f) && IsFeedLine(b)
    ensures AddRequests(ProcessFeedUrls(a + "\n" + f + "\n" + b + "\n")) ==
      [AddRequest(FeedJob(a), FeedJobOptions), AddRequest(FeedJob(b), FeedJobOptions)]
  {
    assert a + "\n" + (f + "\n" + (b + "\n" + "")) == a + "\n" + f + "\n" + b + "\n";
    ProcessThreeLines(a, f, b);
    AddRequestsPair(FeedJob(a), FeedJob(b));
  }
}
