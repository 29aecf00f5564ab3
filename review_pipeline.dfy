/** What `main` does with the pull request's files once they are fetched:
    join the present patches into one diff, analyse it, put the analysis
    and the generated review into one body, and post it. The hosting
    service and the completion service appear only through the outcomes
    of their calls. */
module ReviewPipeline {
  import opened Wrappers
  import opened PyText
  import opened CodeAnalyzer

  /** Python truthiness of a file's `patch`: `None` and `""` are false. */
  predicate Present(patch: Option<string>) {
    patch.Some? && |patch.value| > 0
  }

  /** `[f.patch for f in pr_files if f.patch]`, given the files' patches
      in the order the service returned them. */
  function KeptPatches(patches: seq<Option<string>>): (kept: seq<string>)
    ensures |kept| <= |patches|
    ensures forall i :: 0 <= i < |kept| ==> |kept[i]| > 0
    decreases |patches|
  {
    if |patches| == 0 then []
    else if Present(patches[0]) then [patches[0].value] + KeptPatches(patches[1..])
    else KeptPatches(patches[1..])
  }

  /** `"\n".join(...)` of the kept patches: the full diff sent for review.
      It is empty exactly when no patch is kept; otherwise it holds one
      newline between each two kept patches besides their own. */
  function AggregateDiff(patches: seq<Option<string>>): (diff: string)
    ensures diff == "" <==> KeptPatches(patches) == []
    ensures KeptPatches(patches) != [] ==>
      Occurrences(diff, Newline) + 1 == SegmentSum(KeptPatches(patches), Newline)
  {
    var kept := KeptPatches(patches);
    if kept == [] then Join(kept, Newline)
    else
      JoinStartsWith(kept, Newline);
      Join(kept, Newline)
  }

  /** The fixed text between the analysis and the generated review. */
  const Header: string := "\n\nAI Review:\n"

  /** `f"{analysis}\n\nAI Review:\n{ai_review}"`. */
  function ComposeReview(analysis: string, aiReview: string): (body: string)
    ensures |body| == |analysis| + |Header| + |aiReview|
    ensures body[..|analysis|] == analysis
    ensures body[|analysis|..|analysis| + |Header|] == Header
    ensures body[|analysis| + |Header|..] == aiReview
  {
    analysis + Header + aiReview
  }

  /** The review body `main` posts for these patches and this generated text. */
  function ReviewBody(patches: seq<Option<string>>, aiReview: string): string
  {
    ComposeReview(AnalyzeDiff(AggregateDiff(patches)), aiReview)
  }

  /** Index of the first `c` in `s`, if any. */
  function FirstIndex(s: string, c: char): (r: Option<nat>)
    ensures r.Some? ==> r.value < |s| && s[r.value] == c && c !in s[..r.value]
    ensures r.None? ==> c !in s
    decreases |s|
  {
    if |s| == 0 then None
    else if s[0] == c then Some(0)
    else match FirstIndex(s[1..], c)
      case None => None
      case Some(i) => assert s[..i + 1] == [s[0]] + s[1..][..i]; Some(i + 1)
  }

  /** Takes a posted body apart: the single-line analysis before the header
      and the generated text after it; `None` when the body has another shape. */
  function SplitReview(body: string): Option<(string, string)>
  {
    match FirstIndex(body, Newline)
    case None => None
    case Some(i) =>
      if |body| - i >= |Header| && body[i..i + |Header|] == Header
      then Some((body[..i], body[i + |Header|..]))
      else None
  }

  /** What a run leaves behind: its result (the posted body, or the message
      of the exception that aborted it) and the bodies it passed to the post
      call, in order. */
  datatype RunOutcome = RunOutcome(result: Result<string>, postCalls: seq<string>)

  /** main's sequence from fetching the files to posting the review. Each
      external call is given by its outcome: `fetched` for `get_pull` and
      `get_files`, `generate` for the completion request on the full diff,
      `post` for `create_review`. The first failure aborts the run with its
      message unchanged; the post call is made only once generation has
      succeeded, and then exactly once, with the review body. */
  function Run(
    fetched: Result<seq<Option<string>>>,
    generate: string -> Result<string>,
    post: string -> Result<()>
  ): (r: RunOutcome)
    ensures fetched.Err? ==> r == RunOutcome(Err(fetched.message), [])
    ensures fetched.Ok? && generate(AggregateDiff(fetched.value)).Err? ==>
      r == RunOutcome(Err(generate(AggregateDiff(fetched.value)).message), [])
    ensures fetched.Ok? && generate(AggregateDiff(fetched.value)).Ok? ==>
      var body := ReviewBody(fetched.value, generate(AggregateDiff(fetched.value)).value);
      && r.postCalls == [body]
      && (post(body).Err? ==> r.result == Err(post(body).message))
      && (post(body).Ok? ==> r.result == Ok(body))
    ensures r.result.Ok? <==>
      && fetched.Ok?
      && generate(AggregateDiff(fetched.value)).Ok?
      && post(ReviewBody(fetched.value, generate(AggregateDiff(fetched.value)).value)).Ok?
  {
    match fetched
    case Err(m) => RunOutcome(Err(m), [])
    case Ok(patches) =>
      var diff := AggregateDiff(patches);
      var analysis := AnalyzeDiff(diff);
      match generate(diff)
      case Err(m) => RunOutcome(Err(m), [])
      case Ok(aiReview) =>
        var body := ComposeReview(analysis, aiReview);
        match post(body)
        case Err(m) => RunOutcome(Err(m), [body])
        case Ok(_) => RunOutcome(Ok(body), [body])
  }

  // Aggregation

  /** Filtering distributes over concatenation: the kept patches of two runs
      of files are those of the first followed by those of the second. */
  lemma {:induction false} KeptAppend(a: seq<Option<string>>, b: seq<Option<string>>)
    ensures KeptPatches(a + b) == KeptPatches(a) + KeptPatches(b)
    decreases |a|
  {
    if |a| == 0 {
      assert a + b == b;
    } else {
      assert (a + b)[1..] == a[1..] + b;
      KeptAppend(a[1..], b);
    }
  }

  /** A single file contributes its patch exactly when the patch is truthy;
      with KeptAppend this determines the kept list of any run of files. */
  lemma KeptSingle(patch: Option<string>)
    ensures KeptPatches([patch]) == if Present(patch) then [patch.value] else []
  {
    assert [patch][1..] == [];
  }

  /** A patch is kept exactly when some file carries it as a present patch. */
  lemma {:induction false} KeptMembers(patches: seq<Option<string>>, p: string)
    ensures p in KeptPatches(patches) <==> |p| > 0 && Some(p) in patches
    decreases |patches|
  {
    if |patches| > 0 {
      KeptMembers(patches[1..], p);
      assert patches == [patches[0]] + patches[1..];
    }
  }

  /** When every file has a present patch, all of them are kept, in order and
      with repeats. */
  lemma {:induction false} KeptAll(patches: seq<Option<string>>)
    requires forall i :: 0 <= i < |patches| ==> Present(patches[i])
    ensures |KeptPatches(patches)| == |patches|
    ensures forall i :: 0 <= i < |patches| ==> Some(KeptPatches(patches)[i]) == patches[i]
    decreases |patches|
  {
    if |patches| > 0 {
      KeptAll(patches[1..]);
    }
  }

  lemma {:induction false} JoinStartsWith(parts: seq<string>, sep: char)
    requires |parts| >= 1
    ensures |Join(parts, sep)| >= |parts[0]|
    ensures Join(parts, sep)[..|parts[0]|] == parts[0]
    decreases |parts|
  {
    if |parts| > 1 {
      var j := Join(parts, sep);
      assert j == parts[0] + ([sep] + Join(parts[1..], sep));
    }
  }

  /** The segments of the full diff are the segments of each kept patch, in
      file order; with nothing kept the diff is `""`, one empty segment. */
  lemma AggregateSegments(patches: seq<Option<string>>)
    ensures KeptPatches(patches) == [] ==> Split(AggregateDiff(patches), Newline) == [""]
    ensures KeptPatches(patches) != [] ==>
      Split(AggregateDiff(patches), Newline) == SplitEach(KeptPatches(patches), Newline)
  {
    if KeptPatches(patches) != [] {
      SplitJoin(KeptPatches(patches), Newline);
    }
  }

  /** The reported count of the full diff is the sum, over the kept patches,
      of their newlines plus one; 1 when no patch is kept. */
  lemma AggregateLines(patches: seq<Option<string>>)
    ensures LinesChanged(AggregateDiff(patches)) ==
      if KeptPatches(patches) == [] then 1 else SegmentSum(KeptPatches(patches), Newline)
  {
    AggregateSegments(patches);
    SplitLength(AggregateDiff(patches), Newline);
    SplitEachLength(KeptPatches(patches), Newline);
  }

  // Composition

  /** The body splits back into the analysis and the generated text whenever
      the analysis is a single line. */
  lemma ReviewRoundTrip(analysis: string, aiReview: string)
    requires Newline !in analysis
    ensures SplitReview(ComposeReview(analysis, aiReview)) == Some((analysis, aiReview))
  {
    var body := ComposeReview(analysis, aiReview);
    var i := |analysis|;
    assert body[..i] == analysis;
    FirstIndexAt(body, Newline, i);
  }

  /** The first occurrence is the position before which `c` does not occur. */
  lemma {:induction false} FirstIndexAt(s: string, c: char, i: nat)
    requires i < |s| && s[i] == c && c !in s[..i]
    ensures FirstIndex(s, c) == Some(i)
    decreases i
  {
    if i > 0 {
      assert s[0] in s[..i];
      assert s[1..][..i - 1] == s[1..i];
      assert s[1..][..i - 1] == s[..i][1..];
      FirstIndexAt(s[1..], c, i - 1);
    }
  }

  /** Conversely, every body `SplitReview` accepts is the composition of its
      two parts, with a single-line analysis. */
  lemma ReviewSplitExact(body: string, analysis: string, aiReview: string)
    requires SplitReview(body) == Some((analysis, aiReview))
    ensures Newline !in analysis
    ensures body == ComposeReview(analysis, aiReview)
  {
    var i := FirstIndex(body, Newline).value;
    assert body == body[..i] + body[i..i + |Header|] + body[i + |Header|..];
  }

  /** The posted body is the analysis of the full diff, the header, and the
      generated text unchanged. */
  lemma ReviewBodyParts(patches: seq<Option<string>>, aiReview: string)
    ensures SplitReview(ReviewBody(patches, aiReview)) ==
      Some((AnalyzeDiff(AggregateDiff(patches)), aiReview))
    ensures CodeAnalyzer.ReportedCount(SplitReview(ReviewBody(patches, aiReview)).value.0) ==
      Some(Occurrences(AggregateDiff(patches), Newline) + 1)
  {
    ReviewRoundTrip(AnalyzeDiff(AggregateDiff(patches)), aiReview);
  }

  // Worked cases

  /** Files with patches "a", "" and "b" give the diff "a\nb". */
  lemma EmptyPatchDropped()
    ensures AggregateDiff([Some("a"), Some(""), Some("b")]) == "a\nb"
  {
  }

  /** Two files with patches and one without, and a generator that answers
      "Looks good.": the posted body. */
  lemma EndToEnd(generate: string -> Result<string>, post: string -> Result<()>)
    requires generate("diff1\ndiff2") == Ok("Looks good.")
    requires forall body :: post(body) == Ok(())
    ensures Run(Ok([Some("diff1"), Some("diff2"), None]), generate, post) ==
      RunOutcome(
        Ok("Analysis of diff: 2 lines changed\n\nAI Review:\nLooks good."),
        ["Analysis of diff: 2 lines changed\n\nAI Review:\nLooks good."])
  {
    assert "diff1" + [Newline] + "diff2" == "diff1\ndiff2";
    TwoFilesOneWithoutPatch("diff1", "diff2", "Looks good.", generate, post);
    ExpectedBody();
  }

  lemma ExpectedBody()
    ensures "Analysis of diff: 2 lines changed" + Header + "Looks good."
      == "Analysis of diff: 2 lines changed\n\nAI Review:\nLooks good."
  {
  }

  /** Two newline-free patches and a file without one: the diff is the two
      patches on two lines, reported as 2 lines, and the generated text
      follows the header unchanged. */
  lemma TwoFilesOneWithoutPatch(
    p1: string, p2: string, aiReview: string,
    generate: string -> Result<string>, post: string -> Result<()>
  )
    requires |p1| > 0 && |p2| > 0 && Newline !in p1 && Newline !in p2
    requires generate(p1 + [Newline] + p2) == Ok(aiReview)
    requires forall body :: post(body) == Ok(())
    ensures Run(Ok([Some(p1), Some(p2), None]), generate, post) ==
      var body := "Analysis of diff: 2 lines changed" + Header + aiReview;
      RunOutcome(Ok(body), [body])
  {
    var patches: seq<Option<string>> := [Some(p1), Some(p2), None];
    var last: seq<Option<string>> := [None];
    assert KeptPatches(last) == [] by {
      assert last[1..] == [];
    }
    assert KeptPatches(patches) == [p1, p2] by {
      assert patches[1..] == [Some(p2)] + last;
      assert patches[1..][1..] == last;
    }
    assert Join([p1, p2], Newline) == p1 + [Newline] + p2 by {
      assert [p1, p2][1..] == [p2];
    }
    TwoSegments(p1, p2);
    assert post(ReviewBody(patches, aiReview)) == Ok(());
  }

  lemma TwoSegments(a: string, b: string)
    requires Newline !in a && Newline !in b
    ensures AnalyzeDiff(a + [Newline] + b) == "Analysis of diff: 2 lines changed"
  {
    SplitAround(a, b, Newline);
    SplitFree(a, Newline);
    SplitFree(b, Newline);
    assert Decimal(2) == "2";
  }
}
