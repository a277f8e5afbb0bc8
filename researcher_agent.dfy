/**
  `ResearcherAgent.run`: a cascade of substring tests on the lowered and
  stripped instruction chooses one of three tools, after a small string
  extraction (the search topic, the paper URL, or the text to scan for
  citations); every failure becomes a result with `success` false and an
  error message. The search tool and the paper processor are parameters; the
  citation tool is `CitationExtractor`'s `process_text`.
*/
module ResearcherAgent {
  import opened Wrappers
  import opened Strings
  import opened CitationPatterns
  import opened CitationExtractor

  // ---------------------------------------------------------------------------
  // Inputs and results
  // ---------------------------------------------------------------------------

  /** The `task` argument: a string, or some value that is not one. */
  datatype TaskArg = Str(s: string) | NotAString

  /**
    The dictionary `run` returns: whatever the search tool or the paper
    processor returned, the `process_text` result, or a failure carrying the
    error message.
  */
  datatype RunResult<S, P> =
    | Searched(searchResult: S)
    | Processed(paperResult: P)
    | Extracted(citationResult: ProcessResult)
    | Failed(error: string)

  const InvalidTask: string := "Invalid task: must be a non-empty string"
  const NoUrl: string := "No URL found in task"
  const InvalidUrl: string := "Invalid URL in task"
  const NoCitationText: string := "No text provided for citation extraction"
  const EmptyCitationText: string := "Empty text for citation extraction"
  const UnknownTaskPrefix: string := "Unknown task type: "

  // ---------------------------------------------------------------------------
  // Routing
  // ---------------------------------------------------------------------------

  /** The tool `run` picks, tested in this order on the lowered, stripped task. */
  datatype Route = SearchRoute | PaperRoute | CitationRoute | UnknownRoute

  predicate IsSearchTask(taskLower: string)
  {
    Contains(taskLower, "search") && (Contains(taskLower, "paper") || Contains(taskLower, "research"))
  }

  predicate IsPaperTask(taskLower: string)
  {
    Contains(taskLower, "download") || Contains(taskLower, "summarize") || Contains(taskLower, "read")
  }

  predicate IsCitationTask(taskLower: string)
  {
    Contains(taskLower, "citation") || Contains(taskLower, "reference")
  }

  /** The first test of the cascade that holds. */
  function RouteOf(taskLower: string): (r: Route)
    ensures r == SearchRoute <==> IsSearchTask(taskLower)
    ensures r == PaperRoute <==> !IsSearchTask(taskLower) && IsPaperTask(taskLower)
    ensures r == CitationRoute <==> !IsSearchTask(taskLower) && !IsPaperTask(taskLower) && IsCitationTask(taskLower)
  {
    if IsSearchTask(taskLower) then SearchRoute
    else if IsPaperTask(taskLower) then PaperRoute
    else if IsCitationTask(taskLower) then CitationRoute
    else UnknownRoute
  }

  /** "research" contains "search": every task that mentions research is a search task. */
  lemma ResearchIsSearch(taskLower: string)
    requires Contains(taskLower, "research")
    ensures RouteOf(taskLower) == SearchRoute
  {
    var i :| 0 <= i <= |taskLower| - |"research"| && OccursAt(taskLower, "research", i);
    assert taskLower[i + 2..i + 8] == taskLower[i..i + 8][2..];
    assert OccursAt(taskLower, "search", i + 2);
  }

  // ---------------------------------------------------------------------------
  // The search topic
  // ---------------------------------------------------------------------------

  /** `re.search(r"about (.+)", s)` can match at `j`: "about " and at least one character that is not a newline. */
  predicate AboutAt(s: string, j: nat)
  {
    OccursAt(s, "about ", j) && j + 6 < |s| && s[j + 6] != '\n'
  }

  /** The leftmost index at or after `from` where the topic expression matches. */
  function AboutFrom(s: string, from: nat): (r: Option<nat>)
    ensures r.Some? ==> from <= r.value && AboutAt(s, r.value)
    ensures r.Some? ==> forall j :: from <= j < r.value ==> !AboutAt(s, j)
    ensures r.None? ==> forall j :: from <= j ==> !AboutAt(s, j)
    decreases |s| - from
  {
    if from + 6 >= |s| then None
    else if AboutAt(s, from) then Some(from)
    else AboutFrom(s, from + 1)
  }

  /** Where `.+` stops: the first newline at or after `i`, or the end. */
  function LineEnd(s: string, i: nat): (e: nat)
    requires i <= |s|
    ensures i <= e <= |s| && (e == |s| || s[e] == '\n')
    ensures forall j :: i <= j < e ==> s[j] != '\n'
    decreases |s| - i
  {
    if i == |s| || s[i] == '\n' then i else LineEnd(s, i + 1)
  }

  /**
    The query of a search task: group 1 of the topic expression, stripped;
    without a match, the task with "search" and then "papers" removed, stripped.
  */
  function Topic(taskLower: string): string
  {
    match AboutFrom(taskLower, 0)
    case Some(j) => Strip(taskLower[j + 6..LineEnd(taskLower, j + 6)])
    case None => Strip(RemoveAll(RemoveAll(taskLower, "search"), "papers"))
  }

  /**
    A one-line topic after the first "about " of the task is the query, as in
    "search papers about dark matter" giving "dark matter".
  */
  lemma AboutTopic(pre: string, topic: string)
    requires !Contains(pre, "about")
    requires topic != [] && '\n' !in topic
    ensures Topic(pre + "about " + topic) == Strip(topic)
  {
    var rest := "about " + topic;
    assert rest[..6] == "about " && rest[6] == topic[0];
    var s := pre + rest;
    assert s == pre + "about " + topic;
    var n := |pre|;
    AboutFirst(pre, rest);
    assert s[n + 6..] == topic;
    forall j | n + 6 <= j < |s| ensures s[j] != '\n' {
      assert s[j] == topic[j - n - 6];
    }
    assert LineEnd(s, n + 6) == |s|;
    assert s[n + 6..|s|] == topic;
    assert Topic(s) == Strip(s[n + 6..|s|]);
  }

  /** With no "about" in `pre`, the first place the topic expression matches in `pre + rest` is where `rest` starts. */
  lemma AboutFirst(pre: string, rest: string)
    requires !Contains(pre, "about")
    requires |rest| > 6 && rest[..6] == "about " && rest[6] != '\n'
    ensures AboutFrom(pre + rest, 0) == Some(|pre|)
  {
    var s := pre + rest;
    var w := "about ";
    assert w[..5] == "about" && w[1..] == "bout ";
    assert OccursAt(rest, w, 0);
    NoOccurrenceBefore(pre, rest, w, 5);
    assert s[|pre|..|pre| + 6] == rest[..6];
    assert AboutAt(s, |pre|);
  }

  // ---------------------------------------------------------------------------
  // The paper URL
  // ---------------------------------------------------------------------------

  const UrlTrailers: set<char> := {'.', ',', ';'}

  /**
    The URL of a paper task: from the first "http" of the original task up to
    the next space or the end, trailing `.`, `,` and `;` removed; None when the
    task has no "http".
  */
  function UrlOf(task: string): Option<string>
  {
    match Find(task, "http")
    case None => None
    case Some(start) =>
      var end := match FindFrom(task, " ", start) case Some(e) => e case None => |task|;
      Some(RStripChars(task[start..end], UrlTrailers))
  }

  /**
    The URL found is never empty (it starts with "http", which trailing
    punctuation cannot eat), holds no space, does not end in `.`, `,` or `;`,
    and is a piece of the task; it is missing exactly when the task has no "http".
  */
  lemma UrlShape(task: string)
    ensures UrlOf(task).None? <==> !Contains(task, "http")
    ensures UrlOf(task).Some? ==>
              var u := UrlOf(task).value;
              && |u| >= 4 && u[..4] == "http"
              && ' ' !in u
              && u[|u| - 1] !in UrlTrailers
              && IsSubstring(u, task)
  {
    var f := Find(task, "http");
    if f.Some? {
      var start := f.value;
      var http := task[start..start + 4];
      assert http == "http";
      assert http[0] == 'h' && http[1] == 't' && http[2] == 't' && http[3] == 'p';
      FindFromChar(task, ' ', start);
      var end := match FindFrom(task, " ", start) case Some(e) => e case None => |task|;
      assert task[start + 3] == http[3];
      UrlPieceShape(task, start, end);
    }
  }

  /** The piece of the task from an "http" up to a point before the next space, trailing punctuation removed. */
  lemma UrlPieceShape(task: string, start: nat, end: nat)
    requires OccursAt(task, "http", start) && start + 4 <= end <= |task|
    requires forall j :: start <= j < end ==> task[j] != ' '
    ensures var u := RStripChars(task[start..end], UrlTrailers);
            && |u| >= 4 && u[..4] == "http"
            && ' ' !in u
            && u[|u| - 1] !in UrlTrailers
            && IsSubstring(u, task)
  {
    var piece := task[start..end];
    var u := RStripChars(piece, UrlTrailers);
    RStripCharsPrefix(piece, UrlTrailers);
    assert piece[..4] == "http";
    assert piece[3] == piece[..4][3] == 'p' && 'p' !in UrlTrailers;
    assert u[..4] == piece[..4];
    forall j | 0 <= j < |u| ensures u[j] != ' ' {
      assert u[j] == piece[j] == task[start + j];
    }
    assert task[start..start + |u|] == u;
  }

  /** The URL `run` hands to the paper processor is never empty, so "Invalid URL in task" is never returned. */
  lemma UrlNeverEmpty(task: string)
    ensures UrlOf(task).Some? ==> UrlOf(task).value != []
  {
    UrlShape(task);
  }

  /**
    A task made of a prefix without "http", a URL and then nothing or a space
    and more: that URL is what `run` hands to the paper processor.
  */
  lemma UrlOfParts(pre: string, url: string, rest: string)
    requires !Contains(pre, "http")
    requires |url| >= 4 && url[..4] == "http" && ' ' !in url && url[|url| - 1] !in UrlTrailers
    requires rest == [] || rest[0] == ' '
    ensures UrlOf(pre + url + rest) == Some(url)
  {
    var s := pre + url + rest;
    var n := |pre|;
    assert s == pre + (url + rest);
    assert (url + rest)[..4] == url[..4];
    assert "http"[..4] == "http";
    NoOccurrenceBefore(pre, url + rest, "http", 4);
    var end := n + |url|;
    forall j | n <= j < end ensures !OccursAt(s, " ", j) {
      assert s[j] == url[j - n];
      assert s[j..j + 1] == [s[j]];
    }
    if rest != [] {
      assert s[end] == rest[0];
      assert s[end..end + 1] == [s[end]];
      assert OccursAt(s, " ", end);
    }
    assert s[n..end] == url;
  }

  // ---------------------------------------------------------------------------
  // The citation text
  // ---------------------------------------------------------------------------

  /** The text of a citation task: after the first ':' of the original task, stripped; each missing piece has its error. */
  function CitationTextOf(task: string): (r: Result)
  {
    match Find(task, ":")
    case None => Err(NoCitationText)
    case Some(i) =>
      var text := Strip(task[i + 1..]);
      if text == [] then Err(EmptyCitationText) else Ok(text)
  }

  /** Either the text to scan or the error that stops the task. */
  datatype Result = Ok(text: string) | Err(message: string)

  /** A task of the form `<no colon>:<body>` yields the stripped body, or the empty-text error. */
  lemma CitationTextOfParts(pre: string, body: string)
    requires ':' !in pre
    ensures CitationTextOf(pre + ":" + body) == if Strip(body) == [] then Err(EmptyCitationText) else Ok(Strip(body))
  {
    var s := pre + ":" + body;
    FindFromChar(s, ':', 0);
    assert s[|pre|] == ':';
    forall j | 0 <= j < |pre| ensures s[j] != ':' {
      assert s[j] == pre[j];
    }
    assert Find(s, ":") == Some(|pre|);
    assert s[|pre| + 1..] == body;
  }

  /** Without a colon the task is refused with the missing-text error. */
  lemma CitationTextNoColon(task: string)
    requires ':' !in task
    ensures CitationTextOf(task) == Err(NoCitationText)
  {
    ContainsChar(task, ':');
  }

  // ---------------------------------------------------------------------------
  // run
  // ---------------------------------------------------------------------------

  /** The agent's `extract_citations`: `process_text`, whose own except branch is never taken. */
  function ExtractCitations(text: string, matcher: Matcher, currentYear: int): (r: ProcessResult)
    ensures text != [] ==> r.success && r.error.None? && r.citations == Extraction(text, matcher, currentYear)
    ensures text == [] ==> r == ProcessResult(false, [], Some("Empty text provided"))
  {
    ProcessTextResult(text, matcher, currentYear)
  }

  /**
    `run`: the invalid-task check, then the cascade. `search` is `search_papers`
    (the query and `max_results`), `process` is `process_paper`.
  */
  function Run<S, P>(task: TaskArg, maxResults: Option<int>, search: (string, Option<int>) -> S, process: string -> P,
                     matcher: Matcher, currentYear: int): RunResult<S, P>
  {
    if task.NotAString? || task.s == [] then Failed(InvalidTask)
    else
      var t := task.s;
      var taskLower := Strip(Lower(t));
      match RouteOf(taskLower)
      case SearchRoute => Searched(search(Topic(taskLower), maxResults))
      case PaperRoute =>
        (match UrlOf(t)
         case None => Failed(NoUrl)
         case Some(url) => if url == [] then Failed(InvalidUrl) else Processed(process(url)))
      case CitationRoute =>
        (match CitationTextOf(t)
         case Err(e) => Failed(e)
         case Ok(text) => Extracted(ExtractCitations(text, matcher, currentYear)))
      case UnknownRoute => Failed(UnknownTaskPrefix + t)
  }

  /**
    What `run` returns: the invalid-task error exactly for an empty or
    non-string task; otherwise the first route that holds, with its tool
    applied to the extracted argument, and the only failures are the missing
    URL, the two citation-text errors and the unknown task.
  */
  lemma RunOutcome<S, P>(task: TaskArg, maxResults: Option<int>, search: (string, Option<int>) -> S, process: string -> P,
                         matcher: Matcher, currentYear: int)
    ensures var r := Run(task, maxResults, search, process, matcher, currentYear);
            && (r == Failed(InvalidTask) <==> task.NotAString? || task.s == [])
            && (r.Failed? ==> r.error in {InvalidTask, NoUrl, NoCitationText, EmptyCitationText}
                              || (task.Str? && r.error == UnknownTaskPrefix + task.s))
            && r != Failed(InvalidUrl)
  {
    if task.Str? && task.s != [] {
      var t := task.s;
      UrlNeverEmpty(t);
      assert (UnknownTaskPrefix + t)[0] == 'U' && InvalidTask[0] == 'I';
    }
  }

  /**
    The route decides the tool: a search task calls the search tool on its
    topic, a paper task the processor on its URL (or fails for want of one),
    a citation task `process_text` on its text, which then always succeeds.
  */
  lemma RunRoutes<S, P>(t: string, maxResults: Option<int>, search: (string, Option<int>) -> S, process: string -> P,
                        matcher: Matcher, currentYear: int)
    requires t != []
    ensures var r, taskLower := Run(Str(t), maxResults, search, process, matcher, currentYear), Strip(Lower(t));
            && (IsSearchTask(taskLower) ==> r == Searched(search(Topic(taskLower), maxResults)))
            && (RouteOf(taskLower) == PaperRoute ==>
                  r == if Contains(t, "http") then Processed(process(UrlOf(t).value)) else Failed(NoUrl))
            && (RouteOf(taskLower) == CitationRoute && CitationTextOf(t).Ok? ==>
                  r.Extracted? && r.citationResult.success
                  && r.citationResult.citations == Extraction(CitationTextOf(t).text, matcher, currentYear))
            && (RouteOf(taskLower) == UnknownRoute ==> r == Failed(UnknownTaskPrefix + t))
  {
    UrlShape(t);
  }
}
