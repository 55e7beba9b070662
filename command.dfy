/**
 * utils/command.py: `download_content`, which picks an extractor from the
 * page address, then walks the records it returns and hands each one to a
 * downloader. The extractors are modelled in GetInfo; the two downloaders
 * (modelled in Download) enter here as a parameter `run(job)` that says
 * whether the call returned normally or raised.
 */
module Command {
  import opened Wrappers
  import opened Text
  import opened Json
  import Tool
  import GetInfo
  import Download

  /** The page prefixes `download_content` recognises, in if/elif order. */
  const TextbookPage: string := "https://basic.smartedu.cn/tchMaterial/detail?contentType=assets_document"
  const BookCourseBagPage: string := "https://basic.smartedu.cn/syncClassroom/classActivity"
  const CoursewarePage: string := "https://basic.smartedu.cn/syncClassroom/prepare/detail?resourceId"
  const ExperimentPage: string := "https://basic.smartedu.cn/syncClassroom/experimentLesson"
  const OneTeacherPage: string := "https://basic.smartedu.cn/syncClassroom/prepare/detail?lessonId"
  const BasisPage: string := "https://jpk.basic.smartedu.cn/yearQualityCourse?courseId"
  const SubjectPage: string := "https://basic.smartedu.cn/qualityCourse?courseId"
  const HomeworkPage: string := "https://basic.smartedu.cn/syncClassroom/basicWork/detail?contentType=assets_document&contentId"

  /** The input that ends the program. */
  const ExitCommand: string := "exit"

  /** Each branch of the chain: the prefix, the extractor it calls and the
      query parameter it passes on. */
  const Routes: seq<(string, GetInfo.Extractor, string)> := [
    (TextbookPage, GetInfo.Textbook, "contentId"),
    (BookCourseBagPage, GetInfo.BookCourseBag, "activityId"),
    (CoursewarePage, GetInfo.Courseware, "resourceId"),
    (ExperimentPage, GetInfo.ExperimentCourse, "courseId"),
    (OneTeacherPage, GetInfo.OneTeacher, "lessonId"),
    (BasisPage, GetInfo.Basis, "courseId"),
    (SubjectPage, GetInfo.Subject, "courseId"),
    (HomeworkPage, GetInfo.Homework, "contentId")
  ]

  /** What the chain decides for an input. */
  datatype Route = Extract(kind: GetInfo.Extractor, param: string) | Exit | Unsupported

  /** The index of the first table entry whose prefix starts `url`. */
  function FirstRoute(table: seq<(string, GetInfo.Extractor, string)>, url: string): (r: Option<nat>)
    ensures r.Some? ==> r.value < |table| && StartsWith(url, table[r.value].0)
    decreases |table|
  {
    if table == [] then None
    else if StartsWith(url, table[0].0) then Some(0)
    else match FirstRoute(table[1..], url)
      case None => None
      case Some(k) => Some(k + 1)
  }

  /** The first matching prefix wins; `None` exactly when none matches. */
  lemma {:induction false} FirstRouteSpec(table: seq<(string, GetInfo.Extractor, string)>, url: string)
    ensures FirstRoute(table, url).None? <==> forall k :: 0 <= k < |table| ==> !StartsWith(url, table[k].0)
    ensures FirstRoute(table, url).Some? ==>
      forall j :: 0 <= j < FirstRoute(table, url).value ==> !StartsWith(url, table[j].0)
    decreases |table|
  {
    if table != [] {
      FirstRouteSpec(table[1..], url);
      assert forall k :: 1 <= k < |table| ==> table[k] == table[1..][k - 1];
    }
  }

  /** The if/elif chain of `download_content`. */
  function Classify(url: string): Route {
    match FirstRoute(Routes, url)
    case Some(k) => Extract(Routes[k].1, Routes[k].2)
    case None => if url == ExitCommand then Exit else Unsupported
  }

  /** The first prefix that matches fixes both the extractor and the query
      parameter. */
  lemma ClassifyFirstMatch(url: string, k: nat)
    requires k < |Routes| && StartsWith(url, Routes[k].0)
    requires forall j :: 0 <= j < k ==> !StartsWith(url, Routes[j].0)
    ensures Classify(url) == Extract(Routes[k].1, Routes[k].2)
  {
    FirstRouteSpec(Routes, url);
  }

  /** Only the exact input `exit` ends the program. */
  lemma ExitOnlyExact(url: string)
    ensures Classify(url) == Exit <==> url == ExitCommand
  {
    FirstRouteSpec(Routes, url);
    if url == ExitCommand {
      forall k | 0 <= k < |Routes|
        ensures !StartsWith(url, Routes[k].0)
      {
        assert |Routes[k].0| > |ExitCommand|;
      }
    }
  }

  /** An input that matches no prefix and is not `exit` is unsupported. */
  lemma UnsupportedIffNoMatch(url: string)
    ensures Classify(url) == Unsupported <==>
      url != ExitCommand && forall k :: 0 <= k < |Routes| ==> !StartsWith(url, Routes[k].0)
  {
    FirstRouteSpec(Routes, url);
  }

  // ---------------------------------------------------------------------
  // The download loop
  // ---------------------------------------------------------------------

  /** A downloader call: `download_video(url, path, name)` or
      `download_file_from_url(url, path, name)`. */
  datatype Job = Video(url: Json, path: string, name: string) | File(url: Json, path: string, name: string)

  /** `s.replace(" ", "_")`. */
  function Underscored(s: string): string {
    Replace(s, " ", "_")
  }

  /** The job for one record. The name normalisation sits outside the
      per-item `try`, so a directory or file name that is not a string
      raises out of the loop. */
  function JobOf(record: GetInfo.Record, cwd: string): Result<Job, PyError> {
    if !record.dirName.Str? || !record.fileName.Str? then Err(AttributeError)
    else
      var path := Download.PathJoin(cwd, Underscored(record.dirName.s));
      var name := Underscored(record.fileName.s);
      if record.fileFormat == Str("mp4") || record.fileFormat == Str("m3u8") then Ok(Video(record.fileUrl, path, name))
      else Ok(File(record.fileUrl, path, name))
  }

  /** Streams go to the video downloader and everything else to the file
      downloader; names have every space replaced by `_`. */
  lemma JobOfSpec(record: GetInfo.Record, cwd: string)
    requires JobOf(record, cwd).Ok?
    ensures var job := JobOf(record, cwd).value;
      (job.Video? <==> record.fileFormat == Str("mp4") || record.fileFormat == Str("m3u8")) &&
      job.url == record.fileUrl &&
      |job.name| == |record.fileName.s| &&
      (forall i :: 0 <= i < |job.name| ==>
        job.name[i] == if record.fileName.s[i] == ' ' then '_' else record.fileName.s[i]) &&
      ' ' !in job.name &&
      EndsWith(job.path, Underscored(record.dirName.s)) && ' ' !in Underscored(record.dirName.s)
  {
    ReplaceCharSpec(record.fileName.s, ' ', '_');
    ReplaceCharSpec(record.dirName.s, ' ', '_');
  }

  /** The jobs started for the records, in order, and the exception that
      ended the loop early, if any. */
  function JobsOf(data: seq<GetInfo.Record>, cwd: string): (seq<Job>, Option<PyError>)
    decreases |data|
  {
    if data == [] then ([], None)
    else
      var previous := JobsOf(data[..|data| - 1], cwd);
      if previous.1.Some? then previous
      else match JobOf(data[|data| - 1], cwd)
        case Err(e) => (previous.0, Some(e))
        case Ok(job) => (previous.0 + [job], None)
  }

  /** Every record before the first one whose names are not strings gets
      its job, in order; without such a record every record gets one. */
  lemma {:induction false} JobsOfSpec(data: seq<GetInfo.Record>, cwd: string)
    ensures var (jobs, crash) := JobsOf(data, cwd);
      |jobs| <= |data| &&
      (forall k :: 0 <= k < |jobs| ==> Ok(jobs[k]) == JobOf(data[k], cwd)) &&
      (crash.None? <==> forall k :: 0 <= k < |data| ==> JobOf(data[k], cwd).Ok?) &&
      (crash.None? ==> |jobs| == |data|) &&
      (crash.Some? ==> |jobs| < |data| && JobOf(data[|jobs|], cwd) == Err(crash.value))
    decreases |data|
  {
    if data != [] {
      var init := data[..|data| - 1];
      JobsOfSpec(init, cwd);
      assert forall k :: 0 <= k < |init| ==> init[k] == data[k];
    }
  }

  /** The `for item in data` loop. `run(job)` is false when the downloader
      raised; the exception is caught and the loop goes on. */
  method RunItems(data: seq<GetInfo.Record>, cwd: string, run: Job -> bool)
    returns (jobs: seq<Job>, raised: seq<bool>, crash: Option<PyError>)
    ensures (jobs, crash) == JobsOf(data, cwd)
    ensures |raised| == |jobs| && forall k :: 0 <= k < |jobs| ==> raised[k] == !run(jobs[k])
  {
    jobs, raised, crash := [], [], None;
    var i := 0;
    while i < |data|
      invariant 0 <= i <= |data|
      invariant JobsOf(data[..i], cwd) == (jobs, None)
      invariant |raised| == |jobs| && forall k :: 0 <= k < |jobs| ==> raised[k] == !run(jobs[k])
    {
      assert data[..i + 1][..i] == data[..i];
      var job := JobOf(data[i], cwd);
      if job.Err? {
        JobsOfCrashStays(data, i + 1, cwd);
        crash := Some(job.error);
        return;
      }
      jobs := jobs + [job.value];
      raised := raised + [!run(job.value)];
      i := i + 1;
    }
    assert data[..i] == data;
  }

  /** Once the loop has raised, later records change nothing. */
  lemma {:induction false} JobsOfCrashStays(data: seq<GetInfo.Record>, n: nat, cwd: string)
    requires n <= |data| && JobsOf(data[..n], cwd).1.Some?
    ensures JobsOf(data, cwd) == JobsOf(data[..n], cwd)
    decreases |data| - n
  {
    if n < |data| {
      assert data[..n + 1][..n] == data[..n];
      JobsOfCrashStays(data, n + 1, cwd);
    } else {
      assert data[..n] == data;
    }
  }

  /** How `download_content` ends. */
  datatype ContentOutcome =
    | Exited                                              // `os._exit(0)` on `exit`
    | ExtractFailed                                       // the extractor returned `None`
    | Ran(jobs: seq<Job>, raised: seq<bool>, crash: Option<PyError>)

  /** `download_content(web_url)`. `fetch` serves the extractors' documents
      and `cwd` is `os.getcwd()`. */
  method DownloadContent(webUrl: string, fetch: string -> Option<Json>, cwd: string, run: Job -> bool)
    returns (outcome: ContentOutcome)
    ensures Classify(webUrl) == Exit ==> outcome == Exited
    ensures Classify(webUrl) == Unsupported ==> outcome == Ran([], [], None)
    ensures Classify(webUrl).Extract? ==>
      var info := GetInfo.Info(Classify(webUrl).kind, Tool.GetUrlParam(webUrl, Classify(webUrl).param), fetch);
      (info.None? ==> outcome == ExtractFailed) &&
      (info.Some? ==>
        (outcome.Ran? && (outcome.jobs, outcome.crash) == JobsOf(info.value, cwd) &&
         |outcome.raised| == |outcome.jobs| &&
         forall k :: 0 <= k < |outcome.jobs| ==> outcome.raised[k] == !run(outcome.jobs[k])))
  {
    var data: seq<GetInfo.Record> := [];
    var route := Classify(webUrl);
    match route {
      case Exit =>
        return Exited;
      case Unsupported =>
      case Extract(kind, param) =>
        var id := Tool.GetUrlParam(webUrl, param);
        var info := GetInfo.ExtractInfo(kind, id, fetch);
        if info.None? {
          return ExtractFailed;
        }
        data := info.value;
    }
    var jobs, raised, crash := RunItems(data, cwd, run);
    return Ran(jobs, raised, crash);
  }
}
