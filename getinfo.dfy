/**
 * utils/getInfo.py: turning the platform's already-fetched JSON into
 * resource records. The HTTP request and `response.json()` are a parameter
 * `fetch(url)` that yields the parsed document, or `None` when the request,
 * the status check or the JSON decoding raises. Every exception inside an
 * extractor is caught there and turns the result into `None`.
 */
module GetInfo {
  import opened Wrappers
  import opened Text
  import opened Json
  import Tool

  /** The storage prefix for `mp4` files. */
  const Mp4Prefix: string := "https://r1-ndr.ykt.cbern.com.cn"
  /** The storage prefix for every other format. */
  const DefaultPrefix: string := "https://cdncs.ykt.cbern.com.cn/v0.1/static"

  /** The dictionary each extractor returns per resource. */
  datatype Record = Record(dirName: Json, fileName: Json, fileUrl: Json, fileFormat: Json, fileSize: Json)

  /** The value of `d.get(key, default)` for a dictionary. */
  function Member(fields: seq<(string, Json)>, key: string, default: Json): Json {
    match Lookup(fields, key)
    case Some(v) => v
    case None => default
  }

  // ---------------------------------------------------------------------
  // get_download_url
  // ---------------------------------------------------------------------

  /** The prefix `get_download_url` computes on every iteration: the mp4
      prefix for `"mp4"`, otherwise `url_prefixes.get(file_format, default)`,
      which raises for a format that cannot be a dictionary key. */
  function UrlPrefix(format: Json): (r: Result<string, PyError>)
    ensures r.Err? <==> format != Str("mp4") && !Hashable(format)
    ensures r.Ok? ==> (r.value == Mp4Prefix <==> format == Str("mp4"))
    ensures r.Ok? ==> (r.value == DefaultPrefix <==> format != Str("mp4"))
  {
    if format == Str("mp4") then Ok(Mp4Prefix)
    else if !Hashable(format) then Err(TypeError)
    else Ok(DefaultPrefix)
  }

  /** The selection condition shared by `get_download_url` and the homework
      loop, evaluated with Python's short-circuit `and`/`or`. */
  function Matches(item: Json, size: Json, format: Json): (r: Result<bool, PyError>)
    ensures r.Err? <==> !item.Obj?
  {
    if format == Str("mp4") then
      var flag :- Get(item, "ti_file_flag", Null);
      Ok(flag == Str("href"))
    else
      var tiSize :- Get(item, "ti_size", Null);
      Ok(tiSize == size)
  }

  /** An `mp4` request matches items flagged `href` whatever their size;
      any other format matches items whose `ti_size` equals the size. */
  lemma MatchesRule(fields: seq<(string, Json)>, size: Json, format: Json)
    ensures Matches(Obj(fields), size, format).Ok?
    ensures Matches(Obj(fields), size, format).value <==>
      (format == Str("mp4") && Lookup(fields, "ti_file_flag") == Some(Str("href"))) ||
      (format != Str("mp4") && Member(fields, "ti_size", Null) == size)
  {
  }

  /** The loop of `get_download_url` over the items still to visit. */
  function FindUrl(items: seq<Json>, size: Json, format: Json): Result<Option<string>, PyError>
    decreases |items|
  {
    if items == [] then Ok(None)
    else
      var prefix :- UrlPrefix(format);
      var m :- Matches(items[0], size, format);
      if m then StorageUrl(items[0], prefix)
      else FindUrl(items[1..], size, format)
  }

  /** `replace_starting_pattern(item.get("ti_storage"), prefix)`; only a
      string has `startswith`. */
  function StorageUrl(item: Json, prefix: string): (r: Result<Option<string>, PyError>)
    requires item.Obj?
    ensures r.Ok? <==> Member(item.fields, "ti_storage", Null).Str?
    ensures r.Ok? ==> r.value.Some?
  {
    var storage := Member(item.fields, "ti_storage", Null);
    if storage.Str? then Ok(Some(Tool.ReplaceStartingPattern(storage.s, prefix))) else Err(AttributeError)
  }

  /** `get_download_url(ti_items, file_size, file_format)`. */
  function DownloadUrl(tiItems: Json, size: Json, format: Json): Result<Option<string>, PyError> {
    var items :- Iter(tiItems);
    FindUrl(items, size, format)
  }

  /** The search loop of `get_download_url`, returning at the first match. */
  method GetDownloadUrl(tiItems: Json, size: Json, format: Json) returns (r: Result<Option<string>, PyError>)
    ensures r == DownloadUrl(tiItems, size, format)
  {
    var iter := Iter(tiItems);
    if iter.Err? {
      return Err(iter.error);
    }
    var items := iter.value;
    var i := 0;
    while i < |items|
      invariant 0 <= i <= |items|
      invariant FindUrl(items[i..], size, format) == DownloadUrl(tiItems, size, format)
    {
      assert items[i..][0] == items[i] && items[i..][1..] == items[i + 1..];
      var prefix := UrlPrefix(format);
      if prefix.Err? {
        return Err(prefix.error);
      }
      var m := Matches(items[i], size, format);
      if m.Err? {
        return Err(m.error);
      }
      if m.value {
        return StorageUrl(items[i], prefix.value);
      }
      i := i + 1;
    }
    assert items[i..] == [];
    return Ok(None);
  }

  /** When item `k` is the first to match, the result is its rewritten
      storage path, with the prefix the format selects. */
  lemma {:induction false} FindUrlFirstMatch(items: seq<Json>, size: Json, format: Json, k: nat)
    requires k < |items| && UrlPrefix(format).Ok?
    requires forall j :: 0 <= j < k ==> Matches(items[j], size, format) == Ok(false)
    requires Matches(items[k], size, format) == Ok(true)
    ensures FindUrl(items, size, format) == StorageUrl(items[k], UrlPrefix(format).value)
    decreases k
  {
    if k > 0 {
      assert Matches(items[0], size, format) == Ok(false);
      assert forall j :: 0 <= j < k - 1 ==> items[1..][j] == items[j + 1];
      FindUrlFirstMatch(items[1..], size, format, k - 1);
    }
  }

  /** When no item matches, the result is `None`. */
  lemma {:induction false} FindUrlNoMatch(items: seq<Json>, size: Json, format: Json)
    requires UrlPrefix(format).Ok?
    requires forall j :: 0 <= j < |items| ==> Matches(items[j], size, format) == Ok(false)
    ensures FindUrl(items, size, format) == Ok(None)
    decreases |items|
  {
    if items != [] {
      assert Matches(items[0], size, format) == Ok(false);
      assert forall j :: 0 <= j < |items| - 1 ==> items[1..][j] == items[j + 1];
      FindUrlNoMatch(items[1..], size, format);
    }
  }

  /** An item that is not a dictionary before the first match makes the
      search raise; so does a non-empty list with an unhashable format. */
  lemma {:induction false} FindUrlRaises(items: seq<Json>, size: Json, format: Json, k: nat)
    requires k < |items|
    requires forall j :: 0 <= j < k ==> Matches(items[j], size, format) == Ok(false)
    requires !items[k].Obj? || UrlPrefix(format).Err?
    ensures FindUrl(items, size, format).Err?
    decreases k
  {
    if k > 0 && UrlPrefix(format).Ok? {
      assert Matches(items[0], size, format) == Ok(false);
      assert forall j :: 0 <= j < k - 1 ==> items[1..][j] == items[j + 1];
      FindUrlRaises(items[1..], size, format, k - 1);
    }
  }

  // ---------------------------------------------------------------------
  // fetch_resources
  // ---------------------------------------------------------------------

  /** The record `fetch_resources` appends for one entry; a member that
      must be a dictionary and is not raises `AttributeError` at its `.get`. */
  function RecordOf(item: Json, dirName: Json): Result<Record, PyError> {
    if !item.Obj? then Err(AttributeError)
    else
      var globalTitle := Member(item.fields, "global_title", Obj([]));
      var props := Member(item.fields, "custom_properties", Obj([]));
      if !globalTitle.Obj? || !props.Obj? then Err(AttributeError)
      else
        var fileName := PyStr(Member(globalTitle.fields, "zh-CN", Str(""))) + "_" + PyStr(Member(item.fields, "title", Str("")));
        var format := Member(props.fields, "format", Str(""));
        var size := Member(props.fields, "size", Str(""));
        var url :- DownloadUrl(Member(item.fields, "ti_items", Arr([])), size, format);
        Ok(Record(dirName, Str(fileName), UrlJson(url), format, size))
  }

  /** A Python `None` or string as a JSON value. */
  function UrlJson(u: Option<string>): (j: Json)
    ensures j.Null? <==> u.None?
    ensures u.Some? ==> j == Str(u.value)
  {
    match u
    case None => Null
    case Some(s) => Str(s)
  }

  /** The record keeps the directory name it is given, and its file name is
      the zh-CN global title, `_`, and the title. */
  lemma RecordOfNames(fields: seq<(string, Json)>, dirName: Json, global: seq<(string, Json)>, titleZh: string, title: string)
    requires Lookup(fields, "global_title") == Some(Obj(global))
    requires Lookup(global, "zh-CN") == Some(Str(titleZh))
    requires Lookup(fields, "title") == Some(Str(title))
    requires RecordOf(Obj(fields), dirName).Ok?
    ensures RecordOf(Obj(fields), dirName).value.dirName == dirName
    ensures RecordOf(Obj(fields), dirName).value.fileName == Str(titleZh + "_" + title)
  {
  }

  /** An entry without any of the optional members gets the defaults: file
      name `_`, no URL, empty format and size. */
  lemma RecordOfDefaults(dirName: Json)
    ensures RecordOf(Obj([]), dirName) == Ok(Record(dirName, Str("_"), Null, Str(""), Str("")))
  {
    assert Member([], "global_title", Obj([])) == Obj([]);
    assert Member([], "title", Str("")) == Str("");
    assert PyStr(Str("")) + "_" + PyStr(Str("")) == "_";
    assert Iter(Arr([])) == Ok([]);
    assert DownloadUrl(Arr([]), Str(""), Str("")) == Ok(None);
  }

  /** The entries `relations.get(resource_key, [])` yields to the loop. */
  function Entries(key: string, relations: Json): Result<seq<Json>, PyError> {
    var list :- Get(relations, key, Arr([]));
    Iter(list)
  }

  /** `fetch_resources(resource_key, relations, dir_name)`. */
  function Resources(key: string, relations: Json, dirName: Json): Result<seq<Record>, PyError> {
    var list :- Entries(key, relations);
    MapResult(item => RecordOf(item, dirName), list)
  }

  /** The loop of `fetch_resources`, appending one record per entry. */
  method FetchResources(key: string, relations: Json, dirName: Json) returns (r: Result<seq<Record>, PyError>)
    ensures r == Resources(key, relations, dirName)
  {
    var entries := Entries(key, relations);
    if entries.Err? {
      return Err(entries.error);
    }
    var list := entries.value;
    var items: seq<Record> := [];
    var i := 0;
    while i < |list|
      invariant 0 <= i <= |list|
      invariant MapResult(item => RecordOf(item, dirName), list[..i]) == Ok(items)
    {
      var record := RecordOf(list[i], dirName);
      MapResultStep(item => RecordOf(item, dirName), list, i, items);
      if record.Err? {
        MapResultErrorStays(item => RecordOf(item, dirName), list, i + 1);
        return Err(record.error);
      }
      items := items + [record.value];
      i := i + 1;
    }
    assert list[..i] == list;
    return Ok(items);
  }

  /** A missing key gives the empty list. */
  lemma ResourcesMissingKey(key: string, fields: seq<(string, Json)>, dirName: Json)
    requires Lookup(fields, key).None?
    ensures Resources(key, Obj(fields), dirName) == Ok([])
  {
    assert Iter(Arr([])) == Ok([]);
  }

  // ---------------------------------------------------------------------
  // The homework loop of get_homework_info
  // ---------------------------------------------------------------------

  /** `item.get("ti_storages")[0]`, taken without any prefix rewriting. */
  function FirstStorage(item: Json): Result<Json, PyError>
    requires item.Obj?
  {
    First(Member(item.fields, "ti_storages", Null))
  }

  /** The value `file_url` holds once the loop has visited `items`: `None`
      at first, overwritten by every matching item (there is no `break`). */
  function LastStorage(items: seq<Json>, size: Json, format: Json): Result<Json, PyError>
    decreases |items|
  {
    if items == [] then Ok(Null)
    else
      var previous :- LastStorage(items[..|items| - 1], size, format);
      Visit(items[|items| - 1], size, format, previous)
  }

  /** One iteration of the homework loop: a matching item replaces the URL. */
  function Visit(item: Json, size: Json, format: Json, previous: Json): Result<Json, PyError> {
    var m :- Matches(item, size, format);
    if m then FirstStorage(item) else Ok(previous)
  }

  /** The URL `get_homework_info` records. */
  function HomeworkStorage(tiItems: Json, size: Json, format: Json): Result<Json, PyError> {
    var items :- Iter(tiItems);
    LastStorage(items, size, format)
  }

  /** The loop of `get_homework_info` over `ti_items`. */
  method HomeworkUrl(tiItems: Json, size: Json, format: Json) returns (r: Result<Json, PyError>)
    ensures r == HomeworkStorage(tiItems, size, format)
  {
    var iter := Iter(tiItems);
    if iter.Err? {
      return Err(iter.error);
    }
    var items := iter.value;
    assert HomeworkStorage(tiItems, size, format) == LastStorage(items, size, format);
    var fileUrl := Null;
    var i := 0;
    assert items[..i] == [];
    while i < |items|
      invariant 0 <= i <= |items|
      invariant LastStorage(items[..i], size, format) == Ok(fileUrl)
    {
      LastStorageStep(items, i, size, format, fileUrl);
      var next := Visit(items[i], size, format, fileUrl);
      if next.Err? {
        LastStorageErrorStays(items, i + 1, size, format);
        return Err(next.error);
      }
      fileUrl := next.value;
      i := i + 1;
    }
    assert items[..i] == items;
    return Ok(fileUrl);
  }

  /** One iteration of the homework loop. */
  lemma LastStorageStep(items: seq<Json>, i: nat, size: Json, format: Json, previous: Json)
    requires i < |items| && LastStorage(items[..i], size, format) == Ok(previous)
    ensures LastStorage(items[..i + 1], size, format) == Visit(items[i], size, format, previous)
  {
    assert items[..i + 1][..i] == items[..i];
  }

  /** An exception in the loop ends it: later items change nothing. */
  lemma {:induction false} LastStorageErrorStays(items: seq<Json>, n: nat, size: Json, format: Json)
    requires n <= |items| && LastStorage(items[..n], size, format).Err?
    ensures LastStorage(items, size, format) == LastStorage(items[..n], size, format)
    decreases |items| - n
  {
    if n < |items| {
      assert items[..n + 1][..n] == items[..n];
      LastStorageErrorStays(items, n + 1, size, format);
    } else {
      assert items[..n] == items;
    }
  }

  /** The recorded URL is the first storage of the LAST matching item. */
  lemma {:induction false} LastStorageLastMatch(items: seq<Json>, size: Json, format: Json, k: nat)
    requires k < |items| && LastStorage(items, size, format).Ok?
    requires Matches(items[k], size, format) == Ok(true)
    requires forall j :: k < j < |items| ==> Matches(items[j], size, format) == Ok(false)
    ensures LastStorage(items, size, format) == FirstStorage(items[k])
    decreases |items|
  {
    var init := items[..|items| - 1];
    if k < |items| - 1 {
      assert Matches(items[|items| - 1], size, format) == Ok(false);
      assert forall j :: k < j < |init| ==> init[j] == items[j];
      LastStorageLastMatch(init, size, format, k);
    }
  }

  /** Without a matching item the URL stays `None`. */
  lemma {:induction false} LastStorageNoMatch(items: seq<Json>, size: Json, format: Json)
    requires forall j :: 0 <= j < |items| ==> Matches(items[j], size, format) == Ok(false)
    ensures LastStorage(items, size, format) == Ok(Null)
    decreases |items|
  {
    if items != [] {
      var init := items[..|items| - 1];
      assert forall j :: 0 <= j < |init| ==> init[j] == items[j];
      LastStorageNoMatch(init, size, format);
      assert Matches(items[|items| - 1], size, format) == Ok(false);
    }
  }

  // ---------------------------------------------------------------------
  // The get_*_info extractors
  // ---------------------------------------------------------------------

  /** The extractor `download_content` picks for a page. */
  datatype Extractor = Textbook | BookCourseBag | Courseware | ExperimentCourse | OneTeacher | Basis | Subject | Homework

  /** A Python `None` or string identifier as a JSON value. */
  function IdJson(id: Option<string>): Json {
    match id
    case None => Null
    case Some(s) => Str(s)
  }

  /** The document locations of the extractors, before the identifier. */
  const TextbookBase: string := "https://s-file-1.ykt.cbern.com.cn/zxx/ndrv2/resources/tch_material/details/"
  const CoursewareBase: string := "https://s-file-2.ykt.cbern.com.cn/zxx/ndrv2/prepare_sub_type/resources/details/"
  const BookCourseBagBase: string := "https://s-file-2.ykt.cbern.com.cn/zxx/ndrv2/national_lesson/resources/details/"
  const ExperimentCourseBase: string := "https://s-file-1.ykt.cbern.com.cn/zxx/ndrs/experiment/resources/details/"
  const OneTeacherBase: string := "https://s-file-1.ykt.cbern.com.cn/zxx/ndrv2/prepare_lesson/resources/details/"
  const SubjectBase: string := "https://s-file-1.ykt.cbern.com.cn/zxx/ndrv2/resources/"
  const BasisBase: string := "https://s-file-1.ykt.cbern.com.cn/competitive/elite_lesson/resources/"
  const HomeworkBase: string := "https://s-file-1.ykt.cbern.com.cn/zxx/ndrs/special_edu/resources/details/"

  /** The document each extractor requests; a missing identifier is
      formatted as `None`. */
  function InfoUrl(kind: Extractor, id: Option<string>): string {
    var base := match kind
      case Textbook => TextbookBase
      case Courseware => CoursewareBase
      case BookCourseBag => BookCourseBagBase
      case ExperimentCourse => ExperimentCourseBase
      case OneTeacher => OneTeacherBase
      case Subject => SubjectBase
      case Basis => BasisBase
      case Homework => HomeworkBase;
    base + PyStr(IdJson(id)) + ".json"
  }

  /** The `relations` keys a multi-section extractor reads, in order. */
  function SectionKeys(kind: Extractor): seq<string> {
    match kind
    case BookCourseBag => ["national_course_resource"]
    case ExperimentCourse => ["lesson_1", "experiment_video"]
    case OneTeacher => ["lesson_plan_design", "classroom_record", "teaching_assets"]
    case Subject => ["course_resource"]
    case Basis => ["course_resource"]
    case _ => []
  }

  /** The records of the sections, concatenated in section order. */
  function SectionRecords(keys: seq<string>, relations: Json, dirName: Json): Result<seq<Record>, PyError>
    decreases |keys|
  {
    if keys == [] then Ok([])
    else
      var first :- Resources(keys[0], relations, dirName);
      var rest :- SectionRecords(keys[1..], relations, dirName);
      Ok(first + rest)
  }

  /** The entries of the sections, concatenated in section order. */
  function SectionEntries(keys: seq<string>, relations: Json): Result<seq<Json>, PyError>
    decreases |keys|
  {
    if keys == [] then Ok([])
    else
      var first :- Entries(keys[0], relations);
      var rest :- SectionEntries(keys[1..], relations);
      Ok(first + rest)
  }

  /** A multi-section result holds one record per entry of the sections,
      taken section by section and in each section in list order. */
  lemma {:induction false} SectionRecordsSpec(keys: seq<string>, relations: Json, dirName: Json)
    requires SectionRecords(keys, relations, dirName).Ok?
    ensures SectionEntries(keys, relations).Ok?
    ensures |SectionRecords(keys, relations, dirName).value| == |SectionEntries(keys, relations).value|
    ensures forall k :: 0 <= k < |SectionEntries(keys, relations).value| ==>
      Ok(SectionRecords(keys, relations, dirName).value[k]) == RecordOf(SectionEntries(keys, relations).value[k], dirName)
    decreases |keys|
  {
    if keys != [] {
      var f := item => RecordOf(item, dirName);
      var list := Entries(keys[0], relations).value;
      MapResultValues(f, list);
      SectionRecordsSpec(keys[1..], relations, dirName);
      var first := Resources(keys[0], relations, dirName).value;
      var rest := SectionRecords(keys[1..], relations, dirName).value;
      var entries := SectionEntries(keys[1..], relations).value;
      PointwiseAppend(f, list, entries, first, rest);
    }
  }

  /** The single record of the textbook and courseware extractors; the
      title defaults to the identifier. */
  function SingleRecord(fields: seq<(string, Json)>, id: Option<string>): Result<seq<Record>, PyError> {
    var props := Member(fields, "custom_properties", Obj([]));
    if !props.Obj? then Err(AttributeError)
    else
      var format := Member(props.fields, "format", Null);
      var size := Member(props.fields, "size", Null);
      var url :- DownloadUrl(Member(fields, "ti_items", Arr([])), size, format);
      Ok([Record(Str(""), Member(fields, "title", IdJson(id)), UrlJson(url), format, size)])
  }

  /** The single record of `get_homework_info`. */
  function HomeworkRecord(fields: seq<(string, Json)>): Result<seq<Record>, PyError> {
    var props := Member(fields, "custom_properties", Obj([]));
    if !props.Obj? then Err(AttributeError)
    else
      var format := Member(props.fields, "format", Null);
      var size := Member(props.fields, "size", Null);
      var url :- HomeworkStorage(Member(fields, "ti_items", Arr([])), size, format);
      Ok([Record(Str(""), Member(fields, "title", Null), url, format, size)])
  }

  /** The records an extractor assembles from its document. */
  function Assemble(kind: Extractor, id: Option<string>, data: Json): Result<seq<Record>, PyError> {
    if !data.Obj? then Err(AttributeError)
    else if kind == Textbook || kind == Courseware then SingleRecord(data.fields, id)
    else if kind == Homework then HomeworkRecord(data.fields)
    else SectionRecords(SectionKeys(kind), Member(data.fields, "relations", Obj([])), SectionDir(kind, data.fields))
  }

  /** The directory name of a multi-section extractor: empty for the
      experiment course, otherwise the document's title (`None` if absent). */
  function SectionDir(kind: Extractor, fields: seq<(string, Json)>): Json {
    if kind == ExperimentCourse then Str("") else Member(fields, "title", Null)
  }

  /** What an extractor returns: the records, or `None` once anything raised. */
  function Info(kind: Extractor, id: Option<string>, fetch: string -> Option<Json>): Option<seq<Record>> {
    match fetch(InfoUrl(kind, id))
    case None => None
    case Some(data) =>
      match Assemble(kind, id, data)
      case Ok(records) => Some(records)
      case Err(_) => None
  }

  /** The body of `get_textbook_info` and `get_courseware_info` after the
      document is parsed: the imperative form of `SingleRecord`. */
  method SingleInfo(fields: seq<(string, Json)>, id: Option<string>) returns (r: Result<seq<Record>, PyError>)
    ensures r == SingleRecord(fields, id)
  {
    var props := Member(fields, "custom_properties", Obj([]));
    if !props.Obj? {
      return Err(AttributeError);
    }
    var format := Member(props.fields, "format", Null);
    var size := Member(props.fields, "size", Null);
    var url := GetDownloadUrl(Member(fields, "ti_items", Arr([])), size, format);
    if url.Err? {
      return Err(url.error);
    }
    return Ok([Record(Str(""), Member(fields, "title", IdJson(id)), UrlJson(url.value), format, size)]);
  }

  /** The body of `get_homework_info` after the document is parsed: the
      imperative form of `HomeworkRecord`. */
  method HomeworkInfo(fields: seq<(string, Json)>) returns (r: Result<seq<Record>, PyError>)
    ensures r == HomeworkRecord(fields)
  {
    var props := Member(fields, "custom_properties", Obj([]));
    if !props.Obj? {
      return Err(AttributeError);
    }
    var format := Member(props.fields, "format", Null);
    var size := Member(props.fields, "size", Null);
    var url := HomeworkUrl(Member(fields, "ti_items", Arr([])), size, format);
    if url.Err? {
      return Err(url.error);
    }
    return Ok([Record(Str(""), Member(fields, "title", Null), url.value, format, size)]);
  }

  /** The multi-section extractors: one `fetch_resources` call per section,
      the lists concatenated in section order. */
  method SectionInfo(keys: seq<string>, relations: Json, dirName: Json) returns (r: Result<seq<Record>, PyError>)
    ensures r == SectionRecords(keys, relations, dirName)
    decreases |keys|
  {
    if keys == [] {
      return Ok([]);
    }
    var first := FetchResources(keys[0], relations, dirName);
    if first.Err? {
      return Err(first.error);
    }
    var rest := SectionInfo(keys[1..], relations, dirName);
    if rest.Err? {
      return Err(rest.error);
    }
    return Ok(first.value + rest.value);
  }

  /** The body of an extractor once its document is parsed: the imperative
      form of `Assemble`. */
  method AssembleInfo(kind: Extractor, id: Option<string>, data: Json) returns (r: Result<seq<Record>, PyError>)
    ensures r == Assemble(kind, id, data)
  {
    if !data.Obj? {
      return Err(AttributeError);
    }
    if kind == Textbook || kind == Courseware {
      r := SingleInfo(data.fields, id);
    } else if kind == Homework {
      r := HomeworkInfo(data.fields);
    } else {
      r := SectionInfo(SectionKeys(kind), Member(data.fields, "relations", Obj([])), SectionDir(kind, data.fields));
    }
  }

  /** `get_*_info(id)`: requests the document and assembles the records;
      any exception yields `None`. The imperative form of `Info`. */
  method ExtractInfo(kind: Extractor, id: Option<string>, fetch: string -> Option<Json>) returns (r: Option<seq<Record>>)
    ensures r == Info(kind, id, fetch)
  {
    var response := fetch(InfoUrl(kind, id));
    if response.None? {
      return None;
    }
    var records := AssembleInfo(kind, id, response.value);
    if records.Err? {
      return None;
    }
    return Some(records.value);
  }

  /** The textbook, courseware and homework extractors return exactly one
      record, with an empty directory name. */
  lemma InfoSingleRecord(kind: Extractor, id: Option<string>, fetch: string -> Option<Json>)
    requires kind == Textbook || kind == Courseware || kind == Homework
    requires Info(kind, id, fetch).Some?
    ensures |Info(kind, id, fetch).value| == 1
    ensures Info(kind, id, fetch).value[0].dirName == Str("")
  {
    var data := fetch(InfoUrl(kind, id)).value;
    if kind == Homework {
      assert Info(kind, id, fetch) == Some(HomeworkRecord(data.fields).value);
    } else {
      assert Info(kind, id, fetch) == Some(SingleRecord(data.fields, id).value);
    }
  }

  /** Without a title the textbook and courseware record is named by the
      identifier from the page URL. */
  lemma InfoTitleDefault(kind: Extractor, id: Option<string>, fetch: string -> Option<Json>, fields: seq<(string, Json)>)
    requires kind == Textbook || kind == Courseware
    requires fetch(InfoUrl(kind, id)) == Some(Obj(fields)) && Lookup(fields, "title").None?
    requires Info(kind, id, fetch).Some?
    ensures |Info(kind, id, fetch).value| == 1
    ensures Info(kind, id, fetch).value[0].fileName == IdJson(id)
  {
    assert Info(kind, id, fetch) == Some(SingleRecord(fields, id).value);
  }

  /** A multi-section extractor returns one record per entry of its
      sections, section by section in the order of `SectionKeys(kind)`. */
  lemma InfoSections(kind: Extractor, id: Option<string>, fetch: string -> Option<Json>, fields: seq<(string, Json)>)
    requires SectionKeys(kind) != []
    requires fetch(InfoUrl(kind, id)) == Some(Obj(fields))
    requires Info(kind, id, fetch).Some?
    ensures var relations := Member(fields, "relations", Obj([]));
      var dirName := SectionDir(kind, fields);
      var entries := SectionEntries(SectionKeys(kind), relations);
      var records := Info(kind, id, fetch).value;
      entries.Ok? && |records| == |entries.value| &&
      forall k :: 0 <= k < |records| ==> Ok(records[k]) == RecordOf(entries.value[k], dirName)
  {
    var relations := Member(fields, "relations", Obj([]));
    var dirName := SectionDir(kind, fields);
    assert Info(kind, id, fetch) == Some(SectionRecords(SectionKeys(kind), relations, dirName).value);
    SectionRecordsSpec(SectionKeys(kind), relations, dirName);
  }
}

