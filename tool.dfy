/**
 * utils/tool.py: the storage-prefix rewrite, the query-parameter lookup and
 * the check for the external downloader's executables. The operating
 * system's name and the file-existence test are parameters.
 */
module Tool {
  import opened Wrappers
  import opened Text

  /** The placeholder prefix that resource records put in front of storage paths. */
  const RefPathPrefix: string := "cs_path:${ref-path}"

  /** `replace_starting_pattern(url, replacement)`. */
  function ReplaceStartingPattern(url: string, replacement: string): (r: string)
    ensures StartsWith(url, RefPathPrefix) ==> |r| == |url| - |RefPathPrefix| + |replacement|
  {
    if StartsWith(url, RefPathPrefix) then replacement + url[|RefPathPrefix|..] else url
  }

  /** With the prefix present, the result is the replacement followed by the
      rest of the URL; the suffix after the prefix is kept verbatim. */
  lemma ReplacePrefixPresent(url: string, replacement: string)
    requires StartsWith(url, RefPathPrefix)
    ensures var r := ReplaceStartingPattern(url, replacement);
      StartsWith(r, replacement) && r[|replacement|..] == url[|RefPathPrefix|..]
      && url == RefPathPrefix + r[|replacement|..]
  {
  }

  /** Without the prefix the URL is returned unchanged. */
  lemma ReplacePrefixAbsent(url: string, replacement: string)
    requires !StartsWith(url, RefPathPrefix)
    ensures ReplaceStartingPattern(url, replacement) == url
  {
  }

  /** Rewriting twice is rewriting once when neither the replacement nor the
      placeholder prefix is a prefix of the other (a URL such as
      `https://...` never is). */
  lemma ReplaceIdempotent(url: string, replacement: string)
    requires !StartsWith(replacement, RefPathPrefix) && !StartsWith(RefPathPrefix, replacement)
    ensures ReplaceStartingPattern(ReplaceStartingPattern(url, replacement), replacement)
         == ReplaceStartingPattern(url, replacement)
  {
    var r := ReplaceStartingPattern(url, replacement);
    if StartsWith(url, RefPathPrefix) {
      if |replacement| >= |RefPathPrefix| {
        assert r[..|RefPathPrefix|] == replacement[..|RefPathPrefix|];
      } else {
        assert r[..|replacement|] == replacement;
      }
      assert !StartsWith(r, RefPathPrefix);
    }
  }

  /** The side condition is needed: a replacement that is a proper prefix of
      the placeholder can re-create it. */
  lemma ReplaceNotIdempotentShortExample()
    ensures ReplaceStartingPattern(ReplaceStartingPattern(RefPathPrefix + "${ref-path}", "cs_path:"), "cs_path:")
         != ReplaceStartingPattern(RefPathPrefix + "${ref-path}", "cs_path:")
  {
    var url := RefPathPrefix + "${ref-path}";
    var once := ReplaceStartingPattern(url, "cs_path:");
    assert once == RefPathPrefix;
    assert ReplaceStartingPattern(once, "cs_path:") == "cs_path:";
  }

  /** A rewrite whose replacement does start with the prefix is not idempotent. */
  lemma ReplaceNotIdempotentExample()
    ensures ReplaceStartingPattern(ReplaceStartingPattern(RefPathPrefix, RefPathPrefix + "x"), RefPathPrefix + "x")
         != ReplaceStartingPattern(RefPathPrefix, RefPathPrefix + "x")
  {
    var rep := RefPathPrefix + "x";
    assert ReplaceStartingPattern(RefPathPrefix, rep) == rep;
    assert StartsWith(rep, RefPathPrefix);
    assert ReplaceStartingPattern(rep, rep) == rep + "x";
  }

  // ---------------------------------------------------------------------
  // Query parameters
  // ---------------------------------------------------------------------

  /** The URL without its fragment: the part before the first `#`. */
  function Defragment(url: string): (f: string)
    ensures f <= url && '#' !in f
    ensures |f| < |url| ==> url[|f|] == '#'
  {
    match SplitFirst(url, '#') case Some(p) => p.0 case None => url
  }

  /** `urlparse(url).query`: the text after the first `?` of the part before the first `#`. */
  function QueryOf(url: string): (q: string)
    ensures '#' !in q
    ensures '?' !in Defragment(url) ==> q == ""
    ensures '?' in Defragment(url) ==>
      var f := Defragment(url);
      var i := IndexOfChar(f, '?');
      f == f[..i] + "?" + q && q == f[i + 1..]
  {
    match SplitFirst(Defragment(url), '?') case Some(p) => p.1 case None => ""
  }

  /** The value `parse_qs` records for one `&`-separated field when it is
      named `name`: a field needs a `=` and a non-empty value. */
  function FieldValue(field: string, name: string): (r: Option<string>)
    ensures r.Some? ==> field == name + "=" + r.value && r.value != "" && '=' !in name
  {
    match SplitFirst(field, '=')
    case None => None
    case Some(p) => if p.0 == name && p.1 != "" then Some(p.1) else None
  }

  /** The first recorded value among `fields`. */
  function FirstValue(fields: seq<string>, name: string): (r: Option<string>)
  {
    if fields == [] then None
    else match FieldValue(fields[0], name)
      case Some(v) => Some(v)
      case None => FirstValue(fields[1..], name)
  }

  /** `get_url_param(url, param_name)`: `parse_qs(...)`'s first value for the name, or `None`. */
  function GetUrlParam(url: string, name: string): Option<string> {
    FirstValue(Split(QueryOf(url), '&'), name)
  }

  /** `get_url_param` gives `None` exactly when no `&`-separated field of
      the query names the parameter with a value, and otherwise the value
      of the earliest field that does; a URL without a query gives `None`. */
  lemma GetUrlParamSpec(url: string, name: string)
    ensures GetUrlParam(url, name).None? <==>
      forall k :: 0 <= k < |Split(QueryOf(url), '&')| ==> FieldValue(Split(QueryOf(url), '&')[k], name).None?
    ensures GetUrlParam(url, name).Some? ==>
      exists k :: 0 <= k < |Split(QueryOf(url), '&')| &&
        Split(QueryOf(url), '&')[k] == name + "=" + GetUrlParam(url, name).value &&
        forall j :: 0 <= j < k ==> FieldValue(Split(QueryOf(url), '&')[j], name).None?
    ensures '?' !in Defragment(url) ==> GetUrlParam(url, name).None?
  {
    var fields := Split(QueryOf(url), '&');
    FieldsValue(fields, name);
    assert GetUrlParam(url, name) == FirstValue(fields, name);
    assert forall k :: 0 <= k < |fields| ==> fields[k] == Split(QueryOf(url), '&')[k];
    if '?' !in Defragment(url) {
      EmptyQueryHasNoValue(url, name);
    }
  }

  /** A URL without a query has no parameter values. */
  lemma EmptyQueryHasNoValue(url: string, name: string)
    requires '?' !in Defragment(url)
    ensures GetUrlParam(url, name).None?
  {
    assert QueryOf(url) == "";
    assert Split("", '&') == [""];
    assert FieldValue("", name).None?;
    assert [""][1..] == [];
    assert FirstValue([""], name) == FirstValue([], name);
  }

  /** FirstValueSpec with the found field written out. */
  lemma FieldsValue(fields: seq<string>, name: string)
    ensures FirstValue(fields, name).None? <==> forall k :: 0 <= k < |fields| ==> FieldValue(fields[k], name).None?
    ensures FirstValue(fields, name).Some? ==>
      exists k :: 0 <= k < |fields| && fields[k] == name + "=" + FirstValue(fields, name).value &&
        forall j :: 0 <= j < k ==> FieldValue(fields[j], name).None?
  {
    FirstValueSpec(fields, name);
  }

  /** The result is the value of the earliest field that names the
      parameter with a non-empty value; `None` exactly when no field does. */
  lemma {:induction false} FirstValueSpec(fields: seq<string>, name: string)
    ensures FirstValue(fields, name).None? <==> forall k :: 0 <= k < |fields| ==> FieldValue(fields[k], name).None?
    ensures FirstValue(fields, name).Some? ==>
      exists k :: 0 <= k < |fields| && FieldValue(fields[k], name) == FirstValue(fields, name) &&
        forall j :: 0 <= j < k ==> FieldValue(fields[j], name).None?
  {
    FirstValueNone(fields, name);
    if FirstValue(fields, name).Some? {
      FirstValueFirst(fields, name);
    }
  }

  /** No value is found exactly when no field has one. */
  lemma {:induction false} FirstValueNone(fields: seq<string>, name: string)
    ensures FirstValue(fields, name).None? <==> forall k :: 0 <= k < |fields| ==> FieldValue(fields[k], name).None?
  {
    if fields != [] {
      FirstValueNone(fields[1..], name);
      assert forall k :: 1 <= k < |fields| ==> fields[k] == fields[1..][k - 1];
    }
  }

  /** A value found comes from a field with no value-bearing field before it. */
  lemma {:induction false} FirstValueFirst(fields: seq<string>, name: string)
    requires FirstValue(fields, name).Some?
    ensures exists k :: 0 <= k < |fields| && FieldValue(fields[k], name) == FirstValue(fields, name) &&
                        forall j :: 0 <= j < k ==> FieldValue(fields[j], name).None?
  {
    if FieldValue(fields[0], name).None? {
      FirstValueFirst(fields[1..], name);
      var k :| 0 <= k < |fields[1..]| && FieldValue(fields[1..][k], name) == FirstValue(fields[1..], name)
        && forall j :: 0 <= j < k ==> FieldValue(fields[1..][j], name).None?;
      assert FieldValue(fields[k + 1], name) == FirstValue(fields, name);
      forall j | 0 <= j < k + 1 ensures FieldValue(fields[j], name).None? {
        if j > 0 { assert fields[j] == fields[1..][j - 1]; }
      }
    } else {
      assert FieldValue(fields[0], name) == FirstValue(fields, name);
    }
  }

  // ---------------------------------------------------------------------
  // The external downloader's executables
  // ---------------------------------------------------------------------

  const ToolFileNames: seq<string> := ["ffmpeg.exe", "N_m3u8DL-CLI_v3.0.2.exe"]

  /** `check_directory_m3u8downloader()`. `existsInCwd(name)` is
      `os.path.exists(os.path.join(os.getcwd(), name))`; `probed` lists the
      names looked up, in order. */
  method CheckDirectoryM3u8Downloader(isWindows: bool, existsInCwd: string -> bool)
    returns (present: bool, probed: seq<string>)
    ensures present <==> isWindows && forall k :: 0 <= k < |ToolFileNames| ==> existsInCwd(ToolFileNames[k])
    ensures !isWindows ==> probed == []
    ensures isWindows ==> probed <= ToolFileNames && probed != []
    ensures isWindows ==> forall k :: 0 <= k < |probed| - 1 ==> existsInCwd(probed[k])
    ensures isWindows && !present ==> !existsInCwd(probed[|probed| - 1])
  {
    probed := [];
    if !isWindows {
      return false, probed;
    }
    var i := 0;
    while i < |ToolFileNames|
      invariant 0 <= i <= |ToolFileNames|
      invariant probed == ToolFileNames[..i]
      invariant forall k :: 0 <= k < i ==> existsInCwd(ToolFileNames[k])
    {
      probed := probed + [ToolFileNames[i]];
      if !existsInCwd(ToolFileNames[i]) {
        return false, probed;
      }
      i := i + 1;
    }
    return true, probed;
  }
}
