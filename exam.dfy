/**
 * utils/getExam2Word.py: `getExam`, which turns an exam paper into one HTML
 * document. It first builds a table of question data from the fetched
 * question pages (the resource address, the question HTML, the address of
 * the archive of explanation videos and its MD5), then walks the paper's
 * parts, numbers the questions 1, 2, ... and checks each downloaded archive
 * against its MD5.
 *
 * The fetched JSON documents enter as typed values, the archive download as
 * a parameter `zipMd5Of(url)` giving the MD5 of the downloaded file (`None`
 * when the download raised).
 */
module Exam {
  import opened Wrappers
  import opened Text
  import Json
  import Tool
  import Download

  /** One choice of an item: `{"identifier": ..., "text": ...}`. */
  datatype Choice = Choice(identifier: string, text: string)

  /** One item of a question: its prompt and its choices. */
  datatype Item = Item(prompt: string, choices: seq<Choice>)

  /** One entry of a question page: `content.identifier`,
      `content.location`, `sys_packing_result.result` and `.md5`, and
      `content.items`. */
  datatype Question = Question(identifier: string, location: string, packingResult: string, packingMd5: string, items: seq<Item>)

  /** The `ques_datas[id]` entry built for a question. */
  datatype QuesData = QuesData(refPath: string, questionHtml: seq<string>, sourceZip: string, sourceZipMd5: string)

  /** One part of the paper: its title and the ids of its `paper_questions`. */
  datatype Part = Part(title: string, questionIds: seq<string>)

  /** Why `getExam` stops. Each is an exception that the outer `try`
      catches: the address pattern did not match (`None.group()`), a paper
      question is absent from the question data, the archive download raised,
      or its MD5 differs. */
  datatype ExamError =
    | NoAddress(location: string)
    | MissingQuestion(id: string)
    | DownloadFailed(url: string)
    | ChecksumMismatch(url: string)

  // ---------------------------------------------------------------------
  // ref_path: re.match(r"[\w]*://[-.\w\d]*/*", location).group()[:-1]
  // ---------------------------------------------------------------------

  /** `\w` on ASCII input. */
  predicate IsWordChar(c: char) {
    ('a' <= c <= 'z') || ('A' <= c <= 'Z') || ('0' <= c <= '9') || c == '_'
  }

  /** The class `[-.\w\d]`. */
  predicate IsHostChar(c: char) {
    IsWordChar(c) || c == '-' || c == '.'
  }

  predicate IsSlash(c: char) {
    c == '/'
  }

  const SchemeSep: string := "://"

  /** The length of the longest prefix of `s` whose characters all satisfy `p`. */
  function Span(s: string, p: char -> bool): (n: nat)
    ensures n <= |s|
    decreases |s|
  {
    if s == [] || !p(s[0]) then 0 else 1 + Span(s[1..], p)
  }

  /** Every character of the run satisfies `p` and the one after it, if
      any, does not. */
  lemma {:induction false} SpanSpec(s: string, p: char -> bool)
    ensures forall i :: 0 <= i < Span(s, p) ==> p(s[i])
    ensures Span(s, p) < |s| ==> !p(s[Span(s, p)])
    decreases |s|
  {
    if s != [] && p(s[0]) {
      SpanSpec(s[1..], p);
      assert forall i :: 1 <= i <= Span(s[1..], p) ==> s[i] == s[1..][i - 1];
    }
  }

  /** A run of `k` characters satisfying `p` from `off` is inside the span
      from `off`. */
  lemma SpanBoundFrom(s: string, off: nat, p: char -> bool, k: nat)
    requires off + k <= |s| && forall j :: off <= j < off + k ==> p(s[j])
    ensures k <= Span(s[off..], p)
  {
    assert forall i :: 0 <= i < k ==> s[off..][i] == s[off + i];
    SpanBound(s[off..], p, k);
  }

  /** Every character of a span that starts at `off` satisfies `p`. */
  lemma SpanFrom(s: string, off: nat, p: char -> bool)
    requires off <= |s|
    ensures forall j :: off <= j < off + Span(s[off..], p) ==> p(s[j])
  {
    SpanSpec(s[off..], p);
    assert forall j :: off <= j < off + Span(s[off..], p) ==> s[j] == s[off..][j - off];
  }

  /** Any run of `p` characters at the front is at most the longest one. */
  lemma SpanBound(s: string, p: char -> bool, k: nat)
    requires k <= |s| && forall i :: 0 <= i < k ==> p(s[i])
    ensures k <= Span(s, p)
  {
    SpanSpec(s, p);
  }

  /** `m` splits into word characters up to `w`, then `://`, then host
      characters up to `h`, then slashes: the shape of the pattern. */
  predicate Shaped(m: string, w: nat, h: nat) {
    w + |SchemeSep| <= h <= |m| &&
    (forall j :: 0 <= j < w ==> IsWordChar(m[j])) &&
    m[w..w + |SchemeSep|] == SchemeSep &&
    (forall j :: w + |SchemeSep| <= j < h ==> IsHostChar(m[j])) &&
    (forall j :: h <= j < |m| ==> IsSlash(m[j]))
  }

  /** What `re.match` returns: each greedy run is taken whole; a failure of
      `://` to follow the word run is final, because no shorter word run
      can be followed by `:` either. */
  function AddressMatch(location: string): (m: Option<string>)
    ensures m.Some? ==> |SchemeSep| <= |m.value| && StartsWith(location, m.value)
  {
    var w := Span(location, IsWordChar);
    if !StartsWith(location[w..], SchemeSep) then None
    else
      var h := w + |SchemeSep| + Span(location[w + |SchemeSep|..], IsHostChar);
      Some(location[..h + Span(location[h..], IsSlash)])
  }

  /** The shape of `s[..n]`, stated on `s`. */
  predicate ShapedAt(s: string, n: nat, w: nat, h: nat) {
    w + |SchemeSep| <= h <= n <= |s| &&
    (forall j :: 0 <= j < w ==> IsWordChar(s[j])) &&
    s[w..w + |SchemeSep|] == SchemeSep &&
    (forall j :: w + |SchemeSep| <= j < h ==> IsHostChar(s[j])) &&
    (forall j :: h <= j < n ==> IsSlash(s[j]))
  }

  lemma ShapedPrefix(s: string, n: nat, w: nat, h: nat)
    requires n <= |s|
    ensures Shaped(s[..n], w, h) <==> ShapedAt(s, n, w, h)
  {
    var m := s[..n];
    assert forall j :: 0 <= j < n ==> m[j] == s[j];
    if w + |SchemeSep| <= h <= n {
      assert m[w..w + |SchemeSep|] == s[w..w + |SchemeSep|];
    }
  }

  /** The match has the pattern's shape. */
  lemma AddressMatchShaped(location: string)
    requires AddressMatch(location).Some?
    ensures exists w, h :: Shaped(AddressMatch(location).value, w, h)
  {
    var w := Span(location, IsWordChar);
    var rest := location[w + |SchemeSep|..];
    var h := w + |SchemeSep| + Span(rest, IsHostChar);
    var n := h + Span(location[h..], IsSlash);
    assert AddressMatch(location).value == location[..n];
    assert forall j :: 0 <= j < w ==> IsWordChar(location[j]) by {
      SpanSpec(location, IsWordChar);
    }
    assert location[w..w + |SchemeSep|] == SchemeSep by {
      assert location[w..w + |SchemeSep|] == location[w..][..|SchemeSep|];
    }
    SpanFrom(location, w + |SchemeSep|, IsHostChar);
    SpanFrom(location, h, IsSlash);
    ShapedPrefix(location, n, w, h);
  }

  /** A shaped prefix fixes the word run and fits inside the match. */
  lemma AddressOfShaped(location: string, n: nat, w': nat, h': nat)
    requires n <= |location| && Shaped(location[..n], w', h')
    ensures AddressMatch(location).Some? && n <= |AddressMatch(location).value|
  {
    ShapedPrefix(location, n, w', h');
    var w := Span(location, IsWordChar);
    assert w == w' by {
      SpanBound(location, IsWordChar, w');
      SpanSpec(location, IsWordChar);
      assert location[w'] == location[w'..w' + |SchemeSep|][0];
    }
    assert location[w..][..|SchemeSep|] == SchemeSep;
    SpanBoundFrom(location, w + |SchemeSep|, IsHostChar, h' - w - |SchemeSep|);
    var h := w + |SchemeSep| + Span(location[w + |SchemeSep|..], IsHostChar);
    if h <= n {
      SpanBoundFrom(location, h, IsSlash, n - h);
    }
  }


  /** `ref_path`: the match without its last character. */
  function RefPath(location: string): (r: Result<string, ExamError>)
    ensures r.Ok? <==> AddressMatch(location).Some?
    ensures r.Ok? ==>
      |r.value| + 1 == |AddressMatch(location).value| && StartsWith(AddressMatch(location).value, r.value)
    ensures r.Err? ==> r.error == NoAddress(location)
  {
    match AddressMatch(location)
    case None => Err(NoAddress(location))
    case Some(m) => Ok(m[..|m| - 1])
  }

  /** The run is exactly `k` long when its first `k` characters satisfy
      `p` and the next one does not. */
  lemma SpanExact(s: string, p: char -> bool, k: nat)
    requires k <= |s| && forall i :: 0 <= i < k ==> p(s[i])
    requires k < |s| ==> !p(s[k])
    ensures Span(s, p) == k
  {
    SpanSpec(s, p);
  }

  /** With a trailing slash the slash is what goes. */
  lemma RefPathTrailingSlash()
    ensures RefPath("s://h.cn/x") == Ok("s://h.cn")
  {
    var u := "s://h.cn/x";
    SpanExact(u, IsWordChar, 1);
    assert |SchemeSep| == 3 && u[1..][..3] == SchemeSep;
    SpanExact(u[4..], IsHostChar, 4);
    SpanExact(u[8..], IsSlash, 1);
    assert AddressMatch(u) == Some(u[..9]);
    assert u[..9][..8] == "s://h.cn";
  }

  /** Without a trailing slash the host loses its last character. */
  lemma RefPathNoSlash()
    ensures RefPath("s://h.cn") == Ok("s://h.c")
  {
    var u := "s://h.cn";
    SpanExact(u, IsWordChar, 1);
    assert |SchemeSep| == 3 && u[1..][..3] == SchemeSep;
    SpanExact(u[4..], IsHostChar, 4);
    SpanExact(u[8..], IsSlash, 0);
    assert AddressMatch(u) == Some(u[..8]);
    assert u[..8][..7] == "s://h.c";
  }

  /** A location without `://` after its leading word characters has no
      address. */
  lemma RefPathNoScheme()
    ensures RefPath("a.cn/x") == Err(NoAddress("a.cn/x"))
  {
    SpanExact("a.cn/x", IsWordChar, 1);
  }

  // ---------------------------------------------------------------------
  // source_zip
  // ---------------------------------------------------------------------

  const RefPathPlaceholder: string := "${ref-path}"
  const CsPathPrefix: string := "cs_path:"

  /** `source_zip`: every placeholder replaced by the resource address, then
      one leading `cs_path:` removed. */
  function SourceZip(packed: string, refPath: string): string {
    var z := Replace(packed, RefPathPlaceholder, refPath);
    if StartsWith(z, CsPathPrefix) then z[|CsPathPrefix|..] else z
  }

  /** On the usual `cs_path:${ref-path}/...` form this agrees with the
      prefix rewrite of utils/tool.py. */
  lemma SourceZipAgreesWithTool(rest: string, refPath: string)
    requires forall j :: 0 <= j ==> !OccursAt(rest, RefPathPlaceholder, j)
    ensures SourceZip(Tool.RefPathPrefix + rest, refPath) == refPath + rest
    ensures SourceZip(Tool.RefPathPrefix + rest, refPath) == Tool.ReplaceStartingPattern(Tool.RefPathPrefix + rest, refPath)
  {
    assert Tool.RefPathPrefix + rest == CsPathPrefix + (RefPathPlaceholder + rest);
    ReplaceSkip(CsPathPrefix, RefPathPlaceholder + rest, RefPathPlaceholder, refPath);
    assert (RefPathPlaceholder + rest)[|RefPathPlaceholder|..] == rest;
    ReplaceAbsent(rest, RefPathPlaceholder, refPath);
    assert Replace(RefPathPlaceholder + rest, RefPathPlaceholder, refPath) == refPath + rest;
    assert (CsPathPrefix + (refPath + rest))[..|CsPathPrefix|] == CsPathPrefix;
    assert (CsPathPrefix + (refPath + rest))[|CsPathPrefix|..] == refPath + rest;
  }

  /** Only one leading `cs_path:` is removed. */
  lemma SourceZipStripsOnce(rest: string, refPath: string)
    requires '$' !in rest
    ensures SourceZip(CsPathPrefix + CsPathPrefix + rest, refPath) == CsPathPrefix + rest
  {
    var packed := CsPathPrefix + CsPathPrefix + rest;
    assert RefPathPlaceholder[0] == '$';
    ReplaceSkip(packed, [], RefPathPlaceholder, refPath);
    assert packed + [] == packed;
    assert packed[..|CsPathPrefix|] == CsPathPrefix;
    assert packed[|CsPathPrefix|..] == CsPathPrefix + rest;
  }

  // ---------------------------------------------------------------------
  // question_html
  // ---------------------------------------------------------------------

  const DivOpen: string := "<div><p style=\"text-align: justify;\"><span>"
  const DivClose: string := "</span></p></div>"

  /** The paragraph wrapper used for choice labels, part titles and
      question numbers. */
  function Div(text: string): string {
    DivOpen + text + DivClose
  }

  /** One choice: its labelled div, then its text. */
  function ChoiceHtml(c: Choice): string {
    Div(c.identifier + ".") + c.text
  }

  /** The choices joined with the empty separator. */
  function ChoicesHtml(choices: seq<Choice>): string
    decreases |choices|
  {
    if choices == [] then "" else ChoiceHtml(choices[0]) + ChoicesHtml(choices[1..])
  }

  /** The HTML of a list of choices is the HTML of each part in order. */
  lemma {:induction false} ChoicesHtmlAppend(a: seq<Choice>, b: seq<Choice>)
    ensures ChoicesHtml(a + b) == ChoicesHtml(a) + ChoicesHtml(b)
    decreases |a|
  {
    if a != [] {
      assert (a + b)[0] == a[0];
      assert (a + b)[1..] == a[1..] + b;
      ChoicesHtmlAppend(a[1..], b);
    } else {
      assert a + b == b;
    }
  }

  /** One item's HTML: the prompt, then the choices, with the placeholder
      replaced by the resource address. */
  function ItemHtml(item: Item, refPath: string): string {
    Replace(item.prompt + ChoicesHtml(item.choices), RefPathPlaceholder, refPath)
  }

  /** Without a placeholder the item's HTML is the prompt followed by each
      choice's div and text, in choice order. */
  lemma ItemHtmlPlain(item: Item, refPath: string)
    requires forall j :: 0 <= j ==> !OccursAt(item.prompt + ChoicesHtml(item.choices), RefPathPlaceholder, j)
    ensures |item.choices| > 0 ==>
      ItemHtml(item, refPath) == item.prompt + ChoiceHtml(item.choices[0]) + ChoicesHtml(item.choices[1..])
    ensures StartsWith(ItemHtml(item, refPath), item.prompt)
  {
    ReplaceAbsent(item.prompt + ChoicesHtml(item.choices), RefPathPlaceholder, refPath);
    assert (item.prompt + ChoicesHtml(item.choices))[..|item.prompt|] == item.prompt;
  }

  /** `question_html`: one string per item, in item order. */
  function QuestionHtml(items: seq<Item>, refPath: string): seq<string>
    decreases |items|
  {
    if items == [] then [] else QuestionHtml(items[..|items| - 1], refPath) + [ItemHtml(items[|items| - 1], refPath)]
  }

  /** The `k`-th string is the HTML of the `k`-th item. */
  lemma {:induction false} QuestionHtmlSpec(items: seq<Item>, refPath: string)
    ensures |QuestionHtml(items, refPath)| == |items|
    ensures forall k :: 0 <= k < |items| ==> QuestionHtml(items, refPath)[k] == ItemHtml(items[k], refPath)
    decreases |items|
  {
    if items != [] {
      var init := items[..|items| - 1];
      QuestionHtmlSpec(init, refPath);
      assert forall k :: 0 <= k < |init| ==> init[k] == items[k];
    }
  }

  /** The `for item in items` loop. */
  method QuestionHtmlOf(items: seq<Item>, refPath: string) returns (html: seq<string>)
    ensures html == QuestionHtml(items, refPath)
  {
    html := [];
    var i := 0;
    while i < |items|
      invariant 0 <= i <= |items|
      invariant html == QuestionHtml(items[..i], refPath)
    {
      assert items[..i + 1][..i] == items[..i];
      html := html + [ItemHtml(items[i], refPath)];
      i := i + 1;
    }
    assert items[..i] == items;
  }

  // ---------------------------------------------------------------------
  // ques_datas
  // ---------------------------------------------------------------------

  /** Concatenation of a sequence of sequences; with strings this is
      `"".join(...)`. */
  function Flatten<T>(xss: seq<seq<T>>): seq<T>
    decreases |xss|
  {
    if xss == [] then [] else Flatten(xss[..|xss| - 1]) + xss[|xss| - 1]
  }

  /** The prefix of a concatenation over a prefix of the pieces. */
  lemma {:induction false} FlattenPrefix<T>(xss: seq<seq<T>>, n: nat)
    requires n <= |xss|
    ensures StartsWithSeq(Flatten(xss), Flatten(xss[..n]))
    decreases |xss| - n
  {
    if n < |xss| {
      FlattenPrefix(xss, n + 1);
      assert xss[..n + 1][..n] == xss[..n];
    } else {
      assert xss[..n] == xss;
    }
  }

  predicate StartsWithSeq<T(==)>(s: seq<T>, p: seq<T>) {
    |p| <= |s| && s[..|p|] == p
  }

  /** The entry built for one question. */
  function QuesDataOf(q: Question): Result<QuesData, ExamError> {
    match RefPath(q.location)
    case Err(e) => Err(e)
    case Ok(refPath) =>
      Ok(QuesData(refPath, QuestionHtml(q.items, refPath), SourceZip(q.packingResult, refPath), q.packingMd5))
  }

  /** The text holds no `${ref-path}` placeholder. */
  ghost predicate NoPlaceholder(s: string) {
    forall j :: 0 <= j ==> !OccursAt(s, RefPathPlaceholder, j)
  }

  /** The entry fails exactly when the address does not match, and then
      with its error. Otherwise it holds the address, one HTML string per
      item in item order, the archive's expected MD5, and an archive path
      that is the prefix rewrite of utils/tool.py on the usual
      `cs_path:${ref-path}/...` form. */
  lemma QuesDataOfSpec(q: Question)
    ensures QuesDataOf(q).Err? <==> RefPath(q.location).Err?
    ensures QuesDataOf(q).Err? ==> QuesDataOf(q).error == RefPath(q.location).error
    ensures QuesDataOf(q).Ok? ==>
      QuesDataOf(q).value.refPath == RefPath(q.location).value &&
      QuesDataOf(q).value.sourceZipMd5 == q.packingMd5 &&
      |QuesDataOf(q).value.questionHtml| == |q.items|
    ensures QuesDataOf(q).Ok? ==> forall k :: 0 <= k < |q.items| ==>
      QuesDataOf(q).value.questionHtml[k] == ItemHtml(q.items[k], RefPath(q.location).value)
    ensures (QuesDataOf(q).Ok? && StartsWith(q.packingResult, Tool.RefPathPrefix)
             && NoPlaceholder(q.packingResult[|Tool.RefPathPrefix|..])) ==>
      QuesDataOf(q).value.sourceZip == Tool.ReplaceStartingPattern(q.packingResult, RefPath(q.location).value)
  {
    if RefPath(q.location).Ok? {
      var refPath := RefPath(q.location).value;
      QuestionHtmlSpec(q.items, refPath);
      if StartsWith(q.packingResult, Tool.RefPathPrefix) {
        var rest := q.packingResult[|Tool.RefPathPrefix|..];
        assert q.packingResult == Tool.RefPathPrefix + rest;
        if NoPlaceholder(rest) {
          SourceZipAgreesWithTool(rest, refPath);
        }
      }
    }
  }

  /** The table after the questions `qs`, taken in order; a later question
      with the same id overwrites an earlier one. */
  function Collect(entry: Question -> Result<QuesData, ExamError>, qs: seq<Question>): Result<map<string, QuesData>, ExamError>
    decreases |qs|
  {
    if qs == [] then Ok(map[])
    else match Collect(entry, qs[..|qs| - 1])
      case Err(e) => Err(e)
      case Ok(datas) => match entry(qs[|qs| - 1])
        case Err(e) => Err(e)
        case Ok(d) => Ok(datas[qs[|qs| - 1].identifier := d])
  }

  /** One more question: its entry is stored under its id, or its error
      ends the loop. */
  lemma CollectStep(entry: Question -> Result<QuesData, ExamError>, qs: seq<Question>, i: nat, datas: map<string, QuesData>)
    requires i < |qs| && Collect(entry, qs[..i]) == Ok(datas)
    ensures Collect(entry, qs[..i + 1]) ==
      if entry(qs[i]).Err? then Err(entry(qs[i]).error) else Ok(datas[qs[i].identifier := entry(qs[i]).value])
  {
    assert qs[..i + 1][..i] == qs[..i];
  }

  /** Once a question fails, later questions change nothing. */
  lemma {:induction false} CollectErrorStays(entry: Question -> Result<QuesData, ExamError>, qs: seq<Question>, n: nat)
    requires n <= |qs| && Collect(entry, qs[..n]).Err?
    ensures Collect(entry, qs) == Collect(entry, qs[..n])
    decreases |qs| - n
  {
    if n < |qs| {
      assert qs[..n + 1][..n] == qs[..n];
      CollectErrorStays(entry, qs, n + 1);
    } else {
      assert qs[..n] == qs;
    }
  }

  /** The table is built exactly when every address matches. */
  lemma {:induction false} CollectOk(entry: Question -> Result<QuesData, ExamError>, qs: seq<Question>)
    ensures Collect(entry, qs).Ok? <==> forall k :: 0 <= k < |qs| ==> entry(qs[k]).Ok?
    decreases |qs|
  {
    if qs != [] {
      var init := qs[..|qs| - 1];
      CollectOk(entry, init);
      assert forall k :: 0 <= k < |init| ==> init[k] == qs[k];
    }
  }

  /** The table holds exactly the ids of the questions. */
  lemma {:induction false} CollectKeys(entry: Question -> Result<QuesData, ExamError>, qs: seq<Question>)
    requires Collect(entry, qs).Ok?
    ensures forall id :: id in Collect(entry, qs).value <==> exists k :: 0 <= k < |qs| && qs[k].identifier == id
    decreases |qs|
  {
    if qs != [] {
      var init := qs[..|qs| - 1];
      CollectKeys(entry, init);
      var m := Collect(entry, qs).value;
      forall id | id in m
        ensures exists k :: 0 <= k < |qs| && qs[k].identifier == id
      {
        if id != qs[|qs| - 1].identifier {
          var k :| 0 <= k < |init| && init[k].identifier == id;
          assert qs[k] == init[k];
        }
      }
      forall k | 0 <= k < |qs|
        ensures qs[k].identifier in m
      {
        if k < |init| {
          assert init[k] == qs[k];
        }
      }
    }
  }

  /** The entry of an id comes from the last question carrying it. */
  lemma {:induction false} CollectLastWins(entry: Question -> Result<QuesData, ExamError>, qs: seq<Question>, k: nat)
    requires Collect(entry, qs).Ok? && k < |qs|
    requires forall j :: k < j < |qs| ==> qs[j].identifier != qs[k].identifier
    ensures qs[k].identifier in Collect(entry, qs).value
    ensures entry(qs[k]) == Ok(Collect(entry, qs).value[qs[k].identifier])
    decreases |qs|
  {
    if k < |qs| - 1 {
      var init := qs[..|qs| - 1];
      assert init[k] == qs[k];
      CollectLastWins(entry, init, k);
    }
  }

  /** The nested loops over the question pages and their entries. */
  method BuildQuesDatas(pages: seq<seq<Question>>) returns (r: Result<map<string, QuesData>, ExamError>)
    ensures r == Collect(QuesDataOf, Flatten(pages))
  {
    var datas: map<string, QuesData> := map[];
    var i := 0;
    while i < |pages|
      invariant 0 <= i <= |pages|
      invariant Collect(QuesDataOf, Flatten(pages[..i])) == Ok(datas)
    {
      assert pages[..i + 1][..i] == pages[..i];
      assert Flatten(pages[..i + 1]) == Flatten(pages[..i]) + pages[i];
      var next := AddPage(Flatten(pages[..i]), pages[i], datas);
      if next.Err? {
        FlattenPrefix(pages, i + 1);
        CollectPrefixError(QuesDataOf, Flatten(pages), Flatten(pages[..i + 1]));
        return next;
      }
      datas := next.value;
      i := i + 1;
    }
    assert pages[..i] == pages;
    return Ok(datas);
  }

  /** The inner loop: the entries of one page added to the table built from
      the questions `done`. */
  method AddPage(ghost done: seq<Question>, page: seq<Question>, datas: map<string, QuesData>)
    returns (r: Result<map<string, QuesData>, ExamError>)
    requires Collect(QuesDataOf, done) == Ok(datas)
    ensures r == Collect(QuesDataOf, done + page)
  {
    ghost var all := done + page;
    var current := datas;
    var j := 0;
    assert all[..|done|] == done;
    while j < |page|
      invariant 0 <= j <= |page|
      invariant Collect(QuesDataOf, all[..|done| + j]) == Ok(current)
    {
      var q := page[j];
      assert all[|done| + j] == q;
      CollectStep(QuesDataOf, all, |done| + j, current);
      var refPath := RefPath(q.location);
      QuesDataOfSpec(q);
      if refPath.Err? {
        CollectErrorStays(QuesDataOf, all, |done| + j + 1);
        return Err(refPath.error);
      }
      var html := QuestionHtmlOf(q.items, refPath.value);
      current := current[q.identifier := QuesData(refPath.value, html, SourceZip(q.packingResult, refPath.value), q.packingMd5)];
      j := j + 1;
    }
    assert all[..|done| + j] == all;
    return Ok(current);
  }

  /** A failure on a prefix of the questions is the failure of the whole. */
  lemma CollectPrefixError(entry: Question -> Result<QuesData, ExamError>, qs: seq<Question>, prefix: seq<Question>)
    requires StartsWithSeq(qs, prefix) && Collect(entry, prefix).Err?
    ensures Collect(entry, qs) == Collect(entry, prefix)
  {
    assert qs[..|prefix|] == prefix;
    CollectErrorStays(entry, qs, |prefix|);
  }

  // ---------------------------------------------------------------------
  // The numbering loop
  // ---------------------------------------------------------------------

  /** The number div in front of each item of question `count`. */
  function NumberDiv(count: nat): string {
    Div(Json.NatToString(count) + ".")
  }

  /** Each item string of one question prefixed with its number, as the
      `map` over `question_html` does. */
  function Numbered(count: nat, htmls: seq<string>): seq<string>
    decreases |htmls|
  {
    if htmls == [] then [] else [NumberDiv(count) + htmls[0]] + Numbered(count, htmls[1..])
  }

  /** One prefixed string per item, in order. */
  lemma {:induction false} NumberedSpec(count: nat, htmls: seq<string>)
    ensures |Numbered(count, htmls)| == |htmls|
    ensures forall k :: 0 <= k < |htmls| ==> Numbered(count, htmls)[k] == NumberDiv(count) + htmls[k]
    decreases |htmls|
  {
    if htmls != [] {
      NumberedSpec(count, htmls[1..]);
      var r := Numbered(count, htmls);
      assert forall k :: 1 <= k < |htmls| ==> r[k] == Numbered(count, htmls[1..])[k - 1];
    }
  }

  /** The outcome of `wget.download` and `get_md5` for a question's archive. */
  function ZipCheck(d: QuesData, zipMd5Of: string -> Option<string>): Option<ExamError> {
    match zipMd5Of(d.sourceZip)
    case None => Some(DownloadFailed(d.sourceZip))
    case Some(digest) => if digest == d.sourceZipMd5 then None else Some(ChecksumMismatch(d.sourceZip))
  }

  /** The state of the inner loop: the question divs so far and `count`. */
  datatype Progress = Progress(blocks: seq<string>, count: nat)

  /** One pass of the inner loop. */
  function AddQuestion(id: string, datas: map<string, QuesData>, zipMd5Of: string -> Option<string>, p: Progress): Result<Progress, ExamError> {
    if id !in datas then Err(MissingQuestion(id))
    else match ZipCheck(datas[id], zipMd5Of)
      case Some(e) => Err(e)
      case None => Ok(Progress(p.blocks + Numbered(p.count, datas[id].questionHtml), p.count + 1))
  }

  /** The inner loop after the questions `ids`, starting from `start`. */
  function QuestionsUpTo(ids: seq<string>, datas: map<string, QuesData>, zipMd5Of: string -> Option<string>, start: nat): Result<Progress, ExamError>
    decreases |ids|
  {
    if ids == [] then Ok(Progress([], start))
    else match QuestionsUpTo(ids[..|ids| - 1], datas, zipMd5Of, start)
      case Err(e) => Err(e)
      case Ok(p) => AddQuestion(ids[|ids| - 1], datas, zipMd5Of, p)
  }

  /** One more question: the pass over it continues the loop. */
  lemma QuestionsStep(ids: seq<string>, datas: map<string, QuesData>, zipMd5Of: string -> Option<string>, start: nat, j: nat, p: Progress)
    requires j < |ids| && QuestionsUpTo(ids[..j], datas, zipMd5Of, start) == Ok(p)
    ensures QuestionsUpTo(ids[..j + 1], datas, zipMd5Of, start) == AddQuestion(ids[j], datas, zipMd5Of, p)
  {
    assert ids[..j + 1][..j] == ids[..j];
  }

  lemma {:induction false} QuestionsErrorStays(ids: seq<string>, datas: map<string, QuesData>, zipMd5Of: string -> Option<string>, start: nat, n: nat)
    requires n <= |ids| && QuestionsUpTo(ids[..n], datas, zipMd5Of, start).Err?
    ensures QuestionsUpTo(ids, datas, zipMd5Of, start) == QuestionsUpTo(ids[..n], datas, zipMd5Of, start)
    decreases |ids| - n
  {
    if n < |ids| {
      assert ids[..n + 1][..n] == ids[..n];
      QuestionsErrorStays(ids, datas, zipMd5Of, start, n + 1);
    } else {
      assert ids[..n] == ids;
    }
  }

  /** A question passes when its id is known and its archive downloads with
      the expected MD5. */
  predicate Passes(id: string, datas: map<string, QuesData>, zipMd5Of: string -> Option<string>) {
    id in datas && ZipCheck(datas[id], zipMd5Of).None?
  }

  /** The exception raised for a question that does not pass. */
  function Failure(id: string, datas: map<string, QuesData>, zipMd5Of: string -> Option<string>): ExamError
    requires !Passes(id, datas, zipMd5Of)
  {
    if id !in datas then MissingQuestion(id) else ZipCheck(datas[id], zipMd5Of).value
  }

  /** The item strings of a known question; empty for an unknown id. */
  function HtmlOf(datas: map<string, QuesData>, id: string): seq<string> {
    if id in datas then datas[id].questionHtml else []
  }

  /** The blocks of `xs` one after the other, the first numbered `start`, the
      next `start + 1`, and so on; `block(x, n)` is the block of `x` numbered `n`. */
  function Blocks<T>(xs: seq<T>, block: (T, nat) -> seq<string>, start: nat): seq<string>
    decreases |xs|
  {
    if xs == [] then [] else block(xs[0], start) + Blocks(xs[1..], block, start + 1)
  }

  /** The last block is numbered after all the others. */
  lemma {:induction false} BlocksSnoc<T>(xs: seq<T>, block: (T, nat) -> seq<string>, start: nat)
    requires xs != []
    ensures Blocks(xs, block, start) == Blocks(xs[..|xs| - 1], block, start) + block(xs[|xs| - 1], start + |xs| - 1)
    decreases |xs|
  {
    var init := xs[..|xs| - 1];
    var tail := block(xs[|xs| - 1], start + |xs| - 1);
    if |xs| > 1 {
      var head := block(xs[0], start);
      calc {
        Blocks(xs, block, start);
        head + Blocks(xs[1..], block, start + 1);
        { BlocksSnoc(xs[1..], block, start + 1);
          assert xs[1..][..|xs| - 2] == init[1..]; }
        head + (Blocks(init[1..], block, start + 1) + tail);
        { assert init[0] == xs[0]; }
        Blocks(init, block, start) + tail;
      }
    } else {
      assert init == [];
      assert Blocks(xs[1..], block, start + 1) == [];
    }
  }

  /** The numbered items of one question. */
  function BlockOf(datas: map<string, QuesData>): (string, nat) -> seq<string> {
    (id: string, count: nat) => Numbered(count, HtmlOf(datas, id))
  }

  /** The item strings of the questions `ids`, the first numbered `start`,
      the next `start + 1`, and so on. */
  function QuestionBlocks(ids: seq<string>, datas: map<string, QuesData>, start: nat): seq<string> {
    Blocks(ids, BlockOf(datas), start)
  }

  /** The last question of `ids` is numbered after all the others. */
  lemma QuestionBlocksSnoc(ids: seq<string>, datas: map<string, QuesData>, start: nat)
    requires ids != []
    ensures QuestionBlocks(ids, datas, start) ==
      QuestionBlocks(ids[..|ids| - 1], datas, start) + Numbered(start + |ids| - 1, HtmlOf(datas, ids[|ids| - 1]))
  {
    BlocksSnoc(ids, BlockOf(datas), start);
  }

  /** One pass of the inner loop fails for an unknown id, and otherwise
      succeeds exactly when the archive's MD5 is the expected one; it then
      appends one string per item of the question, each behind the
      question's number div, and counts the question. */
  lemma AddQuestionSpec(id: string, datas: map<string, QuesData>, zipMd5Of: string -> Option<string>, p: Progress)
    ensures AddQuestion(id, datas, zipMd5Of, p).Ok? <==> Passes(id, datas, zipMd5Of)
    ensures AddQuestion(id, datas, zipMd5Of, p).Ok? ==>
      AddQuestion(id, datas, zipMd5Of, p).value == Progress(p.blocks + Numbered(p.count, HtmlOf(datas, id)), p.count + 1)
    ensures AddQuestion(id, datas, zipMd5Of, p).Err? ==>
      AddQuestion(id, datas, zipMd5Of, p).error == Failure(id, datas, zipMd5Of)
    ensures id !in datas ==> AddQuestion(id, datas, zipMd5Of, p) == Err(MissingQuestion(id))
    ensures id in datas ==>
      (AddQuestion(id, datas, zipMd5Of, p).Ok? <==> zipMd5Of(datas[id].sourceZip) == Some(datas[id].sourceZipMd5))
    ensures AddQuestion(id, datas, zipMd5Of, p).Ok? ==>
      var blocks := AddQuestion(id, datas, zipMd5Of, p).value.blocks;
      |blocks| == |p.blocks| + |datas[id].questionHtml| && blocks[..|p.blocks|] == p.blocks &&
      forall k :: 0 <= k < |datas[id].questionHtml| ==>
        blocks[|p.blocks| + k] == NumberDiv(p.count) + datas[id].questionHtml[k]
  {
    if Passes(id, datas, zipMd5Of) {
      NumberedSpec(p.count, datas[id].questionHtml);
    }
  }

  /** A successful inner loop ends with a successful pass for its last question. */
  lemma QuestionsUpToLast(ids: seq<string>, datas: map<string, QuesData>, zipMd5Of: string -> Option<string>, start: nat)
    requires ids != []
    ensures QuestionsUpTo(ids, datas, zipMd5Of, start) ==
      if QuestionsUpTo(ids[..|ids| - 1], datas, zipMd5Of, start).Err? then QuestionsUpTo(ids[..|ids| - 1], datas, zipMd5Of, start)
      else AddQuestion(ids[|ids| - 1], datas, zipMd5Of, QuestionsUpTo(ids[..|ids| - 1], datas, zipMd5Of, start).value)
  {
  }

  /** The inner loop succeeds exactly when every question passes. */
  lemma {:induction false} QuestionsOk(ids: seq<string>, datas: map<string, QuesData>, zipMd5Of: string -> Option<string>, start: nat)
    ensures QuestionsUpTo(ids, datas, zipMd5Of, start).Ok? <==> forall k :: 0 <= k < |ids| ==> Passes(ids[k], datas, zipMd5Of)
    decreases |ids|
  {
    if ids != [] {
      var init := ids[..|ids| - 1];
      QuestionsUpToLast(ids, datas, zipMd5Of, start);
      QuestionsOk(init, datas, zipMd5Of, start);
      assert forall k :: 0 <= k < |init| ==> init[k] == ids[k];
      if QuestionsUpTo(init, datas, zipMd5Of, start).Ok? {
        AddQuestionSpec(ids[|ids| - 1], datas, zipMd5Of, QuestionsUpTo(init, datas, zipMd5Of, start).value);
      }
    }
  }

  /** After a successful inner loop the `k`-th question's items all carry
      number `start + k`, and the count has risen by one per question. */
  lemma {:induction false} QuestionsNumbering(ids: seq<string>, datas: map<string, QuesData>, zipMd5Of: string -> Option<string>, start: nat)
    requires QuestionsUpTo(ids, datas, zipMd5Of, start).Ok?
    ensures QuestionsUpTo(ids, datas, zipMd5Of, start).value ==
      Progress(QuestionBlocks(ids, datas, start), start + |ids|)
    decreases |ids|
  {
    if ids != [] {
      var init := ids[..|ids| - 1];
      var last := ids[|ids| - 1];
      QuestionsUpToLast(ids, datas, zipMd5Of, start);
      var p := QuestionsUpTo(init, datas, zipMd5Of, start).value;
      AddQuestionSpec(last, datas, zipMd5Of, p);
      assert p == Progress(QuestionBlocks(init, datas, start), start + |init|) by {
        QuestionsNumbering(init, datas, zipMd5Of, start);
      }
      assert p.blocks + Numbered(p.count, HtmlOf(datas, last)) == QuestionBlocks(ids, datas, start) by {
        QuestionBlocksSnoc(ids, datas, start);
      }
    }
  }

  /** The first question that does not pass decides the error. */
  lemma {:induction false} QuestionsFirstFailure(ids: seq<string>, datas: map<string, QuesData>, zipMd5Of: string -> Option<string>, start: nat, k: nat)
    requires k < |ids| && !Passes(ids[k], datas, zipMd5Of)
    requires forall j :: 0 <= j < k ==> Passes(ids[j], datas, zipMd5Of)
    ensures QuestionsUpTo(ids, datas, zipMd5Of, start) == Err(Failure(ids[k], datas, zipMd5Of))
  {
    var prefix := ids[..k + 1];
    assert prefix[..k] == ids[..k];
    QuestionsOk(ids[..k], datas, zipMd5Of, start);
    QuestionsErrorStays(ids, datas, zipMd5Of, start, k + 1);
  }

  /** The state of the outer loop: `html` and `count`. */
  datatype Document = Document(html: string, count: nat)

  /** One part: its title div, then its numbered questions, joined. */
  function PartHtml(title: string, blocks: seq<string>): string {
    Flatten([Div(title)] + blocks)
  }

  /** One pass of the outer loop, over the part's questions from `count`:
      the part's HTML and the count after it, or the exception of its
      inner loop. */
  function PartPass(part: Part, datas: map<string, QuesData>, zipMd5Of: string -> Option<string>, count: nat): Result<Document, ExamError> {
    match QuestionsUpTo(part.questionIds, datas, zipMd5Of, count)
    case Err(e) => Err(e)
    case Ok(p) => Ok(Document(PartHtml(part.title, p.blocks), p.count))
  }

  /** The outer loop after the parts `parts`, starting from `start`, where
      `pass(part, count)` is one pass of it. */
  function RunParts(parts: seq<Part>, pass: (Part, nat) -> Result<Document, ExamError>, start: nat): Result<Document, ExamError>
    decreases |parts|
  {
    if parts == [] then Ok(Document("", start))
    else match RunParts(parts[..|parts| - 1], pass, start)
      case Err(e) => Err(e)
      case Ok(doc) =>
        match pass(parts[|parts| - 1], doc.count)
        case Err(e) => Err(e)
        case Ok(d) => Ok(Document(doc.html + d.html, d.count))
  }

  /** One more pass: its HTML is appended and its count taken, or its
      exception ends the loop. */
  lemma RunPartsStep(parts: seq<Part>, pass: (Part, nat) -> Result<Document, ExamError>, start: nat, i: nat, doc: Document)
    requires i < |parts| && RunParts(parts[..i], pass, start) == Ok(doc)
    ensures RunParts(parts[..i + 1], pass, start) ==
      if pass(parts[i], doc.count).Err? then Err(pass(parts[i], doc.count).error)
      else Ok(Document(doc.html + pass(parts[i], doc.count).value.html, pass(parts[i], doc.count).value.count))
  {
    assert parts[..i + 1][..i] == parts[..i];
  }

  /** An exception ends the outer loop: later parts change nothing. */
  lemma {:induction false} RunPartsErrorStays(parts: seq<Part>, pass: (Part, nat) -> Result<Document, ExamError>, start: nat, n: nat)
    requires n <= |parts| && RunParts(parts[..n], pass, start).Err?
    ensures RunParts(parts, pass, start) == RunParts(parts[..n], pass, start)
    decreases |parts| - n
  {
    if n < |parts| {
      assert parts[..n + 1][..n] == parts[..n];
      RunPartsErrorStays(parts, pass, start, n + 1);
    } else {
      assert parts[..n] == parts;
    }
  }

  /** The number of questions in `parts`. */
  function Total(parts: seq<Part>): nat
    decreases |parts|
  {
    if parts == [] then 0 else |parts[0].questionIds| + Total(parts[1..])
  }

  /** The questions of all parts are those of all but the last, then the
      last one's. */
  lemma {:induction false} TotalSnoc(parts: seq<Part>)
    requires parts != []
    ensures Total(parts) == Total(parts[..|parts| - 1]) + |parts[|parts| - 1].questionIds|
    decreases |parts|
  {
    if |parts| > 1 {
      TotalSnoc(parts[1..]);
      assert parts[1..][..|parts| - 2] == parts[..|parts| - 1][1..];
    }
  }

  /** The sections of `parts` one after the other, each numbered after the
      questions of the parts before it; `section(part, n)` is one part's
      section with its questions numbered from `n`. */
  function Sections(parts: seq<Part>, section: (Part, nat) -> string, start: nat): string
    decreases |parts|
  {
    if parts == [] then ""
    else section(parts[0], start) + Sections(parts[1..], section, start + |parts[0].questionIds|)
  }

  /** The last section comes after all the others, numbered after all their
      questions. */
  lemma {:induction false} SectionsSnoc(parts: seq<Part>, section: (Part, nat) -> string, start: nat)
    requires parts != []
    ensures Sections(parts, section, start) ==
      Sections(parts[..|parts| - 1], section, start) + section(parts[|parts| - 1], start + Total(parts[..|parts| - 1]))
    decreases |parts|
  {
    var init := parts[..|parts| - 1];
    var last := parts[|parts| - 1];
    var next := start + |parts[0].questionIds|;
    if |parts| > 1 {
      var head := section(parts[0], start);
      assert parts[1..][..|parts| - 2] == init[1..];
      assert init[0] == parts[0];
      calc {
        Sections(parts, section, start);
        head + Sections(parts[1..], section, next);
        { SectionsSnoc(parts[1..], section, next); }
        head + (Sections(init[1..], section, next) + section(last, next + Total(init[1..])));
        (head + Sections(init[1..], section, next)) + section(last, next + Total(init[1..]));
        Sections(init, section, start) + section(last, next + Total(init[1..]));
        { assert Total(init) == |parts[0].questionIds| + Total(init[1..]); }
        Sections(init, section, start) + section(last, start + Total(init));
      }
    } else {
      assert init == [];
      assert Sections(parts[1..], section, next) == "";
    }
  }

  /** When whether a pass succeeds depends on the part alone, the loop
      succeeds exactly when every part's pass does. */
  lemma {:induction false} RunPartsOk(parts: seq<Part>, pass: (Part, nat) -> Result<Document, ExamError>, good: Part -> bool, start: nat)
    requires forall part: Part, n: nat :: pass(part, n).Ok? <==> good(part)
    ensures RunParts(parts, pass, start).Ok? <==> forall k :: 0 <= k < |parts| ==> good(parts[k])
    decreases |parts|
  {
    if parts != [] {
      var init := parts[..|parts| - 1];
      RunPartsOk(init, pass, good, start);
      assert forall k :: 0 <= k < |init| ==> init[k] == parts[k];
    }
  }

  /** When each successful pass yields the part's section and counts its
      questions, a successful loop yields the sections in order, numbered
      across parts, and has counted every question. */
  lemma {:induction false} RunPartsNumbering(parts: seq<Part>, pass: (Part, nat) -> Result<Document, ExamError>, section: (Part, nat) -> string, start: nat)
    requires forall part: Part, n: nat :: pass(part, n).Ok? ==> pass(part, n).value == Document(section(part, n), n + |part.questionIds|)
    requires RunParts(parts, pass, start).Ok?
    ensures RunParts(parts, pass, start).value == Document(Sections(parts, section, start), start + Total(parts))
    decreases |parts|
  {
    if parts != [] {
      var init := parts[..|parts| - 1];
      var last := parts[|parts| - 1];
      RunPartsNumbering(init, pass, section, start);
      SectionsSnoc(parts, section, start);
      TotalSnoc(parts);
    }
  }

  /** The pass of the outer loop of the export. */
  function PassOf(datas: map<string, QuesData>, zipMd5Of: string -> Option<string>): (Part, nat) -> Result<Document, ExamError> {
    (part: Part, count: nat) => PartPass(part, datas, zipMd5Of, count)
  }

  /** The outer loop of the export after the parts `parts`, starting from `start`. */
  function PartsUpTo(parts: seq<Part>, datas: map<string, QuesData>, zipMd5Of: string -> Option<string>, start: nat): Result<Document, ExamError> {
    RunParts(parts, PassOf(datas, zipMd5Of), start)
  }

  /** One part's section in the document: its title div, then its
      questions numbered from `start`. */
  function Section(part: Part, datas: map<string, QuesData>, start: nat): string {
    PartHtml(part.title, QuestionBlocks(part.questionIds, datas, start))
  }

  function SectionOf(datas: map<string, QuesData>): (Part, nat) -> string {
    (part: Part, start: nat) => Section(part, datas, start)
  }

  /** The document for `parts`, its questions numbered from `start`. */
  function PartsHtml(parts: seq<Part>, datas: map<string, QuesData>, start: nat): string {
    Sections(parts, SectionOf(datas), start)
  }

  /** Every question of the part passes. */
  predicate PartPasses(part: Part, datas: map<string, QuesData>, zipMd5Of: string -> Option<string>) {
    forall j :: 0 <= j < |part.questionIds| ==> Passes(part.questionIds[j], datas, zipMd5Of)
  }

  /** The export succeeds exactly when every question of every part passes. */
  lemma PartsOk(parts: seq<Part>, datas: map<string, QuesData>, zipMd5Of: string -> Option<string>, start: nat)
    ensures PartsUpTo(parts, datas, zipMd5Of, start).Ok? <==>
      forall k, j :: 0 <= k < |parts| && 0 <= j < |parts[k].questionIds| ==> Passes(parts[k].questionIds[j], datas, zipMd5Of)
  {
    var good := (part: Part) => PartPasses(part, datas, zipMd5Of);
    forall part: Part, n: nat ensures PassOf(datas, zipMd5Of)(part, n).Ok? <==> good(part) {
      QuestionsOk(part.questionIds, datas, zipMd5Of, n);
    }
    RunPartsOk(parts, PassOf(datas, zipMd5Of), good, start);
  }

  /** A successful export is the parts' sections in order, numbered 1, 2,
      ... across parts, and the count has risen once per question. */
  lemma PartsNumbering(parts: seq<Part>, datas: map<string, QuesData>, zipMd5Of: string -> Option<string>, start: nat)
    requires PartsUpTo(parts, datas, zipMd5Of, start).Ok?
    ensures PartsUpTo(parts, datas, zipMd5Of, start).value ==
      Document(PartsHtml(parts, datas, start), start + Total(parts))
  {
    forall part: Part, n: nat | PassOf(datas, zipMd5Of)(part, n).Ok?
      ensures PassOf(datas, zipMd5Of)(part, n).value == Document(SectionOf(datas)(part, n), n + |part.questionIds|)
    {
      QuestionsNumbering(part.questionIds, datas, zipMd5Of, n);
    }
    RunPartsNumbering(parts, PassOf(datas, zipMd5Of), SectionOf(datas), start);
  }

  /** The `for part in parts` loop with its inner `for ques in
      paper_questions` loop. */
  method ExportHtml(parts: seq<Part>, datas: map<string, QuesData>, zipMd5Of: string -> Option<string>)
    returns (r: Result<Document, ExamError>)
    ensures r == PartsUpTo(parts, datas, zipMd5Of, 1)
  {
    var html := "";
    var count := 1;
    var i := 0;
    while i < |parts|
      invariant 0 <= i <= |parts|
      invariant PartsUpTo(parts[..i], datas, zipMd5Of, 1) == Ok(Document(html, count))
    {
      var part := parts[i];
      var partHtml, next, failure := ExportPart(part, datas, zipMd5Of, count);
      RunPartsStep(parts, PassOf(datas, zipMd5Of), 1, i, Document(html, count));
      if failure.Some? {
        RunPartsErrorStays(parts, PassOf(datas, zipMd5Of), 1, i + 1);
        return Err(failure.value);
      }
      html := html + Flatten(partHtml);
      count := next;
      i := i + 1;
    }
    assert parts[..i] == parts;
    return Ok(Document(html, count));
  }

  /** The body of the outer loop for one part: its title div and its
      numbered questions, the next count, or the exception that ends the
      export. */
  method ExportPart(part: Part, datas: map<string, QuesData>, zipMd5Of: string -> Option<string>, start: nat)
    returns (partHtml: seq<string>, count: nat, failure: Option<ExamError>)
    ensures failure.Some? <==> QuestionsUpTo(part.questionIds, datas, zipMd5Of, start).Err?
    ensures failure.Some? ==> QuestionsUpTo(part.questionIds, datas, zipMd5Of, start) == Err(failure.value)
    ensures failure.None? ==>
      |partHtml| >= 1 && partHtml == [Div(part.title)] + partHtml[1..] &&
      QuestionsUpTo(part.questionIds, datas, zipMd5Of, start) == Ok(Progress(partHtml[1..], count))
  {
    var title := Div(part.title);
    partHtml := [title];
    count := start;
    failure := None;
    var ids := part.questionIds;
    ghost var blocks: seq<string> := [];
    var j := 0;
    while j < |ids|
      invariant 0 <= j <= |ids|
      invariant partHtml == [title] + blocks
      invariant QuestionsUpTo(ids[..j], datas, zipMd5Of, start) == Ok(Progress(blocks, count))
    {
      assert QuestionsUpTo(ids[..j + 1], datas, zipMd5Of, start) == AddQuestion(ids[j], datas, zipMd5Of, Progress(blocks, count)) by {
        QuestionsStep(ids, datas, zipMd5Of, start, j, Progress(blocks, count));
      }
      AddQuestionSpec(ids[j], datas, zipMd5Of, Progress(blocks, count));
      var items, error := ExportQuestion(ids[j], datas, zipMd5Of, count);
      partHtml := partHtml + items;
      blocks := blocks + items;
      if error.Some? {
        failure := error;
        QuestionsErrorStays(ids, datas, zipMd5Of, start, j + 1);
        return;
      }
      count := count + 1;
      j := j + 1;
    }
    assert ids[..j] == ids;
    assert partHtml[1..] == blocks;
  }

  /** The body of the inner loop for one question: its numbered items, or
      the exception for an unknown id, a failed download or a wrong MD5. */
  method ExportQuestion(id: string, datas: map<string, QuesData>, zipMd5Of: string -> Option<string>, count: nat)
    returns (items: seq<string>, failure: Option<ExamError>)
    ensures failure.None? <==> Passes(id, datas, zipMd5Of)
    ensures failure.None? ==> items == Numbered(count, HtmlOf(datas, id))
    ensures failure.Some? ==> failure.value == Failure(id, datas, zipMd5Of)
  {
    if id !in datas {
      return [], Some(MissingQuestion(id));
    }
    var d := datas[id];
    items := Numbered(count, d.questionHtml);
    var digest := zipMd5Of(d.sourceZip);
    if digest.None? {
      return items, Some(DownloadFailed(d.sourceZip));
    }
    if digest.value != d.sourceZipMd5 {
      return items, Some(ChecksumMismatch(d.sourceZip));
    }
    failure := None;
  }

  // ---------------------------------------------------------------------
  // getExam
  // ---------------------------------------------------------------------

  const FolderSuffix: string := "-习题及解析"
  const DocxPrefix: string := "习题-"
  const DocxSuffix: string := ".docx"

  /** What `getExam` produces: the output folder, the document's path and
      the HTML handed to `html2docx`. */
  datatype Paper = Paper(folder: string, docxPath: string, html: string)

  /** `getExam` on fetched data: the paper title, the question pages and
      the parts. */
  function Exam(title: string, pages: seq<seq<Question>>, parts: seq<Part>, zipMd5Of: string -> Option<string>): Result<Paper, ExamError> {
    match Collect(QuesDataOf, Flatten(pages))
    case Err(e) => Err(e)
    case Ok(datas) =>
      match PartsUpTo(parts, datas, zipMd5Of, 1)
      case Err(e) => Err(e)
      case Ok(doc) =>
        var folder := title + FolderSuffix;
        Ok(Paper(folder, Download.PathJoin(folder, DocxPrefix + title + DocxSuffix), doc.html))
  }

  /** The paper is written when every address matches and every paper
      question passes; its HTML is the numbered parts in order and the
      document sits in the output folder. */
  lemma ExamSpec(title: string, pages: seq<seq<Question>>, parts: seq<Part>, zipMd5Of: string -> Option<string>)
    requires Exam(title, pages, parts, zipMd5Of).Ok?
    ensures var datas := Collect(QuesDataOf, Flatten(pages)).value;
      var paper := Exam(title, pages, parts, zipMd5Of).value;
      paper.html == PartsHtml(parts, datas, 1) &&
      EndsWith(paper.docxPath, DocxPrefix + title + DocxSuffix) &&
      (forall k, j :: 0 <= k < |parts| && 0 <= j < |parts[k].questionIds| ==>
        Passes(parts[k].questionIds[j], datas, zipMd5Of))
  {
    PartsOk(parts, Collect(QuesDataOf, Flatten(pages)).value, zipMd5Of, 1);
    PartsNumbering(parts, Collect(QuesDataOf, Flatten(pages)).value, zipMd5Of, 1);
  }

  /** `getExam` after the fetches. */
  method GetExam(title: string, pages: seq<seq<Question>>, parts: seq<Part>, zipMd5Of: string -> Option<string>)
    returns (r: Result<Paper, ExamError>)
    ensures r == Exam(title, pages, parts, zipMd5Of)
  {
    var datas := BuildQuesDatas(pages);
    if datas.Err? {
      return Err(datas.error);
    }
    var folder := title + FolderSuffix;
    var doc := ExportHtml(parts, datas.value, zipMd5Of);
    if doc.Err? {
      return Err(doc.error);
    }
    return Ok(Paper(folder, Download.PathJoin(folder, DocxPrefix + title + DocxSuffix), doc.value.html));
  }
}
