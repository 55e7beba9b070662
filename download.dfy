/**
 * utils/download.py: the encrypted HLS pipeline. A manifest is parsed into
 * segment URLs and key fields, a content key is obtained through a two-step
 * key exchange, every segment is fetched with retries and CBC-decrypted into
 * a temporary folder, and the `.ts` files are concatenated in name order.
 *
 * HTTP responses, `urljoin`, the AES block cipher and MD5 are parameters;
 * the temporary folder is a map from file name to contents.
 */
module Download {
  import opened Wrappers
  import opened Text
  import opened Crypt
  import Tool

  /** `urllib.parse.urljoin(base, ref)`, reference resolution (section 5.2 of RFC 3986). */
  type UrlJoin = (string, string) -> string

  /** Why `download_video` (or a step of it) raised. */
  datatype DownloadError =
    | ManifestUnavailable                        // `requests.get(m3u8_url)` raised
    | IvNotHex                                   // `binascii.unhexlify` rejected the IV text
    | KeyUrlMissing                              // `None + "/signs"`: no key URI was found
    | ToolKeyMissing                             // `base64.b64encode(None)`: no content key for the external tool
    | KeyIdMissing                               // `os.path.join(save_path, None)`: no key id was found
    | SegmentFailed(url: string, reason: SegmentError)

  /** Why one segment task raised. */
  datatype SegmentError =
    | FetchFailed                                // every attempt raised a request exception
    | DecryptFailed(error: CryptoError)          // `aes_cbc_decrypt` raised
    | WriteFailed                                // the target path cannot be opened for writing

  /** The markers `parse_m3u8` looks for in a line. */
  const KeyTag: string := "EXT-X-KEY"
  const UriMarker: string := "URI=\""
  const KeyIdMarker: string := "_keys/"
  const IvMarker: string := "IV="
  const HexMarker: string := "0x"

  // ---------------------------------------------------------------------
  // Manifest lines
  // ---------------------------------------------------------------------

  predicate IsComment(line: string) {
    StartsWith(line, "#")
  }

  /** A comment line that carries key information (`#EXT-X-KEY`, section 4.3.2.4 of RFC 8216). */
  predicate IsKeyLine(line: string) {
    IsComment(line) && Contains(line, KeyTag)
  }

  /** `s` starts with a non-empty run of non-`"` characters closed by a `"`. */
  predicate HasQuotedRun(s: string) {
    |s| >= 2 && s[0] != '"' && '"' in s
  }

  /** The non-empty run of characters before the first `"` of `s`, if `s` has one. */
  function QuotedRun(s: string): (r: Option<string>)
    ensures r.Some? <==> HasQuotedRun(s)
    ensures r.Some? ==> r.value != [] && '"' !in r.value && StartsWith(s, r.value + "\"")
  {
    match SplitFirst(s, '"')
    case None => None
    case Some(p) =>
      assert p.0 != [] ==> (p.0 + "\"") == s[..|p.0| + 1];
      if p.0 != [] then Some(p.0) else None
  }

  /** The pattern `prefix([^"]+)"` matches at position `i`. */
  predicate MatchAt(line: string, prefix: string, i: nat) {
    OccursAt(line, prefix, i) && HasQuotedRun(line[i + |prefix|..])
  }

  /** The leftmost position at or after `from` where `prefix([^"]+)"` matches. */
  function FirstMatch(line: string, prefix: string, from: nat): (r: Option<nat>)
    decreases |line| - from
  {
    if |line| < from + |prefix| then None
    else if MatchAt(line, prefix, from) then Some(from)
    else FirstMatch(line, prefix, from + 1)
  }

  /** `FirstMatch` finds the leftmost match, and `None` means there is none. */
  lemma {:induction false} FirstMatchSpec(line: string, prefix: string, from: nat)
    ensures var r := FirstMatch(line, prefix, from);
      r.Some? ==> (from <= r.value && MatchAt(line, prefix, r.value) &&
        forall j :: from <= j < r.value ==> !MatchAt(line, prefix, j))
    ensures FirstMatch(line, prefix, from).None? ==> forall j :: from <= j ==> !MatchAt(line, prefix, j)
    decreases |line| - from
  {
    if |line| >= from + |prefix| && !MatchAt(line, prefix, from) {
      FirstMatchSpec(line, prefix, from + 1);
    }
  }

  /** `re.search(prefix + '([^"]+)"', line).group(1)`, or `None` without a match. */
  function SearchQuoted(line: string, prefix: string): (r: Option<string>)
    ensures r.Some? ==> r.value != [] && '"' !in r.value
  {
    FirstMatchSpec(line, prefix, 0);
    match FirstMatch(line, prefix, 0)
    case None => None
    case Some(i) => QuotedRun(line[i + |prefix|..])
  }

  /** The key URI: group 1 of `URI="([^"]+)"`. */
  function KeyUri(line: string): Option<string> {
    SearchQuoted(line, UriMarker)
  }

  /** The key id: group 1 of `_keys/([^"]+)"`. */
  function KeyIdOf(line: string): Option<string> {
    SearchQuoted(line, KeyIdMarker)
  }

  /** Group 1 of `IV=(.*?)(?=\n|$)`: a line has no line break, so this is
      everything after the first `IV=`. */
  function IvText(line: string): (r: Option<string>)
    ensures r.Some? ==> |r.value| < |line|
  {
    match Find(line, IvMarker, 0)
    case None => None
    case Some(i) => Some(line[i + 3..])
  }

  function Min(a: nat, b: nat): nat {
    if a <= b then a else b
  }

  /** `binascii.unhexlify(iv.replace('0x', "")).hex()[:16].encode('utf-8')`. */
  function DecodeIv(text: string): (r: Result<seq<byte>, DownloadError>)
    ensures r.Err? ==> r.error == IvNotHex
  {
    var digits := Replace(text, HexMarker, "");
    match Unhexlify(digits)
    case None => Err(IvNotHex)
    case Some(b) =>
      var h := HexLower(b);
      Ok(Utf8(h[..Min(16, |h|)]))
  }

  /** The IV is the first (at most) 16 hex digits of the text after `IV=`,
      without `0x` and folded to lower case, as ASCII bytes; odd-length or
      non-hex text raises. */
  lemma DecodeIvSpec(text: string)
    ensures var digits := Replace(text, HexMarker, "");
      DecodeIv(text).Ok? <==> |digits| % 2 == 0 && forall i :: 0 <= i < |digits| ==> IsHexChar(digits[i])
    ensures DecodeIv(text).Ok? ==> var digits := Replace(text, HexMarker, "");
      |DecodeIv(text).value| == Min(16, |digits|) &&
      forall i :: 0 <= i < |DecodeIv(text).value| ==> DecodeIv(text).value[i] == LowerHexChar(digits[i]) as int
  {
    var digits := Replace(text, HexMarker, "");
    if Unhexlify(digits).Some? {
      var h := HexLower(Unhexlify(digits).value);
      var iv := h[..Min(16, |h|)];
      HexOfUnhexlify(digits);
      LowerHexAt(digits);
      Utf8Ascii(iv);
    }
  }

  lemma {:induction false} LowerHexAt(s: string)
    requires forall i :: 0 <= i < |s| ==> IsHexChar(s[i])
    ensures forall i :: 0 <= i < |s| ==> LowerHex(s)[i] == LowerHexChar(s[i])
  {
    if s != [] {
      LowerHexAt(s[1..]);
      assert forall i :: 1 <= i < |s| ==> s[i] == s[1..][i - 1];
    }
  }

  /** The IV is at most 16 bytes, and exactly 16 (the length CBC accepts)
      iff at least 16 hex digits remain after removing `0x`. */
  lemma IvLength(text: string)
    requires DecodeIv(text).Ok?
    ensures |DecodeIv(text).value| <= 16
    ensures |DecodeIv(text).value| == 16 <==> |Replace(text, HexMarker, "")| >= 16
  {
    DecodeIvSpec(text);
  }

  // ---------------------------------------------------------------------
  // parse_m3u8
  // ---------------------------------------------------------------------

  /** The dictionary `parse_m3u8` returns. */
  datatype M3u8Info = M3u8Info(keyUrl: Option<string>, keyId: Option<string>, segments: seq<string>, iv: Option<seq<byte>>)

  const NoInfo := M3u8Info(None, None, [], None)

  /** A new match overwrites the old value; no match keeps it. */
  function Latest<T>(found: Option<T>, previous: Option<T>): Option<T> {
    if found.Some? then found else previous
  }

  /** One iteration of the loop over `splitlines()`. */
  function ParseLine(join: UrlJoin, url: string, info: M3u8Info, line: string): Result<M3u8Info, DownloadError> {
    if !IsComment(line) then Ok(info.(segments := info.segments + [join(url, line)]))
    else if !IsKeyLine(line) then Ok(info)
    else
      var withKey := info.(keyUrl := Latest(KeyUri(line), info.keyUrl), keyId := Latest(KeyIdOf(line), info.keyId));
      match IvText(line)
      case None => Ok(withKey)
      case Some(t) =>
        match DecodeIv(t)
        case Err(e) => Err(e)
        case Ok(iv) => Ok(withKey.(iv := Some(iv)))
  }

  /** The loop over the first `|lines|` lines. */
  function ParseLines(join: UrlJoin, url: string, lines: seq<string>): Result<M3u8Info, DownloadError>
    decreases |lines|
  {
    if lines == [] then Ok(NoInfo)
    else match ParseLines(join, url, lines[..|lines| - 1])
      case Err(e) => Err(e)
      case Ok(info) => ParseLine(join, url, info, lines[|lines| - 1])
  }

  /** `parse_m3u8(m3u8_url)` after the fetch: `content` is the manifest text,
      or `None` when the request raised. */
  method ParseM3u8(join: UrlJoin, url: string, content: Option<string>) returns (r: Result<M3u8Info, DownloadError>)
    ensures content.None? ==> r == Err(ManifestUnavailable)
    ensures content.Some? ==> r == ParseLines(join, url, SplitLines(content.value))
  {
    if content.None? {
      return Err(ManifestUnavailable);
    }
    var lines := SplitLines(content.value);
    var segments: seq<string> := [];
    var keyUrl: Option<string> := None;
    var keyId: Option<string> := None;
    var iv: Option<seq<byte>> := None;
    var i := 0;
    while i < |lines|
      invariant 0 <= i <= |lines|
      invariant ParseLines(join, url, lines[..i]) == Ok(M3u8Info(keyUrl, keyId, segments, iv))
    {
      var line := lines[i];
      ghost var before := M3u8Info(keyUrl, keyId, segments, iv);
      ParseLinesSnoc(join, url, lines, i);
      if StartsWith(line, "#") {
        if Contains(line, KeyTag) {
          var uri := KeyUri(line);
          var kid := KeyIdOf(line);
          var ivText := IvText(line);
          if uri.Some? {
            keyUrl := uri;
          }
          if kid.Some? {
            keyId := kid;
          }
          assert keyUrl == Latest(uri, before.keyUrl) && keyId == Latest(kid, before.keyId);
          if ivText.Some? {
            var decoded := DecodeIv(ivText.value);
            if decoded.Err? {
              assert ParseLine(join, url, before, line) == Err(decoded.error);
              ParseErrorStays(join, url, lines, i + 1);
              return Err(decoded.error);
            }
            iv := Some(decoded.value);
          }
          assert ParseLine(join, url, before, line) == Ok(M3u8Info(keyUrl, keyId, segments, iv));
        } else {
          assert ParseLine(join, url, before, line) == Ok(before);
        }
      } else {
        segments := segments + [join(url, line)];
        assert ParseLine(join, url, before, line) == Ok(M3u8Info(keyUrl, keyId, segments, iv));
      }
      i := i + 1;
    }
    assert lines[..i] == lines;
    return Ok(M3u8Info(keyUrl, keyId, segments, iv));
  }

  /** The first `i + 1` lines parse as the first `i` followed by line `i`. */
  lemma ParseLinesSnoc(join: UrlJoin, url: string, lines: seq<string>, i: nat)
    requires i < |lines|
    ensures ParseLines(join, url, lines[..i]).Err? ==>
      ParseLines(join, url, lines[..i + 1]) == ParseLines(join, url, lines[..i])
    ensures ParseLines(join, url, lines[..i]).Ok? ==>
      ParseLines(join, url, lines[..i + 1]) == ParseLine(join, url, ParseLines(join, url, lines[..i]).value, lines[i])
  {
    assert lines[..i + 1][..i] == lines[..i];
  }

  /** Once a prefix of the lines fails, the whole manifest fails the same way. */
  lemma {:induction false} ParseErrorStays(join: UrlJoin, url: string, lines: seq<string>, i: nat)
    requires i <= |lines| && ParseLines(join, url, lines[..i]).Err?
    ensures ParseLines(join, url, lines) == ParseLines(join, url, lines[..i])
    decreases |lines|
  {
    if i < |lines| {
      var init := lines[..|lines| - 1];
      assert init[..i] == lines[..i];
      ParseErrorStays(join, url, init, i);
    } else {
      assert lines[..i] == lines;
    }
  }

  // ---------------------------------------------------------------------
  // Reference definitions of what the loop collects
  // ---------------------------------------------------------------------

  /** The lines that are not comments, blank lines included, in order. */
  function NonComments(lines: seq<string>): (r: seq<string>)
    ensures |r| <= |lines|
  {
    if lines == [] then []
    else
      var last := lines[|lines| - 1];
      NonComments(lines[..|lines| - 1]) + (if IsComment(last) then [] else [last])
  }

  /** Each entry resolved against the manifest URL. */
  function ResolveAll(join: UrlJoin, url: string, refs: seq<string>): (r: seq<string>)
    ensures |r| == |refs| && forall k :: 0 <= k < |r| ==> r[k] == join(url, refs[k])
  {
    seq(|refs|, k requires 0 <= k < |refs| => join(url, refs[k]))
  }

  /** What a line contributes to one key field: `f`'s value on a key line, nothing otherwise. */
  function KeyLineUri(line: string): Option<string> {
    if IsKeyLine(line) then KeyUri(line) else None
  }

  function KeyLineId(line: string): Option<string> {
    if IsKeyLine(line) then KeyIdOf(line) else None
  }

  function KeyLineIv(line: string): Option<string> {
    if IsKeyLine(line) then IvText(line) else None
  }

  /** The last value `g` yields over `lines`. */
  function LastSome(lines: seq<string>, g: string -> Option<string>): Option<string>
    decreases |lines|
  {
    if lines == [] then None
    else if g(lines[|lines| - 1]).Some? then g(lines[|lines| - 1])
    else LastSome(lines[..|lines| - 1], g)
  }

  /** `LastSome` is the value of a line with no later line yielding one,
      and `None` exactly when no line yields one. */
  lemma {:induction false} LastSomeSpec(lines: seq<string>, g: string -> Option<string>)
    ensures var r := LastSome(lines, g);
      r.Some? ==>
        exists k :: 0 <= k < |lines| && g(lines[k]) == r && forall j :: k < j < |lines| ==> g(lines[j]).None?
    ensures LastSome(lines, g).None? <==> forall k :: 0 <= k < |lines| ==> g(lines[k]).None?
    decreases |lines|
  {
    if lines != [] {
      var init := lines[..|lines| - 1];
      LastSomeSpec(init, g);
      assert forall k :: 0 <= k < |init| ==> init[k] == lines[k];
      if g(lines[|lines| - 1]).None? && LastSome(init, g).Some? {
        var k :| 0 <= k < |init| && g(init[k]) == LastSome(init, g) && forall j :: k < j < |init| ==> g(init[j]).None?;
        assert g(lines[k]) == LastSome(lines, g);
      }
    }
  }

  /** A key line whose IV text does not decode. */
  predicate BadIvLine(line: string) {
    IsKeyLine(line) && IvText(line).Some? && DecodeIv(IvText(line).value).Err?
  }

  /** How one line changes the segment list. */
  lemma SegmentStep(join: UrlJoin, url: string, info: M3u8Info, line: string)
    requires ParseLine(join, url, info, line).Ok?
    ensures ParseLine(join, url, info, line).value.segments == info.segments + (if IsComment(line) then [] else [join(url, line)])
  {
  }

  /** Every non-comment line adds exactly one segment, in line order, resolved
      against the manifest URL; comment lines add none. */
  lemma {:induction false} ParseSegments(join: UrlJoin, url: string, lines: seq<string>)
    requires ParseLines(join, url, lines).Ok?
    ensures ParseLines(join, url, lines).value.segments == ResolveAll(join, url, NonComments(lines))
    decreases |lines|
  {
    if lines != [] {
      var init := lines[..|lines| - 1];
      var last := lines[|lines| - 1];
      var info := ParseLines(join, url, init).value;
      assert ParseLines(join, url, lines) == ParseLine(join, url, info, last);
      ParseSegments(join, url, init);
      SegmentStep(join, url, info, last);
      if !IsComment(last) {
        ResolveAllSnoc(join, url, NonComments(init), last);
      }
    }
  }

  lemma ResolveAllSnoc(join: UrlJoin, url: string, refs: seq<string>, ref: string)
    ensures ResolveAll(join, url, refs + [ref]) == ResolveAll(join, url, refs) + [join(url, ref)]
  {
  }

  /** The key URL, key id and IV come from the last key line that supplies
      each of them; with no key line all three stay `None`. */
  lemma {:induction false} ParseKeyFields(join: UrlJoin, url: string, lines: seq<string>)
    requires ParseLines(join, url, lines).Ok?
    ensures ParseLines(join, url, lines).value.keyUrl == LastSome(lines, KeyLineUri)
    ensures ParseLines(join, url, lines).value.keyId == LastSome(lines, KeyLineId)
    ensures var ivText := LastSome(lines, KeyLineIv);
      var iv := ParseLines(join, url, lines).value.iv;
      (iv.None? <==> ivText.None?) && (ivText.Some? ==> DecodeIv(ivText.value) == Ok(iv.value))
    decreases |lines|
  {
    if lines != [] {
      var init := lines[..|lines| - 1];
      var last := lines[|lines| - 1];
      ParseKeyFields(join, url, init);
      assert ParseLines(join, url, lines) == ParseLine(join, url, ParseLines(join, url, init).value, last);
    }
  }

  /** One line fails exactly when it is a key line with an undecodable IV. */
  lemma LineFails(join: UrlJoin, url: string, info: M3u8Info, line: string)
    ensures ParseLine(join, url, info, line).Err? <==> BadIvLine(line)
    ensures ParseLine(join, url, info, line).Err? ==> ParseLine(join, url, info, line).error == IvNotHex
  {
  }

  /** The last line of a non-empty manifest is parsed on the state left by the others. */
  lemma ParseLinesLast(join: UrlJoin, url: string, lines: seq<string>)
    requires lines != []
    ensures ParseLines(join, url, lines) ==
      match ParseLines(join, url, lines[..|lines| - 1])
      case Err(e) => Err(e)
      case Ok(info) => ParseLine(join, url, info, lines[|lines| - 1])
  {
  }

  /** Some element of `xs` satisfies `p`. */
  predicate Exists<T>(xs: seq<T>, p: T -> bool) {
    exists k :: 0 <= k < |xs| && p(xs[k])
  }

  /** Some element of a non-empty sequence satisfies `p` exactly when one of
      the earlier elements or the last one does. */
  lemma ExistsSnoc<T>(xs: seq<T>, p: T -> bool)
    requires xs != []
    ensures Exists(xs, p) <==> Exists(xs[..|xs| - 1], p) || p(xs[|xs| - 1])
  {
    var init := xs[..|xs| - 1];
    assert forall k :: 0 <= k < |init| ==> init[k] == xs[k];
    if Exists(xs, p) {
      var k :| 0 <= k < |xs| && p(xs[k]);
      if k < |init| {
        assert p(init[k]);
      }
    }
  }

  /** Parsing fails exactly when some key line carries IV text that is not
      an even number of hex digits once `0x` is removed. */
  lemma {:induction false} ParseFails(join: UrlJoin, url: string, lines: seq<string>)
    ensures ParseLines(join, url, lines).Err? <==> exists k :: 0 <= k < |lines| && BadIvLine(lines[k])
    ensures ParseLines(join, url, lines).Err? ==> ParseLines(join, url, lines).error == IvNotHex
    decreases |lines|
  {
    if lines != [] {
      var init := lines[..|lines| - 1];
      ParseFails(join, url, init);
      ParseLinesLast(join, url, lines);
      if ParseLines(join, url, init).Ok? {
        LineFails(join, url, ParseLines(join, url, init).value, lines[|lines| - 1]);
      }
      ExistsSnoc(lines, BadIvLine);
    }
  }

  /** Without any key line the key fields stay `None`. */
  lemma NoKeyLine(join: UrlJoin, url: string, lines: seq<string>)
    requires forall k :: 0 <= k < |lines| ==> !IsKeyLine(lines[k])
    ensures ParseLines(join, url, lines).Ok?
    ensures var info := ParseLines(join, url, lines).value;
      info.keyUrl.None? && info.keyId.None? && info.iv.None?
  {
    ParseFails(join, url, lines);
    ParseKeyFields(join, url, lines);
  }

  // ---------------------------------------------------------------------
  // get_signs
  // ---------------------------------------------------------------------

  /** The second request of the key exchange. */
  function KeyRequestUrl(keyUrl: string, nonce: string, sign: string): string {
    keyUrl + "?nonce=" + nonce + "&sign=" + sign
  }

  /** The key-exchange service as the client sees it: `nonceAt(u)` is the
      `"nonce"` member of the JSON that `u` returns and `blobAt(u)` its `"key"`
      member; `None` stands for any exception on the way (request, status
      check, JSON decoding, missing member, a member that is not a string). */
  datatype KeyService = KeyService(nonceAt: string -> Option<string>, blobAt: string -> Option<string>)

  /** `get_signs(key_url, key_id)`. The `Err` case is the `TypeError` raised
      before the `try` when there is no key URL; inside the `try` every
      failure is caught and yields `None`. */
  function GetSigns(md5: seq<byte> -> Digest, dec: BlockCipher, svc: KeyService, keyUrl: Option<string>, keyId: Option<string>)
    : (r: Result<Option<seq<byte>>, DownloadError>)
    ensures r.Err? <==> keyUrl.None?
    ensures r.Err? ==> r.error == KeyUrlMissing
    ensures r.Ok? && r.value.Some? ==> keyId.Some?
  {
    if keyUrl.None? then Err(KeyUrlMissing)
    else match svc.nonceAt(keyUrl.value + "/signs")
      case None => Ok(None)
      case Some(nonce) =>
        if keyId.None? then Ok(None)
        else
          var sign := Md5Encrypt(md5, nonce + keyId.value);
          match svc.blobAt(KeyRequestUrl(keyUrl.value, nonce, sign))
          case None => Ok(None)
          case Some(blob) =>
            match AesEcbDecrypt(dec, Utf8(sign), blob)
            case Err(_) => Ok(None)
            case Ok(key) => Ok(Some(key))
  }

  /** If the service answers the sign request with the content key padded,
      ECB-encrypted under the sign and Base64-encoded, the exchange yields
      that key: the sign always passes the key-length check. */
  lemma KeyExchangeRoundTrip(md5: seq<byte> -> Digest, enc: BlockCipher, dec: BlockCipher, svc: KeyService,
                             keyUrl: string, keyId: string, nonce: string, key: seq<byte>)
    requires svc.nonceAt(keyUrl + "/signs") == Some(nonce)
    requires var sign := Utf8(Md5Encrypt(md5, nonce + keyId));
      (forall b: Block :: dec(sign, enc(sign, b)) == b) &&
      svc.blobAt(KeyRequestUrl(keyUrl, nonce, Md5Encrypt(md5, nonce + keyId))) == Some(BytesToBase64(EcbEncrypt(enc, sign, Pad(key))))
    ensures GetSigns(md5, dec, svc, Some(keyUrl), Some(keyId)) == Ok(Some(key))
  {
    SignIsAesKey(md5, nonce + keyId);
    AesEcbRoundTrip(enc, dec, Utf8(Md5Encrypt(md5, nonce + keyId)), key);
  }

  /** A key line without `_keys/` leaves no key id: the exchange then yields
      no key (the `nonce + None` inside the `try` is caught). */
  lemma KeyExchangeNeedsKeyId(md5: seq<byte> -> Digest, dec: BlockCipher, svc: KeyService, keyUrl: string)
    ensures GetSigns(md5, dec, svc, Some(keyUrl), None) == Ok(None)
  {
  }

  // ---------------------------------------------------------------------
  // download_encrypted_m3u8: the task list
  // ---------------------------------------------------------------------

  /** One `ts_list` entry without the shared key and IV: the segment URL
      resolved against the manifest's directory, and the file name, which is
      the text after the last `-` of that URL. */
  function SegmentTask(join: UrlJoin, m3u8Url: string, segment: string): (t: (string, string))
    ensures t.0 == join(BeforeLast(m3u8Url, '/'), segment)
    ensures '-' !in t.1 && |t.1| <= |t.0| && t.0[|t.0| - |t.1|..] == t.1
    ensures |t.1| < |t.0| ==> t.0[|t.0| - |t.1| - 1] == '-'
    ensures '-' !in t.0 ==> t.1 == t.0
  {
    var u := join(BeforeLast(m3u8Url, '/'), segment);
    (u, AfterLast(u, '-'))
  }

  /** `ts_list`: one task per segment, in segment order. */
  function SegmentTasks(join: UrlJoin, m3u8Url: string, segments: seq<string>): (tasks: seq<(string, string)>)
    ensures |tasks| == |segments|
    ensures forall k :: 0 <= k < |tasks| ==> tasks[k] == SegmentTask(join, m3u8Url, segments[k])
  {
    seq(|segments|, k requires 0 <= k < |segments| => SegmentTask(join, m3u8Url, segments[k]))
  }

  // ---------------------------------------------------------------------
  // download_ts_segment
  // ---------------------------------------------------------------------

  const MaxRetries: nat := 3

  /** `requests.get(url, timeout=10).content` on attempt `n` (1-based);
      `None` stands for a `RequestException`. */
  type SegmentFetch = (string, nat) -> Option<seq<byte>>

  /** The first attempt from `attempt` on whose request succeeds, or
      `MaxRetries + 1` when none does. */
  function FirstSuccess(fetch: SegmentFetch, url: string, attempt: nat): (n: nat)
    requires 1 <= attempt <= MaxRetries + 1
    ensures attempt <= n <= MaxRetries + 1
    ensures n <= MaxRetries ==> fetch(url, n).Some?
    decreases MaxRetries + 1 - attempt
  {
    if attempt > MaxRetries || fetch(url, attempt).Some? then attempt
    else FirstSuccess(fetch, url, attempt + 1)
  }

  /** Every attempt before the first success failed. */
  lemma {:induction false} FirstSuccessSpec(fetch: SegmentFetch, url: string, attempt: nat)
    requires 1 <= attempt <= MaxRetries + 1
    ensures forall a :: attempt <= a < FirstSuccess(fetch, url, attempt) ==> fetch(url, a).None?
    decreases MaxRetries + 1 - attempt
  {
    if attempt <= MaxRetries && fetch(url, attempt).None? {
      FirstSuccessSpec(fetch, url, attempt + 1);
    }
  }

  /** The bytes `download_ts_segment` writes for a fetched body: CBC-decrypted
      and unpadded when a key is given, the body unchanged otherwise. */
  function SegmentBody(dec: BlockCipher, key: Option<seq<byte>>, iv: Option<seq<byte>>, data: seq<byte>): (r: Result<seq<byte>, SegmentError>)
    ensures key.None? ==> r == Ok(data)
    ensures key.Some? ==> (r.Ok? <==> AesCbcDecrypt(dec, key.value, data, iv).Ok?)
  {
    if key.None? then Ok(data)
    else match AesCbcDecrypt(dec, key.value, data, iv)
      case Err(e) => Err(DecryptFailed(e))
      case Ok(plain) => Ok(plain)
  }

  /** The fetch with retries and the decryption choice, without the write. */
  function SegmentBytes(fetch: SegmentFetch, dec: BlockCipher, key: Option<seq<byte>>, iv: Option<seq<byte>>, url: string)
    : Result<seq<byte>, SegmentError>
  {
    var n := FirstSuccess(fetch, url, 1);
    if n > MaxRetries then Err(FetchFailed) else SegmentBody(dec, key, iv, fetch(url, n).value)
  }

  /** A name `open(os.path.join(folder, name), 'wb')` creates directly inside the folder. */
  predicate Writable(name: string) {
    name != "" && name != "." && name != ".." && '/' !in name
  }

  /** `download_ts_segment(url, path, key, iv)` on a folder: the new folder, or the exception. */
  function SegmentOutcome(fetch: SegmentFetch, dec: BlockCipher, key: Option<seq<byte>>, iv: Option<seq<byte>>,
                          folder: map<string, seq<byte>>, task: (string, string))
    : (r: Result<map<string, seq<byte>>, SegmentError>)
    ensures r.Ok? <==> SegmentBytes(fetch, dec, key, iv, task.0).Ok? && Writable(task.1)
    ensures r.Ok? ==> r.value == folder[task.1 := SegmentBytes(fetch, dec, key, iv, task.0).value]
  {
    match SegmentBytes(fetch, dec, key, iv, task.0)
    case Err(e) => Err(e)
    case Ok(body) => if Writable(task.1) then Ok(folder[task.1 := body]) else Err(WriteFailed)
  }

  /** `download_ts_segment`: at most `MaxRetries` requests, a pause between
      consecutive ones, re-raising after the last failure; then the decryption
      choice and the write. */
  method DownloadTsSegment(fetch: SegmentFetch, dec: BlockCipher, task: (string, string), key: Option<seq<byte>>,
                           iv: Option<seq<byte>>, folder: map<string, seq<byte>>)
    returns (r: Result<map<string, seq<byte>>, SegmentError>, attempts: nat, sleeps: nat)
    ensures r == SegmentOutcome(fetch, dec, key, iv, folder, task)
    ensures 1 <= attempts <= MaxRetries && sleeps == attempts - 1
    ensures attempts == Min(FirstSuccess(fetch, task.0, 1), MaxRetries)
  {
    var url := task.0;
    var attempt := 1;
    sleeps := 0;
    var response: Option<seq<byte>>;
    while true
      invariant 1 <= attempt <= MaxRetries && sleeps == attempt - 1
      invariant FirstSuccess(fetch, url, 1) == FirstSuccess(fetch, url, attempt)
      decreases MaxRetries - attempt
    {
      response := fetch(url, attempt);
      if response.Some? {
        break;
      }
      if attempt == MaxRetries {
        attempts := attempt;
        r := Err(FetchFailed);
        return;
      }
      sleeps := sleeps + 1;
      attempt := attempt + 1;
    }
    attempts := attempt;
    var body := SegmentBody(dec, key, iv, response.value);
    if body.Err? {
      r := Err(body.error);
      return;
    }
    if !Writable(task.1) {
      r := Err(WriteFailed);
      return;
    }
    r := Ok(folder[task.1 := body.value]);
  }

  /** Without a content key the written file is the response body unchanged. */
  lemma SegmentPassThrough(fetch: SegmentFetch, dec: BlockCipher, iv: Option<seq<byte>>, url: string)
    requires FirstSuccess(fetch, url, 1) <= MaxRetries
    ensures SegmentBytes(fetch, dec, None, iv, url) == Ok(fetch(url, FirstSuccess(fetch, url, 1)).value)
  {
  }

  /** With a content key and a 16-byte IV, a segment the server padded and
      CBC-encrypted under them is written as the original plaintext. */
  lemma SegmentDecrypts(fetch: SegmentFetch, enc: BlockCipher, dec: BlockCipher, key: seq<byte>, iv: Block,
                        url: string, plaintext: seq<byte>)
    requires forall b: Block :: dec(key, enc(key, b)) == b
    requires ValidKeyLength(key)
    requires FirstSuccess(fetch, url, 1) <= MaxRetries
    requires fetch(url, FirstSuccess(fetch, url, 1)) == Some(CbcEncrypt(enc, key, iv, Pad(plaintext)))
    ensures SegmentBytes(fetch, dec, Some(key), Some(iv), url) == Ok(plaintext)
  {
    AesCbcRoundTrip(enc, dec, key, iv, plaintext);
  }

  /** With a content key but no IV (a key line without `IV=`), every
      segment fails the IV check. */
  lemma SegmentNeedsIv(fetch: SegmentFetch, dec: BlockCipher, key: seq<byte>, url: string)
    requires ValidKeyLength(key)
    requires FirstSuccess(fetch, url, 1) <= MaxRetries
    ensures SegmentBytes(fetch, dec, Some(key), None, url) == Err(DecryptFailed(IvLengthError))
  {
  }

  // ---------------------------------------------------------------------
  // download_encrypted_m3u8: running the tasks
  // ---------------------------------------------------------------------

  /** The tasks run one after another from `folder`; the first failure is re-raised. */
  function RunTasks(fetch: SegmentFetch, dec: BlockCipher, key: Option<seq<byte>>, iv: Option<seq<byte>>,
                    folder: map<string, seq<byte>>, tasks: seq<(string, string)>)
    : Result<map<string, seq<byte>>, DownloadError>
    decreases |tasks|
  {
    if tasks == [] then Ok(folder)
    else match SegmentOutcome(fetch, dec, key, iv, folder, tasks[0])
      case Err(e) => Err(SegmentFailed(tasks[0].0, e))
      case Ok(next) => RunTasks(fetch, dec, key, iv, next, tasks[1..])
  }

  /** `download_encrypted_m3u8(m3u8_url, ts_segments, save_path, key_id, key, iv)`
      with the pool's tasks run in order; `folder` is what the output folder
      already holds. */
  method DownloadEncryptedM3u8(join: UrlJoin, fetch: SegmentFetch, dec: BlockCipher, m3u8Url: string, segments: seq<string>,
                               key: Option<seq<byte>>, iv: Option<seq<byte>>, folder: map<string, seq<byte>>)
    returns (r: Result<map<string, seq<byte>>, DownloadError>)
    ensures r == RunTasks(fetch, dec, key, iv, folder, SegmentTasks(join, m3u8Url, segments))
  {
    var tasks := SegmentTasks(join, m3u8Url, segments);
    var current := folder;
    var i := 0;
    while i < |tasks|
      invariant 0 <= i <= |tasks|
      invariant RunTasks(fetch, dec, key, iv, folder, tasks) == RunTasks(fetch, dec, key, iv, current, tasks[i..])
    {
      assert tasks[i..][1..] == tasks[i + 1..];
      var outcome, attempts, sleeps := DownloadTsSegment(fetch, dec, tasks[i], key, iv, current);
      if outcome.Err? {
        return Err(SegmentFailed(tasks[i].0, outcome.error));
      }
      current := outcome.value;
      i := i + 1;
    }
    return Ok(current);
  }

  /** The tasks all succeed exactly when every segment's fetch and
      decryption succeed and every file name is writable. */
  lemma {:induction false} RunTasksOk(fetch: SegmentFetch, dec: BlockCipher, key: Option<seq<byte>>, iv: Option<seq<byte>>,
                                      folder: map<string, seq<byte>>, tasks: seq<(string, string)>)
    ensures RunTasks(fetch, dec, key, iv, folder, tasks).Ok? <==>
      forall k :: 0 <= k < |tasks| ==> SegmentBytes(fetch, dec, key, iv, tasks[k].0).Ok? && Writable(tasks[k].1)
    decreases |tasks|
  {
    if tasks != [] {
      var next := SegmentOutcome(fetch, dec, key, iv, folder, tasks[0]);
      if next.Ok? {
        RunTasksOk(fetch, dec, key, iv, next.value, tasks[1..]);
        assert forall k :: 1 <= k < |tasks| ==> tasks[k] == tasks[1..][k - 1];
      }
    }
  }

  /** The names of the tasks are pairwise different. */
  predicate DistinctNames(tasks: seq<(string, string)>) {
    forall i, j :: 0 <= i < j < |tasks| ==> tasks[i].1 != tasks[j].1
  }

  /** A successful run keeps every file of the folder whose name no task uses. */
  lemma {:induction false} RunTasksKeeps(fetch: SegmentFetch, dec: BlockCipher, key: Option<seq<byte>>, iv: Option<seq<byte>>,
                                         folder: map<string, seq<byte>>, tasks: seq<(string, string)>, n: string)
    requires RunTasks(fetch, dec, key, iv, folder, tasks).Ok?
    requires n in folder && forall k :: 0 <= k < |tasks| ==> tasks[k].1 != n
    ensures n in RunTasks(fetch, dec, key, iv, folder, tasks).value
    ensures RunTasks(fetch, dec, key, iv, folder, tasks).value[n] == folder[n]
    decreases |tasks|
  {
    if tasks != [] {
      var next := SegmentOutcome(fetch, dec, key, iv, folder, tasks[0]).value;
      var rest := tasks[1..];
      assert forall k :: 0 <= k < |rest| ==> rest[k] == tasks[k + 1];
      RunTasksKeeps(fetch, dec, key, iv, next, rest, n);
    }
  }

  /** Every file after a successful run was in the folder or is named by a task. */
  lemma {:induction false} RunTasksOnly(fetch: SegmentFetch, dec: BlockCipher, key: Option<seq<byte>>, iv: Option<seq<byte>>,
                                        folder: map<string, seq<byte>>, tasks: seq<(string, string)>, n: string)
    requires RunTasks(fetch, dec, key, iv, folder, tasks).Ok?
    requires n in RunTasks(fetch, dec, key, iv, folder, tasks).value
    ensures n in folder || exists k :: 0 <= k < |tasks| && tasks[k].1 == n
    decreases |tasks|
  {
    if tasks != [] {
      var next := SegmentOutcome(fetch, dec, key, iv, folder, tasks[0]).value;
      var rest := tasks[1..];
      RunTasksOnly(fetch, dec, key, iv, next, rest, n);
      if n !in folder && n != tasks[0].1 {
        var k :| 0 <= k < |rest| && rest[k].1 == n;
        assert tasks[k + 1].1 == n;
      }
    }
  }

  /** After a successful run with distinct names, each task's file holds that
      segment's bytes. */
  lemma {:induction false} RunTasksWrites(fetch: SegmentFetch, dec: BlockCipher, key: Option<seq<byte>>, iv: Option<seq<byte>>,
                                          folder: map<string, seq<byte>>, tasks: seq<(string, string)>, k: nat)
    requires DistinctNames(tasks)
    requires RunTasks(fetch, dec, key, iv, folder, tasks).Ok?
    requires k < |tasks|
    ensures tasks[k].1 in RunTasks(fetch, dec, key, iv, folder, tasks).value
    ensures Ok(RunTasks(fetch, dec, key, iv, folder, tasks).value[tasks[k].1]) == SegmentBytes(fetch, dec, key, iv, tasks[k].0)
    decreases |tasks|
  {
    var next := SegmentOutcome(fetch, dec, key, iv, folder, tasks[0]).value;
    var rest := tasks[1..];
    assert forall j :: 0 <= j < |rest| ==> rest[j] == tasks[j + 1];
    assert DistinctNames(rest);
    if k == 0 {
      RunTasksKeeps(fetch, dec, key, iv, next, rest, tasks[0].1);
    } else {
      RunTasksWrites(fetch, dec, key, iv, next, rest, k - 1);
    }
  }

  /** After a successful run the folder holds, under each task's file name,
      that segment's bytes, and keeps every file it had before under any
      other name. */
  lemma RunTasksContents(fetch: SegmentFetch, dec: BlockCipher, key: Option<seq<byte>>, iv: Option<seq<byte>>,
                         folder: map<string, seq<byte>>, tasks: seq<(string, string)>)
    requires DistinctNames(tasks)
    requires RunTasks(fetch, dec, key, iv, folder, tasks).Ok?
    ensures var f := RunTasks(fetch, dec, key, iv, folder, tasks).value;
      (forall k :: 0 <= k < |tasks| ==> tasks[k].1 in f && Ok(f[tasks[k].1]) == SegmentBytes(fetch, dec, key, iv, tasks[k].0)) &&
      (forall n :: n in folder && (forall k :: 0 <= k < |tasks| ==> tasks[k].1 != n) ==> n in f && f[n] == folder[n]) &&
      (forall n :: n in f ==> n in folder || exists k :: 0 <= k < |tasks| && tasks[k].1 == n)
  {
    var f := RunTasks(fetch, dec, key, iv, folder, tasks).value;
    forall k | 0 <= k < |tasks|
      ensures tasks[k].1 in f && Ok(f[tasks[k].1]) == SegmentBytes(fetch, dec, key, iv, tasks[k].0)
    {
      RunTasksWrites(fetch, dec, key, iv, folder, tasks, k);
    }
    forall n | n in folder && (forall k :: 0 <= k < |tasks| ==> tasks[k].1 != n)
      ensures n in f && f[n] == folder[n]
    {
      RunTasksKeeps(fetch, dec, key, iv, folder, tasks, n);
    }
    forall n | n in f
      ensures n in folder || exists k :: 0 <= k < |tasks| && tasks[k].1 == n
    {
      RunTasksOnly(fetch, dec, key, iv, folder, tasks, n);
    }
  }

  // ---------------------------------------------------------------------
  // merge_ts_files
  // ---------------------------------------------------------------------

  /** The output of the merge loop over `names` (already sorted): the
      contents of the `.ts` files appended in order, and whether the loop ran
      to the end; a read error stops it with what was written so far. */
  function Concat(names: seq<string>, read: string -> Option<seq<byte>>): (seq<byte>, bool)
    decreases |names|
  {
    if names == [] then ([], true)
    else if !EndsWith(names[0], ".ts") then Concat(names[1..], read)
    else match read(names[0])
      case None => ([], false)
      case Some(data) =>
        var rest := Concat(names[1..], read);
        (data + rest.0, rest.1)
  }

  /** `merge_ts_files(folder, save_folder, output_file)`. `listing` is
      `os.listdir(folder)` (`None` when it raises) and `read(n)` the contents
      of file `n` (`None` on an `IOError`). Returns the bytes of the output
      file, whether the merge reported success, and whether the temporary
      folder was deleted. */
  method MergeTsFiles(listing: Option<seq<string>>, read: string -> Option<seq<byte>>)
    returns (output: seq<byte>, complete: bool, tempDeleted: bool)
    ensures listing.None? ==> output == [] && !complete
    ensures listing.Some? ==> (output, complete) == Concat(SortLex(listing.value), read)
    ensures tempDeleted
  {
    output := [];
    complete := false;
    if listing.None? {
      tempDeleted := true;
      return;
    }
    output, complete := AppendTsFiles(SortLex(listing.value), read);
    tempDeleted := true;
  }

  /** The loop of `merge_ts_files` over the sorted names: appends each
      `.ts` file to the output and stops at the first file it cannot read. */
  method AppendTsFiles(names: seq<string>, read: string -> Option<seq<byte>>)
    returns (output: seq<byte>, complete: bool)
    ensures (output, complete) == Concat(names, read)
  {
    output := [];
    var i := 0;
    assert names[i..] == names;
    while i < |names|
      invariant 0 <= i <= |names|
      invariant Concat(names, read).0 == output + Concat(names[i..], read).0
      invariant Concat(names, read).1 == Concat(names[i..], read).1
    {
      ConcatStep(names, i, read);
      if EndsWith(names[i], ".ts") {
        var data := read(names[i]);
        if data.None? {
          assert Concat(names[i..], read) == ([], false);
          assert output + [] == output;
          return output, false;
        }
        output := output + data.value;
      }
      i := i + 1;
    }
    assert names[i..] == [] && output + [] == output;
    complete := true;
  }

  lemma ConcatStep(names: seq<string>, i: nat, read: string -> Option<seq<byte>>)
    requires i < |names|
    ensures var rest := Concat(names[i + 1..], read);
      Concat(names[i..], read) ==
        if !EndsWith(names[i], ".ts") then rest
        else if read(names[i]).None? then ([], false)
        else (read(names[i]).value + rest.0, rest.1)
  {
    assert names[i..][0] == names[i] && names[i..][1..] == names[i + 1..];
  }

  /** Files whose names do not end in `.ts` contribute nothing. */
  lemma {:induction false} ConcatIgnoresOthers(names: seq<string>, read: string -> Option<seq<byte>>, other: string)
    requires !EndsWith(other, ".ts")
    ensures forall k :: 0 <= k <= |names| ==>
      Concat(names[..k] + [other] + names[k..], read) == Concat(names, read)
    decreases |names|
  {
    forall k | 0 <= k <= |names|
      ensures Concat(names[..k] + [other] + names[k..], read) == Concat(names, read)
    {
      if k > 0 {
        ConcatIgnoresOthers(names[1..], read, other);
        assert (names[..k] + [other] + names[k..])[1..] == names[1..][..k - 1] + [other] + names[1..][k - 1..];
      } else {
        assert ([other] + names)[1..] == names;
      }
    }
  }

  /** The bytes of all the named files, in order, when every one can be read. */
  function ReadAll(names: seq<string>, read: string -> Option<seq<byte>>): Option<seq<byte>>
    decreases |names|
  {
    if names == [] then Some([])
    else match (read(names[0]), ReadAll(names[1..], read))
      case (Some(a), Some(b)) => Some(a + b)
      case _ => None
  }

  /** When every name ends in `.ts`, the merge completes exactly when every
      file can be read, and then its output is all of them in order. */
  lemma {:induction false} ConcatAllTs(names: seq<string>, read: string -> Option<seq<byte>>)
    requires forall k :: 0 <= k < |names| ==> EndsWith(names[k], ".ts")
    ensures Concat(names, read).1 <==> ReadAll(names, read).Some?
    ensures Concat(names, read).1 ==> Concat(names, read).0 == ReadAll(names, read).value
    decreases |names|
  {
    if names != [] {
      ConcatAllTs(names[1..], read);
    }
  }

  /** The merge does not depend on the order `os.listdir` returns the names in. */
  lemma MergeOrderIndependent(l1: seq<string>, l2: seq<string>, read: string -> Option<seq<byte>>)
    requires multiset(l1) == multiset(l2)
    ensures Concat(SortLex(l1), read) == Concat(SortLex(l2), read)
  {
    SortLexSpec(l1);
    SortLexSpec(l2);
    SortedUnique(SortLex(l1), SortLex(l2));
  }

  /** Segment files named in ascending order are merged in manifest order. */
  lemma MergeInTaskOrder(tasks: seq<(string, string)>, listing: seq<string>, read: string -> Option<seq<byte>>)
    requires forall i, j :: 0 <= i < j < |tasks| ==> LexLe(tasks[i].1, tasks[j].1)
    requires forall k :: 0 <= k < |tasks| ==> EndsWith(tasks[k].1, ".ts")
    requires multiset(listing) == multiset(Names(tasks))
    ensures Concat(SortLex(listing), read) == Concat(Names(tasks), read)
  {
    SortLexSpec(listing);
    SortedUnique(SortLex(listing), Names(tasks));
  }

  /** The file names of the tasks. */
  function Names(tasks: seq<(string, string)>): (r: seq<string>)
    ensures |r| == |tasks| && forall k :: 0 <= k < |r| ==> r[k] == tasks[k].1
  {
    seq(|tasks|, k requires 0 <= k < |tasks| => tasks[k].1)
  }

  /** Lexical order is not numeric order: `10.ts` sorts before `2.ts`, so
      segment names that are unpadded numbers are merged out of manifest order. */
  lemma LexicalNotNumeric()
    ensures LexLe("10.ts", "2.ts") && !LexLe("2.ts", "10.ts")
    ensures SortLex(["2.ts", "10.ts"]) == ["10.ts", "2.ts"]
  {
    assert SortedLex(["10.ts", "2.ts"]);
    assert multiset(["2.ts", "10.ts"]) == multiset(["10.ts", "2.ts"]);
    SortLexSpec(["2.ts", "10.ts"]);
    SortedUnique(SortLex(["2.ts", "10.ts"]), ["10.ts", "2.ts"]);
  }

  /** `os.listdir`: every name in the folder once, in an unspecified order. */
  method ListDir(folder: map<string, seq<byte>>) returns (names: seq<string>)
    ensures forall n :: n in names <==> n in folder
    ensures forall i, j :: 0 <= i < j < |names| ==> names[i] != names[j]
  {
    names := [];
    var rest := folder.Keys;
    while rest != {}
      invariant rest <= folder.Keys
      invariant forall n :: n in names <==> n in folder && n !in rest
      invariant forall i, j :: 0 <= i < j < |names| ==> names[i] != names[j]
      decreases |rest|
    {
      var n :| n in rest;
      names := names + [n];
      rest := rest - {n};
    }
  }

  // ---------------------------------------------------------------------
  // download_video
  // ---------------------------------------------------------------------

  /** The command line handed to the external downloader. */
  function ToolCommand(m3u8Url: string, savePath: string, fileName: string, key: seq<byte>): string {
    "N_m3u8DL-CLI_v3.0.2.exe " + m3u8Url + " --workDir " + savePath + " --saveName " + fileName +
    " --useKeyBase64 " + BytesToBase64(key) + " --enableDelAfterDone"
  }

  /** `downloader_m3u8`: the command carries the content key as Base64 text that decodes back to it. */
  lemma ToolCommandCarriesKey(m3u8Url: string, savePath: string, fileName: string, key: seq<byte>)
    ensures var cmd := ToolCommand(m3u8Url, savePath, fileName, key);
      var head := "N_m3u8DL-CLI_v3.0.2.exe " + m3u8Url + " --workDir " + savePath + " --saveName " + fileName + " --useKeyBase64 ";
      var text := BytesToBase64(key);
      StartsWith(cmd, head) && cmd[|head|..|head| + |text|] == text && Base64Decode(text) == Some(key)
  {
    var head := "N_m3u8DL-CLI_v3.0.2.exe " + m3u8Url + " --workDir " + savePath + " --saveName " + fileName + " --useKeyBase64 ";
    var text := BytesToBase64(key);
    var cmd := ToolCommand(m3u8Url, savePath, fileName, key);
    assert cmd == head + text + " --enableDelAfterDone";
    assert cmd[..|head|] == head;
    assert cmd[|head|..|head| + |text|] == text;
  }

  /** Everything `download_video` reads from the outside world. */
  datatype Env = Env(
    join: UrlJoin,
    manifest: Option<string>,                  // the text of the manifest, or `None` when the request raises
    md5: seq<byte> -> Digest,
    dec: BlockCipher,
    keys: KeyService,
    isWindows: bool,
    existsInCwd: string -> bool,
    fetch: SegmentFetch,
    folder: map<string, seq<byte>>)            // what `save_path/key_id` already holds

  datatype VideoOutcome =
    | Delegated(command: string)               // the external downloader was started with this command
    | Merged(output: seq<byte>, complete: bool) // the merged `.mp4` bytes and whether the merge reported success
    | Failed(error: DownloadError)             // the exception `download_video` raised

  /** The folder contents read back for the merge. */
  function Reader(folder: map<string, seq<byte>>): string -> Option<seq<byte>> {
    n => if n in folder then Some(folder[n]) else None
  }

  /** `download_video(m3u8_url, save_path, file_name)`. */
  method DownloadVideo(env: Env, m3u8Url: string, savePath: string, fileName: string) returns (outcome: VideoOutcome)
    ensures env.manifest.None? ==> outcome == Failed(ManifestUnavailable)
    ensures env.manifest.Some? ==> var parsed := ParseLines(env.join, m3u8Url, SplitLines(env.manifest.value));
      (parsed.Err? ==> outcome == Failed(parsed.error)) &&
      (parsed.Ok? ==>
        var info := parsed.value;
        var signs := GetSigns(env.md5, env.dec, env.keys, info.keyUrl, info.keyId);
        var toolPresent := env.isWindows && forall k :: 0 <= k < |Tool.ToolFileNames| ==> env.existsInCwd(Tool.ToolFileNames[k]);
        (signs.Err? ==> outcome == Failed(KeyUrlMissing)) &&
        (signs.Ok? && toolPresent ==>
          outcome == if signs.value.None? then Failed(ToolKeyMissing)
                     else Delegated(ToolCommand(m3u8Url, savePath, fileName, signs.value.value))) &&
        (signs.Ok? && !toolPresent && info.keyId.None? ==> outcome == Failed(KeyIdMissing)) &&
        (signs.Ok? && !toolPresent && info.keyId.Some? ==>
          var written := RunTasks(env.fetch, env.dec, signs.value, info.iv, env.folder, SegmentTasks(env.join, m3u8Url, info.segments));
          (written.Err? ==> outcome == Failed(written.error)) &&
          (written.Ok? ==> (outcome.Merged? &&
            forall listing: seq<string> :: multiset(listing) == multiset(Enumerate(written.value.Keys)) ==>
              (outcome.output, outcome.complete) == Concat(SortLex(listing), Reader(written.value))))))
  {
    var parsed := ParseM3u8(env.join, m3u8Url, env.manifest);
    if parsed.Err? {
      return Failed(parsed.error);
    }
    var info := parsed.value;
    var signs := GetSigns(env.md5, env.dec, env.keys, info.keyUrl, info.keyId);
    if signs.Err? {
      return Failed(signs.error);
    }
    var key := signs.value;
    var toolPresent, probed := Tool.CheckDirectoryM3u8Downloader(env.isWindows, env.existsInCwd);
    if toolPresent {
      if key.None? {
        return Failed(ToolKeyMissing);
      }
      return Delegated(ToolCommand(m3u8Url, savePath, fileName, key.value));
    }
    if info.keyId.None? {
      return Failed(KeyIdMissing);
    }
    var written := DownloadEncryptedM3u8(env.join, env.fetch, env.dec, m3u8Url, info.segments, key, info.iv, env.folder);
    if written.Err? {
      return Failed(written.error);
    }
    var listing := ListDir(written.value);
    var output, complete, tempDeleted := MergeTsFiles(Some(listing), Reader(written.value));
    forall other: seq<string> | multiset(other) == multiset(Enumerate(written.value.Keys))
      ensures (output, complete) == Concat(SortLex(other), Reader(written.value))
    {
      EnumerateSpec(written.value.Keys);
      SameElementsSameMultiset(listing, Enumerate(written.value.Keys));
      MergeOrderIndependent(listing, other, Reader(written.value));
    }
    return Merged(output, complete);
  }

  /** Some listing of a finite set of names, without repetitions. */
  ghost function Enumerate(names: set<string>): seq<string>
    decreases |names|
  {
    if names == {} then []
    else
      var n :| n in names;
      [n] + Enumerate(names - {n})
  }

  lemma {:induction false} EnumerateSpec(names: set<string>)
    ensures forall n :: n in Enumerate(names) <==> n in names
    ensures forall i, j :: 0 <= i < j < |Enumerate(names)| ==> Enumerate(names)[i] != Enumerate(names)[j]
    decreases |names|
  {
    if names != {} {
      var n :| n in names && Enumerate(names) == [n] + Enumerate(names - {n});
      EnumerateSpec(names - {n});
    }
  }

  /** In a repetition-free list every element occurs once. */
  lemma {:induction false} DistinctCounts(a: seq<string>)
    requires forall i, j :: 0 <= i < j < |a| ==> a[i] != a[j]
    ensures forall n :: multiset(a)[n] == if n in a then 1 else 0
    decreases |a|
  {
    if a != [] {
      DistinctCounts(a[1..]);
      assert a == [a[0]] + a[1..];
      assert a[0] !in a[1..] by {
        forall p | 0 <= p < |a[1..]|
          ensures a[1..][p] != a[0]
        {
          assert a[1..][p] == a[p + 1];
        }
      }
    }
  }

  /** Two repetition-free lists of the same names are permutations of each other. */
  lemma SameElementsSameMultiset(a: seq<string>, b: seq<string>)
    requires forall n :: n in a <==> n in b
    requires forall i, j :: 0 <= i < j < |a| ==> a[i] != a[j]
    requires forall i, j :: 0 <= i < j < |b| ==> b[i] != b[j]
    ensures multiset(a) == multiset(b)
  {
    DistinctCounts(a);
    DistinctCounts(b);
    assert forall n :: multiset(a)[n] == multiset(b)[n];
  }

  // ---------------------------------------------------------------------
  // download_file_from_url
  // ---------------------------------------------------------------------

  /** The file name `download_file_from_url` saves under: the last
      `/`-segment of the URL, or the given name with that segment's
      extension (the whole segment when it has no `.`). */
  function TargetFileName(url: string, filename: Option<string>): (r: string)
    ensures filename.None? ==> r == AfterLast(url, '/')
  {
    var last := AfterLast(url, '/');
    if filename.None? then last else filename.value + "." + AfterLast(last, '.')
  }

  /** Without a name, the file name is the URL's last `/`-segment: it holds
      no `/`, ends the URL, and is preceded there by a `/`. */
  lemma TargetFileNameBare(url: string)
    ensures var r := TargetFileName(url, None);
      '/' !in r && EndsWith(url, r) && (|r| < |url| ==> url[|url| - |r| - 1] == '/')
  {
  }

  /** With a name, the file name is that name, a `.`, and the extension: the
      text after the last `.` of the URL's last `/`-segment, or the whole
      segment when it has no `.`. */
  lemma TargetFileNameNamed(url: string, name: string)
    ensures var r := TargetFileName(url, Some(name));
      var last := AfterLast(url, '/');
      StartsWith(r, name + ".") &&
      var ext := r[|name| + 1..];
      '.' !in ext && '/' !in ext && EndsWith(last, ext) &&
      (|ext| < |last| ==> last[|last| - |ext| - 1] == '.') &&
      ('.' !in last ==> ext == last)
  {
    var last := AfterLast(url, '/');
    var ext := AfterLast(last, '.');
    SuffixLacks(last, ext, '/');
    var r := name + "." + ext;
    assert TargetFileName(url, Some(name)) == r;
    assert r[..|name| + 1] == name + ".";
    assert r[|name| + 1..] == ext;
  }

  lemma SuffixLacks(s: string, t: string, c: char)
    requires c !in s && |t| <= |s| && s[|s| - |t|..] == t
    ensures c !in t
  {
    forall i | 0 <= i < |t|
      ensures t[i] != c
    {
      assert t[i] == s[|s| - |t| + i];
    }
  }

  /** `os.path.join(a, b)` on POSIX. */
  function PathJoin(a: string, b: string): (r: string)
    ensures EndsWith(r, b)
  {
    if StartsWith(b, "/") then b
    else if a == [] || a[|a| - 1] == '/' then a + b
    else a + "/" + b
  }

  /** `download_file_from_url(url, save_path, filename)`: the saved path and
      contents, or `None` when the request or the status check raises.
      `get(u)` is the response body of a successful request. */
  function DownloadFileFromUrl(get: string -> Option<seq<byte>>, url: string, savePath: string, filename: Option<string>)
    : (r: Option<(string, seq<byte>)>)
    ensures r.Some? <==> get(url).Some?
    ensures r.Some? ==> r.value == (PathJoin(savePath, TargetFileName(url, filename)), get(url).value)
  {
    var name := TargetFileName(url, filename);
    match get(url)
    case None => None
    case Some(body) => Some((PathJoin(savePath, name), body))
  }
}
