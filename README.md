# smartedu-download core in Dafny

This project models the part of the smartedu downloader that does real work.

- **Video download (`utils/download.py`, `utils/crypt.py`).** This is the encrypted HLS pipeline.
  1. An `.m3u8` manifest is parsed into segment URLs, a key URI, a key id and an IV.
  2. The content key is obtained through a two-step key exchange: MD5 signature, then AES-ECB.
  3. Every segment is fetched with up to three attempts and AES-CBC-decrypted into a temporary folder.
  4. The `.ts` files are concatenated in sorted-name order into one `.mp4`.
- **The glue around it:**
  - `utils/getInfo.py` maps a resource id to a list of download records.
  - `utils/command.py` routes a pasted URL to the right extractor and runs one download job per record.
  - `utils/tool.py` holds the small helpers: prefix rewrite, query parameter, detection of the external downloader.
  - `utils/getExam2Word.py` turns an exam paper's question bank into one HTML document for `.docx` export.

The world outside the program becomes parameters of the model:

- HTTP responses become `Option` values or functions from URL to `Option`.
- `urljoin`, the AES block cipher and MD5 are function-typed parameters.
- The host checks are booleans and predicates.
- A directory of files is a `map` from name to bytes.

Python exceptions become `Err` values of a `Result`. A function that catches everything and returns `None` becomes `Option`.

Each Python function that loops and updates variables is a `method` with a `while` loop. The method is proved equal to a prefix-recursive specification function, and the lemmas state what that function promises. Expression-only code is written as functions.

The modules follow the source files:

| Module | File | Models |
|---|---|---|
| `Wrappers` | `wrappers.dfy` | `Option`, `Result`, and the map-with-first-error used by the extractors' loops |
| `Text` | `text.dfy` | The Python string and bytes operations the core relies on: `find`, `replace`, `split`, `rsplit`, `splitlines`, `bytes.hex`, `binascii.unhexlify`, UTF-8, `sorted` on strings |
| `Json` | `json.dfy` | The parsed JSON values and `dict.get`, `[0]`, iteration |
| `Crypt` | `crypt.dfy` | `utils/crypt.py` |
| `Tool` | `tool.dfy` | `utils/tool.py` |
| `Download` | `download.dfy` | `utils/download.py` |
| `GetInfo` | `getinfo.dfy` | `utils/getInfo.py` |
| `Command` | `command.dfy` | `utils/command.py` |
| `Exam` | `exam.dfy` | `utils/getExam2Word.py` |

Points where the code behaves in a way a reader might not expect, all modelled as written:

- **The IV.** `utils/download.py:149` keeps the first 16 lowercase hex characters of the IV as ASCII bytes, not 16 decoded bytes: it decodes the hex, re-encodes it as lowercase hex text, and cuts that text. `Download.DecodeIv` models this.
- **A manifest with no key line.** `key_url` stays `None`, and `get_signs` fails on `None + "/signs"` (`utils/download.py:159`) before any segment is fetched. `Download.DownloadVideo` ends in `Failed(KeyUrlMissing)` there, so such a manifest is never downloaded as plain segments.
  - Segments are written undecrypted in one case only: the key exchange fails while a key id is present. The exchange catches its own error and returns `None` (`utils/download.py:170-177`), and `download_ts_segment` then writes the raw bodies.
  - A key tag without `_keys/` also gives no key, but the run fails at `os.path.join(save_path, None)` (`utils/download.py:102`).
- **The temporary folder.** It is removed only by `merge_ts_files`. When a segment fails, the merge never runs and the folder stays.

## Model

| member | source | states |
|---|---|---|
| Wrappers.MapResultOk | utils/getInfo.py:41-55 | A loop that maps every element and stops at the first raise succeeds exactly when every element maps successfully |
| Wrappers.MapResultValues | utils/getInfo.py:41-55 | On success it yields one value per element, in order, each the mapped element |
| Wrappers.MapResultErrorStays | utils/getInfo.py:41-55 | Once the loop has raised on a prefix, the later elements do not change the outcome |
| Text.Find | utils/download.py:137 | `str.find`: the returned index is an occurrence at or after the start, no earlier one exists, and "not found" means no occurrence at all |
| Text.ReplaceAbsent | utils/getExam2Word.py:87 | `str.replace` with a pattern that does not occur returns the string unchanged |
| Text.ReplaceCharSpec | utils/command.py:66-69 | Replacing one character with another keeps the length, turns every occurrence of the first into the second and leaves every other character as it was |
| Text.AfterLast | utils/download.py:185 | `s.split(sep)[-1]` is the longest suffix without the separator, and the character before it is the separator |
| Text.BeforeLast | utils/download.py:184 | `s.rsplit(sep, 1)[0]` is the prefix before the last separator, or the whole string when there is none |
| Text.LineEnd | utils/download.py:134 | The end of a line is the first line break at or after the start, or the end of the text |
| Text.SplitLines | utils/download.py:134 | `str.splitlines`: no line holds a line break, empty text gives no lines, and text without a break is one line |
| Text.NextLineStart | utils/download.py:134 | The next line starts after the boundary, which is `\r\n` or one break character |
| Text.SplitLinesRebuild | utils/download.py:134 | The lines, each followed by its dropped boundary, rebuild the text in order. Every boundary but the last is a break character or `\r\n`, never a `\r\n` split in two, and only the last may be empty |
| Text.HexDigit | utils/download.py:149 | A value below 16 becomes a lowercase hex digit |
| Text.HexValue | utils/download.py:149 | A hex character has a value below 16 whose lowercase digit is that character in lower case |
| Text.LowerHexChar | utils/download.py:149 | Lower-casing a hex character gives a lowercase hex character |
| Text.HexLower | utils/download.py:149 | `bytes.hex()` is twice as long as the bytes and all lowercase hex |
| Text.Unhexlify | utils/download.py:149 | `binascii.unhexlify` succeeds exactly on even-length all-hex text and yields half as many bytes |
| Text.LowerHex | utils/download.py:149 | Lower-casing hex text keeps its length |
| Text.HexOfUnhexlify | utils/download.py:149 | Decoding hex text and encoding it again gives the same text in lower case |
| Text.UnhexlifyOfHex | utils/download.py:149 | Encoding bytes as hex and decoding the text gives the same bytes back |
| Text.Utf8Char | utils/download.py:149 | UTF-8 of a character is one to four bytes, and one byte, the code itself, exactly for ASCII |
| Text.Utf8Ascii | utils/download.py:149 | UTF-8 of ASCII text is its character codes, one byte each |
| Text.LexLeReflexive | utils/download.py:254 | The string order used by `sorted` is reflexive |
| Text.LexLeTotal | utils/download.py:254 | The string order is total |
| Text.LexLeTransitive | utils/download.py:254 | The string order is transitive |
| Text.LexLeAntisymmetric | utils/download.py:254 | The string order is antisymmetric |
| Text.InsertLexSpec | utils/download.py:254 | Inserting into a sorted list keeps it sorted and adds exactly that element |
| Text.SortLexSpec | utils/download.py:254 | `sorted(names)` is sorted and a permutation of its input |
| Text.SortedUnique | utils/download.py:254 | Two sorted lists with the same elements are equal, so the sorted order depends only on the multiset of names |
| Crypt.PadBytes | utils/crypt.py:33 | The PKCS#7 tail for `n` is `n` copies of the byte `n` |
| Crypt.Unpad | utils/crypt.py:33 | `unpad(…, 16)` removes between 1 and 16 bytes that form a valid PKCS#7 tail, and rejects input that is not a whole number of blocks |
| Crypt.Pad | utils/crypt.py:33 | Padding yields whole blocks and adds between 1 and 16 bytes |
| Crypt.PadUnpad | utils/crypt.py:33 | Unpadding padded data gives the data back |
| Crypt.UnpadPad | utils/crypt.py:33 | Padding what a successful unpad returned gives the input back |
| Crypt.EcbDecrypt | utils/crypt.py:29-32 | ECB decryption keeps the length |
| Crypt.EcbBlock | utils/crypt.py:29-32 | Block `k` of the ECB plaintext is the block cipher applied to block `k` of the ciphertext |
| Crypt.EcbEncrypt | utils/crypt.py:29-32 | ECB encryption, the inverse used for the round trip, keeps the length |
| Crypt.EcbRoundTrip | utils/crypt.py:29-32 | With a block cipher whose decryption inverts its encryption, ECB decryption inverts ECB encryption |
| Crypt.Pow2Add | utils/crypt.py:63-66 | Powers of two multiply by adding exponents, and `2^8` is 256, so a byte is an 8-bit value |
| Crypt.Bit | utils/crypt.py:63-66 | Bit `k` of a number is 0 or 1 |
| Crypt.XorBits | utils/crypt.py:63-66 | XOR of the low `n` bits stays below `2^n` |
| Crypt.XorBitsBit | utils/crypt.py:63-66 | Each of the low `n` bits of the XOR is the exclusive or of the two inputs' bits at that place, and every higher bit is 0 |
| Crypt.XorBitsCancel | utils/crypt.py:63-66 | XOR-ing twice with the same value cancels |
| Crypt.XorBlock | utils/crypt.py:63-66 | Block XOR is byte-wise XOR |
| Crypt.XorCancel | utils/crypt.py:63-66 | XOR-ing a block twice with the same block cancels |
| Crypt.CbcDecrypt | utils/crypt.py:63-66 | CBC decryption keeps the length |
| Crypt.CbcEncrypt | utils/crypt.py:63-66 | CBC encryption, the inverse used for the round trip, keeps the length |
| Crypt.CbcRoundTrip | utils/crypt.py:63-66 | With an inverse block cipher, CBC decryption under the same key and IV inverts CBC encryption |
| Crypt.B64Char | utils/crypt.py:95-97 | A six-bit value becomes a Base64 alphabet character, never the pad character |
| Crypt.B64Value | utils/crypt.py:26 | Decoding a character gives a six-bit value that encodes back to it; only ASCII characters have a value, and the pad character has none |
| Crypt.B64ValueOfChar | utils/crypt.py:26 | Every six-bit value decodes back from its character |
| Crypt.Group | utils/crypt.py:95-97 | Three bytes encode to four characters |
| Crypt.GroupDecodes | utils/crypt.py:26 | The decoder reads the four characters of a group as its three bytes and starts a fresh quad |
| Crypt.Base64Encode | utils/crypt.py:95-97 | `base64.b64encode` output is four characters per started group of three bytes |
| Crypt.Emit | utils/crypt.py:26 | A data character completes a byte at every quad position except the first |
| Crypt.Keep | utils/crypt.py:26 | The bits a data character leaves for the next byte are fewer than six |
| Crypt.A2b | utils/crypt.py:26 | Decoding only appends to the bytes already produced |
| Crypt.Base64Decode | utils/crypt.py:26 | `b64decode` of text with a non-ASCII character raises |
| Crypt.A2bDigit | utils/crypt.py:26 | An alphabet character emits the byte it completes, keeps its remaining bits, moves to the next quad position and clears the pad count |
| Crypt.A2bPad | utils/crypt.py:26 | A pad character ends decoding when it completes a quad from the third position on; otherwise it is counted there and ignored before it |
| Crypt.A2bSkips | utils/crypt.py:26 | A character outside the alphabet, other than `=`, is skipped wherever it stands |
| Crypt.Base64DecodeSkips | utils/crypt.py:26 | `b64decode` ignores an ASCII character outside the alphabet, such as a line break |
| Crypt.Base64DecodeStopsAtPad | utils/crypt.py:26 | After an encoding that ends in padding, any further ASCII text is ignored |
| Crypt.Base64DecodeSkipsNewline | utils/crypt.py:26 | `b64decode("QUJD\n")` is `b"ABC"` |
| Crypt.Base64DecodeIgnoresAfterPad | utils/crypt.py:26 | `b64decode("QQ==QUJD")` is `b"A"` |
| Crypt.Base64DecodeRejectsShort | utils/crypt.py:26 | `b64decode("QUJ")` raises: the text ends inside a quad |
| Crypt.GroupBits | utils/crypt.py:26 | The four six-bit values of three bytes rebuild the bytes one at a time |
| Crypt.EncodeAppend | utils/crypt.py:95-97 | The encoding of whole groups followed by more bytes is the two encodings one after the other |
| Crypt.DecodeGroups | utils/crypt.py:26 | The encoding of whole groups decodes to their bytes and leaves the decoder at a fresh quad |
| Crypt.DecodePadded | utils/crypt.py:26 | An encoding that ends in padding decodes to its bytes, and whatever follows it is not read |
| Crypt.DecodeOneByte | utils/crypt.py:26 | A single byte, encoded with two pad characters, decodes back, and the second pad ends decoding |
| Crypt.DecodeTwoBytes | utils/crypt.py:26 | Two bytes, encoded with one pad character, decode back, and the pad ends decoding |
| Crypt.DecodeLastGroup | utils/crypt.py:26 | An encoding of one or two bytes decodes to them, whatever follows |
| Crypt.DecodeFirstGroup | utils/crypt.py:26 | The first four characters of a longer encoding decode to the first three bytes, and decoding goes on with the encoding of the rest |
| Crypt.Base64RoundTrip | utils/crypt.py:26 | `b64decode(b64encode(data)) == data` for all data |
| Crypt.Base64Chars | utils/crypt.py:95-97 | Every character of an encoding is an alphabet character or a trailing pad |
| Crypt.AesEcbDecrypt | utils/crypt.py:6-35 | A key not of 16, 24 or 32 bytes is rejected first, then text `b64decode` rejects. On success the decoded ciphertext is whole blocks, 1 to 16 pad bytes were removed, and the result is the unpadding of its ECB decryption |
| Crypt.AesEcbRoundTrip | utils/crypt.py:26-33 | The Base64 of the ECB encryption of padded plaintext decrypts back to the plaintext under every valid key |
| Crypt.AesCbcDecrypt | utils/crypt.py:38-69 | The key length is checked first, then the IV must be present and 16 bytes long. On success the ciphertext is whole blocks and 1 to 16 pad bytes were removed |
| Crypt.AesCbcRoundTrip | utils/crypt.py:63-67 | CBC encryption of padded plaintext decrypts back to the plaintext under every valid key and IV |
| Crypt.Md5Encrypt | utils/crypt.py:72-87 | The signature is 16 lowercase hex characters |
| Crypt.Md5EncryptIsHalfDigest | utils/crypt.py:86-87 | The signature is the hex of the first 8 bytes of the MD5 of the text's UTF-8 |
| Crypt.HexPrefix | utils/crypt.py:87 | The first `2k` hex characters are the hex of the first `k` bytes |
| Crypt.SignIsAesKey | utils/crypt.py:86-87 | The signature, UTF-8 encoded, is 16 bytes and so a valid AES-128 key for the ECB step |
| Crypt.BytesToBase64 | utils/crypt.py:90-98 | The encoding has the Base64 length and decodes back to the input |
| Json.LookupSpec | utils/getInfo.py:37 | A key lookup fails exactly when no field has that key, and otherwise returns the value of the last field with it |
| Json.Get | utils/getInfo.py:37 | `x.get(k, d)` raises exactly when `x` is not an object |
| Json.Iter | utils/getInfo.py:21 | Iterating raises exactly on `None`, booleans and numbers, and an array iterates as its items |
| Json.First | utils/getInfo.py:389 | `x[0]` succeeds exactly on a non-empty array or string |
| Json.NatToString | utils/getExam2Word.py:111 | `str(n)` is a non-empty run of decimal digits with no leading zero |
| Json.NatToStringValue | utils/getExam2Word.py:111 | The digits `str(n)` writes denote `n` |
| Json.NatToStringInjective | utils/getExam2Word.py:111 | Different numbers are written differently, so question numbers never collide |
| Json.QuoteOf | utils/getInfo.py:44 | `repr` quotes with `'` or `"` |
| Json.EscapeChar | utils/getInfo.py:44 | One character is written as one to four characters |
| Json.ReprStr | utils/getInfo.py:44 | `repr(s)` starts and ends with the chosen quote: `"` when the text holds `'` and no `"`, otherwise `'` |
| Json.UnescapeChar | utils/getInfo.py:44 | An escaped character reads back as itself |
| Json.UnescapeEscaped | utils/getInfo.py:44 | The escaped body of a literal reads back as the text |
| Json.EscapedBareChars | utils/getInfo.py:44 | Inside the literal every occurrence of its quote character is escaped with a backslash |
| Json.ReprStrRoundTrip | utils/getInfo.py:44 | `repr(s)` is a literal that reads back as `s` |
| Json.ReprStrPlain | utils/getInfo.py:44 | Text without quotes, backslashes or characters to escape is written between single quotes unchanged |
| Json.EscapedPlain | utils/getInfo.py:44 | Such text needs no escape |
| Tool.ReplaceStartingPattern | utils/tool.py:6-21 | When the URL starts with `cs_path:${ref-path}`, the result's length is that of the URL with the prefix swapped for the replacement |
| Tool.ReplacePrefixPresent | utils/tool.py:18-20 | A URL with the prefix becomes the replacement followed by the rest of the URL |
| Tool.ReplacePrefixAbsent | utils/tool.py:21 | A URL without the prefix is returned unchanged |
| Tool.ReplaceIdempotent | utils/tool.py:18-21 | When neither of the replacement and the prefix starts with the other, applying the rewrite twice equals applying it once |
| Tool.ReplaceNotIdempotentShortExample | utils/tool.py:18-21 | Without that condition a second rewrite can change the result again (a URL holding the prefix twice) |
| Tool.ReplaceNotIdempotentExample | utils/tool.py:18-21 | A replacement that itself starts with the prefix is rewritten again on a second pass |
| Text.Split | utils/tool.py:80 | `str.split(sep)` gives at least one piece and no piece holds the separator |
| Text.SplitJoin | utils/tool.py:80 | Joining the pieces of `str.split(sep)` with the separator gives the text back |
| Text.IndexOfChar | utils/tool.py:80 | The first index of a character: it holds the character and nothing before it does |
| Text.SplitFirst | utils/tool.py:80 | Splitting at the first occurrence fails exactly when the character is absent; otherwise the two halves and the character rebuild the text |
| Tool.Defragment | utils/tool.py:80 | The URL's text before its first `#`: a prefix of the URL without `#`, followed in the URL by `#` when shorter |
| Tool.QueryOf | utils/tool.py:80 | `urlparse(url).query`: empty when the URL before its fragment has no `?`, and otherwise the text after that part's first `?`, holding no `#` |
| Tool.FieldValue | utils/tool.py:80 | A `name=value` field yields a non-empty value exactly in that shape |
| Tool.FirstValueSpec | utils/tool.py:80-83 | Over a list of query fields: `None` exactly when no field names the parameter with a value, and otherwise the value of the first field that does |
| Tool.GetUrlParamSpec | utils/tool.py:80-83 | `get_url_param(url, name)` is `None` exactly when no `&`-separated field of the URL's query names the parameter with a value; otherwise it is the value of the earliest field `name=value`. A URL without a query gives `None` |
| Tool.CheckDirectoryM3u8Downloader | utils/tool.py:87-107 | The tool counts as present exactly on Windows with both files, `ffmpeg.exe` and `N_m3u8DL-CLI_v3.0.2.exe`, in the working directory. The probes stop at the first missing file and nothing is probed off Windows |
| Download.QuotedRun | utils/download.py:138-139 | A quoted run is a non-empty text without quotes that the input continues with a closing quote |
| Download.FirstMatchSpec | utils/download.py:138-139 | `re.search` finds the earliest position where the marker and a quoted run follow, and no match means none exists anywhere |
| Download.SearchQuoted | utils/download.py:138-139 | An extracted URI or key id is non-empty and holds no quote |
| Download.IvText | utils/download.py:140 | The IV text after `IV=` is shorter than the line |
| Download.DecodeIv | utils/download.py:147-149 | Decoding the IV fails only because the text is not hex |
| Download.DecodeIvSpec | utils/download.py:147-149 | The IV decodes exactly when the text without `0x` is even-length hex, and then it is the first 16 lowercase hex characters as ASCII bytes |
| Download.IvLength | utils/download.py:149 | The decoded IV is at most 16 bytes, and exactly 16 when the hex text has at least 16 digits |
| Download.ParseM3u8 | utils/download.py:112-155 | An unavailable manifest raises. Otherwise the result is the line-by-line parse of its lines |
| Download.ParseErrorStays | utils/download.py:134-152 | Once a line has raised, later lines do not change the outcome |
| Download.NonComments | utils/download.py:150-152 | The segment lines are at most the lines |
| Download.ResolveAll | utils/download.py:152 | Every segment reference is resolved against the manifest URL, in order |
| Download.LastSomeSpec | utils/download.py:143-146 | The value kept is the one from the last line that has one, and there is none only when no line has one |
| Download.SegmentStep | utils/download.py:150-152 | A line adds a resolved segment exactly when it is not a comment |
| Download.ParseSegments | utils/download.py:134-152 | The segments are the non-comment lines resolved against the manifest URL, in file order |
| Download.ParseKeyFields | utils/download.py:137-149 | The key URI, key id and IV are each taken from the last key line that carries them |
| Download.LineFails | utils/download.py:137-149 | One line raises exactly when it is a key line whose IV is not hex |
| Download.ParseFails | utils/download.py:147-149 | Parsing raises exactly when some key line has a non-hex IV, and the error is that one |
| Download.NoKeyLine | utils/download.py:128-155 | A manifest with no key line parses with no key URI, no key id and no IV |
| Download.GetSigns | utils/download.py:158-177 | The exchange raises exactly when there is no key URI; a key is returned only when there is a key id |
| Download.KeyExchangeRoundTrip | utils/download.py:159-169 | When the server's key is the ECB encryption of the content key under the signature, the exchange returns the content key |
| Download.KeyExchangeNeedsKeyId | utils/download.py:164 | Without a key id the signature request fails inside the handler and the exchange returns no key |
| Download.SegmentTask | utils/download.py:184-185 | The segment URL is resolved against the manifest's directory, and its file name is the URL's last `-`-separated piece |
| Download.SegmentTasks | utils/download.py:184-187 | One task per segment, in manifest order |
| Download.FirstSuccess | utils/download.py:212-222 | The first attempt that succeeds is within the three attempts, or past them when all fail |
| Download.FirstSuccessSpec | utils/download.py:212-222 | Every attempt before the first success raised |
| Download.SegmentBody | utils/download.py:224-228 | Without a key the body is written as fetched; with a key it succeeds exactly when CBC decryption does |
| Download.SegmentOutcome | utils/download.py:198-232 | A task succeeds exactly when the segment was fetched and decrypted and its file can be written, and the folder then holds those bytes under the file name |
| Download.DownloadTsSegment | utils/download.py:198-232 | The loop ends with the segment outcome, after between one and three attempts and one sleep between consecutive attempts |
| Download.SegmentPassThrough | utils/download.py:227-228 | With no key the segment bytes are the body of the first successful response |
| Download.SegmentDecrypts | utils/download.py:225-226 | A segment that is the CBC encryption of padded plaintext is written as that plaintext |
| Download.SegmentNeedsIv | utils/download.py:225-226 | With a key but no IV every fetched segment fails to decrypt |
| Download.DownloadEncryptedM3u8 | utils/download.py:179-194 | The pool's work, run in order, equals running every task on the folder |
| Download.RunTasksOk | utils/download.py:191-192 | All tasks succeed exactly when each one does on the folder its predecessors left |
| Download.RunTasksKeeps | utils/download.py:191-192 | A file no task writes keeps its contents |
| Download.RunTasksOnly | utils/download.py:191-192 | Every file afterwards was there before or was written by a task |
| Download.RunTasksWrites | utils/download.py:231-232 | With distinct file names, every task's file holds that task's segment bytes |
| Download.RunTasksContents | utils/download.py:179-194 | The folder after the pool is the old folder plus each task's segment bytes under its name and nothing else |
| Download.MergeTsFiles | utils/download.py:235-275 | An unreadable folder merges nothing and reports failure. Otherwise the output is the concatenation of the listing in sorted order. The folder is deleted in every case |
| Download.AppendTsFiles | utils/download.py:254-266 | The loop equals the concatenation: `.ts` files appended in order, stopping with failure at the first unreadable one |
| Download.ConcatIgnoresOthers | utils/download.py:255 | A file not ending in `.ts` anywhere in the listing does not change the merge |
| Download.ConcatAllTs | utils/download.py:254-262 | Over `.ts` names the merge succeeds exactly when all files read, and yields their contents in order |
| Download.MergeOrderIndependent | utils/download.py:254 | The merge depends only on which names are listed, not on the order `listdir` gives |
| Download.MergeInTaskOrder | utils/download.py:254 | When the segment file names are in increasing string order, the merge concatenates them in manifest order |
| Download.Names | utils/download.py:185 | The file names of the tasks, one per task, in order |
| Download.LexicalNotNumeric | utils/download.py:254 | `10.ts` sorts before `2.ts`, so unpadded segment numbers merge out of playback order |
| Download.ListDir | utils/download.py:254 | `os.listdir` lists every file of the folder exactly once |
| Download.ToolCommandCarriesKey | utils/download.py:64-67 | The external downloader's command line carries the key as Base64 text that decodes back to the key |
| Download.DownloadVideo | utils/download.py:70-108 | The orchestration: parse, key exchange, delegation when the tool is present, the failures for a missing key URI, key or key id, then segment download and merge |
| Download.EnumerateSpec | utils/download.py:254 | Some order of the folder's names holds every name exactly once |
| Download.DistinctCounts | utils/download.py:254 | A list without repeats counts each name at most once |
| Download.SameElementsSameMultiset | utils/download.py:254 | Two lists without repeats and with the same names are permutations of each other |
| Download.TargetFileName | utils/download.py:29-33 | Without a given name the file takes the URL's last path piece |
| Download.TargetFileNameBare | utils/download.py:29-30 | That last piece holds no `/` and ends the URL |
| Download.TargetFileNameNamed | utils/download.py:31-33 | A given name keeps the URL's extension after it |
| Download.PathJoin | utils/download.py:40 | `os.path.join(a, b)` ends with `b` |
| Download.DownloadFileFromUrl | utils/download.py:12-61 | The download succeeds exactly when the request does, and writes the response body to the joined path |
| GetInfo.UrlPrefix | utils/getInfo.py:15-23 | The mp4 format selects the HLS prefix and every other hashable format the default prefix; an unhashable format raises |
| GetInfo.Matches | utils/getInfo.py:26-27 | Matching an item raises exactly when the item is not an object |
| GetInfo.MatchesRule | utils/getInfo.py:26-27 | An item matches when it is the `href` item of an mp4 resource, or has the resource's size for other formats |
| GetInfo.StorageUrl | utils/getInfo.py:28-29 | The URL is built exactly when the item's `ti_storage` is a string |
| GetInfo.GetDownloadUrl | utils/getInfo.py:5-32 | The loop equals the first-match search over `ti_items` |
| GetInfo.FindUrlFirstMatch | utils/getInfo.py:21-29 | The first matching item gives the URL, and later items are not looked at |
| GetInfo.FindUrlNoMatch | utils/getInfo.py:31-32 | Without a match the result is `None` |
| GetInfo.FindUrlRaises | utils/getInfo.py:21-27 | A non-object item or an unhashable format, reached before any match, raises |
| GetInfo.UrlJson | utils/getInfo.py:49-53 | The record's URL field is `null` exactly when no URL was found |
| GetInfo.RecordOfNames | utils/getInfo.py:41-44 | A record's file name is the Chinese global title, an underscore and the title, and its folder is the section's |
| GetInfo.RecordOfDefaults | utils/getInfo.py:41-55 | An empty entry gives the defaults: name `_`, no URL, empty format and size |
| GetInfo.FetchResources | utils/getInfo.py:35-57 | The loop equals mapping every entry of the section to its record, stopping at the first raise |
| GetInfo.ResourcesMissingKey | utils/getInfo.py:37 | A missing section key yields no records |
| GetInfo.HomeworkUrl | utils/getInfo.py:382-389 | The loop equals the last-match search |
| GetInfo.LastStorageErrorStays | utils/getInfo.py:386-389 | Once an item has raised, later items do not change the outcome |
| GetInfo.LastStorageLastMatch | utils/getInfo.py:386-389 | The last matching item's first storage is the URL, because the loop has no `break` |
| GetInfo.LastStorageNoMatch | utils/getInfo.py:382-389 | Without a match the URL stays `None` |
| GetInfo.SectionRecordsSpec | utils/getInfo.py:269-274 | The records of several sections are the records of their entries, one each, in section order |
| GetInfo.SingleInfo | utils/getInfo.py:82-98 | Building a single-resource record equals its specification |
| GetInfo.HomeworkInfo | utils/getInfo.py:375-398 | Building the homework record equals its specification |
| GetInfo.SectionInfo | utils/getInfo.py:228-232 | The section loop equals the concatenated section records |
| GetInfo.AssembleInfo | utils/getInfo.py:78-98 | Dispatching on the extractor equals its specification |
| GetInfo.ExtractInfo | utils/getInfo.py:60-108 | An extractor returns its records, or `None` when the request or the assembly raises |
| GetInfo.InfoSingleRecord | utils/getInfo.py:92-98 | Textbook, courseware and homework give exactly one record, in the top folder |
| GetInfo.InfoTitleDefault | utils/getInfo.py:82 | A textbook or courseware without a title is named by its id |
| GetInfo.InfoSections | utils/getInfo.py:269-274 | A multi-section resource yields the records of its sections, in order, in the folder `SectionDir` gives for its kind (its title, or the top folder for an experiment course) |
| Command.FirstRoute | utils/command.py:30-53 | A route found is one whose prefix the URL starts with |
| Command.FirstRouteSpec | utils/command.py:30-53 | No route is found exactly when no prefix matches, and otherwise it is the first that does |
| Command.ClassifyFirstMatch | utils/command.py:30-53 | The first matching prefix in the `elif` chain decides the extractor and the query parameter |
| Command.ExitOnlyExact | utils/command.py:54-56 | The program exits exactly on the text `exit` |
| Command.UnsupportedIffNoMatch | utils/command.py:57-58 | A URL is unsupported exactly when it is not `exit` and matches no prefix |
| Command.JobOfSpec | utils/command.py:66-86 | A record becomes a job: spaces in the names become `_`, the folder sits under the working directory, and a record of format `mp4` or `m3u8` goes to the video download |
| Command.JobsOfSpec | utils/command.py:65-86 | Records become jobs in order until the first record that raises, which ends the loop |
| Command.RunItems | utils/command.py:64-86 | The loop runs the jobs of the records in order and records which downloads raised |
| Command.JobsOfCrashStays | utils/command.py:65-69 | Once a record has raised, later records are not processed |
| Command.DownloadContent | utils/command.py:27-86 | `exit` exits, an unknown URL does nothing, a failed extraction stops, and otherwise every record's job runs in order |
| Exam.SpanSpec | utils/getExam2Word.py:67 | A greedy character run takes every character it can and stops at the first it cannot |
| Exam.AddressMatch | utils/getExam2Word.py:67 | A match is a prefix of the location holding at least `://` |
| Exam.AddressMatchShaped | utils/getExam2Word.py:67 | A match has the regular expression's shape: word characters, `://`, host characters, slashes |
| Exam.AddressOfShaped | utils/getExam2Word.py:67 | Every location with a prefix of that shape matches, with a match at least that long |
| Exam.RefPath | utils/getExam2Word.py:67-68 | `ref_path` exists exactly when the address matches, and is the match without its last character; otherwise `.group()` raises |
| Exam.RefPathTrailingSlash | utils/getExam2Word.py:67-68 | On `s://h.cn/x` the path is `s://h.cn`: the trailing slash is dropped |
| Exam.RefPathNoSlash | utils/getExam2Word.py:67-68 | On `s://h.cn` the path is `s://h.c`: without a slash the last host character is dropped |
| Exam.RefPathNoScheme | utils/getExam2Word.py:67-68 | A location without `://` raises |
| Exam.SourceZipAgreesWithTool | utils/getExam2Word.py:71-75 | For a `${ref-path}`-prefixed zip path, the inline replace agrees with the prefix rewrite in `utils/tool.py` |
| Exam.SourceZipStripsOnce | utils/getExam2Word.py:73-75 | The `cs_path:` prefix is stripped once, not repeatedly |
| Exam.ChoicesHtmlAppend | utils/getExam2Word.py:84-86 | The choices' HTML distributes over concatenation of choice lists |
| Exam.ItemHtmlPlain | utils/getExam2Word.py:81-87 | Without placeholders an item's HTML is its prompt followed by its choices |
| Exam.QuestionHtmlSpec | utils/getExam2Word.py:78-88 | One HTML entry per item, in order |
| Exam.QuestionHtmlOf | utils/getExam2Word.py:78-88 | The loop equals the per-item HTML |
| Exam.FlattenPrefix | utils/getExam2Word.py:55-61 | The questions of the first pages are a prefix of those of all pages |
| Exam.QuesDataOfSpec | utils/getExam2Word.py:64-91 | A question's entry fails exactly when its address does not match, with that error. Otherwise it holds the address, one HTML string per item in item order (each the item's prompt and choices), the expected MD5, and, for an archive path of the form `cs_path:${ref-path}...` with no further placeholder, the prefix rewrite of `utils/tool.py` |
| Exam.CollectErrorStays | utils/getExam2Word.py:55-91 | Once a question has raised, later questions do not change the outcome |
| Exam.CollectOk | utils/getExam2Word.py:55-91 | The question bank is built exactly when every question's entry is |
| Exam.CollectKeys | utils/getExam2Word.py:90-91 | The bank's ids are exactly the questions' ids |
| Exam.CollectLastWins | utils/getExam2Word.py:91 | For a repeated id the last question's entry is kept |
| Exam.BuildQuesDatas | utils/getExam2Word.py:54-91 | The nested loops equal building the bank from all pages' questions in order |
| Exam.AddPage | utils/getExam2Word.py:61-91 | One page's loop extends the bank as if the page's questions were appended |
| Exam.NumberedSpec | utils/getExam2Word.py:111 | Every HTML entry of a question gets the same number prefix |
| Exam.QuestionsErrorStays | utils/getExam2Word.py:107-133 | Once a question has raised, later questions do not change the outcome |
| Exam.AddQuestionSpec | utils/getExam2Word.py:108-133 | An unknown id raises. A known question passes exactly when its downloaded archive's MD5 is the expected one; the pass then keeps the earlier strings and appends one string per item, each the question's number div followed by the item's HTML, and adds one to the count |
| Exam.QuestionsOk | utils/getExam2Word.py:107-133 | A part's questions pass exactly when every one does |
| Exam.QuestionsNumbering | utils/getExam2Word.py:107-130 | Questions are numbered consecutively from the running count, and the count grows by their number |
| Exam.QuestionsFirstFailure | utils/getExam2Word.py:107-133 | The error is the first failing question's |
| Exam.RunPartsErrorStays | utils/getExam2Word.py:100-135 | Once a part has raised, later parts do not change the outcome |
| Exam.RunPartsOk | utils/getExam2Word.py:100-135 | The parts loop succeeds exactly when every part does |
| Exam.RunPartsNumbering | utils/getExam2Word.py:99-135 | The document is the parts' sections in order, numbered on from the start, and the count ends past the total number of questions |
| Exam.PartsOk | utils/getExam2Word.py:99-135 | The paper is exported exactly when every question of every part passes |
| Exam.PartsNumbering | utils/getExam2Word.py:99-135 | The paper's HTML is every part's title and numbered questions, in order, counting from 1 |
| Exam.ExportHtml | utils/getExam2Word.py:93-135 | The parts loop equals its specification |
| Exam.ExportPart | utils/getExam2Word.py:101-133 | A part's loop fails with the first failing question's error, or produces the title and numbered questions and the new count |
| Exam.ExportQuestion | utils/getExam2Word.py:108-133 | One question passes exactly when it is in the bank with a matching checksum, and then gives its numbered HTML |
| Exam.ExamSpec | utils/getExam2Word.py:27-145 | An exported paper's HTML is the numbered parts, its document is named after the title inside the output folder, and every question of every part passed |
| Exam.GetExam | utils/getExam2Word.py:27-145 | The procedure equals its specification |

## Left out

- **Concurrency.** The `multiprocessing.Pool` in `download_encrypted_m3u8` is modelled as running the tasks one after another in manifest order. Nothing in the code keeps two segments from sharing a file name: `url.split('-')[-1]` gives `1.ts` for both `…/a-1.ts` and `…/b-1.ts`. `Download.RunTasksContents` requires distinct names (`DistinctNames`), and then the folder does not depend on which task wrote first. With a shared name the workers race for the file, and the order of those writes is not modelled. Interleavings, and tasks still running after another one failed, are not modelled.
- **HTTP.** `requests`, `wget` and timeouts are inputs: a response is an `Option` of its body, and `raise_for_status` failures are `None`. `time.sleep` is counted (`sleeps`), not timed.
- **Cryptographic primitives.** AES on one block and MD5 are function parameters. Their internals are not modelled, and the round-trip lemmas assume only that decryption inverts encryption for the key.
- **URL resolution.** `urljoin` is a function parameter; section 5.2 of RFC 3986 is not modelled.
- **Download.DownloadFileFromUrl:** the chunked write and the `IOError` branch are not modelled. The written bytes are the response body.
- **Tool.FirstValueSpec:** `parse_qs` percent-decoding and `+` decoding are not modelled; values are compared as raw text.
- **Tool.GetUrlParamSpec:** the same gap: the value returned is the raw text after `name=`, not its percent- or `+`-decoded form.
- **Exam.AddressMatch:** `\w` is taken as ASCII letters, digits and `_`, where Python's `re` also accepts other Unicode word characters.
- **Json.Repr:** characters outside Latin-1 that Python counts as non-printable are copied, where `repr` writes `\u` or `\U` escapes. An object with a repeated key is printed once per field, where a Python `dict` keeps one entry per key.
- **Crypt.Base64Decode:** the `ValueError` for non-ASCII text and the `binascii.Error` for bad padding are one `None`; the message is not modelled.
- **JSON.** Numbers are integers, and equality of JSON values is structural. Python's `1 == 1.0` and `True == 1` are not modelled.
- **Download.PathJoin:** follows POSIX `os.path.join`: a second path starting with `/` replaces the first. Windows `ntpath` rules (backslash separators, drive letters) are not modelled, although the program targets Windows.
- **downloader_m3u8.** Only the command line handed to `os.system` is modelled (`Download.ToolCommand`); its exit status is not.
- **The file system.** These are not modelled:
  - `ensure_directory_exists`, `delete_directory_contents_and_dir`, `os.makedirs`, `os.remove`, `shutil.rmtree`;
  - the zip download and extraction in `getExam`;
  - the copied `{count}-{filename}` answer videos;
  - `html2docx` and the `.docx` write.
  
  The model stops at the HTML and the document path. `Download.Writable` stands for "the path can be opened for writing".
- **Exam.ZipCheck:** the downloaded zip's checksum is an input (`zipMd5Of`), compared by string equality; `get_md5` is not modelled.
- **JSON shape errors in `getExam`.** A `KeyError` on a missing field, or a wrong type, cannot occur: the question and part records are typed. The address match, the question bank lookup and the checksum are the modelled failures.
- **Messages.** Printed messages, colours and the text of error messages are not modelled. A bare `raise` with no active exception, which Python turns into a `RuntimeError`, is an `Err` value.
- **Not part of this model:** the console interface (`welcome_interface`, `get_user_input`, `print_colored`), `main.py`, `get_10` and `get_md5_from_str`.
