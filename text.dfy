/**
 * Text and byte helpers with Python's semantics: `startswith`, `in`,
 * `str.replace`, `split(sep)[-1]`, `rsplit(sep, 1)[0]`, `splitlines`,
 * `bytes.hex`, `binascii.unhexlify`, UTF-8 encoding and the code-point
 * ordering that `sorted` uses on strings.
 */
module Text {
  import opened Wrappers

  type byte = x: int | 0 <= x < 256

  // ---------------------------------------------------------------------
  // Prefixes, occurrences, replacement
  // ---------------------------------------------------------------------

  /** Python's `s.startswith(p)`. */
  predicate StartsWith(s: string, p: string) {
    |p| <= |s| && s[..|p|] == p
  }

  /** Python's `s.endswith(p)`. */
  predicate EndsWith(s: string, p: string) {
    |p| <= |s| && s[|s| - |p|..] == p
  }

  /** `p` occurs in `s` at position `i`. */
  predicate OccursAt(s: string, p: string, i: nat) {
    i + |p| <= |s| && s[i..i + |p|] == p
  }

  /** Python's `s.find(p)` from position `from`: the leftmost occurrence at or after `from`. */
  function Find(s: string, p: string, from: nat): (r: Option<nat>)
    ensures r.Some? ==> from <= r.value && OccursAt(s, p, r.value)
    ensures r.Some? ==> forall j :: from <= j < r.value ==> !OccursAt(s, p, j)
    ensures r.None? ==> forall j :: from <= j ==> !OccursAt(s, p, j)
    decreases |s| - from
  {
    if |s| < from + |p| then None
    else if OccursAt(s, p, from) then Some(from)
    else Find(s, p, from + 1)
  }

  /** Python's `p in s`. */
  predicate Contains(s: string, p: string)
    decreases |s|
  {
    StartsWith(s, p) || (s != [] && Contains(s[1..], p))
  }

  /** Python's `s.replace(pat, rep)` for a non-empty pattern: occurrences are
      replaced left to right and never overlap. */
  function Replace(s: string, pat: string, rep: string): string
    requires |pat| > 0
    decreases |s|
  {
    if |s| < |pat| then s
    else if s[..|pat|] == pat then rep + Replace(s[|pat|..], pat, rep)
    else [s[0]] + Replace(s[1..], pat, rep)
  }

  lemma {:induction false} ReplaceAbsent(s: string, pat: string, rep: string)
    requires |pat| > 0
    requires forall j :: 0 <= j ==> !OccursAt(s, pat, j)
    ensures Replace(s, pat, rep) == s
    decreases |s|
  {
    if |s| >= |pat| {
      assert !OccursAt(s, pat, 0);
      forall j | 0 <= j ensures !OccursAt(s[1..], pat, j) {
        assert !OccursAt(s, pat, j + 1);
        if j + |pat| <= |s[1..]| {
          assert s[1..][j..j + |pat|] == s[j + 1..j + 1 + |pat|];
        }
      }
      ReplaceAbsent(s[1..], pat, rep);
    }
  }

  /** A prefix that holds no copy of the pattern's first character passes
      through unchanged, whatever follows it. */
  lemma {:induction false} ReplaceSkip(a: string, b: string, pat: string, rep: string)
    requires |pat| > 0 && pat[0] !in a
    ensures Replace(a + b, pat, rep) == a + Replace(b, pat, rep)
    decreases |a|
  {
    if a != [] {
      var s := a + b;
      assert s[1..] == a[1..] + b;
      assert s[0] == a[0] && a == [a[0]] + a[1..];
      assert pat[0] !in a[1..];
      ReplaceSkip(a[1..], b, pat, rep);
      if |s| >= |pat| {
        assert s[..|pat|][0] == a[0];
      }
    } else {
      assert a + b == b;
    }
  }

  /** Replacing one character by another keeps the length and removes
      every occurrence of the replaced character. */
  lemma {:induction false} ReplaceCharSpec(s: string, a: char, b: char)
    requires a != b
    ensures |Replace(s, [a], [b])| == |s|
    ensures forall i :: 0 <= i < |s| ==>
      Replace(s, [a], [b])[i] == if s[i] == a then b else s[i]
    decreases |s|
  {
    if |s| >= 1 {
      ReplaceCharSpec(s[1..], a, b);
      var t := Replace(s[1..], [a], [b]);
      assert Replace(s, [a], [b]) == (if s[0] == a then [b] else [s[0]]) + t;
    }
  }

  // ---------------------------------------------------------------------
  // Splitting on a separator character
  // ---------------------------------------------------------------------

  /** Python's `s.split(sep)[-1]`: the text after the last `sep`, or all of `s`. */
  function AfterLast(s: string, sep: char): (r: string)
    ensures sep !in r
    ensures |r| <= |s| && s[|s| - |r|..] == r
    ensures |r| < |s| ==> s[|s| - |r| - 1] == sep
    decreases |s|
  {
    if s == [] then []
    else if s[|s| - 1] == sep then []
    else
      var p := s[..|s| - 1];
      var t := AfterLast(p, sep);
      assert s[|s| - |t| - 1..] == p[|p| - |t|..] + [s[|s| - 1]];
      t + [s[|s| - 1]]
  }

  /** Python's `s.rsplit(sep, 1)[0]`: the text before the last `sep`, or all of `s`. */
  function BeforeLast(s: string, sep: char): (r: string)
    ensures sep !in s ==> r == s
    ensures sep in s ==> |r| < |s| && s[..|r|] == r && s[|r|] == sep && sep !in s[|r| + 1..]
    decreases |s|
  {
    if s == [] then []
    else if s[|s| - 1] == sep then s[..|s| - 1]
    else if sep in s[..|s| - 1] then
      var r := BeforeLast(s[..|s| - 1], sep);
      assert s[|r| + 1..] == s[..|s| - 1][|r| + 1..] + [s[|s| - 1]];
      r
    else s
  }

  // ---------------------------------------------------------------------
  // Splitting at a character
  // ---------------------------------------------------------------------

  /** Python's `s.split(sep)`: always at least one piece. */
  function Split(s: string, sep: char): (r: seq<string>)
    ensures |r| >= 1
    ensures forall k :: 0 <= k < |r| ==> sep !in r[k]
    decreases |s|
  {
    if sep !in s then [s]
    else
      var i := IndexOfChar(s, sep);
      [s[..i]] + Split(s[i + 1..], sep)
  }

  /** The index of the first `c` in `s`. */
  function IndexOfChar(s: string, c: char): (i: nat)
    requires c in s
    ensures i < |s| && s[i] == c && c !in s[..i]
  {
    if s[0] == c then 0 else
      assert c in s[1..] by { assert s == [s[0]] + s[1..]; }
      1 + IndexOfChar(s[1..], c)
  }

  /** `s.split(c, 1)` when `c` occurs: the text before and after the first `c`. */
  function SplitFirst(s: string, c: char): (r: Option<(string, string)>)
    ensures r.None? <==> c !in s
    ensures r.Some? ==> s == r.value.0 + [c] + r.value.1 && c !in r.value.0
  {
    if c !in s then None
    else
      var i := IndexOfChar(s, c);
      assert s == s[..i] + [c] + s[i + 1..];
      Some((s[..i], s[i + 1..]))
  }

  /** The pieces joined with the separator between them. */
  function JoinWith(pieces: seq<string>, sep: char): string
    requires |pieces| >= 1
    decreases |pieces|
  {
    if |pieces| == 1 then pieces[0] else pieces[0] + [sep] + JoinWith(pieces[1..], sep)
  }

  /** `sep.join(s.split(sep)) == s`: splitting loses nothing but the separators. */
  lemma {:induction false} SplitJoin(s: string, sep: char)
    ensures JoinWith(Split(s, sep), sep) == s
    decreases |s|
  {
    if sep in s {
      var i := IndexOfChar(s, sep);
      SplitJoin(s[i + 1..], sep);
      assert Split(s, sep)[1..] == Split(s[i + 1..], sep);
      assert s == s[..i] + [sep] + s[i + 1..];
    }
  }

  // ---------------------------------------------------------------------
  // Line splitting
  // ---------------------------------------------------------------------

  /** The characters Python's `str.splitlines` treats as line boundaries. */
  predicate IsLineBreak(c: char) {
    var n := c as int;
    n == 10 || n == 13 || n == 11 || n == 12 || (28 <= n <= 30) || n == 0x85 || n == 0x2028 || n == 0x2029
  }

  predicate NoLineBreak(s: string) {
    forall i :: 0 <= i < |s| ==> !IsLineBreak(s[i])
  }

  /** Index of the first line boundary at or after `i`, or `|s|`. */
  function LineEnd(s: string, i: nat): (r: nat)
    requires i <= |s|
    ensures i <= r <= |s|
    ensures r < |s| ==> IsLineBreak(s[r])
    ensures forall k :: i <= k < r ==> !IsLineBreak(s[k])
    decreases |s| - i
  {
    if i == |s| || IsLineBreak(s[i]) then i else LineEnd(s, i + 1)
  }

  /** Python's `s.splitlines()`: boundaries are dropped, `\r\n` counts as one,
      and a trailing boundary does not start an empty last line. */
  function SplitLines(s: string): (lines: seq<string>)
    ensures forall k :: 0 <= k < |lines| ==> NoLineBreak(lines[k])
    ensures s == [] <==> lines == []
    ensures NoLineBreak(s) && s != [] ==> lines == [s]
    decreases |s|
  {
    if s == [] then []
    else
      var e := LineEnd(s, 0);
      if e == |s| then [s]
      else
        [s[..e]] + SplitLines(s[NextLineStart(s, e)..])
  }

  /** Where the line after the boundary at `e` starts: `\r\n` is one
      boundary. */
  function NextLineStart(s: string, e: nat): (next: nat)
    requires e < |s|
    ensures e < next <= |s|
  {
    if s[e] == '\r' && e + 1 < |s| && s[e + 1] == '\n' then e + 2 else e + 1
  }

  /** A boundary `splitlines` drops: one break character, or `\r\n`. */
  predicate IsBoundary(e: string) {
    (|e| == 1 && IsLineBreak(e[0])) || e == "\r\n"
  }

  /** The lines put back together, each followed by its boundary. */
  function Rejoin(lines: seq<string>, ends: seq<string>): string
    requires |lines| == |ends|
    decreases |lines|
  {
    if lines == [] then [] else lines[0] + ends[0] + Rejoin(lines[1..], ends[1..])
  }

  /** A `\r` boundary followed by an empty line ending in `\n` would have
      been one `\r\n` boundary. */
  predicate SplitsCrLf(lines: seq<string>, ends: seq<string>, k: nat)
    requires |lines| == |ends| && 0 < k < |ends|
  {
    ends[k - 1] == "\r" && lines[k] == [] && ends[k] == "\n"
  }

  /** `splitlines` loses only the boundaries: there are boundaries `ends`
      such that each line followed by its boundary rebuilds the text; every
      boundary but the last is a break character or `\r\n` (never a `\r\n`
      split in two), and the last is one too or is empty. */
  lemma {:induction false} SplitLinesRebuild(s: string) returns (ends: seq<string>)
    ensures |ends| == |SplitLines(s)|
    ensures Rejoin(SplitLines(s), ends) == s
    ensures forall k :: 0 <= k < |ends| - 1 ==> IsBoundary(ends[k])
    ensures |ends| > 0 ==> IsBoundary(ends[|ends| - 1]) || ends[|ends| - 1] == []
    ensures forall k :: 0 < k < |ends| ==> !SplitsCrLf(SplitLines(s), ends, k)
    decreases |s|
  {
    if s == [] {
      ends := [];
    } else {
      var e := LineEnd(s, 0);
      if e == |s| {
        ends := [[]];
        assert Rejoin([s], ends) == s + [] + [];
      } else {
        var next := NextLineStart(s, e);
        var rest := s[next..];
        var restEnds := SplitLinesRebuild(rest);
        var end := s[e..next];
        ends := [end] + restEnds;
        SplitLinesStep(s);
        assert Rejoin(SplitLines(s), ends) == s by {
          assert Rejoin(SplitLines(s), ends) == s[..e] + end + Rejoin(SplitLines(rest), restEnds);
          Slices(s, e, next);
        }
        NoCrLfSplit(s, restEnds);
      }
    }
  }

  /** The first line, its boundary and the lines after it. */
  lemma SplitLinesStep(s: string)
    requires s != [] && LineEnd(s, 0) < |s|
    ensures var e := LineEnd(s, 0); var next := NextLineStart(s, e);
      SplitLines(s) == [s[..e]] + SplitLines(s[next..]) && IsBoundary(s[e..next])
  {
    var e := LineEnd(s, 0);
    BoundaryAt(s, e);
  }

  /** What `NextLineStart` skips is a boundary. */
  lemma BoundaryAt(s: string, e: nat)
    requires e < |s| && IsLineBreak(s[e])
    ensures IsBoundary(s[e..NextLineStart(s, e)])
  {
    var next := NextLineStart(s, e);
    if next == e + 2 {
      assert s[e..next] == [s[e], s[e + 1]];
    } else {
      assert s[e..next] == [s[e]];
    }
  }

  /** A `\r` boundary is never followed by an empty line ending in `\n`:
      that `\n` would have joined it. */
  lemma NoCrLfSplit(s: string, restEnds: seq<string>)
    requires s != [] && LineEnd(s, 0) < |s|
    requires var rest := s[NextLineStart(s, LineEnd(s, 0))..];
      |restEnds| == |SplitLines(rest)| && Rejoin(SplitLines(rest), restEnds) == rest &&
      forall k :: 0 < k < |restEnds| ==> !SplitsCrLf(SplitLines(rest), restEnds, k)
    ensures var e := LineEnd(s, 0); var ends := [s[e..NextLineStart(s, e)]] + restEnds;
      |ends| == |SplitLines(s)| && forall k :: 0 < k < |ends| ==> !SplitsCrLf(SplitLines(s), ends, k)
  {
    var e := LineEnd(s, 0);
    var next := NextLineStart(s, e);
    var rest := s[next..];
    var end := s[e..next];
    var ends := [end] + restEnds;
    var lines, restLines := SplitLines(s), SplitLines(rest);
    SplitLinesStep(s);
    forall k | 0 < k < |ends|
      ensures !SplitsCrLf(lines, ends, k)
    {
      if k == 1 {
        if end == "\r" && restLines[0] == [] {
          assert next == e + 1 && rest[0] == s[e + 1] != '\n';
          var after := Rejoin(restLines[1..], restEnds[1..]);
          assert rest == [] + restEnds[0] + after;
        }
      } else {
        assert !SplitsCrLf(restLines, restEnds, k - 1);
      }
    }
  }

  lemma Slices(s: string, i: nat, j: nat)
    requires i <= j <= |s|
    ensures s[..i] + s[i..j] + s[j..] == s
  {
  }

  // ---------------------------------------------------------------------
  // Hexadecimal
  // ---------------------------------------------------------------------

  /** The lower-case digit of a value below 16, as `bytes.hex` writes it. */
  function HexDigit(v: nat): (c: char)
    requires v < 16
    ensures IsLowerHexChar(c)
  {
    if v < 10 then ('0' as int + v) as char else ('a' as int + v - 10) as char
  }

  predicate IsHexChar(c: char) {
    ('0' <= c <= '9') || ('a' <= c <= 'f') || ('A' <= c <= 'F')
  }

  predicate IsLowerHex(s: string) {
    forall i :: 0 <= i < |s| ==> IsLowerHexChar(s[i])
  }

  predicate IsLowerHexChar(c: char) {
    ('0' <= c <= '9') || ('a' <= c <= 'f')
  }

  function HexValue(c: char): (v: nat)
    requires IsHexChar(c)
    ensures v < 16
    ensures HexDigit(v) == LowerHexChar(c)
  {
    if '0' <= c <= '9' then (c as int) - ('0' as int)
    else if 'a' <= c <= 'f' then (c as int) - ('a' as int) + 10
    else (c as int) - ('A' as int) + 10
  }

  /** A hex digit with `A`..`F` folded to `a`..`f`. */
  function LowerHexChar(c: char): (r: char)
    requires IsHexChar(c)
    ensures IsLowerHexChar(r)
  {
    if 'A' <= c <= 'F' then ((c as int) - ('A' as int) + ('a' as int)) as char else c
  }

  /** Python's `bytes.hex()`: two lower-case digits per byte. */
  function HexLower(b: seq<byte>): (r: string)
    ensures |r| == 2 * |b|
    ensures IsLowerHex(r)
  {
    if b == [] then []
    else [HexDigit(b[0] / 16), HexDigit(b[0] % 16)] + HexLower(b[1..])
  }

  /** Python's `binascii.unhexlify(s)`: `None` stands for the `binascii.Error`
      raised on an odd length or a non-hex character. */
  function Unhexlify(s: string): (r: Option<seq<byte>>)
    ensures r.Some? <==> (|s| % 2 == 0 && forall i :: 0 <= i < |s| ==> IsHexChar(s[i]))
    ensures r.Some? ==> 2 * |r.value| == |s|
    decreases |s|
  {
    if s == [] then Some([])
    else if |s| == 1 || !IsHexChar(s[0]) || !IsHexChar(s[1]) then None
    else match Unhexlify(s[2..])
      case None => None
      case Some(rest) => Some([(16 * HexValue(s[0]) + HexValue(s[1])) as byte] + rest)
  }

  /** Lower-case folding of a string of hex digits. */
  function LowerHex(s: string): (r: string)
    requires forall i :: 0 <= i < |s| ==> IsHexChar(s[i])
    ensures |r| == |s|
  {
    if s == [] then [] else [LowerHexChar(s[0])] + LowerHex(s[1..])
  }

  /** Hex-decoding then hex-encoding gives the input back, folded to lower case. */
  lemma {:induction false} HexOfUnhexlify(s: string)
    requires Unhexlify(s).Some?
    ensures HexLower(Unhexlify(s).value) == LowerHex(s)
    decreases |s|
  {
    if s != [] {
      var b := UnhexlifyHead(s);
      var rest := Unhexlify(s[2..]).value;
      calc {
        HexLower(Unhexlify(s).value);
        HexLower([b] + rest);
        { HexLowerHead(b, rest); }
        [HexDigit(b / 16), HexDigit(b % 16)] + HexLower(rest);
        { HexOfUnhexlify(s[2..]); }
        [LowerHexChar(s[0]), LowerHexChar(s[1])] + LowerHex(s[2..]);
        { LowerHexHead(s); }
        LowerHex(s);
      }
    }
  }

  /** The first two digits decode to the first byte, whose digits are the
      folded input digits. */
  lemma UnhexlifyHead(s: string) returns (b: byte)
    requires Unhexlify(s).Some? && s != []
    ensures Unhexlify(s[2..]).Some? && Unhexlify(s).value == [b] + Unhexlify(s[2..]).value
    ensures HexDigit(b / 16) == LowerHexChar(s[0]) && HexDigit(b % 16) == LowerHexChar(s[1])
  {
    var hi, lo := HexValue(s[0]), HexValue(s[1]);
    b := (16 * hi + lo) as byte;
    assert b / 16 == hi && b % 16 == lo;
  }

  /** Folding works two digits at a time from the front. */
  lemma {:induction false} LowerHexHead(s: string)
    requires |s| >= 2 && forall i :: 0 <= i < |s| ==> IsHexChar(s[i])
    ensures LowerHex(s) == [LowerHexChar(s[0]), LowerHexChar(s[1])] + LowerHex(s[2..])
  {
    var t := s[1..];
    assert t[0] == s[1] && t[1..] == s[2..];
    var a, b, rest := LowerHexChar(s[0]), LowerHexChar(s[1]), LowerHex(s[2..]);
    assert LowerHex(t) == [b] + rest;
    assert LowerHex(s) == [a] + ([b] + rest);
    assert [a] + ([b] + rest) == [a, b] + rest;
  }

  /** `bytes.hex` writes the first byte's two digits first. */
  lemma HexLowerHead(b: byte, rest: seq<byte>)
    ensures HexLower([b] + rest) == [HexDigit(b / 16), HexDigit(b % 16)] + HexLower(rest)
  {
    assert ([b] + rest)[1..] == rest;
  }

  /** Encoding bytes as hex and decoding them again is the identity. */
  lemma {:induction false} UnhexlifyOfHex(b: seq<byte>)
    ensures Unhexlify(HexLower(b)) == Some(b)
    decreases |b|
  {
    if b != [] {
      var h := HexLower(b);
      var hi, lo := b[0] / 16, b[0] % 16;
      assert h[0] == HexDigit(hi) && h[1] == HexDigit(lo) && h[2..] == HexLower(b[1..]);
      assert IsHexChar(h[0]) && HexValue(h[0]) == hi;
      assert IsHexChar(h[1]) && HexValue(h[1]) == lo;
      UnhexlifyOfHex(b[1..]);
      assert (16 * hi + lo) as byte == b[0];
      assert Unhexlify(h) == Some([b[0]] + b[1..]);
      assert [b[0]] + b[1..] == b;
    }
  }

  // ---------------------------------------------------------------------
  // UTF-8
  // ---------------------------------------------------------------------

  /** The UTF-8 encoding of one Unicode scalar value. */
  function Utf8Char(c: char): (r: seq<byte>)
    ensures 1 <= |r| <= 4
    ensures (|r| == 1) <==> (c as int < 128)
    ensures c as int < 128 ==> r == [c as int as byte]
  {
    var n := c as int;
    if n < 0x80 then [n as byte]
    else if n < 0x800 then [(0xC0 + n / 64) as byte, (0x80 + n % 64) as byte]
    else if n < 0x10000 then
      [(0xE0 + n / 4096) as byte, (0x80 + (n / 64) % 64) as byte, (0x80 + n % 64) as byte]
    else
      [(0xF0 + n / 262144) as byte, (0x80 + (n / 4096) % 64) as byte,
       (0x80 + (n / 64) % 64) as byte, (0x80 + n % 64) as byte]
  }

  /** Python's `s.encode('utf-8')`. */
  function Utf8(s: string): (r: seq<byte>)
    ensures |r| >= |s|
  {
    if s == [] then [] else Utf8Char(s[0]) + Utf8(s[1..])
  }

  predicate IsAscii(s: string) {
    forall i :: 0 <= i < |s| ==> s[i] as int < 128
  }

  /** An ASCII string encodes to one byte per character, equal to its code. */
  lemma {:induction false} Utf8Ascii(s: string)
    requires IsAscii(s)
    ensures |Utf8(s)| == |s|
    ensures forall i :: 0 <= i < |s| ==> Utf8(s)[i] == s[i] as int
  {
    if s != [] {
      Utf8Ascii(s[1..]);
    }
  }

  /** Lower-case hex text is ASCII. */
  lemma LowerHexIsAscii(s: string)
    requires IsLowerHex(s)
    ensures IsAscii(s)
  {
  }

  // ---------------------------------------------------------------------
  // Code-point order on strings, as Python's `<=` and `sorted` use it
  // ---------------------------------------------------------------------

  /** Python's `a <= b` on `str`: lexicographic by code point, a prefix first. */
  predicate LexLe(a: string, b: string)
    decreases |a|
  {
    if a == [] then true
    else if b == [] then false
    else if a[0] != b[0] then a[0] < b[0]
    else LexLe(a[1..], b[1..])
  }

  lemma {:induction false} LexLeReflexive(a: string)
    ensures LexLe(a, a)
    decreases |a|
  {
    if a != [] {
      LexLeReflexive(a[1..]);
    }
  }

  lemma {:induction false} LexLeTotal(a: string, b: string)
    ensures LexLe(a, b) || LexLe(b, a)
    decreases |a|
  {
    if a != [] && b != [] && a[0] == b[0] {
      LexLeTotal(a[1..], b[1..]);
    }
  }

  lemma {:induction false} LexLeTransitive(a: string, b: string, c: string)
    requires LexLe(a, b) && LexLe(b, c)
    ensures LexLe(a, c)
    decreases |a|
  {
    if a != [] && b != [] && c != [] && a[0] == b[0] && b[0] == c[0] {
      LexLeTransitive(a[1..], b[1..], c[1..]);
    }
  }

  lemma {:induction false} LexLeAntisymmetric(a: string, b: string)
    requires LexLe(a, b) && LexLe(b, a)
    ensures a == b
    decreases |a|
  {
    if a != [] && b != [] {
      LexLeAntisymmetric(a[1..], b[1..]);
      assert a == [a[0]] + a[1..];
      assert b == [b[0]] + b[1..];
    }
  }

  predicate SortedLex(xs: seq<string>) {
    forall i, j :: 0 <= i < j < |xs| ==> LexLe(xs[i], xs[j])
  }

  /** Inserts `x` before the first element that is greater than it. */
  function InsertLex(x: string, xs: seq<string>): (r: seq<string>)
    ensures |r| == |xs| + 1
    decreases |xs|
  {
    if xs == [] then [x]
    else if LexLe(x, xs[0]) then [x] + xs
    else [xs[0]] + InsertLex(x, xs[1..])
  }

  /** Inserting adds exactly `x`. */
  lemma {:induction false} InsertLexMultiset(x: string, xs: seq<string>)
    ensures multiset(InsertLex(x, xs)) == multiset(xs) + multiset{x}
    decreases |xs|
  {
    if xs != [] {
      assert xs == [xs[0]] + xs[1..];
      if !LexLe(x, xs[0]) {
        InsertLexMultiset(x, xs[1..]);
      }
    }
  }

  /** A lower bound of `x` and of every element of `xs` bounds the result. */
  lemma {:induction false} InsertLexLowerBound(y: string, x: string, xs: seq<string>)
    requires LexLe(y, x)
    requires forall k :: 0 <= k < |xs| ==> LexLe(y, xs[k])
    ensures forall k :: 0 <= k < |InsertLex(x, xs)| ==> LexLe(y, InsertLex(x, xs)[k])
    decreases |xs|
  {
    if xs != [] && !LexLe(x, xs[0]) {
      InsertLexLowerBound(y, x, xs[1..]);
      var r := InsertLex(x, xs);
      assert forall k :: 1 <= k < |r| ==> r[k] == InsertLex(x, xs[1..])[k - 1];
    }
  }

  /** A lower bound of an ascending list can go in front of it. */
  lemma SortedLexCons(y: string, xs: seq<string>)
    requires SortedLex(xs)
    requires forall k :: 0 <= k < |xs| ==> LexLe(y, xs[k])
    ensures SortedLex([y] + xs)
  {
    var r := [y] + xs;
    forall i, j | 0 <= i < j < |r| ensures LexLe(r[i], r[j]) {
      if i > 0 { assert r[i] == xs[i - 1] && r[j] == xs[j - 1]; }
    }
  }

  /** The tail of an ascending list is ascending. */
  lemma SortedLexTail(xs: seq<string>)
    requires xs != [] && SortedLex(xs)
    ensures SortedLex(xs[1..])
  {
    forall i, j | 0 <= i < j < |xs[1..]| ensures LexLe(xs[1..][i], xs[1..][j]) {
      assert xs[1..][i] == xs[i + 1] && xs[1..][j] == xs[j + 1];
    }
  }

  /** Inserting into an ascending list keeps it ascending and adds exactly `x`. */
  lemma {:induction false} InsertLexSpec(x: string, xs: seq<string>)
    requires SortedLex(xs)
    ensures SortedLex(InsertLex(x, xs))
    ensures multiset(InsertLex(x, xs)) == multiset(xs) + multiset{x}
    decreases |xs|
  {
    InsertLexMultiset(x, xs);
    if xs != [] {
      if LexLe(x, xs[0]) {
        forall j | 0 <= j < |xs| ensures LexLe(x, xs[j]) {
          if j > 0 { LexLeTransitive(x, xs[0], xs[j]); }
        }
        SortedLexCons(x, xs);
      } else {
        LexLeTotal(x, xs[0]);
        SortedLexTail(xs);
        InsertLexSpec(x, xs[1..]);
        InsertLexLowerBound(xs[0], x, xs[1..]);
        SortedLexCons(xs[0], InsertLex(x, xs[1..]));
      }
    }
  }

  /** Python's `sorted(xs)` on strings. */
  function SortLex(xs: seq<string>): (r: seq<string>)
    ensures |r| == |xs|
  {
    if xs == [] then [] else InsertLex(xs[0], SortLex(xs[1..]))
  }

  /** `sorted` gives an ascending permutation of its input. */
  lemma {:induction false} SortLexSpec(xs: seq<string>)
    ensures SortedLex(SortLex(xs))
    ensures multiset(SortLex(xs)) == multiset(xs)
    decreases |xs|
  {
    if xs != [] {
      SortLexSpec(xs[1..]);
      InsertLexSpec(xs[0], SortLex(xs[1..]));
      assert xs == [xs[0]] + xs[1..];
    }
  }

  /** The head of an ascending list is below every element of it. */
  lemma HeadIsLeast(a: seq<string>, x: string)
    requires SortedLex(a) && x in a
    ensures LexLe(a[0], x)
  {
    var i :| 0 <= i < |a| && a[i] == x;
    if i == 0 { LexLeReflexive(x); }
  }

  /** Removing equal heads from equal multisets leaves equal multisets. */
  lemma TailMultiset(a: seq<string>, b: seq<string>)
    requires a != [] && b != [] && a[0] == b[0] && multiset(a) == multiset(b)
    ensures multiset(a[1..]) == multiset(b[1..])
  {
    assert a == [a[0]] + a[1..] && b == [b[0]] + b[1..];
    assert multiset(a[1..]) == multiset(a) - multiset{a[0]};
    assert multiset(b[1..]) == multiset(b) - multiset{b[0]};
  }

  /** A sorted permutation is unique: sorting an already ascending list leaves it unchanged. */
  lemma {:induction false} SortedUnique(a: seq<string>, b: seq<string>)
    requires SortedLex(a) && SortedLex(b) && multiset(a) == multiset(b)
    ensures a == b
    decreases |a|
  {
    assert |b| == |a| by { assert |multiset(a)| == |multiset(b)|; }
    if a != [] {
      assert a[0] in multiset(b) && b[0] in multiset(a);
      HeadIsLeast(b, a[0]);
      HeadIsLeast(a, b[0]);
      LexLeAntisymmetric(a[0], b[0]);
      TailMultiset(a, b);
      SortedLexTail(a);
      SortedLexTail(b);
      SortedUnique(a[1..], b[1..]);
      assert a == [a[0]] + a[1..] && b == [b[0]] + b[1..];
    }
  }
}
