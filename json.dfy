/**
 * The already-parsed JSON that `response.json()` hands to the extractors,
 * with the Python operations the source applies to it: `dict.get`, `for`
 * iteration, `x[0]`, hashing as a dict key, and `str()` inside f-strings.
 * Every operation reports the exception Python would raise on a value of
 * the wrong shape.
 */
module Json {
  import opened Wrappers
  import Text

  /** A JSON value; an object keeps its members in document order. */
  datatype Json =
    | Null
    | Bool(b: bool)
    | Num(n: int)
    | Str(s: string)
    | Arr(items: seq<Json>)
    | Obj(fields: seq<(string, Json)>)

  datatype PyError = AttributeError | TypeError | KeyError | IndexError

  /** The value of the last member named `key`, as `json.loads` keeps it. */
  function Lookup(fields: seq<(string, Json)>, key: string): Option<Json>
    decreases |fields|
  {
    if fields == [] then None
    else if fields[|fields| - 1].0 == key then Some(fields[|fields| - 1].1)
    else Lookup(fields[..|fields| - 1], key)
  }

  /** The lookup finds the key exactly when some member has it, and then
      yields the value of the last member with that key. */
  lemma {:induction false} LookupSpec(fields: seq<(string, Json)>, key: string)
    ensures Lookup(fields, key).None? <==> forall i :: 0 <= i < |fields| ==> fields[i].0 != key
    ensures Lookup(fields, key).Some? ==>
      exists i :: (0 <= i < |fields| && fields[i] == (key, Lookup(fields, key).value) &&
        forall j :: i < j < |fields| ==> fields[j].0 != key)
    decreases |fields|
  {
    if fields != [] && fields[|fields| - 1].0 != key {
      var init := fields[..|fields| - 1];
      LookupSpec(init, key);
      assert forall i :: 0 <= i < |init| ==> init[i] == fields[i];
      if Lookup(fields, key).Some? {
        var i :| 0 <= i < |init| && init[i] == (key, Lookup(init, key).value) &&
          forall j :: i < j < |init| ==> init[j].0 != key;
        assert fields[i] == (key, Lookup(fields, key).value);
      }
    }
  }

  /** Python's `d.get(key, default)`; only a dict has `.get`. */
  function Get(d: Json, key: string, default: Json): (r: Result<Json, PyError>)
    ensures r.Err? <==> !d.Obj?
  {
    if !d.Obj? then Err(AttributeError)
    else match Lookup(d.fields, key)
      case Some(v) => Ok(v)
      case None => Ok(default)
  }

  /** The elements a `for` loop visits: an array's items, a string's
      characters, an object's keys; other values are not iterable. */
  function Iter(j: Json): (r: Result<seq<Json>, PyError>)
    ensures r.Err? <==> (j.Null? || j.Bool? || j.Num?)
    ensures j.Arr? ==> r == Ok(j.items)
  {
    match j
    case Arr(items) => Ok(items)
    case Str(s) => Ok(seq(|s|, i requires 0 <= i < |s| => Str([s[i]])))
    case Obj(fields) => Ok(seq(|fields|, i requires 0 <= i < |fields| => Str(fields[i].0)))
    case _ => Err(TypeError)
  }

  /** Python's `x[0]` on a JSON value (object keys are strings, so `0` is never one). */
  function First(j: Json): (r: Result<Json, PyError>)
    ensures r.Ok? <==> (j.Arr? && |j.items| > 0) || (j.Str? && |j.s| > 0)
  {
    match j
    case Arr(items) => if |items| > 0 then Ok(items[0]) else Err(IndexError)
    case Str(s) => if |s| > 0 then Ok(Str([s[0]])) else Err(IndexError)
    case Obj(_) => Err(KeyError)
    case _ => Err(TypeError)
  }

  /** Lists and dicts cannot be dictionary keys. */
  predicate Hashable(j: Json) {
    !j.Arr? && !j.Obj?
  }

  function DigitChar(d: nat): char
    requires d < 10
  {
    (('0' as int) + d) as char
  }

  predicate IsDigit(c: char) {
    '0' <= c <= '9'
  }

  /** The number a string of decimal digits denotes. */
  function DecimalValue(s: string): nat
    requires forall i :: 0 <= i < |s| ==> IsDigit(s[i])
    decreases |s|
  {
    if s == [] then 0
    else
      assert IsDigit(s[|s| - 1]);
      10 * DecimalValue(s[..|s| - 1]) + ((s[|s| - 1] as int) - ('0' as int))
  }

  /** `str(n)` for a non-negative integer: decimal digits, with no leading
      zero. */
  function NatToString(n: nat): (r: string)
    ensures |r| >= 1 && forall i :: 0 <= i < |r| ==> IsDigit(r[i])
    ensures r[0] == '0' ==> r == "0"
  {
    if n < 10 then [DigitChar(n)] else NatToString(n / 10) + [DigitChar(n % 10)]
  }

  /** The digits `str(n)` writes denote `n`. */
  lemma {:induction false} NatToStringValue(n: nat)
    ensures DecimalValue(NatToString(n)) == n
    decreases n
  {
    if n >= 10 {
      var r := NatToString(n / 10);
      var s := NatToString(n);
      assert s[..|s| - 1] == r;
      NatToStringValue(n / 10);
    }
  }

  /** Different numbers are written differently. */
  lemma NatToStringInjective(a: nat, b: nat)
    ensures NatToString(a) == NatToString(b) ==> a == b
  {
    NatToStringValue(a);
    NatToStringValue(b);
  }

  function IntToString(n: int): string {
    if n < 0 then "-" + NatToString(-n) else NatToString(n)
  }

  /** Python's `str(x)` as an f-string renders a JSON value. */
  function PyStr(j: Json): string {
    if j.Str? then j.s else Repr(j)
  }

  // ---------------------------------------------------------------------
  // `repr` of a string
  // ---------------------------------------------------------------------

  lemma HexValueOfDigit(d: nat)
    requires d < 16
    ensures Text.IsHexChar(Text.HexDigit(d)) && Text.HexValue(Text.HexDigit(d)) == d
  {
  }

  /** A character `repr` writes as `\xhh`: the C0 controls and DEL, and the
      non-printable characters of Latin-1 (the C1 controls, the no-break
      space and the soft hyphen). `\t`, `\n` and `\r` have their own
      escapes. */
  predicate IsHexEscaped(c: char) {
    c != '\t' && c != '\n' && c != '\r' &&
    ((c as int) < 0x20 || 0x7f <= (c as int) <= 0xa0 || (c as int) == 0xad)
  }

  /** The quote `repr` puts around `s`: a double quote when `s` holds a
      single quote and no double quote, a single quote otherwise. */
  function QuoteOf(s: string): (q: char)
    ensures q == '\'' || q == '"'
  {
    if '\'' in s && '"' !in s then '"' else '\''
  }

  /** How `repr` writes one character inside a literal quoted with `q`. */
  function EscapeChar(c: char, q: char): (r: string)
    ensures 1 <= |r| <= 4
  {
    if c == q || c == '\\' then ['\\', c]
    else if c == '\t' then "\\t"
    else if c == '\n' then "\\n"
    else if c == '\r' then "\\r"
    else if IsHexEscaped(c) then ['\\', 'x', Text.HexDigit((c as int) / 16), Text.HexDigit((c as int) % 16)]
    else [c]
  }

  function Escaped(s: string, q: char): string
    decreases |s|
  {
    if s == [] then [] else EscapeChar(s[0], q) + Escaped(s[1..], q)
  }

  /** Python's `repr(s)` of a string. */
  function ReprStr(s: string): (r: string)
    ensures |r| >= 2 && r[0] == QuoteOf(s) && r[|r| - 1] == QuoteOf(s)
  {
    [QuoteOf(s)] + Escaped(s, QuoteOf(s)) + [QuoteOf(s)]
  }

  function Prepend(c: char, rest: Option<string>): Option<string> {
    match rest
    case None => None
    case Some(t) => Some([c] + t)
  }

  /** Reads the body of a string literal back, by Python's rules for the
      escapes `repr` writes; `None` for any other backslash sequence. */
  function Unescape(t: string): Option<string>
    decreases |t|
  {
    if t == [] then Some([])
    else if t[0] != '\\' then Prepend(t[0], Unescape(t[1..]))
    else if |t| < 2 then None
    else if t[1] == '\\' || t[1] == '\'' || t[1] == '"' then Prepend(t[1], Unescape(t[2..]))
    else if t[1] == 't' then Prepend('\t', Unescape(t[2..]))
    else if t[1] == 'n' then Prepend('\n', Unescape(t[2..]))
    else if t[1] == 'r' then Prepend('\r', Unescape(t[2..]))
    else if t[1] == 'x' && |t| >= 4 && Text.IsHexChar(t[2]) && Text.IsHexChar(t[3]) then
      Prepend((16 * Text.HexValue(t[2]) + Text.HexValue(t[3])) as char, Unescape(t[4..]))
    else None
  }

  /** Reading back one escaped character. */
  lemma UnescapeChar(c: char, q: char, t: string)
    requires q == '\'' || q == '"'
    ensures Unescape(EscapeChar(c, q) + t) == Prepend(c, Unescape(t))
  {
    var e := EscapeChar(c, q);
    var u := e + t;
    if |e| == 1 {
      assert u[0] == c && u[1..] == t;
    } else if |e| == 2 {
      assert u[0] == '\\' && u[1] == e[1] && u[2..] == t;
    } else {
      var hi, lo := (c as int) / 16, (c as int) % 16;
      HexValueOfDigit(hi);
      HexValueOfDigit(lo);
      assert u[0] == '\\' && u[1] == 'x' && u[2] == Text.HexDigit(hi) && u[3] == Text.HexDigit(lo) && u[4..] == t;
      assert 16 * hi + lo == c as int;
    }
  }

  /** The escaped body reads back as the original text. */
  lemma {:induction false} UnescapeEscaped(s: string, q: char)
    requires q == '\'' || q == '"'
    ensures Unescape(Escaped(s, q)) == Some(s)
    decreases |s|
  {
    if s != [] {
      UnescapeChar(s[0], q, Escaped(s[1..], q));
      UnescapeEscaped(s[1..], q);
      assert [s[0]] + s[1..] == s;
    }
  }

  /** Inside the quotes `repr` writes, a quote character or a backslash
      occurs only as part of an escape: the literal ends at its closing quote. */
  lemma {:induction false} EscapedBareChars(s: string, q: char)
    requires q == '\'' || q == '"'
    ensures forall i :: 0 <= i < |Escaped(s, q)| && Escaped(s, q)[i] == q ==>
      i > 0 && Escaped(s, q)[i - 1] == '\\'
    decreases |s|
  {
    if s != [] {
      var e, rest := EscapeChar(s[0], q), Escaped(s[1..], q);
      EscapedBareChars(s[1..], q);
      var t := Escaped(s, q);
      assert t == e + rest;
      forall i | 0 <= i < |t| && t[i] == q
        ensures i > 0 && t[i - 1] == '\\'
      {
        if i < |e| {
          assert e[i] == q;
          assert e == ['\\', s[0]] && i == 1;
        } else {
          var j := i - |e|;
          assert rest[j] == q;
          assert j > 0 && rest[j - 1] == '\\';
          assert t[i - 1] == rest[j - 1];
        }
      }
    }
  }

  /** `repr` of a string is a literal that reads back as the string. */
  lemma ReprStrRoundTrip(s: string)
    ensures var r := ReprStr(s); Unescape(r[1..|r| - 1]) == Some(s)
  {
    var r := ReprStr(s);
    assert r[1..|r| - 1] == Escaped(s, QuoteOf(s));
    UnescapeEscaped(s, QuoteOf(s));
  }

  /** A text with no quote, no backslash and nothing to escape is written
      between single quotes as it is. */
  lemma {:induction false} ReprStrPlain(s: string)
    requires forall i :: 0 <= i < |s| ==>
      s[i] != '\'' && s[i] != '\\' && s[i] != '\t' && s[i] != '\n' && s[i] != '\r' && !IsHexEscaped(s[i])
    ensures ReprStr(s) == "'" + s + "'"
  {
    EscapedPlain(s);
  }

  lemma {:induction false} EscapedPlain(s: string)
    requires forall i :: 0 <= i < |s| ==>
      s[i] != '\'' && s[i] != '\\' && s[i] != '\t' && s[i] != '\n' && s[i] != '\r' && !IsHexEscaped(s[i])
    ensures Escaped(s, '\'') == s
    decreases |s|
  {
    if s != [] {
      EscapedPlain(s[1..]);
      assert [s[0]] + s[1..] == s;
    }
  }

  /** Python's `repr(x)` of a JSON value. */
  function Repr(j: Json): string
    decreases j
  {
    match j
    case Null => "None"
    case Bool(b) => if b then "True" else "False"
    case Num(n) => IntToString(n)
    case Str(s) => ReprStr(s)
    case Arr(items) => "[" + JoinComma(seq(|items|, i requires 0 <= i < |items| => Repr(items[i]))) + "]"
    case Obj(fields) =>
      "{" + JoinComma(seq(|fields|, i requires 0 <= i < |fields| =>
        assert fields[i] in fields;
        ReprStr(fields[i].0) + ": " + Repr(fields[i].1))) + "}"
  }

  function JoinComma(parts: seq<string>): string {
    if parts == [] then ""
    else if |parts| == 1 then parts[0]
    else parts[0] + ", " + JoinComma(parts[1..])
  }
}
