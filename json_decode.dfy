/**
 * What `serde_json::from_reader` accepts as a `BTreeMap<String, String>`:
 * optional whitespace, one JSON object (RFC 8259, section 4) whose member
 * values are all strings (section 7), optional whitespace, end of input.
 * Strings must be valid UTF-8 with no raw control character; escapes are
 * those of section 7, a `\u` escape of a UTF-16 surrogate pair denoting one
 * character and a lone surrogate being an error.  A repeated key keeps its
 * last value, as `BTreeMap::insert` does.  Any deviation gives `None`.
 */
module JsonDecode {
  import opened Wrappers
  import opened Utf8
  import opened JsonEncode

  /** JSON insignificant whitespace: space, tab, line feed, carriage return. */
  predicate IsWs(b: byte) {
    b == 0x20 || b == 0x09 || b == 0x0A || b == 0x0D
  }

  predicate AllWs(s: seq<byte>) {
    forall i :: 0 <= i < |s| ==> IsWs(s[i])
  }

  function SkipWs(s: seq<byte>): (r: seq<byte>)
    ensures |r| <= |s|
    ensures r == [] || !IsWs(r[0])
  {
    if |s| > 0 && IsWs(s[0]) then SkipWs(s[1..]) else s
  }

  /** Value of a hexadecimal digit of either case. */
  function HexValue(b: byte): (r: Option<int>)
    ensures r.Some? ==> 0 <= r.value < 16
  {
    if 0x30 <= b <= 0x39 then Some(b as int - 0x30)
    else if 0x61 <= b <= 0x66 then Some(b as int - 0x61 + 10)
    else if 0x41 <= b <= 0x46 then Some(b as int - 0x41 + 10)
    else None
  }

  /** The 16-bit code unit spelled by the first four bytes of `s`. */
  function Hex4(s: seq<byte>): (r: Option<int>)
    ensures r.Some? ==> |s| >= 4 && 0 <= r.value < 0x1_0000
  {
    if |s| < 4 then None
    else
      var a, b, c, d := HexValue(s[0]), HexValue(s[1]), HexValue(s[2]), HexValue(s[3]);
      if a.Some? && b.Some? && c.Some? && d.Some? then
        Some(a.value * 4096 + b.value * 256 + c.value * 16 + d.value)
      else None
  }

  /** The part of a `\u` escape after the `u`, including a second `\uXXXX` for a surrogate pair. */
  function UnicodeEscape(s: seq<byte>): (r: Option<Parsed<char>>)
    ensures r.Some? ==> |r.value.rest| < |s|
  {
    var u := Hex4(s);
    if u.None? then None
    else if 0xD800 <= u.value < 0xDC00 then
      var lo := if |s| >= 6 && s[4] == BACKSLASH && s[5] == 0x75 then Hex4(s[6..]) else None;
      if lo.Some? && 0xDC00 <= lo.value < 0xE000 then
        Some(Parsed((0x1_0000 + (u.value - 0xD800) * 0x400 + (lo.value - 0xDC00)) as char, s[10..]))
      else None
    else if 0xDC00 <= u.value < 0xE000 then None
    else Some(Parsed(u.value as char, s[4..]))
  }

  /** The part of an escape after the backslash. */
  function Escape(s: seq<byte>): (r: Option<Parsed<char>>)
    ensures r.Some? ==> |r.value.rest| < |s|
  {
    if |s| == 0 then None
    else if s[0] == QUOTE then Some(Parsed('"', s[1..]))
    else if s[0] == BACKSLASH then Some(Parsed('\\', s[1..]))
    else if s[0] == 0x2F then Some(Parsed('/', s[1..]))
    else if s[0] == 0x62 then Some(Parsed(0x08 as char, s[1..]))
    else if s[0] == 0x66 then Some(Parsed(0x0C as char, s[1..]))
    else if s[0] == 0x6E then Some(Parsed(0x0A as char, s[1..]))
    else if s[0] == 0x72 then Some(Parsed(0x0D as char, s[1..]))
    else if s[0] == 0x74 then Some(Parsed(0x09 as char, s[1..]))
    else if s[0] == 0x75 then UnicodeEscape(s[1..])
    else None
  }

  /** One character of a string body (an escape, or a UTF-8 encoded character other than a control character). */
  function StringChar(s: seq<byte>): (r: Option<Parsed<char>>)
    ensures r.Some? ==> |r.value.rest| < |s|
  {
    if |s| == 0 then None
    else if s[0] == BACKSLASH then Escape(s[1..])
    else if s[0] < 0x20 then None
    else DecodeChar(s)
  }

  /** The characters of a string body up to and including its closing quote. */
  function StringBody(s: seq<byte>): (r: Option<Parsed<string>>)
    ensures r.Some? ==> |r.value.rest| < |s|
    decreases |s|
  {
    if |s| == 0 then None
    else if s[0] == QUOTE then Some(Parsed([], s[1..]))
    else
      var c := StringChar(s);
      if c.None? then None
      else
        var more := StringBody(c.value.rest);
        if more.None? then None
        else Some(Parsed([c.value.value] + more.value.value, more.value.rest))
  }

  /** A JSON string. */
  function JsonString(s: seq<byte>): (r: Option<Parsed<string>>)
    ensures r.Some? ==> |r.value.rest| < |s|
  {
    if |s| == 0 || s[0] != QUOTE then None else StringBody(s[1..])
  }

  /** One `key : value` member, whitespace allowed around the colon. */
  function Member(s: seq<byte>): (r: Option<Parsed<(string, string)>>)
    ensures r.Some? ==> |r.value.rest| < |s|
  {
    var key := JsonString(s);
    if key.None? then None
    else
      var r2 := SkipWs(key.value.rest);
      if |r2| == 0 || r2[0] != COLON then None
      else
        var value := JsonString(SkipWs(r2[1..]));
        if value.None? then None
        else Some(Parsed((key.value.value, value.value.value), value.value.rest))
  }

  /** Members separated by commas, up to and including the closing brace (no trailing comma). */
  function Members(s: seq<byte>): (r: Option<Parsed<seq<(string, string)>>>)
    ensures r.Some? ==> |r.value.rest| < |s|
    decreases |s|
  {
    var first := Member(s);
    if first.None? then None
    else
      var r2 := SkipWs(first.value.rest);
      if |r2| == 0 then None
      else if r2[0] == RBRACE then Some(Parsed([first.value.value], r2[1..]))
      else if r2[0] == COMMA then
        var more := Members(SkipWs(r2[1..]));
        if more.None? then None
        else Some(Parsed([first.value.value] + more.value.value, more.value.rest))
      else None
  }

  /** A JSON object of string members, after leading whitespace. */
  function Object(s: seq<byte>): (r: Option<Parsed<seq<(string, string)>>>)
    ensures r.Some? ==> |r.value.rest| < |s|
  {
    var s1 := SkipWs(s);
    if |s1| == 0 || s1[0] != LBRACE then None
    else
      var s2 := SkipWs(s1[1..]);
      if |s2| > 0 && s2[0] == RBRACE then Some(Parsed([], s2[1..]))
      else Members(s2)
  }

  /** The map the members build when inserted left to right: a later key wins. */
  function FromPairs(ps: seq<(string, string)>): map<string, string> {
    if ps == [] then map[] else map[ps[0].0 := ps[0].1] + FromPairs(ps[1..])
  }

  /** `serde_json::from_reader` at type `BTreeMap<String, String>`; `None` is any error. */
  function Parse(s: seq<byte>): Option<map<string, string>> {
    var obj := Object(s);
    if obj.Some? && SkipWs(obj.value.rest) == [] then Some(FromPairs(obj.value.value)) else None
  }
}
