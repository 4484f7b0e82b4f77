/**
 * The bytes `serde_json::to_vec` produces for a `BTreeMap<String, String>`:
 * a compact JSON object (RFC 8259, section 4) with no whitespace, its
 * members in key order, each key and value a JSON string (section 7) with
 * serde_json's escapes.
 */
module JsonEncode {
  import opened Utf8
  import KeyOrder

  const QUOTE: byte := 0x22       // "
  const BACKSLASH: byte := 0x5C   // \
  const COLON: byte := 0x3A       // :
  const COMMA: byte := 0x2C       // ,
  const LBRACE: byte := 0x7B      // {
  const RBRACE: byte := 0x7D      // }

  /** Lower-case hexadecimal digit, as serde_json writes it. */
  function HexDigit(d: int): (r: byte)
    requires 0 <= d < 16
    ensures d < 10 ==> r as int == 0x30 + d
    ensures d >= 10 ==> r as int == 0x61 + d - 10
  {
    if d < 10 then (0x30 + d) as byte else (0x61 + d - 10) as byte
  }

  /**
   * One character inside a JSON string: `"` and `\` and the control
   * characters below U+0020 are escaped (the five with a short form as
   * `\b \t \n \f \r`, the rest as `\u00XX`); every other character is
   * written as its UTF-8 bytes.
   */
  function EscapeChar(c: char): (r: seq<byte>)
    ensures |r| >= 1 && r[0] != QUOTE
    ensures r[0] == BACKSLASH <==> (c == '"' || c == '\\' || c as int < 0x20)
  {
    if c == '"' then [BACKSLASH, QUOTE]
    else if c == '\\' then [BACKSLASH, BACKSLASH]
    else if c as int == 0x08 then [BACKSLASH, 0x62]
    else if c as int == 0x09 then [BACKSLASH, 0x74]
    else if c as int == 0x0A then [BACKSLASH, 0x6E]
    else if c as int == 0x0C then [BACKSLASH, 0x66]
    else if c as int == 0x0D then [BACKSLASH, 0x72]
    else if c as int < 0x20 then
      [BACKSLASH, 0x75, 0x30, 0x30, HexDigit(c as int / 16), HexDigit(c as int % 16)]
    else EncodeChar(c)
  }

  function EscapeChars(s: string): seq<byte> {
    if s == [] then [] else EscapeChar(s[0]) + EscapeChars(s[1..])
  }

  /** A JSON string: the escaped characters between two quotes. */
  function StringBytes(s: string): seq<byte> {
    [QUOTE] + EscapeChars(s) + [QUOTE]
  }

  /** One object member, `"key":"value"`. */
  function MemberBytes(p: (string, string)): seq<byte> {
    StringBytes(p.0) + [COLON] + StringBytes(p.1)
  }

  /** Members separated by commas. */
  function MembersBytes(ps: seq<(string, string)>): seq<byte> {
    if |ps| == 0 then []
    else if |ps| == 1 then MemberBytes(ps[0])
    else MemberBytes(ps[0]) + [COMMA] + MembersBytes(ps[1..])
  }

  function ObjectBytes(ps: seq<(string, string)>): seq<byte> {
    [LBRACE] + MembersBytes(ps) + [RBRACE]
  }

  /** The pairs `(k, m[k])` for the keys `ks`, in that order. */
  function PairsOf(m: map<string, string>, ks: seq<string>): (r: seq<(string, string)>)
    requires forall i :: 0 <= i < |ks| ==> ks[i] in m
    ensures |r| == |ks|
    ensures forall i :: 0 <= i < |r| ==> r[i] == (ks[i], m[ks[i]])
  {
    if ks == [] then [] else [(ks[0], m[ks[0]])] + PairsOf(m, ks[1..])
  }

  /** The map's entries in the order a `BTreeMap` iterates them. */
  function Entries(m: map<string, string>): (r: seq<(string, string)>)
    ensures |r| == |m|
    ensures forall i :: 0 <= i < |r| ==> r[i].0 in m && r[i].1 == m[r[i].0]
    ensures forall k :: k in m ==> exists i :: 0 <= i < |r| && r[i].0 == k
    ensures forall i, j :: 0 <= i < j < |r| ==> KeyOrder.Less(r[i].0, r[j].0)
  {
    var ks := KeyOrder.SortedKeys(m.Keys);
    PairsOfSorted(m, ks);
    PairsOf(m, ks)
  }

  lemma PairsOfSorted(m: map<string, string>, ks: seq<string>)
    requires |ks| == |m.Keys|
    requires forall k :: k in m.Keys <==> k in ks
    requires forall i, j :: 0 <= i < j < |ks| ==> KeyOrder.Less(ks[i], ks[j])
    ensures forall i :: 0 <= i < |ks| ==> ks[i] in m
    ensures |PairsOf(m, ks)| == |m|
    ensures forall k :: k in m ==> exists i :: 0 <= i < |ks| && PairsOf(m, ks)[i].0 == k
    ensures forall i, j :: 0 <= i < j < |ks| ==> KeyOrder.Less(PairsOf(m, ks)[i].0, PairsOf(m, ks)[j].0)
  {
    assert forall i :: 0 <= i < |ks| ==> ks[i] in m;
    var r := PairsOf(m, ks);
    assert |m.Keys| == |m|;
    forall k | k in m ensures exists i :: 0 <= i < |ks| && r[i].0 == k {
      var i :| 0 <= i < |ks| && ks[i] == k;
      assert r[i].0 == k;
    }
  }

  /**
   * `serde_json::to_vec(&data)` for the store's map: one JSON object, so it
   * opens with `{` and ends with `}`.
   */
  function Serialize(m: map<string, string>): (r: seq<byte>)
    ensures |r| >= 2 && r[0] == LBRACE && r[|r| - 1] == RBRACE
  {
    ObjectBytes(Entries(m))
  }
}
