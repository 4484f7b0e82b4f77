/**
 * How the encoder and the decoder fit together: reading back what
 * `Serialize` wrote gives the same map, and the result depends on the bytes
 * after the object only through whether they are all whitespace.
 */
module JsonLaws {
  import opened Wrappers
  import opened Utf8
  import opened JsonEncode
  import opened JsonDecode

  /** One escaped character reads back as that character. */
  lemma EscapedCharRoundTrip(c: char, rest: seq<byte>)
    ensures StringChar(EscapeChar(c) + rest) == Some(Parsed(c, rest))
  {
    var e := EscapeChar(c);
    var s := e + rest;
    if c == '"' || c == '\\' || c as int == 0x08 || c as int == 0x09 || c as int == 0x0A
       || c as int == 0x0C || c as int == 0x0D {
      assert s[1..] == [e[1]] + rest;
      assert s[2..] == rest;
    } else if c as int < 0x20 {
      var t := s[1..];
      assert t == [0x75 as byte, 0x30, 0x30, HexDigit(c as int / 16), HexDigit(c as int % 16)] + rest;
      assert t[1..] == [0x30 as byte, 0x30, HexDigit(c as int / 16), HexDigit(c as int % 16)] + rest;
      assert t[1..][4..] == rest;
      assert Hex4(t[1..]) == Some(c as int);
    } else {
      DecodeEncoded(c, rest);
    }
  }

  /** A string body followed by the closing quote reads back as that string. */
  lemma {:induction false} StringBodyRoundTrip(s: string, rest: seq<byte>)
    ensures StringBody(EscapeChars(s) + [QUOTE] + rest) == Some(Parsed(s, rest))
    decreases |s|
  {
    if s == [] {
      assert EscapeChars(s) + [QUOTE] + rest == [QUOTE] + rest;
      assert ([QUOTE] + rest)[1..] == rest;
    } else {
      var tail := EscapeChars(s[1..]) + [QUOTE] + rest;
      assert EscapeChars(s) + [QUOTE] + rest == EscapeChar(s[0]) + tail;
      EscapedCharRoundTrip(s[0], tail);
      StringBodyRoundTrip(s[1..], rest);
      assert [s[0]] + s[1..] == s;
    }
  }

  lemma JsonStringRoundTrip(s: string, rest: seq<byte>)
    ensures JsonString(StringBytes(s) + rest) == Some(Parsed(s, rest))
  {
    assert (StringBytes(s) + rest)[1..] == EscapeChars(s) + [QUOTE] + rest;
    StringBodyRoundTrip(s, rest);
  }

  /** Whitespace skipping stops at the first byte that is not whitespace. */
  lemma SkipWsStops(s: seq<byte>)
    requires |s| > 0 && !IsWs(s[0])
    ensures SkipWs(s) == s
  {
  }

  lemma MemberRoundTrip(p: (string, string), rest: seq<byte>)
    ensures Member(MemberBytes(p) + rest) == Some(Parsed(p, rest))
  {
    var value := StringBytes(p.1) + rest;
    var afterKey := [COLON] + value;
    assert MemberBytes(p) + rest == StringBytes(p.0) + afterKey;
    JsonStringRoundTrip(p.0, afterKey);
    SkipWsStops(afterKey);
    assert afterKey[1..] == value;
    SkipWsStops(value);
    JsonStringRoundTrip(p.1, rest);
  }

  /** Comma-separated members and the closing brace read back as the same pairs, in order. */
  lemma {:induction false} MembersRoundTrip(ps: seq<(string, string)>, rest: seq<byte>)
    requires |ps| > 0
    ensures Members(MembersBytes(ps) + [RBRACE] + rest) == Some(Parsed(ps, rest))
    decreases |ps|
  {
    if |ps| == 1 {
      MemberRoundTrip(ps[0], [RBRACE] + rest);
      MembersStepLast(MemberBytes(ps[0]), ps[0], rest);
      assert [ps[0]] == ps;
    } else {
      var later := MembersBytes(ps[1..]) + [RBRACE] + rest;
      MembersRoundTrip(ps[1..], rest);
      MembersStartWithQuote(ps[1..], [RBRACE] + rest);
      var after := [COMMA] + later;
      MemberRoundTrip(ps[0], after);
      assert after[1..] == later;
      MembersStepNext(MemberBytes(ps[0]) + after, ps[0], after, ps[1..], rest);
      MembersBytesCons(ps, rest);
      assert [ps[0]] + ps[1..] == ps;
    }
  }

  lemma MembersBytesCons(ps: seq<(string, string)>, rest: seq<byte>)
    requires |ps| > 1
    ensures MembersBytes(ps) + [RBRACE] + rest == MemberBytes(ps[0]) + ([COMMA] + (MembersBytes(ps[1..]) + [RBRACE] + rest))
  {
    var a, b := MemberBytes(ps[0]), MembersBytes(ps[1..]);
    assert MembersBytes(ps) == a + [COMMA] + b;
    SeqAssoc(a, b, rest);
  }

  /** Regrouping the concatenation, kept apart from `MembersBytes` so that the solver sees it without that function's definition. */
  lemma SeqAssoc(a: seq<byte>, b: seq<byte>, rest: seq<byte>)
    ensures a + [COMMA] + b + [RBRACE] + rest == a + ([COMMA] + (b + [RBRACE] + rest))
  {
  }

  /** `Members` after a member that the closing brace follows directly. */
  lemma MembersStepLast(mb: seq<byte>, p: (string, string), rest: seq<byte>)
    requires Member(mb + ([RBRACE] + rest)) == Some(Parsed(p, [RBRACE] + rest))
    ensures Members(mb + [RBRACE] + rest) == Some(Parsed([p], rest))
  {
    var after := [RBRACE] + rest;
    assert mb + [RBRACE] + rest == mb + after;
    SkipWsStops(after);
    assert after[1..] == rest;
  }

  /** `Members` after a member that a comma and a further member list follow directly. */
  lemma MembersStepNext(s: seq<byte>, p: (string, string), after: seq<byte>, ps: seq<(string, string)>, rest: seq<byte>)
    requires Member(s) == Some(Parsed(p, after))
    requires |after| > 1 && after[0] == COMMA && after[1] == QUOTE
    requires Members(after[1..]) == Some(Parsed(ps, rest))
    ensures Members(s) == Some(Parsed([p] + ps, rest))
  {
    SkipWsStops(after);
    var r2 := SkipWs(after);
    assert r2 == after && r2[0] == COMMA;
    SkipWsStops(after[1..]);
    assert SkipWs(r2[1..]) == after[1..];
  }

  /** A non-empty member list starts with the quote of its first key. */
  lemma MembersStartWithQuote(ps: seq<(string, string)>, rest: seq<byte>)
    requires |ps| > 0
    ensures |MembersBytes(ps) + rest| > 0 && (MembersBytes(ps) + rest)[0] == QUOTE
  {
  }

  lemma ObjectRoundTrip(ps: seq<(string, string)>, rest: seq<byte>)
    ensures Object(ObjectBytes(ps) + rest) == Some(Parsed(ps, rest))
  {
    var inner := MembersBytes(ps) + [RBRACE] + rest;
    assert ObjectBytes(ps) + rest == [LBRACE] + inner;
    if ps == [] {
      assert inner == [RBRACE] + rest;
      ObjectStep(inner);
      assert inner[1..] == rest;
    } else {
      MembersStartWithQuote(ps, [RBRACE] + rest);
      assert inner == MembersBytes(ps) + ([RBRACE] + rest);
      ObjectStep(inner);
      MembersRoundTrip(ps, rest);
    }
  }

  /** `Object` on an opening brace directly followed by `}` or by a key. */
  lemma ObjectStep(inner: seq<byte>)
    requires |inner| > 0 && (inner[0] == RBRACE || inner[0] == QUOTE)
    ensures Object([LBRACE] + inner) == if inner[0] == RBRACE then Some(Parsed([], inner[1..])) else Members(inner)
  {
    var s := [LBRACE] + inner;
    SkipWsStops(s);
    assert s[1..] == inner;
    SkipWsStops(inner);
  }

  /** Pairs that agree with `m` build the part of `m` whose keys they mention. */
  lemma {:induction false} FromAgreeingPairs(ps: seq<(string, string)>, m: map<string, string>)
    requires forall i :: 0 <= i < |ps| ==> ps[i].0 in m && ps[i].1 == m[ps[i].0]
    ensures forall k :: k in FromPairs(ps) <==> exists i :: 0 <= i < |ps| && ps[i].0 == k
    ensures forall k :: k in FromPairs(ps) ==> FromPairs(ps)[k] == m[k]
    decreases |ps|
  {
    if ps != [] {
      FromAgreeingPairs(ps[1..], m);
      forall k | (exists i :: 0 <= i < |ps| && ps[i].0 == k) ensures k in FromPairs(ps) {
        var i :| 0 <= i < |ps| && ps[i].0 == k;
        if i > 0 { assert ps[1..][i - 1].0 == k; }
      }
      forall k | k in FromPairs(ps) ensures exists i :: 0 <= i < |ps| && ps[i].0 == k {
        if k != ps[0].0 {
          var i :| 0 <= i < |ps[1..]| && ps[1..][i].0 == k;
          assert ps[i + 1].0 == k;
        }
      }
    }
  }

  /** Inserting a map's entries in key order rebuilds the map. */
  lemma FromEntries(m: map<string, string>)
    ensures FromPairs(Entries(m)) == m
  {
    var ps := Entries(m);
    FromAgreeingPairs(ps, m);
  }

  /** `SkipWs` reaches the end exactly when only whitespace is left. */
  lemma {:induction false} SkipWsToEnd(t: seq<byte>)
    ensures SkipWs(t) == [] <==> AllWs(t)
    decreases |t|
  {
    if |t| > 0 && IsWs(t[0]) {
      SkipWsToEnd(t[1..]);
      assert AllWs(t[1..]) ==> AllWs(t) by {
        if AllWs(t[1..]) {
          forall i | 0 <= i < |t| ensures IsWs(t[i]) {
            if i > 0 { assert t[i] == t[1..][i - 1]; }
          }
        }
      }
    }
  }

  /**
   * Reading a serialized map followed by any bytes: the map comes back when
   * the trailing bytes are whitespace, and reading fails otherwise.
   */
  lemma ParseSerialized(m: map<string, string>, tail: seq<byte>)
    ensures Parse(Serialize(m) + tail) == if AllWs(tail) then Some(m) else None
  {
    ObjectRoundTrip(Entries(m), tail);
    SkipWsToEnd(tail);
    FromEntries(m);
  }

  /** The round trip: `from_reader(to_vec(m)) == Ok(m)`. */
  lemma ParseSerializeRoundTrip(m: map<string, string>)
    ensures Parse(Serialize(m)) == Some(m)
  {
    ParseSerialized(m, []);
    assert Serialize(m) + [] == Serialize(m);
  }

  /** An empty file (a newly created one) is not a JSON object. */
  lemma ParseEmptyFails()
    ensures Parse([]) == None
  {
  }
}
