/**
 * Bytes and the UTF-8 encoding of one character: the way a Rust `String`
 * reaches a file.  A character is a Unicode scalar value (Dafny's `char`).
 */
module Utf8 {
  import opened Wrappers

  newtype byte = b: int | 0 <= b < 256

  /** What a scanner returns: the value it read and the bytes after it. */
  datatype Parsed<+T> = Parsed(value: T, rest: seq<byte>)

  predicate IsContinuation(b: byte) {
    0x80 <= b < 0xC0
  }

  /** The UTF-8 bytes of one scalar value (1 to 4 bytes, shortest form). */
  function EncodeChar(c: char): (r: seq<byte>)
    ensures 1 <= |r| <= 4
    ensures (c as int < 0x80) == (|r| == 1)
    ensures |r| == 1 ==> r[0] as int == c as int
    ensures |r| > 1 ==> r[0] >= 0xC2
  {
    var cp := c as int;
    if cp < 0x80 then
      [cp as byte]
    else if cp < 0x800 then
      [(0xC0 + cp / 64) as byte, (0x80 + cp % 64) as byte]
    else if cp < 0x1_0000 then
      [(0xE0 + cp / 4096) as byte, (0x80 + cp / 64 % 64) as byte, (0x80 + cp % 64) as byte]
    else
      [(0xF0 + cp / 262144) as byte, (0x80 + cp / 4096 % 64) as byte,
       (0x80 + cp / 64 % 64) as byte, (0x80 + cp % 64) as byte]
  }

  /**
   * Reads one UTF-8 encoded scalar value from the front of `s`, rejecting
   * stray continuation bytes, truncated sequences, overlong forms,
   * surrogates and values above U+10FFFF (as Rust's `str::from_utf8` does).
   */
  function DecodeChar(s: seq<byte>): (r: Option<Parsed<char>>)
    ensures r.Some? ==> |r.value.rest| < |s|
  {
    if |s| == 0 then None
    else if s[0] < 0x80 then
      Some(Parsed(s[0] as int as char, s[1..]))
    else if 0xC2 <= s[0] < 0xE0 then
      if |s| >= 2 && IsContinuation(s[1]) then
        Some(Parsed(((s[0] as int - 0xC0) * 64 + (s[1] as int - 0x80)) as char, s[2..]))
      else None
    else if 0xE0 <= s[0] < 0xF0 then
      if |s| >= 3 && IsContinuation(s[1]) && IsContinuation(s[2]) then
        var cp := (s[0] as int - 0xE0) * 4096 + (s[1] as int - 0x80) * 64 + (s[2] as int - 0x80);
        if cp < 0x800 || 0xD800 <= cp < 0xE000 then None
        else Some(Parsed(cp as char, s[3..]))
      else None
    else if 0xF0 <= s[0] < 0xF5 then
      if |s| >= 4 && IsContinuation(s[1]) && IsContinuation(s[2]) && IsContinuation(s[3]) then
        var cp := (s[0] as int - 0xF0) * 262144 + (s[1] as int - 0x80) * 4096
                  + (s[2] as int - 0x80) * 64 + (s[3] as int - 0x80);
        if cp < 0x1_0000 || cp >= 0x11_0000 then None
        else Some(Parsed(cp as char, s[4..]))
      else None
    else None
  }

  /** Decoding the encoding of `c` gives `c` back and consumes exactly its bytes. */
  lemma DecodeEncoded(c: char, rest: seq<byte>)
    ensures DecodeChar(EncodeChar(c) + rest) == Some(Parsed(c, rest))
  {
    var cp := c as int;
    var e := EncodeChar(c);
    var s := e + rest;
    if cp < 0x80 {
      assert s[1..] == rest;
    } else if cp < 0x800 {
      assert s[2..] == rest;
      assert (cp / 64) * 64 + cp % 64 == cp;
    } else if cp < 0x1_0000 {
      assert s[3..] == rest;
      assert s[0] as int == 0xE0 + cp / 4096 && s[1] as int == 0x80 + cp / 64 % 64 && s[2] as int == 0x80 + cp % 64;
      Split3(cp);
    } else {
      assert s[4..] == rest;
      assert s[0] as int == 0xF0 + cp / 262144 && s[1] as int == 0x80 + cp / 4096 % 64;
      assert s[2] as int == 0x80 + cp / 64 % 64 && s[3] as int == 0x80 + cp % 64;
      Split4(cp);
    }
  }

  lemma Split3(cp: int)
    requires 0 <= cp
    ensures (cp / 4096) * 4096 + (cp / 64 % 64) * 64 + cp % 64 == cp
  {
    assert cp == (cp / 64) * 64 + cp % 64;
    assert cp / 64 == (cp / 64 / 64) * 64 + cp / 64 % 64;
    assert cp / 64 / 64 == cp / 4096;
  }

  lemma Split4(cp: int)
    requires 0 <= cp
    ensures (cp / 262144) * 262144 + (cp / 4096 % 64) * 4096 + (cp / 64 % 64) * 64 + cp % 64 == cp
  {
    Split3(cp);
    assert cp / 4096 == (cp / 4096 / 64) * 64 + cp / 4096 % 64;
    assert cp / 4096 / 64 == cp / 262144;
  }
}
