/**
  * UTF-8 encoding of one character and checked decoding of the character
  * that starts at a byte offset. The lexer reads identifier characters with
  * this decoder and emits `\u` escapes with this encoder.
  */
module Utf8 {
  import opened Wrappers
  import opened Utils

  /** A character decoded from the source and the number of bytes it occupies. */
  datatype Decoded = Decoded(ch: char, len: nat)

  predicate IsScalar(cp: int) {
    (0 <= cp < 0xD800) || (0xE000 <= cp < 0x11_0000)
  }

  predicate IsContinuation(b: byte) {
    0x80 <= b < 0xC0
  }

  function Encode(ch: char): (r: Str)
    ensures 1 <= |r| <= 4
    ensures |r| == 1 <==> ch as int < 0x80
  {
    var cp := ch as int;
    if cp < 0x80 then [cp as byte]
    else if cp < 0x800 then
      [(0xC0 + cp / 64) as byte, (0x80 + cp % 64) as byte]
    else if cp < 0x1_0000 then
      [(0xE0 + cp / 4096) as byte, (0x80 + cp / 64 % 64) as byte, (0x80 + cp % 64) as byte]
    else
      [(0xF0 + cp / 262144) as byte, (0x80 + cp / 4096 % 64) as byte,
       (0x80 + cp / 64 % 64) as byte, (0x80 + cp % 64) as byte]
  }

  /**
    * The character whose encoding starts at offset `i`, or None at the end of
    * the source or where the bytes there are not well-formed UTF-8.
    */
  function DecodeAt(s: Str, i: nat): (r: Option<Decoded>)
    ensures r.Some? ==> 1 <= r.value.len <= 4 && i + r.value.len <= |s|
  {
    if i >= |s| then None
    else
      var b0 := s[i] as int;
      if b0 < 0x80 then Some(Decoded(b0 as char, 1))
      else if 0xC2 <= b0 < 0xE0 then
        if i + 1 < |s| && IsContinuation(s[i + 1]) then
          Some(Decoded(((b0 - 0xC0) * 64 + (s[i + 1] as int - 0x80)) as char, 2))
        else None
      else if 0xE0 <= b0 < 0xF0 then
        if i + 2 < |s| && IsContinuation(s[i + 1]) && IsContinuation(s[i + 2]) then
          var cp := (b0 - 0xE0) * 4096 + (s[i + 1] as int - 0x80) * 64 + (s[i + 2] as int - 0x80);
          if 0x800 <= cp && IsScalar(cp) then Some(Decoded(cp as char, 3)) else None
        else None
      else if 0xF0 <= b0 < 0xF5 then
        if i + 3 < |s| && IsContinuation(s[i + 1]) && IsContinuation(s[i + 2]) && IsContinuation(s[i + 3]) then
          var cp := (b0 - 0xF0) * 262144 + (s[i + 1] as int - 0x80) * 4096
                    + (s[i + 2] as int - 0x80) * 64 + (s[i + 3] as int - 0x80);
          if 0x1_0000 <= cp < 0x11_0000 then Some(Decoded(cp as char, 4)) else None
        else None
      else None
  }

  /** Decoding the encoding of a character gives that character back, whatever follows it. */
  lemma DecodeEncode(ch: char, rest: Str)
    ensures DecodeAt(Encode(ch) + rest, 0) == Some(Decoded(ch, |Encode(ch)|))
  {
    var cp := ch as int;
    if cp < 0x80 {
      assert (Encode(ch) + rest)[0] == cp as byte;
    } else if cp < 0x800 {
      DecodeEncodeTwo(ch, rest);
    } else if cp < 0x1_0000 {
      DecodeEncodeThree(ch, rest);
    } else {
      DecodeEncodeFour(ch, rest);
    }
  }

  lemma DecodeEncodeTwo(ch: char, rest: Str)
    requires 0x80 <= ch as int < 0x800
    ensures DecodeAt(Encode(ch) + rest, 0) == Some(Decoded(ch, 2))
  {
    var cp := ch as int;
    var e := Encode(ch);
    var s := e + rest;
    assert s[0] == e[0] && s[1] == e[1];
    assert (cp / 64) * 64 + cp % 64 == cp;
  }

  lemma DecodeEncodeThree(ch: char, rest: Str)
    requires 0x800 <= ch as int < 0x1_0000
    ensures DecodeAt(Encode(ch) + rest, 0) == Some(Decoded(ch, 3))
  {
    var cp := ch as int;
    var e := Encode(ch);
    var s := e + rest;
    assert s[0] == e[0] && s[1] == e[1] && s[2] == e[2];
    assert (cp / 4096) * 4096 + (cp / 64 % 64) * 64 + cp % 64 == cp;
  }

  lemma DecodeEncodeFour(ch: char, rest: Str)
    requires 0x1_0000 <= ch as int
    ensures DecodeAt(Encode(ch) + rest, 0) == Some(Decoded(ch, 4))
  {
    var cp := ch as int;
    var b0, b1, b2, b3 := cp / 262144, cp / 4096 % 64, cp / 64 % 64, cp % 64;
    assert cp == cp / 64 * 64 + b3;
    assert cp / 64 == cp / 4096 * 64 + b2;
    assert cp / 4096 == b0 * 64 + b1;
    assert b0 < 5 by {
      assert b0 * 262144 <= cp < 0x11_0000;
    }
    var e := Encode(ch);
    assert e == [(0xF0 + b0) as byte, (0x80 + b1) as byte, (0x80 + b2) as byte, (0x80 + b3) as byte];
    var s := e + rest;
    assert s[0] as int - 0xF0 == b0 && s[1] as int - 0x80 == b1;
    assert s[2] as int - 0x80 == b2 && s[3] as int - 0x80 == b3;
  }

  /** Division by 64 undoes the packing of a 6-bit group. */
  lemma Unpack64(hi: int, lo: int)
    requires 0 <= hi && 0 <= lo < 64
    ensures (hi * 64 + lo) / 64 == hi && (hi * 64 + lo) % 64 == lo
  {
  }

  lemma EncodeDecode2(s: Str, i: nat)
    requires DecodeAt(s, i).Some? && DecodeAt(s, i).value.len == 2
    ensures Encode(DecodeAt(s, i).value.ch) == s[i..i + 2]
  {
    var cp := DecodeAt(s, i).value.ch as int;
    Unpack64(s[i] as int - 0xC0, s[i + 1] as int - 0x80);
  }

  lemma EncodeDecode3(s: Str, i: nat)
    requires DecodeAt(s, i).Some? && DecodeAt(s, i).value.len == 3
    ensures Encode(DecodeAt(s, i).value.ch) == s[i..i + 3]
  {
    var cp := DecodeAt(s, i).value.ch as int;
    var hi := (s[i] as int - 0xE0) * 64 + (s[i + 1] as int - 0x80);
    assert cp == hi * 64 + (s[i + 2] as int - 0x80);
    Unpack64(hi, s[i + 2] as int - 0x80);
    Unpack64(s[i] as int - 0xE0, s[i + 1] as int - 0x80);
    assert cp / 4096 == hi / 64 by {
      assert cp / 64 == hi;
    }
  }

  lemma EncodeDecode4(s: Str, i: nat)
    requires DecodeAt(s, i).Some? && DecodeAt(s, i).value.len == 4
    ensures Encode(DecodeAt(s, i).value.ch) == s[i..i + 4]
  {
    var cp := DecodeAt(s, i).value.ch as int;
    var top := (s[i] as int - 0xF0) * 64 + (s[i + 1] as int - 0x80);
    var mid := top * 64 + (s[i + 2] as int - 0x80);
    assert cp == mid * 64 + (s[i + 3] as int - 0x80);
    Unpack64(mid, s[i + 3] as int - 0x80);
    Unpack64(top, s[i + 2] as int - 0x80);
    Unpack64(s[i] as int - 0xF0, s[i + 1] as int - 0x80);
    assert cp / 4096 == top by { assert cp / 64 == mid; }
    assert cp / 262144 == s[i] as int - 0xF0 by { assert cp / 64 / 64 / 64 == s[i] as int - 0xF0; }
  }

  /** Whatever the decoder accepts is exactly the encoding of the character it returns. */
  lemma EncodeDecode(s: Str, i: nat)
    requires DecodeAt(s, i).Some?
    ensures Encode(DecodeAt(s, i).value.ch) == s[i..i + DecodeAt(s, i).value.len]
  {
    var d := DecodeAt(s, i).value;
    if d.len == 2 { EncodeDecode2(s, i); }
    else if d.len == 3 { EncodeDecode3(s, i); }
    else if d.len == 4 { EncodeDecode4(s, i); }
  }
}
