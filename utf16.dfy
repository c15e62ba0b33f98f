/**
 * UTF-16 in big-endian byte order, the text form that the UTF-7 codec
 * base64-encodes. Dafny characters are Unicode scalar values, so every
 * string is free of unpaired surrogates by construction.
 */
module Utf16 {
  import opened Wrappers
  import opened Base64

  type CodeUnit = x: int | 0 <= x < 0x1_0000

  predicate IsHighSurrogate(u: CodeUnit) { 0xD800 <= u < 0xDC00 }
  predicate IsLowSurrogate(u: CodeUnit) { 0xDC00 <= u < 0xE000 }

  /** The one or two code units of a character. */
  function EncodeChar(c: char): (r: seq<CodeUnit>)
    ensures |r| == 1 || |r| == 2
    ensures |r| == 1 <==> c as int < 0x1_0000
    ensures |r| == 1 ==> r[0] == c as int && !IsHighSurrogate(r[0]) && !IsLowSurrogate(r[0])
    ensures |r| == 2 ==> IsHighSurrogate(r[0]) && IsLowSurrogate(r[1])
  {
    if c as int < 0x1_0000 then [c as int]
    else
      var v := c as int - 0x1_0000;
      [0xD800 + v / 0x400, 0xDC00 + v % 0x400]
  }

  function Encode(s: string): (r: seq<CodeUnit>)
    ensures |r| == 0 <==> |s| == 0
  {
    if s == [] then [] else EncodeChar(s[0]) + Encode(s[1..])
  }

  /** Decoding refuses a low surrogate without a high one before it and a high surrogate without a low one after it. */
  function Decode(us: seq<CodeUnit>): Option<string>
    decreases |us|
  {
    if us == [] then Some([])
    else if IsLowSurrogate(us[0]) then None
    else if IsHighSurrogate(us[0]) then
      if |us| < 2 || !IsLowSurrogate(us[1]) then None
      else
        var c := (0x1_0000 + (us[0] as int - 0xD800) * 0x400 + (us[1] as int - 0xDC00)) as char;
        var rest :- Decode(us[2..]);
        Some([c] + rest)
    else
      var rest :- Decode(us[1..]);
      Some([us[0] as char] + rest)
  }

  lemma DecodeEncodeChar(c: char, t: seq<CodeUnit>)
    requires Decode(t).Some?
    ensures Decode(EncodeChar(c) + t) == Some([c] + Decode(t).value)
  {
    var e := EncodeChar(c) + t;
    if c as int < 0x1_0000 {
      assert e[1..] == t;
    } else {
      var v := c as int - 0x1_0000;
      assert 0x1_0000 + (v / 0x400) * 0x400 + v % 0x400 == c as int;
      assert e[2..] == t;
    }
  }

  /** Decoding inverts encoding. */
  lemma {:induction false} DecodeEncode(s: string)
    ensures Decode(Encode(s)) == Some(s)
  {
    if s != [] {
      DecodeEncode(s[1..]);
      DecodeEncodeChar(s[0], Encode(s[1..]));
      assert s == [s[0]] + s[1..];
    }
  }

  /** Big-endian serialisation: the high byte of each code unit first. */
  function ToBytes(us: seq<CodeUnit>): (r: seq<Byte>)
    ensures |r| == 2 * |us|
  {
    if us == [] then [] else [us[0] / 0x100, us[0] % 0x100] + ToBytes(us[1..])
  }

  /** Reads pairs of bytes back into code units; an odd byte count is refused. */
  function FromBytes(bs: seq<Byte>): Option<seq<CodeUnit>>
    decreases |bs|
  {
    if bs == [] then Some([])
    else if |bs| == 1 then None
    else
      var rest :- FromBytes(bs[2..]);
      Some([bs[0] as int * 0x100 + bs[1] as int] + rest)
  }

  lemma {:induction false} FromToBytes(us: seq<CodeUnit>)
    ensures FromBytes(ToBytes(us)) == Some(us)
  {
    if us != [] {
      var b := ToBytes(us);
      assert b[2..] == ToBytes(us[1..]);
      FromToBytes(us[1..]);
      assert us == [us[0]] + us[1..];
    }
  }

  /** UTF-16BE bytes of a string. */
  function EncodeBytes(s: string): (r: seq<Byte>)
    ensures |r| == 0 <==> |s| == 0
  {
    ToBytes(Encode(s))
  }

  function DecodeBytes(bs: seq<Byte>): Option<string>
  {
    var us :- FromBytes(bs);
    Decode(us)
  }

  /** Every string survives the trip through UTF-16BE bytes. */
  lemma DecodeEncodeBytes(s: string)
    ensures DecodeBytes(EncodeBytes(s)) == Some(s)
  {
    FromToBytes(Encode(s));
    DecodeEncode(s);
  }
}
