/**
 * Base64 as in section 4 of RFC 4648, without the '=' padding: the final
 * partial group is written with its unused low bits set to zero and no
 * padding characters, which is the form the UTF-7 codec emits inside a
 * shift sequence.
 */
module Base64 {
  import opened Wrappers

  type Byte = x: int | 0 <= x < 256

  predicate IsSymbol(c: char) {
    'A' <= c <= 'Z' || 'a' <= c <= 'z' || '0' <= c <= '9' || c == '+' || c == '/'
  }

  /** The character of the base64 alphabet with value v. */
  function Symbol(v: int): (c: char)
    requires 0 <= v < 64
    ensures IsSymbol(c)
  {
    if v < 26 then ('A' as int + v) as char
    else if v < 52 then ('a' as int + v - 26) as char
    else if v < 62 then ('0' as int + v - 52) as char
    else if v == 62 then '+'
    else '/'
  }

  /** The value of an alphabet character; None for any other character. */
  function ValueOf(c: char): (r: Option<int>)
    ensures r.Some? <==> IsSymbol(c)
    ensures r.Some? ==> 0 <= r.value < 64 && Symbol(r.value) == c
  {
    if 'A' <= c <= 'Z' then Some(c as int - 'A' as int)
    else if 'a' <= c <= 'z' then Some(c as int - 'a' as int + 26)
    else if '0' <= c <= '9' then Some(c as int - '0' as int + 52)
    else if c == '+' then Some(62)
    else if c == '/' then Some(63)
    else None
  }

  lemma ValueOfSymbol(v: int)
    requires 0 <= v < 64
    ensures ValueOf(Symbol(v)) == Some(v)
  {
  }

  /** The four symbols of a full group of three bytes. */
  function EncodeTriple(x: Byte, y: Byte, z: Byte): string
  {
    [Symbol(x / 4), Symbol(x % 4 * 16 + y / 16), Symbol(y % 16 * 4 + z / 64), Symbol(z % 64)]
  }

  /** The symbols of a final group of one or two bytes. */
  function EncodeTail(bs: seq<Byte>): string
    requires 1 <= |bs| <= 2
  {
    if |bs| == 1 then [Symbol(bs[0] / 4), Symbol(bs[0] % 4 * 16)]
    else [Symbol(bs[0] / 4), Symbol(bs[0] % 4 * 16 + bs[1] / 16), Symbol(bs[1] % 16 * 4)]
  }

  /** Unpadded base64 of a byte string. */
  function Encode(bs: seq<Byte>): (r: string)
    ensures |r| == 0 <==> |bs| == 0
    ensures forall i :: 0 <= i < |r| ==> IsSymbol(r[i])
    decreases |bs|
  {
    if |bs| == 0 then ""
    else if |bs| < 3 then EncodeTail(bs)
    else EncodeTriple(bs[0], bs[1], bs[2]) + Encode(bs[3..])
  }

  /** The three bytes of a full group of four symbols. */
  function DecodeQuad(s: string): (r: Option<seq<Byte>>)
    requires |s| == 4
    ensures r.Some? <==> IsSymbol(s[0]) && IsSymbol(s[1]) && IsSymbol(s[2]) && IsSymbol(s[3])
    ensures r.Some? ==> |r.value| == 3
  {
    var a :- ValueOf(s[0]);
    var b :- ValueOf(s[1]);
    var c :- ValueOf(s[2]);
    var d :- ValueOf(s[3]);
    Some([a * 4 + b / 16, b % 16 * 16 + c / 4, c % 4 * 64 + d])
  }

  /**
   * The bytes of a final group of two or three symbols; the unused low bits
   * must be zero.
   */
  function DecodeTail(s: string): (r: Option<seq<Byte>>)
    requires 2 <= |s| <= 3
    ensures r.Some? ==> forall i :: 0 <= i < |s| ==> IsSymbol(s[i])
    ensures r.Some? ==> |r.value| == |s| - 1
  {
    var a :- ValueOf(s[0]);
    var b :- ValueOf(s[1]);
    if |s| == 2 then
      if b % 16 == 0 then Some([a * 4 + b / 16]) else None
    else
      var c :- ValueOf(s[2]);
      if c % 4 == 0 then Some([a * 4 + b / 16, b % 16 * 16 + c / 4]) else None
  }

  /**
   * Strict decoding of unpadded base64: every character must belong to the
   * alphabet, a final group of one character is refused, and the unused
   * bits of a final partial group must be zero.
   */
  function Decode(s: string): (r: Option<seq<Byte>>)
    ensures |s| % 4 == 1 ==> r.None?
    ensures r.Some? ==> forall i :: 0 <= i < |s| ==> IsSymbol(s[i])
    decreases |s|
  {
    if |s| == 0 then Some([])
    else if |s| == 1 then None
    else if |s| < 4 then DecodeTail(s)
    else
      var group :- DecodeQuad(s[..4]);
      var rest :- Decode(s[4..]);
      assert forall i :: 4 <= i < |s| ==> s[i] == s[4..][i - 4];
      Some(group + rest)
  }

  lemma DecodeTriple(x: Byte, y: Byte, z: Byte)
    ensures DecodeQuad(EncodeTriple(x, y, z)) == Some([x, y, z])
  {
    var a, b, c, d := x / 4, x % 4 * 16 + y / 16, y % 16 * 4 + z / 64, z % 64;
    ValueOfSymbol(a);
    ValueOfSymbol(b);
    ValueOfSymbol(c);
    ValueOfSymbol(d);
    assert a * 4 + b / 16 == x;
    assert b % 16 * 16 + c / 4 == y;
    assert c % 4 * 64 + d == z;
  }

  lemma DecodeEncodeTail(bs: seq<Byte>)
    requires 1 <= |bs| <= 2
    ensures DecodeTail(EncodeTail(bs)) == Some(bs)
  {
    var x := bs[0];
    ValueOfSymbol(x / 4);
    if |bs| == 1 {
      ValueOfSymbol(x % 4 * 16);
      assert (x % 4 * 16) % 16 == 0 && x / 4 * 4 + (x % 4 * 16) / 16 == x;
      assert bs == [x];
    } else {
      var y := bs[1];
      var b, c := x % 4 * 16 + y / 16, y % 16 * 4;
      ValueOfSymbol(b);
      ValueOfSymbol(c);
      assert c % 4 == 0 && x / 4 * 4 + b / 16 == x && b % 16 * 16 + c / 4 == y;
      assert bs == [x, y];
    }
  }

  lemma DecodeConcat(g: string, t: string)
    requires |g| == 4 && DecodeQuad(g).Some? && Decode(t).Some?
    ensures Decode(g + t) == Some(DecodeQuad(g).value + Decode(t).value)
  {
    var e := g + t;
    assert e[..4] == g && e[4..] == t;
  }

  /** Decoding inverts encoding. */
  lemma {:induction false} DecodeEncode(bs: seq<Byte>)
    ensures Decode(Encode(bs)) == Some(bs)
    decreases |bs|
  {
    if |bs| == 0 {
    } else if |bs| < 3 {
      DecodeEncodeTail(bs);
    } else {
      DecodeEncode(bs[3..]);
      DecodeEncodeGroup(bs);
    }
  }

  /** The step of DecodeEncode for a full leading group of three bytes. */
  lemma DecodeEncodeGroup(bs: seq<Byte>)
    requires |bs| >= 3 && Decode(Encode(bs[3..])) == Some(bs[3..])
    ensures Decode(Encode(bs)) == Some(bs)
  {
    SplitGroup(bs);
    var g := EncodeTriple(bs[0], bs[1], bs[2]);
    assert Encode(bs) == g + Encode(bs[3..]);
    DecodeTriple(bs[0], bs[1], bs[2]);
    DecodeConcat(g, Encode(bs[3..]));
  }

  lemma SplitGroup(bs: seq<Byte>)
    requires |bs| >= 3
    ensures bs == [bs[0], bs[1], bs[2]] + bs[3..]
  {
  }
}
