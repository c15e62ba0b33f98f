/**
 * Modified base64 of section 5.1.3 of RFC 3501 (imapIO/utf_7_imap4.py,
 * encode_mb64 and decode_mb64): base64 over UTF-16BE with ',' in place of
 * '/', no padding and no '+' ... '-' shift wrapper.
 */
module ModifiedBase64 {
  import opened Wrappers
  import Base64
  import Utf16
  import Text

  predicate IsMb64Symbol(c: char) {
    'A' <= c <= 'Z' || 'a' <= c <= 'z' || '0' <= c <= '9' || c == '+' || c == ','
  }

  /** Standard unpadded base64 of the UTF-16BE bytes of s. */
  function StandardBase64(s: string): (r: string)
    ensures |r| == 0 <==> |s| == 0
    ensures forall i :: 0 <= i < |r| ==> Base64.IsSymbol(r[i])
  {
    Base64.Encode(Utf16.EncodeBytes(s))
  }

  /** The modified base64 of a run of characters. */
  function EncodeMb64(s: string): (r: string)
    ensures |r| == 0 <==> |s| == 0
    ensures forall i :: 0 <= i < |r| ==> IsMb64Symbol(r[i])
  {
    Text.ReplaceChar(StandardBase64(s), '/', ',')
  }

  /**
   * decode_mb64: ',' back to '/', then base64 and UTF-16BE decoding. A
   * payload that is not base64 of well-formed UTF-16BE is refused, where
   * Python's UTF-7 decoder raises.
   */
  function DecodeMb64(s: string): (r: Option<string>)
    ensures |s| % 4 == 1 ==> r.None?
    ensures r.Some? ==> forall i :: 0 <= i < |s| ==> IsMb64Symbol(s[i]) || s[i] == '/'
  {
    var bytes :- Base64.Decode(Text.ReplaceChar(s, ',', '/'));
    Utf16.DecodeBytes(bytes)
  }

  /** ',' stands exactly where standard base64 has '/', and nothing else differs. */
  lemma CommaForSlash(s: string)
    ensures |EncodeMb64(s)| == |StandardBase64(s)|
    ensures forall i :: 0 <= i < |EncodeMb64(s)| ==>
      (EncodeMb64(s)[i] == ',' <==> StandardBase64(s)[i] == '/') &&
      (StandardBase64(s)[i] != '/' ==> EncodeMb64(s)[i] == StandardBase64(s)[i])
  {
  }

  /** decode_mb64 inverts encode_mb64 on every string. */
  lemma DecodeEncodeMb64(s: string)
    ensures DecodeMb64(EncodeMb64(s)) == Some(s)
  {
    var std := StandardBase64(s);
    assert ',' !in std by {
      forall i | 0 <= i < |std| ensures std[i] != ',' {
        assert Base64.IsSymbol(std[i]);
      }
    }
    Text.ReplaceCharBack(std, '/', ',');
    Base64.DecodeEncode(Utf16.EncodeBytes(s));
    Utf16.DecodeEncodeBytes(s);
  }

  // ---- encode_mb64 as written: Python's UTF-7 encoder followed by the [1:-1] slice ----

  /**
   * The characters that Python's UTF-7 encoder writes directly although the
   * IMAP encoder buffers them: tab, line feed and carriage return (UTF-7
   * writes white space directly).
   */
  predicate DirectInUtf7(c: char) {
    c == '\t' || c == '\n' || c == '\r'
  }

  /** Characters the IMAP encoder buffers: everything outside 0x20-0x7E. */
  predicate Buffered(c: char) {
    !(' ' <= c <= '~')
  }

  /** Length of the maximal prefix that Python's UTF-7 encoder base64-encodes. */
  function ShiftLength(r: string): (k: nat)
    ensures k <= |r|
    ensures forall i :: 0 <= i < k ==> !DirectInUtf7(r[i])
    ensures k < |r| ==> DirectInUtf7(r[k])
  {
    if r == [] || DirectInUtf7(r[0]) then 0 else 1 + ShiftLength(r[1..])
  }

  /**
   * r.encode('utf-7') in Python 2.7 for a string of buffered characters:
   * direct characters are copied, each maximal stretch of the others is
   * written as '+' and base64 of its UTF-16BE bytes, and a '-' closes the
   * stretch only at the end of the input (a following tab, CR or LF ends the
   * shift implicitly).
   */
  function PythonUtf7(r: string): (u: string)
    requires forall i :: 0 <= i < |r| ==> Buffered(r[i])
    ensures r == [] <==> u == []
    ensures r != [] && DirectInUtf7(r[0]) ==> u[0] == r[0]
    ensures r != [] && !DirectInUtf7(r[0]) ==> u[0] == '+'
    ensures (forall i :: 0 <= i < |r| ==> !DirectInUtf7(r[i])) ==> u == [] || u == "+" + StandardBase64(r) + "-"
    decreases |r|
  {
    if r == [] then []
    else if DirectInUtf7(r[0]) then [r[0]] + PythonUtf7(r[1..])
    else
      var k := ShiftLength(r);
      assert (forall i :: 0 <= i < |r| ==> !DirectInUtf7(r[i])) ==> k == |r| && r[..k] == r && r[k..] == [];
      "+" + StandardBase64(r[..k]) + (if k == |r| then "-" else "") + PythonUtf7(r[k..])
  }

  /** Python's s[1:-1]. */
  function Inner(u: string): (r: string)
    ensures |u| >= 2 ==> r == u[1..|u| - 1]
    ensures |u| < 2 ==> r == []
  {
    if |u| < 2 then [] else u[1..|u| - 1]
  }

  /** encode_mb64 as the source writes it (lines 60-62). */
  function EncodeMb64AsWritten(r: string): (e: string)
    requires forall i :: 0 <= i < |r| ==> Buffered(r[i])
    ensures '/' !in e
    ensures |e| == |Inner(PythonUtf7(r))|
  {
    Text.ReplaceChar(Inner(PythonUtf7(r)), '/', ',')
  }

  /** A lone tab vanishes: Python's UTF-7 writes it directly and the slice cuts it away. */
  lemma TabEncodesToNothing()
    ensures EncodeMb64AsWritten("\t") == ""
  {
    assert PythonUtf7("\t") == "\t" + PythonUtf7([]);
  }

  /** Without tab, CR or LF, the code as written computes the modified base64. */
  lemma AsWrittenAgrees(r: string)
    requires forall i :: 0 <= i < |r| ==> Buffered(r[i]) && !DirectInUtf7(r[i])
    ensures EncodeMb64AsWritten(r) == EncodeMb64(r)
  {
    if r != [] {
      var u := PythonUtf7(r);
      assert u == "+" + StandardBase64(r) + "-";
      assert Inner(u) == StandardBase64(r);
    }
  }
}
