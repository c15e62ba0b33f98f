/**
 * The utf-7-imap4 codec (imapIO/utf_7_imap4.py): the mailbox-name encoding
 * of section 5.1.3 of RFC 3501.
 *
 * Encode copies printable ASCII other than '&' through, writes '&' as "&-"
 * and writes each maximal run of the remaining characters as '&', the run's
 * modified base64 and '-'. Decode reads it back with a two-state machine:
 * outside a run, or inside a run opened by '&' and closed by '-'.
 */
module Utf7Imap {
  import opened Wrappers
  import opened ModifiedBase64

  const CodecName: string := "utf-7-imap4"

  /** The characters encode copies through: 0x20-0x25 and 0x27-0x7E. */
  predicate Passthrough(c: char) {
    (' ' <= c <= '%') || ('\'' <= c <= '~')
  }

  /** Every character is exactly one of: copied through, '&', or buffered. */
  lemma Classification(c: char)
    ensures Passthrough(c) || c == '&' || Buffered(c)
    ensures !(Passthrough(c) && Buffered(c)) && !(c == '&' && (Passthrough(c) || Buffered(c)))
  {
  }

  /** process(units) of encode: the group written for a pending run. */
  function Flush(run: string): string {
    if run == [] then [] else "&" + EncodeMb64(run) + "-"
  }

  /** Length of the maximal prefix of buffered characters. */
  function RunLength(s: string): (k: nat)
    ensures k <= |s|
    ensures forall i :: 0 <= i < k ==> Buffered(s[i])
    ensures k < |s| ==> !Buffered(s[k])
  {
    if s == [] || !Buffered(s[0]) then 0 else 1 + RunLength(s[1..])
  }

  /** What encode writes for a character that is not buffered: itself, or "&-" for '&'. */
  function Single(c: char): string {
    if Passthrough(c) then [c] else "&-"
  }

  /** Reference encoding: one group for each maximal run of buffered characters. */
  function EncodeRef(s: string): string
    decreases |s|
  {
    if s == [] then []
    else if !Buffered(s[0]) then Single(s[0]) + EncodeRef(s[1..])
    else
      var k := RunLength(s);
      Flush(s[..k]) + EncodeRef(s[k..])
  }

  /** process(units) as the source writes it, with encode_mb64 as written. */
  function FlushAsWritten(run: string): (r: string)
    requires forall i :: 0 <= i < |run| ==> Buffered(run[i])
    ensures run != [] ==> |r| >= 2 && r[0] == '&' && r[|r| - 1] == '-'
  {
    if run == [] then [] else "&" + EncodeMb64AsWritten(run) + "-"
  }

  /** encode as the source writes it: EncodeRef with each group written by FlushAsWritten. */
  function EncodeRefAsWritten(s: string): (r: string)
    ensures |s| == 0 <==> |r| == 0
    decreases |s|
  {
    if s == [] then []
    else if !Buffered(s[0]) then Single(s[0]) + EncodeRefAsWritten(s[1..])
    else
      var k := RunLength(s);
      FlushAsWritten(s[..k]) + EncodeRefAsWritten(s[k..])
  }

  /** A maximal run at the front of s is flushed as one group before the rest is encoded. */
  lemma EncodeRun(s: string, m: nat)
    requires m <= |s|
    requires forall i :: 0 <= i < m ==> Buffered(s[i])
    requires m < |s| ==> !Buffered(s[m])
    ensures EncodeRef(s) == Flush(s[..m]) + EncodeRef(s[m..])
  {
    assert RunLength(s) == m;
    if m == 0 {
      assert s[m..] == s;
    }
  }

  /** The pending run s[j..i] ends at a character that is not buffered. */
  lemma EncodeRunAt(s: string, j: nat, i: nat)
    requires j <= i < |s|
    requires forall k :: j <= k < i ==> Buffered(s[k])
    requires !Buffered(s[i])
    ensures EncodeRef(s[j..]) == Flush(s[j..i]) + EncodeRef(s[i..])
  {
    var rest := s[j..];
    var m := i - j;
    assert rest[..m] == s[j..i];
    assert rest[m..] == s[i..];
    EncodeRun(rest, m);
  }

  /** A character that is not buffered is encoded on its own. */
  lemma EncodeHeadAt(s: string, i: nat)
    requires i < |s|
    requires !Buffered(s[i])
    ensures EncodeRef(s[i..]) == Single(s[i]) + EncodeRef(s[i + 1..])
  {
    var u := s[i..];
    assert u[0] == s[i] && u[1..] == s[i + 1..];
  }

  /** One step of encode at a character that ends the pending run s[j..i]. */
  lemma EncodeStep(s: string, j: nat, i: nat, results: string, encodes: string)
    requires j <= i < |s| && encodes == s[j..i]
    requires forall k :: 0 <= k < |encodes| ==> Buffered(encodes[k])
    requires !Buffered(s[i])
    requires results + EncodeRef(s[j..]) == EncodeRef(s)
    ensures results + Flush(encodes) + Single(s[i]) + EncodeRef(s[i + 1..]) == EncodeRef(s)
  {
    assert forall k :: j <= k < i ==> s[k] == encodes[k - j];
    EncodeRunAt(s, j, i);
    EncodeHeadAt(s, i);
    Chain(results, EncodeRef(s[j..]), Flush(s[j..i]), EncodeRef(s[i..]),
      Single(s[i]), EncodeRef(s[i + 1..]), EncodeRef(s));
  }

  /** Equational glue: substitute two unfoldings into a prefix equation. */
  lemma Chain(r: string, x: string, f: string, y: string, h: string, z: string, t: string)
    requires r + x == t && x == f + y && y == h + z
    ensures r + f + h + z == t
  {
    assert r + (f + (h + z)) == r + f + h + z;
  }

  /** A pending run grows by one buffered character. */
  lemma GrowRun(s: string, j: nat, i: nat, encodes: string)
    requires j <= i < |s| && encodes == s[j..i]
    requires forall k :: 0 <= k < |encodes| ==> Buffered(encodes[k])
    requires Buffered(s[i])
    ensures s[j..i + 1] == encodes + [s[i]]
    ensures forall k :: 0 <= k < |encodes + [s[i]]| ==> Buffered((encodes + [s[i]])[k])
  {
  }

  /** A new, empty pending run starts after position i. */
  lemma NewRun(s: string, i: nat)
    requires i < |s|
    ensures s[i + 1..i + 1] == []
  {
  }

  /** A text of buffered characters only is one group. */
  lemma EncodeWholeRun(r: string)
    requires forall k :: 0 <= k < |r| ==> Buffered(r[k])
    ensures EncodeRef(r) == Flush(r)
  {
    EncodeRun(r, |r|);
    assert r[..|r|] == r;
    assert r[|r|..] == [];
    assert Flush(r) + [] == Flush(r);
  }

  /** At the end of the input the pending run s[j..] is flushed as the last group. */
  lemma EncodeTail(s: string, j: nat, results: string, encodes: string)
    requires j <= |s| && encodes == s[j..|s|]
    requires forall k :: 0 <= k < |encodes| ==> Buffered(encodes[k])
    requires results + EncodeRef(s[j..]) == EncodeRef(s)
    ensures results + Flush(encodes) == EncodeRef(s)
  {
    assert s[j..] == s[j..|s|];
    EncodeWholeRun(s[j..]);
  }

  /** encode: returns the encoded text and the number of characters consumed. */
  method Encode(s: string) returns (r: string, consumed: nat)
    ensures r == EncodeRef(s)
    ensures consumed == |s|
  {
    var results: string := [];
    var encodes: string := [];
    ghost var j: nat := 0;
    assert s[0..] == s;
    for i := 0 to |s|
      invariant j <= i
      invariant encodes == s[j..i]
      invariant forall k :: 0 <= k < |encodes| ==> Buffered(encodes[k])
      invariant results + EncodeRef(s[j..]) == EncodeRef(s)
    {
      var c := s[i];
      Classification(c);
      if Passthrough(c) {
        EncodeStep(s, j, i, results, encodes);
        NewRun(s, i);
        results := results + Flush(encodes) + [c];
        encodes := [];
        j := i + 1;
      } else if c == '&' {
        EncodeStep(s, j, i, results, encodes);
        NewRun(s, i);
        results := results + Flush(encodes) + "&-";
        encodes := [];
        j := i + 1;
      } else {
        GrowRun(s, j, i, encodes);
        encodes := encodes + [c];
      }
    }
    EncodeTail(s, j, results, encodes);
    results := results + Flush(encodes);
    return results, |s|;
  }

  /** Concatenation of two partial results; fails when either fails. */
  function Then(a: Option<string>, b: Option<string>): (r: Option<string>)
    ensures r.Some? <==> a.Some? && b.Some?
    ensures r.Some? ==> r.value == a.value + b.value
  {
    if a.None? || b.None? then None else Some(a.value + b.value)
  }

  /** The empty prefix is a unit of Then. */
  lemma ThenNil(b: Option<string>)
    ensures Then(Some([]), b) == b
  {
    if b.Some? {
      assert [] + b.value == b.value;
    }
  }

  lemma ThenAssoc(a: string, b: string, c: Option<string>)
    ensures Then(Some(a), Then(Some(b), c)) == Then(Some(a + b), c)
  {
    if c.Some? {
      assert a + (b + c.value) == (a + b) + c.value;
    }
  }

  /**
   * process(units) of decode for units '&' + payload: a run holding only
   * '&' is a literal '&'; otherwise the payload is modified base64.
   */
  function Piece(payload: string): Option<string> {
    if payload == [] then Some("&") else DecodeMb64(payload)
  }

  /** Reference decoding outside a run. */
  function DecodeFrom(t: string): Option<string>
    decreases |t|, 1
  {
    if t == [] then Some([])
    else if t[0] == '&' then DecodeOpen([], t[1..])
    else Then(Some([t[0]]), DecodeFrom(t[1..]))
  }

  /** Reference decoding inside a run that has collected payload so far. */
  function DecodeOpen(payload: string, t: string): Option<string>
    decreases |t|, 0
  {
    if t == [] then Piece(payload)
    else if t[0] == '-' then Then(Piece(payload), DecodeFrom(t[1..]))
    else DecodeOpen(payload + [t[0]], t[1..])
  }

  /** decode: the decoded text and the number of characters consumed, or None where Python raises. */
  method Decode(s: string) returns (r: Option<(string, nat)>)
    ensures DecodeFrom(s).Some? ==> r == Some((DecodeFrom(s).value, |s|))
    ensures DecodeFrom(s).None? ==> r.None?
  {
    var results: string := [];
    var decodes: string := [];
    assert s[0..] == s;
    ThenNil(DecodeFrom(s));
    for i := 0 to |s|
      invariant decodes == [] ==> Then(Some(results), DecodeFrom(s[i..])) == DecodeFrom(s)
      invariant decodes != [] ==>
        decodes[0] == '&' && Then(Some(results), DecodeOpen(decodes[1..], s[i..])) == DecodeFrom(s)
    {
      var c := s[i];
      assert s[i..][0] == c && s[i..][1..] == s[i + 1..];
      if c == '&' && decodes == [] {
        decodes := ['&'];
      } else if c == '-' && decodes != [] {
        var piece := Piece(decodes[1..]);
        if piece.None? {
          return None;
        }
        ThenAssoc(results, piece.value, DecodeFrom(s[i + 1..]));
        results := results + piece.value;
        decodes := [];
      } else if decodes != [] {
        assert (decodes + [c])[1..] == decodes[1..] + [c];
        decodes := decodes + [c];
      } else {
        ThenAssoc(results, [c], DecodeFrom(s[i + 1..]));
        results := results + [c];
      }
    }
    assert s[|s|..] == [];
    if decodes != [] {
      var piece := Piece(decodes[1..]);
      if piece.None? {
        return None;
      }
      results := results + piece.value;
    } else {
      assert results + [] == results;
    }
    return Some((results, |s|));
  }

  /** The codec search function registered by the module: it answers only to its own name. */
  datatype CodecInfo = CodecInfo(name: string)

  function LookupCodec(name: string): (r: Option<CodecInfo>)
    ensures r.Some? <==> name == CodecName
    ensures r.Some? ==> r.value.name == name
  {
    if name == CodecName then Some(CodecInfo(CodecName)) else None
  }
}
