/**
 * Properties of the utf-7-imap4 codec, stated on the reference functions
 * that Utf7Imap.Encode and Utf7Imap.Decode are proved to compute.
 */
module Utf7ImapLaws {
  import opened Wrappers
  import opened ModifiedBase64
  import opened Utf7Imap

  /** Inside an open run, payload characters other than '-' are collected in order. */
  lemma {:induction false} CollectPayload(p: string, m: string, rest: string)
    requires '-' !in m
    ensures DecodeOpen(p, m + rest) == DecodeOpen(p + m, rest)
    decreases |m|
  {
    if m == [] {
      assert m + rest == rest;
      assert p + m == p;
    } else {
      assert (m + rest)[0] == m[0] && (m + rest)[1..] == m[1..] + rest;
      CollectPayload(p + [m[0]], m[1..], rest);
      assert p + [m[0]] + m[1..] == p + m;
    }
  }

  /** Modified base64 never contains the '-' that closes a run. */
  lemma NoDashInMb64(r: string)
    ensures '-' !in EncodeMb64(r)
  {
    var m := EncodeMb64(r);
    forall i | 0 <= i < |m| ensures m[i] != '-' {
      assert IsMb64Symbol(m[i]);
    }
  }

  /** Opening '&' of a run. */
  lemma OpenRun(x: string)
    ensures DecodeFrom("&" + x) == DecodeOpen([], x)
  {
    assert ("&" + x)[0] == '&' && ("&" + x)[1..] == x;
  }

  /** Closing '-' of a run. */
  lemma CloseRun(p: string, rest: string)
    ensures DecodeOpen(p, "-" + rest) == Then(Piece(p), DecodeFrom(rest))
  {
    assert ("-" + rest)[0] == '-' && ("-" + rest)[1..] == rest;
  }

  lemma Regroup(m: string, rest: string)
    ensures "&" + m + "-" + rest == "&" + (m + ("-" + rest))
  {
  }

  /** One group written for a non-empty buffered run decodes back to the run. */
  lemma DecodeGroup(run: string, rest: string)
    requires run != []
    ensures DecodeFrom(Flush(run) + rest) == Then(Some(run), DecodeFrom(rest))
  {
    var m := EncodeMb64(run);
    assert Flush(run) == "&" + m + "-";
    NoDashInMb64(run);
    DecodeEncodeMb64(run);
    Regroup(m, rest);
    OpenRun(m + ("-" + rest));
    CollectPayload([], m, "-" + rest);
    assert [] + m == m;
    CloseRun(m, rest);
  }

  /** What is written for a character that is not buffered decodes back to it. */
  lemma DecodeSingle(c: char, rest: string)
    requires !Buffered(c)
    ensures DecodeFrom(Single(c) + rest) == Then(Some([c]), DecodeFrom(rest))
  {
    var t := Single(c) + rest;
    if Passthrough(c) {
      assert t[0] == c && t[1..] == rest;
    } else {
      assert c == '&';
      assert t[0] == '&' && t[1..] == "-" + rest;
      assert ("-" + rest)[0] == '-' && ("-" + rest)[1..] == rest;
    }
  }

  /** Round trip: decoding the encoding of any text gives the text back. */
  lemma {:induction false} RoundTrip(s: string)
    ensures DecodeFrom(EncodeRef(s)) == Some(s)
    decreases |s|
  {
    if s == [] {
    } else if !Buffered(s[0]) {
      RoundTrip(s[1..]);
      RoundTripHead(s);
    } else {
      var k := RunLength(s);
      RoundTrip(s[k..]);
      RoundTripRun(s, k);
    }
  }

  /** The round-trip step for a text that starts with a character written directly or as "&-". */
  lemma RoundTripHead(s: string)
    requires s != [] && !Buffered(s[0])
    requires DecodeFrom(EncodeRef(s[1..])) == Some(s[1..])
    ensures DecodeFrom(EncodeRef(s)) == Some(s)
  {
    var e := EncodeRef(s[1..]);
    EncodeHeadAt(s, 0);
    assert s[0..] == s;
    DecodeSingle(s[0], e);
    assert [s[0]] + s[1..] == s;
  }

  /** The round-trip step for a text that starts with a buffered run of length k. */
  lemma RoundTripRun(s: string, k: nat)
    requires s != [] && Buffered(s[0]) && k == RunLength(s)
    requires DecodeFrom(EncodeRef(s[k..])) == Some(s[k..])
    ensures DecodeFrom(EncodeRef(s)) == Some(s)
  {
    var run, rest := s[..k], s[k..];
    var e := EncodeRef(rest);
    assert k > 0;
    assert run != [];
    EncodeRun(s, k);
    assert EncodeRef(s) == Flush(run) + e;
    DecodeGroup(run, e);
    assert DecodeFrom(Flush(run) + e) == Then(Some(run), Some(rest));
    SplitJoin(s, k);
  }

  lemma SplitJoin(s: string, k: nat)
    requires k <= |s|
    ensures s[..k] + s[k..] == s
  {
  }

  /** Every character of t is printable ASCII (0x20-0x7E). */
  predicate Printable(t: string) {
    forall i :: 0 <= i < |t| ==> ' ' <= t[i] <= '~'
  }

  lemma PrintableConcat(a: string, b: string)
    requires Printable(a) && Printable(b)
    ensures Printable(a + b)
  {
    forall i | 0 <= i < |a + b| ensures ' ' <= (a + b)[i] <= '~' {
      if i < |a| {
        assert (a + b)[i] == a[i];
      } else {
        assert (a + b)[i] == b[i - |a|];
      }
    }
  }

  lemma PrintableFlush(run: string)
    ensures Printable(Flush(run))
  {
    if run != [] {
      var m := EncodeMb64(run);
      assert forall i :: 0 <= i < |m| ==> IsMb64Symbol(m[i]);
      PrintableConcat("&", m);
      PrintableConcat("&" + m, "-");
    }
  }

  /** The encoding is printable ASCII, whatever the text. */
  lemma {:induction false} EncodePrintable(s: string)
    ensures Printable(EncodeRef(s))
    decreases |s|
  {
    if s == [] {
    } else if !Buffered(s[0]) {
      EncodeHeadAt(s, 0);
      assert s[0..] == s;
      EncodePrintable(s[1..]);
      PrintableConcat(Single(s[0]), EncodeRef(s[1..]));
    } else {
      var k := RunLength(s);
      EncodeRun(s, k);
      EncodePrintable(s[k..]);
      PrintableFlush(s[..k]);
      PrintableConcat(Flush(s[..k]), EncodeRef(s[k..]));
    }
  }

  /** Printable ASCII other than '&' is copied through unchanged. */
  lemma {:induction false} EncodeIdentity(s: string)
    requires forall i :: 0 <= i < |s| ==> Passthrough(s[i])
    ensures EncodeRef(s) == s
    decreases |s|
  {
    if s != [] {
      EncodeHeadAt(s, 0);
      assert s[0..] == s;
      EncodeIdentity(s[1..]);
      assert [s[0]] + s[1..] == s;
    }
  }

  /** Text without '&' decodes to itself. */
  lemma {:induction false} DecodeIdentity(t: string)
    requires '&' !in t
    ensures DecodeFrom(t) == Some(t)
    decreases |t|
  {
    if t != [] {
      DecodeIdentity(t[1..]);
      assert [t[0]] + t[1..] == t;
    }
  }

  /** "&-" stands for a literal '&'. */
  lemma DecodeAmpersand(t: string)
    ensures DecodeFrom("&-" + t) == Then(Some("&"), DecodeFrom(t))
  {
    assert "&-" + t == "&" + ("-" + t);
    OpenRun("-" + t);
    CloseRun([], t);
  }

  /** A literal '&' is written as "&-" right after the group for the run pending before it. */
  lemma AmpersandAfterRun(run: string, t: string)
    requires forall k :: 0 <= k < |run| ==> Buffered(run[k])
    ensures EncodeRef(run + "&" + t) == Flush(run) + "&-" + EncodeRef(t)
  {
    var s := run + "&" + t;
    var n := |run|;
    assert s[n] == '&' && !Buffered('&');
    assert forall k :: 0 <= k < n ==> s[k] == run[k];
    EncodeRunAt(s, 0, n);
    EncodeHeadAt(s, n);
    assert s[0..] == s && s[0..n] == run && s[n + 1..] == t;
  }

  /** Inside an open run a second '&' is payload like any other character. */
  lemma AmpersandInRun(p: string, t: string)
    ensures DecodeOpen(p, "&" + t) == DecodeOpen(p + "&", t)
  {
    CollectPayload(p, "&", t);
  }

  /** A '&' left open at the end of the input is a literal '&' too, after any text without '&'. */
  lemma {:induction false} DecodeTrailingAmpersand(t: string)
    requires '&' !in t
    ensures DecodeFrom(t + "&") == Some(t + "&")
    decreases |t|
  {
    if t == [] {
      var e: string := [];
      OpenRun(e);
      assert t + "&" == "&" + e == "&";
      assert DecodeOpen(e, e) == Piece(e) == Some("&");
    } else {
      var u := t + "&";
      assert u[0] == t[0] && u[1..] == t[1..] + "&";
      DecodeTrailingAmpersand(t[1..]);
      assert [t[0]] + (t[1..] + "&") == u;
    }
  }

  /** A run whose payload is not modified base64 of some text makes decode fail, whatever follows. */
  lemma DecodeMalformed(p: string, t: string)
    requires '-' !in p && DecodeMb64(p).None?
    ensures DecodeFrom("&" + p + "-" + t) == None
  {
    Regroup(p, t);
    OpenRun(p + ("-" + t));
    CollectPayload([], p, "-" + t);
    assert [] + p == p;
    CloseRun(p, t);
  }

  /** A run holding a single base64 character is malformed. */
  lemma DecodeLoneSymbol(t: string)
    ensures DecodeFrom("&A-" + t) == None
  {
    assert "&A-" + t == "&" + "A" + "-" + t;
    DecodeMalformed("A", t);
  }

  /** A run still open at the end of the input is decoded all the same (the final process call). */
  lemma DecodeOpenRunAtEnd(r: string)
    requires r != []
    ensures DecodeFrom("&" + EncodeMb64(r)) == Some(r)
  {
    var m := EncodeMb64(r);
    OpenRun(m);
    NoDashInMb64(r);
    CollectPayload([], m, []);
    assert m + [] == m && [] + m == m;
    DecodeEncodeMb64(r);
  }

  /**
   * The defect of encode_mb64 as written: a run holding a lone tab is
   * written as "&-", which decodes to '&' instead of the tab.
   */
  lemma AsWrittenTabLost()
    ensures DecodeFrom("&" + EncodeMb64AsWritten("\t") + "-") == Some("&")
  {
    TabEncodesToNothing();
    assert "&" + EncodeMb64AsWritten("\t") + "-" == "&-" + [];
    DecodeAmpersand([]);
    assert "&" + [] == "&";
  }

  /** encode as written loses a run holding a lone tab: it is written as "&-", a literal '&'. */
  lemma EncodeAsWrittenTab()
    ensures EncodeRefAsWritten("\t") == "&-"
  {
    var s := "\t";
    assert Buffered(s[0]) && RunLength(s) == 1 && s[..1] == s && s[1..] == [];
    TabEncodesToNothing();
    assert FlushAsWritten(s) == "&-";
  }

  /** On texts without tab, CR or LF, encode as written is the reference encoding. */
  lemma {:induction false} AsWrittenEncodeAgrees(s: string)
    requires forall i :: 0 <= i < |s| ==> !DirectInUtf7(s[i])
    ensures EncodeRefAsWritten(s) == EncodeRef(s)
    decreases |s|
  {
    if s == [] {
    } else if !Buffered(s[0]) {
      AsWrittenEncodeAgrees(s[1..]);
    } else {
      var k := RunLength(s);
      var run := s[..k];
      assert forall i :: 0 <= i < |run| ==> Buffered(run[i]) && !DirectInUtf7(run[i]);
      AsWrittenAgrees(run);
      AsWrittenEncodeAgrees(s[k..]);
    }
  }

  /** Round trip of encode as written, on texts without tab, CR or LF. */
  lemma RoundTripAsWritten(s: string)
    requires forall i :: 0 <= i < |s| ==> !DirectInUtf7(s[i])
    ensures DecodeFrom(EncodeRefAsWritten(s)) == Some(s)
  {
    AsWrittenEncodeAgrees(s);
    RoundTrip(s);
  }
}
