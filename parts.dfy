/**
 * The part list of a MIME message (imapIO/__init__.py, extract and
 * Email.save): the message tree is walked in pre-order, every node gets its
 * position as index, containers of type multipart are skipped, and each other
 * part gives a record (index, name, content type[, payload]).
 *
 * The email library's accessors are the fields of PartInfo; chardet.detect
 * and bytes.decode(charset, 'ignore') are parameters.
 */
module Parts {
  import opened Wrappers
  import Base64

  type Byte = Base64.Byte

  /** What the source reads from one node of the tree. */
  datatype PartInfo = PartInfo(
    mainType: string,                // get_content_maintype()
    filename: Option<string>,        // get_filename()
    contentType: Option<string>,     // get_content_type()
    contentCharset: Option<string>,  // get_content_charset()
    charset: Option<string>,         // get_charset(), by name
    payload: Option<seq<Byte>>)      // get_payload(decode=True)

  /** A node and, for a node whose payload is a list, its subparts. */
  datatype Part = Part(info: PartInfo, subparts: seq<Part>)

  /** message.walk(): the node itself, then each subpart's walk, in order. */
  function Walk(p: Part): (r: seq<PartInfo>)
    ensures |r| >= 1 && r[0] == p.info
    decreases p, 1
  {
    [p.info] + WalkAll(p.subparts)
  }

  function WalkAll(ps: seq<Part>): seq<PartInfo>
    decreases ps, 0
  {
    if ps == [] then [] else Walk(ps[0]) + WalkAll(ps[1..])
  }

  lemma {:induction false} WalkAllSplit(ps: seq<Part>, k: nat)
    requires k < |ps|
    ensures WalkAll(ps) == WalkAll(ps[..k]) + Walk(ps[k]) + WalkAll(ps[k + 1..])
    decreases k
  {
    if k == 0 {
      assert ps[..0] == [];
      assert ps[1..] == ps[k + 1..];
    } else {
      WalkAllSplit(ps[1..], k - 1);
      assert ps[1..][..k - 1] == ps[1..k];
      assert ps[1..][k - 1] == ps[k];
      assert ps[1..][k..] == ps[k + 1..];
      assert ps[..k][0] == ps[0] && ps[..k][1..] == ps[1..k];
    }
  }

  /**
   * Pre-order: the walk of the k-th subpart is a contiguous stretch of the
   * parent's walk, right after the parent and the walks of the subparts
   * before it.
   */
  lemma WalkPreorder(p: Part, k: nat)
    requires k < |p.subparts|
    ensures var start := 1 + |WalkAll(p.subparts[..k])|;
      start + |Walk(p.subparts[k])| <= |Walk(p)| &&
      Walk(p)[start..start + |Walk(p.subparts[k])|] == Walk(p.subparts[k])
  {
    WalkAllSplit(p.subparts, k);
    var a, b, c := WalkAll(p.subparts[..k]), Walk(p.subparts[k]), WalkAll(p.subparts[k + 1..]);
    assert Walk(p) == [p.info] + a + b + c;
    assert ([p.info] + a + b + c)[1 + |a|..1 + |a| + |b|] == b;
  }

  /** What a record holds after the name and type; None when peeking. */
  datatype Payload = Raw(bytes: seq<Byte>) | Decoded(text: string)

  /** (index, name, type) or (index, name, type, payload). */
  datatype PartRecord = PartRecord(index: nat, name: string, contentType: string, payload: Option<Payload>)

  /** The arguments of extract, with the two library calls it makes. */
  datatype Options = Options(
    includes: (nat, string, string) -> bool,
    peek: bool,
    applyCharset: bool,
    detect: seq<Byte> -> Option<string>,           // chardet.detect(payload)['encoding']
    decodeWith: (seq<Byte>, string) -> Option<string>) // payload.decode(charset, 'ignore'); None for an unknown charset

  /** Python's truth value of an optional text: present and non-empty. */
  predicate Truthy(x: Option<string>) {
    x.Some? && x.value != ""
  }

  /** x or '' */
  function OrEmpty(x: Option<string>): (r: string)
    ensures Truthy(x) ==> r == x.value
    ensures !Truthy(x) ==> r == ""
  {
    if x.Some? then x.value else ""
  }

  /**
   * content charset or set charset or the detector's guess, each tried only
   * when the previous one is missing or empty; None when the guess is None.
   */
  function CharsetFor(info: PartInfo, bytes: seq<Byte>, detect: seq<Byte> -> Option<string>): (r: Option<string>)
    ensures Truthy(info.contentCharset) ==> r == info.contentCharset
    ensures !Truthy(info.contentCharset) && Truthy(info.charset) ==> r == info.charset
    ensures !Truthy(info.contentCharset) && !Truthy(info.charset) ==> r == detect(bytes)
  {
    if Truthy(info.contentCharset) then info.contentCharset
    else if Truthy(info.charset) then info.charset
    else detect(bytes)
  }

  /** What one node contributes: nothing, a record, or an exception. */
  datatype Outcome = Skip | Emit(record: PartRecord) | Raise

  /** One iteration of the loop in extract for the node at position i. */
  function Step(i: nat, info: PartInfo, o: Options): (r: Outcome)
    ensures info.mainType == "multipart" ==> r == Skip
    ensures r.Emit? ==> r.record.index == i
    ensures r.Emit? ==> r.record.name == OrEmpty(info.filename) && r.record.contentType == OrEmpty(info.contentType)
    ensures info.mainType != "multipart" ==>
      (r.Skip? <==> !o.includes(i, OrEmpty(info.filename), OrEmpty(info.contentType)))
    ensures r.Emit? ==> (r.record.payload.None? <==> o.peek)
    ensures r.Raise? ==> !o.peek && info.mainType == "text" && o.applyCharset
    ensures r.Emit? && !o.peek && !(info.mainType == "text" && o.applyCharset) ==>
      r.record.payload == Some(Raw(if info.payload.Some? then info.payload.value else []))
  {
    if info.mainType == "multipart" then Skip
    else
      var name := OrEmpty(info.filename);
      var contentType := OrEmpty(info.contentType);
      if !o.includes(i, name, contentType) then Skip
      else if o.peek then Emit(PartRecord(i, name, contentType, None))
      else
        var bytes := if info.payload.Some? then info.payload.value else [];
        if info.mainType == "text" && o.applyCharset then
          match CharsetFor(info, bytes, o.detect)
          case None => Raise
          case Some(cs) =>
            match o.decodeWith(bytes, cs)
            case None => Raise
            case Some(text) => Emit(PartRecord(i, name, contentType, Some(Decoded(text))))
        else Emit(PartRecord(i, name, contentType, Some(Raw(bytes))))
  }

  /** A text part under applyCharset is decoded with the charset chosen by priority. */
  lemma StepCharset(i: nat, info: PartInfo, o: Options)
    requires info.mainType == "text" && o.applyCharset && !o.peek
    requires o.includes(i, OrEmpty(info.filename), OrEmpty(info.contentType))
    ensures var bytes := if info.payload.Some? then info.payload.value else [];
      var cs := CharsetFor(info, bytes, o.detect);
      Step(i, info, o) ==
        if cs.None? || o.decodeWith(bytes, cs.value).None? then Raise
        else Emit(PartRecord(i, OrEmpty(info.filename), OrEmpty(info.contentType),
          Some(Decoded(o.decodeWith(bytes, cs.value).value))))
  {
  }

  /** The records for the first n nodes of the walk; None once one step raises. */
  function ExtractPrefix(parts: seq<PartInfo>, n: nat, o: Options): Option<seq<PartRecord>>
    requires n <= |parts|
  {
    if n == 0 then Some([])
    else
      var before :- ExtractPrefix(parts, n - 1, o);
      match Step(n - 1, parts[n - 1], o)
      case Skip => Some(before)
      case Emit(record) => Some(before + [record])
      case Raise => None
  }

  /** extract(message, include, peek, applyCharset); None where Python raises. */
  method Extract(message: Part, o: Options) returns (r: Option<seq<PartRecord>>)
    ensures r == ExtractPrefix(Walk(message), |Walk(message)|, o)
  {
    var parts := Walk(message);
    var partPacks: seq<PartRecord> := [];
    for partIndex := 0 to |parts|
      invariant ExtractPrefix(parts, partIndex, o) == Some(partPacks)
    {
      var outcome := Step(partIndex, parts[partIndex], o);
      match outcome
      case Skip =>
      case Emit(record) =>
        partPacks := partPacks + [record];
      case Raise =>
        ExtractRaises(parts, |parts|, o);
        return None;
    }
    return Some(partPacks);
  }

  /** The options under which save gathers its list: peek, and an include that accepts everything. */
  function SaveOptions(): Options {
    Options((i: nat, name: string, t: string) => true, true, false, (bs: seq<Byte>) => None,
      (bs: seq<Byte>, cs: string) => None)
  }

  /** Email.save(): the part list, exactly what extract returns with peek and no filter. */
  method Save(message: Part) returns (r: seq<PartRecord>)
    ensures Some(r) == ExtractPrefix(Walk(message), |Walk(message)|, SaveOptions())
  {
    var parts := Walk(message);
    var partPacks: seq<PartRecord> := [];
    for partIndex := 0 to |parts|
      invariant ExtractPrefix(parts, partIndex, SaveOptions()) == Some(partPacks)
    {
      var info := parts[partIndex];
      if info.mainType != "multipart" {
        var partPack := PartRecord(partIndex, OrEmpty(info.filename), OrEmpty(info.contentType), None);
        partPacks := partPacks + [partPack];
      }
    }
    return partPacks;
  }

  /**
   * Every record comes from a node of the walk that is not a multipart
   * container and that include accepted, carries that node's position as its
   * index, and the records come out in walk order.
   */
  lemma {:induction false} ExtractSound(parts: seq<PartInfo>, n: nat, o: Options)
    requires n <= |parts| && ExtractPrefix(parts, n, o).Some?
    ensures var recs := ExtractPrefix(parts, n, o).value;
      forall k :: 0 <= k < |recs| ==>
        recs[k].index < n && parts[recs[k].index].mainType != "multipart" &&
        Step(recs[k].index, parts[recs[k].index], o) == Emit(recs[k])
    ensures var recs := ExtractPrefix(parts, n, o).value;
      forall k, l :: 0 <= k < l < |recs| ==> recs[k].index < recs[l].index
    decreases n
  {
    if n > 0 {
      ExtractSound(parts, n - 1, o);
    }
  }

  /** Every node that is not a multipart container and that include accepts has its record. */
  lemma {:induction false} ExtractComplete(parts: seq<PartInfo>, n: nat, o: Options, i: nat)
    requires n <= |parts| && ExtractPrefix(parts, n, o).Some?
    requires i < n && Step(i, parts[i], o).Emit?
    ensures var recs := ExtractPrefix(parts, n, o).value;
      exists k :: 0 <= k < |recs| && recs[k] == Step(i, parts[i], o).record
    decreases n
  {
    var before := ExtractPrefix(parts, n - 1, o).value;
    var recs := ExtractPrefix(parts, n, o).value;
    if i < n - 1 {
      ExtractComplete(parts, n - 1, o, i);
      var k :| 0 <= k < |before| && before[k] == Step(i, parts[i], o).record;
      assert recs[k] == before[k];
    } else {
      assert recs[|recs| - 1] == Step(i, parts[i], o).record;
    }
  }

  /** extract raises exactly when some node's step raises. */
  lemma {:induction false} ExtractRaises(parts: seq<PartInfo>, n: nat, o: Options)
    requires n <= |parts|
    ensures ExtractPrefix(parts, n, o).None? <==> exists i :: 0 <= i < n && Step(i, parts[i], o).Raise?
    decreases n
  {
    if n > 0 {
      ExtractRaises(parts, n - 1, o);
    }
  }

  /** With peek nothing can raise, and no record carries a payload. */
  lemma {:induction false} PeekRecords(parts: seq<PartInfo>, n: nat, o: Options)
    requires n <= |parts| && o.peek
    ensures ExtractPrefix(parts, n, o).Some?
    ensures forall k :: 0 <= k < |ExtractPrefix(parts, n, o).value| ==>
      ExtractPrefix(parts, n, o).value[k].payload.None?
    decreases n
  {
    if n > 0 {
      PeekRecords(parts, n - 1, o);
    }
  }

  /** Without peek every record carries its payload. */
  lemma {:induction false} PayloadRecords(parts: seq<PartInfo>, n: nat, o: Options)
    requires n <= |parts| && !o.peek && ExtractPrefix(parts, n, o).Some?
    ensures forall k :: 0 <= k < |ExtractPrefix(parts, n, o).value| ==>
      ExtractPrefix(parts, n, o).value[k].payload.Some?
    decreases n
  {
    if n > 0 {
      PayloadRecords(parts, n - 1, o);
    }
  }

  /** Under the options of save a node raises nothing and is listed unless it is a container. */
  lemma SaveStep(i: nat, info: PartInfo)
    ensures Step(i, info, SaveOptions()).Emit? <==> info.mainType != "multipart"
    ensures Step(i, info, SaveOptions()).Skip? <==> info.mainType == "multipart"
  {
  }

  /** save lists every node that is not a multipart container, in walk order. */
  lemma {:induction false} SaveListsParts(parts: seq<PartInfo>, n: nat)
    requires n <= |parts|
    ensures ExtractPrefix(parts, n, SaveOptions()).Some?
    ensures var recs := ExtractPrefix(parts, n, SaveOptions()).value;
      |recs| == |set i | 0 <= i < n && parts[i].mainType != "multipart"|
    decreases n
  {
    if n > 0 {
      SaveListsParts(parts, n - 1);
      SaveStep(n - 1, parts[n - 1]);
      LeafCountStep(parts, n);
    }
  }

  /** The leaves among the first n nodes: those among the first n - 1, and node n - 1 if it is one. */
  lemma LeafCountStep(parts: seq<PartInfo>, n: nat)
    requires 0 < n <= |parts|
    ensures |set i | 0 <= i < n && parts[i].mainType != "multipart"| ==
      |set i | 0 <= i < n - 1 && parts[i].mainType != "multipart"| +
      (if parts[n - 1].mainType != "multipart" then 1 else 0)
  {
    var prev := set i | 0 <= i < n - 1 && parts[i].mainType != "multipart";
    var now := set i | 0 <= i < n && parts[i].mainType != "multipart";
    if parts[n - 1].mainType != "multipart" {
      assert now == prev + {n - 1};
      assert n - 1 !in prev;
    } else {
      assert now == prev;
    }
  }
}
