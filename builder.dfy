/**
 * build_message and strip_illegal_characters (imapIO/__init__.py): the
 * structure of the MIME message, the typing of each attachment and the
 * headers. mimetypes.guess_type, reading the attachment file, chardet.detect
 * and the formatted date are passed in.
 */
module Builder {
  import opened Wrappers
  import opened Text
  import Base64

  type Byte = Base64.Byte

  /** strip_illegal_characters: x.replace(chr(0), ''). */
  function StripIllegalCharacters(x: string): (r: string)
    ensures '\0' !in r
    ensures forall c :: c != '\0' ==> multiset(r)[c] == multiset(x)[c]
  {
    RemoveChar(x, '\0')
  }

  /** Text without NUL characters is left as it is, and stripping is idempotent. */
  lemma StripIllegalFixed(x: string)
    ensures '\0' !in x ==> StripIllegalCharacters(x) == x
    ensures StripIllegalCharacters(StripIllegalCharacters(x)) == StripIllegalCharacters(x)
  {
    if '\0' !in x {
      RemoveCharAbsent(x, '\0');
    }
    RemoveCharAbsent(StripIllegalCharacters(x), '\0');
  }

  /** What a MIMEText holds: the body text, or the bytes of an attached file. */
  datatype Content = Chars(text: string) | Bytes(data: seq<Byte>)

  /** The MIME objects build_message creates. */
  datatype Node =
    | TextPart(subtype: string, content: Content, charset: Option<string>)  // MIMEText
    | ImagePart(subtype: string, data: seq<Byte>)                          // MIMEImage
    | AudioPart(subtype: string, data: seq<Byte>)                          // MIMEAudio
    | Base64Part(mainType: string, subtype: string, data: seq<Byte>)       // MIMEBase + encode_base64
    | Multipart(subtype: string, parts: seq<Node>)                         // MIMEMultipart
    | Attachment(part: Node, filename: string)                             // with Content-Disposition: attachment

  datatype Message = Message(root: Node, headers: seq<(string, string)>)

  /** The calls into the library and the file system that build_message makes. */
  datatype Env = Env(
    guessType: string -> (Option<string>, Option<string>),  // mimetypes.guess_type(name): (type, encoding)
    readFile: string -> seq<Byte>,                          // open(path, 'rb').read()
    detect: seq<Byte> -> Option<string>)                    // chardet.detect(payload)['encoding']

  /** MIMEText(bodyText.encode('utf-8'), _charset='utf-8') */
  function PlainPart(text: string): (r: Node)
    ensures r.TextPart? && r.subtype == "plain" && r.charset == Some("utf-8")
    ensures r.content.Chars? && r.content.text == text
  {
    TextPart("plain", Chars(text), Some("utf-8"))
  }

  /** MIMEText(bodyHTML.encode('utf-8'), 'html'), with the default charset us-ascii */
  function HtmlPart(html: string): (r: Node)
    ensures r.TextPart? && r.subtype == "html" && r.charset == Some("us-ascii")
    ensures r.content.Chars? && r.content.text == html
  {
    TextPart("html", Chars(html), Some("us-ascii"))
  }

  /** os.path.basename: what follows the last '/'. */
  function Basename(path: string): (r: string)
    ensures '/' !in r
    ensures |r| <= |path| && path[|path| - |r|..] == r
    ensures |r| < |path| ==> path[|path| - |r| - 1] == '/'
  {
    if path == [] || path[|path| - 1] == '/' then []
    else
      var r := Basename(path[..|path| - 1]) + [path[|path| - 1]];
      assert path[..|path| - 1][|path| - |r|..] == path[|path| - |r|..|path| - 1];
      r
  }

  const Application := "application"
  const OctetStream := "octet-stream"

  /** A guessed type that is missing or carries an encoding becomes application/octet-stream. */
  function AttachmentType(guess: (Option<string>, Option<string>)): (r: string)
    ensures guess.0.None? || guess.1.Some? ==> r == Application + "/" + OctetStream
    ensures guess.0.Some? && guess.1.None? ==> r == guess.0.value
  {
    if guess.0.None? || guess.1.Some? then Application + "/" + OctetStream else guess.0.value
  }

  /** Index of the first '/' in s, if any. */
  function FirstSlash(s: string): (k: Option<nat>)
    ensures k.None? <==> '/' !in s
    ensures k.Some? ==> k.value < |s| && s[k.value] == '/' && '/' !in s[..k.value]
  {
    if s == [] then None
    else if s[0] == '/' then Some(0)
    else
      var k :- FirstSlash(s[1..]);
      assert s[..k + 1] == [s[0]] + s[1..][..k];
      Some(k + 1)
  }

  /** contentType.split('/', 1) unpacked into two names; None where the unpacking raises. */
  function SplitType(contentType: string): (r: Option<(string, string)>)
    ensures r.None? <==> '/' !in contentType
    ensures r.Some? ==> r.value.0 + "/" + r.value.1 == contentType && '/' !in r.value.0
  {
    var k :- FirstSlash(contentType);
    assert contentType[..k] + "/" + contentType[k + 1..] == contentType;
    Some((contentType[..k], contentType[k + 1..]))
  }

  /**
   * The part for one attachment path: typed from its base name, built by the
   * branch of its main type, and marked as an attachment under that name.
   */
  function AttachmentPart(path: string, env: Env): (r: Option<Node>)
    ensures r.None? <==> '/' !in AttachmentType(env.guessType(Basename(path)))
    ensures r.Some? ==> r.value.Attachment? && r.value.filename == Basename(path)
  {
    var name := Basename(path);
    var types :- SplitType(AttachmentType(env.guessType(name)));
    var mainType, subType := types.0, types.1;
    var payload := env.readFile(path);
    var part :=
      if mainType == "text" then TextPart(subType, Bytes(payload), env.detect(payload))
      else if mainType == "image" then ImagePart(subType, payload)
      else if mainType == "audio" then AudioPart(subType, payload)
      else Base64Part(mainType, subType, payload);
    Some(Attachment(part, name))
  }

  /** The class of an attached part follows the main type it is guessed to have. */
  lemma AttachmentTyping(path: string, env: Env, main: string, sub: string)
    requires '/' !in main
    requires AttachmentType(env.guessType(Basename(path))) == main + "/" + sub
    ensures var data := env.readFile(path);
      AttachmentPart(path, env) == Some(Attachment(
        if main == "text" then TextPart(sub, Bytes(data), env.detect(data))
        else if main == "image" then ImagePart(sub, data)
        else if main == "audio" then AudioPart(sub, data)
        else Base64Part(main, sub, data),
        Basename(path)))
  {
    SplitTypeAt(main, sub);
  }

  /** An attachment whose type cannot be guessed, or is compressed, is sent as base64 octet-stream. */
  lemma UnknownTypeIsOctetStream(path: string, env: Env)
    requires env.guessType(Basename(path)).0.None? || env.guessType(Basename(path)).1.Some?
    ensures AttachmentPart(path, env) ==
      Some(Attachment(Base64Part(Application, OctetStream, env.readFile(path)), Basename(path)))
  {
    assert '/' !in Application;
    AttachmentTyping(path, env, Application, OctetStream);
    assert |Application| == 11;
    assert Application != "text" && Application != "image" && Application != "audio";
  }

  /** A type written main/sub, with no '/' in main, splits into main and sub. */
  lemma SplitTypeAt(main: string, sub: string)
    requires '/' !in main
    ensures SplitType(main + "/" + sub) == Some((main, sub))
  {
    var t := main + "/" + sub;
    FirstSlashAt(main, sub);
    assert t[..|main|] == main && t[|main| + 1..] == sub;
  }

  /** The first '/' of a + "/" + b, for a without '/', is right after a. */
  lemma {:induction false} FirstSlashAt(a: string, b: string)
    requires '/' !in a
    ensures FirstSlash(a + "/" + b) == Some(|a|)
  {
    var s := a + "/" + b;
    if a != [] {
      assert s[0] == a[0] && s[1..] == a[1..] + "/" + b;
      FirstSlashAt(a[1..], b);
    }
  }

  /** The body parts placed first in a mixed message: alternative, plain, html or nothing. */
  function BodyParts(text: string, html: string): (r: seq<Node>)
    ensures text != "" && html != "" ==> r == [Multipart("alternative", [PlainPart(text), HtmlPart(html)])]
    ensures text != "" && html == "" ==> r == [PlainPart(text)]
    ensures text == "" && html != "" ==> r == [HtmlPart(html)]
    ensures text == "" && html == "" ==> r == []
  {
    if text != "" && html != "" then [Multipart("alternative", [PlainPart(text), HtmlPart(html)])]
    else if text != "" then [PlainPart(text)]
    else if html != "" then [HtmlPart(html)]
    else []
  }

  /** The MIMEMultipart that build_message fills in place with attach(). */
  class MimeMultipart {
    const subtype: string
    var parts: seq<Node>

    constructor(subtype: string)
      ensures this.subtype == subtype && parts == []
    {
      this.subtype := subtype;
      parts := [];
    }

    method Attach(part: Node)
      modifies this
      ensures parts == old(parts) + [part]
    {
      parts := parts + [part];
    }
  }

  /** The headers build_message assigns, in order. */
  function Headers(date: string, subject: string, fromWhom: string, toWhom: string,
                   ccWhom: string, bccWhom: string): (r: seq<(string, string)>)
    ensures |r| == 6
    ensures r[0].1 == date && r[1].1 == subject && r[2].1 == fromWhom
    ensures r[3].1 == toWhom && r[4].1 == ccWhom && r[5].1 == bccWhom
    ensures r[0].0 == "date" && r[1].0 == "subject" && r[2].0 == "from"
    ensures r[3].0 == "to" && r[4].0 == "cc" && r[5].0 == "bcc"
  {
    [("date", date), ("subject", subject), ("from", fromWhom), ("to", toWhom), ("cc", ccWhom), ("bcc", bccWhom)]
  }

  /** build_message sets each header once. */
  lemma HeadersDistinct(date: string, subject: string, fromWhom: string, toWhom: string,
                        ccWhom: string, bccWhom: string)
    ensures var r := Headers(date, subject, fromWhom, toWhom, ccWhom, bccWhom);
      forall i, j :: 0 <= i < j < |r| ==> r[i].0 != r[j].0
  {
  }

  /** The parts made by typed for every attachment path, in order; None where one of them fails. */
  function CollectParts(paths: seq<string>, typed: string -> Option<Node>): Option<seq<Node>> {
    if paths == [] then Some([])
    else
      var attached :- CollectParts(paths[..|paths| - 1], typed);
      var last :- typed(paths[|paths| - 1]);
      Some(attached + [last])
  }

  /** CollectParts fails exactly when one path fails, and otherwise holds each path's part. */
  lemma {:induction false} CollectPartsMeaning(paths: seq<string>, typed: string -> Option<Node>)
    ensures CollectParts(paths, typed).None? <==> exists i :: 0 <= i < |paths| && typed(paths[i]).None?
    ensures CollectParts(paths, typed).Some? ==>
      var parts := CollectParts(paths, typed).value;
      |parts| == |paths| && forall i :: 0 <= i < |paths| ==> Some(parts[i]) == typed(paths[i])
  {
    if paths != [] {
      var n := |paths| - 1;
      var init := paths[..n];
      CollectPartsMeaning(init, typed);
      assert forall i :: 0 <= i < n ==> init[i] == paths[i];
    }
  }

  /** One more path whose part is made extends the collected prefix by that part. */
  lemma CollectPartsStep(paths: seq<string>, i: nat, typed: string -> Option<Node>, attached: seq<Node>, last: Node)
    requires i < |paths|
    requires CollectParts(paths[..i], typed) == Some(attached) && typed(paths[i]) == Some(last)
    ensures CollectParts(paths[..i + 1], typed) == Some(attached + [last])
  {
    assert paths[..i + 1][..i] == paths[..i];
  }

  /** A path whose part cannot be made makes the whole collection fail. */
  lemma CollectPartsStop(paths: seq<string>, i: nat, typed: string -> Option<Node>)
    requires i < |paths| && typed(paths[i]).None?
    ensures CollectParts(paths, typed).None?
  {
    CollectPartsMeaning(paths, typed);
  }

  lemma AppendAssoc(body: seq<Node>, attached: seq<Node>, last: Node)
    ensures body + attached + [last] == body + (attached + [last])
  {
  }

  /** AttachmentPart as a function of the path alone. */
  function PartMaker(env: Env): string -> Option<Node> {
    path => AttachmentPart(path, env)
  }

  /** The parts for every attachment path, as the loop of build_message attaches them. */
  function AttachmentParts(paths: seq<string>, env: Env): (r: Option<seq<Node>>)
    ensures r.Some? ==> |r.value| == |paths|
    ensures r.Some? ==> forall i :: 0 <= i < |paths| ==>
      r.value[i].Attachment? && r.value[i].filename == Basename(paths[i])
  {
    CollectPartsMeaning(paths, PartMaker(env));
    CollectParts(paths, PartMaker(env))
  }

  /** The attachments fail exactly when one path fails, and otherwise hold each path's part in order. */
  lemma AttachmentPartsMeaning(paths: seq<string>, env: Env)
    ensures AttachmentParts(paths, env).None? <==>
      exists i :: 0 <= i < |paths| && AttachmentPart(paths[i], env).None?
    ensures AttachmentParts(paths, env).Some? ==>
      var parts := AttachmentParts(paths, env).value;
      |parts| == |paths| && forall i :: 0 <= i < |paths| ==> Some(parts[i]) == AttachmentPart(paths[i], env)
  {
    CollectPartsMeaning(paths, PartMaker(env));
  }

  /** The loop of build_message over the attachment paths: each typed part is attached in turn. */
  method AttachAll(message: MimeMultipart, paths: seq<string>, env: Env) returns (ok: bool)
    modifies message
    ensures ok <==> AttachmentParts(paths, env).Some?
    ensures ok ==> message.parts == old(message.parts) + AttachmentParts(paths, env).value
  {
    ghost var body := message.parts;
    ghost var attached: seq<Node> := [];
    ghost var typed := PartMaker(env);
    assert paths[..0] == [];
    for i := 0 to |paths|
      invariant message.parts == body + attached
      invariant CollectParts(paths[..i], typed) == Some(attached)
    {
      var part := AttachmentPart(paths[i], env);
      assert typed(paths[i]) == part;
      if part.None? {
        CollectPartsStop(paths, i, typed);
        return false;
      }
      message.Attach(part.value);
      CollectPartsStep(paths, i, typed, attached, part.value);
      AppendAssoc(body, attached, part.value);
      attached := attached + [part.value];
    }
    assert paths[..|paths|] == paths;
    assert AttachmentParts(paths, env) == Some(attached);
    return true;
  }

  /**
   * build_message. The date header is given already formatted. None where
   * typing an attachment raises.
   */
  method BuildMessage(date: string, subject: string, fromWhom: string, toWhom: string,
                      ccWhom: string, bccWhom: string, bodyText: string, bodyHTML: string,
                      attachmentPaths: seq<string>, env: Env) returns (r: Option<Message>)
    ensures r.None? <==> AttachmentParts(attachmentPaths, env).None?
    ensures r.Some? ==>
      r.value.headers == Headers(date, StripIllegalCharacters(subject), fromWhom, toWhom, ccWhom, bccWhom)
    ensures r.Some? && attachmentPaths != [] ==>
      var text, html := StripIllegalCharacters(bodyText), StripIllegalCharacters(bodyHTML);
      r.value.root == Multipart("mixed", BodyParts(text, html) + AttachmentParts(attachmentPaths, env).value)
    ensures attachmentPaths == [] ==>
      var text, html := StripIllegalCharacters(bodyText), StripIllegalCharacters(bodyHTML);
      r.Some? && r.value.root ==
        if text != "" && html != "" then Multipart("alternative", [PlainPart(text), HtmlPart(html)])
        else if html != "" then HtmlPart(html)
        else PlainPart(text)
  {
    var subject' := StripIllegalCharacters(subject);
    var text := StripIllegalCharacters(bodyText);
    var html := StripIllegalCharacters(bodyHTML);
    var mimeText := PlainPart(text);
    var mimeHTML := HtmlPart(html);
    var root: Node;
    if attachmentPaths != [] {
      var message := new MimeMultipart("mixed");
      if text != "" && html != "" {
        var messageAlternative := new MimeMultipart("alternative");
        messageAlternative.Attach(mimeText);
        messageAlternative.Attach(mimeHTML);
        assert messageAlternative.parts == [mimeText, mimeHTML];
        message.Attach(Multipart(messageAlternative.subtype, messageAlternative.parts));
        assert message.parts == [] + BodyParts(text, html);
      } else if text != "" {
        message.Attach(mimeText);
        assert message.parts == [] + BodyParts(text, html);
      } else if html != "" {
        message.Attach(mimeHTML);
        assert message.parts == [] + BodyParts(text, html);
      }
      ghost var body := message.parts;
      assert body == BodyParts(text, html);
      var ok := AttachAll(message, attachmentPaths, env);
      if !ok {
        return None;
      }
      root := Multipart(message.subtype, message.parts);
      assert root == Multipart("mixed", BodyParts(text, html) + AttachmentParts(attachmentPaths, env).value);
    } else if text != "" && html != "" {
      root := Multipart("alternative", [mimeText, mimeHTML]);
    } else if html != "" {
      root := mimeHTML;
    } else {
      root := mimeText;
    }
    return Some(Message(root, Headers(date, subject', fromWhom, toWhom, ccWhom, bccWhom)));
  }
}
