/**
 * The Email object's flag commands and body cache (imapIO/__init__.py): the
 * flags setter, set_flag, seen and deleted, and as_string. The IMAP server
 * is a log of the commands sent to it; its replies are parameters.
 */
module Mailbox {
  import opened Wrappers

  /** A UID command sent to the server: STORE uid item value, or FETCH uid what. */
  datatype Command =
    | Store(uid: string, item: string, value: string)
    | Fetch(uid: string, what: string)

  /** What the flags setter is given: a single flag (a string), or an iterable of flags. */
  datatype FlagsValue = One(flag: string) | Many(flags: seq<string>)

  const Recent := "\\Recent"
  const Seen := "\\Seen"
  const Deleted := "\\Deleted"

  /** A value that is not iterable is wrapped in a one-element list; an iterable is listed. */
  function FlagList(v: FlagsValue): (r: seq<string>)
    ensures v.One? ==> r == [v.flag]
    ensures v.Many? ==> r == v.flags
  {
    match v
    case One(flag) => [flag]
    case Many(flags) => flags
  }

  /** Index of the first occurrence of x in flags. */
  function FirstIndex(flags: seq<string>, x: string): (k: nat)
    requires x in flags
    ensures k < |flags| && flags[k] == x && x !in flags[..k]
  {
    if flags[0] == x then 0
    else
      var k := FirstIndex(flags[1..], x);
      assert flags[..k + 1] == [flags[0]] + flags[1..][..k];
      k + 1
  }

  /** list.remove(x), where a missing x is ignored: the first occurrence of x goes, the rest stays in order. */
  function RemoveFirst(flags: seq<string>, x: string): (r: seq<string>)
    ensures x !in flags ==> r == flags
    ensures x in flags ==>
      exists i :: 0 <= i < |flags| && flags[i] == x && x !in flags[..i] && r == flags[..i] + flags[i + 1..]
    ensures x in flags ==> multiset(r) == multiset(flags) - multiset{x}
  {
    if x in flags then
      var k := FirstIndex(flags, x);
      assert flags == flags[..k] + [x] + flags[k + 1..];
      flags[..k] + flags[k + 1..]
    else flags
  }

  /** ' '.join(parts) */
  function Join(parts: seq<string>): (r: string)
    ensures parts == [] ==> r == ""
    ensures |parts| == 1 ==> r == parts[0]
  {
    if parts == [] then ""
    else if |parts| == 1 then parts[0]
    else parts[0] + " " + Join(parts[1..])
  }

  /** Joining keeps every flag, in order, one space apart. */
  lemma {:induction false} JoinCons(x: string, parts: seq<string>)
    requires parts != []
    ensures Join([x] + parts) == x + " " + Join(parts)
  {
    assert ([x] + parts)[1..] == parts;
  }

  /** What the flags setter sends: STORE uid FLAGS (flags), with the first \Recent removed. */
  function StoreFlags(uid: string, v: FlagsValue): (c: Command)
    ensures c.Store? && c.uid == uid && c.item == "FLAGS"
    ensures c.value == "(" + Join(RemoveFirst(FlagList(v), Recent)) + ")"
  {
    Store(uid, "FLAGS", "(" + Join(RemoveFirst(FlagList(v), Recent)) + ")")
  }

  /** What set_flag sends: STORE uid +FLAGS (flag) to set it, -FLAGS to clear it. */
  function StoreFlag(uid: string, flag: string, on: bool): (c: Command)
    ensures c.Store? && c.uid == uid && c.value == "(" + flag + ")"
    ensures c.item == (if on then "+FLAGS" else "-FLAGS")
  {
    Store(uid, if on then "+FLAGS" else "-FLAGS", "(" + flag + ")")
  }

  /** Setting the flags to one flag other than \Recent sends the same argument as adding it. */
  lemma OneFlagArgument(uid: string, flag: string, on: bool)
    requires flag != Recent
    ensures StoreFlags(uid, One(flag)).value == StoreFlag(uid, flag, on).value
  {
    assert Recent !in [flag];
  }

  /** Setting the flags to \Recent alone clears every flag: the argument is "()". */
  lemma RecentAloneClears(uid: string)
    ensures StoreFlags(uid, One(Recent)).value == "()"
  {
    assert RemoveFirst([Recent], Recent) == [];
  }

  /** Only the first \Recent is removed: a second one is still sent. */
  lemma SecondRecentKept(uid: string, flags: seq<string>)
    requires Recent !in flags
    ensures StoreFlags(uid, Many([Recent, Recent] + flags)).value ==
      "(" + Join([Recent] + flags) + ")"
  {
    var v := [Recent, Recent] + flags;
    assert v[0] == Recent && v[1..] == [Recent] + flags;
    assert FirstIndex(v, Recent) == 0;
    assert RemoveFirst(v, Recent) == v[..0] + v[1..];
    assert v[..0] + v[1..] == [Recent] + flags;
  }

  /** The server: the UID commands it has been sent, in order. */
  class Server {
    var sent: seq<Command>

    constructor()
      ensures sent == []
    {
      sent := [];
    }

    /** self.server.uid(...): records the command; whether the reply is OK is given. */
    method Uid(c: Command, replyOk: bool) returns (ok: bool)
      modifies this
      ensures sent == old(sent) + [c] && ok == replyOk
    {
      sent := sent + [c];
      ok := replyOk;
    }
  }

  /** An Email on a server: its UID and the cached body (_string). */
  class Email {
    const server: Server
    const uid: string
    var cache: Option<string>

    constructor(server: Server, uid: string)
      ensures this.server == server && this.uid == uid && cache.None?
    {
      this.server := server;
      this.uid := uid;
      cache := None;
    }

    /** The flags getter: FETCH uid (FLAGS); None where the reply is not OK (IMAPError). */
    method GetFlags(reply: Option<seq<string>>) returns (r: Option<seq<string>>)
      modifies server
      ensures server.sent == old(server.sent) + [Fetch(uid, "(FLAGS)")]
      ensures r == reply
    {
      var ok := server.Uid(Fetch(uid, "(FLAGS)"), reply.Some?);
      r := reply;
    }

    /** The flags setter; false where the reply is not OK (IMAPError). */
    method SetFlags(v: FlagsValue, replyOk: bool) returns (ok: bool)
      modifies server
      ensures server.sent == old(server.sent) + [StoreFlags(uid, v)]
      ensures ok == replyOk
    {
      var flags := FlagList(v);
      flags := RemoveFirst(flags, Recent);
      ok := server.Uid(Store(uid, "FLAGS", "(" + Join(flags) + ")"), replyOk);
    }

    /** set_flag; false where the reply is not OK (IMAPError). */
    method SetFlag(flag: string, on: bool, replyOk: bool) returns (ok: bool)
      modifies server
      ensures server.sent == old(server.sent) + [StoreFlag(uid, flag, on)]
      ensures ok == replyOk
    {
      var operator := if on then "+" else "-";
      assert operator + "FLAGS" == if on then "+FLAGS" else "-FLAGS";
      ok := server.Uid(Store(uid, operator + "FLAGS", "(" + flag + ")"), replyOk);
    }

    /** The seen setter. */
    method SetSeen(on: bool, replyOk: bool) returns (ok: bool)
      modifies server
      ensures server.sent == old(server.sent) + [StoreFlag(uid, Seen, on)]
      ensures ok == replyOk
    {
      ok := SetFlag(Seen, on, replyOk);
    }

    /** The deleted setter. */
    method SetDeleted(on: bool, replyOk: bool) returns (ok: bool)
      modifies server
      ensures server.sent == old(server.sent) + [StoreFlag(uid, Deleted, on)]
      ensures ok == replyOk
    {
      ok := SetFlag(Deleted, on, replyOk);
    }

    /** The seen getter: whether \Seen is among the fetched flags. */
    method IsSeen(reply: Option<seq<string>>) returns (r: Option<bool>)
      modifies server
      ensures server.sent == old(server.sent) + [Fetch(uid, "(FLAGS)")]
      ensures r.Some? <==> reply.Some?
      ensures reply.Some? ==> (r.value <==> Seen in reply.value)
    {
      var flags :- GetFlags(reply);
      return Some(Seen in flags);
    }

    /** The deleted getter: whether \Deleted is among the fetched flags. */
    method IsDeleted(reply: Option<seq<string>>) returns (r: Option<bool>)
      modifies server
      ensures server.sent == old(server.sent) + [Fetch(uid, "(FLAGS)")]
      ensures r.Some? <==> reply.Some?
      ensures reply.Some? ==> (r.value <==> Deleted in reply.value)
    {
      var flags :- GetFlags(reply);
      return Some(Deleted in flags);
    }

    /**
     * as_string: the first call fetches the flags, fetches the body, stores
     * the flags back and caches the body; once cached, the body is returned
     * without talking to the server. None where a reply is not OK.
     */
    method AsString(flagsReply: Option<seq<string>>, bodyReply: Option<string>, storeOk: bool)
      returns (r: Option<string>)
      modifies this, server
      ensures old(cache).Some? ==>
        r == old(cache) && cache == old(cache) && server.sent == old(server.sent)
      ensures old(cache).None? && flagsReply.Some? && bodyReply.Some? && storeOk ==>
        r == bodyReply && cache == bodyReply &&
        server.sent == old(server.sent) + [Fetch(uid, "(FLAGS)"), Fetch(uid, "(RFC822)"),
                                           StoreFlags(uid, Many(flagsReply.value))]
      ensures old(cache).None? && !(flagsReply.Some? && bodyReply.Some? && storeOk) ==>
        r.None? && cache.None?
      ensures old(cache).None? && flagsReply.None? ==>
        server.sent == old(server.sent) + [Fetch(uid, "(FLAGS)")]
      ensures old(cache).None? && flagsReply.Some? && bodyReply.None? ==>
        server.sent == old(server.sent) + [Fetch(uid, "(FLAGS)"), Fetch(uid, "(RFC822)")]
      ensures old(cache).None? && flagsReply.Some? && bodyReply.Some? && !storeOk ==>
        server.sent == old(server.sent) + [Fetch(uid, "(FLAGS)"), Fetch(uid, "(RFC822)"),
                                           StoreFlags(uid, Many(flagsReply.value))]
    {
      if cache.Some? {
        return cache;
      }
      var flags := GetFlags(flagsReply);
      if flags.None? {
        return None;
      }
      var ok := server.Uid(Fetch(uid, "(RFC822)"), bodyReply.Some?);
      if !ok {
        return None;
      }
      ok := SetFlags(Many(flags.value), storeOk);
      if !ok {
        return None;
      }
      cache := bodyReply;
      return cache;
    }
  }
}
