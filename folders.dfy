/**
 * Folder names (imapIO/__init__.py): normalize_folder, make_folderFilter
 * and the folder search of revive.
 */
module Folders {
  import opened Wrappers
  import opened Text
  import Utf7Imap
  import Utf7ImapLaws

  /** The characters normalize_folder strips from both ends: '"' and ' '. */
  const QuoteAndSpace: set<char> := {'"', ' '}

  /**
   * normalize_folder: decode the mailbox name, strip '"' and ' ' from both
   * ends, lower-case it and replace every run of \s by one space. None where
   * the decoder raises.
   */
  function NormalizeFolder(text: string): (r: Option<string>)
    ensures r.Some? <==> Utf7Imap.DecodeFrom(text).Some?
  {
    var decoded :- Utf7Imap.DecodeFrom(text);
    Some(Collapse(Lower(Strip(decoded, QuoteAndSpace))))
  }

  lemma {:induction false} CollapseKeepsNoUpper(s: string)
    requires forall i :: 0 <= i < |s| ==> !IsUpper(s[i])
    ensures forall i :: 0 <= i < |Collapse(s)| ==> !IsUpper(Collapse(s)[i])
    decreases |s|
  {
    if s != [] {
      if IsSpace(s[0]) {
        var k := SpaceRun(s);
        CollapseKeepsNoUpper(s[k..]);
        var t := " " + Collapse(s[k..]);
        assert forall i :: 1 <= i < |t| ==> t[i] == Collapse(s[k..])[i - 1];
      } else {
        CollapseKeepsNoUpper(s[1..]);
        var t := [s[0]] + Collapse(s[1..]);
        assert forall i :: 1 <= i < |t| ==> t[i] == Collapse(s[1..])[i - 1];
      }
    }
  }

  /**
   * A normalized name has no two adjacent \s characters, no \s other than
   * the space, and no uppercase ASCII letter.
   */
  lemma NormalizedShape(text: string)
    requires NormalizeFolder(text).Some?
    ensures Collapsed(NormalizeFolder(text).value)
    ensures forall i :: 0 <= i < |NormalizeFolder(text).value| ==> !IsUpper(NormalizeFolder(text).value[i])
  {
    var lowered := Lower(Strip(Utf7Imap.DecodeFrom(text).value, QuoteAndSpace));
    CollapseHead(lowered);
    CollapseKeepsNoUpper(lowered);
  }

  /** Normalizing keeps the text's characters other than \s, stripped and lower-cased, in order. */
  lemma NormalizedWords(text: string)
    requires NormalizeFolder(text).Some?
    ensures Words(NormalizeFolder(text).value) ==
      Words(Lower(Strip(Utf7Imap.DecodeFrom(text).value, QuoteAndSpace)))
  {
    CollapseKeepsWords(Lower(Strip(Utf7Imap.DecodeFrom(text).value, QuoteAndSpace)));
  }

  /** normalize_folder is not idempotent: strip runs before the tab becomes a space. */
  lemma NotIdempotent()
    ensures NormalizeFolder("\tX") == Some(" x")
    ensures NormalizeFolder(" x") == Some("x")
  {
    TabFolder();
    SpaceFolder();
  }

  lemma TabFolder()
    ensures NormalizeFolder("\tX") == Some(" x")
  {
    Utf7ImapLaws.DecodeIdentity("\tX");
    assert LeadingCount("\tX", QuoteAndSpace) == 0;
    assert TrailingCount("\tX", QuoteAndSpace) == 0;
    assert "\tX"[0..] == "\tX" && "\tX"[..2] == "\tX";
    assert Strip("\tX", QuoteAndSpace) == "\tX";
    assert Lower("\tX") == "\tx";
    assert SpaceRun("\tx") == 1;
    assert "\tx"[1..] == "x";
    assert Collapse("\tx") == " x";
  }

  lemma SpaceFolder()
    ensures NormalizeFolder(" x") == Some("x")
  {
    Utf7ImapLaws.DecodeIdentity(" x");
    assert LeadingCount(" x", QuoteAndSpace) == 1;
    assert " x"[1..] == "x";
    assert TrailingCount("x", QuoteAndSpace) == 0;
    assert "x"[..1] == "x";
    assert Strip(" x", QuoteAndSpace) == "x";
    assert Lower("x") == "x";
    assert Collapse("x") == "x";
  }

  // ---- make_folderFilter ----

  /** What make_folderFilter is given: a name, a collection of names, a function, or anything else. */
  datatype FolderSpec =
    | Name(name: string)
    | Names(names: seq<string>)
    | Predicate(p: string -> bool)
    | Unsupported

  /** The filter it returns; NoFilter stands for Python's None. */
  datatype FolderFilter =
    | Equal(target: string)
    | Among(targets: seq<string>)
    | Apply(p: string -> bool)
    | NoFilter

  /** [normalize_folder(y) for y in names]; None as soon as one raises. */
  function NormalizeAll(names: seq<string>): (r: Option<seq<string>>)
    ensures r.Some? <==> forall i :: 0 <= i < |names| ==> NormalizeFolder(names[i]).Some?
    ensures r.Some? ==> |r.value| == |names|
    ensures r.Some? ==> forall i :: 0 <= i < |names| ==> r.value[i] == NormalizeFolder(names[i]).value
  {
    if names == [] then Some([])
    else
      var first :- NormalizeFolder(names[0]);
      var rest :- NormalizeAll(names[1..]);
      Some([first] + rest)
  }

  /** make_folderFilter; None where normalizing a given name raises. */
  function MakeFolderFilter(x: FolderSpec): (r: Option<FolderFilter>)
    ensures x.Name? ==> (r.Some? <==> NormalizeFolder(x.name).Some?)
    ensures x.Names? ==> (r.Some? <==> NormalizeAll(x.names).Some?)
    ensures x.Predicate? ==> r == Some(Apply(x.p))
    ensures x.Unsupported? ==> r == Some(NoFilter)
  {
    match x
    case Name(name) =>
      var n :- NormalizeFolder(name);
      Some(Equal(n))
    case Names(names) =>
      var ns :- NormalizeAll(names);
      Some(Among(ns))
    case Predicate(p) => Some(Apply(p))
    case Unsupported => Some(NoFilter)
  }

  /** Calling the filter on a folder; None where Python raises. */
  function Accepts(f: FolderFilter, folder: string): (r: Option<bool>)
    ensures f.NoFilter? ==> r.None?
    ensures !f.NoFilter? ==> (r.Some? <==> NormalizeFolder(folder).Some?)
    ensures f.Equal? && r.Some? ==> r.value == (NormalizeFolder(folder).value == f.target)
  {
    if f.NoFilter? then None
    else
      var n :- NormalizeFolder(folder);
      match f
      case Equal(target) => Some(n == target)
      case Among(targets) => Some(n in targets)
      case Apply(p) => Some(p(n))
  }

  /** A name filter accepts exactly the folders whose normalized name equals the name's. */
  lemma NameFilter(name: string, folder: string)
    requires NormalizeFolder(name).Some? && NormalizeFolder(folder).Some?
    ensures MakeFolderFilter(Name(name)).Some?
    ensures Accepts(MakeFolderFilter(Name(name)).value, folder) ==
      Some(NormalizeFolder(folder) == NormalizeFolder(name))
  {
  }

  /** A collection filter accepts exactly the folders that normalize like one of the names. */
  lemma NamesFilter(names: seq<string>, folder: string)
    requires NormalizeAll(names).Some? && NormalizeFolder(folder).Some?
    ensures MakeFolderFilter(Names(names)).Some?
    ensures Accepts(MakeFolderFilter(Names(names)).value, folder) ==
      Some(exists i :: 0 <= i < |names| && NormalizeFolder(names[i]) == Some(NormalizeFolder(folder).value))
  {
    InNormalized(names, NormalizeFolder(folder).value);
  }

  /** Membership among the normalized names. */
  lemma InNormalized(names: seq<string>, n: string)
    requires NormalizeAll(names).Some?
    ensures n in NormalizeAll(names).value <==>
      exists i :: 0 <= i < |names| && NormalizeFolder(names[i]) == Some(n)
  {
    var ns := NormalizeAll(names).value;
    if n in ns {
      var i :| 0 <= i < |ns| && ns[i] == n;
      assert NormalizeFolder(names[i]) == Some(n);
    }
    if exists i :: 0 <= i < |names| && NormalizeFolder(names[i]) == Some(n) {
      var i :| 0 <= i < |names| && NormalizeFolder(names[i]) == Some(n);
      assert ns[i] == n;
    }
  }

  /** A function filter applies the function to the normalized folder name. */
  lemma PredicateFilter(p: string -> bool, folder: string)
    ensures Accepts(MakeFolderFilter(Predicate(p)).value, folder) ==
      (if NormalizeFolder(folder).Some? then Some(p(NormalizeFolder(folder).value)) else None)
  {
  }

  /** The filter built from a folder's name, or from a one-element list of it, accepts that folder. */
  lemma FilterAcceptsOwnFolder(folder: string)
    requires NormalizeFolder(folder).Some?
    ensures Accepts(MakeFolderFilter(Name(folder)).value, folder) == Some(true)
    ensures Accepts(MakeFolderFilter(Names([folder])).value, folder) == Some(true)
  {
    NameFilter(folder, folder);
    NamesFilter([folder], folder);
  }

  // ---- folder selection in revive ----

  /** Where revive appends the message: an existing folder, or the target it creates. */
  datatype Selection = Existing(folder: string) | Create(folder: string)

  /**
   * The for-else search: the first folder that normalizes like the target,
   * otherwise the target itself. Each step normalizes the folder, then the
   * target; None where either raises.
   */
  function SelectRef(folders: seq<string>, target: string): Option<Selection> {
    if folders == [] then Some(Create(target))
    else
      var f :- NormalizeFolder(folders[0]);
      var t :- NormalizeFolder(target);
      if f == t then Some(Existing(folders[0])) else SelectRef(folders[1..], target)
  }

  /** The folder search of revive; the create and append calls are left to the caller. */
  method SelectFolder(folders: seq<string>, target: string) returns (r: Option<Selection>)
    ensures r == SelectRef(folders, target)
  {
    var i := 0;
    assert folders[0..] == folders;
    while i < |folders|
      invariant 0 <= i <= |folders|
      invariant SelectRef(folders[i..], target) == SelectRef(folders, target)
    {
      assert folders[i..][0] == folders[i] && folders[i..][1..] == folders[i + 1..];
      var f := NormalizeFolder(folders[i]);
      if f.None? {
        return None;
      }
      var t := NormalizeFolder(target);
      if t.None? {
        return None;
      }
      if f == t {
        return Some(Existing(folders[i]));
      }
      i := i + 1;
    }
    return Some(Create(target));
  }

  /** The first folder that normalizes like the target is chosen. */
  lemma {:induction false} SelectFirstMatch(folders: seq<string>, target: string, k: nat)
    requires k < |folders| && NormalizeFolder(target).Some?
    requires forall j :: 0 <= j < k ==>
      NormalizeFolder(folders[j]).Some? && NormalizeFolder(folders[j]) != NormalizeFolder(target)
    requires NormalizeFolder(folders[k]) == NormalizeFolder(target)
    ensures SelectRef(folders, target) == Some(Existing(folders[k]))
    decreases k
  {
    if k > 0 {
      SelectFirstMatch(folders[1..], target, k - 1);
    }
  }

  /** When no folder matches, the target is created. */
  lemma {:induction false} SelectNoMatch(folders: seq<string>, target: string)
    requires folders != [] ==> NormalizeFolder(target).Some?
    requires forall j :: 0 <= j < |folders| ==>
      NormalizeFolder(folders[j]).Some? && NormalizeFolder(folders[j]) != NormalizeFolder(target)
    ensures SelectRef(folders, target) == Some(Create(target))
    decreases |folders|
  {
    if folders != [] {
      SelectNoMatch(folders[1..], target);
    }
  }

  /** A chosen existing folder is one of the folders and normalizes like the target. */
  lemma {:induction false} SelectSound(folders: seq<string>, target: string)
    requires SelectRef(folders, target).Some?
    ensures SelectRef(folders, target).value.Existing? ==>
      SelectRef(folders, target).value.folder in folders &&
      NormalizeFolder(SelectRef(folders, target).value.folder).Some? &&
      NormalizeFolder(SelectRef(folders, target).value.folder) == NormalizeFolder(target)
    ensures SelectRef(folders, target).value.Create? ==>
      SelectRef(folders, target).value.folder == target &&
      forall j :: 0 <= j < |folders| ==> NormalizeFolder(folders[j]) != NormalizeFolder(target)
    decreases |folders|
  {
    if folders != [] && NormalizeFolder(folders[0]) != NormalizeFolder(target) {
      SelectSound(folders[1..], target);
      assert forall j :: 1 <= j < |folders| ==> folders[j] == folders[1..][j - 1];
    }
  }
}
