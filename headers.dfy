/**
 * Header text: Email._decode and normalize_nickname (imapIO/__init__.py).
 * decode_header, byte-to-text decoding and parseaddr are passed in.
 */
module Headers {
  import opened Wrappers
  import opened Text

  // ---- Email._decode ----

  /** One piece returned by decode_header: its bytes (as text) and its charset, if named. */
  type Pack = (string, Option<string>)

  /** The library calls _decode relies on. */
  datatype HeaderEnv = HeaderEnv(
    decodeHeader: string -> Option<seq<Pack>>,  // email.header.decode_header; None where it raises HeaderParseError
    decodePart: (string, string) -> string)     // part.decode(charset, 'ignore')

  /** The text decode_header is retried on: every "?==?" becomes "?= =?". */
  function Retry(text: string): (r: string)
    ensures |r| >= |text|
  {
    ReplaceAll(text, "?==?", "?= =?")
  }

  /** The packs _decode works on: the raw text, then the retried text, then the text itself as utf-8. */
  function Packs(text: string, env: HeaderEnv): (r: seq<Pack>)
    ensures env.decodeHeader(text).Some? ==> r == env.decodeHeader(text).value
    ensures env.decodeHeader(text).None? && env.decodeHeader(Retry(text)).Some? ==>
      r == env.decodeHeader(Retry(text)).value
    ensures env.decodeHeader(text).None? && env.decodeHeader(Retry(text)).None? ==>
      r == [(text, Some("utf-8"))]
  {
    match env.decodeHeader(text)
    case Some(packs) => packs
    case None =>
      match env.decodeHeader(Retry(text))
      case Some(packs) => packs
      case None => [(text, Some("utf-8"))]
  }

  /** encoding or 'utf-8' */
  function CharsetOrUtf8(encoding: Option<string>): (r: string)
    ensures r != ""
    ensures encoding.Some? && encoding.value != "" ==> r == encoding.value
    ensures encoding.None? || encoding.value == "" ==> r == "utf-8"
  {
    if encoding.Some? && encoding.value != "" then encoding.value else "utf-8"
  }

  /** ''.join(part.decode(encoding or 'utf-8', 'ignore') for part, encoding in packs) */
  function JoinDecoded(packs: seq<Pack>, env: HeaderEnv): (r: string)
    ensures packs == [] ==> r == []
    ensures |packs| == 1 ==> r == env.decodePart(packs[0].0, CharsetOrUtf8(packs[0].1))
  {
    if packs == [] then []
    else
      var first := env.decodePart(packs[0].0, CharsetOrUtf8(packs[0].1));
      assert |packs| == 1 ==> packs[1..] == [] && first + [] == first;
      first + JoinDecoded(packs[1..], env)
  }

  /** The join goes pack by pack: the decoded text of a + b is that of a followed by that of b. */
  lemma {:induction false} JoinDecodedConcat(a: seq<Pack>, b: seq<Pack>, env: HeaderEnv)
    ensures JoinDecoded(a + b, env) == JoinDecoded(a, env) + JoinDecoded(b, env)
    decreases |a|
  {
    if a == [] {
      assert a + b == b;
    } else {
      assert (a + b)[0] == a[0] && (a + b)[1..] == a[1..] + b;
      JoinDecodedConcat(a[1..], b, env);
      var first := env.decodePart(a[0].0, CharsetOrUtf8(a[0].1));
      AppendAssoc3(first, JoinDecoded(a[1..], env), JoinDecoded(b, env));
    }
  }

  /**
   * _decode: never fails; the result is trimmed of whitespace at both ends
   * and every run of \s inside it is one space.
   */
  function DecodeText(text: string, env: HeaderEnv): (r: string)
    ensures Collapsed(r)
    ensures r != [] ==> !IsSpace(r[0]) && !IsSpace(r[|r| - 1])
  {
    var stripped := Strip(JoinDecoded(Packs(text, env), env), UnicodeSpaces);
    TrimmedShape(stripped);
    Collapse(stripped)
  }

  /** A text stripped of Unicode spaces, once collapsed, starts and ends with no \s. */
  lemma TrimmedShape(t: string)
    requires t != [] ==> t[0] !in UnicodeSpaces && t[|t| - 1] !in UnicodeSpaces
    ensures Collapsed(Collapse(t))
    ensures Collapse(t) != [] ==> !IsSpace(Collapse(t)[0]) && !IsSpace(Collapse(t)[|Collapse(t)| - 1])
  {
    CollapseHead(t);
    if t != [] {
      if IsSpace(t[0]) {
        AsciiSpaceIsUnicodeSpace(t[0]);
      }
      if IsSpace(t[|t| - 1]) {
        AsciiSpaceIsUnicodeSpace(t[|t| - 1]);
      }
      CollapseEnds(t);
    }
  }

  /** When decode_header parses the raw text, its packs are decoded, joined and normalised. */
  lemma DecodeParsed(text: string, env: HeaderEnv)
    requires env.decodeHeader(text).Some?
    ensures DecodeText(text, env) ==
      Collapse(Strip(JoinDecoded(env.decodeHeader(text).value, env), UnicodeSpaces))
  {
  }

  /** When only the retried text parses, its packs are decoded, joined and normalised. */
  lemma DecodeRetried(text: string, env: HeaderEnv)
    requires env.decodeHeader(text).None? && env.decodeHeader(Retry(text)).Some?
    ensures DecodeText(text, env) ==
      Collapse(Strip(JoinDecoded(env.decodeHeader(Retry(text)).value, env), UnicodeSpaces))
  {
  }

  /**
   * Normalising loses no word: the characters of the result that are not
   * \s are those of the joined text, less the Unicode white space cut from
   * its two ends.
   */
  lemma DecodeKeepsWords(text: string, env: HeaderEnv)
    ensures exists i, j :: DecodeCut(text, env, i, j)
  {
    var joined := JoinDecoded(Packs(text, env), env);
    var stripped := Strip(joined, UnicodeSpaces);
    StripKeepsWords(joined, UnicodeSpaces);
    CollapseKeepsWords(stripped);
    var w := Words(joined);
    var i, j :| 0 <= i <= j <= |w| && Words(stripped) == w[i..j] &&
      (forall k :: 0 <= k < i ==> w[k] in UnicodeSpaces) &&
      (forall k :: j <= k < |w| ==> w[k] in UnicodeSpaces);
    assert DecodeCut(text, env, i, j);
  }

  /** Words(DecodeText(text, env)) is the middle w[i..j] of the joined text's words w, cut around by Unicode spaces. */
  ghost predicate DecodeCut(text: string, env: HeaderEnv, i: int, j: int) {
    var w := Words(JoinDecoded(Packs(text, env), env));
    0 <= i <= j <= |w| && Words(DecodeText(text, env)) == w[i..j] &&
    (forall k :: 0 <= k < i ==> w[k] in UnicodeSpaces) &&
    (forall k :: j <= k < |w| ==> w[k] in UnicodeSpaces)
  }

  /** When decode_header raises on both attempts, the raw text is decoded as utf-8. */
  lemma DecodeFallback(text: string, env: HeaderEnv)
    requires env.decodeHeader(text).None? && env.decodeHeader(Retry(text)).None?
    ensures DecodeText(text, env) == Collapse(Strip(env.decodePart(text, "utf-8"), UnicodeSpaces))
  {
    var packs := Packs(text, env);
    assert packs == [(text, Some("utf-8"))];
    assert packs[1..] == [];
    assert CharsetOrUtf8(Some("utf-8")) == "utf-8";
    var d := env.decodePart(text, "utf-8");
    assert JoinDecoded(packs, env) == d + [];
    assert d + [] == d;
    assert DecodeText(text, env) == Collapse(Strip(JoinDecoded(packs, env), UnicodeSpaces));
  }

  /** A header without "?==?" is retried unchanged, so the retry cannot succeed where the first call failed. */
  lemma RetryWithoutJoinedWords(text: string)
    requires forall i :: 0 <= i <= |text| - 4 ==> !At(text, i, "?==?")
    ensures Retry(text) == text
  {
    ReplaceAllAbsent(text, "?==?", "?= =?");
  }

  /** Adjacent encoded words "?==?" are split apart for the retry. */
  lemma RetrySplitsWords(t: string)
    ensures Retry("?==?" + t) == "?= =?" + Retry(t)
  {
    ReplaceAllFront("?==?", "?= =?", t);
  }

  /** A text that is already trimmed and collapsed, and decodes to itself, comes back unchanged. */
  lemma DecodeNormalFixed(text: string, env: HeaderEnv)
    requires Collapsed(text)
    requires text != [] ==> text[0] !in UnicodeSpaces && text[|text| - 1] !in UnicodeSpaces
    requires JoinDecoded(Packs(text, env), env) == text
    ensures DecodeText(text, env) == text
  {
    assert LeadingCount(text, UnicodeSpaces) == 0;
    assert text[0..] == text;
    assert TrailingCount(text, UnicodeSpaces) == 0;
    assert text[..|text|] == text;
    CollapseFixed(text);
  }

  // ---- normalize_nickname ----

  /** Length of the leading run of characters other than ','. */
  function NonCommaRun(s: string): (k: nat)
    ensures k <= |s|
    ensures forall i :: 0 <= i < k ==> s[i] != ','
    ensures k < |s| ==> s[k] == ','
  {
    if s == [] || s[0] == ',' then 0 else 1 + NonCommaRun(s[1..])
  }

  /**
   * PATTERN_DOMAIN.sub('', s) for the pattern @[^,]+|/[^,]+: from left to
   * right, an '@' or '/' followed by at least one character other than ','
   * is removed together with the longest run of such characters after it.
   */
  function StripDomains(s: string): (r: string)
    ensures |r| <= |s|
    ensures s != [] && s[0] == ',' ==> r != [] && r[0] == ','
    decreases |s|
  {
    if s == [] then []
    else if (s[0] == '@' || s[0] == '/') && |s| > 1 && s[1] != ',' then
      StripDomains(s[1 + NonCommaRun(s[1..])..])
    else [s[0]] + StripDomains(s[1..])
  }

  /** Every '@' or '/' ends the text or is followed by ','. */
  predicate NoDomain(r: string) {
    forall i :: 0 <= i < |r| - 1 && (r[i] == '@' || r[i] == '/') ==> r[i + 1] == ','
  }

  lemma NoDomainCons(c: char, t: string)
    requires NoDomain(t)
    requires (c == '@' || c == '/') && t != [] ==> t[0] == ','
    ensures NoDomain([c] + t)
  {
    var r := [c] + t;
    forall i | 0 <= i < |r| - 1 && (r[i] == '@' || r[i] == '/') ensures r[i + 1] == ',' {
      if i > 0 {
        assert r[i] == t[i - 1] && r[i + 1] == t[i];
      }
    }
  }

  /** After the substitution, every '@' or '/' left ends the text or is followed by ','. */
  lemma {:induction false} StripDomainsLeavesNoDomain(s: string)
    ensures NoDomain(StripDomains(s))
    decreases |s|
  {
    if s == [] {
    } else if (s[0] == '@' || s[0] == '/') && |s| > 1 && s[1] != ',' {
      StripDomainsLeavesNoDomain(s[1 + NonCommaRun(s[1..])..]);
    } else {
      StripDomainsLeavesNoDomain(s[1..]);
      if |s| > 1 {
        assert s[1..][0] == s[1];
      }
      NoDomainCons(s[0], StripDomains(s[1..]));
    }
  }

  /** A text with no '@' and no '/' passes through unchanged. */
  lemma {:induction false} StripDomainsAbsent(s: string)
    requires '@' !in s && '/' !in s
    ensures StripDomains(s) == s
    decreases |s|
  {
    if s != [] {
      assert s[0] != '@' && s[0] != '/';
      StripDomainsAbsent(s[1..]);
      assert [s[0]] + s[1..] == s;
    }
  }

  /** Text before the first '@' or '/' is kept as it is. */
  lemma {:induction false} StripDomainsKeepsPrefix(user: string, t: string)
    requires '@' !in user && '/' !in user
    ensures StripDomains(user + t) == user + StripDomains(t)
    decreases |user|
  {
    var s := user + t;
    if user == [] {
      assert s == t;
    } else {
      assert s[0] == user[0] && s[1..] == user[1..] + t;
      assert StripDomains(s) == [user[0]] + StripDomains(user[1..] + t);
      StripDomainsKeepsPrefix(user[1..], t);
      assert [user[0]] + (user[1..] + StripDomains(t)) == user + StripDomains(t);
    }
  }

  /** "@domain" or "/path" disappears up to the ',' or the end that closes it. */
  lemma StripDomainsDomain(mark: char, domain: string, rest: string)
    requires mark == '@' || mark == '/'
    requires domain != [] && ',' !in domain && (rest == [] || rest[0] == ',')
    ensures StripDomains([mark] + domain + rest) == StripDomains(rest)
  {
    var s := [mark] + domain + rest;
    assert s[0] == mark && s[1] == domain[0] && s[1..] == domain + rest;
    NonCommaPrefix(domain, rest);
    assert s[1 + |domain|..] == rest;
  }

  /** An address "user@domain," reads as "user,": the domain goes. */
  lemma StripDomainsAt(user: string, domain: string, rest: string)
    requires '@' !in user && '/' !in user && domain != [] && ',' !in domain
    ensures StripDomains(user + "@" + domain + "," + rest) == user + StripDomains("," + rest)
  {
    assert user + "@" + domain + "," + rest == user + ("@" + domain + ("," + rest));
    StripDomainsKeepsPrefix(user, "@" + domain + ("," + rest));
    assert "@" + domain + ("," + rest) == ['@'] + domain + ("," + rest);
    StripDomainsDomain('@', domain, "," + rest);
  }

  lemma {:induction false} NonCommaPrefix(a: string, b: string)
    requires ',' !in a && (b == [] || b[0] == ',')
    ensures NonCommaRun(a + b) == |a|
    decreases |a|
  {
    if a != [] {
      assert (a + b)[1..] == a[1..] + b;
      NonCommaPrefix(a[1..], b);
    } else {
      assert a + b == b;
    }
  }

  /** The characters a nickname is stripped of at its ends. */
  const QuoteAndSpace: set<char> := {'"', ' '}

  /** What normalize_nickname promises of its result. */
  predicate NicknameShaped(r: string) {
    '.' !in r && '_' !in r && Collapsed(r) &&
    (r != [] ==> r[0] !in QuoteAndSpace && r[|r| - 1] !in QuoteAndSpace) &&
    forall i :: 0 <= i < |r| && IsLetter(r[i]) ==> (IsUpper(r[i]) <==> (i == 0 || !IsLetter(r[i - 1])))
  }

  /**
   * normalize_nickname on parseaddr's result: the display name, or the
   * address when it is empty; addresses and paths removed; '.' and '_' read as
   * spaces; whitespace collapsed; quotes and spaces trimmed; title-cased.
   */
  function NormalizeNickname(nickname: string, address: string): (r: string)
    ensures NicknameShaped(r)
  {
    var name := if nickname == "" then address else nickname;
    NicknameOfShaped(name);
    NicknameOf(name)
  }

  /** The stages normalize_nickname puts the chosen name through. */
  function NicknameOf(name: string): string {
    Title(Strip(Collapse(Spaced(StripDomains(name))), QuoteAndSpace))
  }

  /** '.' and '_' read as spaces. */
  function Spaced(s: string): string {
    ReplaceChar(ReplaceChar(s, '.', ' '), '_', ' ')
  }

  lemma NicknameOfShaped(name: string)
    ensures NicknameShaped(NicknameOf(name))
  {
    var spaced := Spaced(StripDomains(name));
    SpacedHasNoDots(StripDomains(name));
    CollapsedHasNoDots(spaced);
    var trimmed := Strip(Collapse(spaced), QuoteAndSpace);
    TrimmedHasNoDots(Collapse(spaced));
    TitleShaped(trimmed);
  }

  lemma SpacedHasNoDots(s: string)
    ensures '.' !in Spaced(s) && '_' !in Spaced(s)
  {
    var dotless := ReplaceChar(s, '.', ' ');
    var spaced := ReplaceChar(dotless, '_', ' ');
    forall i | 0 <= i < |spaced| ensures spaced[i] != '.' && spaced[i] != '_' {
      assert dotless[i] != '.';
    }
  }

  lemma CollapsedHasNoDots(spaced: string)
    requires '.' !in spaced && '_' !in spaced
    ensures '.' !in Collapse(spaced) && '_' !in Collapse(spaced) && Collapsed(Collapse(spaced))
  {
    CollapseChars(spaced);
    CollapseHead(spaced);
  }

  lemma TrimmedHasNoDots(collapsed: string)
    requires '.' !in collapsed && '_' !in collapsed && Collapsed(collapsed)
    ensures var t := Strip(collapsed, QuoteAndSpace);
      '.' !in t && '_' !in t && Collapsed(t)
  {
    var t := Strip(collapsed, QuoteAndSpace);
    var i, j :| 0 <= i <= j <= |collapsed| && t == collapsed[i..j];
    SliceCollapsed(collapsed, i, j);
    assert forall c :: c in t ==> c in collapsed;
  }

  /** Title-casing a trimmed, collapsed text without '.' or '_' gives a nickname of the promised shape. */
  lemma TitleShaped(t: string)
    requires '.' !in t && '_' !in t && Collapsed(t)
    requires t != [] ==> t[0] !in QuoteAndSpace && t[|t| - 1] !in QuoteAndSpace
    ensures NicknameShaped(Title(t))
  {
    TitleShape(t);
    var r := Title(t);
    forall k | 0 <= k < |r| ensures r[k] != '.' && r[k] != '_' && (IsSpace(r[k]) ==> r[k] == t[k]) {
      if !IsLetter(t[k]) {
        assert r[k] == t[k];
      }
    }
    if r != [] {
      assert !IsLetter(t[0]) ==> r[0] == t[0];
      assert !IsLetter(t[|t| - 1]) ==> r[|r| - 1] == t[|t| - 1];
    }
  }

  /** A non-empty run of ASCII letters. */
  predicate Letters(w: string) {
    w != [] && forall i :: 0 <= i < |w| ==> IsLetter(w[i])
  }

  /** A word as title() leaves it: first letter upper-case, the rest lower-case. */
  function Capitalized(w: string): (r: string)
    requires w != []
    ensures |r| == |w|
  {
    [UpperChar(w[0])] + Lower(w[1..])
  }

  /** normalize_nickname of a name that, once its domains are gone and its spaces collapsed, is two words. */
  lemma TwoWordsNickname(name: string, bare: string, a: string, b: string)
    requires Letters(a) && Letters(b)
    requires StripDomains(name) == bare && Collapse(Spaced(bare)) == a + " " + b
    ensures NicknameOf(name) == Capitalized(a) + " " + Capitalized(b)
  {
    var t := a + " " + b;
    assert t[0] == a[0] && t[|t| - 1] == b[|b| - 1];
    StripUntouched(t, QuoteAndSpace);
    TitleTwoWords(a, b);
  }

  /** title() capitalizes each of two words of letters. */
  lemma TitleTwoWords(a: string, b: string)
    requires Letters(a) && Letters(b)
    ensures Title(a + " " + b) == Capitalized(a) + " " + Capitalized(b)
  {
    TitleWords(a + " " + b, Capitalized(a) + " " + Capitalized(b));
  }

  /** Spaced works piece by piece. */
  lemma SpacedConcat(x: string, y: string)
    ensures Spaced(x + y) == Spaced(x) + Spaced(y)
  {
    ReplaceCharConcat(x, y, '.', ' ');
    ReplaceCharConcat(ReplaceChar(x, '.', ' '), ReplaceChar(y, '.', ' '), '_', ' ');
  }

  /** A text of letters has nothing to space. */
  lemma SpacedLetters(w: string)
    requires forall i :: 0 <= i < |w| ==> IsLetter(w[i])
    ensures Spaced(w) == w
  {
    assert ReplaceChar(w, '.', ' ') == w;
  }

  /**
   * An address user.name@domain has no display name; its nickname is the two
   * words of the user part, capitalized.
   */
  lemma NicknameOfDottedAddress(a: string, b: string, domain: string)
    requires Letters(a) && Letters(b) && domain != [] && ',' !in domain
    ensures NormalizeNickname("", a + "." + b + "@" + domain) == Capitalized(a) + " " + Capitalized(b)
  {
    var user := a + "." + b;
    assert '@' !in user && '/' !in user;
    assert a + "." + b + "@" + domain == user + (['@'] + domain + "");
    StripDomainsKeepsPrefix(user, ['@'] + domain + "");
    StripDomainsDomain('@', domain, "");
    SpacedConcat(a + ".", b);
    SpacedConcat(a, ".");
    SpacedLetters(a);
    SpacedLetters(b);
    assert Spaced(".") == " ";
    TwoWordsCollapsed(a, " ", b);
    TwoWordsNickname(a + "." + b + "@" + domain, user, a, b);
  }

  /** A display name "First. Last": the '.' goes, the two spaces collapse, the words are capitalized. */
  lemma NicknameOfDisplayName(a: string, b: string, address: string)
    requires Letters(a) && Letters(b)
    ensures NormalizeNickname(a + ". " + b, address) == Capitalized(a) + " " + Capitalized(b)
  {
    var name := a + ". " + b;
    assert '@' !in name && '/' !in name;
    StripDomainsAbsent(name);
    assert name == a + ". " + b;
    SpacedConcat(a + ". ", b);
    SpacedConcat(a, ". ");
    SpacedLetters(a);
    SpacedLetters(b);
    assert Spaced(". ") == "  ";
    TwoWordsCollapsed(a, "  ", b);
    TwoWordsNickname(name, name, a, b);
  }

  /** Two words joined by a run of \s collapse to the words joined by one space. */
  lemma TwoWordsCollapsed(u: string, w: string, v: string)
    requires u != [] && v != []
    requires forall i :: 0 <= i < |u| ==> !IsSpace(u[i])
    requires w != [] && forall i :: 0 <= i < |w| ==> IsSpace(w[i])
    requires forall i :: 0 <= i < |v| ==> !IsSpace(v[i])
    ensures Collapse(u + w + v) == u + " " + v
  {
    CollapseRun(u, w, v);
    CollapseFixed(u);
    CollapseFixed(v);
  }

  /** tests.py: parseaddr('person.one@example.com') is ('', address), whose nickname is 'Person One'. */
  lemma NicknameFromAddress()
    ensures NormalizeNickname("", "person.one@example.com") == "Person One"
  {
    AddressExample("person", "one", "example.com", "person.one@example.com");
  }

  lemma AddressExample(a: string, b: string, domain: string, address: string)
    requires a == "person" && b == "one" && domain == "example.com"
    requires address == "person.one@example.com"
    ensures NormalizeNickname("", address) == "Person One"
  {
    assert address == a + "." + b + "@" + domain;
    NicknameOfDottedAddress(a, b, domain);
    CapitalizedExamples();
  }

  /** tests.py: 'Mr. Person <person.one@example.com>' gives the nickname 'Mr Person'. */
  lemma NicknameFromDisplayName()
    ensures NormalizeNickname("Mr. Person", "person.one@example.com") == "Mr Person"
  {
    DisplayNameExample("Mr", "Person", "Mr. Person", "person.one@example.com");
  }

  lemma DisplayNameExample(a: string, b: string, name: string, address: string)
    requires a == "Mr" && b == "Person" && name == "Mr. Person"
    ensures NormalizeNickname(name, address) == "Mr Person"
  {
    assert name == a + ". " + b;
    NicknameOfDisplayName(a, b, address);
    CapitalizedExamples();
  }

  lemma CapitalizedExamples()
    ensures Capitalized("person") + " " + Capitalized("one") == "Person One"
    ensures Capitalized("Mr") + " " + Capitalized("Person") == "Mr Person"
  {
  }

  /** title() of a text, position by position. */
  lemma TitleWords(s: string, t: string)
    requires |s| == |t|
    requires forall i {:trigger t[i]} :: 0 <= i < |s| ==>
      t[i] == (if !IsLetter(s[i]) then s[i]
               else if i > 0 && IsLetter(s[i - 1]) then LowerChar(s[i]) else UpperChar(s[i]))
    ensures Title(s) == t
  {
    forall i | 0 <= i < |s| ensures Title(s)[i] == t[i] {
      TitleAt(s, false, i);
    }
  }

  /**
   * The nickname loses no character of the name but those it is meant to:
   * up to case, its characters that are not \s are those of the name with
   * addresses, paths, '.' and '_' removed, less the quotes cut from the two ends.
   */
  lemma NicknameWords(nickname: string, address: string)
    ensures exists i, j :: NicknameCut(nickname, address, i, j)
  {
    var name := if nickname == "" then address else nickname;
    var bare := StripDomains(name);
    var kept := Words(RemoveChar(RemoveChar(bare, '_'), '.'));
    var spaced := Spaced(bare);
    SpacedWords(bare);
    var collapsed := Collapse(spaced);
    CollapseKeepsWords(spaced);
    var trimmed := Strip(collapsed, QuoteAndSpace);
    StripKeepsWords(collapsed, QuoteAndSpace);
    var i, j :| 0 <= i <= j <= |kept| && Words(trimmed) == kept[i..j] &&
      (forall k :: 0 <= k < i ==> kept[k] in QuoteAndSpace) &&
      (forall k :: j <= k < |kept| ==> kept[k] in QuoteAndSpace);
    WordsChars(collapsed);
    assert forall k :: 0 <= k < |kept| ==> !IsSpace(kept[k]);
    TitleWordsLower(trimmed);
    assert NicknameOf(name) == Title(trimmed);
    assert Lower(Words(NicknameOf(name))) == Lower(kept[i..j]);
    forall k | 0 <= k < i || j <= k < |kept| ensures kept[k] == '"' {
      OnlyQuote(kept[k]);
    }
    assert NicknameCut(nickname, address, i, j);
  }

  lemma OnlyQuote(c: char)
    requires c in QuoteAndSpace && !IsSpace(c)
    ensures c == '"'
  {
  }

  /** For Words, '.' and '_' read as spaces are '.' and '_' removed. */
  lemma SpacedWords(bare: string)
    ensures Words(Spaced(bare)) == Words(RemoveChar(RemoveChar(bare, '_'), '.'))
  {
    var dotted := ReplaceChar(bare, '.', ' ');
    WordsReplaceBySpace(dotted, '_');
    RemoveReplaceCommute(bare, '.', ' ', '_');
    WordsReplaceBySpace(RemoveChar(bare, '_'), '.');
  }

  /** Up to case, title() keeps the characters that are not \s. */
  lemma TitleWordsLower(t: string)
    ensures Lower(Words(Title(t))) == Lower(Words(t))
  {
    WordsLower(Title(t));
    LowerTitle(t);
    WordsLower(t);
  }

  /**
   * Lower(Words(nickname)) is Lower(kept[i..j]), where kept is what is not
   * \s in the name with addresses, paths, '_' and '.' removed, and what
   * lies outside kept[i..j] is '"'.
   */
  ghost predicate NicknameCut(nickname: string, address: string, i: int, j: int) {
    var name := if nickname == "" then address else nickname;
    var kept := Words(RemoveChar(RemoveChar(StripDomains(name), '_'), '.'));
    0 <= i <= j <= |kept| &&
    Lower(Words(NormalizeNickname(nickname, address))) == Lower(kept[i..j]) &&
    (forall k :: 0 <= k < i ==> kept[k] == '"') &&
    (forall k :: j <= k < |kept| ==> kept[k] == '"')
  }
}
