/**
 * String operations of Python 2 that the source applies: character and
 * substring replacement, strip, ASCII case mapping, and the substitution of
 * runs of the regular-expression class \s (compiled without re.UNICODE, so
 * it is exactly [ \t\n\r\f\v]).
 */
module Text {

  /** str.replace(a, b) for a single character a. */
  function ReplaceChar(s: string, a: char, b: char): (r: string)
    ensures |r| == |s|
    ensures forall i :: 0 <= i < |s| ==> r[i] == (if s[i] == a then b else s[i])
  {
    if s == [] then [] else [if s[0] == a then b else s[0]] + ReplaceChar(s[1..], a, b)
  }

  lemma ReplaceCharBack(s: string, a: char, b: char)
    requires b !in s
    ensures ReplaceChar(ReplaceChar(s, a, b), b, a) == s
  {
    var r := ReplaceChar(ReplaceChar(s, a, b), b, a);
    assert forall i :: 0 <= i < |s| ==> r[i] == s[i];
  }

  /** Replacement works piece by piece. */
  lemma ReplaceCharConcat(x: string, y: string, a: char, b: char)
    ensures ReplaceChar(x + y, a, b) == ReplaceChar(x, a, b) + ReplaceChar(y, a, b)
  {
    var r := ReplaceChar(x, a, b) + ReplaceChar(y, a, b);
    assert forall i :: 0 <= i < |x| ==> r[i] == ReplaceChar(x, a, b)[i] && (x + y)[i] == x[i];
    assert forall i :: |x| <= i < |x| + |y| ==> r[i] == ReplaceChar(y, a, b)[i - |x|] && (x + y)[i] == y[i - |x|];
  }

  // ---- removing one character: str.replace(x, '') ----

  /** str.replace(x, ''): every occurrence of x is dropped, every other character is kept. */
  function RemoveChar(s: string, x: char): (r: string)
    ensures x !in r
    ensures |r| <= |s|
    ensures forall c :: c != x ==> multiset(r)[c] == multiset(s)[c]
  {
    if s == [] then []
    else
      var rest := RemoveChar(s[1..], x);
      assert s == [s[0]] + s[1..];
      if s[0] == x then rest else [s[0]] + rest
  }

  /** Removal works piece by piece, so the kept characters stay in their order. */
  lemma {:induction false} RemoveCharConcat(a: string, b: string, x: char)
    ensures RemoveChar(a + b, x) == RemoveChar(a, x) + RemoveChar(b, x)
    decreases |a|
  {
    if a == [] {
      assert a + b == b;
    } else {
      assert (a + b)[0] == a[0] && (a + b)[1..] == a[1..] + b;
      RemoveCharConcat(a[1..], b, x);
    }
  }

  /** A text without x is left as it is. */
  lemma {:induction false} RemoveCharAbsent(s: string, x: char)
    requires x !in s
    ensures RemoveChar(s, x) == s
    decreases |s|
  {
    if s != [] {
      RemoveCharAbsent(s[1..], x);
      assert [s[0]] + s[1..] == s;
    }
  }

  // ---- substring replacement: str.replace(pat, rep) ----

  /** pat occurs in s at position i. */
  predicate At(s: string, i: int, pat: string) {
    0 <= i && i + |pat| <= |s| && s[i..i + |pat|] == pat
  }

  /** str.replace(pat, rep): non-overlapping occurrences, left to right. */
  function ReplaceAll(s: string, pat: string, rep: string): (r: string)
    requires pat != []
    ensures |rep| >= |pat| ==> |r| >= |s|
    decreases |s|
  {
    if |s| < |pat| then s
    else if s[..|pat|] == pat then rep + ReplaceAll(s[|pat|..], pat, rep)
    else [s[0]] + ReplaceAll(s[1..], pat, rep)
  }

  /** A text in which pat does not occur is left as it is. */
  lemma {:induction false} ReplaceAllAbsent(s: string, pat: string, rep: string)
    requires pat != []
    requires forall i :: 0 <= i <= |s| - |pat| ==> !At(s, i, pat)
    ensures ReplaceAll(s, pat, rep) == s
    decreases |s|
  {
    if |s| >= |pat| {
      assert !At(s, 0, pat);
      var t := s[1..];
      forall i | 0 <= i <= |t| - |pat| ensures !At(t, i, pat) {
        assert !At(s, i + 1, pat);
        assert t[i..i + |pat|] == s[i + 1..i + 1 + |pat|];
      }
      ReplaceAllAbsent(t, pat, rep);
      assert [s[0]] + t == s;
    }
  }

  /** An occurrence at the front is replaced and the rest is processed after it. */
  lemma ReplaceAllFront(pat: string, rep: string, t: string)
    requires pat != []
    ensures ReplaceAll(pat + t, pat, rep) == rep + ReplaceAll(t, pat, rep)
  {
    var s := pat + t;
    assert s[..|pat|] == pat && s[|pat|..] == t;
  }

  // ---- strip ----

  /** Number of leading characters of s that are in cs. */
  function LeadingCount(s: string, cs: set<char>): (k: nat)
    ensures k <= |s|
    ensures forall i :: 0 <= i < k ==> s[i] in cs
    ensures k < |s| ==> s[k] !in cs
  {
    if s == [] || s[0] !in cs then 0 else 1 + LeadingCount(s[1..], cs)
  }

  /** Number of trailing characters of s that are in cs. */
  function TrailingCount(s: string, cs: set<char>): (k: nat)
    ensures k <= |s|
    ensures forall i :: |s| - k <= i < |s| ==> s[i] in cs
    ensures k < |s| ==> s[|s| - k - 1] !in cs
  {
    if s == [] || s[|s| - 1] !in cs then 0 else 1 + TrailingCount(s[..|s| - 1], cs)
  }

  /**
   * s.strip(chars): the longest middle part of s that neither starts nor
   * ends with a character of cs; everything cut away is in cs.
   */
  function Strip(s: string, cs: set<char>): (r: string)
    ensures exists i, j ::
      (0 <= i <= j <= |s| && r == s[i..j] &&
       (forall k :: 0 <= k < i ==> s[k] in cs) &&
       (forall k :: j <= k < |s| ==> s[k] in cs))
    ensures r != [] ==> r[0] !in cs && r[|r| - 1] !in cs
  {
    var i := LeadingCount(s, cs);
    var j := |s| - TrailingCount(s[i..], cs);
    StripBounds(s, cs, i, j);
    s[i..j]
  }

  lemma StripBounds(s: string, cs: set<char>, i: nat, j: int)
    requires i == LeadingCount(s, cs) && j == |s| - TrailingCount(s[i..], cs)
    ensures i <= j <= |s|
    ensures forall k :: j <= k < |s| ==> s[k] in cs
    ensures i < j ==> s[i] !in cs && s[j - 1] !in cs
  {
    var t := s[i..];
    assert forall m :: j <= m < |s| ==> s[m] == t[m - i];
  }

  /** Stripping twice changes nothing more. */
  lemma StripIdempotent(s: string, cs: set<char>)
    ensures Strip(Strip(s, cs), cs) == Strip(s, cs)
  {
    var r := Strip(s, cs);
    assert LeadingCount(r, cs) == 0;
    assert r[0..] == r;
    assert TrailingCount(r, cs) == 0;
    assert r[..|r|] == r;
  }

  /** The characters removed by unicode.strip() without arguments. */
  const UnicodeSpaces: set<char> := {
    '\U{09}', '\U{0A}', '\U{0B}', '\U{0C}', '\U{0D}', '\U{1C}', '\U{1D}', '\U{1E}', '\U{1F}',
    ' ', '\U{85}', '\U{A0}', '\U{1680}', '\U{180E}', '\U{2000}', '\U{2001}', '\U{2002}',
    '\U{2003}', '\U{2004}', '\U{2005}', '\U{2006}', '\U{2007}', '\U{2008}', '\U{2009}',
    '\U{200A}', '\U{2028}', '\U{2029}', '\U{202F}', '\U{205F}', '\U{3000}'
  }

  // ---- runs of \s ----

  /** The class \s of a pattern compiled without re.UNICODE. */
  predicate IsSpace(c: char) {
    c == ' ' || c == '\t' || c == '\n' || c == '\r' || c == '\U{0B}' || c == '\U{0C}'
  }

  lemma AsciiSpaceIsUnicodeSpace(c: char)
    requires IsSpace(c)
    ensures c in UnicodeSpaces
  {
  }

  /** Number of leading characters of s matched by \s. */
  function SpaceRun(s: string): (k: nat)
    ensures k <= |s|
    ensures forall i :: 0 <= i < k ==> IsSpace(s[i])
    ensures k < |s| ==> !IsSpace(s[k])
  {
    if s == [] || !IsSpace(s[0]) then 0 else 1 + SpaceRun(s[1..])
  }

  /** re.sub(r'\s+', ' ', s): each maximal run of \s becomes one space. */
  function Collapse(s: string): (r: string)
    ensures |r| <= |s|
    decreases |s|
  {
    if s == [] then []
    else if IsSpace(s[0]) then " " + Collapse(s[SpaceRun(s)..])
    else [s[0]] + Collapse(s[1..])
  }

  /** No two adjacent \s characters, and the only \s character is the space. */
  predicate Collapsed(t: string) {
    (forall i :: 0 <= i < |t| ==> IsSpace(t[i]) ==> t[i] == ' ') &&
    (forall i :: 0 < i < |t| ==> !(IsSpace(t[i - 1]) && IsSpace(t[i])))
  }

  lemma CollapsedCons(c: char, t: string)
    requires Collapsed(t)
    requires IsSpace(c) ==> c == ' ' && (t == [] || !IsSpace(t[0]))
    ensures Collapsed([c] + t)
  {
    var u := [c] + t;
    forall i | 0 < i < |u| ensures !(IsSpace(u[i - 1]) && IsSpace(u[i])) {
      if i > 1 {
        assert u[i - 1] == t[i - 2] && u[i] == t[i - 1];
      }
    }
  }

  /** Collapsing gives a collapsed text, which starts with \s only where s does. */
  lemma {:induction false} CollapseHead(s: string)
    ensures Collapsed(Collapse(s))
    ensures Collapse(s) != [] && IsSpace(Collapse(s)[0]) ==> s != [] && IsSpace(s[0])
    ensures Collapse(s) == [] <==> s == []
    decreases |s|
  {
    if s == [] {
    } else if IsSpace(s[0]) {
      var k := SpaceRun(s);
      CollapseHead(s[k..]);
      if s[k..] != [] {
        assert s[k..][0] == s[k];
      }
      CollapsedCons(' ', Collapse(s[k..]));
    } else {
      CollapseHead(s[1..]);
      CollapsedCons(s[0], Collapse(s[1..]));
    }
  }

  /** A text that is already collapsed is left as it is. */
  lemma {:induction false} CollapseFixed(t: string)
    requires Collapsed(t)
    ensures Collapse(t) == t
    decreases |t|
  {
    if t != [] {
      var u := t[1..];
      assert Collapsed(u) by {
        forall i | 0 < i < |u| ensures !(IsSpace(u[i - 1]) && IsSpace(u[i])) {
          assert u[i - 1] == t[i] && u[i] == t[i + 1];
        }
      }
      if IsSpace(t[0]) {
        if |t| > 1 {
          assert !IsSpace(t[1]);
        }
        assert SpaceRun(t) == 1;
      }
      CollapseFixed(u);
      assert [t[0]] + u == t;
    }
  }

  /** Collapsing is idempotent. */
  lemma CollapseIdempotent(s: string)
    ensures Collapse(Collapse(s)) == Collapse(s)
  {
    CollapseHead(s);
    CollapseFixed(Collapse(s));
  }

  /** The characters that are not \s, in order. */
  function Words(s: string): string {
    if s == [] then [] else (if IsSpace(s[0]) then [] else [s[0]]) + Words(s[1..])
  }

  lemma {:induction false} WordsDropSpaces(s: string, k: nat)
    requires k <= |s|
    requires forall i :: 0 <= i < k ==> IsSpace(s[i])
    ensures Words(s) == Words(s[k..])
    decreases k
  {
    if k > 0 {
      WordsDropSpaces(s[1..], k - 1);
      assert s[1..][k - 1..] == s[k..];
    }
  }

  /** Collapsing keeps every character that is not \s, in order. */
  lemma {:induction false} CollapseKeepsWords(s: string)
    ensures Words(Collapse(s)) == Words(s)
    decreases |s|
  {
    if s == [] {
    } else if IsSpace(s[0]) {
      var k := SpaceRun(s);
      CollapseKeepsWords(s[k..]);
      WordsDropSpaces(s, k);
      var t := " " + Collapse(s[k..]);
      assert t[0] == ' ' && t[1..] == Collapse(s[k..]);
    } else {
      CollapseKeepsWords(s[1..]);
      var t := [s[0]] + Collapse(s[1..]);
      assert t[0] == s[0] && t[1..] == Collapse(s[1..]);
    }
  }

  /** Collapsing works piece by piece where the pieces do not split a run of \s. */
  lemma {:induction false} CollapseConcat(a: string, b: string)
    requires a == [] || b == [] || !IsSpace(a[|a| - 1]) || !IsSpace(b[0])
    ensures Collapse(a + b) == Collapse(a) + Collapse(b)
    decreases |a|
  {
    if a == [] {
      assert a + b == b;
      assert Collapse(a) + Collapse(b) == Collapse(b);
    } else {
      var ab, rest := a + b, a[1..];
      assert ab[0] == a[0] && ab[1..] == rest + b;
      if rest != [] {
        assert rest[|rest| - 1] == a[|a| - 1];
      }
      CollapseConcat(rest, b);
      var x, y := Collapse(rest), Collapse(b);
      if !IsSpace(a[0]) {
        CollapseWordStep(ab);
        CollapseWordStep(a);
        AppendAssoc3([a[0]], x, y);
      } else if rest != [] && IsSpace(rest[0]) {
        assert ab[1] == rest[0];
        CollapseDropSpace(ab);
        CollapseDropSpace(a);
      } else {
        CollapseOneSpace(ab);
        CollapseOneSpace(a);
        AppendAssoc3(" ", x, y);
      }
    }
  }

  lemma AppendAssoc3(c: string, x: string, y: string)
    ensures c + (x + y) == (c + x) + y
  {
  }

  /** Collapse at a text that starts with a character other than \s. */
  lemma CollapseWordStep(s: string)
    requires s != [] && !IsSpace(s[0])
    ensures Collapse(s) == [s[0]] + Collapse(s[1..])
  {
  }

  /** Of two leading \s characters the first one adds nothing. */
  lemma CollapseDropSpace(s: string)
    requires |s| > 1 && IsSpace(s[0]) && IsSpace(s[1])
    ensures Collapse(s) == Collapse(s[1..])
  {
    var k := SpaceRun(s[1..]);
    assert SpaceRun(s) == 1 + k;
    assert s[1..][k..] == s[1 + k..];
    assert s[1..][0] == s[1];
  }

  /** A \s character standing alone becomes one space. */
  lemma CollapseOneSpace(s: string)
    requires s != [] && IsSpace(s[0]) && (|s| == 1 || !IsSpace(s[1]))
    ensures Collapse(s) == " " + Collapse(s[1..])
  {
    if |s| > 1 {
      assert s[1..][0] == s[1];
    }
    assert SpaceRun(s) == 1;
  }

  /** The run of \s at the front of a + b is that of a when a does not end inside it. */
  lemma {:induction false} SpaceRunPrefix(a: string, b: string, k: nat)
    requires k == SpaceRun(a)
    requires k == |a| ==> b == [] || !IsSpace(b[0])
    ensures SpaceRun(a + b) == k
    decreases k
  {
    if k > 0 {
      assert (a + b)[1..] == a[1..] + b;
      SpaceRunPrefix(a[1..], b, k - 1);
    }
  }

  /** A maximal run of \s between two other characters becomes exactly one space. */
  lemma CollapseRun(u: string, w: string, v: string)
    requires u == [] || !IsSpace(u[|u| - 1])
    requires w != [] && forall i :: 0 <= i < |w| ==> IsSpace(w[i])
    requires v == [] || !IsSpace(v[0])
    ensures Collapse(u + w + v) == Collapse(u) + " " + Collapse(v)
  {
    var wv := w + v;
    assert u + w + v == u + wv;
    CollapseConcat(u, wv);
    SpaceRunPrefix(w, v, |w|);
    assert wv[0] == w[0];
    assert wv[|w|..] == v;
    CollapseLeadingRun(wv);
    AppendAssoc3(Collapse(u), " ", Collapse(v));
  }

  lemma CollapseLeadingRun(s: string)
    requires s != [] && IsSpace(s[0])
    ensures Collapse(s) == " " + Collapse(s[SpaceRun(s)..])
  {
  }

  /** Words works piece by piece. */
  lemma {:induction false} WordsConcat(a: string, b: string)
    ensures Words(a + b) == Words(a) + Words(b)
    decreases |a|
  {
    if a == [] {
      assert a + b == b;
    } else {
      assert (a + b)[0] == a[0] && (a + b)[1..] == a[1..] + b;
      WordsConcat(a[1..], b);
      var h := if IsSpace(a[0]) then [] else [a[0]];
      AppendAssoc3(h, Words(a[1..]), Words(b));
    }
  }

  /** Words keeps characters of s that are not \s, and nothing else. */
  lemma {:induction false} WordsChars(s: string)
    ensures forall k :: 0 <= k < |Words(s)| ==> !IsSpace(Words(s)[k]) && Words(s)[k] in s
    decreases |s|
  {
    if s != [] {
      WordsChars(s[1..]);
      assert forall c :: c in s[1..] ==> c in s;
    }
  }

  /**
   * Stripping cuts away only characters of cs, so the characters that are
   * not \s of the stripped text are a middle part of those of the text,
   * and what lies around it is in cs.
   */
  lemma StripKeepsWords(t: string, cs: set<char>)
    ensures var w := Words(t);
      exists i, j :: 0 <= i <= j <= |w| && Words(Strip(t, cs)) == w[i..j] &&
        (forall k :: 0 <= k < i ==> w[k] in cs) && (forall k :: j <= k < |w| ==> w[k] in cs)
  {
    var r := Strip(t, cs);
    var i0, j0 := StripCut(t, cs);
    var front, back := t[..i0], t[j0..];
    SplitThree(t, i0, j0);
    WordsConcat(front + r, back);
    WordsConcat(front, r);
    assert Words(t) == Words(front) + Words(r) + Words(back);
    WordsInSet(front, cs);
    WordsInSet(back, cs);
    MiddleWitness(Words(front), Words(r), Words(back), cs);
  }

  /** Where strip cuts. */
  lemma StripCut(t: string, cs: set<char>) returns (i: nat, j: nat)
    ensures i <= j <= |t| && Strip(t, cs) == t[i..j]
    ensures forall k :: 0 <= k < |t[..i]| ==> t[..i][k] in cs
    ensures forall k :: 0 <= k < |t[j..]| ==> t[j..][k] in cs
  {
    i := LeadingCount(t, cs);
    j := |t| - TrailingCount(t[i..], cs);
    StripBounds(t, cs, i, j);
    assert Strip(t, cs) == t[i..j];
    assert forall k :: 0 <= k < |t[..i]| ==> t[..i][k] == t[k];
    assert forall k :: 0 <= k < |t[j..]| ==> t[j..][k] == t[j + k];
  }

  lemma SplitThree(t: string, i: nat, j: nat)
    requires i <= j <= |t|
    ensures t == t[..i] + t[i..j] + t[j..]
  {
  }

  /** The characters of Words(s) come from s. */
  lemma WordsInSet(s: string, cs: set<char>)
    requires forall k :: 0 <= k < |s| ==> s[k] in cs
    ensures forall k :: 0 <= k < |Words(s)| ==> Words(s)[k] in cs
  {
    WordsChars(s);
  }

  lemma MiddleWitness(p: string, m: string, q: string, cs: set<char>)
    requires forall k :: 0 <= k < |p| ==> p[k] in cs
    requires forall k :: 0 <= k < |q| ==> q[k] in cs
    ensures var w := p + m + q;
      exists i, j :: 0 <= i <= j <= |w| && m == w[i..j] &&
        (forall k :: 0 <= k < i ==> w[k] in cs) && (forall k :: j <= k < |w| ==> w[k] in cs)
  {
    var w := p + m + q;
    var i, j := |p|, |p| + |m|;
    assert m == w[i..j];
    assert forall k :: 0 <= k < i ==> w[k] == p[k];
    assert forall k :: j <= k < |w| ==> w[k] == q[k - j];
  }

  /** Replacing a character by a space, for Words, is removing it. */
  lemma {:induction false} WordsReplaceBySpace(s: string, c: char)
    requires !IsSpace(c)
    ensures Words(ReplaceChar(s, c, ' ')) == Words(RemoveChar(s, c))
    decreases |s|
  {
    if s != [] {
      var r := ReplaceChar(s, c, ' ');
      assert r[0] == (if s[0] == c then ' ' else s[0]);
      assert r[1..] == ReplaceChar(s[1..], c, ' ');
      WordsReplaceBySpace(s[1..], c);
      if s[0] != c {
        var d := RemoveChar(s, c);
        assert d == [s[0]] + RemoveChar(s[1..], c);
        assert d[0] == s[0] && d[1..] == RemoveChar(s[1..], c);
      }
    }
  }

  /** Removing one character and replacing another commute. */
  lemma {:induction false} RemoveReplaceCommute(s: string, a: char, b: char, c: char)
    requires a != c && b != c
    ensures RemoveChar(ReplaceChar(s, a, b), c) == ReplaceChar(RemoveChar(s, c), a, b)
    decreases |s|
  {
    if s != [] {
      var r := ReplaceChar(s, a, b);
      assert r == [r[0]] + ReplaceChar(s[1..], a, b);
      RemoveReplaceCommute(s[1..], a, b, c);
      if s[0] != c {
        assert RemoveChar(s, c) == [s[0]] + RemoveChar(s[1..], c);
        var d := RemoveChar(s, c);
        assert d[0] == s[0] && d[1..] == RemoveChar(s[1..], c);
      }
    }
  }

  /** A text that neither starts nor ends with a character of cs is not stripped. */
  lemma StripUntouched(s: string, cs: set<char>)
    requires s != [] && s[0] !in cs && s[|s| - 1] !in cs
    ensures Strip(s, cs) == s
  {
    var i, j :| 0 <= i <= j <= |s| && Strip(s, cs) == s[i..j] &&
      (forall k :: 0 <= k < i ==> s[k] in cs) && (forall k :: j <= k < |s| ==> s[k] in cs);
    assert i == 0 && j == |s|;
  }

  /** A text that does not start or end with \s still does not after collapsing. */
  lemma {:induction false} CollapseEnds(s: string)
    requires s != [] && !IsSpace(s[0]) && !IsSpace(s[|s| - 1])
    ensures Collapse(s) != [] && !IsSpace(Collapse(s)[0]) && !IsSpace(Collapse(s)[|Collapse(s)| - 1])
    decreases |s|
  {
    if |s| == 1 {
      assert Collapse(s) == [s[0]] + Collapse([]);
    } else {
      var u := s[1..];
      if IsSpace(u[0]) {
        var k := SpaceRun(u);
        assert k < |u|;
        var v := u[k..];
        assert v[0] == u[k] && v[|v| - 1] == s[|s| - 1];
        CollapseEnds(v);
        assert u[SpaceRun(u)..] == v;
        assert Collapse(u) == " " + Collapse(v);
      } else {
        assert u[|u| - 1] == s[|s| - 1];
        CollapseEnds(u);
      }
      assert Collapse(s) == [s[0]] + Collapse(u);
    }
  }

  /** Collapsing brings in no character other than the space. */
  lemma {:induction false} CollapseChars(s: string)
    ensures forall c :: c in Collapse(s) ==> c == ' ' || c in s
    decreases |s|
  {
    if s == [] {
    } else if IsSpace(s[0]) {
      var k := SpaceRun(s);
      CollapseChars(s[k..]);
      assert forall c :: c in s[k..] ==> c in s;
    } else {
      CollapseChars(s[1..]);
      assert forall c :: c in s[1..] ==> c in s;
    }
  }

  /** Every part of a collapsed text is collapsed. */
  lemma SliceCollapsed(t: string, i: nat, j: nat)
    requires Collapsed(t) && i <= j <= |t|
    ensures Collapsed(t[i..j])
  {
    var u := t[i..j];
    forall k | 0 < k < |u| ensures !(IsSpace(u[k - 1]) && IsSpace(u[k])) {
      assert u[k - 1] == t[i + k - 1] && u[k] == t[i + k];
    }
  }

  // ---- ASCII case mapping ----

  predicate IsUpper(c: char) { 'A' <= c <= 'Z' }
  predicate IsLower(c: char) { 'a' <= c <= 'z' }
  predicate IsLetter(c: char) { IsUpper(c) || IsLower(c) }

  function LowerChar(c: char): (d: char)
    ensures !IsUpper(d)
    ensures IsLetter(c) <==> IsLetter(d)
    ensures IsLetter(c) ==> IsLower(d) && UpperChar(d) == UpperChar(c)
    ensures !IsLetter(c) ==> d == c
  {
    if IsUpper(c) then (c as int + 32) as char else c
  }

  function UpperChar(c: char): (d: char)
    ensures !IsLower(d)
    ensures IsLetter(c) <==> IsLetter(d)
    ensures IsLetter(c) ==> IsUpper(d)
    ensures !IsLetter(c) ==> d == c
  {
    if IsLower(c) then (c as int - 32) as char else c
  }

  /** lower() over ASCII: letters are lower-cased, everything else is kept. */
  function Lower(s: string): (r: string)
    ensures |r| == |s|
    ensures forall i :: 0 <= i < |s| ==> r[i] == LowerChar(s[i])
  {
    if s == [] then [] else [LowerChar(s[0])] + Lower(s[1..])
  }

  /**
   * title() over ASCII: a letter is upper-cased when the character before it
   * is not a letter (or it comes first) and lower-cased otherwise.
   */
  function TitleFrom(s: string, afterLetter: bool): (r: string)
    ensures |r| == |s|
  {
    if s == [] then []
    else
      var c := s[0];
      [if !IsLetter(c) then c else if afterLetter then LowerChar(c) else UpperChar(c)]
        + TitleFrom(s[1..], IsLetter(c))
  }

  function Title(s: string): (r: string)
    ensures |r| == |s|
  {
    TitleFrom(s, false)
  }

  /** Position by position, title() upper-cases exactly the letters that start a word. */
  lemma {:induction false} TitleAt(s: string, afterLetter: bool, i: nat)
    requires i < |s|
    ensures var before := if i == 0 then afterLetter else IsLetter(s[i - 1]);
      TitleFrom(s, afterLetter)[i] ==
        (if !IsLetter(s[i]) then s[i] else if before then LowerChar(s[i]) else UpperChar(s[i]))
    decreases i
  {
    if i > 0 {
      TitleAt(s[1..], IsLetter(s[0]), i - 1);
      if i > 1 {
        assert s[1..][i - 2] == s[i - 1];
      }
    }
  }

  /** Lower-casing does not change which characters are \s, so it commutes with Words. */
  lemma {:induction false} WordsLower(s: string)
    ensures Words(Lower(s)) == Lower(Words(s))
    decreases |s|
  {
    if s != [] {
      var l := Lower(s);
      assert l[0] == LowerChar(s[0]) && l[1..] == Lower(s[1..]);
      assert IsSpace(l[0]) <==> IsSpace(s[0]);
      WordsLower(s[1..]);
      var h := if IsSpace(s[0]) then [] else [s[0]];
      WordsStep(s);
      WordsStep(l);
      LowerConcat(h, Words(s[1..]));
      assert Lower(h) == if IsSpace(l[0]) then [] else [l[0]];
    }
  }

  lemma WordsStep(s: string)
    requires s != []
    ensures Words(s) == (if IsSpace(s[0]) then [] else [s[0]]) + Words(s[1..])
  {
  }

  lemma LowerConcat(a: string, b: string)
    ensures Lower(a + b) == Lower(a) + Lower(b)
  {
  }

  /** Up to case, title() changes nothing. */
  lemma LowerTitle(s: string)
    ensures Lower(Title(s)) == Lower(s)
  {
    forall i | 0 <= i < |s| ensures LowerChar(Title(s)[i]) == LowerChar(s[i]) {
      TitleAt(s, false, i);
    }
  }

  /**
   * title() keeps every character that is not a letter, keeps letters
   * letters, and makes a letter upper-case exactly when no letter precedes it.
   */
  lemma TitleShape(s: string)
    ensures forall i :: 0 <= i < |s| ==> (IsLetter(Title(s)[i]) <==> IsLetter(s[i]))
    ensures forall i :: 0 <= i < |s| && !IsLetter(s[i]) ==> Title(s)[i] == s[i]
    ensures forall i :: 0 <= i < |s| && IsLetter(s[i]) ==>
      (IsUpper(Title(s)[i]) <==> (i == 0 || !IsLetter(s[i - 1])))
  {
    forall i | 0 <= i < |s|
      ensures IsLetter(Title(s)[i]) <==> IsLetter(s[i])
      ensures !IsLetter(s[i]) ==> Title(s)[i] == s[i]
      ensures IsLetter(s[i]) ==> (IsUpper(Title(s)[i]) <==> (i == 0 || !IsLetter(s[i - 1])))
    {
      TitleAt(s, false, i);
    }
  }
}
