/** The string operations of the Python runtime that the payload normaliser
    uses: `str.strip()`, `str.startswith`, the `in` operator on strings,
    `str.replace`, and the substitution `re.sub(r'<[^>]+>', '', s)`. */
module Text {

  /** Python's `str.isspace()` on one character. */
  predicate IsSpace(c: char)
  {
    c == ' ' || ('\t' <= c <= '\r') || ('\U{1C}' <= c <= '\U{1F}')
    || c == '\U{85}' || c == '\U{A0}' || c == '\U{1680}' || ('\U{2000}' <= c <= '\U{200A}')
    || c == '\U{2028}' || c == '\U{2029}' || c == '\U{202F}' || c == '\U{205F}' || c == '\U{3000}'
  }

  predicate AllSpace(s: string)
  {
    forall i :: 0 <= i < |s| ==> IsSpace(s[i])
  }

  /** The number of whitespace characters `s[lo..]` starts with. */
  function LeadFrom(s: string, lo: nat): (n: nat)
    requires lo <= |s|
    ensures lo + n <= |s|
    decreases |s| - lo
  {
    if lo < |s| && IsSpace(s[lo]) then 1 + LeadFrom(s, lo + 1) else 0
  }

  /** The number of whitespace characters `s[lo..hi]` ends with. */
  function TrailFrom(s: string, lo: nat, hi: nat): (n: nat)
    requires lo <= hi <= |s|
    ensures lo + n <= hi
  {
    if lo < hi && IsSpace(s[hi - 1]) then 1 + TrailFrom(s, lo, hi - 1) else 0
  }

  lemma {:induction false} LeadFromSpaces(s: string, lo: nat)
    requires lo <= |s|
    ensures forall k :: lo <= k < lo + LeadFrom(s, lo) ==> IsSpace(s[k])
    ensures lo + LeadFrom(s, lo) < |s| ==> !IsSpace(s[lo + LeadFrom(s, lo)])
    decreases |s| - lo
  {
    if lo < |s| && IsSpace(s[lo]) {
      LeadFromSpaces(s, lo + 1);
    }
  }

  lemma {:induction false} TrailFromSpaces(s: string, lo: nat, hi: nat)
    requires lo <= hi <= |s|
    ensures forall k :: hi - TrailFrom(s, lo, hi) <= k < hi ==> IsSpace(s[k])
    ensures lo < hi - TrailFrom(s, lo, hi) ==> !IsSpace(s[hi - TrailFrom(s, lo, hi) - 1])
  {
    if lo < hi && IsSpace(s[hi - 1]) {
      TrailFromSpaces(s, lo, hi - 1);
    }
  }

  /** Python's `s.strip()`: the infix of `s` left when whitespace is removed from both ends. */
  function Strip(s: string): (r: string)
    ensures r == [] || (!IsSpace(r[0]) && !IsSpace(r[|r| - 1]))
    ensures var lead := LeadFrom(s, 0);
      lead + |r| <= |s| && r == s[lead..lead + |r|]
      && AllSpace(s[..lead]) && AllSpace(s[lead + |r|..])
  {
    var lead := LeadFrom(s, 0);
    var trail := TrailFrom(s, lead, |s|);
    LeadFromSpaces(s, 0);
    TrailFromSpaces(s, lead, |s|);
    s[lead..|s| - trail]
  }

  lemma {:induction false} LeadFromOf(a: string, t: string, lo: nat)
    requires lo <= |a| && AllSpace(a) && (t == [] || !IsSpace(t[0]))
    ensures LeadFrom(a + t, lo) == |a| - lo
    decreases |a| - lo
  {
    var s := a + t;
    if lo < |a| {
      assert s[lo] == a[lo];
      LeadFromOf(a, t, lo + 1);
    } else if t != [] {
      assert s[lo] == t[0];
    }
  }

  lemma {:induction false} TrailFromOf(s: string, lo: nat, m: nat, hi: nat)
    requires lo <= m <= hi <= |s|
    requires forall k :: m <= k < hi ==> IsSpace(s[k])
    requires lo < m ==> !IsSpace(s[m - 1])
    ensures TrailFrom(s, lo, hi) == hi - m
  {
    if m < hi {
      TrailFromOf(s, lo, m, hi - 1);
    }
  }

  /** Strip has exactly one answer: surrounding whitespace around a core that
      neither starts nor ends with whitespace strips to that core. */
  lemma StripOf(a: string, u: string, b: string)
    requires AllSpace(a) && AllSpace(b)
    requires u == [] || (!IsSpace(u[0]) && !IsSpace(u[|u| - 1]))
    ensures Strip(a + u + b) == u
  {
    var s := a + u + b;
    if u == [] {
      assert LeadFrom(s, 0) == |s| by {
        assert s == (a + b) + [];
        assert AllSpace(a + b) by {
          assert forall k :: |a| <= k < |a + b| ==> (a + b)[k] == b[k - |a|];
        }
        LeadFromOf(a + b, [], 0);
      }
      assert s[|s|..] == [];
    } else {
      var m := |a| + |u|;
      assert LeadFrom(s, 0) == |a| by {
        assert s == a + (u + b);
        LeadFromOf(a, u + b, 0);
      }
      assert TrailFrom(s, |a|, |s|) == |s| - m by {
        assert s[m - 1] == u[|u| - 1];
        assert forall k :: m <= k < |s| ==> s[k] == b[k - m];
        TrailFromOf(s, |a|, m, |s|);
      }
      assert s[|a|..m] == u;
    }
  }

  predicate IsPrefix(p: string, s: string)
  {
    |p| <= |s| && s[..|p|] == p
  }

  /** Python's `p in s`. */
  predicate Contains(s: string, p: string)
  {
    exists i :: 0 <= i <= |s| - |p| && IsPrefix(p, s[i..])
  }

  /** Python's `s.find(p)`: the leftmost position where `p` occurs, or -1. */
  function Find(s: string, p: string): (i: int)
    ensures -1 <= i <= |s|
    ensures i >= 0 ==> IsPrefix(p, s[i..]) && forall j :: 0 <= j < i ==> !IsPrefix(p, s[j..])
    ensures i < 0 <==> !Contains(s, p)
    decreases |s|
  {
    if IsPrefix(p, s) then
      assert s[0..] == s;
      0
    else if s == [] then -1
    else
      var j := Find(s[1..], p);
      assert forall k :: 1 <= k <= |s| ==> s[k..] == s[1..][k - 1..];
      assert s[0..] == s;
      if j < 0 then -1 else j + 1
  }

  /** Surrounding whitespace neither creates nor hides an occurrence of a
      pattern that has no whitespace. */
  lemma ContainsWithinSpaces(a: string, u: string, b: string, p: string)
    requires AllSpace(a) && AllSpace(b)
    requires p != [] && forall k :: 0 <= k < |p| ==> !IsSpace(p[k])
    ensures Contains(a + u + b, p) <==> Contains(u, p)
  {
    if Contains(a + u + b, p) {
      ContainedInCore(a, u, b, p);
    }
    if Contains(u, p) {
      ContainedInWhole(a, u, b, p);
    }
  }

  /** An occurrence in the whole lies within the core. */
  lemma ContainedInCore(a: string, u: string, b: string, p: string)
    requires AllSpace(a) && AllSpace(b)
    requires p != [] && forall k :: 0 <= k < |p| ==> !IsSpace(p[k])
    requires Contains(a + u + b, p)
    ensures Contains(u, p)
  {
    var s := a + u + b;
    var n := |p|;
    var i :| 0 <= i <= |s| - n && IsPrefix(p, s[i..]);
    assert s[i..][..n] == s[i..i + n];
    assert !IsSpace(s[i]) && !IsSpace(s[i + n - 1]);
    assert forall k :: 0 <= k < |a| ==> IsSpace(s[k]);
    assert forall k :: |a| + |u| <= k < |s| ==> IsSpace(s[k]);
    assert u[i - |a|..][..n] == s[i..i + n];
  }

  /** An occurrence in the core is one in the whole. */
  lemma ContainedInWhole(a: string, u: string, b: string, p: string)
    requires Contains(u, p)
    ensures Contains(a + u + b, p)
  {
    var s := a + u + b;
    var n := |p|;
    var j :| 0 <= j <= |u| - n && IsPrefix(p, u[j..]);
    assert s[|a| + j..][..n] == u[j..][..n];
  }

  lemma ContainsThroughStrip(s: string, p: string)
    requires p != [] && forall k :: 0 <= k < |p| ==> !IsSpace(p[k])
    ensures Contains(Strip(s), p) <==> Contains(s, p)
  {
    var lead := LeadFrom(s, 0);
    var r := Strip(s);
    assert s == s[..lead] + r + s[lead + |r|..];
    ContainsWithinSpaces(s[..lead], r, s[lead + |r|..], p);
  }

  /** `str.replace` as CPython performs it: find the leftmost occurrence, copy
      what precedes it and the replacement, and go on after the occurrence. */
  function ReplaceByFind(s: string, p: string, rep: string): string
    requires p != []
    decreases |s|
  {
    var i := Find(s, p);
    if i < 0 then s else s[..i] + rep + ReplaceByFind(s[i + |p|..], p, rep)
  }

  /** `s.replace(p, rep)` as a left-to-right scan: an occurrence of `p` at the
      scan position is replaced and skipped, any other character is copied. */
  function Replace(s: string, p: string, rep: string): string
    requires p != []
    decreases |s|
  {
    if s == [] then []
    else if IsPrefix(p, s) then rep + Replace(s[|p|..], p, rep)
    else [s[0]] + Replace(s[1..], p, rep)
  }

  lemma {:induction false} ReplaceSkip(s: string, p: string, rep: string, i: nat)
    requires p != [] && i <= |s|
    requires forall j :: 0 <= j < i ==> !IsPrefix(p, s[j..])
    ensures Replace(s, p, rep) == s[..i] + Replace(s[i..], p, rep)
  {
    if i > 0 {
      assert s[0..] == s;
      assert forall j :: 0 <= j < i - 1 ==> s[1..][j..] == s[j + 1..];
      ReplaceSkip(s[1..], p, rep, i - 1);
      assert s[1..][i - 1..] == s[i..];
      assert s[..i] == [s[0]] + s[1..][..i - 1];
    }
  }

  /** The scan and CPython's find-and-copy loop agree on every input. */
  lemma {:induction false} ReplaceAgrees(s: string, p: string, rep: string)
    requires p != []
    ensures Replace(s, p, rep) == ReplaceByFind(s, p, rep)
    decreases |s|
  {
    var i := Find(s, p);
    if i < 0 {
      ReplaceNoMatch(s, p, rep);
    } else {
      ReplaceFirst(s, p, rep, i);
      ReplaceAgrees(s[i + |p|..], p, rep);
    }
  }

  /** A string in which `p` does not occur is returned unchanged. */
  lemma ReplaceNoMatch(s: string, p: string, rep: string)
    requires p != [] && !Contains(s, p)
    ensures Replace(s, p, rep) == s
  {
    NoOccurrence(s, p);
    ReplaceSkip(s, p, rep, |s|);
  }

  /** The scan copies what precedes the first occurrence and replaces it. */
  lemma ReplaceFirst(s: string, p: string, rep: string, i: nat)
    requires p != [] && i <= |s| && IsPrefix(p, s[i..])
    requires forall j :: 0 <= j < i ==> !IsPrefix(p, s[j..])
    ensures i + |p| <= |s|
    ensures Replace(s, p, rep) == s[..i] + rep + Replace(s[i + |p|..], p, rep)
  {
    ReplaceSkip(s, p, rep, i);
    assert Replace(s[i..], p, rep) == rep + Replace(s[i + |p|..], p, rep) by {
      ReplaceAtStart(s[i..], p, rep);
      assert s[i..][|p|..] == s[i + |p|..];
    }
  }

  /** Where `p` does not occur, no position starts it. */
  lemma NoOccurrence(s: string, p: string)
    requires !Contains(s, p)
    ensures forall j :: 0 <= j < |s| ==> !IsPrefix(p, s[j..])
  {
    forall j | 0 <= j < |s|
      ensures !IsPrefix(p, s[j..])
    {
      if j <= |s| - |p| {
        assert !(0 <= j <= |s| - |p| && IsPrefix(p, s[j..]));
      }
    }
  }

  /** An occurrence at the scan position is replaced. */
  lemma ReplaceAtStart(s: string, p: string, rep: string)
    requires p != [] && IsPrefix(p, s)
    ensures Replace(s, p, rep) == rep + Replace(s[|p|..], p, rep)
  {
  }

  /** A character that does not start an occurrence is copied. */
  lemma ReplaceKeepsHead(c: char, rest: string, p: string, rep: string)
    requires p != [] && !IsPrefix(p, [c] + rest)
    ensures Replace([c] + rest, p, rep) == [c] + Replace(rest, p, rep)
  {
    assert ([c] + rest)[1..] == rest;
  }

  /** Without the pattern's first character there is nothing to replace. */
  lemma ReplaceWithoutFirstChar(s: string, p: string, rep: string)
    requires p != [] && p[0] !in s
    ensures Replace(s, p, rep) == s
  {
    ContainsFirstChar(s, p);
    ReplaceNoMatch(s, p, rep);
  }

  /** A pattern occurs only where its first character does. */
  lemma ContainsFirstChar(s: string, p: string)
    requires p != [] && p[0] !in s
    ensures !Contains(s, p)
  {
    forall i | 0 <= i <= |s| - |p|
      ensures !IsPrefix(p, s[i..])
    {
      assert s[i..][..|p|][0] == s[i] != p[0];
    }
  }

  /** The first position of `c` in `s`, or -1. */
  function IndexOf(s: string, c: char): (i: int)
    ensures -1 <= i < |s|
    ensures i >= 0 ==> s[i] == c && forall k :: 0 <= k < i ==> s[k] != c
    ensures i < 0 ==> forall k :: 0 <= k < |s| ==> s[k] != c
  {
    if s == [] then -1
    else if s[0] == c then 0
    else
      var j := IndexOf(s[1..], c);
      if j < 0 then -1 else j + 1
  }

  /** A whole match of `<[^>]+>`. */
  predicate IsTag(t: string)
  {
    |t| >= 3 && t[0] == '<' && t[|t| - 1] == '>' && forall k :: 1 <= k < |t| - 1 ==> t[k] != '>'
  }

  /** The length of the match of `<[^>]+>` that starts `s`, or 0 when the pattern
      does not match there. At most one length can match: the tag ends at the
      first `>` after its opening `<`. */
  function TagLen(s: string): (n: nat)
    ensures n <= |s|
    ensures n > 0 ==> IsTag(s[..n])
    ensures n == 0 ==> forall m :: 0 <= m <= |s| ==> !IsTag(s[..m])
  {
    if |s| >= 2 && s[0] == '<' && s[1] != '>' then
      var j := IndexOf(s[2..], '>');
      if j < 0 then
        assert forall m :: 3 <= m <= |s| ==> s[..m][m - 1] == s[2..][m - 3];
        0
      else
        assert forall k :: 2 <= k < j + 2 ==> s[k] == s[2..][k - 2];
        j + 3
    else
      assert forall m :: 3 <= m <= |s| ==> s[..m][1] == s[1];
      0
  }

  /** Some position of `s` starts a match of `<[^>]+>`. */
  predicate HasTag(s: string)
  {
    exists i :: 0 <= i < |s| && TagLen(s[i..]) > 0
  }

  /** `re.sub(r'<[^>]+>', '', s)`: scanning left to right, a match at the scan
      position is deleted and skipped; any other character is kept. */
  function StripTags(s: string): (r: string)
    ensures |r| <= |s|
    ensures forall c :: c in r ==> c in s
    decreases |s|
  {
    if s == [] then []
    else
      var n := TagLen(s);
      if n > 0 then
        var rest := StripTags(s[n..]);
        assert forall c :: c in s[n..] ==> c in s;
        rest
      else
        var rest := StripTags(s[1..]);
        assert forall c :: c in s[1..] ==> c in s;
        [s[0]] + rest
  }

  lemma TagNeedsOpen(s: string)
    requires '<' !in s
    ensures !HasTag(s)
  {
    forall i | 0 <= i < |s|
      ensures TagLen(s[i..]) == 0
    {
      assert s[i..][0] == s[i] != '<';
    }
  }

  /** Without a `>` there is nothing to match either. */
  lemma TagNeedsClose(s: string)
    requires '>' !in s
    ensures !HasTag(s)
  {
    forall i | 0 <= i < |s|
      ensures TagLen(s[i..]) == 0
    {
      assert forall k :: 0 <= k < |s[i..]| ==> s[i..][k] == s[i + k];
    }
  }

  /** A `<` with no later `>` survives the tag stripper, together with what
      follows it, whatever comes before it. */
  lemma {:induction false} UnclosedKept(x: string, t: string)
    requires '>' !in t
    ensures StripTags(x + "<" + t) == StripTags(x) + "<" + t
    decreases |x|
  {
    var s := x + "<" + t;
    if x == [] {
      assert s == "<" + t;
      TagNeedsClose(s);
      StripTagsUnchanged(s);
    } else {
      TagLenBeforeUnclosed(x, t);
      var n := TagLen(x);
      if n > 0 {
        assert s[n..] == x[n..] + "<" + t;
        UnclosedKept(x[n..], t);
      } else {
        assert s[1..] == x[1..] + "<" + t;
        UnclosedKept(x[1..], t);
      }
    }
  }

  /** Two prefixes of one string that are both tags are the same prefix: a tag
      ends at its first `>`. */
  lemma TagPrefixUnique(s: string, m: nat, n: nat)
    requires m <= |s| && n <= |s| && IsTag(s[..m]) && IsTag(s[..n])
    ensures m == n
  {
    assert s[m - 1] == s[..m][m - 1] && s[n - 1] == s[..n][n - 1];
    assert forall k :: 1 <= k < m - 1 ==> s[k] != '>' by {
      assert forall k :: 0 <= k < m ==> s[..m][k] == s[k];
    }
    assert forall k :: 1 <= k < n - 1 ==> s[k] != '>' by {
      assert forall k :: 0 <= k < n ==> s[..n][k] == s[k];
    }
  }

  /** A tag at the start of `x + "<" + t`, with no `>` in `t`, lies within `x`. */
  lemma TagLenBeforeUnclosed(x: string, t: string)
    requires '>' !in t
    ensures TagLen(x + "<" + t) == TagLen(x)
  {
    var s := x + "<" + t;
    var m := TagLen(s);
    var n := TagLen(x);
    if n > 0 {
      assert s[..n] == x[..n];
    }
    if m > 0 {
      assert s[m - 1] == s[..m][m - 1] == '>';
      assert forall k :: |x| < k < |s| ==> s[k] == t[k - |x| - 1];
      assert m <= |x|;
      assert s[..m] == x[..m];
    }
    if m > 0 && n > 0 {
      TagPrefixUnique(s, m, n);
    }
  }

  lemma {:induction false} StripTagsUnchanged(s: string)
    requires !HasTag(s)
    ensures StripTags(s) == s
    decreases |s|
  {
    if s != [] {
      assert s[0..] == s;
      assert TagLen(s) == 0;
      forall i | 0 <= i < |s[1..]|
        ensures TagLen(s[1..][i..]) == 0
      {
        assert s[1..][i..] == s[i + 1..];
      }
      StripTagsUnchanged(s[1..]);
    }
  }

  /** A character the substitution keeps does not start a tag in the output. */
  lemma KeptHeadNoTag(s: string)
    requires s != [] && TagLen(s) == 0
    ensures TagLen([s[0]] + StripTags(s[1..])) == 0
  {
    var rest := StripTags(s[1..]);
    var r := [s[0]] + rest;
    if s[0] == '<' && |s| >= 2 {
      if s[1] == '>' {
        assert TagLen(s[1..]) == 0;
        assert s[1..][1..] == s[2..];
        assert rest == [s[1]] + StripTags(s[2..]);
        assert r[1] == '>';
      } else {
        NoCloseAfterOpen(s);
        assert '>' !in rest;
        assert r[2..] == rest[1..];
        assert '>' !in r[2..];
      }
    }
  }

  /** An opening `<` that does not start a tag has no `>` anywhere after it,
      unless the very next character is `>`. */
  lemma NoCloseAfterOpen(s: string)
    requires |s| >= 2 && s[0] == '<' && s[1] != '>' && TagLen(s) == 0
    ensures '>' !in s[1..]
  {
    assert IndexOf(s[2..], '>') < 0;
    assert forall k :: 2 <= k < |s| ==> s[k] == s[2..][k - 2];
  }

  /** Nothing that `<[^>]+>` matches is left after the substitution. */
  lemma {:induction false} StripTagsLeavesNoTag(s: string)
    ensures !HasTag(StripTags(s))
    decreases |s|
  {
    if s != [] {
      var n := TagLen(s);
      if n > 0 {
        StripTagsLeavesNoTag(s[n..]);
      } else {
        var rest := StripTags(s[1..]);
        StripTagsLeavesNoTag(s[1..]);
        var r := [s[0]] + rest;
        KeptHeadNoTag(s);
        forall i | 0 <= i < |r|
          ensures TagLen(r[i..]) == 0
        {
          if i > 0 {
            assert r[i..] == rest[i - 1..];
          } else {
            assert r[0..] == r;
          }
        }
      }
    }
  }

  /** The substitution leaves a string unchanged exactly when it holds no tag. */
  lemma StripTagsFixpoint(s: string)
    ensures StripTags(s) == s <==> !HasTag(s)
  {
    if !HasTag(s) {
      StripTagsUnchanged(s);
    }
    StripTagsLeavesNoTag(s);
  }

  lemma StripTagsIdempotent(s: string)
    ensures StripTags(StripTags(s)) == StripTags(s)
  {
    StripTagsLeavesNoTag(s);
    StripTagsUnchanged(StripTags(s));
  }

  /** Text without `<` holds no tag and is left as it is. */
  lemma NoOpenUnchanged(s: string)
    requires '<' !in s
    ensures StripTags(s) == s
  {
    TagNeedsOpen(s);
    StripTagsUnchanged(s);
  }

  lemma TagAtStart(s: string, n: nat)
    requires 3 <= n <= |s| && s[0] == '<' && s[1] != '>' && s[n - 1] == '>'
    requires forall k :: 1 <= k < n - 1 ==> s[k] != '>'
    ensures StripTags(s) == StripTags(s[n..])
  {
    assert IsTag(s[..n]);
    assert TagLen(s) == n by {
      var j := IndexOf(s[2..], '>');
      assert s[2..][n - 3] == '>';
      assert forall k :: 0 <= k < n - 3 ==> s[2..][k] != '>' by {
        assert forall k :: 0 <= k < n - 3 ==> s[2..][k] == s[k + 2];
      }
    }
  }

  lemma KeptAtStart(s: string)
    requires s != [] && s[0] != '<'
    ensures StripTags(s) == [s[0]] + StripTags(s[1..])
  {
  }

  /** Text without `<` is kept in front of whatever follows it. */
  lemma {:induction false} KeptPrefix(w: string, rest: string)
    requires '<' !in w
    ensures StripTags(w + rest) == w + StripTags(rest)
    decreases |w|
  {
    if w != [] {
      assert (w + rest)[1..] == w[1..] + rest;
      KeptAtStart(w + rest);
      KeptPrefix(w[1..], rest);
      assert w == [w[0]] + w[1..];
    } else {
      assert w + rest == rest;
    }
  }

  lemma DropFront(a: string, b: string)
    ensures (a + b)[|a|..] == b
  {
  }

  /** A first character other than the pattern's own is kept. */
  lemma KeepHead(s: string, p: string, rep: string)
    requires p != [] && s != [] && s[0] != p[0]
    ensures Replace(s, p, rep) == [s[0]] + Replace(s[1..], p, rep)
  {
    assert s == [s[0]] + s[1..];
    assert !IsPrefix(p, s) by {
      if |p| <= |s| {
        assert s[..|p|][0] == s[0];
      }
    }
    ReplaceKeepsHead(s[0], s[1..], p, rep);
  }

  /** As is a first character after which the pattern's second one does not follow. */
  lemma KeepHeadSecond(s: string, p: string, rep: string)
    requires |p| >= 2 && |s| >= 2 && s[1] != p[1]
    ensures Replace(s, p, rep) == [s[0]] + Replace(s[1..], p, rep)
  {
    assert s == [s[0]] + s[1..];
    assert !IsPrefix(p, s) by {
      if |p| <= |s| {
        assert s[..|p|][1] == s[1];
      }
    }
    ReplaceKeepsHead(s[0], s[1..], p, rep);
  }

  /** Text that does not contain the pattern's first character is copied
      in front of the replacement of what follows it. */
  lemma {:induction false} ReplaceKeepsFront(w: string, rest: string, p: string, rep: string)
    requires p != [] && p[0] !in w
    ensures Replace(w + rest, p, rep) == w + Replace(rest, p, rep)
    decreases |w|
  {
    if w != [] {
      KeepHead(w + rest, p, rep);
      assert (w + rest)[1..] == w[1..] + rest;
      ReplaceKeepsFront(w[1..], rest, p, rep);
      assert w == [w[0]] + w[1..];
    } else {
      assert w + rest == rest;
    }
  }
}
