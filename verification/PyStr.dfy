/**
 * The handful of Python `str` operations the application relies on, written
 * out as functions over `string` (a sequence of Unicode scalar values):
 * `s.strip()`, `s.split(sep)` for a one-character separator,
 * `s.replace(pat, "")` and the substring test `sub in s`.
 */
module PyStr {

  /** The characters for which Python's `str.isspace()` holds; `str.strip()`
      with no argument removes exactly these. */
  const Whitespace: set<char> := {
    '\t', '\n', '\U{0B}', '\U{0C}', '\r', '\U{1C}', '\U{1D}', '\U{1E}', '\U{1F}', ' ',
    '\U{85}', '\U{A0}', '\U{1680}',
    '\U{2000}', '\U{2001}', '\U{2002}', '\U{2003}', '\U{2004}', '\U{2005}',
    '\U{2006}', '\U{2007}', '\U{2008}', '\U{2009}', '\U{200A}',
    '\U{2028}', '\U{2029}', '\U{202F}', '\U{205F}', '\U{3000}'
  }

  predicate IsSpace(c: char) {
    c in Whitespace
  }

  predicate AllSpace(s: string) {
    forall k :: 0 <= k < |s| ==> IsSpace(s[k])
  }

  /** Neither end of `s` is whitespace. */
  predicate IsStripped(s: string) {
    s == [] || (!IsSpace(s[0]) && !IsSpace(s[|s| - 1]))
  }

  /** Number of whitespace characters `s` starts with. */
  function Lead(s: string): (n: nat)
    ensures n <= |s|
    ensures forall k :: 0 <= k < n ==> IsSpace(s[k])
    ensures n < |s| ==> !IsSpace(s[n])
    decreases |s|
  {
    if s != [] && IsSpace(s[0]) then 1 + Lead(s[1..]) else 0
  }

  /** Number of whitespace characters `s` ends with. */
  function Trail(s: string): (n: nat)
    ensures n <= |s|
    ensures forall k :: |s| - n <= k < |s| ==> IsSpace(s[k])
    ensures n < |s| ==> !IsSpace(s[|s| - 1 - n])
    decreases |s|
  {
    if s != [] && IsSpace(s[|s| - 1]) then 1 + Trail(s[..|s| - 1]) else 0
  }

  /** `r` is the middle of `s`: it starts where the leading whitespace of `s`
      ends, and only whitespace follows it in `s`. */
  predicate IsStripOf(r: string, s: string) {
    var i := Lead(s);
    && i + |r| <= |s| && r == s[i..i + |r|]
    && (forall k :: i + |r| <= k < |s| ==> IsSpace(s[k]))
    && IsStripped(r)
  }

  /** `s.strip()`: what is left of `s` once all leading and all trailing
      whitespace is cut off; empty exactly when `s` is all whitespace. */
  function Strip(s: string): (r: string)
    ensures |r| <= |s| && IsStripped(r)
    ensures r == [] <==> AllSpace(s)
  {
    if Lead(s) == |s| then []
    else
      assert s[Lead(s)] == s[|s| - 1 - Trail(s)] || Lead(s) < |s| - 1 - Trail(s);
      s[Lead(s)..|s| - Trail(s)]
  }

  /** What `strip()` keeps is exactly the middle of `s`, and nothing else. */
  lemma {:induction false} StripMiddle(s: string)
    ensures IsStripOf(Strip(s), s)
  {
  }

  /** A stripped text is left as it is by `strip()`. */
  lemma {:induction false} StripOfStripped(s: string)
    requires IsStripped(s)
    ensures Strip(s) == s
  {
  }

  /** Python's `str.strip()` is idempotent. */
  lemma {:induction false} StripIdempotent(s: string)
    ensures Strip(Strip(s)) == Strip(s)
  {
  }

  /** A non-space character of `s` survives stripping. */
  lemma {:induction false} StripKeeps(s: string, c: char)
    requires c in s && !IsSpace(c)
    ensures c in Strip(s)
  {
  }

  /** Stripping never brings in a character that was not there. */
  lemma {:induction false} StripSubset(s: string, c: char)
    requires c in Strip(s)
    ensures c in s
  {
  }

  /** Whitespace around a stripped text is exactly what `strip()` cuts off. */
  lemma {:induction false} StripPadded(sp1: string, n: string, sp2: string)
    requires AllSpace(sp1) && IsStripped(n) && AllSpace(sp2)
    ensures Strip(sp1 + n + sp2) == n
  {
    var s := sp1 + n + sp2;
    if n == [] {
      assert AllSpace(s) by {
        forall k | 0 <= k < |s| ensures IsSpace(s[k]) {
          if k < |sp1| { assert s[k] == sp1[k]; } else { assert s[k] == sp2[k - |sp1|]; }
        }
      }
    } else {
      assert s[|sp1|] == n[0];
      assert s[|sp1| + |n| - 1] == n[|n| - 1];
      assert forall k :: 0 <= k < |sp1| ==> s[k] == sp1[k];
      assert forall k :: |sp1| + |n| <= k < |s| ==> s[k] == sp2[k - |sp1| - |n|];
      assert Lead(s) == |sp1|;
      assert Trail(s) == |sp2|;
      assert s[|sp1|..|s| - |sp2|] == n;
    }
  }

  // ---------------------------------------------------------------------
  // split / join

  /** Number of occurrences of `c` in `s`. */
  function Count(s: string, c: char): nat {
    if s == [] then 0 else (if s[0] == c then 1 else 0) + Count(s[1..], c)
  }

  /** `sep.join(parts)` for a one-character separator. */
  function Join(parts: seq<string>, sep: char): string {
    if |parts| == 0 then []
    else if |parts| == 1 then parts[0]
    else parts[0] + [sep] + Join(parts[1..], sep)
  }

  /** Putting a character in front of the first piece puts it in front of the join. */
  lemma {:induction false} JoinCons(c: char, parts: seq<string>, sep: char)
    requires |parts| >= 1
    ensures Join([[c] + parts[0]] + parts[1..], sep) == [c] + Join(parts, sep)
  {
  }

  /** `s.split(sep)` for a one-character separator: always at least one piece
      (`"".split(",")` is `[""]`), one more piece than there are separators,
      no piece holds the separator, and joining the pieces gives `s` back. */
  function Split(s: string, sep: char): (parts: seq<string>)
    ensures |parts| == Count(s, sep) + 1
    ensures forall p :: p in parts ==> sep !in p
    ensures Join(parts, sep) == s
    decreases |s|
  {
    if s == [] then [[]]
    else
      var rest := Split(s[1..], sep);
      if s[0] == sep then
        assert s == [sep] + s[1..];
        [[]] + rest
      else
        JoinCons(s[0], rest, sep);
        assert s == [s[0]] + s[1..];
        [[s[0]] + rest[0]] + rest[1..]
  }

  /** A text without the separator is a single piece. */
  lemma {:induction false} SplitPiece(p: string, sep: char)
    requires sep !in p
    ensures Split(p, sep) == [p]
    decreases |p|
  {
  }

  /** A separator-free piece followed by the separator splits off as the first piece. */
  lemma {:induction false} SplitAfterPiece(p: string, sep: char, t: string)
    requires sep !in p
    ensures Split(p + [sep] + t, sep) == [p] + Split(t, sep)
    decreases |p|
  {
    var s := p + [sep] + t;
    if p == [] {
      assert s[1..] == t;
    } else {
      assert s[1..] == p[1..] + [sep] + t;
      SplitAfterPiece(p[1..], sep, t);
      assert [p[0]] + p[1..] == p;
    }
  }

  /** Splitting a join of separator-free pieces gives back those pieces. */
  lemma {:induction false} SplitJoin(parts: seq<string>, sep: char)
    requires |parts| >= 1
    requires forall p :: p in parts ==> sep !in p
    ensures Split(Join(parts, sep), sep) == parts
    decreases |parts|
  {
    if |parts| == 1 {
      SplitPiece(parts[0], sep);
    } else {
      SplitJoin(parts[1..], sep);
      SplitAfterPiece(parts[0], sep, Join(parts[1..], sep));
      assert parts == [parts[0]] + parts[1..];
    }
  }

  // ---------------------------------------------------------------------
  // substring test and replace

  predicate IsPrefix(p: string, s: string) {
    |p| <= |s| && s[..|p|] == p
  }

  /** Some occurrence of `pat` begins at one of the first `n` positions of `s`. */
  predicate MatchBefore(s: string, pat: string, n: nat) {
    exists i :: 0 <= i < n && i <= |s| && IsPrefix(pat, s[i..])
  }

  /** `sub` occurs in `s`, starting at some position up to and including its end. */
  predicate Occurs(sub: string, s: string) {
    exists i :: 0 <= i <= |s| && IsPrefix(sub, s[i..])
  }

  /** Python's `sub in s`: `sub` is a prefix of `s` or of one of its suffixes.
      The empty `sub` is in every text, and nothing longer than `s` is in it. */
  predicate Contains(s: string, sub: string)
    ensures sub == [] ==> Contains(s, sub)
    ensures Contains(s, sub) ==> |sub| <= |s|
    decreases |s|
  {
    IsPrefix(sub, s) || (s != [] && Contains(s[1..], sub))
  }

  /** The substring test holds exactly when `sub` occurs at some position of `s`. */
  lemma {:induction false} ContainsOccurs(s: string, sub: string)
    ensures Contains(s, sub) <==> Occurs(sub, s)
    decreases |s|
  {
    assert s[0..] == s;
    if s != [] {
      ContainsOccurs(s[1..], sub);
      if i :| 0 <= i <= |s| && IsPrefix(sub, s[i..]) {
        if i > 0 {
          assert s[1..][i - 1..] == s[i..];
        }
      }
      if i :| 0 <= i <= |s[1..]| && IsPrefix(sub, s[1..][i..]) {
        assert s[1..][i..] == s[i + 1..];
      }
    }
  }

  /** For a one-character `sub`, `sub in s` is plain membership. */
  lemma {:induction false} ContainsChar(s: string, c: char)
    ensures Contains(s, [c]) <==> c in s
    decreases |s|
  {
    if s != [] {
      ContainsChar(s[1..], c);
      assert s == [s[0]] + s[1..];
    }
  }

  /** `s.replace(pat, "")`: scanning left to right, each occurrence of `pat`
      found is dropped and the scan resumes after it; an empty `pat` leaves
      `s` alone. The result never grows, and is `s` itself when `pat` does not
      occur in it. */
  function RemoveAll(s: string, pat: string): (r: string)
    ensures |r| <= |s|
    ensures !Contains(s, pat) ==> r == s
    decreases |s|
  {
    if pat == [] || s == [] then s
    else if IsPrefix(pat, s) then RemoveAll(s[|pat|..], pat)
    else [s[0]] + RemoveAll(s[1..], pat)
  }

  /** Every character of the result comes from `s`. */
  lemma {:induction false} RemoveAllSubset(s: string, pat: string, c: char)
    requires c in RemoveAll(s, pat)
    ensures c in s
    decreases |s|
  {
    if pat != [] && s != [] {
      if IsPrefix(pat, s) {
        RemoveAllSubset(s[|pat|..], pat, c);
      } else if c != s[0] {
        RemoveAllSubset(s[1..], pat, c);
      }
    }
  }

  /** A text with `sub` in the middle contains `sub`, wherever it stands. */
  lemma {:induction false} ContainsInfix(a: string, sub: string, b: string)
    ensures Contains(a + sub + b, sub)
    decreases |a|
  {
    var s := a + sub + b;
    if a == [] {
      assert s[..|sub|] == sub;
    } else {
      assert s[1..] == a[1..] + sub + b;
      ContainsInfix(a[1..], sub, b);
    }
  }

  /** A text made of the pattern alone is removed entirely. */
  lemma {:induction false} RemoveAllSelf(pat: string)
    ensures RemoveAll(pat, pat) == []
  {
  }

  /** An occurrence of `pat` at the very start is dropped and removal carries
      on after it. */
  lemma {:induction false} RemoveAllPrefix(pat: string, b: string)
    ensures RemoveAll(pat + b, pat) == RemoveAll(b, pat)
  {
  }

  /** When no occurrence of `pat` starts inside `a`, the characters of `a`
      are kept and removal carries on in `b`. */
  lemma {:induction false} RemoveAllAfter(a: string, b: string, pat: string)
    requires !MatchBefore(a + b, pat, |a|)
    ensures RemoveAll(a + b, pat) == a + RemoveAll(b, pat)
    decreases |a|
  {
    if pat == [] {
      // the empty pattern leaves every text as it is
    } else if a != [] {
      NoMatchShift(a, b, pat);
      RemoveAllKeepFirst(a, b, pat);
      RemoveAllAfter(a[1..], b, pat);
      PrependFirst(a, RemoveAll(b, pat));
    } else {
      assert a + b == b;
    }
  }

  /** Putting back the first character of `a` in front of the rest of `a`. */
  lemma {:induction false} PrependFirst(a: string, r: string)
    requires a != []
    ensures [a[0]] + (a[1..] + r) == a + r
  {
    assert a == [a[0]] + a[1..];
  }

  /** Without a match at the start, the first character is kept and removal
      carries on after it. */
  lemma {:induction false} RemoveAllKeepFirst(a: string, b: string, pat: string)
    requires a != [] && pat != [] && !IsPrefix(pat, a + b)
    ensures RemoveAll(a + b, pat) == [a[0]] + RemoveAll(a[1..] + b, pat)
  {
    assert (a + b)[1..] == a[1..] + b;
  }

  /** No match starts in `a`: none starts at its first character, and none in
      the rest of it either. */
  lemma {:induction false} NoMatchShift(a: string, b: string, pat: string)
    requires a != []
    requires !MatchBefore(a + b, pat, |a|)
    ensures !IsPrefix(pat, a + b)
    ensures !MatchBefore(a[1..] + b, pat, |a| - 1)
  {
    var s := a + b;
    assert s[0..] == s;
    assert s[1..] == a[1..] + b;
    forall i | 0 <= i < |a| - 1 && i <= |s[1..]|
      ensures !IsPrefix(pat, s[1..][i..])
    {
      assert s[1..][i..] == s[i + 1..];
    }
  }
}
