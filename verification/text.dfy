/**
 * The handful of Python `str` operations the service relies on, over
 * `string` (= `seq<char>`): whitespace stripping, splitting and joining,
 * ASCII lower-casing, substring search and `str(int)`.
 */
module Text {

  // ---------------------------------------------------------------------
  // Whitespace and stripping
  // ---------------------------------------------------------------------

  /** Python's `str.isspace()`; the regular-expression class `\s` on `str`
      patterns accepts exactly the same characters. */
  predicate IsSpace(c: char) {
    || c == ' '
    || '\t' <= c <= '\r'
    || '\U{1c}' <= c <= '\U{1f}'
    || c == '\U{85}' || c == '\U{a0}' || c == '\U{1680}'
    || '\U{2000}' <= c <= '\U{200a}'
    || c == '\U{2028}' || c == '\U{2029}' || c == '\U{202f}'
    || c == '\U{205f}' || c == '\U{3000}'
  }

  predicate AllSpace(s: string) {
    forall i :: 0 <= i < |s| ==> IsSpace(s[i])
  }

  /** True when `s` has no whitespace at either end: a fixed point of `Strip`. */
  predicate Stripped(s: string) {
    s == [] || (!IsSpace(s[0]) && !IsSpace(s[|s| - 1]))
  }

  /** Length of the run of whitespace at the start of `s`. */
  function LeadingSpace(s: string): (n: nat)
    ensures n <= |s|
    ensures forall i :: 0 <= i < n ==> IsSpace(s[i])
    ensures n < |s| ==> !IsSpace(s[n])
  {
    if |s| > 0 && IsSpace(s[0]) then 1 + LeadingSpace(s[1..]) else 0
  }

  /** Length of the run of whitespace at the end of `s`. */
  function TrailingSpace(s: string): (n: nat)
    ensures n <= |s|
    ensures forall i :: |s| - n <= i < |s| ==> IsSpace(s[i])
    ensures n < |s| ==> !IsSpace(s[|s| - n - 1])
  {
    if |s| > 0 && IsSpace(s[|s| - 1]) then 1 + TrailingSpace(s[..|s| - 1]) else 0
  }

  /** Python's `s.strip()`: `s` is the result wrapped in whitespace on both sides. */
  function Strip(s: string): (r: string)
    ensures Stripped(r)
    ensures exists a :: 0 <= a <= |s| - |r| && s == s[..a] + r + s[a + |r|..]
                        && AllSpace(s[..a]) && AllSpace(s[a + |r|..])
  {
    var a := LeadingSpace(s);
    var t := s[a..];
    var b := |t| - TrailingSpace(t);
    StripParts(s, a, b);
    var r := t[..b];
    assert a + |r| == a + b <= |s|;
    r
  }

  lemma StripParts(s: string, a: nat, b: nat)
    requires a == LeadingSpace(s) && b == |s[a..]| - TrailingSpace(s[a..])
    ensures a + b <= |s|
    ensures Stripped(s[a..][..b])
    ensures s == s[..a] + s[a..][..b] + s[a + b..]
    ensures AllSpace(s[..a]) && AllSpace(s[a + b..])
  {
    StripCore(s, a, b);
    StripMargins(s, a, b);
    assert s == s[..a] + s[a..][..b] + s[a + b..];
  }

  lemma StripCore(s: string, a: nat, b: nat)
    requires a == LeadingSpace(s) && b == |s[a..]| - TrailingSpace(s[a..])
    ensures Stripped(s[a..][..b])
  {
    var t := s[a..];
    var n := TrailingSpace(t);
    if b > 0 {
      assert !IsSpace(s[a]);
      assert t[..b][0] == s[a];
      assert !IsSpace(t[|t| - n - 1]);
      assert t[..b][b - 1] == t[|t| - n - 1];
    }
  }

  lemma StripMargins(s: string, a: nat, b: nat)
    requires a == LeadingSpace(s) && b == |s[a..]| - TrailingSpace(s[a..])
    ensures AllSpace(s[..a]) && AllSpace(s[a + b..])
  {
    var t := s[a..];
    var n := TrailingSpace(t);
    var head := s[..a];
    forall i | 0 <= i < |head|
      ensures IsSpace(head[i])
    {
      assert head[i] == s[i];
    }
    var tail := s[a + b..];
    forall i | 0 <= i < |tail|
      ensures IsSpace(tail[i])
    {
      assert tail[i] == t[|t| - n + i];
    }
  }

  /** Whitespace wrapped around a stripped core is exactly what `Strip` removes. */
  lemma {:induction false} StripExact(w1: string, m: string, w2: string)
    requires AllSpace(w1) && AllSpace(w2) && Stripped(m)
    ensures Strip(w1 + m + w2) == m
  {
    var s := w1 + m + w2;
    if m == [] {
      assert AllSpace(s);
      LeadingAllSpace(s);
    } else {
      LeadingSpaceOf(w1, m + w2);
      assert s == w1 + (m + w2);
      assert s[|w1|..] == m + w2;
      TrailingSpaceOf(m, w2);
    }
  }

  lemma {:induction false} LeadingAllSpace(s: string)
    requires AllSpace(s)
    ensures LeadingSpace(s) == |s|
    decreases |s|
  {
    if |s| > 0 {
      LeadingAllSpace(s[1..]);
    }
  }

  lemma {:induction false} LeadingSpaceOf(w: string, t: string)
    requires AllSpace(w) && |t| > 0 && !IsSpace(t[0])
    ensures LeadingSpace(w + t) == |w|
    decreases |w|
  {
    if |w| > 0 {
      assert (w + t)[1..] == w[1..] + t;
      LeadingSpaceOf(w[1..], t);
    }
  }

  lemma {:induction false} TrailingSpaceOf(t: string, w: string)
    requires AllSpace(w) && |t| > 0 && !IsSpace(t[|t| - 1])
    ensures TrailingSpace(t + w) == |w|
    decreases |w|
  {
    if |w| > 0 {
      assert (t + w)[..|t + w| - 1] == t + w[..|w| - 1];
      TrailingSpaceOf(t, w[..|w| - 1]);
    }
  }

  /** A string with no whitespace at either end is its own strip. */
  lemma StrippedFixed(s: string)
    requires Stripped(s)
    ensures Strip(s) == s
  {
    StripExact([], s, []);
    assert [] + s + [] == s;
  }

  /** Whitespace around a string does not change its strip. */
  lemma StripPadded(w1: string, m: string, w2: string)
    requires AllSpace(w1) && AllSpace(w2)
    ensures Strip(w1 + m + w2) == Strip(m)
  {
    var a := LeadingSpace(m);
    var b := |m[a..]| - TrailingSpace(m[a..]);
    StripParts(m, a, b);
    var head, r, tail := m[..a], m[a..][..b], m[a + b..];
    assert Strip(m) == r;
    AllSpaceConcat(w1, head);
    AllSpaceConcat(tail, w2);
    Regroup(w1, head, r, tail, w2);
    StripExact(w1 + head, r, tail + w2);
  }

  lemma Regroup(w1: string, head: string, r: string, tail: string, w2: string)
    ensures w1 + (head + r + tail) + w2 == (w1 + head) + r + (tail + w2)
  {
  }

  lemma AllSpaceConcat(x: string, y: string)
    requires AllSpace(x) && AllSpace(y)
    ensures AllSpace(x + y)
  {
    forall i | 0 <= i < |x + y|
      ensures IsSpace((x + y)[i])
    {
      if i < |x| { assert (x + y)[i] == x[i]; } else { assert (x + y)[i] == y[i - |x|]; }
    }
  }

  /** Around a core that neither starts nor ends with whitespace, `Strip`
      removes only the leading whitespace of the text before it and the
      trailing whitespace of the text after it. */
  lemma StripAround(pre: string, mid: string, post: string) returns (a: nat, b: nat)
    requires mid != [] && !IsSpace(mid[0]) && !IsSpace(mid[|mid| - 1])
    ensures a <= |pre| && b <= |post| && AllSpace(pre[..a]) && AllSpace(post[b..])
    ensures Strip(pre + mid + post) == pre[a..] + mid + post[..b]
  {
    a := LeadingSpace(pre);
    b := |post| - TrailingSpace(post);
    var core := pre[a..] + mid + post[..b];
    assert core[0] == if a < |pre| then pre[a] else mid[0];
    assert core[|core| - 1] == if b > 0 then post[b - 1] else mid[|mid| - 1];
    assert AllSpace(pre[..a]) by {
      forall i | 0 <= i < a
        ensures IsSpace(pre[..a][i])
      {
        assert pre[..a][i] == pre[i];
      }
    }
    assert AllSpace(post[b..]) by {
      forall i | 0 <= i < |post| - b
        ensures IsSpace(post[b..][i])
      {
        assert post[b..][i] == post[b + i];
      }
    }
    assert pre + mid + post == pre[..a] + core + post[b..];
    StripExact(pre[..a], core, post[b..]);
  }

  /** Stripping twice is stripping once. */
  lemma StripIdempotent(s: string)
    ensures Strip(Strip(s)) == Strip(s)
  {
    StripExact([], Strip(s), []);
    assert [] + Strip(s) + [] == Strip(s);
  }

  /** Python's `s.rstrip(c)` for a single character `c`. */
  function RStripChar(s: string, c: char): (r: string)
    ensures |r| <= |s| && r == s[..|r|]
    ensures r == [] || r[|r| - 1] != c
    ensures forall i :: |r| <= i < |s| ==> s[i] == c
  {
    if |s| > 0 && s[|s| - 1] == c then RStripChar(s[..|s| - 1], c) else s
  }

  /** Trailing `c`s are taken from the end only: a left part that does not
      end in `c` is untouched. */
  lemma {:induction false} RStripCharAppend(a: string, b: string, c: char)
    requires a != [] && a[|a| - 1] != c
    ensures RStripChar(a + b, c) == a + RStripChar(b, c)
    decreases |b|
  {
    if |b| > 0 && b[|b| - 1] == c {
      assert (a + b)[..|a + b| - 1] == a + b[..|b| - 1];
      RStripCharAppend(a, b[..|b| - 1], c);
    } else if |b| == 0 {
      assert a + b == a;
    }
  }

  /** Python's `s.lstrip(c)` for a single character `c`. */
  function LStripChar(s: string, c: char): (r: string)
    ensures |r| <= |s| && r == s[|s| - |r|..]
    ensures r == [] || r[0] != c
    ensures forall i :: 0 <= i < |s| - |r| ==> s[i] == c
  {
    if |s| > 0 && s[0] == c then LStripChar(s[1..], c) else s
  }

  // ---------------------------------------------------------------------
  // Case and prefixes
  // ---------------------------------------------------------------------

  /** `str.lower()` restricted to ASCII: only 'A'..'Z' change. */
  function LowerChar(c: char): (r: char)
    ensures 'A' <= c <= 'Z' ==> 'a' <= r <= 'z' && r as int == c as int + 32
    ensures !('A' <= c <= 'Z') ==> r == c
  {
    if 'A' <= c <= 'Z' then (c as int + 32) as char else c
  }

  function Lower(s: string): (r: string)
    ensures |r| == |s|
  {
    if |s| == 0 then [] else [LowerChar(s[0])] + Lower(s[1..])
  }

  /** `Lower` works character by character. */
  lemma {:induction false} LowerAt(s: string)
    ensures forall i :: 0 <= i < |s| ==> Lower(s)[i] == LowerChar(s[i])
    decreases |s|
  {
    if |s| > 0 {
      LowerAt(s[1..]);
    }
  }

  lemma LowerAppend(a: string, b: string)
    ensures Lower(a + b) == Lower(a) + Lower(b)
  {
    LowerAt(a + b);
    LowerAt(a);
    LowerAt(b);
  }

  lemma LowerSlice(s: string, i: int, j: int)
    requires 0 <= i <= j <= |s|
    ensures Lower(s)[i..j] == Lower(s[i..j])
  {
    LowerAt(s);
    LowerAt(s[i..j]);
  }

  /** No ASCII capital letter: `Lower` leaves the string unchanged. */
  predicate IsLower(s: string) {
    forall i :: 0 <= i < |s| ==> !('A' <= s[i] <= 'Z')
  }

  /** Lower-casing leaves no capital behind, and changes nothing in a string
      that has none. */
  lemma LowerIsLower(s: string)
    ensures IsLower(Lower(s))
    ensures IsLower(s) ==> Lower(s) == s
  {
    LowerAt(s);
  }

  predicate StartsWith(s: string, p: string) {
    |p| <= |s| && s[..|p|] == p
  }

  predicate EndsWith(s: string, p: string) {
    |p| <= |s| && s[|s| - |p|..] == p
  }

  /** `n` levels of two-space indentation (Python's `"  " * n`). */
  function Indent(n: nat): (r: string)
    ensures |r| == 2 * n
    ensures forall i :: 0 <= i < |r| ==> r[i] == ' '
  {
    if n == 0 then "" else "  " + Indent(n - 1)
  }

  // ---------------------------------------------------------------------
  // Search
  // ---------------------------------------------------------------------

  /** `pat` occurs in `s` starting at index `k`. */
  predicate OccursAt(s: string, pat: string, k: int) {
    0 <= k && k + |pat| <= |s| && s[k..k + |pat|] == pat
  }

  /** Python's `s.find(pat, from)`: the first index at or after `from` where
      `pat` occurs, or -1. */
  function FindFrom(s: string, pat: string, from: nat): (r: int)
    ensures r == -1 || (from <= r && OccursAt(s, pat, r))
    ensures r == -1 ==> forall k :: from <= k ==> !OccursAt(s, pat, k)
    ensures r >= 0 ==> forall k :: from <= k < r ==> !OccursAt(s, pat, k)
    decreases |s| - from
  {
    if from + |pat| > |s| then -1
    else if s[from..from + |pat|] == pat then from
    else FindFrom(s, pat, from + 1)
  }

  /** `k` is the first index at or after `from` where `pat` occurs. */
  predicate FirstOccurrence(s: string, pat: string, from: int, k: int) {
    from <= k && OccursAt(s, pat, k) && forall j :: from <= j < k ==> !OccursAt(s, pat, j)
  }

  /** What `find` returns is the first occurrence, and the only one. */
  lemma FindIsFirst(s: string, pat: string, from: nat)
    ensures forall k :: FirstOccurrence(s, pat, from, k) <==> FindFrom(s, pat, from) >= 0 && k == FindFrom(s, pat, from)
  {
  }

  /** An occurrence with none before it, from `from` on, is what `find` returns. */
  lemma FindFromFirst(s: string, pat: string, from: nat, c: int)
    requires from <= c && OccursAt(s, pat, c)
    requires forall k :: from <= k < c ==> !OccursAt(s, pat, k)
    ensures FindFrom(s, pat, from) == c
  {
  }

  /** Where the first character of the pattern does not appear, the pattern
      does not start: `find` skips to the next occurrence. */
  lemma FindFromSkips(s: string, pat: string, from: nat, c: int)
    requires pat != [] && from <= c && OccursAt(s, pat, c)
    requires forall k :: from <= k < c ==> s[k] != pat[0]
    ensures FindFrom(s, pat, from) == c
  {
    forall k | from <= k < c
      ensures !OccursAt(s, pat, k)
    {
      if k + |pat| <= |s| {
        assert s[k..k + |pat|][0] == s[k];
      }
    }
    FindFromFirst(s, pat, from, c);
  }

  /** Python's `s.find(c)` for one character. */
  function FindChar(s: string, c: char): (r: int)
    ensures -1 <= r < |s|
    ensures r == -1 <==> c !in s
    ensures r >= 0 ==> s[r] == c && c !in s[..r]
  {
    if |s| == 0 then -1
    else if s[0] == c then 0
    else
      var k := FindChar(s[1..], c);
      assert s == [s[0]] + s[1..];
      if k == -1 then -1
      else
        assert s[..k + 1] == [s[0]] + s[1..][..k];
        k + 1
  }

  /** The first occurrence of `c` is what `find` returns. */
  lemma FindCharAt(s: string, c: char, k: int)
    requires 0 <= k < |s| && s[k] == c && c !in s[..k]
    ensures FindChar(s, c) == k
  {
    var r := FindChar(s, c);
    assert r >= 0 ==> s[..r + 1][r] == c;
    assert s[..k + 1][k] == c;
  }

  /** A character absent from `s` is absent from every tail of it. */
  lemma NotInTail(s: string, k: int, c: char)
    requires 0 <= k <= |s| && c !in s
    ensures c !in s[k..]
  {
    var t := s[k..];
    forall i | 0 <= i < |t|
      ensures t[i] != c
    {
      assert t[i] == s[k + i];
    }
  }

  /** Python's `s.rfind(c)` for one character. */
  function RFindChar(s: string, c: char): (r: int)
    ensures -1 <= r < |s|
    ensures r == -1 <==> c !in s
    ensures r >= 0 ==> s[r] == c && c !in s[r + 1..]
  {
    if |s| == 0 then -1
    else if s[|s| - 1] == c then |s| - 1
    else
      var k := RFindChar(s[..|s| - 1], c);
      assert k >= 0 ==> s[k + 1..] == s[..|s| - 1][k + 1..] + [s[|s| - 1]];
      k
  }

  /** No position after the last occurrence holds `c`. */
  lemma {:induction false} AfterRFindChar(s: string, c: char)
    ensures forall m :: RFindChar(s, c) < m < |s| ==> s[m] != c
  {
    if |s| > 0 && s[|s| - 1] != c {
      var t := s[..|s| - 1];
      AfterRFindChar(t, c);
      forall m | RFindChar(s, c) < m < |s|
        ensures s[m] != c
      {
        if m < |t| {
          assert s[m] == t[m];
        }
      }
    }
  }

  // ---------------------------------------------------------------------
  // Splitting and joining
  // ---------------------------------------------------------------------

  /** No piece contains the character `c`. */
  predicate NoneContain(parts: seq<string>, c: char) {
    forall i :: 0 <= i < |parts| ==> c !in parts[i]
  }

  lemma NoneContainConcat(a: seq<string>, b: seq<string>, c: char)
    requires NoneContain(a, c) && NoneContain(b, c)
    ensures NoneContain(a + b, c)
  {
    forall i | 0 <= i < |a + b|
      ensures c !in (a + b)[i]
    {
      if i >= |a| {
        assert (a + b)[i] == b[i - |a|];
      }
    }
  }

  /** Python's `sep.join(parts)`. */
  function Join(parts: seq<string>, sep: string): string {
    if |parts| == 0 then ""
    else if |parts| == 1 then parts[0]
    else parts[0] + sep + Join(parts[1..], sep)
  }

  /** Python's `s.split(c)`: never empty, no piece contains `c`, and joining
      the pieces with `c` gives `s` back. */
  function Split(s: string, c: char): (r: seq<string>)
    ensures |r| >= 1
    ensures forall i :: 0 <= i < |r| ==> c !in r[i]
    ensures Join(r, [c]) == s
  {
    if |s| == 0 then [""]
    else
      var rest := Split(s[1..], c);
      if s[0] == c then
        assert s == [c] + s[1..];
        [""] + rest
      else
        JoinConsFirst(s[0], rest, [c]);
        assert s == [s[0]] + s[1..];
        [[s[0]] + rest[0]] + rest[1..]
  }

  lemma JoinConsFirst(x: char, parts: seq<string>, sep: string)
    requires |parts| >= 1
    ensures Join([[x] + parts[0]] + parts[1..], sep) == [x] + Join(parts, sep)
  {
    var ps := [[x] + parts[0]] + parts[1..];
    assert ps[1..] == parts[1..];
  }

  /** Joining the first `k` pieces gives a prefix of joining them all. */
  lemma {:induction false} JoinPrefix(parts: seq<string>, k: nat, sep: string)
    requires k <= |parts|
    ensures StartsWith(Join(parts, sep), Join(parts[..k], sep))
    decreases |parts|
  {
    if k == 0 {
      assert parts[..0] == [];
    } else if |parts| == 1 {
      assert parts[..k] == parts;
    } else if k == 1 {
      assert parts[..1] == [parts[0]];
    } else {
      JoinPrefix(parts[1..], k - 1, sep);
      assert parts[..k][1..] == parts[1..][..k - 1];
      var whole := Join(parts[1..], sep);
      var part := Join(parts[1..][..k - 1], sep);
      assert (parts[0] + sep + whole)[..|parts[0] + sep + part|] == parts[0] + sep + part;
    }
  }

  /** The first three pieces and the separators between them start the join. */
  lemma JoinThree(parts: seq<string>, sep: string)
    requires |parts| >= 3
    ensures StartsWith(Join(parts, sep), parts[0] + sep + parts[1] + sep + parts[2])
  {
    var head := parts[..3];
    JoinPrefix(parts, 3, sep);
    assert head[1..][1..] == [parts[2]];
    assert Join(head[1..], sep) == parts[1] + sep + parts[2];
  }

  /** Splitting at a separator occurrence splits the two sides independently. */
  lemma {:induction false} SplitAppend(a: string, b: string, c: char)
    ensures Split(a + [c] + b, c) == Split(a, c) + Split(b, c)
    decreases |a|
  {
    var s := a + [c] + b;
    if |a| == 0 {
      assert s[1..] == b;
    } else {
      assert s[1..] == a[1..] + [c] + b;
      SplitAppend(a[1..], b, c);
    }
  }

  /** A string without the separator splits into itself. */
  lemma SplitNoSep(s: string, c: char)
    requires c !in s
    ensures Split(s, c) == [s]
  {
    var r := Split(s, c);
    if |r| > 1 {
      JoinHasSep(r, c);
    }
  }

  lemma JoinHasSep(parts: seq<string>, c: char)
    requires |parts| > 1
    ensures c in Join(parts, [c])
  {
    assert Join(parts, [c])[|parts[0]|] == c;
  }

  /** The inverse direction: pieces free of the separator are recovered by
      splitting their join. */
  lemma {:induction false} JoinSplit(parts: seq<string>, c: char)
    requires |parts| >= 1
    requires forall i :: 0 <= i < |parts| ==> c !in parts[i]
    ensures Split(Join(parts, [c]), c) == parts
    decreases |parts|
  {
    if |parts| == 1 {
      SplitNoSep(parts[0], c);
    } else {
      JoinSplit(parts[1..], c);
      SplitAppend(parts[0], Join(parts[1..], [c]), c);
      SplitNoSep(parts[0], c);
      assert [parts[0]] + parts[1..] == parts;
    }
  }

  /** The lower-cased pieces of `s` are the pieces of the lower-cased `s`
      when the separator is not a letter. */
  lemma {:induction false} SplitLower(s: string, c: char)
    requires !('A' <= c <= 'Z') && !('a' <= c <= 'z')
    ensures Split(Lower(s), c) == LowerAll(Split(s, c))
    decreases |s|
  {
    if |s| > 0 {
      SplitLower(s[1..], c);
      var rest := Split(s[1..], c);
      if s[0] != c {
        LowerAppend([s[0]], rest[0]);
      }
    }
  }

  function LowerAll(parts: seq<string>): (r: seq<string>)
    ensures |r| == |parts|
    ensures forall i :: 0 <= i < |parts| ==> r[i] == Lower(parts[i])
  {
    seq(|parts|, i requires 0 <= i < |parts| => Lower(parts[i]))
  }

  /** Python's `s.count(c)` for a single character. */
  function Count(s: string, c: char): nat {
    if |s| == 0 then 0 else (if s[0] == c then 1 else 0) + Count(s[1..], c)
  }

  lemma {:induction false} CountAppend(a: string, b: string, c: char)
    ensures Count(a + b, c) == Count(a, c) + Count(b, c)
    decreases |a|
  {
    if |a| > 0 {
      assert (a + b)[1..] == a[1..] + b;
      CountAppend(a[1..], b, c);
    } else {
      assert a + b == b;
    }
  }

  /** Splitting on `c` yields one piece more than there are `c`s. */
  lemma {:induction false} SplitCount(s: string, c: char)
    ensures |Split(s, c)| == Count(s, c) + 1
    decreases |s|
  {
    if |s| > 0 {
      SplitCount(s[1..], c);
    }
  }

  function Last<T>(xs: seq<T>): T
    requires |xs| > 0
  {
    xs[|xs| - 1]
  }

  // ---------------------------------------------------------------------
  // Decimal rendering of integers
  // ---------------------------------------------------------------------

  predicate IsDigit(c: char) {
    '0' <= c <= '9'
  }

  predicate IsDigits(s: string) {
    forall i :: 0 <= i < |s| ==> IsDigit(s[i])
  }

  function DigitChar(d: nat): (c: char)
    requires d < 10
    ensures IsDigit(c) && c as int - '0' as int == d
  {
    ('0' as int + d) as char
  }

  /** The value a string of decimal digits denotes. */
  function DigitsValue(s: string): nat
    requires IsDigits(s)
  {
    if |s| == 0 then 0
    else 10 * DigitsValue(s[..|s| - 1]) + (s[|s| - 1] as int - '0' as int)
  }

  /** Python's `str(n)` for a non-negative integer. */
  function NatToString(n: nat): (r: string)
    ensures |r| >= 1 && IsDigits(r)
    ensures r[0] == '0' <==> n == 0
  {
    if n < 10 then [DigitChar(n)] else NatToString(n / 10) + [DigitChar(n % 10)]
  }

  /** Decimal rendering is inverted by reading the digits back. */
  lemma {:induction false} NatToStringValue(n: nat)
    ensures DigitsValue(NatToString(n)) == n
    decreases n
  {
    if n >= 10 {
      NatToStringValue(n / 10);
      var s := NatToString(n);
      assert s[..|s| - 1] == NatToString(n / 10);
    }
  }

  /** A larger number never has fewer digits. */
  lemma {:induction false} NatToStringLonger(a: nat, b: nat)
    requires a <= b
    ensures |NatToString(a)| <= |NatToString(b)|
    decreases b
  {
    if a >= 10 {
      NatToStringLonger(a / 10, b / 10);
    }
  }

  /** Python's `str(i)` for any integer: the canonical decimal digits of
      the magnitude, which read back as it, after a minus sign when `i` is
      negative. */
  function IntToString(i: int): (r: string)
    ensures i >= 0 ==> r != [] && IsDigits(r) && DigitsValue(r) == i && (r[0] == '0' ==> r == "0")
    ensures i < 0 ==> |r| >= 2 && r[0] == '-' && IsDigits(r[1..]) && DigitsValue(r[1..]) == -i && r[1] != '0'
  {
    if i < 0 then
      NatToStringValue(-i);
      var r := "-" + NatToString(-i);
      assert r[1..] == NatToString(-i);
      r
    else
      NatToStringValue(i);
      NatToString(i)
  }
}
