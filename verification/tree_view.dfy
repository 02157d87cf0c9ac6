/**
 * `format_tree` and `_format_size`: the indented directory listing put in
 * front of the file contents, with the same skip rules as the selection and
 * a cap on the number of lines.
 */
module TreeView {
  import opened Text
  import opened Sequences
  import opened Classifier
  import opened RepoTree

  /** `MAX_TREE_LINES` of the configuration. */
  const MAX_TREE_LINES: nat := 500

  // ---------------------------------------------------------------------
  // _format_size
  // ---------------------------------------------------------------------

  function Abs(x: int): nat {
    if x < 0 then -x else x
  }

  /** `t` tenths is the value `num / den` rounded to one decimal, halves to
      the even tenth: what `format(num / den, ".1f")` shows when the division
      is exact in binary, as it is for `den` a power of two. */
  predicate NearestTenth(t: int, num: int, den: int) {
    && 2 * Abs(t * den - 10 * num) <= den
    && (2 * Abs(t * den - 10 * num) == den ==> t % 2 == 0)
  }

  /** The rounded number of tenths in `num / den`. */
  function Tenths(num: nat, den: nat): (t: nat)
    requires den > 0
    ensures NearestTenth(t, num, den)
  {
    var q := (10 * num) / den;
    var r := (10 * num) % den;
    RoundingCases(num, den, q, r);
    if 2 * r < den || (2 * r == den && q % 2 == 0) then q else q + 1
  }

  /** With `10 * num == q * den + r`, the quotient is the nearest tenth when
      the remainder is below half, or half with an even quotient; otherwise
      the next tenth up is. */
  lemma RoundingCases(num: int, den: int, q: int, r: int)
    requires den > 0 && 0 <= r < den && q * den + r == 10 * num
    ensures 2 * r < den || (2 * r == den && q % 2 == 0) ==> NearestTenth(q, num, den)
    ensures !(2 * r < den || (2 * r == den && q % 2 == 0)) ==> NearestTenth(q + 1, num, den)
  {
    assert q * den - 10 * num == -r;
    assert (q + 1) * den == q * den + den;
  }

  /** At most one number of tenths is nearest, so `Tenths` is the only
      rounding that meets `NearestTenth`. */
  lemma TenthsUnique(t: int, u: int, num: int, den: int)
    requires den > 0
    requires NearestTenth(t, num, den) && NearestTenth(u, num, den)
    ensures t == u
  {
    var a := t * den - 10 * num;
    var b := u * den - 10 * num;
    assert (t - u) * den == a - b;
    MulGap(t - u, den);
  }

  lemma MulGap(k: int, den: int)
    requires den > 0
    ensures k >= 1 ==> k * den >= den
    ensures k >= 2 ==> k * den >= 2 * den
    ensures k <= -1 ==> k * den <= -den
    ensures k <= -2 ==> k * den <= -2 * den
  {
    if k >= 2 {
      assert k * den == (k - 2) * den + 2 * den;
    } else if k <= -2 {
      assert k * den == (k + 2) * den - 2 * den;
    }
  }

  /** A number printed with one decimal: digits, a point, one digit. */
  predicate DecimalShape(s: string) {
    |s| >= 3 && s[|s| - 2] == '.' && IsDigits(s[..|s| - 2]) && IsDigit(s[|s| - 1])
  }

  /** The printed number, in tenths. */
  function ReadTenths(s: string): nat
    requires DecimalShape(s)
  {
    DigitsValue(s[..|s| - 2]) * 10 + (s[|s| - 1] as int - '0' as int)
  }

  /** `t` tenths printed with one decimal; reading it back gives `t`. */
  function OneDecimal(t: nat): (r: string)
    ensures DecimalShape(r) && ReadTenths(r) == t
  {
    var whole := NatToString(t / 10);
    var r := whole + "." + [DigitChar(t % 10)];
    assert r[..|r| - 2] == whole;
    NatToStringValue(t / 10);
    r
  }

  const KIB: nat := 1024
  const MIB: nat := 1024 * 1024

  /** `_format_size`: bytes below 1024, else kilobytes below 1024 * 1024,
      else megabytes, the last two with one rounded decimal. */
  function FormatSize(n: int): (r: string)
    ensures n < KIB ==> EndsWith(r, " B")
    ensures 0 <= n < KIB ==> IsDigits(r[..|r| - 2]) && DigitsValue(r[..|r| - 2]) == n
    ensures KIB <= n < MIB ==>
              EndsWith(r, " KB") && DecimalShape(r[..|r| - 3])
              && NearestTenth(ReadTenths(r[..|r| - 3]), n, KIB)
    ensures MIB <= n ==>
              EndsWith(r, " MB") && DecimalShape(r[..|r| - 3])
              && NearestTenth(ReadTenths(r[..|r| - 3]), n, MIB)
  {
    if n < KIB then
      var digits := IntToString(n);
      assert (digits + " B")[..|digits|] == digits;
      digits + " B"
    else
      var unit := if n < MIB then " KB" else " MB";
      var shown := OneDecimal(Tenths(n, if n < MIB then KIB else MIB));
      assert (shown + unit)[..|shown|] == shown;
      shown + unit
  }

  // ---------------------------------------------------------------------
  // One line of the listing
  // ---------------------------------------------------------------------

  /** The filter `format_tree` applies, written as it is there: each
      directory component lower-cased and looked up on its own, then the
      lower-cased final component's extension and name. */
  predicate HiddenInTree(path: string) {
    var parts := Split(path, '/');
    var filename := Lower(Last(parts));
    || (exists i :: 0 <= i < |parts| - 1 && Lower(parts[i]) in SKIP_DIRS)
    || Extension(filename) in SKIP_EXTENSIONS
    || filename in SKIP_FILES
  }

  /** The listing hides exactly the paths `_should_skip` rejects. */
  lemma HiddenInTreeIsShouldSkip(path: string)
    ensures HiddenInTree(path) == ShouldSkip(path)
  {
    var parts := Split(path, '/');
    SplitLower(path, '/');
    assert ShouldSkip(path) == SkipParts(LowerAll(parts));
    SkipPartsLowerAll(parts);
  }

  /** A top-level entry is never hidden by the directory rule: a skipped
      directory itself is still listed unless its own name hits the file
      or extension rules. */
  lemma TopLevelShown(path: string)
    requires '/' !in path
    ensures HiddenInTree(path) <==>
              Extension(Lower(path)) in SKIP_EXTENSIONS || Lower(path) in SKIP_FILES
  {
    SplitNoSep(path, '/');
  }

  /** Every entry below a skipped directory is hidden. */
  lemma BelowSkippedDirHidden(path: string, k: int)
    requires 0 <= k < |Split(path, '/')| - 1
    requires Lower(Split(path, '/')[k]) in SKIP_DIRS
    ensures HiddenInTree(path)
  {
  }

  /** The rendered line of an entry: two spaces per ancestor directory (one
      per `/` in the path), the entry's base name, then its suffix. */
  function RenderLine(e: TreeEntry): (r: string)
    ensures r == Indent(Count(e.path, '/')) + Basename(e.path) + Suffix(e)
  {
    var parts := Split(e.path, '/');
    SplitCount(e.path, '/');
    BasenameIsLastPiece(e.path);
    Indent(|parts| - 1) + Last(parts) + Suffix(e)
  }

  /** What follows the name: `/` for a directory, the formatted size in
      parentheses for an entry with a positive size, nothing otherwise. */
  function Suffix(e: TreeEntry): (t: string)
    ensures e.kind == Tree ==> t == "/"
    ensures e.kind != Tree && e.SizeOrZero() > 0 ==> t == "  (" + FormatSize(e.SizeOrZero()) + ")"
    ensures e.kind != Tree && e.SizeOrZero() <= 0 ==> t == ""
  {
    if e.kind == Tree then "/"
    else if e.SizeOrZero() > 0 then "  (" + FormatSize(e.SizeOrZero()) + ")"
    else ""
  }

  // ---------------------------------------------------------------------
  // format_tree
  // ---------------------------------------------------------------------

  /** The line appended when the cap is reached; it reports the number of
      entries in the whole tree, listed or not. */
  function TruncationNotice(total: nat): string {
    "  ... (truncated, " + NatToString(total) + " total entries)"
  }

  predicate Shown(e: TreeEntry) {
    !HiddenInTree(e.path)
  }

  /** The lines of all shown entries, in tree order, before any cap. */
  function VisibleLines(tree: seq<TreeEntry>): seq<string> {
    FilterMap(tree, Shown, RenderLine)
  }

  /** The cap: fewer than `MAX_TREE_LINES` lines are kept as they are;
      otherwise the first `MAX_TREE_LINES` are kept and the notice follows,
      even when no line was dropped. */
  function Cap(lines: seq<string>, notice: string): (r: seq<string>)
    ensures |r| <= MAX_TREE_LINES + 1
    ensures |r| <= MAX_TREE_LINES ==> r == lines
    ensures |r| == MAX_TREE_LINES + 1 ==>
              |lines| >= MAX_TREE_LINES && r[..MAX_TREE_LINES] == lines[..MAX_TREE_LINES]
              && r[MAX_TREE_LINES] == notice
  {
    if |lines| < MAX_TREE_LINES then lines
    else lines[..MAX_TREE_LINES] + [notice]
  }

  /** The loop of `format_tree` from entry `i` on, with `lines` collected so
      far: entries failing `keep` are passed over, the others rendered by
      `render`, and the loop stops right after the line that reaches the
      cap, appending `notice`. */
  function Walk<T>(s: seq<T>, i: nat, lines: seq<string>,
                   keep: T -> bool, render: T -> string, notice: string): seq<string>
    requires i <= |s| && |lines| < MAX_TREE_LINES
    decreases |s| - i
  {
    if i == |s| then lines
    else if !keep(s[i]) then Walk(s, i + 1, lines, keep, render, notice)
    else
      var more := lines + [render(s[i])];
      if |more| >= MAX_TREE_LINES then more + [notice]
      else Walk(s, i + 1, more, keep, render, notice)
  }

  /** The loop computes the cap of the lines collected so far followed by
      the lines of every kept entry still to come. */
  lemma {:induction false} WalkIsCap<T>(s: seq<T>, i: nat, lines: seq<string>,
                                       keep: T -> bool, render: T -> string, notice: string)
    requires i <= |s| && |lines| < MAX_TREE_LINES
    ensures Walk(s, i, lines, keep, render, notice) ==
              Cap(lines + FilterMap(s[i..], keep, render), notice)
    decreases |s| - i
  {
    if i == |s| {
      assert s[i..] == [];
      assert lines + [] == lines;
    } else {
      assert s[i..][0] == s[i];
      assert s[i..][1..] == s[i + 1..];
      if !keep(s[i]) {
        WalkIsCap(s, i + 1, lines, keep, render, notice);
      } else {
        var more := lines + [render(s[i])];
        var rest := FilterMap(s[i + 1..], keep, render);
        assert lines + FilterMap(s[i..], keep, render) == more + rest;
        if |more| >= MAX_TREE_LINES {
          assert (more + rest)[..MAX_TREE_LINES] == more;
        } else {
          WalkIsCap(s, i + 1, more, keep, render, notice);
        }
      }
    }
  }

  /** The lines `format_tree` joins. */
  function TreeLines(tree: seq<TreeEntry>): seq<string> {
    Walk(tree, 0, [], Shown, RenderLine, TruncationNotice(|tree|))
  }

  /** `format_tree`: the capped lines joined with newlines. */
  function FormatTree(tree: seq<TreeEntry>): (r: string)
    ensures tree == [] ==> r == ""
  {
    Join(TreeLines(tree), "\n")
  }

  /** The lines of `format_tree` are the capped lines of the shown entries:
      never more than `MAX_TREE_LINES + 1`, the extra one being the notice
      that reports the size of the whole tree. */
  lemma FormatTreeLines(tree: seq<TreeEntry>)
    ensures TreeLines(tree) == Cap(VisibleLines(tree), TruncationNotice(|tree|))
    ensures |TreeLines(tree)| <= MAX_TREE_LINES + 1
    ensures |TreeLines(tree)| == MAX_TREE_LINES + 1 ==>
              TreeLines(tree)[MAX_TREE_LINES] == TruncationNotice(|tree|)
    ensures |VisibleLines(tree)| < MAX_TREE_LINES ==> TreeLines(tree) == VisibleLines(tree)
  {
    WalkIsCap(tree, 0, [], Shown, RenderLine, TruncationNotice(|tree|));
    assert tree[0..] == tree;
    assert [] + VisibleLines(tree) == VisibleLines(tree);
  }

  /** When no path holds a newline, splitting the listing on newlines gives
      back its lines, so it is at most `MAX_TREE_LINES + 1` lines long. A
      path with a newline (Git allows one) adds lines of its own. */
  lemma FormatTreeLineCount(tree: seq<TreeEntry>)
    requires forall e :: e in tree ==> '\n' !in e.path
    ensures TreeLines(tree) != [] ==> Split(FormatTree(tree), '\n') == TreeLines(tree)
    ensures |Split(FormatTree(tree), '\n')| <= MAX_TREE_LINES + 1
  {
    FormatTreeLines(tree);
    TreeLinesNoNewline(tree);
    SplitJoinedLines(TreeLines(tree));
  }

  lemma TreeLinesNoNewline(tree: seq<TreeEntry>)
    requires forall e :: e in tree ==> '\n' !in e.path
    ensures NoNewlines(TreeLines(tree))
  {
    FormatTreeLines(tree);
    VisibleNoNewline(tree);
    NoticeNoNewline(|tree|);
    CapNoNewline(VisibleLines(tree), TruncationNotice(|tree|));
  }

  lemma NoticeNoNewline(n: nat)
    ensures '\n' !in TruncationNotice(n)
  {
    assert '\n' !in NatToString(n);
  }

  predicate NoNewlines(lines: seq<string>) {
    forall i :: 0 <= i < |lines| ==> '\n' !in lines[i]
  }

  /** Lines free of newlines come back from splitting their join; no lines
      join to the empty string, which splits into one empty line. */
  lemma SplitJoinedLines(lines: seq<string>)
    requires NoNewlines(lines)
    ensures lines != [] ==> Split(Join(lines, "\n"), '\n') == lines
    ensures lines == [] ==> Split(Join(lines, "\n"), '\n') == [""]
  {
    if lines != [] {
      JoinSplit(lines, '\n');
    }
  }

  lemma CapNoNewline(lines: seq<string>, notice: string)
    requires NoNewlines(lines) && '\n' !in notice
    ensures NoNewlines(Cap(lines, notice))
  {
    var r := Cap(lines, notice);
    if |lines| >= MAX_TREE_LINES {
      forall i | 0 <= i < |r|
        ensures '\n' !in r[i]
      {
        if i < MAX_TREE_LINES {
          assert r[i] == lines[i];
        }
      }
    }
  }

  lemma {:induction false} VisibleNoNewline(tree: seq<TreeEntry>)
    requires forall e :: e in tree ==> '\n' !in e.path
    ensures NoNewlines(VisibleLines(tree))
  {
    if |tree| > 0 {
      var rest := VisibleLines(tree[1..]);
      assert forall e :: e in tree[1..] ==> e in tree;
      VisibleNoNewline(tree[1..]);
      if Shown(tree[0]) {
        RenderLineNoNewline(tree[0]);
        var r := [RenderLine(tree[0])] + rest;
        assert VisibleLines(tree) == r;
        forall i | 0 <= i < |r|
          ensures '\n' !in r[i]
        {
          if i > 0 {
            assert r[i] == rest[i - 1];
          }
        }
      } else {
        assert VisibleLines(tree) == rest;
      }
    }
  }

  lemma RenderLineNoNewline(e: TreeEntry)
    requires '\n' !in e.path
    ensures '\n' !in RenderLine(e)
  {
    BasenameNoNewline(e.path);
    SuffixNoNewline(e);
  }

  lemma BasenameNoNewline(p: string)
    requires '\n' !in p
    ensures '\n' !in Basename(p)
  {
    BasenameIsSuffix(p);
    NotInTail(p, |p| - |Basename(p)|, '\n');
  }

  lemma SuffixNoNewline(e: TreeEntry)
    ensures '\n' !in Suffix(e)
  {
    if e.kind != Tree && e.SizeOrZero() > 0 {
      SizeNoNewline(e.SizeOrZero());
    }
  }

  lemma SizeNoNewline(n: int)
    requires n > 0
    ensures '\n' !in FormatSize(n)
  {
    var r := FormatSize(n);
    var k := if n < KIB then 2 else 3;
    assert r == r[..|r| - k] + r[|r| - k..];
    if n >= KIB {
      var d := r[..|r| - k];
      assert d == d[..|d| - 2] + d[|d| - 2..];
    }
  }
}
