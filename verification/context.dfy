/**
 * Context assembly: `truncate_file_content`, `_build_metadata_section` and
 * `build_context`, which concatenates the metadata block, the directory
 * listing and as many file bodies as the character budget admits.
 */
module Context {
  import opened Wrappers
  import opened Text
  import opened Sequences
  import opened RepoTree
  import opened Selection
  import opened TreeView

  /** Budget constants of the configuration and of `build_context`. */
  const MAX_CONTEXT_CHARS: nat := 200000
  const MAX_FILE_LINES: nat := 300
  /** Room left for the header of a block cut to fit the budget. */
  const BUDGET_RESERVE: nat := 200
  /** A cut block is only emitted when more than this many characters remain. */
  const MIN_CUT: nat := 500

  // ---------------------------------------------------------------------
  // truncate_file_content
  // ---------------------------------------------------------------------

  /** How many items Python's `xs[:n]` keeps of `len` items. */
  function SliceStop(n: int, len: nat): (k: nat)
    ensures k <= len
    ensures 0 <= n ==> k == if n < len then n else len
    ensures n < 0 ==> k + (if -n < len then -n else len) == len
  {
    if n >= 0 then (if n < len then n else len)
    else if len + n > 0 then len + n else 0
  }

  function LinesNotice(total: nat): string {
    "... (truncated, " + NatToString(total) + " total lines)"
  }

  /** `truncate_file_content`: content with at most `maxLines` lines comes
      back unchanged; otherwise the kept lines are followed by an empty line
      and a notice with the original line count. */
  function TruncateFileContent(content: string, maxLines: int): (r: string)
    ensures |Split(content, '\n')| <= maxLines ==> r == content
    ensures |Split(content, '\n')| > maxLines ==>
              var lines := Split(content, '\n');
              var kept := lines[..SliceStop(maxLines, |lines|)];
              Split(r, '\n') == (if kept == [] then [""] else kept) + ["", LinesNotice(|lines|)]
  {
    var lines := Split(content, '\n');
    if |lines| <= maxLines then content
    else
      var kept := lines[..SliceStop(maxLines, |lines|)];
      TruncatedLines(kept, LinesNotice(|lines|));
      Join(kept, "\n") + "\n\n" + LinesNotice(|lines|)
  }

  lemma TruncatedLines(kept: seq<string>, notice: string)
    requires NoneContain(kept, '\n') && '\n' !in notice
    ensures Split(Join(kept, "\n") + "\n\n" + notice, '\n') ==
              (if kept == [] then [""] else kept) + ["", notice]
  {
    SplitNotice(Join(kept, "\n"), notice);
    if kept != [] {
      JoinSplit(kept, '\n');
    } else {
      SplitNoSep([], '\n');
    }
  }

  /** The blank line and the notice add two lines to whatever precedes them. */
  lemma SplitNotice(j: string, notice: string)
    requires '\n' !in notice
    ensures Split(j + "\n\n" + notice, '\n') == Split(j, '\n') + ["", notice]
  {
    var tail := "\n" + notice;
    assert j + "\n\n" + notice == j + ['\n'] + tail;
    SplitAppend(j, tail, '\n');
    SplitBlankThen(notice);
  }

  lemma SplitBlankThen(notice: string)
    requires '\n' !in notice
    ensures Split("\n" + notice, '\n') == ["", notice]
  {
    assert "\n" + notice == [] + ['\n'] + notice;
    SplitAppend([], notice, '\n');
    SplitNoSep(notice, '\n');
    SplitNoSep([], '\n');
  }

  /** What survives truncation is a prefix of the original content. */
  lemma TruncateKeepsPrefix(content: string, maxLines: int)
    requires |Split(content, '\n')| > maxLines
    ensures var lines := Split(content, '\n');
            var kept := Join(lines[..SliceStop(maxLines, |lines|)], "\n");
            StartsWith(content, kept)
            && TruncateFileContent(content, maxLines) == kept + "\n\n" + LinesNotice(|lines|)
  {
    var lines := Split(content, '\n');
    JoinPrefix(lines, SliceStop(maxLines, |lines|), "\n");
  }

  // ---------------------------------------------------------------------
  // _build_metadata_section
  // ---------------------------------------------------------------------

  /** The repository metadata dictionary. `None` stands for a missing key
      (for `description` and `language` also for a JSON null); a missing
      `topics` key reads as the empty list. */
  datatype Metadata = Metadata(
    name: Option<string>,
    owner: Option<string>,
    description: Option<string>,
    language: Option<string>,
    topics: seq<string>,
    stars: Option<int>)

  /** Python truthiness of an optional string. */
  predicate Truthy(v: Option<string>) {
    v.Some? && v.value != ""
  }

  const METADATA_HEADER: string := "=== REPOSITORY METADATA ==="

  predicate HasLine(lines: seq<string>, tag: string) {
    exists i :: 0 <= i < |lines| && StartsWith(lines[i], tag)
  }

  function OptionalLine(v: Option<string>, tag: string): (r: seq<string>)
    ensures |r| <= 1
    ensures Truthy(v) <==> |r| == 1
    ensures |r| == 1 ==> r[0] == tag + v.value
  {
    if Truthy(v) then [tag + v.value] else []
  }

  /** The Topics line, present when the topic list is non-empty. */
  function TopicsLine(topics: seq<string>): (r: seq<string>)
    ensures |r| <= 1
    ensures topics != [] <==> |r| == 1
    ensures |r| == 1 ==> r[0] == "Topics: " + Join(topics, ", ")
  {
    if topics == [] then [] else ["Topics: " + Join(topics, ", ")]
  }

  /** The lines of `_build_metadata_section`: the header, Name and Owner
      (default "Unknown"), the optional Description, Primary Language and
      Topics lines, Stars (default 0) and an empty line. */
  function MetadataLines(m: Metadata): (r: seq<string>)
    ensures 5 <= |r| <= 8
    ensures r[0] == METADATA_HEADER
    ensures r[1] == "Name: " + m.name.GetOr("Unknown")
    ensures r[2] == "Owner: " + m.owner.GetOr("Unknown")
    ensures r[|r| - 2] == "Stars: " + IntToString(m.stars.GetOr(0))
    ensures r[|r| - 1] == ""
    ensures |r| == 5 + |OptionalLine(m.description, "Description: ")|
                     + |OptionalLine(m.language, "Primary Language: ")|
                     + |TopicsLine(m.topics)|
  {
    [METADATA_HEADER,
     "Name: " + m.name.GetOr("Unknown"),
     "Owner: " + m.owner.GetOr("Unknown")]
    + OptionalLine(m.description, "Description: ")
    + OptionalLine(m.language, "Primary Language: ")
    + TopicsLine(m.topics)
    + ["Stars: " + IntToString(m.stars.GetOr(0)), ""]
  }

  /** A description line appears exactly when the description is truthy,
      and then it carries the description. */
  lemma MetadataDescription(m: Metadata)
    ensures HasLine(MetadataLines(m), "Description: ") <==> Truthy(m.description)
    ensures Truthy(m.description) ==> MetadataLines(m)[3] == "Description: " + m.description.value
  {
    var tag := "Description: ";
    MetadataTags(m, tag);
    OptionalLineTag(m.description, tag, tag);
    OptionalLineTag(m.language, "Primary Language: ", tag);
    TopicsLineTag(m.topics, tag);
  }

  /** A language line appears exactly when the language is truthy, and then
      it follows the optional description line. */
  lemma MetadataLanguage(m: Metadata)
    ensures HasLine(MetadataLines(m), "Primary Language: ") <==> Truthy(m.language)
    ensures Truthy(m.language) ==>
              MetadataLines(m)[3 + |OptionalLine(m.description, "Description: ")|]
              == "Primary Language: " + m.language.value
  {
    var tag := "Primary Language: ";
    MetadataTags(m, tag);
    OptionalLineTag(m.description, "Description: ", tag);
    OptionalLineTag(m.language, tag, tag);
    TopicsLineTag(m.topics, tag);
    MetadataLayout(m);
  }

  /** A topics line appears exactly when the topic list is non-empty, and
      then it joins the topics with commas, right before the Stars line. */
  lemma MetadataTopics(m: Metadata)
    ensures HasLine(MetadataLines(m), "Topics: ") <==> m.topics != []
    ensures m.topics != [] ==>
              MetadataLines(m)[|MetadataLines(m)| - 3] == "Topics: " + Join(m.topics, ", ")
  {
    var tag := "Topics: ";
    MetadataTags(m, tag);
    OptionalLineTag(m.description, "Description: ", tag);
    OptionalLineTag(m.language, "Primary Language: ", tag);
    TopicsLineTag(m.topics, tag);
    MetadataLayout(m);
  }

  /** Where the optional lines sit. */
  lemma MetadataLayout(m: Metadata)
    ensures var r := MetadataLines(m);
            var d := OptionalLine(m.description, "Description: ");
            var l := OptionalLine(m.language, "Primary Language: ");
            var t := TopicsLine(m.topics);
            && r[3..3 + |d|] == d
            && r[3 + |d|..3 + |d| + |l|] == l
            && r[3 + |d| + |l|..|r| - 2] == t
  {
    var a := [METADATA_HEADER, "Name: " + m.name.GetOr("Unknown"), "Owner: " + m.owner.GetOr("Unknown")];
    var d := OptionalLine(m.description, "Description: ");
    var l := OptionalLine(m.language, "Primary Language: ");
    var t := TopicsLine(m.topics);
    var b := ["Stars: " + IntToString(m.stars.GetOr(0)), ""];
    assert MetadataLines(m) == a + d + l + t + b;
  }

  /** The fixed lines start with `=`, `N`, `O` and `S` or are empty, so a
      tag with another first character can only start an optional line. */
  lemma MetadataTags(m: Metadata, tag: string)
    requires |tag| > 0 && tag[0] !in "=NOS"
    ensures HasLine(MetadataLines(m), tag) <==>
              (|| HasLine(OptionalLine(m.description, "Description: "), tag)
               || HasLine(OptionalLine(m.language, "Primary Language: "), tag)
               || HasLine(TopicsLine(m.topics), tag))
  {
    var a := [METADATA_HEADER, "Name: " + m.name.GetOr("Unknown"), "Owner: " + m.owner.GetOr("Unknown")];
    var d := OptionalLine(m.description, "Description: ");
    var l := OptionalLine(m.language, "Primary Language: ");
    var t := TopicsLine(m.topics);
    var b := ["Stars: " + IntToString(m.stars.GetOr(0)), ""];
    assert MetadataLines(m) == a + d + l + t + b;
    HasLineAppend(a + d + l + t, b, tag);
    HasLineAppend(a + d + l, t, tag);
    HasLineAppend(a + d, l, tag);
    HasLineAppend(a, d, tag);
    forall i | 0 <= i < |a|
      ensures !StartsWith(a[i], tag)
    {
      assert a[i][0] in "=NO";
    }
    forall i | 0 <= i < |b|
      ensures !StartsWith(b[i], tag)
    {
      if i == 0 {
        assert b[i][0] == 'S';
      }
    }
  }

  lemma HasLineAppend(a: seq<string>, b: seq<string>, tag: string)
    ensures HasLine(a + b, tag) <==> HasLine(a, tag) || HasLine(b, tag)
  {
    if HasLine(a + b, tag) {
      var i :| 0 <= i < |a + b| && StartsWith((a + b)[i], tag);
      if i >= |a| {
        assert (a + b)[i] == b[i - |a|];
      } else {
        assert (a + b)[i] == a[i];
      }
    }
    if HasLine(a, tag) {
      var i :| 0 <= i < |a| && StartsWith(a[i], tag);
      assert (a + b)[i] == a[i];
    }
    if HasLine(b, tag) {
      var i :| 0 <= i < |b| && StartsWith(b[i], tag);
      assert (a + b)[|a| + i] == b[i];
    }
  }

  /** An optional line carries `tag` exactly when it is present and its own
      caption followed by the value starts with `tag`. */
  lemma OptionalLineTag(v: Option<string>, caption: string, tag: string)
    requires |caption| > 0 && |tag| > 0 && (caption[0] == tag[0] ==> StartsWith(caption, tag))
    ensures HasLine(OptionalLine(v, caption), tag) <==> Truthy(v) && caption[0] == tag[0]
  {
    if Truthy(v) {
      var x := caption + v.value;
      assert x[0] == caption[0];
      if caption[0] == tag[0] {
        assert x[..|tag|] == caption[..|tag|];
      }
    }
  }

  lemma TopicsLineTag(topics: seq<string>, tag: string)
    requires |tag| > 0 && (tag[0] == 'T' ==> StartsWith("Topics: ", tag))
    ensures HasLine(TopicsLine(topics), tag) <==> topics != [] && tag[0] == 'T'
  {
    if topics != [] {
      var x := "Topics: " + Join(topics, ", ");
      assert x[0] == 'T';
      if tag[0] == 'T' {
        assert x[..|tag|] == "Topics: "[..|tag|];
      }
    }
  }

  /** `_build_metadata_section`: the lines joined with newlines; the last,
      empty line makes the section end in a newline. */
  function MetadataSection(m: Metadata): (r: string)
    ensures EndsWith(r, "\n")
  {
    var lines := MetadataLines(m);
    JoinEndsEmpty(lines, "\n");
    Join(lines, "\n")
  }

  lemma {:induction false} JoinEndsEmpty(parts: seq<string>, sep: string)
    requires |parts| >= 2 && parts[|parts| - 1] == ""
    ensures EndsWith(Join(parts, sep), sep)
    decreases |parts|
  {
    if |parts| > 2 {
      JoinEndsEmpty(parts[1..], sep);
    } else {
      assert Join(parts, sep) == parts[0] + sep + "";
    }
  }

  // ---------------------------------------------------------------------
  // build_context: the file blocks
  // ---------------------------------------------------------------------

  /** What the file loop of `build_context` appends: a whole block, a block
      cut to fit the budget, or the line counting omitted files. */
  datatype FilePart =
    | Whole(path: string, body: string)
    | Cut(path: string, body: string)
    | Omitted(count: nat)

  function Block(path: string, body: string): string {
    "--- " + path + " ---\n" + body + "\n\n"
  }

  function RenderPart(p: FilePart): string {
    match p
    case Whole(path, body) => Block(path, body)
    case Cut(path, body) => "--- " + path + " (truncated to fit budget) ---\n" + body + "\n\n"
    case Omitted(n) => "... (" + NatToString(n) + " additional files omitted due to context budget)\n"
  }

  function RenderParts(parts: seq<FilePart>): (r: seq<string>)
    ensures |r| == |parts|
    ensures forall i :: 0 <= i < |parts| ==> r[i] == RenderPart(parts[i])
  {
    seq(|parts|, i requires 0 <= i < |parts| => RenderPart(parts[i]))
  }

  /** Python's `s[:n]` for `n >= 0`. */
  function Take(s: string, n: nat): (r: string)
    ensures |r| == if n < |s| then n else |s|
    ensures StartsWith(s, r)
  {
    if n < |s| then s[..n] else s
  }

  /** The number of selected files with a body, other than those at `path`:
      the count the omission line reports. Files already emitted are
      included. */
  function OthersWithBody(all: seq<Candidate>, bodies: map<string, string>, path: string): (n: nat)
    ensures n <= |all|
  {
    if |all| == 0 then 0
    else (if all[0].path in bodies && all[0].path != path then 1 else 0)
         + OthersWithBody(all[1..], bodies, path)
  }

  /** What follows the last whole block when `f` does not fit with `total`
      characters counted: for a tier 1 to 3 file with enough room a block
      cut to `MAX_CONTEXT_CHARS - total - BUDGET_RESERVE` characters, then
      the omission line. */
  function OverflowTail(f: Candidate, bodies: map<string, string>, all: seq<Candidate>, total: int): (r: seq<FilePart>)
    requires f.path in bodies
    ensures 1 <= |r| <= 2 && r[|r| - 1] == Omitted(OthersWithBody(all, bodies, f.path))
    ensures |r| == 2 <==> f.tier <= 3 && MAX_CONTEXT_CHARS - total - BUDGET_RESERVE > MIN_CUT
    ensures |r| == 2 ==> r[0].Cut? && r[0].path == f.path
                         && |r[0].body| <= MAX_CONTEXT_CHARS - total - BUDGET_RESERVE
                         && StartsWith(bodies[f.path], r[0].body)
                         && (|r[0].body| == MAX_CONTEXT_CHARS - total - BUDGET_RESERVE || r[0].body == bodies[f.path])
  {
    var available := MAX_CONTEXT_CHARS - total - BUDGET_RESERVE;
    var omitted := Omitted(OthersWithBody(all, bodies, f.path));
    if f.tier <= 3 && available > MIN_CUT then [Cut(f.path, Take(bodies[f.path], available)), omitted]
    else [omitted]
  }

  /** The file loop of `build_context` over `files`, with `total` characters
      counted so far; `bodies` maps each fetched path to its truncated body. */
  function FileParts(files: seq<Candidate>, bodies: map<string, string>, all: seq<Candidate>, total: int): seq<FilePart>
    decreases |files|
  {
    if |files| == 0 then []
    else
      var f := files[0];
      if f.path !in bodies then FileParts(files[1..], bodies, all, total)
      else
        var block := Block(f.path, bodies[f.path]);
        if total + |block| > MAX_CONTEXT_CHARS then OverflowTail(f, bodies, all, total)
        else [Whole(f.path, bodies[f.path])] + FileParts(files[1..], bodies, all, total + |block|)
  }

  /** How many of `fs` are at `path`. */
  function AtPath(fs: seq<Candidate>, path: string): nat {
    if |fs| == 0 then 0 else (if fs[0].path == path then 1 else 0) + AtPath(fs[1..], path)
  }

  /** The omission line counts every selected file with a body except those
      at the current path, whether or not its block was already emitted. */
  lemma {:induction false} OthersWithBodyCount(all: seq<Candidate>, bodies: map<string, string>, path: string)
    ensures OthersWithBody(all, bodies, path) + AtPath(WithBody(all, bodies), path) == |WithBody(all, bodies)|
    decreases |all|
  {
    if |all| > 0 {
      OthersWithBodyCount(all[1..], bodies, path);
    }
  }

  /** The selected files that have a body, in selection order. */
  function WithBody(files: seq<Candidate>, bodies: map<string, string>): (r: seq<Candidate>)
    ensures forall f :: f in r ==> f.path in bodies
  {
    if |files| == 0 then []
    else if files[0].path in bodies then [files[0]] + WithBody(files[1..], bodies)
    else WithBody(files[1..], bodies)
  }

  /** The characters whole blocks for `fs` count against the budget. */
  function Cost(fs: seq<Candidate>, bodies: map<string, string>): nat
    requires forall f :: f in fs ==> f.path in bodies
  {
    if |fs| == 0 then 0 else |Block(fs[0].path, bodies[fs[0].path])| + Cost(fs[1..], bodies)
  }

  function Wholes(fs: seq<Candidate>, bodies: map<string, string>): (r: seq<FilePart>)
    requires forall f :: f in fs ==> f.path in bodies
    ensures |r| == |fs|
  {
    if |fs| == 0 then [] else [Whole(fs[0].path, bodies[fs[0].path])] + Wholes(fs[1..], bodies)
  }

  function Max(a: int, b: int): int {
    if a < b then b else a
  }

  /** The shape of the file parts with `k` whole blocks: those are the
      blocks of the first `k` files with a body, they fit the budget counted
      from `total`, and either every file with a body is emitted or the next
      one overflows and its overflow tail ends the parts. */
  predicate ShapedAt(w: seq<Candidate>, parts: seq<FilePart>, bodies: map<string, string>,
                     all: seq<Candidate>, total: int, k: int)
    requires forall f :: f in w ==> f.path in bodies
  {
    && 0 <= k <= |w| && k <= |parts|
    && parts[..k] == Wholes(w[..k], bodies)
    && total + Cost(w[..k], bodies) <= Max(total, MAX_CONTEXT_CHARS)
    && (k == |w| ==> parts == parts[..k])
    && (k < |w| ==> total + Cost(w[..k + 1], bodies) > MAX_CONTEXT_CHARS
                    && parts[k..] == OverflowTail(w[k], bodies, all, total + Cost(w[..k], bodies)))
  }

  /** The file loop emits whole blocks for the longest prefix of the files
      with a body whose blocks fit the budget, counted from `total`; if a
      file is left, the overflow tail for that file follows and nothing else. */
  lemma FilePartsLongestPrefix(files: seq<Candidate>, bodies: map<string, string>, all: seq<Candidate>, total: int)
    ensures exists k :: ShapedAt(WithBody(files, bodies), FileParts(files, bodies, all, total), bodies, all, total, k)
  {
    var k := FilePartsShape(files, bodies, all, total);
  }

  lemma {:induction false} FilePartsShape(files: seq<Candidate>, bodies: map<string, string>, all: seq<Candidate>, total: int)
    returns (k: nat)
    ensures ShapedAt(WithBody(files, bodies), FileParts(files, bodies, all, total), bodies, all, total, k)
    decreases |files|
  {
    if |files| == 0 {
      k := 0;
      assert FileParts(files, bodies, all, total)[..0] == [];
    } else {
      var f := files[0];
      if f.path !in bodies {
        assert WithBody(files, bodies) == WithBody(files[1..], bodies);
        k := FilePartsShape(files[1..], bodies, all, total);
      } else {
        var block := Block(f.path, bodies[f.path]);
        assert WithBody(files, bodies) == [f] + WithBody(files[1..], bodies);
        if total + |block| > MAX_CONTEXT_CHARS {
          k := 0;
          ShapedOverflow(f, WithBody(files[1..], bodies), bodies, all, total);
        } else {
          var k' := FilePartsShape(files[1..], bodies, all, total + |block|);
          k := k' + 1;
          ShapedCons(f, WithBody(files[1..], bodies), FileParts(files[1..], bodies, all, total + |block|),
                     bodies, all, total, k');
        }
      }
    }
  }

  /** A file whose block does not fit ends the parts with its overflow tail. */
  lemma ShapedOverflow(f: Candidate, w: seq<Candidate>, bodies: map<string, string>, all: seq<Candidate>, total: int)
    requires f.path in bodies && forall g :: g in w ==> g.path in bodies
    requires total + |Block(f.path, bodies[f.path])| > MAX_CONTEXT_CHARS
    ensures ShapedAt([f] + w, OverflowTail(f, bodies, all, total), bodies, all, total, 0)
  {
    var fw := [f] + w;
    assert fw[..0] == [] && fw[..1] == [f];
    CostCons(f, [], bodies);
  }

  /** A whole block in front of parts shaped from the next total. */
  lemma ShapedCons(f: Candidate, w: seq<Candidate>, rest: seq<FilePart>, bodies: map<string, string>,
                   all: seq<Candidate>, total: int, k: int)
    requires f.path in bodies && forall g :: g in w ==> g.path in bodies
    requires total + |Block(f.path, bodies[f.path])| <= MAX_CONTEXT_CHARS
    requires ShapedAt(w, rest, bodies, all, total + |Block(f.path, bodies[f.path])|, k)
    ensures ShapedAt([f] + w, [Whole(f.path, bodies[f.path])] + rest, bodies, all, total, k + 1)
  {
    var fw := [f] + w;
    var parts := [Whole(f.path, bodies[f.path])] + rest;
    assert fw[..k + 1] == [f] + w[..k];
    CostCons(f, w[..k], bodies);
    assert parts[..k + 1] == [Whole(f.path, bodies[f.path])] + rest[..k];
    assert Wholes(fw[..k + 1], bodies) == [Whole(f.path, bodies[f.path])] + Wholes(w[..k], bodies) by {
      assert fw[..k + 1][1..] == w[..k];
    }
    if k < |w| {
      assert fw[..k + 2] == [f] + w[..k + 1];
      CostCons(f, w[..k + 1], bodies);
      assert fw[k + 1] == w[k];
      assert parts[k + 1..] == rest[k..];
    }
  }

  lemma CostCons(f: Candidate, fs: seq<Candidate>, bodies: map<string, string>)
    requires f.path in bodies && forall g :: g in fs ==> g.path in bodies
    ensures Cost([f] + fs, bodies) == |Block(f.path, bodies[f.path])| + Cost(fs, bodies)
  {
    assert ([f] + fs)[1..] == fs;
  }

  /** Whole blocks are appended only while the counted total stays within
      the budget. */
  lemma WholeBlocksWithinBudget(files: seq<Candidate>, bodies: map<string, string>, all: seq<Candidate>, total: int)
    requires total <= MAX_CONTEXT_CHARS
    ensures exists k :: 0 <= k <= |WithBody(files, bodies)|
                        && k <= |FileParts(files, bodies, all, total)|
                        && FileParts(files, bodies, all, total)[..k] == Wholes(WithBody(files, bodies)[..k], bodies)
                        && total + Cost(WithBody(files, bodies)[..k], bodies) <= MAX_CONTEXT_CHARS
                        && forall i :: k <= i < |FileParts(files, bodies, all, total)| ==>
                                         !FileParts(files, bodies, all, total)[i].Whole?
  {
    var k := FilePartsShape(files, bodies, all, total);
    var parts := FileParts(files, bodies, all, total);
    forall i | k <= i < |parts|
      ensures !parts[i].Whole?
    {
      assert parts[i] == parts[k..][i - k];
    }
  }

  /** At most one omission line, always the last part, and a cut block only
      right before it. */
  lemma OmissionIsLast(files: seq<Candidate>, bodies: map<string, string>, all: seq<Candidate>, total: int)
    ensures var parts := FileParts(files, bodies, all, total);
            forall i :: 0 <= i < |parts| && !parts[i].Whole? ==>
                          (parts[i].Omitted? <==> i == |parts| - 1)
                          && (parts[i].Cut? ==> i == |parts| - 2)
  {
    var k := FilePartsShape(files, bodies, all, total);
    var parts := FileParts(files, bodies, all, total);
    forall i | 0 <= i < |parts| && !parts[i].Whole?
      ensures (parts[i].Omitted? <==> i == |parts| - 1) && (parts[i].Cut? ==> i == |parts| - 2)
    {
      if i < k {
        assert parts[i] == parts[..k][i];
      } else {
        assert parts[i] == parts[k..][i - k];
      }
    }
  }

  // ---------------------------------------------------------------------
  // build_context
  // ---------------------------------------------------------------------

  const TREE_HEADER: string := "=== DIRECTORY STRUCTURE ===\n"
  const FILES_HEADER: string := "=== FILE CONTENTS ===\n"

  /** Every fetched body truncated to `MAX_FILE_LINES` lines. */
  function TruncatedBodies(contents: map<string, string>): (r: map<string, string>)
    ensures r.Keys == contents.Keys
  {
    map p | p in contents :: TruncateFileContent(contents[p], MAX_FILE_LINES)
  }

  /** The three fixed sections. */
  function SectionsHead(meta: Metadata, tree: seq<TreeEntry>): seq<string> {
    [MetadataSection(meta), TREE_HEADER + FormatTree(tree) + "\n", FILES_HEADER]
  }

  /** The sections `build_context` joins: metadata, tree, the file-contents
      header, then the file parts. */
  function Sections(meta: Metadata, tree: seq<TreeEntry>, contents: map<string, string>,
                    selected: seq<Candidate>): (r: seq<string>)
    ensures |r| >= 3
    ensures r[0] == MetadataSection(meta)
    ensures r[1] == TREE_HEADER + FormatTree(tree) + "\n"
    ensures r[2] == FILES_HEADER
  {
    var head := SectionsHead(meta, tree);
    var total := TotalLength(head);
    head + RenderParts(FileParts(selected, TruncatedBodies(contents), selected, total))
  }

  /** `build_context`. */
  function BuildContext(meta: Metadata, tree: seq<TreeEntry>, contents: map<string, string>,
                        selected: seq<Candidate>): (r: string)
    ensures StartsWith(r, MetadataSection(meta) + "\n" + TREE_HEADER + FormatTree(tree) + "\n"
                          + "\n" + FILES_HEADER)
  {
    var s := Sections(meta, tree, contents, selected);
    JoinThree(s, "\n");
    HeadRegrouped(s[0], TREE_HEADER, FormatTree(tree), FILES_HEADER);
    Join(s, "\n")
  }

  lemma HeadRegrouped(m: string, t: string, f: string, h: string)
    ensures m + "\n" + (t + f + "\n") + "\n" + h == m + "\n" + t + f + "\n" + "\n" + h
  {
  }

  /** The length of a join: the pieces plus one separator between each two. */
  lemma {:induction false} JoinLength(parts: seq<string>, sep: string)
    requires |parts| >= 1
    ensures |Join(parts, sep)| == TotalLength(parts) + (|parts| - 1) * |sep|
    decreases |parts|
  {
    if |parts| > 1 {
      JoinLength(parts[1..], sep);
    }
  }

  /** The output length is the counted characters of every section plus the
      newlines that join them, which the budget counter does not see. */
  lemma BuildContextLength(meta: Metadata, tree: seq<TreeEntry>, contents: map<string, string>,
                           selected: seq<Candidate>)
    ensures var s := Sections(meta, tree, contents, selected);
            |BuildContext(meta, tree, contents, selected)| == TotalLength(s) + |s| - 1
  {
    JoinLength(Sections(meta, tree, contents, selected), "\n");
  }

  // ---------------------------------------------------------------------
  // How far the output can exceed the budget
  // ---------------------------------------------------------------------

  /** The characters the sections ahead of the file blocks take. */
  function HeadLength(meta: Metadata, tree: seq<TreeEntry>): nat {
    |MetadataSection(meta)| + |TREE_HEADER| + |FormatTree(tree)| + 1 + |FILES_HEADER|
  }

  /** The longest path among `fs`. */
  function MaxPathLength(fs: seq<Candidate>): (n: nat)
    ensures forall i :: 0 <= i < |fs| ==> |fs[i].path| <= n
  {
    if |fs| == 0 then 0
    else
      var rest := MaxPathLength(fs[1..]);
      assert forall i :: 1 <= i < |fs| ==> fs[i] == fs[1..][i - 1];
      if |fs[0].path| < rest then rest else |fs[0].path|
  }

  /** The budget counts every section but not the newlines that join them,
      and a cut block or the omission line can take the total past it: the
      output exceeds `MAX_CONTEXT_CHARS` (or the head, when the head alone
      is longer) by at most one newline per selected file and four more,
      the longest selected path, and one omission line. */
  lemma BuildContextBound(meta: Metadata, tree: seq<TreeEntry>, contents: map<string, string>,
                          selected: seq<Candidate>)
    ensures |BuildContext(meta, tree, contents, selected)| <=
              Max(HeadLength(meta, tree), MAX_CONTEXT_CHARS) + MaxPathLength(selected)
              + |RenderPart(Omitted(|selected|))| + |selected| + 3
  {
    SectionsSplit(meta, tree, contents, selected);
    PartsBound(selected, TruncatedBodies(contents), HeadLength(meta, tree));
    BuildContextLength(meta, tree, contents, selected);
  }

  /** The sections are the head and the rendered file parts. */
  lemma SectionsSplit(meta: Metadata, tree: seq<TreeEntry>, contents: map<string, string>,
                      selected: seq<Candidate>)
    ensures var s := Sections(meta, tree, contents, selected);
            var parts := FileParts(selected, TruncatedBodies(contents), selected, HeadLength(meta, tree));
            TotalLength(s) == HeadLength(meta, tree) + PartsLength(parts) && |s| == 3 + |parts|
  {
    SectionsShape(meta, tree, contents, selected);
    HeadAndParts(SectionsHead(meta, tree), FileParts(selected, TruncatedBodies(contents), selected, HeadLength(meta, tree)));
  }

  lemma SectionsShape(meta: Metadata, tree: seq<TreeEntry>, contents: map<string, string>,
                      selected: seq<Candidate>)
    ensures TotalLength(SectionsHead(meta, tree)) == HeadLength(meta, tree)
    ensures Sections(meta, tree, contents, selected)
            == SectionsHead(meta, tree) + RenderParts(FileParts(selected, TruncatedBodies(contents), selected, HeadLength(meta, tree)))
  {
    HeadTotal(SectionsHead(meta, tree));
  }

  lemma HeadAndParts(head: seq<string>, parts: seq<FilePart>)
    ensures TotalLength(head + RenderParts(parts)) == TotalLength(head) + PartsLength(parts)
    ensures |head + RenderParts(parts)| == |head| + |parts|
  {
    TotalLengthAppend(head, RenderParts(parts));
    RenderedLength(parts);
  }

  /** The file loop's output bounded over all the selected files. */
  lemma PartsBound(selected: seq<Candidate>, bodies: map<string, string>, total: int)
    ensures var parts := FileParts(selected, bodies, selected, total);
            && total + PartsLength(parts) <=
                 Max(total, MAX_CONTEXT_CHARS) + MaxPathLength(selected) + |RenderPart(Omitted(|selected|))|
            && |parts| <= |selected| + 1
  {
    var k := FilePartsShape(selected, bodies, selected, total);
    ShapedLength(WithBody(selected, bodies), FileParts(selected, bodies, selected, total), bodies, selected, total, k);
    WithBodyBounds(selected, bodies);
  }

  lemma HeadTotal(head: seq<string>)
    requires |head| == 3
    ensures TotalLength(head) == |head[0]| + |head[1]| + |head[2]|
  {
    var t1 := head[1..];
    var t2 := t1[1..];
    assert TotalLength(head) == |head[0]| + TotalLength(t1);
    assert TotalLength(t1) == |head[1]| + TotalLength(t2);
    assert t2 == [head[2]] && t2[1..] == [];
    assert TotalLength(t2) == |head[2]| + TotalLength(t2[1..]);
  }

  lemma {:induction false} WithBodyBounds(files: seq<Candidate>, bodies: map<string, string>)
    ensures |WithBody(files, bodies)| <= |files|
    ensures MaxPathLength(WithBody(files, bodies)) <= MaxPathLength(files)
    decreases |files|
  {
    if |files| > 0 {
      WithBodyBounds(files[1..], bodies);
      if files[0].path in bodies {
        assert ([files[0]] + WithBody(files[1..], bodies))[1..] == WithBody(files[1..], bodies);
      }
    }
  }

  /** File parts shaped from a counted `total` take at most the room left
      under the budget (none if `total` is already over it), plus the
      longest path, plus one omission line; and there is at most one part
      more than files with a body. */
  lemma ShapedLength(w: seq<Candidate>, parts: seq<FilePart>, bodies: map<string, string>,
                     all: seq<Candidate>, total: int, k: int)
    requires forall f :: f in w ==> f.path in bodies
    requires ShapedAt(w, parts, bodies, all, total, k)
    ensures total + PartsLength(parts) <=
              Max(total, MAX_CONTEXT_CHARS) + MaxPathLength(w) + |RenderPart(Omitted(|all|))|
    ensures |parts| <= |w| + 1
  {
    assert parts == parts[..k] + parts[k..];
    PartsLengthAppend(parts[..k], parts[k..]);
    WholesLength(w[..k], bodies);
    var t := total + Cost(w[..k], bodies);
    if k < |w| {
      TailLength(w[k], bodies, all, t);
    } else {
      assert parts[k..] == [];
    }
  }

  /** What the overflow tail adds to a counted `total`. */
  lemma TailLength(f: Candidate, bodies: map<string, string>, all: seq<Candidate>, total: int)
    requires f.path in bodies
    ensures total + PartsLength(OverflowTail(f, bodies, all, total)) <=
              Max(total, MAX_CONTEXT_CHARS) + |f.path| + |RenderPart(Omitted(|all|))|
  {
    var r := OverflowTail(f, bodies, all, total);
    OmittedLonger(OthersWithBody(all, bodies, f.path), |all|);
    if |r| == 2 {
      CutLength(f.path, r[0].body);
      PartsLengthTwo(r);
    } else {
      assert r[1..] == [];
    }
  }

  lemma PartsLengthTwo(r: seq<FilePart>)
    requires |r| == 2
    ensures PartsLength(r) == |RenderPart(r[0])| + |RenderPart(r[1])|
  {
    var t := r[1..];
    assert PartsLength(r) == |RenderPart(r[0])| + PartsLength(t);
    assert t[0] == r[1] && t[1..] == [];
    assert PartsLength(t) == |RenderPart(t[0])| + PartsLength(t[1..]);
  }

  /** An omission line for more files is never shorter. */
  lemma OmittedLonger(a: nat, b: nat)
    requires a <= b
    ensures |RenderPart(Omitted(a))| <= |RenderPart(Omitted(b))|
  {
    NatToStringLonger(a, b);
  }

  /** A cut block adds 37 characters of framing to its path and body. */
  lemma CutLength(path: string, body: string)
    ensures |RenderPart(Cut(path, body))| == |path| + |body| + 37
  {
    assert |" (truncated to fit budget) ---\n"| == 31;
  }

  /** The characters the rendered parts take, separators not included. */
  function PartsLength(parts: seq<FilePart>): nat {
    if |parts| == 0 then 0 else |RenderPart(parts[0])| + PartsLength(parts[1..])
  }

  lemma {:induction false} RenderedLength(parts: seq<FilePart>)
    ensures TotalLength(RenderParts(parts)) == PartsLength(parts)
    decreases |parts|
  {
    if |parts| > 0 {
      RenderedLength(parts[1..]);
      assert RenderParts(parts)[1..] == RenderParts(parts[1..]);
    }
  }

  lemma {:induction false} PartsLengthAppend(a: seq<FilePart>, b: seq<FilePart>)
    ensures PartsLength(a + b) == PartsLength(a) + PartsLength(b)
    decreases |a|
  {
    if |a| > 0 {
      assert (a + b)[1..] == a[1..] + b;
      PartsLengthAppend(a[1..], b);
    } else {
      assert a + b == b;
    }
  }

  lemma {:induction false} WholesLength(fs: seq<Candidate>, bodies: map<string, string>)
    requires forall f :: f in fs ==> f.path in bodies
    ensures PartsLength(Wholes(fs, bodies)) == Cost(fs, bodies)
    decreases |fs|
  {
    if |fs| > 0 {
      WholesLength(fs[1..], bodies);
      assert Wholes(fs, bodies)[1..] == Wholes(fs[1..], bodies);
    }
  }
}
