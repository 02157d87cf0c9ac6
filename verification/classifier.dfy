/**
 * Per-path decisions of the content filter (app/content_filter.py): the
 * fixed skip and tier tables, `os.path.splitext`, `_should_skip` and
 * `_get_tier`.
 */
module Classifier {
  import opened Text

  // ---------------------------------------------------------------------
  // Tables (process-wide constants)
  // ---------------------------------------------------------------------

  /** Directory names whose whole subtree is ignored. */
  const SKIP_DIRS: set<string> := {
    "node_modules", "vendor", "dist", "build", ".git", "__pycache__",
    ".next", ".nuxt", ".output", ".cache", ".tox", ".nox", ".mypy_cache",
    ".ruff_cache", ".pytest_cache", ".eggs", "eggs", ".venv", "venv", "env",
    ".env", "site-packages", "coverage", "htmlcov", ".terraform", ".gradle",
    ".idea", ".vscode", "target", "out", "bin", "obj"
  }

  /** Binary, media and generated-file extensions. */
  const SKIP_EXTENSIONS: set<string> := {
    ".png", ".jpg", ".jpeg", ".gif", ".ico", ".svg", ".bmp", ".webp", ".tiff",
    ".woff", ".woff2", ".ttf", ".otf", ".eot",
    ".pyc", ".pyo", ".pyd", ".so", ".dll", ".exe", ".o", ".a", ".lib",
    ".class", ".jar", ".war", ".ear",
    ".zip", ".tar", ".gz", ".bz2", ".xz", ".rar", ".7z",
    ".mp3", ".mp4", ".avi", ".mov", ".wav", ".flac",
    ".pdf", ".doc", ".docx", ".xls", ".xlsx", ".ppt", ".pptx",
    ".sqlite", ".sqlite3", ".db",
    ".map", ".min.js", ".min.css",
    ".DS_Store", ".lock"
  }

  /** Lockfiles and similar generated files, matched by exact name. */
  const SKIP_FILES: set<string> := {
    "package-lock.json", "yarn.lock", "pnpm-lock.yaml", "Pipfile.lock",
    "poetry.lock", "Cargo.lock", "composer.lock", "Gemfile.lock", "go.sum",
    "flake.lock", ".gitattributes", ".editorconfig", ".browserslistrc",
    "thumbs.db"
  }

  /** Tier 1: project overview. */
  const TIER_1_FILES: set<string> := {"readme.md", "readme.rst", "readme.txt", "readme"}

  /** Tier 2: package manifests. */
  const TIER_2_FILES: set<string> := {
    "package.json", "pyproject.toml", "setup.py", "setup.cfg", "cargo.toml",
    "go.mod", "pom.xml", "build.gradle", "build.gradle.kts", "gemfile",
    "composer.json", "mix.exs", "project.clj", "requirements.txt",
    "requirements-dev.txt", "requirements_dev.txt", "pipfile", "environment.yml"
  }

  /** Tier 3: configuration and infrastructure. */
  const TIER_3_FILES: set<string> := {
    "dockerfile", "docker-compose.yml", "docker-compose.yaml", ".env.example",
    ".env.sample", "makefile", "procfile", "tsconfig.json", "webpack.config.js",
    "vite.config.ts", "vite.config.js", "next.config.js", "next.config.mjs",
    "rollup.config.js", "babel.config.js", ".babelrc", "jest.config.js",
    "jest.config.ts", "vitest.config.ts", "tox.ini", "noxfile.py", "justfile",
    "taskfile.yml", "vercel.json", "netlify.toml", "fly.toml", "render.yaml",
    "app.yaml", "serverless.yml", "cdk.json", "terraform.tf", "ansible.cfg"
  }

  /** Tier 4: entry-point base names (without extension). */
  const TIER_4_BASENAMES: set<string> := {
    "main", "app", "index", "server", "cli", "run", "manage", "__main__", "wsgi", "asgi"
  }

  /** Extensions of source files (tiers 4 and 5). */
  const SOURCE_EXTENSIONS: set<string> := {
    ".py", ".js", ".ts", ".jsx", ".tsx", ".go", ".rs", ".rb", ".java", ".kt",
    ".c", ".cpp", ".h", ".hpp", ".cs", ".swift", ".scala", ".clj", ".ex", ".exs",
    ".php", ".lua", ".r", ".jl", ".sh", ".bash", ".zsh", ".fish",
    ".sql", ".graphql", ".gql", ".proto"
  }

  /** Tier 6: supplementary documentation. */
  const TIER_6_FILES: set<string> := {
    "contributing.md", "changelog.md", "changes.md", "history.md", "authors.md",
    "code_of_conduct.md", "security.md", "license", "license.md", "license.txt", "notice"
  }

  /** The sentinel tier of files that are never sent as context. */
  const EXCLUDED: int := 99

  // ---------------------------------------------------------------------
  // Path helpers
  // ---------------------------------------------------------------------

  predicate AllDots(s: string) {
    forall i :: 0 <= i < |s| ==> s[i] == '.'
  }

  /** The final component has a dot that some non-dot character precedes:
      exactly the names to which `os.path.splitext` gives an extension. */
  predicate HasExtension(name: string) {
    exists i, j :: 0 <= i < j < |name| && name[i] != '.' && name[j] == '.'
  }

  /** `os.path.basename`: everything after the last '/'. */
  function Basename(p: string): (r: string)
    ensures '/' !in r
  {
    p[RFindChar(p, '/') + 1..]
  }

  /** The base name is what follows the last `/`, so it ends the path. */
  lemma BasenameIsSuffix(p: string)
    ensures EndsWith(p, Basename(p))
  {
  }

  /** The base name is the last piece of `p.split("/")`. */
  lemma BasenameIsLastPiece(p: string)
    ensures Basename(p) == Last(Split(p, '/'))
  {
    var k := RFindChar(p, '/');
    if k == -1 {
      BasenameNoSlash(p);
    } else {
      BasenameAfterSlash(p, k);
    }
  }

  lemma BasenameNoSlash(p: string)
    requires RFindChar(p, '/') == -1
    ensures Basename(p) == Last(Split(p, '/'))
  {
    SplitNoSep(p, '/');
  }

  lemma BasenameAfterSlash(p: string, k: int)
    requires k == RFindChar(p, '/') && k >= 0
    ensures Basename(p) == Last(Split(p, '/'))
  {
    assert p == p[..k] + ['/'] + p[k + 1..];
    SplitAppend(p[..k], p[k + 1..], '/');
    SplitNoSep(p[k + 1..], '/');
  }

  /** `os.path.splitext` on a POSIX path: the extension runs from the last
      '.' of the final component, unless only dots precede that '.' within
      the component, in which case there is none. */
  function SplitExt(p: string): (r: (string, string))
    ensures r.0 + r.1 == p
    ensures r.1 == [] || (r.1[0] == '.' && '.' !in r.1[1..] && '/' !in r.1)
  {
    var sep := RFindChar(p, '/');
    var dot := RFindChar(p, '.');
    if dot > sep && !AllDots(p[sep + 1..dot]) then
      assert p[..dot] + p[dot..] == p;
      ExtensionShape(p, sep, dot);
      (p[..dot], p[dot..])
    else
      assert p + "" == p;
      (p, "")
  }

  lemma ExtensionShape(p: string, sep: int, dot: int)
    requires sep == RFindChar(p, '/') && dot == RFindChar(p, '.') && dot > sep
    ensures p[dot] == '.' && '.' !in p[dot..][1..] && '/' !in p[dot..]
  {
    AfterRFindChar(p, '/');
    AfterRFindChar(p, '.');
    var t := p[dot..];
    forall i | 0 <= i < |t|
      ensures t[i] != '/'
    {
      assert t[i] == p[dot + i];
    }
    forall i | 0 <= i < |t| - 1
      ensures t[1..][i] != '.'
    {
      assert t[1..][i] == p[dot + 1 + i];
    }
  }

  /** `SplitExt` reports an extension exactly for the names `HasExtension`
      describes. */
  lemma SplitExtHasExtension(p: string)
    ensures SplitExt(p).1 != [] <==> HasExtension(Basename(p))
  {
    var sep := RFindChar(p, '/');
    var dot := RFindChar(p, '.');
    assert Basename(p) == p[sep + 1..];
    if dot > sep && !AllDots(p[sep + 1..dot]) {
      ExtensionWitness(p, sep, dot);
    }
    if HasExtension(p[sep + 1..]) {
      ExtensionFound(p, sep, dot);
    }
  }

  lemma ExtensionWitness(p: string, sep: int, dot: int)
    requires sep == RFindChar(p, '/') && dot == RFindChar(p, '.')
    requires dot > sep && !AllDots(p[sep + 1..dot])
    ensures HasExtension(p[sep + 1..])
  {
    var name := p[sep + 1..];
    var i :| 0 <= i < dot - sep - 1 && p[sep + 1..dot][i] != '.';
    assert name[i] == p[sep + 1 + i];
    assert name[dot - sep - 1] == p[dot];
  }

  lemma ExtensionFound(p: string, sep: int, dot: int)
    requires sep == RFindChar(p, '/') && dot == RFindChar(p, '.')
    requires HasExtension(p[sep + 1..])
    ensures dot > sep && !AllDots(p[sep + 1..dot])
  {
    var i, j := ExtensionPair(p[sep + 1..]);
    AfterRFindChar(p, '.');
    ExtensionFoundAt(p, sep, dot, i, j);
  }

  /** The non-dot and the dot after it that make an extension. */
  lemma ExtensionPair(name: string) returns (i: int, j: int)
    requires HasExtension(name)
    ensures 0 <= i < j < |name| && name[i] != '.' && name[j] == '.'
  {
    i, j :| 0 <= i < j < |name| && name[i] != '.' && name[j] == '.';
  }

  /** A non-dot at `i` before a dot at `j` in the final component. */
  lemma ExtensionFoundAt(p: string, sep: int, dot: int, i: int, j: int)
    requires -1 <= sep < |p| && -1 <= dot < |p|
    requires forall m :: dot < m < |p| ==> p[m] != '.'
    requires 0 <= i < j < |p| - sep - 1 && p[sep + 1..][i] != '.' && p[sep + 1..][j] == '.'
    ensures dot > sep && !AllDots(p[sep + 1..dot])
  {
    assert p[sep + 1 + j] == p[sep + 1..][j];
    assert p[sep + 1..dot][i] == p[sep + 1..][i];
  }

  /** The extension `os.path.splitext` reports for a file name. */
  function Extension(name: string): string {
    SplitExt(name).1
  }

  // ---------------------------------------------------------------------
  // _should_skip
  // ---------------------------------------------------------------------

  /** `_should_skip`: some directory component (not the final one) is a
      skipped directory, or the final component is a skipped file name or
      has a skipped extension; all after lower-casing the whole path. */
  function ShouldSkip(path: string): bool {
    SkipParts(Split(Lower(path), '/'))
  }

  /** The three skip rules applied to the `/`-separated components of an
      already lower-cased path. */
  predicate SkipParts(parts: seq<string>)
    requires |parts| >= 1
  {
    var filename := Last(parts);
    || (exists i :: 0 <= i < |parts| - 1 && parts[i] in SKIP_DIRS)
    || filename in SKIP_FILES
    || Extension(filename) in SKIP_EXTENSIONS
  }

  /** Lower-casing a path and splitting it on `/` yields its lower-cased components. */
  lemma SplitLowerJoin(segs: seq<string>)
    requires |segs| >= 1
    requires forall i :: 0 <= i < |segs| ==> '/' !in segs[i]
    ensures Split(Lower(Join(segs, "/")), '/') == LowerAll(segs)
  {
    var path := Join(segs, "/");
    JoinSplit(segs, '/');
    assert Split(path, '/') == segs;
    SplitLower(path, '/');
  }

  /** The skip rules read on lower-cased components are the skip rules on
      the original components, each lower-cased. */
  lemma SkipPartsLowerAll(segs: seq<string>)
    requires |segs| >= 1
    ensures SkipParts(LowerAll(segs)) <==>
              || (exists i :: 0 <= i < |segs| - 1 && Lower(segs[i]) in SKIP_DIRS)
              || Lower(Last(segs)) in SKIP_FILES
              || Extension(Lower(Last(segs))) in SKIP_EXTENSIONS
  {
    var parts := LowerAll(segs);
    assert Last(parts) == Lower(Last(segs));
  }

  /** Reading `ShouldSkip` on a path assembled from its components: each
      rule looks at the lower-cased components, and a skipped directory
      name in the final position does not count. */
  lemma ShouldSkipComponents(segs: seq<string>)
    requires |segs| >= 1
    requires forall i :: 0 <= i < |segs| ==> '/' !in segs[i]
    ensures ShouldSkip(Join(segs, "/")) <==>
              || (exists i :: 0 <= i < |segs| - 1 && Lower(segs[i]) in SKIP_DIRS)
              || Lower(Last(segs)) in SKIP_FILES
              || Extension(Lower(Last(segs))) in SKIP_EXTENSIONS
  {
    SplitLowerJoin(segs);
    assert ShouldSkip(Join(segs, "/")) <==> SkipParts(LowerAll(segs));
    SkipPartsLowerAll(segs);
  }

  /** A skipped directory at any position but the last excludes the path. */
  lemma SkipDirAt(segs: seq<string>, k: int)
    requires 0 <= k < |segs| - 1
    requires Lower(segs[k]) in SKIP_DIRS
    requires forall i :: 0 <= i < |segs| ==> '/' !in segs[i]
    ensures ShouldSkip(Join(segs, "/"))
  {
    ShouldSkipComponents(segs);
  }

  /** A skipped directory anywhere above the final component excludes the
      whole subtree below it. */
  lemma SkipDirExcludesSubtree(above: seq<string>, dir: string, below: seq<string>)
    requires |below| >= 1
    requires Lower(dir) in SKIP_DIRS && '/' !in dir
    requires NoneContain(above, '/') && NoneContain(below, '/')
    ensures ShouldSkip(Join(above + [dir] + below, "/"))
  {
    var segs := above + [dir] + below;
    NoneContainConcat(above, [dir], '/');
    NoneContainConcat(above + [dir], below, '/');
    assert segs[|above|] == dir;
    SkipDirAt(segs, |above|);
  }

  /** A skipped extension excludes the file whatever its directory. */
  lemma SkipExtensionAnywhere(dirs: seq<string>, name: string)
    requires Extension(Lower(name)) in SKIP_EXTENSIONS && '/' !in name
    requires NoneContain(dirs, '/')
    ensures ShouldSkip(Join(dirs + [name], "/"))
  {
    var segs := dirs + [name];
    NoneContainConcat(dirs, [name], '/');
    ShouldSkipComponents(segs);
    assert Last(segs) == name;
  }

  /** Lower-casing the path first changes nothing. */
  lemma ShouldSkipCaseInsensitive(path: string)
    ensures ShouldSkip(Lower(path)) == ShouldSkip(path)
  {
    LowerIsLower(path);
    LowerIsLower(Lower(path));
    assert Lower(Lower(path)) == Lower(path);
  }

  /** Three of the listed extensions contain two dots or a capital and can
      never be reported by `SplitExt` for a lower-cased name, so they never
      cause a skip. */
  lemma UnreachableSkipExtensions(name: string)
    ensures Extension(Lower(name)) != ".min.js"
    ensures Extension(Lower(name)) != ".min.css"
    ensures Extension(Lower(name)) != ".DS_Store"
  {
    NotAnExtension(Lower(name), ".min.js", 4);
    NotAnExtension(Lower(name), ".min.css", 4);
    ExtensionOfLower(name);
    assert !IsLower(".DS_Store") by {
      assert ".DS_Store"[1] == 'D';
    }
  }

  /** A text with a dot after its first character is no extension. */
  lemma NotAnExtension(name: string, e: string, k: int)
    requires 1 <= k < |e| && e[k] == '.'
    ensures Extension(name) != e
  {
    var x := Extension(name);
    if |x| > k {
      assert x[1..][k - 1] == x[k];
    }
  }

  /** The extension of a lower-cased name is itself lower-case. */
  lemma ExtensionOfLower(name: string)
    ensures IsLower(Extension(Lower(name)))
  {
    var low := Lower(name);
    var e := SplitExt(low);
    LowerIsLower(name);
    assert e.1 == low[|e.0|..];
  }

  /** The mixed-case entries of `SKIP_FILES` never equal a lower-cased name. */
  lemma UnreachableSkipFiles(name: string)
    ensures Lower(name) != "Pipfile.lock"
    ensures Lower(name) != "Cargo.lock"
    ensures Lower(name) != "Gemfile.lock"
  {
    var low := Lower(name);
    LowerIsLower(name);
    if |low| > 0 {
      assert !('A' <= low[0] <= 'Z');
    }
  }

  // ---------------------------------------------------------------------
  // _get_tier
  // ---------------------------------------------------------------------

  /** What the tier cascade looks at: the lower-cased final component, its
      `splitext` halves, and whether the path has a directory part. */
  datatype FileName = FileName(name: string, stem: string, ext: string, atRoot: bool)

  function Describe(path: string): FileName {
    var name := Lower(Basename(path));
    FileName(name, SplitExt(name).0, SplitExt(name).1, '/' !in path)
  }

  /** Rule `k` of the tier cascade holds for a file (`1 <= k <= 6`). */
  predicate TierRule(k: int, f: FileName) {
    match k
    case 1 => f.name in TIER_1_FILES
    case 2 => f.name in TIER_2_FILES
    case 3 => f.name in TIER_3_FILES
    case 4 => (f.stem in TIER_4_BASENAMES && f.ext in SOURCE_EXTENSIONS)
              || (f.name == "__init__.py" && f.atRoot)
    case 5 => f.ext in SOURCE_EXTENSIONS
    case 6 => f.name in TIER_6_FILES
    case _ => false
  }

  /** The cascade of `_get_tier` over a described file name. */
  function TierOf(f: FileName): (tier: int)
    ensures tier == EXCLUDED || 1 <= tier <= 6
  {
    if f.name in TIER_1_FILES then 1
    else if f.name in TIER_2_FILES then 2
    else if f.name in TIER_3_FILES then 3
    else if f.stem in TIER_4_BASENAMES && f.ext in SOURCE_EXTENSIONS then 4
    else if f.name == "__init__.py" && f.atRoot then 4
    else if f.ext in SOURCE_EXTENSIONS then 5
    else if f.name in TIER_6_FILES then 6
    else EXCLUDED
  }

  /** The first rule that holds gives the tier; when none does the file is
      `EXCLUDED`. */
  lemma TierOfFirstRule(f: FileName)
    ensures TierOf(f) != EXCLUDED ==> TierRule(TierOf(f), f)
    ensures forall k :: 1 <= k <= 6 && k < TierOf(f) ==> !TierRule(k, f)
  {
  }

  /** `_get_tier`. The size is accepted but never consulted. */
  function GetTier(path: string, size: int): (tier: int)
    ensures tier == EXCLUDED || 1 <= tier <= 6
  {
    TierOf(Describe(path))
  }

  /** `_get_tier` returns the number of the first rule of the cascade that
      holds for the path's file name, or `EXCLUDED` when none does. */
  lemma GetTierFirstRule(path: string, size: int)
    ensures GetTier(path, size) != EXCLUDED ==> TierRule(GetTier(path, size), Describe(path))
    ensures forall k :: 1 <= k <= 6 && k < GetTier(path, size) ==> !TierRule(k, Describe(path))
  {
    TierOfFirstRule(Describe(path));
  }

  /** The size argument never influences the tier. */
  lemma TierIgnoresSize(path: string, s1: int, s2: int)
    ensures GetTier(path, s1) == GetTier(path, s2)
  {
  }

  /** The tier only depends on the case-folded final component and on
      whether the path has a directory part. */
  lemma TierCaseInsensitive(path: string, size: int)
    ensures GetTier(Lower(path), size) == GetTier(path, size)
  {
    DescribeLower(path);
  }

  lemma DescribeLower(path: string)
    ensures Describe(Lower(path)) == Describe(path)
  {
    BasenameLower(path);
    LowerIsLower(Basename(path));
    LowerIsLower(Lower(Basename(path)));
    assert Lower(Basename(Lower(path))) == Lower(Basename(path));
    ContainsLower(path, '/');
  }

  lemma BasenameLower(path: string)
    ensures Basename(Lower(path)) == Lower(Basename(path))
  {
    var k := RFindChar(path, '/');
    RFindLower(path, '/');
    LowerSlice(path, k + 1, |path|);
    assert Lower(path)[k + 1..|path|] == Lower(path)[k + 1..];
    assert path[k + 1..|path|] == path[k + 1..];
  }

  /** Lower-casing keeps every character that is not a letter where it was. */
  lemma ContainsLower(s: string, c: char)
    requires !('A' <= c <= 'Z') && !('a' <= c <= 'z')
    ensures (c in Lower(s)) == (c in s)
  {
    LowerAt(s);
    if c in Lower(s) {
      var i :| 0 <= i < |s| && Lower(s)[i] == c;
      assert s[i] == c;
    }
  }

  lemma {:induction false} RFindLower(s: string, c: char)
    requires !('A' <= c <= 'Z') && !('a' <= c <= 'z')
    ensures RFindChar(Lower(s), c) == RFindChar(s, c)
    decreases |s|
  {
    if |s| > 0 {
      LowerSlice(s, 0, |s| - 1);
      LowerAt(s);
      RFindLower(s[..|s| - 1], c);
    }
  }

  /** Every file with a source extension is kept, at tier 5 at the latest. */
  lemma SourceFilesAreKept(path: string, size: int)
    requires Describe(path).ext in SOURCE_EXTENSIONS
    ensures 1 <= GetTier(path, size) <= 5
  {
    SourceTier(Describe(path));
  }

  lemma SourceTier(f: FileName)
    requires f.ext in SOURCE_EXTENSIONS
    ensures 1 <= TierOf(f) <= 5
  {
    assert TierRule(5, f);
  }
}
