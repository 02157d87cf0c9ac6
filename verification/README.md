# GitHub repository summarizer: content filter, context builder, reply recovery and URL parsing

The service takes a public GitHub repository URL and returns a short summary.
It picks the repository files worth reading and packs them into a single text
context for a language model. Then it recovers a JSON summary from the model's
free-form reply. This project models the pure core of that pipeline in Dafny
and proves properties of the model:

- `Classifier` (classifier.dfy) holds the skip and tier tables, `os.path.splitext`,
  `_should_skip` and `_get_tier`.
- `Selection` (selection.dfy) holds `select_files`. It keeps the eligible blobs and
  sorts them stably by (tier, path).
- `TreeView` (tree_view.dfy) holds `_format_size` and `format_tree`, the
  directory listing capped at 500 lines.
- `Context` (context.dfy) holds `truncate_file_content`, `_build_metadata_section`
  and `build_context`, the budgeted concatenation of metadata, the listing and
  the file bodies.
- `ResponseRecovery` (response_recovery.dfy) holds `LLMError`, `_extract_json` and
  `_validate_response`.
- `GithubUrl` (github_url.dfy) holds `GitHubFetchError`, `parse_github_url`
  (together with the part of CPython 3.12's `urllib.parse.urlparse` that it
  relies on) and the request validator `SummarizeRequest.validate_github_url`.
- `Text`, `Sequences`, `Wrappers` and `RepoTree` model the Python string
  operations the code uses (`strip`, `split`, `join`, `lower`, `str(int)`,
  `find`/`rfind`), generic sequence helpers, `Option`/`Result`, and one entry of
  the git tree listing.

Python exceptions are modelled as the error side of a `Result`.
A dictionary key that may be missing is an `Option`.

## Model

| member | source | states |
|---|---|---|
| Classifier.SplitExt | app/content_filter.py:207-208 | `os.path.splitext` splits a name into root + extension, where the extension is empty or is a single dot-led suffix with no further dot and no slash |
| Classifier.SplitExtHasExtension | app/content_filter.py:207-208 | the extension is non-empty exactly when the base name has a dot preceded by some non-dot character, so leading-dot names like `.env` have no extension |
| Classifier.ExtensionShape | app/content_filter.py:207-208 | when the last dot comes after the last slash, the dot starts a suffix free of dots and slashes |
| Classifier.BasenameIsLastPiece | app/content_filter.py:226 | `os.path.basename` is the last `/`-separated piece of the path |
| Classifier.ShouldSkipComponents | app/content_filter.py:198-218 | a path of components is skipped iff some directory component (not the last) lower-cases into SKIP_DIRS, or the lower-cased file name is in SKIP_FILES, or its extension is in SKIP_EXTENSIONS |
| Classifier.SkipPartsLowerAll | app/content_filter.py:200-216 | the three skip rules, stated over components lower-cased one by one |
| Classifier.SkipDirAt | app/content_filter.py:203-205 | any skipped directory name at a non-final position skips the path |
| Classifier.SkipDirExcludesSubtree | app/content_filter.py:203-205 | everything below a skipped directory is skipped, whatever lies above it |
| Classifier.SkipExtensionAnywhere | app/content_filter.py:214-215 | a file with a skipped extension is skipped in any directory |
| Classifier.ShouldSkipCaseInsensitive | app/content_filter.py:200 | the skip decision ignores letter case |
| Classifier.UnreachableSkipExtensions | app/content_filter.py:72-74 | the table entries `.min.js`, `.min.css` and `.DS_Store` are never the extension of a lower-cased name, so they never cause a skip |
| Classifier.UnreachableSkipFiles | app/content_filter.py:78-93 | the capitalised entries `Pipfile.lock`, `Cargo.lock` and `Gemfile.lock` never equal a lower-cased file name |
| Classifier.ExtensionOfLower | app/content_filter.py:207-208 | the extension of a lower-cased name is itself lower-case |
| Classifier.TierOf | app/content_filter.py:221-253 | the tier is 99 (excluded) or lies in 1..6 |
| Classifier.TierOfFirstRule | app/content_filter.py:229-253 | a tier other than 99 is a rule that holds for the file, and no rule with a smaller number holds: the first matching rule wins |
| Classifier.GetTier | app/content_filter.py:221-253 | `_get_tier` returns 99 or a tier in 1..6 |
| Classifier.GetTierFirstRule | app/content_filter.py:221-253 | the first-match cascade holds for any path: the returned tier's rule holds and no earlier rule does |
| Classifier.TierIgnoresSize | app/content_filter.py:221 | the size argument has no influence on the tier |
| Classifier.TierCaseInsensitive | app/content_filter.py:226 | the tier ignores letter case in the path |
| Classifier.DescribeLower | app/content_filter.py:226-227 | the name, root, extension and root-level flag the tier rules read are the same for a path and its lower-cased form |
| Classifier.BasenameLower | app/content_filter.py:226 | lower-casing commutes with taking the base name |
| Classifier.SourceFilesAreKept | app/content_filter.py:236-246 | a file whose extension is a source extension always gets a tier in 1..5, never 6 or 99 |
| Selection.Survivors | app/content_filter.py:265-283 | the unsorted candidate list is no longer than the tree |
| Selection.SurvivorsMembers | app/content_filter.py:265-283 | a candidate survives iff it comes from a blob entry that is not skipped and whose tier is not 99, and every survivor's tier lies in 1..6 |
| Selection.SurvivorsAppend | app/content_filter.py:265-283 | filtering distributes over concatenation of tree listings |
| Selection.PathLeTotal | app/content_filter.py:286 | lexicographic path order is total |
| Selection.PathLeAntisymmetric | app/content_filter.py:286 | lexicographic path order is antisymmetric |
| Selection.PathLeTransitive | app/content_filter.py:286 | lexicographic path order is transitive |
| Selection.KeyLeTotal | app/content_filter.py:286 | the (tier, path) key order is total |
| Selection.KeyLeTransitive | app/content_filter.py:286 | the (tier, path) key order is transitive |
| Selection.Insert | app/content_filter.py:286 | inserting into a sorted list keeps it sorted and adds exactly one element |
| Selection.Sort | app/content_filter.py:286 | the sort returns a permutation of its input that is ordered by (tier, path) |
| Selection.SortStable | app/content_filter.py:286 | candidates with equal keys keep their input order, as Python's `list.sort` guarantees |
| Selection.SelectFiles | app/content_filter.py:256-287 | the result is sorted by (tier, path), is a permutation of the surviving candidates, and is no longer than the tree |
| Selection.SelectFilesMembers | app/content_filter.py:256-287 | a candidate is selected iff it comes from an eligible tree entry |
| Selection.SelectFilesStable | app/content_filter.py:286 | among selected entries with equal keys the tree order is kept |
| Selection.SelectFilesEmpty | app/content_filter.py:256-287 | an empty tree selects nothing |
| TreeView.Tenths | app/content_filter.py:342-344 | the tenths count is the nearest multiple of 0.1, with ties to even, as `.1f` formatting rounds |
| TreeView.TenthsUnique | app/content_filter.py:342-344 | the nearest tenth with ties to even is unique |
| TreeView.RoundingCases | app/content_filter.py:342-344 | the remainder of the division decides between rounding down and rounding up |
| TreeView.OneDecimal | app/content_filter.py:342-344 | the one-decimal rendering of a tenths count reads back as that count |
| TreeView.FormatSize | app/content_filter.py:337-344 | below 1024 the text is the byte count and " B"; below 1 MiB it is the KiB value rounded to one decimal and " KB"; otherwise the MiB value rounded to one decimal and " MB" |
| TreeView.HiddenInTreeIsShouldSkip | app/content_filter.py:304-313 | the listing's own skip test is exactly `_should_skip` |
| TreeView.TopLevelShown | app/content_filter.py:309-313 | a root-level entry is hidden iff its lower-cased name or extension is in the skip tables |
| TreeView.BelowSkippedDirHidden | app/content_filter.py:304-307 | an entry below a skipped directory is hidden |
| TreeView.RenderLine | app/content_filter.py:315-328 | a listing line is two spaces per slash in the path, then the base name, then the suffix |
| TreeView.Suffix | app/content_filter.py:320-328 | the suffix is "/" for a directory, "  (size)" for a positive size, and nothing otherwise |
| TreeView.Cap | app/content_filter.py:330-332 | the capped list has at most 501 lines; below the cap it is the input, at the cap it is the first 500 lines and then the notice |
| TreeView.WalkIsCap | app/content_filter.py:299-332 | the loop with its early break equals filtering and rendering all entries and then capping |
| TreeView.FormatTree | app/content_filter.py:293-334 | an empty tree gives the empty listing |
| TreeView.FormatTreeLines | app/content_filter.py:299-334 | the lines are the capped visible lines; there are at most 501, and line 501 is the notice that counts all entries |
| TreeView.FormatTreeLineCount | app/content_filter.py:330-334 | with newline-free paths, splitting the listing at newlines gives back its lines, and there are at most 501 of them |
| TreeView.SplitJoinedLines | app/content_filter.py:334 | joining newline-free lines with "\n" and splitting again gives back the lines |
| Context.SliceStop | app/content_filter.py:355 | the stop index of `lines[:max_lines]` follows Python slicing, including negative limits |
| Context.TruncateFileContent | app/content_filter.py:350-357 | content with at most `max_lines` lines is returned unchanged; otherwise its lines are the kept prefix, a blank line and the notice that counts all lines |
| Context.TruncateKeepsPrefix | app/content_filter.py:350-357 | truncated content starts with the kept lines of the original, followed by "\n\n" and the notice |
| Context.TruncatedLines | app/content_filter.py:355-356 | the kept lines, a blank line and the notice are exactly what splitting the truncated text yields |
| Context.OptionalLine | app/content_filter.py:439-445 | an optional line is present iff the value is truthy, and then it reads caption + value |
| Context.TopicsLine | app/content_filter.py:447-449 | the topics line is present iff the list is non-empty, and then it reads "Topics: " and the topics joined by ", " |
| Context.MetadataLines | app/content_filter.py:432-454 | the header, then name and owner defaulting to "Unknown", the optional lines, stars defaulting to 0, and a final empty line: 5 to 8 lines |
| Context.MetadataDescription | app/content_filter.py:439-441 | a description line is present iff the description is truthy, and it is the fourth line |
| Context.MetadataLanguage | app/content_filter.py:443-445 | a language line is present iff the language is truthy, and it comes right after the optional description line |
| Context.MetadataTopics | app/content_filter.py:447-449 | a topics line is present iff topics are given, and it sits just before the stars line |
| Context.MetadataLayout | app/content_filter.py:434-453 | the optional description, language and topics lines appear in that order between the owner line and the stars line |
| Context.MetadataSection | app/content_filter.py:453-454 | the metadata section ends with a newline |
| Context.OverflowTail | app/content_filter.py:407-424 | on overflow a tier 1-3 file with more than 500 characters of room gets a cut block holding the first `MAX_CONTEXT_CHARS - total - 200` characters of its body, or the whole body when it is shorter; the omission line always follows |
| Context.FilePartsLongestPrefix | app/content_filter.py:395-427 | the file blocks are whole blocks for a prefix of the files that have content, then at most the overflow tail |
| Context.WholeBlocksWithinBudget | app/content_filter.py:395-427 | the whole blocks emitted keep the running total within MAX_CONTEXT_CHARS, and no whole block follows a non-whole part |
| Context.OmissionIsLast | app/content_filter.py:417-424 | an omission line can only be the last part, and a cut block only comes right before it |
| Context.OthersWithBodyCount | app/content_filter.py:417-420 | the omission count is the number of selected files with content whose path differs from the overflowing file |
| Context.Sections | app/content_filter.py:376-393 | the sections start with the metadata section, the listing under its header, and the file-contents header |
| Context.BuildContext | app/content_filter.py:360-429 | the context starts with metadata, a blank line, the listing section, a blank line and the file-contents header |
| Context.BuildContextLength | app/content_filter.py:429 | the context's length is the sum of the section lengths plus one separator per gap |
| Context.BuildContextBound | app/content_filter.py:374 | the context is no longer than the larger of the fixed head and MAX_CONTEXT_CHARS, plus the longest selected path, the omission line and one separator per selected file |
| Context.CutLength | app/content_filter.py:413 | a cut block's framing adds 37 characters to the path and body |
| ResponseRecovery.NewLlmError | app/llm_client.py:61-67 | an `LLMError` carries its message and status 502 by default |
| ResponseRecovery.FenceInner | app/llm_client.py:97-100 | a fence match yields text with no surrounding whitespace |
| ResponseRecovery.FenceInnerMatches | app/llm_client.py:97-100 | the pattern matches iff a fence occurs after the first fence and its optional `json` tag; the match is then the stripped text up to the first such closing fence |
| ResponseRecovery.Payload | app/llm_client.py:96-100 | the text handed to the parser has no surrounding whitespace |
| ResponseRecovery.BraceSpan | app/llm_client.py:109-111 | the brace span runs from the first `{` to the last `}`, and it exists iff both occur in that order |
| ResponseRecovery.ExtractJson | app/llm_client.py:86-121 | a direct parse wins, the brace span is the fallback, and otherwise the result is the parse-failure `LLMError` with status 502 |
| ResponseRecovery.PlainReply | app/llm_client.py:96-104 | a bare JSON text with surrounding whitespace is recovered as what the parser returns for it |
| ResponseRecovery.FencedReply | app/llm_client.py:97-104 | a reply that is exactly a json code block is recovered as what the parser returns for its stripped body |
| ResponseRecovery.FirstBlock | app/llm_client.py:97-100 | in backtick-free prose before a code block tagged `json` or untagged, with anything after it, the pattern yields the block's stripped body |
| ResponseRecovery.FenceInProse | app/llm_client.py:96-104 | a code block with prose before and after it is recovered as what the parser returns for its stripped body |
| ResponseRecovery.ObjectInProse | app/llm_client.py:108-113 | an object embedded in prose without other braces is recovered through the brace span |
| ResponseRecovery.SpanOfObject | app/llm_client.py:109-111 | the brace span of prose around one object is that object |
| ResponseRecovery.ValidateResponse | app/llm_client.py:124-148 | a non-dictionary is refused; the fields are checked in the order summary, technologies, structure, with the matching error; success iff all three are valid; the result holds the stripped texts and the string forms of the truthy technologies |
| ResponseRecovery.TechnologyEntry | app/llm_client.py:141 | wherever it stands, a falsy entry contributes nothing and a truthy entry contributes its `str()` in its place |
| ResponseRecovery.FalsyTechnologiesDropped | app/llm_client.py:141 | an example: from Python, "", null, FastAPI the list keeps Python and FastAPI |
| ResponseRecovery.TechnologiesNonEmpty | app/llm_client.py:141 | no kept technology renders as the empty string |
| ResponseRecovery.ValidateIdempotent | app/llm_client.py:124-148 | validating a validated summary again gives the same summary |
| ResponseRecovery.RevalidateSummary | app/llm_client.py:124-148 | a summary with stripped non-empty texts and non-empty technologies validates to itself |
| GithubUrl.LStripC0 | app/github_fetcher.py:51 | urlsplit drops leading C0 control and space characters and nothing else |
| GithubUrl.RemoveUnsafe | app/github_fetcher.py:51 | urlsplit removes tab, CR and LF, and leaves a text free of them unchanged |
| GithubUrl.SplitScheme | app/github_fetcher.py:51 | a scheme is split off only when a letter-led run of scheme characters precedes the first colon, and it is lower-cased |
| GithubUrl.SplitNetloc | app/github_fetcher.py:51 | after "//" the network location runs up to the first `/`, `?` or `#` |
| GithubUrl.GapsFrom | app/github_fetcher.py:51 | the collected gaps are indices of inner empty groups of an IPv6 address |
| GithubUrl.BracketedHostError | app/github_fetcher.py:51 | a bracketed host is accepted iff it is a valid IPvFuture literal (with a `v` prefix) or a valid IPv6 address |
| GithubUrl.Ipv4IsNotIpv6 | app/github_fetcher.py:51 | no dotted IPv4 address is an IPv6 address |
| GithubUrl.Ipv4Refused | app/github_fetcher.py:51 | a bracketed IPv4 address is refused with the "cannot be in brackets" message |
| GithubUrl.FewColonsRefused | app/github_fetcher.py:51 | a bracketed host without a `v` prefix and with fewer than two colons is refused |
| GithubUrl.FullFormAccepted | app/github_fetcher.py:51 | eight hextets joined by colons form an accepted bracketed host |
| GithubUrl.NetlocError | app/github_fetcher.py:51 | a netloc without brackets raises nothing, and one with unbalanced brackets raises "Invalid IPv6 URL" |
| GithubUrl.BracketedNetlocError | app/github_fetcher.py:51 | with balanced brackets the host between them, after userinfo and before a port, is checked as an IP literal |
| GithubUrl.Hostname | app/github_fetcher.py:52 | a host name, when present, is non-empty |
| GithubUrl.HostnameOfPlainHost | app/github_fetcher.py:52 | the host name of a plain host is its lower-cased form |
| GithubUrl.Prepare | app/github_fetcher.py:45-49 | the prepared URL is a prefix of the stripped input |
| GithubUrl.DropGit | app/github_fetcher.py:48-49 | a trailing ".git" is removed once and nothing else changes |
| GithubUrl.Segments | app/github_fetcher.py:58 | the path pieces are non-empty and slash-free |
| GithubUrl.CheckHost | app/github_fetcher.py:52-56 | a host other than github.com or www.github.com is refused with status 400; otherwise the path decides |
| GithubUrl.CheckNames | app/github_fetcher.py:58-76 | fewer than two pieces give the owner/repo error; otherwise success iff both names match `[\w.-]+`, and the result is the first two pieces |
| GithubUrl.ParseGithubUrl | app/github_fetcher.py:33-76 | every refusal of its own has status 400, and a returned owner and repository are valid names |
| GithubUrl.ParsePreparedHostUrl | app/github_fetcher.py:51-56 | for a plain host and path the parse reduces to the host check on the lower-cased host |
| GithubUrl.ParsesRepoUrl | app/github_fetcher.py:33-76 | `scheme://github.com/owner/repo` parses to (owner, repo) |
| GithubUrl.ParsesRepoPath | app/github_fetcher.py:58-76 | extra path pieces after owner/repo are ignored |
| GithubUrl.DropsGitSuffix | app/github_fetcher.py:48-49 | a ".git" repository suffix is dropped |
| GithubUrl.PaddingIgnored | app/github_fetcher.py:45 | surrounding whitespace and trailing slashes do not change the result |
| GithubUrl.RejectsOtherHost | app/github_fetcher.py:52-56 | another host is refused with the github.com message |
| GithubUrl.RejectsOwnerOnly | app/github_fetcher.py:59-64 | a URL with only an owner is refused with the owner/repo message |
| GithubUrl.RejectsBadNames | app/github_fetcher.py:68-74 | a name outside `[\w.-]+` is refused with the invalid-name message |
| GithubUrl.RejectsEmpty | app/github_fetcher.py:52-56 | the empty string is refused as not a github.com URL |
| GithubUrl.GitOnlyRepo | app/github_fetcher.py:48-64 | a repository named exactly ".git" loses its only name and is refused |
| GithubUrl.ValidateGithubUrl | app/models.py:25-35 | a refusal carries the fixed message; an accepted value is a non-empty prefix of the stripped input with no trailing slash |
| GithubUrl.AcceptsRepoUrls | app/models.py:30-35 | every http(s) github.com owner/repo URL, with an optional trailing slash and surrounding whitespace, is accepted as the bare URL |
| GithubUrl.AcceptsOnlyRepoUrls | app/models.py:30-35 | every accepted input is such a URL, and the value is that URL without the slash |
| GithubUrl.ValidatedValue | app/models.py:30-35 | an accepted input matches the pattern once stripped, and the value is the stripped input with trailing slashes removed |
| GithubUrl.RejectsTwoSlashes | app/models.py:30-31 | two trailing slashes are refused |
| GithubUrl.ValidatedUrlParses | app/models.py:25-35 | every validated URL parses to its owner and the repository without ".git", except the repository ".git" itself, which validates but does not parse |
| Text.Strip | app/github_fetcher.py:45 | `str.strip` removes exactly the leading and trailing whitespace |
| Text.StripExact | app/llm_client.py:96 | stripping whitespace around a stripped text gives that text back |
| Text.StripIdempotent | app/llm_client.py:100 | stripping twice is stripping once |
| Text.RStripChar | app/github_fetcher.py:45 | `rstrip("/")` removes exactly the trailing slashes |
| Text.Split | app/content_filter.py:352 | `str.split` gives separator-free pieces that join back to the input |
| Text.JoinSplit | app/content_filter.py:334 | splitting a join of separator-free pieces gives the pieces back |
| Text.SplitLower | app/content_filter.py:200 | lower-casing commutes with splitting at a non-letter |
| Text.RFindChar | app/llm_client.py:110 | `rfind` gives -1 iff the character is absent, and otherwise its last index |
| Text.FindChar | app/llm_client.py:109 | `find` gives -1 iff the character is absent, and otherwise its first index |
| Text.NatToStringValue | app/content_filter.py:452 | the decimal text of a natural number reads back as that number |
| Text.IntToString | app/content_filter.py:340 | the text is canonical decimal digits reading back as the magnitude, preceded by '-' exactly when the number is negative |
| Sequences.FilterMapMembers | app/llm_client.py:141 | an element is in the comprehension iff it is the image of a kept input element |

## Left out

- Network and file-system I/O are not modelled: the GitHub and model HTTP calls, the file fetching, the retries and the FastAPI endpoint. The core receives their results as arguments.
- `json.loads` is not modelled. It is the `parse` parameter of `ExtractJson`, which returns `None` on a decode error. Exceptions other than `JSONDecodeError` (a `RecursionError` on deep nesting, say) are not modelled.
- `repr` of list and dictionary technology entries is the `reprOf` parameter of `ValidateResponse`.
- Text.Lower: handles ASCII letters only, where Python's `str.lower` covers all of Unicode.
- GithubUrl.CheckNames: `\w` is restricted to ASCII letters, digits and `_`. Python's `\w` matches any Unicode word character, so `https://github.com/ünï/x` is accepted by the validator but refused by the model.
- Context.MetadataSection: metadata values are typed (`Option<string>`, a string list, `Option<int>`). The f-string of a `None` or non-string value (`Stars: None`, a topics entry that is not a string) is not modelled.
- TreeView.FormatSize: the `.1f` rounding is exact. Python divides in binary floating point first, which can round differently for sizes beyond 2^53 bytes.
- The git object type: `OtherType("blob")` and `OtherType("tree")` are distinct values in the model, but they stand for the same `type` strings as `Blob` and `Tree`.
- The size of a tree entry is an optional integer. A present `size` of `None` (JSON null) would make the source's comparison `size > 0` raise, and that is not modelled.
- GithubUrl.BracketedHostError: the `ValueError` of `ipaddress` carries the `repr` of the host before "does not appear to be an IPv4 or IPv6 address". The model keeps only the fixed text.
- GithubUrl.ParseGithubUrl: urlsplit's NFKC check of non-ASCII netlocs is not modelled. A netloc such as `℀@github.com`, whose user part normalises to text containing `/`, raises `ValueError` in Python but parses in the model.
- GithubUrl.ParseGithubUrl: a `ValueError` from `urlparse` escapes `parse_github_url` uncaught, so the result is the separate error `InvalidUrl` and not a status-400 `GitHubFetchError`.
- Selection.SelectFiles: as in the code, duplicate paths in the tree are not removed.
- Context.BuildContext: as in the code, reaching the budget always ends the file loop, not only for low-tier files as the comment says. The omission count covers every other selected file with content, including files already emitted.
- Context.BuildContextBound: the budget test ignores the "\n" separators, the cut block's 37-character framing plus its path, and the omission line. So the context can exceed MAX_CONTEXT_CHARS by those amounts, and the bound states the excess rather than the docstring's promise.
- TreeView.FormatTree: as in the code, the notice is appended as soon as the 500th line is collected, even when no later entry would have been shown.
- GithubUrl.ValidatedUrlParses: the validator accepts the repository name ".git", but the parser then loses it and refuses the URL.
- TreeView.FormatTreeLineCount: it requires paths without '\n'. Git allows a newline in a path, and such an entry adds lines to the listing.
