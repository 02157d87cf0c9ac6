/**
 * `select_files`: the blob entries that survive the skip rules and get a
 * tier, ordered by `(tier, path)` with Python's stable sort.
 */
module Selection {
  import opened Text
  import opened Classifier
  import opened RepoTree
  import opened Sequences

  /** One selected file: its path, its size (default 0) and its tier. */
  datatype Candidate = Candidate(path: string, size: int, tier: int)

  /** The per-entry test of `select_files`: a blob that is not skipped and
      whose tier is not the exclusion sentinel. */
  predicate Eligible(e: TreeEntry) {
    e.kind == Blob && !ShouldSkip(e.path) && GetTier(e.path, e.SizeOrZero()) != EXCLUDED
  }

  function ToCandidate(e: TreeEntry): Candidate {
    Candidate(e.path, e.SizeOrZero(), GetTier(e.path, e.SizeOrZero()))
  }

  /** The candidate list before sorting, in tree order. */
  function Survivors(tree: seq<TreeEntry>): (r: seq<Candidate>)
    ensures |r| <= |tree|
  {
    FilterMap(tree, Eligible, ToCandidate)
  }

  /** Every survivor is the candidate of an eligible entry, every eligible
      entry contributes its candidate, and every survivor has a real tier. */
  lemma SurvivorsMembers(tree: seq<TreeEntry>, c: Candidate)
    ensures c in Survivors(tree) <==> exists e :: e in tree && Eligible(e) && c == ToCandidate(e)
    ensures c in Survivors(tree) ==> 1 <= c.tier <= 6
  {
    FilterMapMembers(tree, Eligible, ToCandidate, c);
  }

  /** Filtering goes entry by entry: no entry is merged with another, so
      duplicate paths stay duplicated. */
  lemma SurvivorsAppend(a: seq<TreeEntry>, b: seq<TreeEntry>)
    ensures Survivors(a + b) == Survivors(a) + Survivors(b)
  {
    FilterMapAppend(a, b, Eligible, ToCandidate);
  }

  // ---------------------------------------------------------------------
  // Python's ordering on (tier, path)
  // ---------------------------------------------------------------------

  /** Python's `<=` on `str`: code-point lexicographic order, a proper
      prefix first. */
  predicate PathLe(a: string, b: string)
    decreases |a|
  {
    |a| == 0 || (|b| > 0 && (a[0] < b[0] || (a[0] == b[0] && PathLe(a[1..], b[1..]))))
  }

  lemma {:induction false} PathLeTotal(a: string, b: string)
    ensures PathLe(a, b) || PathLe(b, a)
    decreases |a|
  {
    if |a| > 0 && |b| > 0 && a[0] == b[0] {
      PathLeTotal(a[1..], b[1..]);
    }
  }

  lemma {:induction false} PathLeAntisymmetric(a: string, b: string)
    requires PathLe(a, b) && PathLe(b, a)
    ensures a == b
    decreases |a|
  {
    if |a| > 0 {
      PathLeAntisymmetric(a[1..], b[1..]);
      assert a == [a[0]] + a[1..];
      assert b == [b[0]] + b[1..];
    }
  }

  lemma {:induction false} PathLeTransitive(a: string, b: string, c: string)
    requires PathLe(a, b) && PathLe(b, c)
    ensures PathLe(a, c)
    decreases |a|
  {
    if |a| > 0 && a[0] == b[0] && b[0] == c[0] {
      PathLeTransitive(a[1..], b[1..], c[1..]);
    }
  }

  lemma {:induction false} PathLeReflexive(a: string)
    ensures PathLe(a, a)
    decreases |a|
  {
    if |a| > 0 {
      PathLeReflexive(a[1..]);
    }
  }

  /** The sort key `(f["tier"], f["path"])` compared as a Python tuple. */
  predicate KeyLe(x: Candidate, y: Candidate) {
    x.tier < y.tier || (x.tier == y.tier && PathLe(x.path, y.path))
  }

  predicate SameKey(x: Candidate, y: Candidate) {
    x.tier == y.tier && x.path == y.path
  }

  lemma KeyLeTotal(x: Candidate, y: Candidate)
    ensures KeyLe(x, y) || KeyLe(y, x)
  {
    PathLeTotal(x.path, y.path);
  }

  lemma KeyLeTransitive(x: Candidate, y: Candidate, z: Candidate)
    requires KeyLe(x, y) && KeyLe(y, z)
    ensures KeyLe(x, z)
  {
    if x.tier == y.tier == z.tier {
      PathLeTransitive(x.path, y.path, z.path);
    }
  }

  /** Two keys each at most the other are the same key. */
  lemma KeyLeAntisymmetric(x: Candidate, y: Candidate)
    requires KeyLe(x, y) && KeyLe(y, x)
    ensures SameKey(x, y)
  {
    if x.tier == y.tier {
      PathLeAntisymmetric(x.path, y.path);
    }
  }

  lemma KeyLeSameKey(x: Candidate, y: Candidate)
    requires SameKey(x, y)
    ensures KeyLe(x, y)
  {
    PathLeReflexive(x.path);
  }

  predicate Sorted(s: seq<Candidate>) {
    forall i, j :: 0 <= i < j < |s| ==> KeyLe(s[i], s[j])
  }

  /** The elements of `s` whose key equals `key`'s, in their order in `s`. */
  function WithKey(s: seq<Candidate>, key: Candidate): (r: seq<Candidate>)
    ensures |r| <= |s|
  {
    if |s| == 0 then []
    else if SameKey(s[0], key) then [s[0]] + WithKey(s[1..], key)
    else WithKey(s[1..], key)
  }

  // ---------------------------------------------------------------------
  // Stable insertion sort
  // ---------------------------------------------------------------------

  /** Inserts `x` before the first element whose key is not smaller, so an
      element inserted later (one earlier in the input) precedes its equals. */
  function Insert(x: Candidate, s: seq<Candidate>): (r: seq<Candidate>)
    requires Sorted(s)
    ensures Sorted(r)
    ensures multiset(r) == multiset(s) + multiset{x}
  {
    if |s| == 0 then [x]
    else if KeyLe(x, s[0]) then
      InsertFront(x, s);
      [x] + s
    else
      var rest := Insert(x, s[1..]);
      KeyLeTotal(x, s[0]);
      InsertBehind(x, s, rest);
      assert s == [s[0]] + s[1..];
      [s[0]] + rest
  }

  lemma InsertFront(x: Candidate, s: seq<Candidate>)
    requires Sorted(s) && |s| > 0 && KeyLe(x, s[0])
    ensures Sorted([x] + s)
  {
    forall j | 2 <= j < |s| + 1
      ensures KeyLe(([x] + s)[0], ([x] + s)[j])
    {
      KeyLeTransitive(x, s[0], s[j - 1]);
    }
  }

  lemma InsertBehind(x: Candidate, s: seq<Candidate>, rest: seq<Candidate>)
    requires Sorted(s) && |s| > 0 && KeyLe(s[0], x)
    requires Sorted(rest) && multiset(rest) == multiset(s[1..]) + multiset{x}
    ensures Sorted([s[0]] + rest)
  {
    forall j | 0 <= j < |rest|
      ensures KeyLe(s[0], rest[j])
    {
      assert rest[j] in multiset(rest);
      if rest[j] != x {
        assert rest[j] in multiset(s[1..]);
        var k :| 0 <= k < |s[1..]| && s[1..][k] == rest[j];
        assert s[k + 1] == rest[j];
      }
    }
  }

  /** Insertion keeps the elements of every other key where they were and
      puts `x` in front of its equals. */
  lemma {:induction false} InsertWithKey(x: Candidate, s: seq<Candidate>, key: Candidate)
    requires Sorted(s)
    ensures WithKey(Insert(x, s), key) ==
              (if SameKey(x, key) then [x] + WithKey(s, key) else WithKey(s, key))
  {
    if |s| > 0 && !KeyLe(x, s[0]) {
      InsertWithKey(x, s[1..], key);
      if SameKey(x, key) {
        if SameKey(s[0], key) {
          KeyLeSameKey(x, s[0]);
        }
      }
    }
  }

  /** Sorting by repeated insertion from the back. */
  function Sort(s: seq<Candidate>): (r: seq<Candidate>)
    ensures Sorted(r)
    ensures multiset(r) == multiset(s)
  {
    if |s| == 0 then []
    else
      assert s == [s[0]] + s[1..];
      Insert(s[0], Sort(s[1..]))
  }

  /** The sort is stable: the candidates sharing one key keep their input order. */
  lemma {:induction false} SortStable(s: seq<Candidate>, key: Candidate)
    ensures WithKey(Sort(s), key) == WithKey(s, key)
  {
    if |s| > 0 {
      SortStable(s[1..], key);
      InsertWithKey(s[0], Sort(s[1..]), key);
    }
  }

  // ---------------------------------------------------------------------
  // select_files
  // ---------------------------------------------------------------------

  /** `select_files`: the surviving candidates, sorted by `(tier, path)`. */
  function SelectFiles(tree: seq<TreeEntry>): (r: seq<Candidate>)
    ensures Sorted(r)
    ensures multiset(r) == multiset(Survivors(tree))
    ensures |r| <= |tree|
  {
    var r := Sort(Survivors(tree));
    assert |r| == |multiset(r)|;
    r
  }

  /** A candidate is selected exactly when it comes from an eligible entry. */
  lemma SelectFilesMembers(tree: seq<TreeEntry>, c: Candidate)
    ensures c in SelectFiles(tree) <==> exists e :: e in tree && Eligible(e) && c == ToCandidate(e)
  {
    assert c in SelectFiles(tree) <==> c in multiset(SelectFiles(tree));
    assert c in Survivors(tree) <==> c in multiset(Survivors(tree));
    SurvivorsMembers(tree, c);
  }

  /** Entries sharing a path (and hence a tier) stay in tree order. */
  lemma SelectFilesStable(tree: seq<TreeEntry>, key: Candidate)
    ensures WithKey(SelectFiles(tree), key) == WithKey(Survivors(tree), key)
  {
    SortStable(Survivors(tree), key);
  }

  /** An empty tree selects nothing. */
  lemma SelectFilesEmpty()
    ensures SelectFiles([]) == []
  {
  }
}
