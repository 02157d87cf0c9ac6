/** One entry of the recursive git tree listing the service receives from
    the hosting API: a path relative to the repository root, the entry's
    git object type and, for blobs, a byte size. */
module RepoTree {
  import opened Wrappers

  /** The `type` field: `"blob"` (a file), `"tree"` (a directory) or any
      other git object type (a submodule is a `"commit"`). */
  datatype EntryType = Blob | Tree | OtherType(name: string)

  /** `size` is `None` when the entry carries no `size` key. */
  datatype TreeEntry = TreeEntry(path: string, kind: EntryType, size: Option<int>) {

    /** `item.get("size", 0)`. */
    function SizeOrZero(): int {
      size.GetOr(0)
    }
  }
}
