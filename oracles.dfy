/** What closure.go asks of the outside world — directory listings, NAR
    hashes, file hashes and image manifests — as partial maps from a path
    to the answer. A path missing from a map is a call that fails. */
module Oracles {

  /** The failures closure.go can return. */
  datatype Error =
    | ReadDirFailed(path: string)       // os.ReadDir returned an error
    | NarHashFailed(path: string)       // nar.DumpPath returned an error
    | FileHashFailed(path: string)      // os.Open or io.Copy in fileSHA256 failed
    | ManifestFailed(path: string)      // os.ReadFile or json.Unmarshal failed
    | InvalidPath(path: string)         // "invalid path: %s"
    | NoResultBinary                    // "no result binary found"

  datatype Result<T> = Ok(value: T) | Err(error: Error)

  /** A snapshot of the filesystem as closure.go observes it. */
  datatype Store = Store(
    listings: map<string, seq<string>>,   // directory path -> entry names, in os.ReadDir order
    narHashes: map<string, string>,       // path -> nixbase32 NAR hash (GetNarHashFromPath)
    fileHashes: map<string, string>,      // file path -> hex SHA-256 of its bytes (fileSHA256)
    manifestDigests: map<string, string>) // manifest path -> its config.digest rendered as text

  /** os.ReadDir, keeping only the entry names. */
  function ReadDir(store: Store, path: string): Result<seq<string>> {
    if path in store.listings then Ok(store.listings[path]) else Err(ReadDirFailed(path))
  }

  /** GetNarHashFromPath. */
  function NarHash(store: Store, path: string): Result<string> {
    if path in store.narHashes then Ok(store.narHashes[path]) else Err(NarHashFailed(path))
  }

  /** fileSHA256. */
  function FileSHA256(store: Store, path: string): Result<string> {
    if path in store.fileHashes then Ok(store.fileHashes[path]) else Err(FileHashFailed(path))
  }

  /** os.ReadFile, json.Unmarshal into an image manifest, then Config.Digest.String(). */
  function ManifestConfigDigest(store: Store, path: string): Result<string> {
    if path in store.manifestDigests then Ok(store.manifestDigests[path]) else Err(ManifestFailed(path))
  }

  /** Go's string order: lexicographic on characters. */
  predicate Less(a: string, b: string)
    decreases |a|
  {
    if a == [] then b != []
    else b != [] && (a[0] < b[0] || (a[0] == b[0] && Less(a[1..], b[1..])))
  }

  /** os.ReadDir returns the entries of one directory sorted by name; names
      within a directory are distinct, so the order is strict. */
  predicate SortedNames(names: seq<string>) {
    forall i, j :: 0 <= i < j < |names| ==> Less(names[i], names[j])
  }
}
