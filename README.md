# Store-path logic of bsf's runtime-closure builder, in Dafny

This project models the deterministic core of `pkg/nix/cmd/closure.go`:
the part that turns Nix store paths and build results into identity and
hash metadata for an SBOM.

- **CleanNameFromGraph.** A DOT node name is cleaned by removing its leading
  and trailing runs of `"`. Each `\"` in what is left becomes `"`.
- **parseAppDetails.** A store path is first listed; a listing failure is
  reported before anything else. The listing is classified by the first
  entry named `bin` (EXECUTABLE) or `manifest.json` (CONTAINER). Then the
  path loses an optional `/nix/store/` prefix and is split on `-`. Fewer
  than three pieces is an `invalid path` error. The first piece is the
  result digest, the last piece is the version, and the name is never set.
- **artifactHash / findResultBinary.** The result directory is scanned with
  the same first-match rule. For `bin`, the result is the file hash of the
  first entry of `bin/`; an empty `bin/` is `no result binary found`. For
  `manifest.json`, the result is the manifest's config digest without a
  leading `sha256:`. With neither, the result is `""` and no error.
- **addNarHashToGraph.** Every node of the closure graph gets `hash`, then
  `name` and `version`, each only if the step before it succeeded. Only the
  node's own attribute map is written, and the batch never fails.

Files:

- `go_strings.dfy` (module `GoStrings`) models the Go `strings` calls with
  the arguments closure.go passes: `Trim` with a one-character cutset, the
  `Replace` of `\"` by `"`, `TrimPrefix` and `Split`. Each has a contract or
  lemmas that pin it down.
- `oracles.dfy` (module `Oracles`) holds what the code asks of the outside
  world. Directory listings, NAR hashes, file hashes and manifest digests
  are partial maps from a path; a missing path is a failing call. It also
  holds the error cases and Go's string order, used for sorted listings.
- `closure.dfy` (module `Closure`) holds the operations. `findAppType` and
  `artifactHash` are methods with the source's early-return loops. Each is
  proved equal to a specification function, `AppTypeOf` or
  `ArtifactDigest`. `addNarHashToGraph` is a method over `Node` objects
  whose attribute maps it updates in place. It is proved against
  `EnrichedAttrs`, the per-node result.
- `closure_properties.dfy` (module `ClosureProperties`) holds the lemmas.

Three consequences of the code that a reader might not expect:

- A label wrapped as `\"…\"` cleans to `"…\`, not to the bare text: Trim
  removes only `"` characters, so the leading backslash stops the left trim
  and only the trailing quote goes (`CleanNameOfBackslashWrappedLabel`).
- Classification takes the first marker in listing order. On the sorted
  listings `os.ReadDir` returns, that is classification by presence, with
  `bin` winning over `manifest.json` (`SortedListingClassifiedByPresence`).
- `GetRuntimeClosureGraph` overwrites the root app's version with `"0.0.0"`
  (closure.go:42); that version comes from `GetAppDetails`, which calls
  `parseAppDetails`. The per-node `version` attributes written by
  `addNarHashToGraph` are kept. Both functions on the root app are outside
  this model (see below).

## Model

| member | source | states |
|---|---|---|
| `GoStrings.TrimLeft` | pkg/nix/cmd/closure.go:194 | the result is a suffix of the input, everything dropped is the trim character, and the result does not start with it |
| `GoStrings.TrimRight` | pkg/nix/cmd/closure.go:194 | the result is a prefix of the input, everything dropped is the trim character, and the result does not end with it |
| `GoStrings.Trim` | pkg/nix/cmd/closure.go:194 | trimming never lengthens a string, and a string without the trim character is unchanged |
| `GoStrings.TrimUnique` | pkg/nix/cmd/closure.go:194 | for any split into all-quote ends and a middle that neither starts nor ends with a quote, Trim returns exactly that middle |
| `GoStrings.UnescapeQuotes` | pkg/nix/cmd/closure.go:197 | replacing `\"` by `"` never lengthens a string, and it leaves the string unchanged exactly when no backslash is directly followed by a quote |
| `GoStrings.UnescapeQuotesConcat` | pkg/nix/cmd/closure.go:197 | the replacement works piece by piece: it distributes over any concatenation whose cut does not fall between a backslash and the quote after it |
| `GoStrings.UnescapeQuotesPieces` | pkg/nix/cmd/closure.go:197 | the pieces: a `\"` pair becomes `"` and every single character stays; with `UnescapeQuotesConcat` this fixes the result on every input |
| `GoStrings.UnescapeQuotesAfterBareQuote` | pkg/nix/cmd/closure.go:197 | an escaped quote right after a bare one is unescaped on its own: `a"\"b` gives `a""b` |
| `GoStrings.TrimPrefix` | pkg/nix/cmd/closure.go:230 | with the prefix present, prefix + result is the input; without it, the input is returned unchanged |
| `GoStrings.Split` | pkg/nix/cmd/closure.go:231 | the pieces contain no separator, joining them with the separator gives back the input, and there is one more piece than there are separators |
| `GoStrings.SplitEnds` | pkg/nix/cmd/closure.go:231-238 | with at least three pieces, the first piece is the text before the first `-`, the last piece is the text after the last `-`, and the two do not overlap |
| `GoStrings.FirstSegmentUnique` | pkg/nix/cmd/closure.go:237 | the text before the first separator is unique |
| `GoStrings.LastSegmentUnique` | pkg/nix/cmd/closure.go:238 | the text after the last separator is unique |
| `Closure.CleanNameFromGraph` | pkg/nix/cmd/closure.go:192-200 | cleaning never lengthens a name, and a name with no `"` is returned unchanged |
| `Closure.FindAppType` | pkg/nix/cmd/closure.go:243-255 | the loop returns the purpose fixed by the first `bin` or `manifest.json` entry, or UNKNOWN (as `AppTypeOf`) |
| `Closure.ParseAppDetails` | pkg/nix/cmd/closure.go:222-241 | a listing failure comes first; with a listing, the result is `invalid path: <store name>` exactly when the store name has fewer than two `-`; on success the digest is the text before the first `-`, the version the text after the last `-`, neither contains `-`, the purpose is the listing's, and the name is empty |
| `Closure.FindResultBinary` | pkg/nix/cmd/closure.go:154-165 | a `bin/` that cannot be listed is that listing error, an empty `bin/` is `no result binary found`, and otherwise the result is the first entry in listing order |
| `Closure.ArtifactHash` | pkg/nix/cmd/closure.go:77-113 | the loop returns what the first-marker rule decides (as `ArtifactDigest`): the binary's file hash, the stripped manifest digest, `""`, or the first error met |
| `Closure.EnrichedAttrs` | pkg/nix/cmd/closure.go:123-135 | enriching a node never touches an attribute other than `hash`, `name` and `version`; `hash` is present afterwards exactly when it already was or the NAR hash succeeds; a failed NAR hash leaves the node as it was |
| `Closure.EnrichNode` | pkg/nix/cmd/closure.go:121-136 | one goroutine's body updates its node's attributes to `EnrichedAttrs` of its name and old attributes |
| `Closure.AddNarHashToGraph` | pkg/nix/cmd/closure.go:115-141 | the node list is unchanged, and every node, and nothing else, ends with `EnrichedAttrs` of its own name and old attributes; there is no error result |
| `ClosureProperties.CleanNameStripsThenUnescapes` | pkg/nix/cmd/closure.go:192-200 | in general, cleaning removes the maximal `"` runs at both ends and then unescapes the middle |
| `ClosureProperties.UnescapeEscapeQuotes` | pkg/nix/cmd/closure.go:197 | unescaping undoes DOT quote escaping for every string, backslashes included |
| `ClosureProperties.CleanNameOfQuotedId` | pkg/nix/cmd/closure.go:192-200 | cleaning the quoted DOT ID of a name that does not end with `"` gives back the name |
| `ClosureProperties.CleanNameOfQuotedIdEndingInQuote` | pkg/nix/cmd/closure.go:194-197 | a name ending in `"` does not survive the round trip: `a"` comes back as `a\` |
| `ClosureProperties.CleanNameOfBackslashWrappedLabel` | pkg/nix/cmd/closure.go:194-197 | a label wrapped as `\"w\"` cleans to `"w\`, because the leading backslash stops the left trim |
| `ClosureProperties.EscapeQuotesEnds` | pkg/nix/cmd/closure.go:197 | an escaped name never starts with a bare quote and ends with the name's last character |
| `ClosureProperties.AppTypeOfFirstMatch` | pkg/nix/cmd/closure.go:243-255 | EXECUTABLE exactly when some `bin` has no `manifest.json` before it, CONTAINER exactly when some `manifest.json` has no `bin` before it, UNKNOWN exactly when neither name occurs |
| `ClosureProperties.SortedListingWithBinIsExecutable` | pkg/nix/cmd/closure.go:243-255 | a sorted listing that contains `bin` is EXECUTABLE, even when it also contains `manifest.json` |
| `ClosureProperties.SortedListingClassifiedByPresence` | pkg/nix/cmd/closure.go:243-255 | on a sorted listing, EXECUTABLE exactly when `bin` is present, and CONTAINER exactly when `manifest.json` is present and `bin` is not |
| `ClosureProperties.ParseStorePath` | pkg/nix/cmd/closure.go:230-240 | `/nix/store/<digest>-<name>-<version>` with hyphen-free digest and version parses to exactly that digest and version, whatever hyphens the name has, with an empty name |
| `ClosureProperties.ParseRejectsPathWithoutHyphens` | pkg/nix/cmd/closure.go:230-234 | a listable path with no `-` in its store name, such as `/store/onlyonepart`, fails with `invalid path` |
| `ClosureProperties.ResultBinaryIsSmallest` | pkg/nix/cmd/closure.go:154-165 | on a sorted, non-empty `bin/` listing, the chosen binary is a listed name no greater than any other |
| `ClosureProperties.ArtifactDigestOfUnlistedDir` | pkg/nix/cmd/closure.go:78-81 | a result directory that cannot be listed is that listing error, before any marker is looked for |
| `ClosureProperties.ArtifactDigestOfExecutable` | pkg/nix/cmd/closure.go:83-94 | when a `bin` entry has no `manifest.json` before it: a `bin/` that cannot be listed is passed on as that listing error, an empty `bin/` is `no result binary found`, and otherwise the result is the file hash of the first `bin/` entry, or that hash's own error |
| `ClosureProperties.ArtifactDigestOfContainer` | pkg/nix/cmd/closure.go:95-107 | when a `manifest.json` entry has no `bin` before it: a manifest that cannot be read or decoded is passed on as that error; otherwise the result is the config digest without a leading `sha256:`, or the digest unchanged when it lacks that prefix |
| `ClosureProperties.ArtifactDigestOfUnmarked` | pkg/nix/cmd/closure.go:83-112 | with neither marker, the result is `""` and no error |
| `ClosureProperties.ArtifactDigestOfManifestExample` | pkg/nix/cmd/closure.go:107 | config digest `sha256:deadbeef` gives `deadbeef` |
| `ClosureProperties.EnrichOutcomes` | pkg/nix/cmd/closure.go:123-135 | at `/nix/store/` + the cleaned name: no NAR hash leaves the node unchanged; a hash without a parse adds only `hash`; both add `hash`, an empty `name` and the parsed `version` |
| `ClosureProperties.EnrichIdempotent` | pkg/nix/cmd/closure.go:123-135 | enriching a node a second time changes nothing |
| `ClosureProperties.EnrichMissingAndPresent` | pkg/nix/cmd/closure.go:123-135 | a node whose path is missing gets none of the three attributes, and one whose path hashes and parses gets all three |

## Left out

- `GetRuntimeClosureGraph` (closure.go:35-75) is not modelled. It runs
  `nix-store -q --graph` and parses DOT with gographviz, which is process
  plumbing and a foreign parser. Its `Version = "0.0.0"` override
  (closure.go:42) applies only to the root app that `GetAppDetails`
  returns, so it is not modelled either. It does not touch the `version`
  attributes of the graph's nodes.
- `GetAppDetails` (closure.go:203-220) is not modelled. It only chains
  `os.Readlink`, the NAR hash and `parseAppDetails`.
- `GetNarHashFromPath` is an oracle (`Oracles.NarHash`). NAR serialisation
  and nixbase32 encoding are foreign library code.
- `fileSHA256` is an oracle (`Oracles.FileSHA256`). It is file I/O plus
  SHA-256 and hex encoding.
- Manifest reading and JSON decoding are one oracle
  (`Oracles.ManifestConfigDigest`), from a path to the config digest's text.
- `os.ReadDir` is an oracle that gives entry names only. Entry types are
  never looked at by the code. The sorted order it guarantees is a
  hypothesis of the lemmas that need it (`SortedNames`), not of the
  operations.
- Goroutines and `sync.WaitGroup` are not modelled. The nodes are enriched
  one after another. Each goroutine writes only its own node, so the final
  state is the same. `AddNarHashToGraph` requires the node list to hold
  distinct nodes; that is what keeps the goroutines from racing.
- Error values keep their kind and the path involved. The formatted message
  text (`fmt.Errorf`) is not modelled.
- The NAR hash (nixbase32) and the file hash (hex) are both plain strings.
  The code stores them as strings too.
- `GoStrings.Trim`: only a one-character cutset is modelled, because
  closure.go trims only `"`.
- `GoStrings.UnescapeQuotes`: only the replacement closure.go performs (`\"`
  by `"`, all occurrences) is modelled, not `strings.Replace` in general.
- `GoStrings.Split`: only a one-character separator is modelled, because
  closure.go splits only on `-`.
- `Closure.Node`: its name is a constant, because closure.go never writes
  it. gographviz's `Node.Name` is mutable.
