/** The store-path logic of pkg/nix/cmd/closure.go: cleaning graph node
    names, classifying and parsing store paths, resolving the artifact hash
    of a build result, and annotating every node of the runtime closure
    graph with its hash, name and version. */
module Closure {
  import opened GoStrings
  import opened Oracles

  const StorePrefix: string := "/nix/store/"
  const DigestAlgorithmPrefix: string := "sha256:"
  const BinEntry: string := "bin"
  const ManifestEntry: string := "manifest.json"

  /** The three values of sbom.Purpose that closure.go produces. */
  datatype Purpose = UnknownPurpose | Executable | Container

  /** The App record. */
  datatype App = App(
    name: string,
    version: string,
    appType: Purpose,
    resultHash: string,
    resultDigest: string,
    binaryHash: string)

  /** CleanNameFromGraph: strip the leading and trailing runs of `"` a DOT
      node name carries, then unescape each `\"`. */
  function CleanNameFromGraph(s: string): (r: string)
    ensures |r| <= |s|
    ensures '"' !in s ==> r == s
  {
    UnescapeQuotes(Trim(s, '"'))
  }

  /** The purpose fixed by the first entry, in listing order, that is named
      `bin` or `manifest.json`; UnknownPurpose when there is none. */
  function AppTypeOf(entries: seq<string>): Purpose
    decreases |entries|
  {
    if entries == [] then UnknownPurpose
    else if entries[0] == BinEntry then Executable
    else if entries[0] == ManifestEntry then Container
    else AppTypeOf(entries[1..])
  }

  /** findAppType: the early-return scan over a directory listing. */
  method FindAppType(entries: seq<string>) returns (p: Purpose)
    ensures p == AppTypeOf(entries)
  {
    for i := 0 to |entries|
      invariant AppTypeOf(entries[i..]) == AppTypeOf(entries)
    {
      assert entries[i..][1..] == entries[i + 1..];
      if entries[i] == BinEntry {
        return Executable;
      }
      if entries[i] == ManifestEntry {
        return Container;
      }
    }
    assert entries[|entries|..] == [];
    return UnknownPurpose;
  }

  /** The part of a path that parseAppDetails splits: the path without a
      leading `/nix/store/`. */
  function StoreName(path: string): string {
    TrimPrefix(path, StorePrefix)
  }

  /** parseAppDetails: list the path (a failure is reported first), classify
      it, then split its store name on `-`; fewer than three pieces is an
      invalid path. The digest is the first piece, the version the last;
      the name is never filled in. */
  function ParseAppDetails(store: Store, path: string): (r: Result<App>)
    ensures path !in store.listings ==> r == Err(ReadDirFailed(path))
    ensures path in store.listings && Count(StoreName(path), '-') < 2 ==>
              r == Err(InvalidPath(StoreName(path)))
    ensures path in store.listings && Count(StoreName(path), '-') >= 2 ==> r.Ok?
    ensures r.Ok? ==>
              && path in store.listings
              && r.value.appType == AppTypeOf(store.listings[path])
              && IsFirstSegment(StoreName(path), r.value.resultDigest, '-')
              && IsLastSegment(StoreName(path), r.value.version, '-')
              && |r.value.resultDigest| + |r.value.version| + 2 <= |StoreName(path)|
              && r.value.name == "" && r.value.resultHash == "" && r.value.binaryHash == ""
  {
    match ReadDir(store, path)
    case Err(e) => Err(e)
    case Ok(entries) =>
      var purpose := AppTypeOf(entries);
      var rest := TrimPrefix(path, StorePrefix);
      var parts := Split(rest, '-');
      if |parts| < 3 then
        Err(InvalidPath(rest))
      else
        SplitEnds(rest, '-');
        Ok(App(name := "", version := parts[|parts| - 1], appType := purpose,
               resultHash := "", resultDigest := parts[0], binaryHash := ""))
  }

  /** findResultBinary: the first entry of `<output+symlink>/bin`; an empty
      directory is "no result binary found". */
  function FindResultBinary(store: Store, output: string, symlink: string): (r: Result<string>)
    ensures output + symlink + "/bin" !in store.listings ==>
              r == Err(ReadDirFailed(output + symlink + "/bin"))
    ensures output + symlink + "/bin" in store.listings && store.listings[output + symlink + "/bin"] == [] ==>
              r == Err(NoResultBinary)
    ensures output + symlink + "/bin" in store.listings && store.listings[output + symlink + "/bin"] != [] ==>
              r == Ok(store.listings[output + symlink + "/bin"][0])
  {
    match ReadDir(store, output + symlink + "/bin")
    case Err(e) => Err(e)
    case Ok(entries) => if |entries| == 0 then Err(NoResultBinary) else Ok(entries[0])
  }

  /** What artifactHash returns, decided by the same first-marker rule as
      findAppType: the file hash of the result binary, the manifest's config
      digest without its `sha256:` prefix, or "" when there is no marker. */
  function ArtifactDigest(store: Store, output: string, symlink: string): Result<string> {
    var dir := output + symlink;
    match ReadDir(store, dir)
    case Err(e) => Err(e)
    case Ok(entries) =>
      match AppTypeOf(entries)
      case Executable =>
        (match FindResultBinary(store, output, symlink)
         case Err(e) => Err(e)
         case Ok(bin) => FileSHA256(store, dir + "/bin/" + bin))
      case Container =>
        (match ManifestConfigDigest(store, dir + "/" + ManifestEntry)
         case Err(e) => Err(e)
         case Ok(digest) => Ok(TrimPrefix(digest, DigestAlgorithmPrefix)))
      case UnknownPurpose => Ok("")
  }

  /** artifactHash: the loop over the result directory, returning at the
      first `bin` or `manifest.json` entry. */
  method ArtifactHash(store: Store, output: string, symlink: string) returns (r: Result<string>)
    ensures r == ArtifactDigest(store, output, symlink)
  {
    var dir := output + symlink;
    var listing := ReadDir(store, dir);
    if listing.Err? {
      return Err(listing.error);
    }
    var files := listing.value;
    for i := 0 to |files|
      invariant AppTypeOf(files[i..]) == AppTypeOf(files)
    {
      assert files[i..][1..] == files[i + 1..];
      if files[i] == BinEntry {
        var binName := FindResultBinary(store, output, symlink);
        if binName.Err? {
          return Err(binName.error);
        }
        var hash := FileSHA256(store, dir + "/bin/" + binName.value);
        if hash.Err? {
          return Err(hash.error);
        }
        return Ok(hash.value);
      }
      if files[i] == ManifestEntry {
        var digest := ManifestConfigDigest(store, dir + "/" + ManifestEntry);
        if digest.Err? {
          return Err(digest.error);
        }
        return Ok(TrimPrefix(digest.value, DigestAlgorithmPrefix));
      }
    }
    assert files[|files|..] == [];
    return Ok("");
  }

  /** The store path addNarHashToGraph hashes and parses for a node. */
  function NodePath(nodeName: string): string {
    StorePrefix + CleanNameFromGraph(nodeName)
  }

  /** The attributes of one node after its goroutine in addNarHashToGraph
      has run: `hash` once the NAR hash succeeds, then `name` and `version`
      once parsing succeeds too. No other attribute is touched. */
  function EnrichedAttrs(store: Store, nodeName: string, attrs: map<string, string>): (r: map<string, string>)
    ensures forall k :: k != "hash" && k != "name" && k != "version" ==>
              (k in r <==> k in attrs) && (k in r ==> r[k] == attrs[k])
    ensures "hash" in r <==> "hash" in attrs || NarHash(store, NodePath(nodeName)).Ok?
    ensures NarHash(store, NodePath(nodeName)).Err? ==> r == attrs
  {
    var path := NodePath(nodeName);
    match NarHash(store, path)
    case Err(_) => attrs
    case Ok(hash) =>
      var withHash := attrs["hash" := hash];
      match ParseAppDetails(store, path)
      case Err(_) => withHash
      case Ok(app) => withHash["name" := app.name]["version" := app.version]
  }

  /** A node of the gographviz graph: its name and its attribute map. */
  class Node {
    const name: string
    var attrs: map<string, string>

    constructor (name: string, attrs: map<string, string>)
      ensures this.name == name && this.attrs == attrs
    {
      this.name := name;
      this.attrs := attrs;
    }
  }

  /** The graph's node list (graph.Nodes.Nodes). */
  class Graph {
    var nodes: seq<Node>

    constructor (nodes: seq<Node>)
      ensures this.nodes == nodes
    {
      this.nodes := nodes;
    }

    /** Every node occurs once, so each goroutine owns a node of its own. */
    predicate DistinctNodes()
      reads this
    {
      forall i, j :: 0 <= i < j < |nodes| ==> nodes[i] != nodes[j]
    }
  }

  /** The body of the goroutine addNarHashToGraph starts for one node. */
  method EnrichNode(store: Store, node: Node)
    modifies node
    ensures node.attrs == EnrichedAttrs(store, node.name, old(node.attrs))
  {
    var path := NodePath(node.name);
    var hash := NarHash(store, path);
    if hash.Err? {
      return;
    }
    node.attrs := node.attrs["hash" := hash.value];
    var app := ParseAppDetails(store, path);
    if app.Err? {
      return;
    }
    node.attrs := node.attrs["name" := app.value.name];
    node.attrs := node.attrs["version" := app.value.version];
  }

  /** addNarHashToGraph, with the goroutines run one after another: each
      writes only its own node, so the final state is the same. The node
      list is left alone and no failure reaches the caller. */
  method AddNarHashToGraph(store: Store, graph: Graph)
    requires graph.DistinctNodes()
    modifies set n | n in graph.nodes
    ensures graph.nodes == old(graph.nodes)
    ensures forall k :: 0 <= k < |graph.nodes| ==>
              graph.nodes[k].attrs == EnrichedAttrs(store, graph.nodes[k].name, old(graph.nodes[k].attrs))
  {
    var nodes := graph.nodes;
    for i := 0 to |nodes|
      invariant forall k :: 0 <= k < i ==>
                  nodes[k].attrs == EnrichedAttrs(store, nodes[k].name, old(nodes[k].attrs))
      invariant forall k :: i <= k < |nodes| ==> nodes[k].attrs == old(nodes[k].attrs)
    {
      EnrichNode(store, nodes[i]);
    }
  }
}
