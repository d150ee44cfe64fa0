/** Properties of the closure.go model: how node names are cleaned, how a
    listing is classified, what a store path parses to, what the artifact
    hash is in each case, and what enriching a node does to its attributes. */
module ClosureProperties {
  import opened GoStrings
  import opened Oracles
  import opened Closure

  // ---------------------------------------------------------------------
  // CleanNameFromGraph

  /** How a DOT writer puts a string into a quoted ID: each `"` becomes `\"`. */
  function EscapeQuotes(x: string): string
    decreases |x|
  {
    if x == [] then [] else (if x[0] == '"' then "\\\"" else [x[0]]) + EscapeQuotes(x[1..])
  }

  /** The quoted DOT ID of `x`. */
  function QuotedId(x: string): string {
    "\"" + EscapeQuotes(x) + "\""
  }

  /** In general, CleanNameFromGraph removes the maximal runs of `"` at both
      ends and then unescapes what is left. */
  lemma CleanNameStripsThenUnescapes(p: string, m: string, q: string)
    requires forall k :: 0 <= k < |p| ==> p[k] == '"'
    requires forall k :: 0 <= k < |q| ==> q[k] == '"'
    requires m == [] || (m[0] != '"' && m[|m| - 1] != '"')
    ensures CleanNameFromGraph(p + m + q) == UnescapeQuotes(m)
  {
    TrimUnique(p, m, q, '"');
  }

  /** An escaped string never starts with a bare quote, and it ends with the
      last character of the original. */
  lemma {:induction false} EscapeQuotesEnds(x: string)
    ensures EscapeQuotes(x) == [] <==> x == []
    ensures x != [] ==> EscapeQuotes(x)[0] != '"'
    ensures x != [] ==> EscapeQuotes(x)[|EscapeQuotes(x)| - 1] == x[|x| - 1]
    decreases |x|
  {
    if x != [] {
      EscapeQuotesEnds(x[1..]);
      if |x| > 1 {
        assert x[1..][|x| - 2] == x[|x| - 1];
      }
    }
  }

  /** Unescaping undoes escaping, backslashes in the original included. */
  lemma {:induction false} UnescapeEscapeQuotes(x: string)
    ensures UnescapeQuotes(EscapeQuotes(x)) == x
    decreases |x|
  {
    if x != [] {
      var rest := EscapeQuotes(x[1..]);
      UnescapeEscapeQuotes(x[1..]);
      EscapeQuotesEnds(x[1..]);
      if x[0] == '"' {
        var e := "\\\"" + rest;
        assert EscapeQuotes(x) == e;
        assert e[2..] == rest;
        calc {
          UnescapeQuotes(e);
          "\"" + UnescapeQuotes(rest);
          "\"" + x[1..];
        }
      } else {
        var e := [x[0]] + rest;
        assert EscapeQuotes(x) == e;
        assert e[1..] == rest;
        assert !(|e| >= 2 && e[0] == '\\' && e[1] == '"');
        calc {
          UnescapeQuotes(e);
          [x[0]] + UnescapeQuotes(rest);
          [x[0]] + x[1..];
        }
      }
      assert x == [x[0]] + x[1..];
    }
  }

  /** Cleaning the quoted ID of a name recovers the name, provided the name
      does not itself end with `"`. */
  lemma CleanNameOfQuotedId(x: string)
    requires x == [] || x[|x| - 1] != '"'
    ensures CleanNameFromGraph(QuotedId(x)) == x
  {
    EscapeQuotesEnds(x);
    TrimUnique("\"", EscapeQuotes(x), "\"", '"');
    UnescapeEscapeQuotes(x);
  }

  /** The proviso above is needed: a trailing escaped quote loses its quote
      to the trim and keeps its backslash. */
  lemma CleanNameOfQuotedIdEndingInQuote()
    ensures QuotedId("a\"") == "\"a\\\"\""
    ensures CleanNameFromGraph(QuotedId("a\"")) == "a\\"
  {
    var s := "\"a\\\"\"";
    assert TrimLeft(s, '"') == s[1..];
    assert TrimRight(s[1..], '"') == "a\\";
  }

  /** A label wrapped in backslash-quote pairs, such as `\"/nix/store/abc\"`,
      keeps its leading escape: Trim only removes `"` characters, so the
      leading backslash stops the left trim and only the trailing quote
      goes; the result is `"/nix/store/abc\`, not `/nix/store/abc`. */
  lemma CleanNameOfBackslashWrappedLabel(w: string)
    requires '"' !in w
    ensures CleanNameFromGraph("\\\"" + w + "\\\"") == "\"" + w + "\\"
  {
    var rest := w + "\\";
    var m := "\\\"" + rest;
    assert "\\\"" + w + "\\\"" == "" + m + "\"";
    CleanNameStripsThenUnescapes("", m, "\"");
    assert m[2..] == rest;
    assert '"' !in rest;
    UnescapeQuoteFree(rest);
  }

  /** Helper: a string without `"` has nothing to unescape. */
  lemma UnescapeQuoteFree(x: string)
    requires '"' !in x
    ensures UnescapeQuotes(x) == x
  {
    assert forall j :: 0 <= j < |x| ==> x[j] != '"';
  }

  // ---------------------------------------------------------------------
  // findAppType

  /** Entry `i` is named `marker` and no entry before it is named `other`. */
  predicate FirstBefore(entries: seq<string>, i: int, marker: string, other: string) {
    0 <= i < |entries| && entries[i] == marker && forall k :: 0 <= k < i ==> entries[k] != other
  }

  /** The first-match rule, stated without recursion: Executable exactly
      when some `bin` has no `manifest.json` before it, Container exactly
      when some `manifest.json` has no `bin` before it, UnknownPurpose
      exactly when neither name occurs. */
  lemma {:induction false} AppTypeOfFirstMatch(entries: seq<string>)
    ensures AppTypeOf(entries) == Executable <==>
              exists i :: FirstBefore(entries, i, BinEntry, ManifestEntry)
    ensures AppTypeOf(entries) == Container <==>
              exists i :: FirstBefore(entries, i, ManifestEntry, BinEntry)
    ensures AppTypeOf(entries) == UnknownPurpose <==>
              BinEntry !in entries && ManifestEntry !in entries
    decreases |entries|
  {
    if entries == [] {
    } else if entries[0] == BinEntry {
      assert FirstBefore(entries, 0, BinEntry, ManifestEntry);
      forall i | 0 <= i < |entries| && entries[i] == ManifestEntry
        ensures !FirstBefore(entries, i, ManifestEntry, BinEntry)
      {
        assert i > 0 && entries[0] == BinEntry;
      }
    } else if entries[0] == ManifestEntry {
      assert FirstBefore(entries, 0, ManifestEntry, BinEntry);
      forall i | 0 <= i < |entries| && entries[i] == BinEntry
        ensures !FirstBefore(entries, i, BinEntry, ManifestEntry)
      {
        assert i > 0 && entries[0] == ManifestEntry;
      }
    } else {
      AppTypeOfFirstMatch(entries[1..]);
      FirstBeforeShift(entries, BinEntry, ManifestEntry);
      FirstBeforeShift(entries, ManifestEntry, BinEntry);
      assert entries == [entries[0]] + entries[1..];
    }
  }

  /** Helper: an entry that is neither name can be skipped. */
  lemma FirstBeforeShift(entries: seq<string>, marker: string, other: string)
    requires entries != [] && entries[0] != marker && entries[0] != other
    ensures (exists i :: FirstBefore(entries, i, marker, other)) <==>
            (exists j :: FirstBefore(entries[1..], j, marker, other))
  {
    if exists i :: FirstBefore(entries, i, marker, other) {
      var i :| FirstBefore(entries, i, marker, other);
      assert FirstBefore(entries[1..], i - 1, marker, other);
    }
    if exists j :: FirstBefore(entries[1..], j, marker, other) {
      var j :| FirstBefore(entries[1..], j, marker, other);
      forall k | 0 <= k < j + 1 ensures entries[k] != other {
        if k > 0 { assert entries[k] == entries[1..][k - 1]; }
      }
      assert FirstBefore(entries, j + 1, marker, other);
    }
  }

  /** os.ReadDir lists entries in name order and "bin" sorts before
      "manifest.json", so a sorted listing that holds `bin` is Executable
      whether or not it also holds `manifest.json`. */
  lemma SortedListingWithBinIsExecutable(entries: seq<string>)
    requires SortedNames(entries)
    requires BinEntry in entries
    ensures AppTypeOf(entries) == Executable
  {
    var i :| 0 <= i < |entries| && entries[i] == BinEntry;
    assert !Less(ManifestEntry, BinEntry);
    forall k | 0 <= k < i ensures entries[k] != ManifestEntry {
      assert Less(entries[k], entries[i]);
    }
    assert FirstBefore(entries, i, BinEntry, ManifestEntry);
    AppTypeOfFirstMatch(entries);
  }

  /** On a sorted listing the first-match rule agrees with "presence":
      Container exactly when `manifest.json` is present and `bin` is not. */
  lemma SortedListingClassifiedByPresence(entries: seq<string>)
    requires SortedNames(entries)
    ensures AppTypeOf(entries) == Executable <==> BinEntry in entries
    ensures AppTypeOf(entries) == Container <==> BinEntry !in entries && ManifestEntry in entries
  {
    AppTypeOfFirstMatch(entries);
    if BinEntry in entries {
      SortedListingWithBinIsExecutable(entries);
    } else if ManifestEntry in entries {
      var i :| 0 <= i < |entries| && entries[i] == ManifestEntry;
      assert FirstBefore(entries, i, ManifestEntry, BinEntry);
    }
  }

  // ---------------------------------------------------------------------
  // parseAppDetails

  /** A well-formed store path `/nix/store/<digest>-<name>-<version>`
      parses to that digest and version, whatever hyphens the name holds;
      the name itself is dropped. */
  lemma ParseStorePath(store: Store, digest: string, name: string, version: string)
    requires '-' !in digest && '-' !in version
    requires StorePrefix + digest + "-" + name + "-" + version in store.listings
    ensures var path := StorePrefix + digest + "-" + name + "-" + version;
      ParseAppDetails(store, path) ==
        Ok(App(name := "", version := version, appType := AppTypeOf(store.listings[path]),
               resultHash := "", resultDigest := digest, binaryHash := ""))
  {
    var rest := digest + "-" + name + "-" + version;
    var path := StorePrefix + rest;
    assert StorePrefix + digest + "-" + name + "-" + version == path;
    assert StoreName(path) == rest by {
      assert HasPrefix(path, StorePrefix);
    }
    HyphenatedSegments(digest, name, version);
    var app := ParseAppDetails(store, path).value;
    FirstSegmentUnique(rest, app.resultDigest, digest, '-');
    LastSegmentUnique(rest, app.version, version, '-');
  }

  /** Helper: the pieces of `<digest>-<name>-<version>`. */
  lemma HyphenatedSegments(digest: string, name: string, version: string)
    requires '-' !in digest && '-' !in version
    ensures var rest := digest + "-" + name + "-" + version;
      && Count(rest, '-') >= 2
      && IsFirstSegment(rest, digest, '-')
      && IsLastSegment(rest, version, '-')
  {
    var rest := digest + "-" + name + "-" + version;
    assert Count(rest, '-') >= 2 by {
      CountConcat(digest + "-", name + "-" + version, '-');
      CountConcat(digest, "-", '-');
      CountConcat(name + "-", version, '-');
      CountConcat(name, "-", '-');
      assert rest == (digest + "-") + (name + "-" + version);
      assert name + "-" + version == (name + "-") + version;
    }
    assert rest[..|digest|] == digest;
    assert rest == (digest + "-" + name + "-") + version;
  }

  /** A path with no hyphen after the store prefix, such as
      "/store/onlyonepart", is an invalid path once it can be listed. */
  lemma ParseRejectsPathWithoutHyphens(store: Store, path: string)
    requires path in store.listings
    requires '-' !in StoreName(path)
    ensures ParseAppDetails(store, path) == Err(InvalidPath(StoreName(path)))
  {
    CountAbsent(StoreName(path), '-');
  }

  // ---------------------------------------------------------------------
  // findResultBinary and artifactHash

  /** On a sorted `bin/` listing the chosen binary is the smallest name. */
  lemma ResultBinaryIsSmallest(store: Store, output: string, symlink: string)
    requires output + symlink + "/bin" in store.listings
    requires SortedNames(store.listings[output + symlink + "/bin"])
    requires store.listings[output + symlink + "/bin"] != []
    ensures var names := store.listings[output + symlink + "/bin"];
      && FindResultBinary(store, output, symlink).Ok?
      && FindResultBinary(store, output, symlink).value in names
      && (forall n :: n in names ==>
            n == FindResultBinary(store, output, symlink).value
            || Less(FindResultBinary(store, output, symlink).value, n))
  {
    var names := store.listings[output + symlink + "/bin"];
    forall n | n in names
      ensures n == names[0] || Less(names[0], n)
    {
      var j :| 0 <= j < |names| && names[j] == n;
    }
  }

  /** A result directory that cannot be listed is an error before anything
      else is looked at. */
  lemma ArtifactDigestOfUnlistedDir(store: Store, output: string, symlink: string)
    requires output + symlink !in store.listings
    ensures ArtifactDigest(store, output, symlink) == Err(ReadDirFailed(output + symlink))
  {
  }

  /** The `bin` branch: taken when a `bin` entry has no `manifest.json`
      before it. A `bin/` that cannot be listed is passed on as an error; an
      empty one is NoResultBinary; otherwise the result is the file hash of
      the first entry of `bin/`, or the file hash's own error. */
  lemma ArtifactDigestOfExecutable(store: Store, output: string, symlink: string, i: nat)
    requires output + symlink in store.listings
    requires FirstBefore(store.listings[output + symlink], i, BinEntry, ManifestEntry)
    ensures output + symlink + "/bin" !in store.listings ==>
              ArtifactDigest(store, output, symlink) == Err(ReadDirFailed(output + symlink + "/bin"))
    ensures output + symlink + "/bin" in store.listings && store.listings[output + symlink + "/bin"] == [] ==>
              ArtifactDigest(store, output, symlink) == Err(NoResultBinary)
    ensures output + symlink + "/bin" in store.listings && store.listings[output + symlink + "/bin"] != [] ==>
              ArtifactDigest(store, output, symlink)
              == FileSHA256(store, output + symlink + "/bin/" + store.listings[output + symlink + "/bin"][0])
  {
    AppTypeOfFirstMatch(store.listings[output + symlink]);
  }

  /** The `manifest.json` branch: taken when a `manifest.json` entry has no
      `bin` before it. A manifest that cannot be read or decoded is passed on
      as an error; otherwise the config digest loses a leading `sha256:` and
      is returned unchanged when it has none. */
  lemma ArtifactDigestOfContainer(store: Store, output: string, symlink: string, i: nat)
    requires output + symlink in store.listings
    requires FirstBefore(store.listings[output + symlink], i, ManifestEntry, BinEntry)
    ensures output + symlink + "/manifest.json" !in store.manifestDigests ==>
              ArtifactDigest(store, output, symlink) == Err(ManifestFailed(output + symlink + "/manifest.json"))
    ensures output + symlink + "/manifest.json" in store.manifestDigests
            && HasPrefix(store.manifestDigests[output + symlink + "/manifest.json"], "sha256:") ==>
              ArtifactDigest(store, output, symlink)
              == Ok(store.manifestDigests[output + symlink + "/manifest.json"][7..])
    ensures output + symlink + "/manifest.json" in store.manifestDigests
            && !HasPrefix(store.manifestDigests[output + symlink + "/manifest.json"], "sha256:") ==>
              ArtifactDigest(store, output, symlink)
              == Ok(store.manifestDigests[output + symlink + "/manifest.json"])
  {
    AppTypeOfFirstMatch(store.listings[output + symlink]);
    assert output + symlink + "/" + ManifestEntry == output + symlink + "/manifest.json";
  }

  /** A result directory with neither marker has the empty digest and no error. */
  lemma ArtifactDigestOfUnmarked(store: Store, output: string, symlink: string)
    requires output + symlink in store.listings
    requires BinEntry !in store.listings[output + symlink]
    requires ManifestEntry !in store.listings[output + symlink]
    ensures ArtifactDigest(store, output, symlink) == Ok("")
  {
    AppTypeOfFirstMatch(store.listings[output + symlink]);
  }

  /** The image example: config digest "sha256:deadbeef" gives "deadbeef". */
  lemma ArtifactDigestOfManifestExample(store: Store, output: string, symlink: string)
    requires output + symlink in store.listings
    requires store.listings[output + symlink] == [ManifestEntry]
    requires store.manifestDigests == map[output + symlink + "/manifest.json" := "sha256:deadbeef"]
    ensures ArtifactDigest(store, output, symlink) == Ok("deadbeef")
  {
    assert FirstBefore(store.listings[output + symlink], 0, ManifestEntry, BinEntry);
    ArtifactDigestOfContainer(store, output, symlink, 0);
    assert HasPrefix("sha256:deadbeef", "sha256:");
  }

  // ---------------------------------------------------------------------
  // addNarHashToGraph

  /** The three outcomes for one node, all at `/nix/store/` + the cleaned
      name: no NAR hash leaves the node as it was; a hash but no parse adds
      only `hash`; both add `hash`, an empty `name` and the parsed `version`. */
  lemma EnrichOutcomes(store: Store, nodeName: string, attrs: map<string, string>)
    ensures NodePath(nodeName) !in store.narHashes ==> EnrichedAttrs(store, nodeName, attrs) == attrs
    ensures NodePath(nodeName) in store.narHashes && ParseAppDetails(store, NodePath(nodeName)).Err? ==>
              EnrichedAttrs(store, nodeName, attrs) == attrs["hash" := store.narHashes[NodePath(nodeName)]]
    ensures NodePath(nodeName) in store.narHashes && ParseAppDetails(store, NodePath(nodeName)).Ok? ==>
              EnrichedAttrs(store, nodeName, attrs)
              == attrs["hash" := store.narHashes[NodePath(nodeName)]]["name" := ""]
                      ["version" := ParseAppDetails(store, NodePath(nodeName)).value.version]
  {
    var path := NodePath(nodeName);
    if path in store.narHashes {
      var h := store.narHashes[path];
      var parsed := ParseAppDetails(store, path);
      if parsed.Ok? {
        EnrichedWithApp(store, nodeName, attrs, h, parsed.value);
      } else {
        EnrichedWithoutApp(store, nodeName, attrs, h);
      }
    }
  }

  /** Helper: the attributes when the hash and the parse both succeed. */
  lemma EnrichedWithApp(store: Store, nodeName: string, attrs: map<string, string>, h: string, app: App)
    requires NarHash(store, NodePath(nodeName)) == Ok(h)
    requires ParseAppDetails(store, NodePath(nodeName)) == Ok(app)
    ensures EnrichedAttrs(store, nodeName, attrs)
            == attrs["hash" := h]["name" := app.name]["version" := app.version]
  {
  }

  /** Helper: the attributes when the hash succeeds and the parse fails. */
  lemma EnrichedWithoutApp(store: Store, nodeName: string, attrs: map<string, string>, h: string)
    requires NarHash(store, NodePath(nodeName)) == Ok(h)
    requires ParseAppDetails(store, NodePath(nodeName)).Err?
    ensures EnrichedAttrs(store, nodeName, attrs) == attrs["hash" := h]
  {
  }

  /** Running the enrichment of a node twice changes nothing the second time. */
  lemma EnrichIdempotent(store: Store, nodeName: string, attrs: map<string, string>)
    ensures EnrichedAttrs(store, nodeName, EnrichedAttrs(store, nodeName, attrs))
            == EnrichedAttrs(store, nodeName, attrs)
  {
    var path := NodePath(nodeName);
    var once := EnrichedAttrs(store, nodeName, attrs);
    if path in store.narHashes {
      var h := store.narHashes[path];
      var parsed := ParseAppDetails(store, path);
      if parsed.Ok? {
        var app := parsed.value;
        EnrichedWithApp(store, nodeName, attrs, h, app);
        EnrichedWithApp(store, nodeName, once, h, app);
        ReapplyUpdates(attrs, h, app.name, app.version);
      } else {
        EnrichedWithoutApp(store, nodeName, attrs, h);
        EnrichedWithoutApp(store, nodeName, once, h);
        assert once["hash" := h] == once;
      }
    }
  }

  /** Helper: writing `hash`, `name` and `version` a second time with the
      same values leaves the map as the first writes left it. */
  lemma ReapplyUpdates(m: map<string, string>, h: string, n: string, v: string)
    ensures var once := m["hash" := h]["name" := n]["version" := v];
      once["hash" := h]["name" := n]["version" := v] == once
  {
    var once := m["hash" := h]["name" := n]["version" := v];
    assert once["hash"] == h && once["name"] == n && once["version"] == v;
    assert once["hash" := h] == once;
    assert once["name" := n] == once;
  }

  /** A node whose store path is missing gets none of the three attributes
      it did not already have, while a node whose path hashes and parses
      gets all three. */
  lemma EnrichMissingAndPresent(store: Store, nodeName: string, attrs: map<string, string>)
    requires "hash" !in attrs && "name" !in attrs && "version" !in attrs
    ensures NodePath(nodeName) !in store.narHashes ==>
              var r := EnrichedAttrs(store, nodeName, attrs);
              "hash" !in r && "name" !in r && "version" !in r
    ensures NodePath(nodeName) in store.narHashes && ParseAppDetails(store, NodePath(nodeName)).Ok? ==>
              var r := EnrichedAttrs(store, nodeName, attrs);
              "hash" in r && "name" in r && "version" in r
  {
  }
}
