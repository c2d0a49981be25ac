/** Manifest discovery: `find_compose_files` over an `os.walk` trace. */
module Scanner {
  import PyPath

  /** One step of `os.walk`: a directory and the names of the files in it. */
  datatype WalkEntry = WalkEntry(root: string, files: seq<string>)

  const ComposeYml: string := "docker-compose.yml"
  const ComposeYaml: string := "docker-compose.yaml"

  /** The file names that mark a compose manifest, in the order they are tried. */
  const ManifestNames: seq<string> := [ComposeYml, ComposeYaml]

  /** The manifests of one walked directory: `.yml` first, then `.yaml`. */
  function ManifestsIn(e: WalkEntry): seq<string>
  {
    (if ComposeYml in e.files then [PyPath.Join(e.root, ComposeYml)] else [])
    + (if ComposeYaml in e.files then [PyPath.Join(e.root, ComposeYaml)] else [])
  }

  /** Some walked directory holds a file literally named like a manifest, and
      `p` joins that directory with that name. */
  predicate NamesManifest(walk: seq<WalkEntry>, p: string)
  {
    exists i, n :: 0 <= i < |walk| && n in ManifestNames && n in walk[i].files
                   && p == PyPath.Join(walk[i].root, n)
  }

  /** A path names a manifest of the walk exactly when it names one of the
      first directory or one of the directories after it. */
  lemma NamesManifestStep(walk: seq<WalkEntry>)
    requires walk != []
    ensures forall p :: NamesManifest(walk, p) <==> p in ManifestsIn(walk[0]) || NamesManifest(walk[1..], p)
  {
    forall p | p in ManifestsIn(walk[0]) || NamesManifest(walk[1..], p)
      ensures NamesManifest(walk, p)
    {
      if p in ManifestsIn(walk[0]) {
        if ComposeYml in walk[0].files && p == PyPath.Join(walk[0].root, ComposeYml) {
          assert ComposeYml in ManifestNames;
        } else {
          assert ComposeYaml in ManifestNames;
        }
      } else {
        var i, n :| 0 <= i < |walk[1..]| && n in ManifestNames && n in walk[1..][i].files
                    && p == PyPath.Join(walk[1..][i].root, n);
        assert walk[1..][i] == walk[i + 1];
      }
    }
    forall p | NamesManifest(walk, p)
      ensures p in ManifestsIn(walk[0]) || NamesManifest(walk[1..], p)
    {
      var i, n :| 0 <= i < |walk| && n in ManifestNames && n in walk[i].files
                  && p == PyPath.Join(walk[i].root, n);
      if i > 0 {
        assert walk[1..][i - 1] == walk[i];
      }
    }
  }

  /** The manifests of the walked directories, in walk order: a path is
      reported exactly when some walked directory holds a file literally named
      `docker-compose.yml` or `docker-compose.yaml` and the path joins that
      directory with that name. Each directory contributes at most two, in a
      block of its own (`ScanByDirectory`). */
  function FindComposeFiles(walk: seq<WalkEntry>): (paths: seq<string>)
    ensures forall p :: p in paths <==> NamesManifest(walk, p)
    ensures |paths| <= 2 * |walk|
  {
    if walk == [] then []
    else
      NamesManifestStep(walk);
      ManifestsIn(walk[0]) + FindComposeFiles(walk[1..])
  }

  /** Scanning two stretches of a walk one after the other gives the
      manifests of the first stretch, then those of the second. */
  lemma {:induction false} FindComposeFilesAppend(a: seq<WalkEntry>, b: seq<WalkEntry>)
    ensures FindComposeFiles(a + b) == FindComposeFiles(a) + FindComposeFiles(b)
    decreases |a|
  {
    if a == [] {
      assert a + b == b;
    } else {
      assert (a + b)[0] == a[0];
      assert (a + b)[1..] == a[1..] + b;
      FindComposeFilesAppend(a[1..], b);
    }
  }

  /** The two manifest names joined to one directory give two paths. */
  lemma ManifestPathsDiffer(root: string)
    ensures PyPath.Join(root, ComposeYml) != PyPath.Join(root, ComposeYaml)
  {
    PyPath.JoinPutsOneSeparator(root, ComposeYml);
    PyPath.JoinPutsOneSeparator(root, ComposeYaml);
    assert |PyPath.Join(root, ComposeYml)| != |PyPath.Join(root, ComposeYaml)|;
  }

  /** Each walked directory contributes its own block of paths, at most two,
      between the paths of the directories before it and those after it, and
      the block holds exactly the manifests that directory names. */
  lemma ScanByDirectory(a: seq<WalkEntry>, e: WalkEntry, b: seq<WalkEntry>)
    ensures FindComposeFiles(a + [e] + b) == FindComposeFiles(a) + ManifestsIn(e) + FindComposeFiles(b)
    ensures |ManifestsIn(e)| <= 2
    ensures forall p :: p in ManifestsIn(e) <==> NamesManifest([e], p)
    ensures forall i, j :: 0 <= i < j < |ManifestsIn(e)| ==> ManifestsIn(e)[i] != ManifestsIn(e)[j]
  {
    ManifestPathsDiffer(e.root);
    FindComposeFilesAppend(a + [e], b);
    FindComposeFilesAppend(a, [e]);
    assert FindComposeFiles([e]) == ManifestsIn(e) by {
      assert [e][1..] == [];
    }
  }

  lemma ManifestNamesArePlain(n: string)
    requires n in ManifestNames
    ensures n != [] && PyPath.HasNoSlash(n)
  {
  }

  /** Every reported path names a file called `docker-compose.yml` or
      `docker-compose.yaml`. */
  lemma ReportsOnlyManifests(walk: seq<WalkEntry>)
    ensures forall p :: p in FindComposeFiles(walk) ==> PyPath.Basename(p) in ManifestNames
  {
    forall p | p in FindComposeFiles(walk)
      ensures PyPath.Basename(p) in ManifestNames
    {
      assert NamesManifest(walk, p);
      var i, n :| 0 <= i < |walk| && n in ManifestNames && n in walk[i].files
                  && p == PyPath.Join(walk[i].root, n);
      ManifestNamesArePlain(n);
      PyPath.BasenameOfJoin(walk[i].root, n);
    }
  }

  /** A directory holding both spellings contributes its `.yml` path
      immediately followed by its `.yaml` path. */
  lemma YmlBeforeYaml(walk: seq<WalkEntry>, i: nat)
    requires i < |walk|
    requires ComposeYml in walk[i].files && ComposeYaml in walk[i].files
    ensures var paths := FindComposeFiles(walk);
      exists p :: 0 <= p && p + 1 < |paths|
        && paths[p] == PyPath.Join(walk[i].root, ComposeYml)
        && paths[p + 1] == PyPath.Join(walk[i].root, ComposeYaml)
  {
    var before := FindComposeFiles(walk[..i]);
    assert walk == walk[..i] + [walk[i]] + walk[i + 1..];
    FindComposeFilesAppend(walk[..i] + [walk[i]], walk[i + 1..]);
    FindComposeFilesAppend(walk[..i], [walk[i]]);
    assert FindComposeFiles([walk[i]]) == ManifestsIn(walk[i]);
    var paths := FindComposeFiles(walk);
    assert paths == before + ManifestsIn(walk[i]) + FindComposeFiles(walk[i + 1..]);
    assert paths[|before|] == PyPath.Join(walk[i].root, ComposeYml);
    assert paths[|before| + 1] == PyPath.Join(walk[i].root, ComposeYaml);
  }
}
