/** Stack launcher: the decisions `start_containers` makes for each manifest. */
module Launcher {
  import PyPath
  import opened Actions

  /** The directory a manifest's stack is started in. */
  function ComposeDir(manifest: string): string
  {
    PyPath.Dirname(manifest)
  }

  function EncryptedEnv(dir: string): string
  {
    PyPath.Join(dir, ".env.enc")
  }

  function PlainEnv(dir: string): string
  {
    PyPath.Join(dir, ".env")
  }

  /** The actions for one manifest: one `docker compose up -d`, in the
      manifest's directory, directly preceded by a decryption exactly when
      that directory holds a `.env.enc`. */
  function LaunchOne(manifest: string, existing: set<string>): (t: seq<Action>)
    ensures ComposeDirs(t) == [ComposeDir(manifest)]
    ensures DecryptFlags(t) == [EncryptedEnv(ComposeDir(manifest)) in existing]
    ensures t[|t| - 1].ComposeUp?
  {
    var dir := ComposeDir(manifest);
    var up := [ComposeUp(dir)];
    assert up[1..] == [];
    assert DecryptFlags(up) == [false] + DecryptFlags(up[1..]);
    assert ComposeDirs(up) == [dir] && DecryptFlags(up) == [false];
    if EncryptedEnv(dir) in existing then
      var t := [Decrypt(EncryptedEnv(dir), PlainEnv(dir))] + up;
      ComposeDirsAppend([Decrypt(EncryptedEnv(dir), PlainEnv(dir))], up);
      assert t[1..] == up && t[2..] == [];
      t
    else up
  }

  /** Every decrypt is directly followed by the compose-up of the directory
      it decrypted into. */
  predicate DecryptsPrecedeTheirStart(t: seq<Action>)
  {
    forall k :: 0 <= k < |t| && t[k].Decrypt? ==>
      && k + 1 < |t| && t[k + 1].ComposeUp?
      && t[k].encrypted == EncryptedEnv(t[k + 1].dir) && t[k].plain == PlainEnv(t[k + 1].dir)
  }

  lemma LaunchOneShape(manifest: string, existing: set<string>)
    ensures var t := LaunchOne(manifest, existing);
      AllInPhase(t, 1) && DecryptsPrecedeTheirStart(t)
  {
    var dir := ComposeDir(manifest);
    if EncryptedEnv(dir) in existing {
      assert LaunchOne(manifest, existing) == [Decrypt(EncryptedEnv(dir), PlainEnv(dir)), ComposeUp(dir)];
    } else {
      assert LaunchOne(manifest, existing) == [ComposeUp(dir)];
    }
  }

  lemma ShapeAppend(head: seq<Action>, rest: seq<Action>)
    requires AllInPhase(head, 1) && DecryptsPrecedeTheirStart(head)
    requires AllInPhase(rest, 1) && DecryptsPrecedeTheirStart(rest)
    ensures AllInPhase(head + rest, 1) && DecryptsPrecedeTheirStart(head + rest)
  {
    var t := head + rest;
    forall k | |head| <= k < |t|
      ensures t[k] == rest[k - |head|]
    {
    }
  }

  lemma LaunchOneThenRest(manifest: string, existing: set<string>, rest: seq<Action>)
    requires AllInPhase(rest, 1) && DecryptsPrecedeTheirStart(rest)
    ensures var t := LaunchOne(manifest, existing) + rest;
      AllInPhase(t, 1) && DecryptsPrecedeTheirStart(t)
  {
    LaunchOneShape(manifest, existing);
    ShapeAppend(LaunchOne(manifest, existing), rest);
  }

  /** The launch step over all manifests in order, given which paths exist.
      It issues only decrypts and compose-ups, one or two per manifest in a
      block of its own (`LaunchByManifest`), and every decrypt is directly
      followed by the compose-up of the directory it decrypted into. */
  function Launch(manifests: seq<string>, existing: set<string>): (t: seq<Action>)
    ensures AllInPhase(t, 1) && DecryptsPrecedeTheirStart(t)
    ensures |manifests| <= |t| <= 2 * |manifests|
  {
    if manifests == [] then []
    else
      var rest := Launch(manifests[1..], existing);
      LaunchOneThenRest(manifests[0], existing, rest);
      LaunchOne(manifests[0], existing) + rest
  }

  /** The actions `block` gives each element of `xs`, one block after
      another. */
  function Blocks<T>(xs: seq<T>, block: T -> seq<Action>): seq<Action>
  {
    if xs == [] then [] else block(xs[0]) + Blocks(xs[1..], block)
  }

  lemma {:induction false} BlocksAppend<T>(a: seq<T>, b: seq<T>, block: T -> seq<Action>)
    ensures Blocks(a + b, block) == Blocks(a, block) + Blocks(b, block)
    decreases |a|
  {
    if a == [] {
      assert a + b == b;
    } else {
      assert (a + b)[0] == a[0];
      assert (a + b)[1..] == a[1..] + b;
      BlocksAppend(a[1..], b, block);
    }
  }

  function LaunchOneIn(existing: set<string>): string -> seq<Action>
  {
    m => LaunchOne(m, existing)
  }

  /** The launch is one `LaunchOne` block per manifest, in manifest order. */
  lemma {:induction false} LaunchIsBlocks(manifests: seq<string>, existing: set<string>)
    ensures Launch(manifests, existing) == Blocks(manifests, LaunchOneIn(existing))
    decreases |manifests|
  {
    if manifests != [] {
      LaunchIsBlocks(manifests[1..], existing);
    }
  }

  /** Launching two runs of manifests one after the other issues the first
      run's actions, then the second's. */
  lemma LaunchAppend(a: seq<string>, b: seq<string>, existing: set<string>)
    ensures Launch(a + b, existing) == Launch(a, existing) + Launch(b, existing)
  {
    LaunchIsBlocks(a + b, existing);
    LaunchIsBlocks(a, existing);
    LaunchIsBlocks(b, existing);
    BlocksAppend(a, b, LaunchOneIn(existing));
  }

  /** Each manifest contributes its own block of one or two actions, between
      the actions of the manifests before it and those after it. */
  lemma LaunchByManifest(a: seq<string>, m: string, b: seq<string>, existing: set<string>)
    ensures Launch(a + [m] + b, existing) == Launch(a, existing) + LaunchOne(m, existing) + Launch(b, existing)
    ensures 1 <= |LaunchOne(m, existing)| <= 2
  {
    LaunchAppend(a + [m], b, existing);
    LaunchAppend(a, [m], existing);
    assert Launch([m], existing) == LaunchOne(m, existing) by {
      assert [m][1..] == [];
    }
  }

  /** The directory of each manifest, in manifest order. */
  function ManifestDirs(manifests: seq<string>): (dirs: seq<string>)
    ensures |dirs| == |manifests|
    ensures forall i :: 0 <= i < |manifests| ==> dirs[i] == ComposeDir(manifests[i])
  {
    if manifests == [] then [] else [ComposeDir(manifests[0])] + ManifestDirs(manifests[1..])
  }

  /** `docker compose up -d` is issued once per manifest, in manifest order,
      whether or not a decryption happened. */
  lemma {:induction false} ComposeUpForEveryManifest(manifests: seq<string>, existing: set<string>)
    ensures ComposeDirs(Launch(manifests, existing)) == ManifestDirs(manifests)
    decreases |manifests|
  {
    if manifests != [] {
      var rest := manifests[1..];
      ComposeDirsAppend(LaunchOne(manifests[0], existing), Launch(rest, existing));
      ComposeUpForEveryManifest(rest, existing);
    }
  }

  /** Whether each manifest's directory holds a `.env.enc`, in manifest order. */
  function EncryptedFlags(manifests: seq<string>, existing: set<string>): (flags: seq<bool>)
    ensures |flags| == |manifests|
    ensures forall i :: 0 <= i < |manifests| ==> flags[i] == (EncryptedEnv(ComposeDir(manifests[i])) in existing)
  {
    if manifests == [] then []
    else [EncryptedEnv(ComposeDir(manifests[0])) in existing] + EncryptedFlags(manifests[1..], existing)
  }

  /** The i-th compose-up of the launch is directly preceded by a decrypt
      exactly when the i-th manifest's directory holds a `.env.enc`. */
  lemma {:induction false} DecryptPerManifest(manifests: seq<string>, existing: set<string>)
    ensures DecryptFlags(Launch(manifests, existing)) == EncryptedFlags(manifests, existing)
    decreases |manifests|
  {
    if manifests != [] {
      var rest := manifests[1..];
      DecryptPerManifest(rest, existing);
      DecryptFlagsAppend(LaunchOne(manifests[0], existing), Launch(rest, existing));
    }
  }

  /** The only decrypt one manifest can issue is of its own `.env.enc`, and it
      is issued when that file exists. */
  lemma DecryptOfOne(manifest: string, existing: set<string>)
    ensures var dir := ComposeDir(manifest);
      && (forall a :: a in LaunchOne(manifest, existing) && a.Decrypt? ==>
            a == Decrypt(EncryptedEnv(dir), PlainEnv(dir)) && EncryptedEnv(dir) in existing)
      && (EncryptedEnv(dir) in existing ==>
            Decrypt(EncryptedEnv(dir), PlainEnv(dir)) in LaunchOne(manifest, existing))
  {
  }

  /** The decrypt facts for a launch, from those for its first manifest
      (`head`) and those for the rest (`tail`). */
  lemma DecryptsOfParts(manifests: seq<string>, existing: set<string>, head: seq<Action>, tail: seq<Action>)
    requires manifests != []
    requires var dir := ComposeDir(manifests[0]);
      && (forall a :: a in head && a.Decrypt? ==>
            a == Decrypt(EncryptedEnv(dir), PlainEnv(dir)) && EncryptedEnv(dir) in existing)
      && (EncryptedEnv(dir) in existing ==> Decrypt(EncryptedEnv(dir), PlainEnv(dir)) in head)
    requires var rest := manifests[1..];
      && (forall a :: a in tail && a.Decrypt? ==>
            a.encrypted in existing && exists i :: 0 <= i < |rest| && a.encrypted == EncryptedEnv(ComposeDir(rest[i])))
      && (forall i :: 0 <= i < |rest| && EncryptedEnv(ComposeDir(rest[i])) in existing ==>
            Decrypt(EncryptedEnv(ComposeDir(rest[i])), PlainEnv(ComposeDir(rest[i]))) in tail)
    ensures forall a :: a in head + tail && a.Decrypt? ==>
      a.encrypted in existing && exists i :: 0 <= i < |manifests| && a.encrypted == EncryptedEnv(ComposeDir(manifests[i]))
    ensures forall i :: 0 <= i < |manifests| && EncryptedEnv(ComposeDir(manifests[i])) in existing ==>
      Decrypt(EncryptedEnv(ComposeDir(manifests[i])), PlainEnv(ComposeDir(manifests[i]))) in head + tail
  {
    var rest := manifests[1..];
    forall a: Action | a in head + tail && a.Decrypt?
      ensures a.encrypted in existing
      ensures exists i :: 0 <= i < |manifests| && a.encrypted == EncryptedEnv(ComposeDir(manifests[i]))
    {
      if a in head {
        assert a.encrypted == EncryptedEnv(ComposeDir(manifests[0]));
      } else {
        var i :| 0 <= i < |rest| && a.encrypted == EncryptedEnv(ComposeDir(rest[i]));
        assert rest[i] == manifests[i + 1];
      }
    }
    forall i | 0 <= i < |manifests| && EncryptedEnv(ComposeDir(manifests[i])) in existing
      ensures Decrypt(EncryptedEnv(ComposeDir(manifests[i])), PlainEnv(ComposeDir(manifests[i]))) in head + tail
    {
      if i > 0 {
        assert manifests[i] == rest[i - 1];
      }
    }
  }

  /** A decryption is issued exactly for the manifests whose directory holds
      a `.env.enc`: every decrypt reads an existing `.env.enc` of some
      manifest's directory, every such file is decrypted, and the i-th
      compose-up is directly preceded by a decrypt exactly when the i-th
      manifest's directory holds one. */
  lemma {:induction false} DecryptOnlyWhenEncrypted(manifests: seq<string>, existing: set<string>)
    ensures DecryptFlags(Launch(manifests, existing)) == EncryptedFlags(manifests, existing)
    ensures forall a :: a in Launch(manifests, existing) && a.Decrypt? ==>
      a.encrypted in existing && exists i :: 0 <= i < |manifests| && a.encrypted == EncryptedEnv(ComposeDir(manifests[i]))
    ensures forall i :: 0 <= i < |manifests| && EncryptedEnv(ComposeDir(manifests[i])) in existing ==>
      Decrypt(EncryptedEnv(ComposeDir(manifests[i])), PlainEnv(ComposeDir(manifests[i]))) in Launch(manifests, existing)
    decreases |manifests|
  {
    DecryptPerManifest(manifests, existing);
    if manifests != [] {
      var rest := manifests[1..];
      var head, tail := LaunchOne(manifests[0], existing), Launch(rest, existing);
      DecryptOnlyWhenEncrypted(rest, existing);
      DecryptOfOne(manifests[0], existing);
      DecryptsOfParts(manifests, existing, head, tail);
      assert Launch(manifests, existing) == head + tail;
    }
  }
}
