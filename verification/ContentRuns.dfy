/** lib/content_store.py over whole runs: any sequence of stores, deletions, deduplications and restores,
    each of which may stop after any of its file-system calls. */
module ContentRuns {
  import opened Hashing
  import opened FileTree
  import opened ContentStore
  import opened ContentSteps

  /** `Interrupted` is a store that crashed before its rename and left its temporary file behind.  The two
      `Stopped` operations carry the tree they left: any of those that `Deduplicate` and `Restore` record,
      with the name of the temporary artifact and, for a restore, of the path that is missing.
      `RestoreFailed` is the restore of one link whose rename raises: the temporary copy is unlinked then, after
      the link has been. */
  datatype Op =
    | Store(content: Bytes)
    | Interrupted(name: string, partial: Bytes)
    | Delete(name: string)
    | Dedupe(pat: Patterns, walk1: seq<string>, walk2: seq<string>)
    | Restore(walk: seq<string>)
    | DedupeStopped(tmp: Option<string>, left: Tree)
    | RestoreStopped(tmp: Option<string>, gap: Option<string>, left: Tree)
    | RestoreFailed(rel: string)

  /** A stopped operation can have left its tree. */
  ghost predicate Possible(hash: Hash, fs: Tree, op: Op) {
    match op
    case DedupeStopped(tmp, left) => DedupingWith(hash, fs, tmp, left)
    case RestoreStopped(tmp, gap, left) => RestoringWith(hash, fs, tmp, gap, left)
    case _ => true
  }

  /** Whatever the walks are, deduplication keeps the store sound and every blob as it was. */
  lemma {:induction false} DedupeKeepsBlobs(hash: Hash, fs: Tree, pat: Patterns, walk1: seq<string>, walk2: seq<string>)
    requires Sound(hash, fs)
    ensures var fs' := AfterDedupe(hash, fs, pat, walk1, walk2);
            && Sound(hash, fs')
            && (forall n | Blob(n) in fs :: Blob(n) in fs' && fs'[Blob(n)] == fs[Blob(n)])
  {
    StoresLeaveBlobs(hash, fs, Scan(fs, pat, walk1));
    var mid := AfterStores(hash, fs, Scan(fs, pat, walk1));
    LinksAt(hash, mid, Scan(mid, pat, walk2));
  }

  lemma {:induction false} RestoreKeepsBlobs(fs: Tree, walk: seq<string>)
    ensures var fs' := AfterRestore(fs, walk); forall p: Path | p in fs && !p.Artifact? :: fs'[p] == fs[p]
  {
    if walk != [] {
      RestoreKeepsBlobs(fs, walk[..|walk| - 1]);
    }
  }

  ghost function Apply(hash: Hash, fs: Tree, op: Op): (r: Tree)
    requires Sound(hash, fs)
    ensures Sound(hash, r)
  {
    match op
    case Store(content) => StoreKeepsSound(hash, fs, content); AfterStore(hash, fs, content)
    case Interrupted(name, partial) => fs[Temp(name) := File(partial)]
    case Delete(name) => fs - {Blob(name)}
    case Dedupe(pat, walk1, walk2) => DedupeKeepsBlobs(hash, fs, pat, walk1, walk2); AfterDedupe(hash, fs, pat, walk1, walk2)
    case Restore(walk) => RestoreKeepsBlobs(fs, walk); AfterRestore(fs, walk)
    case DedupeStopped(_, left) => if Possible(hash, fs, op) then left else fs
    case RestoreStopped(_, _, left) => if Possible(hash, fs, op) then left else fs
    case RestoreFailed(rel) => if Restorable(fs, rel) then fs - {Artifact(rel)} else fs
  }

  /** The tree after a run.  It is sound: in every reachable state a blob's bytes hash to its name. */
  ghost function After(hash: Hash, fs: Tree, ops: seq<Op>): (r: Tree)
    requires Sound(hash, fs)
    ensures Sound(hash, r)
  {
    if ops == [] then fs else Apply(hash, After(hash, fs, ops[..|ops| - 1]), ops[|ops| - 1])
  }

  lemma {:induction false} ApplyKeepsBlob(hash: Hash, fs: Tree, op: Op, n: string)
    requires Sound(hash, fs) && Blob(n) in fs && op != Delete(n)
    ensures var r := Apply(hash, fs, op); Blob(n) in r && r[Blob(n)] == fs[Blob(n)]
  {
    match op
    case Store(content) => BlobReads(hash, fs, n);
    case Dedupe(pat, walk1, walk2) => DedupeKeepsBlobs(hash, fs, pat, walk1, walk2);
    case Restore(walk) => RestoreKeepsBlobs(fs, walk);
    case _ =>
  }

  /** No run alters a blob it does not delete. */
  lemma {:induction false} BlobSurvivesRun(hash: Hash, fs: Tree, ops: seq<Op>, n: string)
    requires Sound(hash, fs) && Blob(n) in fs && Delete(n) !in ops
    ensures var r := After(hash, fs, ops); Blob(n) in r && r[Blob(n)] == fs[Blob(n)]
  {
    if ops != [] {
      var (front, last) := (ops[..|ops| - 1], ops[|ops| - 1]);
      assert ops == front + [last] && last in ops;
      BlobSurvivesRun(hash, fs, front, n);
      ApplyKeepsBlob(hash, After(hash, fs, front), last, n);
    }
  }

  /** Whatever is stored is what is retrieved under its hash in every later state, until it is deleted. */
  lemma {:induction false} StoredIsRetrievedLater(hash: Hash, fs: Tree, content: Bytes, ops: seq<Op>)
    requires Sound(hash, fs) && Delete(hash(content)) !in ops
    requires NoCollision(hash, {content} + Contents(fs))
    ensures Sound(hash, AfterStore(hash, fs, content))
    ensures Retrieve(After(hash, AfterStore(hash, fs, content), ops), hash(content)) == Some(content)
  {
    var (n, stored) := (hash(content), AfterStore(hash, fs, content));
    StoreKeepsSound(hash, fs, content);
    RetrieveAfterStore(hash, fs, content);
    BlobReads(hash, stored, n);
    BlobSurvivesRun(hash, stored, ops, n);
    BlobReads(hash, After(hash, stored, ops), n);
  }

  /* ---------------------------------------------------------------- one artifact through a run */

  /** The artifact holds these bytes, itself or through a link to their blob, which holds them too. */
  ghost predicate Held(hash: Hash, fs: Tree, rel: string, bytes: Bytes) {
    var (p, b) := (Artifact(rel), Blob(hash(bytes)));
    && b in fs && fs[b] == File(bytes)
    && p in fs && (fs[p] == File(bytes) || fs[p] == Link(b))
  }

  lemma {:induction false} HeldReads(hash: Hash, fs: Tree, rel: string, bytes: Bytes)
    requires Held(hash, fs, rel, bytes)
    ensures Read(fs, Artifact(rel)) == Some(bytes)
  {
    var (p, b) := (Artifact(rel), Blob(hash(bytes)));
    assert Resolve(fs, b, {} + {p}) == Some(b);
  }

  lemma {:induction false} DedupeKeepsHeld(hash: Hash, fs: Tree, pat: Patterns, walk1: seq<string>, walk2: seq<string>, rel: string, bytes: Bytes)
    requires Sound(hash, fs) && Held(hash, fs, rel, bytes)
    ensures Held(hash, AfterDedupe(hash, fs, pat, walk1, walk2), rel, bytes)
  {
    DedupeKeepsBlobs(hash, fs, pat, walk1, walk2);
    StoresLeaveBlobs(hash, fs, Scan(fs, pat, walk1));
    var mid := AfterStores(hash, fs, Scan(fs, pat, walk1));
    var rels := Scan(mid, pat, walk2);
    LinksAt(hash, mid, rels);
    if rel in rels {
      assert IsRegular(mid, rel) && BytesAt(mid, rel) == bytes;
    }
  }

  /** Restoring turns the link into a file when its turn comes. */
  lemma {:induction false} RestoreKeepsHeld(hash: Hash, fs: Tree, walk: seq<string>, rel: string, bytes: Bytes)
    requires Held(hash, fs, rel, bytes)
    ensures Held(hash, AfterRestore(fs, walk), rel, bytes)
    ensures rel in walk ==> AfterRestore(fs, walk)[Artifact(rel)] == File(bytes)
  {
    if walk != [] {
      var (front, last) := (walk[..|walk| - 1], walk[|walk| - 1]);
      assert walk == front + [last];
      RestoreKeepsHeld(hash, fs, front, rel, bytes);
      var (mid, p, b) := (AfterRestore(fs, front), Artifact(rel), Blob(hash(bytes)));
      HeldReads(hash, mid, rel, bytes);
      if last == rel && mid[p].Link? {
        assert Resolve(mid, b, {} + {p}) == Some(b);
        assert Resolve(mid, p, {}) == Some(b);
      }
    }
  }

  /** A restore that stopped between the unlink and the rename of this artifact. */
  ghost predicate StopsInGap(hash: Hash, fs: Tree, op: Op, rel: string) {
    op.RestoreStopped? && op.gap == Some(rel) && Possible(hash, fs, op)
  }

  /** A restore of this artifact whose rename raises. */
  predicate FailsToRename(fs: Tree, op: Op, rel: string) {
    op == RestoreFailed(rel) && Restorable(fs, rel)
  }

  /** The two ways an artifact can go missing. */
  ghost predicate Drops(hash: Hash, fs: Tree, op: Op, rel: string) {
    StopsInGap(hash, fs, op, rel) || FailsToRename(fs, op, rel)
  }

  /** They are the only ways to stop holding an artifact.  Its bytes are still in the blob, and after a stop also
      under the temporary name. */
  lemma {:induction false} ApplyKeepsHeld(hash: Hash, fs: Tree, op: Op, rel: string, bytes: Bytes)
    requires Sound(hash, fs) && Held(hash, fs, rel, bytes) && op != Delete(hash(bytes))
    ensures if Drops(hash, fs, op, rel) then Artifact(rel) !in Apply(hash, fs, op) else Held(hash, Apply(hash, fs, op), rel, bytes)
    ensures StopsInGap(hash, fs, op, rel) ==> op.tmp.Some? && Held(hash, Apply(hash, fs, op), op.tmp.value, bytes)
  {
    match op
    case Store(content) => StoreIsIdempotentAndLocal(hash, fs, content); ApplyKeepsBlob(hash, fs, op, hash(bytes));
    case Dedupe(pat, walk1, walk2) => DedupeKeepsHeld(hash, fs, pat, walk1, walk2, rel, bytes);
    case Restore(walk) => RestoreKeepsHeld(hash, fs, walk, rel, bytes);
    case DedupeStopped(tmp, left) =>
      if Possible(hash, fs, op) { assert SameOrLinked(hash, fs, left, Artifact(rel)); }
    case RestoreStopped(tmp, gap, left) =>
      HeldReads(hash, fs, rel, bytes);
    case _ =>
  }

  /** Any link a restore would replace can be lost from sight in this way. */
  lemma {:induction false} RestoreCanStopInGap(hash: Hash, fs: Tree, rel: string, tmp: string)
    requires Sound(hash, fs) && Restorable(fs, rel) && Artifact(tmp) !in fs
    ensures Exists(fs, Artifact(rel))
    ensures StopsInGap(hash, fs, RestoreStopped(Some(tmp), Some(rel), RestoreTrees(fs, rel, tmp)[2]), rel)
  {
    var copy := File(Read(fs, Artifact(rel)).value);
    assert CopyOf(fs, rel, copy);
  }

  lemma {:induction false} ApplyKeepsAbsent(hash: Hash, fs: Tree, op: Op, rel: string)
    requires Sound(hash, fs) && Artifact(rel) !in fs && NotTemporary(op, rel)
    ensures Artifact(rel) !in Apply(hash, fs, op)
  {
    match op
    case Store(content) => StoreIsIdempotentAndLocal(hash, fs, content);
    case Dedupe(pat, walk1, walk2) =>
      StoresLeaveBlobs(hash, fs, Scan(fs, pat, walk1));
      LinksAt(hash, AfterStores(hash, fs, Scan(fs, pat, walk1)), Scan(AfterStores(hash, fs, Scan(fs, pat, walk1)), pat, walk2));
    case _ =>
  }

  /** The operation does not use that name for its temporary file. */
  predicate NotTemporary(op: Op, rel: string) {
    (op.DedupeStopped? || op.RestoreStopped?) ==> op.tmp != Some(rel)
  }

  ghost predicate DropsAt(hash: Hash, fs: Tree, ops: seq<Op>, rel: string, k: nat)
    requires Sound(hash, fs) && k < |ops|
  {
    Drops(hash, After(hash, fs, ops[..k]), ops[k], rel)
  }

  /** Some operation of the run drops this artifact. */
  ghost predicate EverDrops(hash: Hash, fs: Tree, ops: seq<Op>, rel: string)
    requires Sound(hash, fs)
  {
    exists k: nat :: k < |ops| && DropsAt(hash, fs, ops, rel, k)
  }

  lemma {:induction false} DropAtFront(hash: Hash, fs: Tree, front: seq<Op>, last: Op, rel: string, k: nat)
    requires Sound(hash, fs) && k <= |front|
    ensures DropsAt(hash, fs, front + [last], rel, k) <==>
            if k < |front| then DropsAt(hash, fs, front, rel, k) else Drops(hash, After(hash, fs, front), last, rel)
  {
    assert (front + [last])[..k] == front[..k];
    assert front[..|front|] == front;
  }

  lemma {:induction false} EverDropsSnoc(hash: Hash, fs: Tree, front: seq<Op>, last: Op, rel: string)
    requires Sound(hash, fs)
    ensures EverDrops(hash, fs, front + [last], rel) <==> EverDrops(hash, fs, front, rel) || Drops(hash, After(hash, fs, front), last, rel)
  {
    DropAtFront(hash, fs, front, last, rel, |front|);
    forall k: nat | k < |front| ensures DropsAt(hash, fs, front + [last], rel, k) <==> DropsAt(hash, fs, front, rel, k) {
      DropAtFront(hash, fs, front, last, rel, k);
    }
  }

  /** Through any run that does not delete its blob an artifact is held exactly if no restore stopped in its
      gap or failed to rename its copy; otherwise it is gone. */
  lemma {:induction false} RunKeepsHeld(hash: Hash, fs: Tree, ops: seq<Op>, rel: string, bytes: Bytes)
    requires Sound(hash, fs) && Held(hash, fs, rel, bytes) && Delete(hash(bytes)) !in ops
    requires forall k | 0 <= k < |ops| :: NotTemporary(ops[k], rel)
    ensures var later := After(hash, fs, ops);
            if EverDrops(hash, fs, ops, rel) then Artifact(rel) !in later else Held(hash, later, rel, bytes)
  {
    if ops != [] {
      var (front, last) := (ops[..|ops| - 1], ops[|ops| - 1]);
      assert ops == front + [last] && last in ops;
      RunKeepsHeld(hash, fs, front, rel, bytes);
      EverDropsSnoc(hash, fs, front, last, rel);
      var mid := After(hash, fs, front);
      if Artifact(rel) in mid {
        ApplyKeepsHeld(hash, mid, last, rel, bytes);
      } else {
        ApplyKeepsAbsent(hash, mid, last, rel);
      }
    }
  }

  /** Where the run leaves the bytes of an artifact: under the name of the temporary file when a restore stops in
      the gap, and under no name when its rename fails. */
  ghost function Place(hash: Hash, fs: Tree, ops: seq<Op>, rel: string): Option<string>
    requires Sound(hash, fs)
  {
    if ops == [] then Some(rel)
    else
      var (mid, last) := (After(hash, fs, ops[..|ops| - 1]), ops[|ops| - 1]);
      match Place(hash, fs, ops[..|ops| - 1], rel)
      case None => None
      case Some(name) =>
        if FailsToRename(mid, last, name) then None
        else if StopsInGap(hash, mid, last, name) then last.tmp
        else Some(name)
  }

  /** The blob holds the bytes in every case, and the artifact of that name does, original or temporary, if there
      is one.  Only a failing rename leaves none. */
  lemma {:induction false} BytesSurviveRun(hash: Hash, fs: Tree, ops: seq<Op>, rel: string, bytes: Bytes)
    requires Sound(hash, fs) && Held(hash, fs, rel, bytes) && Delete(hash(bytes)) !in ops
    ensures var (later, place) := (After(hash, fs, ops), Place(hash, fs, ops, rel));
            && Blob(hash(bytes)) in later && later[Blob(hash(bytes))] == File(bytes)
            && (place.Some? ==> Held(hash, later, place.value, bytes))
            && ((forall k | 0 <= k < |ops| :: !ops[k].RestoreFailed?) ==> place.Some?)
  {
    BlobSurvivesRun(hash, fs, ops, hash(bytes));
    if ops != [] {
      var (front, last) := (ops[..|ops| - 1], ops[|ops| - 1]);
      assert ops == front + [last] && last in ops;
      BytesSurviveRun(hash, fs, front, rel, bytes);
      var (mid, place) := (After(hash, fs, front), Place(hash, fs, front, rel));
      if place.Some? {
        ApplyKeepsHeld(hash, mid, last, place.value, bytes);
      }
    }
  }

  /** After a deduplication and any run that does not delete its blob, a replaced file reads its original bytes,
      and a restore that walks it makes it that file again, exactly if no restore stopped in its gap or failed to
      rename its copy.  Its bytes are not lost even then: the store has them, and unless a rename failed some
      artifact, the one at `Place`, reads them. */
  lemma {:induction false} ArtifactSurvivesRun(hash: Hash, fs: Tree, pat: Patterns, walk1: seq<string>, walk2: seq<string>, ops: seq<Op>,
                                               rel: string, walk: seq<string>)
    requires Sound(hash, fs) && Walks(fs, walk1) && Walks(fs, walk2) && NoCollision(hash, Contents(fs))
    requires IsRegular(fs, rel) && pat.Select(rel)
    requires Delete(hash(BytesAt(fs, rel))) !in ops && forall k | 0 <= k < |ops| :: NotTemporary(ops[k], rel)
    ensures Sound(hash, AfterDedupe(hash, fs, pat, walk1, walk2))
    ensures var (deduped, bytes) := (AfterDedupe(hash, fs, pat, walk1, walk2), BytesAt(fs, rel));
            var later := After(hash, deduped, ops);
            && (Read(later, Artifact(rel)) == Some(bytes) <==> !EverDrops(hash, deduped, ops, rel))
            && (Artifact(rel) in later && rel in walk ==> AfterRestore(later, walk)[Artifact(rel)] == fs[Artifact(rel)])
            && Retrieve(later, hash(bytes)) == Some(bytes)
            && (forall name | Place(hash, deduped, ops, rel) == Some(name) :: Read(later, Artifact(name)) == Some(bytes))
            && ((forall k | 0 <= k < |ops| :: !ops[k].RestoreFailed?) ==> Place(hash, deduped, ops, rel).Some?)
  {
    DedupeEffect(hash, fs, pat, walk1, walk2);
    var (deduped, bytes) := (AfterDedupe(hash, fs, pat, walk1, walk2), BytesAt(fs, rel));
    assert Held(hash, deduped, rel, bytes);
    var later := After(hash, deduped, ops);
    RunKeepsHeld(hash, deduped, ops, rel, bytes);
    BytesSurviveRun(hash, deduped, ops, rel, bytes);
    forall name | Place(hash, deduped, ops, rel) == Some(name) ensures Read(later, Artifact(name)) == Some(bytes) {
      HeldReads(hash, later, name, bytes);
    }
    BlobSurvivesRun(hash, deduped, ops, hash(bytes));
    BlobReads(hash, later, hash(bytes));
    if Artifact(rel) in later {
      HeldReads(hash, later, rel, bytes);
      RestoreKeepsHeld(hash, later, walk, rel, bytes);
    }
  }
}
