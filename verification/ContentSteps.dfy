/** lib/content_store.py: what a deduplication or a restore may have done when it stops after any one of its
    file-system calls.  ContentStoreOps.dfy shows that every recorded tree is one of these, and
    ContentRuns.dfy starts whole runs from them. */
module ContentSteps {
  import opened Hashing
  import opened FileTree
  import opened ContentStore

  /* ---------------------------------------------------------------- deduplication */

  /** An artifact as it was, or a link to the blob of its bytes. */
  ghost predicate SameOrLinked(hash: Hash, fs: Tree, now: Tree, p: Path)
    requires p in fs
  {
    && p in now
    && (now[p] == fs[p] || (fs[p].File? && now[p] == Link(Blob(hash(fs[p].bytes))) && Blob(hash(fs[p].bytes)) in now))
  }

  /** Blobs are kept, artifacts are as they were or linked, and besides them there is at most the artifact
      directory's temporary file. */
  ghost predicate DedupingWith(hash: Hash, fs: Tree, tmp: Option<string>, now: Tree) {
    && Sound(hash, now)
    && (forall n | Blob(n) in fs :: Blob(n) in now && now[Blob(n)] == fs[Blob(n)])
    && (forall r | Artifact(r) in fs :: SameOrLinked(hash, fs, now, Artifact(r)))
    && (forall r | Artifact(r) in now && tmp != Some(r) :: Artifact(r) in fs)
  }

  ghost predicate Deduping(hash: Hash, fs: Tree, now: Tree) {
    exists tmp :: DedupingWith(hash, fs, tmp, now)
  }

  lemma {:induction false} DedupingTransitive(hash: Hash, a: Tree, b: Tree, tmp: Option<string>, c: Tree)
    requires DedupingWith(hash, a, None, b) && DedupingWith(hash, b, tmp, c)
    ensures DedupingWith(hash, a, tmp, c)
  {
    forall r | Artifact(r) in a ensures SameOrLinked(hash, a, c, Artifact(r)) {
      assert SameOrLinked(hash, a, b, Artifact(r)) && SameOrLinked(hash, b, c, Artifact(r));
    }
  }

  /** All trees from position `from` on, seen from a start. */
  ghost predicate DedupingSince(hash: Hash, start: Tree, trace: seq<Tree>, from: nat) {
    forall i | from <= i < |trace| :: Deduping(hash, start, trace[i])
  }

  lemma {:induction false} DedupingExtends(hash: Hash, start: Tree, mid: Tree, trace: seq<Tree>, from: nat, k: nat)
    requires from <= k <= |trace| && DedupingWith(hash, start, None, mid)
    requires forall i | from <= i < k :: Deduping(hash, start, trace[i])
    requires DedupingSince(hash, mid, trace, k)
    ensures DedupingSince(hash, start, trace, from)
  {
    forall i | k <= i < |trace| ensures Deduping(hash, start, trace[i]) {
      var tmp :| DedupingWith(hash, mid, tmp, trace[i]);
      DedupingTransitive(hash, start, mid, tmp, trace[i]);
    }
  }

  /** A store in progress, and a finished first pass, leave the artifacts alone. */
  lemma {:induction false} StoringIsDeduping(hash: Hash, fs: Tree, now: Tree)
    requires Sound(hash, fs) && Sound(hash, now)
    requires forall n | Blob(n) in fs :: Blob(n) in now && now[Blob(n)] == fs[Blob(n)]
    requires forall r :: (Artifact(r) in fs <==> Artifact(r) in now) && (Artifact(r) in fs ==> now[Artifact(r)] == fs[Artifact(r)])
    ensures DedupingWith(hash, fs, None, now)
  {
  }

  /** The three calls of a store: an empty temporary file, the full one, the rename. */
  lemma {:induction false} StoreCallsAreDeduping(hash: Hash, fs: Tree, content: Bytes)
    requires Sound(hash, fs)
    ensures var t := Temp(hash(content));
            && DedupingWith(hash, fs, None, fs[t := File([])]) && DedupingWith(hash, fs, None, fs[t := File(content)])
            && DedupingWith(hash, fs, None, AfterStore(hash, fs, content))
  {
    StoreKeepsSound(hash, fs, content);
    BlobReads(hash, fs, hash(content));
  }

  /** The four calls of a replacement. */
  lemma {:induction false} LinkCallsAreDeduping(hash: Hash, fs: Tree, rel: string, tmp: string)
    requires Sound(hash, fs) && IsRegular(fs, rel) && Blob(hash(BytesAt(fs, rel))) in fs && Artifact(tmp) !in fs
    ensures var (t, link) := (Artifact(tmp), Link(Blob(hash(BytesAt(fs, rel)))));
            && Deduping(hash, fs, fs[t := File([])]) && Deduping(hash, fs, fs) && Deduping(hash, fs, fs[t := link])
            && Deduping(hash, fs, fs[Artifact(rel) := link])
  {
    var (t, link) := (Artifact(tmp), Link(Blob(hash(BytesAt(fs, rel)))));
    assert DedupingWith(hash, fs, Some(tmp), fs[t := File([])]);
    assert DedupingWith(hash, fs, None, fs);
    assert DedupingWith(hash, fs, Some(tmp), fs[t := link]);
    assert DedupingWith(hash, fs, None, fs[Artifact(rel) := link]);
  }

  lemma {:induction false} StoresAreDeduping(hash: Hash, fs: Tree, rels: seq<string>)
    requires Sound(hash, fs) && AllRegular(fs, rels)
    ensures DedupingWith(hash, fs, None, AfterStores(hash, fs, rels))
  {
    StoresLeaveBlobs(hash, fs, rels);
    StoringIsDeduping(hash, fs, AfterStores(hash, fs, rels));
  }

  lemma {:induction false} LinksAreDeduping(hash: Hash, fs: Tree, rels: seq<string>)
    requires Sound(hash, fs) && AllRegular(fs, rels)
    requires forall r | r in rels :: Blob(hash(BytesAt(fs, r))) in fs
    ensures DedupingWith(hash, fs, None, AfterLinks(hash, fs, rels))
  {
    var now := AfterLinks(hash, fs, rels);
    LinksAt(hash, fs, rels);
    forall r | Artifact(r) in fs ensures SameOrLinked(hash, fs, now, Artifact(r)) {
      if r in rels {
        assert IsRegular(fs, r);
      }
    }
  }

  /* ---------------------------------------------------------------- restoring */

  /** The copy a restore makes of what a link leads to. */
  ghost predicate CopyOf(fs: Tree, r: string, n: Node) {
    Restorable(fs, r) && Exists(fs, Artifact(r)) && n == File(Read(fs, Artifact(r)).value)
  }

  /** Nothing but artifacts changes; each is as it was or the copy of what it led to, except that the one
      named by `gap` is missing and its copy is under the temporary name. */
  ghost predicate RestoringWith(hash: Hash, fs: Tree, tmp: Option<string>, gap: Option<string>, now: Tree) {
    && Sound(hash, now)
    && (forall p: Path | !p.Artifact? :: (p in fs <==> p in now) && (p in fs ==> now[p] == fs[p]))
    && (forall r | Artifact(r) in now && tmp != Some(r) :: Artifact(r) in fs)
    && (forall r | Artifact(r) in fs && gap != Some(r) ::
          Artifact(r) in now && (now[Artifact(r)] == fs[Artifact(r)] || CopyOf(fs, r, now[Artifact(r)])))
    && (gap.Some? ==>
          && Artifact(gap.value) in fs && Artifact(gap.value) !in now
          && tmp.Some? && Artifact(tmp.value) in now && CopyOf(fs, gap.value, now[Artifact(tmp.value)]))
  }

  ghost predicate Restoring(hash: Hash, fs: Tree, now: Tree) {
    exists tmp, gap :: RestoringWith(hash, fs, tmp, gap, now)
  }

  /** A link that can still be restored led to the same file from the start: what was restored before it is no
      link any more. */
  lemma {:induction false} CopyFromStart(hash: Hash, a: Tree, b: Tree, r: string, n: Node)
    requires RestoringWith(hash, a, None, None, b) && Artifact(r) in a && CopyOf(b, r, n)
    ensures CopyOf(a, r, n)
  {
    var p := Artifact(r);
    ResolveFindsFile(b, p, {});
    var q := Resolve(b, p, {}).value;
    assert LinksKept(b, a) by {
      forall x: Path | x in b && b[x].Link? ensures x in a && a[x] == b[x] {
        if x.Artifact? { assert Artifact(x.rel) in a; }
      }
    }
    ResolveWithLinksKept(b, a, p, {});
  }

  lemma {:induction false} RestoringTransitive(hash: Hash, a: Tree, b: Tree, tmp: Option<string>, gap: Option<string>, c: Tree)
    requires RestoringWith(hash, a, None, None, b) && RestoringWith(hash, b, tmp, gap, c)
    ensures RestoringWith(hash, a, tmp, gap, c)
  {
    forall r | Artifact(r) in a && gap != Some(r)
      ensures Artifact(r) in c && (c[Artifact(r)] == a[Artifact(r)] || CopyOf(a, r, c[Artifact(r)]))
    {
      assert Artifact(r) in b;
      if c[Artifact(r)] != b[Artifact(r)] {
        CopyFromStart(hash, a, b, r, c[Artifact(r)]);
      }
    }
    if gap.Some? {
      CopyFromStart(hash, a, b, gap.value, c[Artifact(tmp.value)]);
    }
  }

  ghost predicate RestoringSince(hash: Hash, start: Tree, trace: seq<Tree>, from: nat) {
    forall i | from <= i < |trace| :: Restoring(hash, start, trace[i])
  }

  lemma {:induction false} RestoringExtends(hash: Hash, start: Tree, mid: Tree, trace: seq<Tree>, from: nat, k: nat)
    requires from <= k <= |trace| && RestoringWith(hash, start, None, None, mid)
    requires forall i | from <= i < k :: Restoring(hash, start, trace[i])
    requires RestoringSince(hash, mid, trace, k)
    ensures RestoringSince(hash, start, trace, from)
  {
    forall i | k <= i < |trace| ensures Restoring(hash, start, trace[i]) {
      var tmp, gap :| RestoringWith(hash, mid, tmp, gap, trace[i]);
      RestoringTransitive(hash, start, mid, tmp, gap, trace[i]);
    }
  }

  lemma {:induction false} OneRestoreIsRestoring(hash: Hash, fs: Tree, rel: string)
    requires Sound(hash, fs)
    ensures RestoringWith(hash, fs, None, None, AfterRestoreOne(fs, rel))
  {
  }

  lemma {:induction false} RestoreIsRestoring(hash: Hash, fs: Tree, walk: seq<string>)
    requires Sound(hash, fs)
    ensures RestoringWith(hash, fs, None, None, AfterRestore(fs, walk))
  {
    if walk != [] {
      var (front, last) := (walk[..|walk| - 1], walk[|walk| - 1]);
      RestoreIsRestoring(hash, fs, front);
      OneRestoreIsRestoring(hash, AfterRestore(fs, front), last);
      RestoringTransitive(hash, fs, AfterRestore(fs, front), None, None, AfterRestore(fs, walk));
    }
  }

  /** The four calls of one restored link. */
  lemma {:induction false} RestoreCallsAreRestoring(hash: Hash, fs: Tree, rel: string, tmp: string)
    requires Sound(hash, fs) && Restorable(fs, rel) && Artifact(tmp) !in fs
    ensures Exists(fs, Artifact(rel))
    ensures var (p, t, copy) := (Artifact(rel), Artifact(tmp), File(Read(fs, Artifact(rel)).value));
            && Restoring(hash, fs, fs[t := File([])]) && Restoring(hash, fs, fs[t := copy])
            && Restoring(hash, fs, fs[t := copy] - {p}) && Restoring(hash, fs, fs[p := copy])
  {
    var (p, t, copy) := (Artifact(rel), Artifact(tmp), File(Read(fs, Artifact(rel)).value));
    assert CopyOf(fs, rel, copy);
    assert RestoringWith(hash, fs, Some(tmp), None, fs[t := File([])]);
    assert RestoringWith(hash, fs, Some(tmp), None, fs[t := copy]);
    assert RestoringWith(hash, fs, Some(tmp), Some(rel), fs[t := copy] - {p});
    assert RestoringWith(hash, fs, None, None, fs[p := copy]);
  }

  /* ---------------------------------------------------------------- what can be read in the gap */

  /** `rel` is missing, but its copy is there: once it is moved into place every path reads as at the start. */
  ghost predicate InGap(start: Tree, now: Tree, rel: string, tmp: string) {
    var (p, t) := (Artifact(rel), Artifact(tmp));
    && p !in now && t in now && now[t].File?
    && ReadsPreserved(start, now[p := now[t]])
  }

  /** Reading during a restore: as at the start, or in the gap of one of the links walked. */
  ghost predicate ReadsOrGap(start: Tree, now: Tree, walk: seq<string>) {
    ReadsPreserved(start, now) || exists rel, tmp :: rel in walk && InGap(start, now, rel, tmp)
  }

  ghost predicate ReadsOrGapSince(start: Tree, trace: seq<Tree>, from: nat, walk: seq<string>) {
    forall i | from <= i < |trace| :: ReadsOrGap(start, trace[i], walk)
  }

  /** The third call of a restored link is such a gap. */
  lemma {:induction false} UnlinkOpensGap(fs: Tree, rel: string, tmp: string)
    requires Restorable(fs, rel) && Artifact(tmp) !in fs
    ensures Exists(fs, Artifact(rel))
    ensures InGap(fs, fs[Artifact(tmp) := File(Read(fs, Artifact(rel)).value)] - {Artifact(rel)}, rel, tmp)
  {
    var (p, t, copy) := (Artifact(rel), Artifact(tmp), File(Read(fs, Artifact(rel)).value));
    var now := fs[t := copy] - {p};
    CopyingPreservesReads(fs, p);
    NewPathUnnoticed(fs[p := copy], t, copy);
    assert now[p := now[t]] == fs[p := copy][t := copy];
    ReadsPreservedTransitive(fs, fs[p := copy], now[p := now[t]]);
  }

  /** In the gap only the paths that lead to the missing one are affected, and their bytes are those under the
      temporary name. */
  lemma {:induction false} GapReads(start: Tree, now: Tree, rel: string, tmp: string, q: Path)
    requires InGap(start, now, rel, tmp) && Readable(start, q)
    ensures var (p, t) := (Artifact(rel), Artifact(tmp));
            if Resolve(now[p := now[t]], q, {}) == Some(p) then Read(start, q) == Some(now[t].bytes)
            else Readable(now, q) && Read(now, q) == Read(start, q)
  {
    var (p, t) := (Artifact(rel), Artifact(tmp));
    var mended := now[p := now[t]];
    assert Readable(mended, q) && Read(mended, q) == Read(start, q);
    ResolveFindsFile(mended, q, {});
    if Resolve(mended, q, {}) != Some(p) {
      ResolveWithLinksKept(mended, now, q, {});
    }
  }

  lemma {:induction false} GapExtends(start: Tree, mid: Tree, now: Tree, rel: string, tmp: string)
    requires ReadsPreserved(start, mid) && InGap(mid, now, rel, tmp)
    ensures InGap(start, now, rel, tmp)
  {
    ReadsPreservedTransitive(start, mid, now[Artifact(rel) := now[Artifact(tmp)]]);
  }

  /** One turn of the walk further. */
  lemma {:induction false} ReadsOrGapExtends(start: Tree, mid: Tree, trace: seq<Tree>, from: nat, k: nat, walk: seq<string>, rel: string)
    requires from <= k <= |trace| && ReadsPreserved(start, mid) && rel in walk
    requires forall i | from <= i < k :: ReadsOrGap(start, trace[i], walk)
    requires ReadsOrGapSince(mid, trace, k, [rel])
    ensures ReadsOrGapSince(start, trace, from, walk)
  {
    forall i | k <= i < |trace| ensures ReadsOrGap(start, trace[i], walk) {
      if ReadsPreserved(mid, trace[i]) {
        ReadsPreservedTransitive(start, mid, trace[i]);
      } else {
        var r, tmp :| r in [rel] && InGap(mid, trace[i], r, tmp);
        GapExtends(start, mid, trace[i], r, tmp);
      }
    }
  }

  /** The trees a restored link leaves one after the other. */
  function RestoreTrees(fs: Tree, rel: string, tmp: string): seq<Tree>
    requires Exists(fs, Artifact(rel))
  {
    var (p, t, copy) := (Artifact(rel), Artifact(tmp), File(Read(fs, Artifact(rel)).value));
    [fs[t := File([])], fs[t := copy], fs[t := copy] - {p}, fs[p := copy]]
  }

  lemma {:induction false} RestoreTreesRead(hash: Hash, fs: Tree, rel: string, tmp: string)
    requires Sound(hash, fs) && Restorable(fs, rel) && Artifact(tmp) !in fs
    ensures Exists(fs, Artifact(rel))
    ensures var trees := RestoreTrees(fs, rel, tmp);
            && InGap(fs, trees[2], rel, tmp)
            && ReadsPreserved(fs, trees[0]) && ReadsPreserved(fs, trees[1]) && ReadsPreserved(fs, trees[3])
  {
    var (p, t, copy) := (Artifact(rel), Artifact(tmp), File(Read(fs, Artifact(rel)).value));
    UnlinkOpensGap(fs, rel, tmp);
    CopyingPreservesReads(fs, p);
    NewPathUnnoticed(fs, t, File([]));
    NewPathUnnoticed(fs, t, copy);
  }

  lemma {:induction false} FourSince(hash: Hash, fs: Tree, rel: string, tmp: string, before: seq<Tree>, trees: seq<Tree>, trace: seq<Tree>)
    requires |trees| == 4 && trace == before + trees
    requires forall j | 0 <= j < 4 :: Restoring(hash, fs, trees[j]) && (j != 2 ==> ReadsPreserved(fs, trees[j]))
    requires InGap(fs, trees[2], rel, tmp)
    ensures RestoringSince(hash, fs, trace, |before|) && ReadsOrGapSince(fs, trace, |before|, [rel])
    ensures InGap(fs, trace[|before| + 2], rel, tmp)
    ensures forall i | |before| <= i < |trace| && i != |before| + 2 :: ReadsPreserved(fs, trace[i])
  {
    assert rel in [rel];
    forall i | |before| <= i < |trace| ensures trace[i] == trees[i - |before|] {}
  }

  lemma {:induction false} RestoreTreesSince(hash: Hash, fs: Tree, rel: string, tmp: string, before: seq<Tree>, trace: seq<Tree>)
    requires Sound(hash, fs) && Restorable(fs, rel) && Artifact(tmp) !in fs
    requires Exists(fs, Artifact(rel)) && trace == before + RestoreTrees(fs, rel, tmp)
    ensures RestoringSince(hash, fs, trace, |before|) && ReadsOrGapSince(fs, trace, |before|, [rel])
    ensures InGap(fs, trace[|before| + 2], rel, tmp)
    ensures forall i | |before| <= i < |trace| && i != |before| + 2 :: ReadsPreserved(fs, trace[i])
  {
    RestoreTreesRead(hash, fs, rel, tmp);
    RestoreCallsAreRestoring(hash, fs, rel, tmp);
    FourSince(hash, fs, rel, tmp, before, RestoreTrees(fs, rel, tmp), trace);
  }

  lemma {:induction false} RestoringIsSound(hash: Hash, start: Tree, trace: seq<Tree>, from: nat)
    requires RestoringSince(hash, start, trace, from)
    ensures forall i | from <= i < |trace| :: Sound(hash, trace[i])
  {
    forall i | from <= i < |trace| ensures Sound(hash, trace[i]) {
      var tmp, gap :| RestoringWith(hash, start, tmp, gap, trace[i]);
    }
  }

  lemma {:induction false} TurnExtends(hash: Hash, start: Tree, now: Tree, trace: seq<Tree>, from: nat, k: nat, walk: seq<string>, i: nat)
    requires Sound(hash, start) && i < |walk| && from <= k <= |trace|
    requires var mid := AfterRestore(start, walk[..i]);
             && ReadsPreserved(start, mid) && ReadsPreserved(mid, now)
             && RestoringSince(hash, mid, trace, k) && ReadsOrGapSince(mid, trace, k, [walk[i]])
    requires forall j | from <= j < k :: Restoring(hash, start, trace[j]) && ReadsOrGap(start, trace[j], walk)
    ensures ReadsPreserved(start, now) && RestoringSince(hash, start, trace, from) && ReadsOrGapSince(start, trace, from, walk)
  {
    var mid := AfterRestore(start, walk[..i]);
    RestoreIsRestoring(hash, start, walk[..i]);
    ReadsPreservedTransitive(start, mid, now);
    RestoringExtends(hash, start, mid, trace, from, k);
    ReadsOrGapExtends(start, mid, trace, from, k, walk, walk[i]);
  }
}
