/** lib/content_store.py: the operations of `ContentStore`, one file-system call at a time.

    `trace` records the file tree after every call, so it holds the tree a crash at any point would
    leave behind. */
module ContentStoreOps {
  import opened Hashing
  import opened FileTree
  import opened ContentStore
  import opened ContentSteps

  datatype StoredBlob = StoredBlob(contentHash: string, sizeBytes: nat, path: Path)

  datatype StoreError = InvalidHash | FileNotFound

  datatype DedupeArtifact = DedupeArtifact(originalPath: string, contentHash: string, sizeBytes: nat,
                                           replacedWithSymlink: bool, blobPath: Path)

  datatype DedupeResult = DedupeResult(
    success: bool, artifactsScanned: nat, artifactsDeduplicated: nat, uniqueBlobs: nat, spaceSavedBytes: nat,
    alreadySymlinks: nat, errors: seq<string>, deduplicated: seq<DedupeArtifact>)

  /** The record a run leaves for each listed file. */
  function Record(hash: Hash, fs: Tree, dryRun: bool, rel: string): DedupeArtifact
    requires IsRegular(fs, rel)
  {
    var h := hash(BytesAt(fs, rel));
    DedupeArtifact(rel, h, |BytesAt(fs, rel)|, !dryRun, Blob(h))
  }

  ghost predicate Lists(hash: Hash, fs: Tree, dryRun: bool, rels: seq<string>, r: DedupeResult)
    requires AllRegular(fs, rels)
  {
    && |r.deduplicated| == |rels| == r.artifactsDeduplicated
    && (forall i | 0 <= i < |rels| :: r.deduplicated[i] == Record(hash, fs, dryRun, rels[i]))
    && r.spaceSavedBytes == SumSizes(fs, rels)
  }

  /** What is listed, written out. */
  lemma {:induction false} ListedAre(hash: Hash, fs: Tree, dryRun: bool, rels: seq<string>, r: DedupeResult, i: nat)
    requires AllRegular(fs, rels) && Lists(hash, fs, dryRun, rels, r) && i < |rels| && IsRegular(fs, rels[i])
    ensures var (a, bytes) := (r.deduplicated[i], fs[Artifact(rels[i])].bytes);
            && a.originalPath == rels[i] && a.contentHash == hash(bytes) && a.sizeBytes == |bytes|
            && (a.replacedWithSymlink <==> !dryRun) && a.blobPath == Blob(hash(bytes))
  {
    assert r.deduplicated[i] == Record(hash, fs, dryRun, rels[i]);
  }

  /** What the first pass has gathered from the files listed so far. */
  ghost predicate Tally(hash: Hash, fs: Tree, rels: seq<string>, counts: map<string, nat>, blobs: map<string, StoredBlob>)
    requires AllRegular(fs, rels)
  {
    && (forall h :: HashCount(hash, fs, rels, h) == if h in counts then counts[h] else 0)
    && Located(hash, fs, rels, blobs)
  }

  ghost predicate Located(hash: Hash, fs: Tree, rels: seq<string>, blobs: map<string, StoredBlob>)
    requires AllRegular(fs, rels)
  {
    && blobs.Keys == DistinctHashes(hash, fs, rels)
    && forall h | h in blobs :: blobs[h].contentHash == h && blobs[h].path == Blob(h)
  }

  lemma {:induction false} TallySnoc(hash: Hash, fs: Tree, rels: seq<string>, rel: string, counts: map<string, nat>, blobs: map<string, StoredBlob>, blob: StoredBlob)
    requires AllRegular(fs, rels) && IsRegular(fs, rel) && Tally(hash, fs, rels, counts, blobs)
    requires blob.contentHash == hash(BytesAt(fs, rel)) && blob.path == Blob(blob.contentHash)
    ensures AllRegular(fs, rels + [rel])
    ensures var h := hash(BytesAt(fs, rel));
            Tally(hash, fs, rels + [rel], counts[h := (if h in counts then counts[h] else 0) + 1], if h in blobs then blobs else blobs[h := blob])
  {
    var (h, longer) := (hash(BytesAt(fs, rel)), rels + [rel]);
    assert longer[..|rels|] == rels;
    assert DistinctHashes(hash, fs, longer) == DistinctHashes(hash, fs, rels) + {h};
  }

  /** State of a dry run's second pass once the given files are considered. */
  ghost predicate DryRun(hash: Hash, fs: Tree, scanned: seq<string>, rels: seq<string>, n: nat, saved: nat, listed: seq<DedupeArtifact>)
    requires AllRegular(fs, scanned) && AllRegular(fs, rels)
  {
    var chosen := DryListed(hash, fs, scanned, rels);
    && n == |chosen| == |listed| && saved == SumSizes(fs, chosen)
    && forall j | 0 <= j < |chosen| :: listed[j] == Record(hash, fs, true, chosen[j])
  }

  class Store {
    const hash: Hash
    var fs: Tree
    ghost var trace: seq<Tree>

    ghost predicate Valid()
      reads this
    {
      HexDigests(hash) && Sound(hash, fs)
    }

    /** Every tree recorded since `from` is sound. */
    ghost predicate SoundSince(from: nat)
      reads this
    {
      forall i | from <= i < |trace| :: Sound(hash, trace[i])
    }

    /** In every tree recorded since `from`, what could be read in `start` reads the same. */
    ghost predicate ReadableSince(start: Tree, from: nat)
      reads this
    {
      forall i | from <= i < |trace| :: ReadsPreserved(start, trace[i])
    }

    /** Operations compose: a reader who noticed nothing up to `mid` and nothing after noticed nothing. */
    lemma {:induction false} ReadableSinceExtends(start: Tree, mid: Tree, from: nat, k: nat)
      requires from <= k <= |trace| && ReadsPreserved(start, mid)
      requires forall i | from <= i < k :: ReadsPreserved(start, trace[i])
      requires ReadableSince(mid, k)
      ensures ReadableSince(start, from)
    {
      forall i | k <= i < |trace| ensures ReadsPreserved(start, trace[i]) {
        ReadsPreservedTransitive(start, mid, trace[i]);
      }
    }

    constructor (hash: Hash, fs: Tree)
      ensures this.hash == hash && this.fs == fs && trace == [fs]
    {
      this.hash, this.fs, this.trace := hash, fs, [fs];
    }

    /* One file-system call each. */

    method Put(p: Path, n: Node)
      modifies this
      ensures fs == old(fs)[p := n] && trace == old(trace) + [fs]
    {
      fs := fs[p := n];
      trace := trace + [fs];
    }

    method Unlink(p: Path)
      modifies this
      ensures fs == old(fs) - {p} && trace == old(trace) + [fs]
    {
      fs := fs - {p};
      trace := trace + [fs];
    }

    method Rename(p: Path, q: Path)
      requires p in fs && p != q
      modifies this
      ensures fs == (old(fs) - {p})[q := old(fs)[p]] && trace == old(trace) + [fs]
    {
      fs := (fs - {p})[q := fs[p]];
      trace := trace + [fs];
    }

    /** `_get_blob_path`: anything but a hexadecimal name is refused. */
    function BlobPath(name: string): (r: Result<Path, StoreError>)
      ensures r.Err? <==> !AcceptedName(name)
      ensures r.Ok? ==> r.value == Blob(name) && name != "" && forall i | 0 <= i < |name| :: name[i] !in {'/', '\\', '.'}
    {
      if AcceptedName(name) then AcceptedNameIsSafe(name); Ok(Blob(name)) else Err(InvalidHash)
    }

    /** Temporary file first, then a rename: at no point is there a blob with the wrong bytes. */
    method StoreContent(content: Bytes) returns (r: StoredBlob)
      requires Valid()
      modifies this
      ensures Valid() && fs == AfterStore(hash, old(fs), content)
      ensures r == StoredBlob(hash(content), |content|, Blob(hash(content)))
      ensures old(trace) <= trace && SoundSince(|old(trace)|) && ReadableSince(old(fs), |old(trace)|)
      ensures DedupingSince(hash, old(fs), trace, |old(trace)|)
      ensures Exists(old(fs), Blob(hash(content))) ==> trace == old(trace)
    {
      var h := hash(content);
      r := StoredBlob(h, |content|, Blob(h));
      BlobReads(hash, fs, h);
      StoreKeepsSound(hash, fs, content);
      StorePreservesReads(hash, fs, content);
      if Exists(fs, Blob(h)) {
        return;
      }
      NewPathUnnoticed(fs, Temp(h), File([]));
      NewPathUnnoticed(fs, Temp(h), File(content));
      StoreCallsAreDeduping(hash, fs, content);
      Put(Temp(h), File([]));
      Put(Temp(h), File(content));
      assert fs == old(fs)[Temp(h) := File(content)];
      Rename(Temp(h), Blob(h));
      assert fs == AfterStore(hash, old(fs), content);
    }

    /** `store_file`: hashes the file's bytes, read through links, and copies them; a path that leads to no
        file is an error. */
    method StoreFile(p: Path) returns (r: Result<StoredBlob, StoreError>)
      requires Valid()
      modifies this
      ensures !Exists(old(fs), p) ==> r == Err(FileNotFound) && fs == old(fs) && trace == old(trace)
      ensures Exists(old(fs), p) ==>
                var content := Read(old(fs), p).value;
                && fs == AfterStore(hash, old(fs), content)
                && r == Ok(StoredBlob(hash(content), |content|, Blob(hash(content))))
                && (Exists(old(fs), Blob(hash(content))) ==> trace == old(trace))
      ensures Valid() && old(trace) <= trace && SoundSince(|old(trace)|) && ReadableSince(old(fs), |old(trace)|)
      ensures DedupingSince(hash, old(fs), trace, |old(trace)|)
    {
      if !Exists(fs, p) {
        return Err(FileNotFound);
      }
      var blob := StoreContent(Read(fs, p).value);
      return Ok(blob);
    }

    method HasContent(content: Bytes) returns (found: bool)
      requires Valid()
      ensures found <==> Blob(hash(content)) in fs
      ensures found ==> hash(fs[Blob(hash(content))].bytes) == hash(content)
    {
      found := Exists(fs, Blob(hash(content)));
    }

    /** Exactly the bytes under that name, whose hash the name is; an unknown name is not an error. */
    method RetrieveContent(name: string) returns (r: Result<Option<Bytes>, StoreError>)
      requires Valid()
      ensures r.Err? <==> !AcceptedName(name)
      ensures r.Ok? ==> (r.value.Some? <==> Blob(name) in fs)
      ensures r.Ok? && r.value.Some? ==> r.value == Some(fs[Blob(name)].bytes) && hash(r.value.value) == name
    {
      var p := BlobPath(name);
      if p.Err? {
        return Err(p.error);
      }
      if !Exists(fs, p.value) {
        return Ok(None);
      }
      return Ok(Read(fs, p.value));
    }

    /** True for a present blob whose bytes hash to its name, whether or not the store is sound. */
    method VerifyBlob(name: string) returns (r: Result<bool, StoreError>)
      ensures r.Err? <==> !AcceptedName(name)
      ensures r.Ok? ==> (r.value <==> Retrieve(fs, name).Some? && hash(Retrieve(fs, name).value) == name)
    {
      var p := BlobPath(name);
      if p.Err? {
        return Err(p.error);
      }
      if !Exists(fs, p.value) {
        return Ok(false);
      }
      return Ok(hash(Read(fs, p.value).value) == name);
    }

    method Delete(name: string) returns (r: Result<bool, StoreError>)
      requires Valid()
      modifies this
      ensures Valid()
      ensures r.Err? <==> !AcceptedName(name)
      ensures r.Ok? ==> (r.value <==> Blob(name) in old(fs))
      ensures fs == if r.Ok? then old(fs) - {Blob(name)} else old(fs)
      ensures old(trace) <= trace && forall i | |old(trace)| <= i < |trace| :: trace[i] == fs
    {
      var p := BlobPath(name);
      if p.Err? {
        return Err(p.error);
      }
      if !Exists(fs, p.value) {
        assert fs - {Blob(name)} == fs;
        return Ok(false);
      }
      Unlink(p.value);
      return Ok(true);
    }

    /** Swapping one regular file for a link to its blob: a temporary name, made into a link, renamed
        over the file.  After each of the four calls every path reads as it did before the first. */
    method ReplaceByLink(rel: string, b: string, tmp: string)
      requires Valid() && IsRegular(fs, rel) && b == hash(BytesAt(fs, rel)) && Blob(b) in fs
      requires Artifact(tmp) !in fs
      modifies this
      ensures Valid() && fs == old(fs)[Artifact(rel) := Link(Blob(b))]
      ensures |trace| == |old(trace)| + 4 && old(trace) <= trace && SoundSince(|old(trace)|)
      ensures DedupingSince(hash, old(fs), trace, |old(trace)|)
      ensures old(fs)[Blob(b)] == old(fs)[Artifact(rel)] ==> ReadsPreserved(old(fs), fs) && ReadableSince(old(fs), |old(trace)|)
    {
      var t := Artifact(tmp);
      NewPathUnnoticed(fs, t, File([]));
      NewPathUnnoticed(fs, t, Link(Blob(b)));
      ReadsPreservedReflexive(fs);
      LinkCallsAreDeduping(hash, fs, rel, tmp);
      Put(t, File([]));
      Unlink(t);
      assert fs == old(fs);
      Put(t, Link(Blob(b)));
      if old(fs)[Blob(b)] == old(fs)[Artifact(rel)] {
        LinkingPreservesReads(old(fs), Artifact(rel), Blob(b));
      }
      Rename(t, Artifact(rel));
      assert fs == old(fs)[Artifact(rel) := Link(Blob(b))];
    }

    /** Store a scanned file unless its digest was met before; a dry run only notes where it would go. */
    method StoreScanned(rel: string, dryRun: bool, blobs: map<string, StoredBlob>, ghost fs0: Tree, ghost rels: seq<string>)
      returns (blobs': map<string, StoredBlob>)
      requires HexDigests(hash) && Sound(hash, fs0) && AllRegular(fs0, rels) && IsRegular(fs0, rel)
      requires fs == if dryRun then fs0 else AfterStores(hash, fs0, rels)
      requires blobs.Keys == DistinctHashes(hash, fs0, rels)
      requires Artifact(rel) in fs && fs[Artifact(rel)] == fs0[Artifact(rel)]
      modifies this
      ensures fs == if dryRun then fs0 else AfterStores(hash, fs0, rels + [rel])
      ensures var h := hash(BytesAt(fs0, rel));
              blobs' == if h in blobs then blobs else blobs[h := StoredBlob(h, |BytesAt(fs0, rel)|, Blob(h))]
      ensures old(trace) <= trace && SoundSince(|old(trace)|) && ReadableSince(old(fs), |old(trace)|)
      ensures DedupingSince(hash, old(fs), trace, |old(trace)|)
      ensures dryRun ==> trace == old(trace)
    {
      RepeatedStoreIsIdle(hash, fs0, rels, rel);
      var content := fs[Artifact(rel)].bytes;
      var h := hash(content);
      if h in blobs {
        return blobs;
      }
      if dryRun {
        return blobs[h := StoredBlob(h, |content|, Blob(h))];
      }
      var blob := StoreFile(Artifact(rel));
      return blobs[h := blob.value];
    }

    /** The first pass at one regular file. */
    method ScanRegular(rel: string, dryRun: bool, counts: map<string, nat>, blobs: map<string, StoredBlob>, ghost fs0: Tree, ghost rels: seq<string>)
      returns (counts': map<string, nat>, blobs': map<string, StoredBlob>)
      requires HexDigests(hash) && Sound(hash, fs0) && AllRegular(fs0, rels) && IsRegular(fs0, rel)
      requires fs == if dryRun then fs0 else AfterStores(hash, fs0, rels)
      requires Tally(hash, fs0, rels, counts, blobs)
      requires Artifact(rel) in fs && fs[Artifact(rel)] == fs0[Artifact(rel)]
      modifies this
      ensures fs == if dryRun then fs0 else AfterStores(hash, fs0, rels + [rel])
      ensures Tally(hash, fs0, rels + [rel], counts', blobs')
      ensures old(trace) <= trace && SoundSince(|old(trace)|) && ReadableSince(old(fs), |old(trace)|)
      ensures DedupingSince(hash, old(fs), trace, |old(trace)|)
      ensures dryRun ==> trace == old(trace)
    {
      var content := fs[Artifact(rel)].bytes;
      var h := hash(content);
      TallySnoc(hash, fs0, rels, rel, counts, blobs, StoredBlob(h, |content|, Blob(h)));
      counts' := counts[h := (if h in counts then counts[h] else 0) + 1];
      blobs' := StoreScanned(rel, dryRun, blobs, fs0, rels);
    }

    /** State of the first pass after the given part of the walk. */
    ghost predicate Scanned(fs0: Tree, walk: seq<string>, dryRun: bool, pat: Patterns, scanned: nat, symlinks: nat,
                            counts: map<string, nat>, blobs: map<string, StoredBlob>)
      reads this
    {
      var rels := Scan(fs0, pat, walk);
      && HexDigests(hash) && Sound(hash, fs0)
      && fs == (if dryRun then fs0 else AfterStores(hash, fs0, rels))
      && scanned == |rels| && symlinks == LinkCount(hash, fs0, pat, walk, dryRun)
      && Tally(hash, fs0, rels, counts, blobs)
    }

    /** One turn of the first pass. */
    method ScanOne(ghost fs0: Tree, ghost front: seq<string>, rel: string, dryRun: bool, pat: Patterns, scanned: nat, symlinks: nat,
                   counts: map<string, nat>, blobs: map<string, StoredBlob>)
      returns (scanned': nat, symlinks': nat, counts': map<string, nat>, blobs': map<string, StoredBlob>)
      requires Scanned(fs0, front, dryRun, pat, scanned, symlinks, counts, blobs)
      modifies this
      ensures Scanned(fs0, front + [rel], dryRun, pat, scanned', symlinks', counts', blobs')
      ensures old(trace) <= trace && SoundSince(|old(trace)|) && ReadableSince(old(fs), |old(trace)|)
      ensures DedupingSince(hash, old(fs), trace, |old(trace)|)
      ensures dryRun ==> trace == old(trace)
    {
      var p := Artifact(rel);
      scanned', symlinks', counts', blobs' := scanned, symlinks, counts, blobs;
      ghost var before := Scan(fs0, pat, front);
      WalkSnoc(hash, fs0, pat, front, rel, dryRun);
      StoresKeepArtifact(hash, fs0, before, rel);
      if !Exists(fs, p) || !pat.Select(rel) {
        assert Scan(fs0, pat, front + [rel]) == before;
        return;
      }
      if fs[p].Link? {
        assert Scan(fs0, pat, front + [rel]) == before;
        symlinks' := symlinks + 1;
        return;
      }
      scanned' := scanned + 1;
      counts', blobs' := ScanRegular(rel, dryRun, counts, blobs, fs0, before);
    }

    /** First pass of `deduplicate_artifacts`: count the digests and, in a real run, store every file. */
    method FirstPass(walk: seq<string>, dryRun: bool, pat: Patterns)
      returns (scanned: nat, symlinks: nat, counts: map<string, nat>, blobs: map<string, StoredBlob>)
      requires Valid()
      modifies this
      ensures Scanned(old(fs), walk, dryRun, pat, scanned, symlinks, counts, blobs)
      ensures old(trace) <= trace && SoundSince(|old(trace)|) && ReadableSince(old(fs), |old(trace)|)
      ensures DedupingSince(hash, old(fs), trace, |old(trace)|)
      ensures dryRun ==> trace == old(trace)
    {
      scanned, symlinks, counts, blobs := 0, 0, map[], map[];
      for i := 0 to |walk|
        invariant Scanned(old(fs), walk[..i], dryRun, pat, scanned, symlinks, counts, blobs)
        invariant old(trace) <= trace && SoundSince(|old(trace)|) && ReadableSince(old(fs), |old(trace)|)
        invariant DedupingSince(hash, old(fs), trace, |old(trace)|)
        invariant dryRun ==> trace == old(trace)
      {
        assert walk[..i + 1] == walk[..i] + [walk[i]];
        ghost var (mid, k) := (fs, |trace|);
        StoresLeaveBlobs(hash, old(fs), Scan(old(fs), pat, walk[..i]));
        scanned, symlinks, counts, blobs := ScanOne(old(fs), walk[..i], walk[i], dryRun, pat, scanned, symlinks, counts, blobs);
        ReadableSinceExtends(old(fs), mid, |old(trace)|, k);
        FirstPassDeduping(old(fs), mid, Scan(old(fs), pat, walk[..i]), dryRun, |old(trace)|, k);
      }
      assert walk[..|walk|] == walk;
    }

    lemma {:induction false} FirstPassDeduping(start: Tree, mid: Tree, rels: seq<string>, dryRun: bool, from: nat, k: nat)
      requires Sound(hash, start) && AllRegular(start, rels) && mid == if dryRun then start else AfterStores(hash, start, rels)
      requires from <= k <= |trace| && (forall i | from <= i < k :: Deduping(hash, start, trace[i])) && DedupingSince(hash, mid, trace, k)
      ensures DedupingSince(hash, start, trace, from)
    {
      StoresAreDeduping(hash, start, rels);
      StoringIsDeduping(hash, start, start);
      DedupingExtends(hash, start, mid, trace, from, k);
    }

    /** What the second pass may rely on: every file it will meet has a blob, under the right name. */
    ghost predicate Prepared(fs0: Tree, pat: Patterns, walk: seq<string>, blobs: map<string, StoredBlob>) {
      && HexDigests(hash) && Sound(hash, fs0) && Distinct(walk)
      && forall r | r in Scan(fs0, pat, walk) ::
           var h := hash(BytesAt(fs0, r)); Blob(h) in fs0 && h in blobs && blobs[h].path == Blob(h)
    }

    ghost predicate AllBacked(fs0: Tree, pat: Patterns, walk: seq<string>) {
      forall r | r in Scan(fs0, pat, walk) :: Backed(hash, fs0, r)
    }

    /** State of the second pass once the given files are replaced. */
    ghost predicate Replaced(fs0: Tree, rels: seq<string>, n: nat, saved: nat, listed: seq<DedupeArtifact>)
      reads this
    {
      && AllRegular(fs0, rels) && Distinct(rels)
      && HexDigests(hash) && Sound(hash, fs)
      && fs == AfterLinks(hash, fs0, rels)
      && n == |rels| == |listed| && saved == SumSizes(fs0, rels)
      && forall j | 0 <= j < |rels| :: listed[j] == Record(hash, fs0, false, rels[j])
    }

    ghost predicate Linked(fs0: Tree, walk: seq<string>, pat: Patterns, n: nat, saved: nat, listed: seq<DedupeArtifact>)
      reads this
    {
      Replaced(fs0, Scan(fs0, pat, walk), n, saved, listed)
    }

    /** The second pass at one regular file.  The test for duplicates never fails: the first pass has
        stored every file the second one meets. */
    method LinkRegular(ghost fs0: Tree, ghost rels: seq<string>, rel: string, counts: map<string, nat>, blobs: map<string, StoredBlob>,
                       freshName: Tree -> string, n: nat, saved: nat, listed: seq<DedupeArtifact>)
      returns (n': nat, saved': nat, listed': seq<DedupeArtifact>)
      requires Replaced(fs0, rels, n, saved, listed) && IsRegular(fs0, rel) && rel !in rels
      requires IsRegular(fs, rel) && BytesAt(fs, rel) == BytesAt(fs0, rel)
      requires var h := hash(BytesAt(fs0, rel)); Blob(h) in fs && (Backed(hash, fs0, rel) ==> Backed(hash, fs, rel)) && h in blobs && blobs[h].path == Blob(h)
      requires forall m: Tree :: Artifact(freshName(m)) !in m
      modifies this
      ensures Replaced(fs0, rels + [rel], n', saved', listed')
      ensures old(trace) <= trace && SoundSince(|old(trace)|)
      ensures DedupingSince(hash, old(fs), trace, |old(trace)|)
      ensures Backed(hash, fs0, rel) ==> ReadableSince(old(fs), |old(trace)|)
    {
      n', saved', listed' := n, saved, listed;
      var content := fs[Artifact(rel)].bytes;
      var h := hash(content);
      BlobReads(hash, fs, h);
      assert (rels + [rel])[..|rels|] == rels;
      if (h in counts && counts[h] > 1) || Exists(fs, Blob(h)) {
        var tmp := freshName(fs);
        ReplaceByLink(rel, h, tmp);
        n', saved' := n + 1, saved + |content|;
        listed' := listed + [DedupeArtifact(rel, h, |content|, true, blobs[h].path)];
      }
    }

    /** One turn of the second pass in a real run. */
    method LinkOne(ghost fs0: Tree, ghost front: seq<string>, rel: string, pat: Patterns, counts: map<string, nat>, blobs: map<string, StoredBlob>,
                   freshName: Tree -> string, n: nat, saved: nat, listed: seq<DedupeArtifact>)
      returns (n': nat, saved': nat, listed': seq<DedupeArtifact>)
      requires Linked(fs0, front, pat, n, saved, listed) && Prepared(fs0, pat, front + [rel], blobs)
      requires forall m: Tree :: Artifact(freshName(m)) !in m
      modifies this
      ensures Linked(fs0, front + [rel], pat, n', saved', listed')
      ensures old(trace) <= trace && SoundSince(|old(trace)|)
      ensures DedupingSince(hash, old(fs), trace, |old(trace)|)
      ensures AllBacked(fs0, pat, front + [rel]) ==> ReadableSince(old(fs), |old(trace)|)
    {
      n', saved', listed' := n, saved, listed;
      ghost var rels := Scan(fs0, pat, front);
      WalkSnoc(hash, fs0, pat, front, rel, true);
      NotYetLinked(fs0, pat, front, rel);
      if !Exists(fs, Artifact(rel)) || fs[Artifact(rel)].Link? || !pat.Select(rel) {
        assert Scan(fs0, pat, front + [rel]) == rels;
        return;
      }
      assert rel in Scan(fs0, pat, front + [rel]);
      n', saved', listed' := LinkRegular(fs0, rels, rel, counts, blobs, freshName, n, saved, listed);
    }

    /** Before its turn a path is as it was, and so are the blobs. */
    lemma {:induction false} NotYetLinked(fs0: Tree, pat: Patterns, front: seq<string>, rel: string)
      requires Distinct(front + [rel])
      ensures var fs' := AfterLinks(hash, fs0, Scan(fs0, pat, front));
              && rel !in Scan(fs0, pat, front)
              && (Artifact(rel) in fs0 <==> Artifact(rel) in fs') && (Artifact(rel) in fs0 ==> fs'[Artifact(rel)] == fs0[Artifact(rel)])
              && forall n | Blob(n) in fs0 :: Blob(n) in fs' && fs'[Blob(n)] == fs0[Blob(n)]
    {
      var longer := front + [rel];
      assert longer[|front|] == rel && forall i | 0 <= i < |front| :: front[i] == longer[i];
      ScanMembers(fs0, pat, front);
      LinksAt(hash, fs0, Scan(fs0, pat, front));
    }

    /** Second pass of `deduplicate_artifacts`, real run. */
    method LinkPass(walk: seq<string>, pat: Patterns, counts: map<string, nat>, blobs: map<string, StoredBlob>, freshName: Tree -> string)
      returns (n: nat, saved: nat, listed: seq<DedupeArtifact>)
      requires Prepared(fs, pat, walk, blobs)
      requires forall m: Tree :: Artifact(freshName(m)) !in m
      modifies this
      ensures Linked(old(fs), walk, pat, n, saved, listed)
      ensures old(trace) <= trace && SoundSince(|old(trace)|)
      ensures DedupingSince(hash, old(fs), trace, |old(trace)|)
      ensures AllBacked(old(fs), pat, walk) ==> ReadableSince(old(fs), |old(trace)|)
    {
      n, saved, listed := 0, 0, [];
      ghost var (fs0, k0) := (fs, |trace|);
      for i := 0 to |walk|
        invariant Linked(fs0, walk[..i], pat, n, saved, listed)
        invariant old(trace) <= trace && SoundSince(k0) && DedupingSince(hash, fs0, trace, k0)
        invariant AllBacked(fs0, pat, walk) ==> ReadableSince(fs0, k0)
      {
        PartPrepared(fs0, pat, walk, blobs, i);
        ghost var (mid, k) := (fs, |trace|);
        n, saved, listed := LinkOne(fs0, walk[..i], walk[i], pat, counts, blobs, freshName, n, saved, listed);
        LinksDeduping(fs0, pat, walk, blobs, i, k0, k);
        if AllBacked(fs0, pat, walk) {
          PartPreservesReads(fs0, pat, walk, i);
          ReadableSinceExtends(fs0, mid, k0, k);
        }
      }
      assert walk[..|walk|] == walk;
    }

    lemma {:induction false} PartPrepared(fs0: Tree, pat: Patterns, walk: seq<string>, blobs: map<string, StoredBlob>, i: nat)
      requires i < |walk| && Prepared(fs0, pat, walk, blobs)
      ensures walk[..i + 1] == walk[..i] + [walk[i]] && Prepared(fs0, pat, walk[..i + 1], blobs)
      ensures AllBacked(fs0, pat, walk) ==> AllBacked(fs0, pat, walk[..i + 1])
    {
      ScanMembers(fs0, pat, walk[..i + 1]);
      ScanMembers(fs0, pat, walk);
    }

    lemma {:induction false} LinksDeduping(fs0: Tree, pat: Patterns, walk: seq<string>, blobs: map<string, StoredBlob>, i: nat, from: nat, k: nat)
      requires i <= |walk| && Prepared(fs0, pat, walk, blobs) && from <= k <= |trace|
      requires forall j | from <= j < k :: Deduping(hash, fs0, trace[j])
      requires DedupingSince(hash, AfterLinks(hash, fs0, Scan(fs0, pat, walk[..i])), trace, k)
      ensures DedupingSince(hash, fs0, trace, from)
    {
      ScanMembers(fs0, pat, walk[..i]);
      ScanMembers(fs0, pat, walk);
      LinksAreDeduping(hash, fs0, Scan(fs0, pat, walk[..i]));
      DedupingExtends(hash, fs0, AfterLinks(hash, fs0, Scan(fs0, pat, walk[..i])), trace, from, k);
    }

    lemma {:induction false} PartPreservesReads(fs0: Tree, pat: Patterns, walk: seq<string>, i: nat)
      requires i <= |walk| && Distinct(walk) && AllBacked(fs0, pat, walk)
      ensures ReadsPreserved(fs0, AfterLinks(hash, fs0, Scan(fs0, pat, walk[..i])))
    {
      ScanMembers(fs0, pat, walk[..i]);
      ScanMembers(fs0, pat, walk);
      assert Distinct(walk[..i]);
      LinksPreserveReads(hash, fs0, Scan(fs0, pat, walk[..i]));
    }

    /** The dry run's second pass at one regular file. */
    method ListRegular(rel: string, ghost scanned: seq<string>, ghost rels: seq<string>, counts: map<string, nat>, blobs: map<string, StoredBlob>,
                       n: nat, saved: nat, listed: seq<DedupeArtifact>)
      returns (n': nat, saved': nat, listed': seq<DedupeArtifact>)
      requires AllRegular(fs, scanned) && AllRegular(fs, rels) && IsRegular(fs, rel) && rel in scanned
      requires var h := hash(BytesAt(fs, rel)); HashCount(hash, fs, scanned, h) == if h in counts then counts[h] else 0
      requires Located(hash, fs, scanned, blobs)
      requires DryRun(hash, fs, scanned, rels, n, saved, listed)
      ensures DryRun(hash, fs, scanned, rels + [rel], n', saved', listed')
    {
      n', saved', listed' := n, saved, listed;
      var content := fs[Artifact(rel)].bytes;
      var h := hash(content);
      assert (rels + [rel])[..|rels|] == rels;
      ghost var before := DryListed(hash, fs, scanned, rels);
      if !(h in counts && counts[h] > 1) && !Exists(fs, Blob(h)) {
        assert DryListed(hash, fs, scanned, rels + [rel]) == before;
      } else {
        assert (before + [rel])[..|before|] == before;
        n', saved' := n + 1, saved + |content|;
        listed' := listed + [DedupeArtifact(rel, h, |content|, false, blobs[h].path)];
      }
    }

    /** Second pass of `deduplicate_artifacts`, dry run: lists the files with a second copy and those
        whose content the store already has. */
    method ListPass(walk: seq<string>, pat: Patterns, ghost scanned: seq<string>, counts: map<string, nat>, blobs: map<string, StoredBlob>)
      returns (n: nat, saved: nat, listed: seq<DedupeArtifact>)
      requires AllRegular(fs, scanned) && Tally(hash, fs, scanned, counts, blobs)
      requires forall r | r in Scan(fs, pat, walk) :: r in scanned
      ensures DryRun(hash, fs, scanned, Scan(fs, pat, walk), n, saved, listed)
    {
      n, saved, listed := 0, 0, [];
      for i := 0 to |walk|
        invariant DryRun(hash, fs, scanned, Scan(fs, pat, walk[..i]), n, saved, listed)
      {
        var rel := walk[i];
        ghost var front := Scan(fs, pat, walk[..i]);
        assert walk[..i + 1] == walk[..i] + [rel];
        WalkSnoc(hash, fs, pat, walk[..i], rel, true);
        if !Exists(fs, Artifact(rel)) || fs[Artifact(rel)].Link? || !pat.Select(rel) {
          assert Scan(fs, pat, walk[..i + 1]) == front;
          continue;
        }
        ScanMembers(fs, pat, walk);
        n, saved, listed := ListRegular(rel, scanned, front, counts, blobs, n, saved, listed);
      }
      assert walk[..|walk|] == walk;
    }

    /** `deduplicate_artifacts` over two walks of the artifacts directory.

        A real run replaces every scanned file, as the first pass has stored them all by the time the
        second asks whether a blob exists; a dry run changes nothing and lists the files that have a
        second copy or whose content was already stored.  After every single file-system call the
        store is sound and, short of a hash collision, every path reads as before. */
    method Deduplicate(directoryExists: bool, walk1: seq<string>, walk2: seq<string>, dryRun: bool, pat: Patterns, freshName: Tree -> string)
      returns (r: DedupeResult)
      requires Valid() && Walks(fs, walk1) && Walks(fs, walk2)
      requires forall m: Tree :: Artifact(freshName(m)) !in m
      modifies this
      ensures !directoryExists ==> fs == old(fs) && trace == old(trace) && r == DedupeResult(false, 0, 0, 0, 0, 0, ["Artifacts directory not found"], [])
      ensures directoryExists ==>
                var fs0 := old(fs);
                var scanned := Scan(fs0, pat, walk1);
                && r.success && r.errors == [] && r.artifactsScanned == |scanned|
                && r.uniqueBlobs == |DistinctHashes(hash, fs0, scanned)|
                && r.alreadySymlinks == LinkCount(hash, fs0, pat, walk1, dryRun)
                && Lists(hash, fs0, dryRun, if dryRun then DryListed(hash, fs0, scanned, Scan(fs0, pat, walk2)) else Scan(fs0, pat, walk2), r)
                && fs == if dryRun then fs0 else AfterDedupe(hash, fs0, pat, walk1, walk2)
      ensures Valid() && old(trace) <= trace && SoundSince(|old(trace)|)
      ensures DedupingSince(hash, old(fs), trace, |old(trace)|)
      ensures NoCollision(hash, Contents(old(fs))) ==> ReadableSince(old(fs), |old(trace)|)
      ensures dryRun ==> trace == old(trace)
    {
      if !directoryExists {
        return DedupeResult(false, 0, 0, 0, 0, 0, ["Artifacts directory not found"], []);
      }
      ghost var scanned := Scan(fs, pat, walk1);
      var count, symlinks, counts, blobs := FirstPass(walk1, dryRun, pat);
      var n, saved, listed;
      if dryRun {
        ScanMembers(fs, pat, walk1);
        ScanMembers(fs, pat, walk2);
        n, saved, listed := ListPass(walk2, pat, scanned, counts, blobs);
      } else {
        n, saved, listed := RealSecondPass(old(fs), |old(trace)|, walk1, walk2, pat, counts, blobs, freshName);
      }
      r := DedupeResult(true, count, n, |blobs|, saved, symlinks, [], listed);
      assert |blobs| == |blobs.Keys|;
    }

    /** The second pass of a real run, seen from the start of the whole operation. */
    method RealSecondPass(ghost fs0: Tree, ghost k0: nat, ghost walk1: seq<string>, walk2: seq<string>, pat: Patterns,
                          counts: map<string, nat>, blobs: map<string, StoredBlob>, freshName: Tree -> string)
      returns (n: nat, saved: nat, listed: seq<DedupeArtifact>)
      requires HexDigests(hash) && Sound(hash, fs0) && Walks(fs0, walk1) && Walks(fs0, walk2)
      requires fs == AfterStores(hash, fs0, Scan(fs0, pat, walk1)) && Located(hash, fs0, Scan(fs0, pat, walk1), blobs)
      requires k0 <= |trace| && SoundSince(k0) && ReadableSince(fs0, k0) && DedupingSince(hash, fs0, trace, k0)
      requires forall m: Tree :: Artifact(freshName(m)) !in m
      modifies this
      ensures fs == AfterDedupe(hash, fs0, pat, walk1, walk2) && Sound(hash, fs)
      ensures var rels := Scan(fs0, pat, walk2);
              && n == |rels| == |listed| && saved == SumSizes(fs0, rels)
              && forall j | 0 <= j < |rels| :: listed[j] == Record(hash, fs0, false, rels[j])
      ensures old(trace) <= trace && SoundSince(k0) && DedupingSince(hash, fs0, trace, k0)
      ensures NoCollision(hash, Contents(fs0)) ==> ReadableSince(fs0, k0)
    {
      WalksAgree(fs0, pat, walk1, walk2);
      FirstPassPrepares(fs0, pat, walk1, walk2, blobs);
      ghost var (mid, k) := (fs, |trace|);
      n, saved, listed := LinkPass(walk2, pat, counts, blobs, freshName);
      FirstPassDeduping(fs0, mid, Scan(fs0, pat, walk1), false, k0, k);
      SumSizesSame(fs0, mid, Scan(fs0, pat, walk2));
      assert forall r | r in Scan(fs0, pat, walk2) :: Record(hash, mid, false, r) == Record(hash, fs0, false, r);
      if NoCollision(hash, Contents(fs0)) {
        FirstPassBacks(fs0, pat, walk1, walk2);
        ReadableSinceExtends(fs0, mid, k0, k);
      }
    }

    /** The second pass meets the files the first one met, with the same bytes. */
    lemma {:induction false} WalksAgree(fs0: Tree, pat: Patterns, walk1: seq<string>, walk2: seq<string>)
      requires Sound(hash, fs0) && Walks(fs0, walk1) && Walks(fs0, walk2)
      ensures var mid := AfterStores(hash, fs0, Scan(fs0, pat, walk1));
              && Scan(mid, pat, walk2) == Scan(fs0, pat, walk2)
              && forall r | r in Scan(fs0, pat, walk2) :: r in Scan(fs0, pat, walk1) && Artifact(r) in mid && mid[Artifact(r)] == fs0[Artifact(r)]
    {
      var mid := AfterStores(hash, fs0, Scan(fs0, pat, walk1));
      StoresLeaveBlobs(hash, fs0, Scan(fs0, pat, walk1));
      ScanSame(fs0, mid, pat, walk2);
      ScanMembers(fs0, pat, walk1);
      ScanMembers(fs0, pat, walk2);
    }

    /** And it finds their blobs. */
    lemma {:induction false} FirstPassPrepares(fs0: Tree, pat: Patterns, walk1: seq<string>, walk2: seq<string>, blobs: map<string, StoredBlob>)
      requires HexDigests(hash) && Sound(hash, fs0) && Walks(fs0, walk1) && Walks(fs0, walk2)
      requires Located(hash, fs0, Scan(fs0, pat, walk1), blobs)
      ensures var mid := AfterStores(hash, fs0, Scan(fs0, pat, walk1)); Prepared(mid, pat, walk2, blobs) && ReadsPreserved(fs0, mid)
    {
      var rels := Scan(fs0, pat, walk1);
      var mid := AfterStores(hash, fs0, rels);
      WalksAgree(fs0, pat, walk1, walk2);
      StoresLeaveBlobs(hash, fs0, rels);
      forall r | r in Scan(mid, pat, walk2)
        ensures var h := hash(BytesAt(mid, r)); Blob(h) in mid && h in blobs && blobs[h].path == Blob(h)
      {
        assert r in rels;
        assert hash(BytesAt(fs0, r)) in DistinctHashes(hash, fs0, rels);
      }
    }

    lemma {:induction false} FirstPassBacks(fs0: Tree, pat: Patterns, walk1: seq<string>, walk2: seq<string>)
      requires Sound(hash, fs0) && Walks(fs0, walk1) && Walks(fs0, walk2) && NoCollision(hash, Contents(fs0))
      ensures AllBacked(AfterStores(hash, fs0, Scan(fs0, pat, walk1)), pat, walk2)
    {
      var rels := Scan(fs0, pat, walk1);
      var mid := AfterStores(hash, fs0, rels);
      ScanMembers(fs0, pat, walk1);
      ScanMembers(mid, pat, walk2);
      forall r | r in Scan(mid, pat, walk2) ensures Backed(hash, mid, r) {
        StoresKeepArtifact(hash, fs0, rels, r);
        StoredIsBacked(hash, fs0, rels, r);
      }
    }

    /** One restored link.  The copy is written under a temporary name, the link removed, the copy
        renamed: between the last two calls the path does not exist, although the code's comment calls
        the restore atomic.  Its bytes are then in the blob and under the temporary name. */
    method RestoreOne(rel: string, tmp: string) returns (restored: nat, errors: seq<RestoreError>)
      requires Valid() && Artifact(tmp) !in fs
      modifies this
      ensures Valid() && fs == AfterRestoreOne(old(fs), rel) && (restored, errors) == RestoreVerdict(old(fs), rel)
      ensures old(trace) <= trace && SoundSince(|old(trace)|) && ReadsPreserved(old(fs), fs)
      ensures RestoringSince(hash, old(fs), trace, |old(trace)|) && ReadsOrGapSince(old(fs), trace, |old(trace)|, [rel])
      ensures |trace| == |old(trace)| + 4 * restored
      ensures var p := Artifact(rel);
              if p !in old(fs) || !old(fs)[p].Link? then restored == 0 && errors == []
              else match Resolve(old(fs), p, {})
                   case None => restored == 0 && errors == [Unresolvable(rel)] && fs == old(fs)
                   case Some(Blob(_)) => restored == 1 && errors == []
                   case Some(Temp(_)) => restored == 1 && errors == []
                   case Some(_) => restored == 0 && errors == [EscapesStore(rel)] && fs == old(fs)
      ensures restored == 1 ==>
                var (gap, copy) := (|old(trace)| + 2, File(Read(old(fs), Artifact(rel)).value));
                && Artifact(rel) !in trace[gap] && Artifact(tmp) in trace[gap] && trace[gap][Artifact(tmp)] == copy
                && InGap(old(fs), trace[gap], rel, tmp)
                && forall i | |old(trace)| <= i < |trace| && i != gap :: ReadsPreserved(old(fs), trace[i])
    {
      var (p, t) := (Artifact(rel), Artifact(tmp));
      if p !in fs || fs[p].File? {
        return 0, [];
      }
      var target := Resolve(fs, p, {});
      if target == None {
        return 0, [Unresolvable(rel)];
      }
      if !target.value.Blob? && !target.value.Temp? {
        return 0, [EscapesStore(rel)];
      }
      CopyWithGap(rel, tmp);
      CopyingPreservesReads(old(fs), p);
      RestoreTreesSince(hash, old(fs), rel, tmp, old(trace), trace);
      RestoringIsSound(hash, old(fs), trace, |old(trace)|);
      return 1, [];
    }

    /** The four calls. */
    method CopyWithGap(rel: string, tmp: string)
      requires Artifact(tmp) !in fs && Restorable(fs, rel) && Exists(fs, Artifact(rel))
      modifies this
      ensures fs == AfterRestoreOne(old(fs), rel)
      ensures trace == old(trace) + RestoreTrees(old(fs), rel, tmp)
    {
      var (p, t) := (Artifact(rel), Artifact(tmp));
      var content := Read(fs, p).value;
      Put(t, File([]));
      Put(t, File(content));
      assert fs == old(fs)[t := File(content)];
      Unlink(p);
      Rename(t, p);
      assert fs == old(fs)[p := File(content)];
    }

    /** `restore_from_symlinks` over a walk of the artifacts directory.  After every single call a path reads
        as at the start, or it leads to the one link being replaced, whose bytes are then under the temporary
        name. */
    method Restore(directoryExists: bool, walk: seq<string>, freshName: Tree -> string) returns (restored: nat, errors: seq<RestoreError>)
      requires Valid()
      requires forall m: Tree :: Artifact(freshName(m)) !in m
      modifies this
      ensures Valid() && old(trace) <= trace && SoundSince(|old(trace)|) && ReadsPreserved(old(fs), fs)
      ensures RestoringSince(hash, old(fs), trace, |old(trace)|) && ReadsOrGapSince(old(fs), trace, |old(trace)|, walk)
      ensures |trace| == |old(trace)| + 4 * restored
      ensures directoryExists ==> fs == AfterRestore(old(fs), walk) && (restored, errors) == RestoreReport(old(fs), walk)
      ensures !directoryExists ==> fs == old(fs) && trace == old(trace) && restored == 0
    {
      restored, errors := 0, [];
      if !directoryExists {
        return 0, [Unresolvable("artifacts")];
      }
      ghost var (start, from) := (fs, |trace|);
      for i := 0 to |walk|
        invariant Restored(start, from, walk, i, restored, errors)
        invariant old(trace) <= trace
      {
        var tmp := freshName(fs);
        restored, errors := RestoreTurn(start, from, walk, i, tmp, restored, errors);
      }
      assert walk[..|walk|] == walk;
    }

    /** State of the restore after the first `i` paths of the walk. */
    ghost predicate Restored(start: Tree, from: nat, walk: seq<string>, i: nat, restored: nat, errors: seq<RestoreError>)
      reads this
    {
      && i <= |walk| && |trace| == from + 4 * restored
      && Valid() && Sound(hash, start) && SoundSince(from)
      && fs == AfterRestore(start, walk[..i]) && (restored, errors) == RestoreReport(start, walk[..i])
      && ReadsPreserved(start, fs) && RestoringSince(hash, start, trace, from) && ReadsOrGapSince(start, trace, from, walk)
    }

    /** One turn of the restore. */
    method RestoreTurn(ghost start: Tree, ghost from: nat, walk: seq<string>, i: nat, tmp: string, restored: nat, errors: seq<RestoreError>)
      returns (restored': nat, errors': seq<RestoreError>)
      requires i < |walk| && Restored(start, from, walk, i, restored, errors) && Artifact(tmp) !in fs
      modifies this
      ensures Restored(start, from, walk, i + 1, restored', errors') && old(trace) <= trace
    {
      ghost var k := |trace|;
      var m, more := RestoreOne(walk[i], tmp);
      restored', errors' := restored + m, errors + more;
      assert walk[..i + 1][..i] == walk[..i];
      TurnExtends(hash, start, fs, trace, from, k, walk, i);
    }
  }
}
