/** lib/content_store.py: what each operation does to the file tree, and the laws of these effects.
    ContentStoreOps.dfy has the operations themselves. */
module ContentStore {
  import opened Hashing
  import opened FileTree

  type Hash = Bytes -> string

  /* ---------------------------------------------------------------- one blob */

  /** The names `_get_blob_path` accepts: `$` in its pattern also matches before a final line end. */
  predicate AcceptedName(name: string) {
    IsHex(name) || (|name| > 0 && name[|name| - 1] == '\n' && IsHex(name[..|name| - 1]))
  }

  /** What the test of the name is for: no accepted name holds a path separator or a dot. */
  lemma {:induction false} AcceptedNameIsSafe(name: string)
    requires AcceptedName(name)
    ensures name != "" && forall i | 0 <= i < |name| :: name[i] !in {'/', '\\', '.'}
  {
    if !IsHex(name) {
      var front := name[..|name| - 1];
      assert forall i | 0 <= i < |front| :: name[i] == front[i];
    }
  }

  /** Besides hexadecimal names it accepts exactly those followed by one line end, such as "a" and a line end. */
  lemma {:induction false} LineEndSlipsThrough(name: string)
    ensures AcceptedName(name) && !IsHex(name) <==> |name| > 1 && name[|name| - 1] == '\n' && IsHex(name[..|name| - 1])
    ensures AcceptedName("a\n") && !IsHex("a\n")
  {
    if |name| > 0 && name[|name| - 1] == '\n' {
      assert !IsHexDigit(name[|name| - 1]);
    }
    assert "a\n"[..1] == "a" && "a\n"[1] == '\n' && !IsHexDigit('\n');
  }

  /** Every blob is a regular file whose bytes hash to its name, and left-over temporary files are
      regular files. */
  ghost predicate Sound(hash: Hash, fs: Tree) {
    && (forall n :: Blob(n) in fs ==> fs[Blob(n)].File? && hash(fs[Blob(n)].bytes) == n)
    && (forall n :: Temp(n) in fs ==> fs[Temp(n)].File?)
  }

  /** The line end does no harm: every blob has a hexadecimal name, so none is reached by such a name. */
  lemma {:induction false} LineEndNamesNothing(hash: Hash, fs: Tree, name: string)
    requires HexDigests(hash) && Sound(hash, fs)
    ensures Blob(name) in fs ==> IsHex(name)
  {
    if Blob(name) in fs {
      assert IsHex(hash(fs[Blob(name)].bytes));
    }
  }

  /** All contents present anywhere in the tree: the inputs of which collision resistance is asked. */
  function Contents(fs: Tree): set<Bytes> {
    set p | p in fs && fs[p].File? :: fs[p].bytes
  }

  /** Effect of `store` and of `store_file`. */
  function AfterStore(hash: Hash, fs: Tree, content: Bytes): Tree {
    var h := hash(content);
    if Exists(fs, Blob(h)) then fs else (fs - {Temp(h)})[Blob(h) := File(content)]
  }

  /** What `retrieve` reads. */
  function Retrieve(fs: Tree, name: string): Option<Bytes> {
    Read(fs, Blob(name))
  }

  lemma {:induction false} BlobReads(hash: Hash, fs: Tree, n: string)
    requires Sound(hash, fs)
    ensures Exists(fs, Blob(n)) <==> Blob(n) in fs
    ensures Retrieve(fs, n) == if Blob(n) in fs then Some(fs[Blob(n)].bytes) else None
  {
  }

  lemma {:induction false} StoreKeepsSound(hash: Hash, fs: Tree, content: Bytes)
    requires Sound(hash, fs)
    ensures Sound(hash, AfterStore(hash, fs, content))
  {
  }

  /** What was stored is what is retrieved, unless it collides with a blob already there. */
  lemma {:induction false} RetrieveAfterStore(hash: Hash, fs: Tree, content: Bytes)
    requires Sound(hash, fs)
    requires NoCollision(hash, {content} + Contents(fs))
    ensures Retrieve(AfterStore(hash, fs, content), hash(content)) == Some(content)
  {
    var n := hash(content);
    BlobReads(hash, fs, n);
    BlobReads(hash, AfterStore(hash, fs, content), n);
    if Blob(n) in fs {
      assert fs[Blob(n)].bytes in Contents(fs);
    }
  }

  /** Storing again changes nothing; storing never alters another blob, an artifact or a link. */
  lemma {:induction false} StoreIsIdempotentAndLocal(hash: Hash, fs: Tree, content: Bytes)
    requires Sound(hash, fs)
    ensures var fs' := AfterStore(hash, fs, content);
            && AfterStore(hash, fs', content) == fs'
            && forall p | p != Blob(hash(content)) && p != Temp(hash(content)) ::
                 (p in fs <==> p in fs') && (p in fs ==> fs'[p] == fs[p])
  {
    var fs' := AfterStore(hash, fs, content);
    StoreKeepsSound(hash, fs, content);
    BlobReads(hash, fs', hash(content));
  }

  /** A content not stored before gets its blob, and no temporary file of that name is left; one that was stored
      changes nothing. */
  lemma {:induction false} StoredIs(hash: Hash, fs: Tree, content: Bytes)
    requires Sound(hash, fs)
    ensures var (h, fs') := (hash(content), AfterStore(hash, fs, content));
            if Blob(h) in fs then fs' == fs
            else Blob(h) in fs' && fs'[Blob(h)] == File(content) && Temp(h) !in fs'
  {
    BlobReads(hash, fs, hash(content));
  }

  lemma {:induction false} StorePreservesReads(hash: Hash, fs: Tree, content: Bytes)
    requires Sound(hash, fs)
    ensures ReadsPreserved(fs, AfterStore(hash, fs, content))
  {
    BlobReads(hash, fs, hash(content));
    AddingPreservesReads(fs, AfterStore(hash, fs, content));
  }

  /* ---------------------------------------------------------------- the artifacts of a run */

  /** A file is processed if it matches some include pattern, when there are any, and no exclude pattern. */
  datatype Patterns = Patterns(matches: (string, string) -> bool, includes: seq<string>, excludes: seq<string>) {
    predicate Select(rel: string) {
      && (includes == [] || exists p | p in includes :: matches(rel, p))
      && !exists p | p in excludes :: matches(rel, p)
    }
  }

  predicate Distinct<T(==)>(s: seq<T>) {
    forall i, j | 0 <= i < j < |s| :: s[i] != s[j]
  }

  predicate IsRegular(fs: Tree, rel: string) {
    Artifact(rel) in fs && fs[Artifact(rel)].File?
  }

  function BytesAt(fs: Tree, rel: string): Bytes
    requires IsRegular(fs, rel)
  {
    fs[Artifact(rel)].bytes
  }

  predicate AllRegular(fs: Tree, rels: seq<string>) {
    forall r | r in rels :: IsRegular(fs, r)
  }

  /** The regular files among the selected ones, in walk order. */
  function Scan(fs: Tree, pat: Patterns, walk: seq<string>): (r: seq<string>)
    ensures AllRegular(fs, r)
  {
    if walk == [] then []
    else
      var (front, last) := (walk[..|walk| - 1], walk[|walk| - 1]);
      Scan(fs, pat, front) + if pat.Select(last) && IsRegular(fs, last) then [last] else []
  }

  lemma {:induction false} ScanMembers(fs: Tree, pat: Patterns, walk: seq<string>)
    ensures forall x :: x in Scan(fs, pat, walk) <==> x in walk && pat.Select(x) && IsRegular(fs, x)
    ensures Distinct(walk) ==> Distinct(Scan(fs, pat, walk))
  {
    if walk != [] {
      var (front, last) := (walk[..|walk| - 1], walk[|walk| - 1]);
      assert walk == front + [last];
      ScanMembers(fs, pat, front);
    }
  }

  /** Written out: the regular files of the walk that match some include pattern, if there are any, and no exclude
      pattern; .. */
  lemma {:induction false} ScannedAre(fs: Tree, pat: Patterns, walk: seq<string>, x: string)
    ensures x in Scan(fs, pat, walk) <==>
              && x in walk && Artifact(x) in fs && fs[Artifact(x)].File?
              && (pat.includes == [] || exists i :: 0 <= i < |pat.includes| && pat.matches(x, pat.includes[i]))
              && forall i | 0 <= i < |pat.excludes| :: !pat.matches(x, pat.excludes[i])
  {
    ScanMembers(fs, pat, walk);
    assert forall i | 0 <= i < |pat.excludes| :: pat.excludes[i] in pat.excludes;
  }

  /** .. in the order of the walk. */
  lemma {:induction false} ScanConcat(fs: Tree, pat: Patterns, a: seq<string>, b: seq<string>)
    ensures Scan(fs, pat, a + b) == Scan(fs, pat, a) + Scan(fs, pat, b)
  {
    if b == [] {
      assert a + b == a;
    } else {
      var (front, last) := (b[..|b| - 1], b[|b| - 1]);
      ScanConcat(fs, pat, a, front);
      assert (a + b)[..|a + b| - 1] == a + front && (a + b)[|a + b| - 1] == last;
    }
  }

  /* ---------------------------------------------------------------- first pass: store every file */

  function AfterStores(hash: Hash, fs: Tree, rels: seq<string>): Tree
    requires AllRegular(fs, rels)
  {
    if rels == [] then fs
    else
      var (front, last) := (rels[..|rels| - 1], rels[|rels| - 1]);
      AfterStore(hash, AfterStores(hash, fs, front), BytesAt(fs, last))
  }

  lemma {:induction false} StoresKeepSound(hash: Hash, fs: Tree, rels: seq<string>)
    requires Sound(hash, fs) && AllRegular(fs, rels)
    ensures var fs' := AfterStores(hash, fs, rels);
            && Sound(hash, fs') && ReadsPreserved(fs, fs')
            && (forall n | Blob(n) in fs :: Blob(n) in fs' && fs'[Blob(n)] == fs[Blob(n)])
            && (forall p: Path | !p.Blob? && !p.Temp? :: (p in fs <==> p in fs') && (p in fs ==> fs'[p] == fs[p]))
  {
    if rels != [] {
      var (front, last) := (rels[..|rels| - 1], rels[|rels| - 1]);
      assert rels == front + [last] && last in rels;
      StoresKeepSound(hash, fs, front);
      var mid := AfterStores(hash, fs, front);
      StoreKeepsSound(hash, mid, BytesAt(fs, last));
      StorePreservesReads(hash, mid, BytesAt(fs, last));
      BlobReads(hash, mid, hash(BytesAt(fs, last)));
      ReadsPreservedTransitive(fs, mid, AfterStores(hash, fs, rels));
    }
  }

  lemma {:induction false} StoresAddBlobs(hash: Hash, fs: Tree, rels: seq<string>)
    requires Sound(hash, fs) && AllRegular(fs, rels)
    ensures var fs' := AfterStores(hash, fs, rels);
            && (forall r | r in rels :: Blob(hash(BytesAt(fs, r))) in fs')
            && (forall n | Blob(n) in fs' :: fs'[Blob(n)].File? && fs'[Blob(n)].bytes in Contents(fs))
            && (forall n | Blob(n) in fs' :: Blob(n) in fs || exists r | r in rels :: n == hash(BytesAt(fs, r)))
  {
    if rels != [] {
      var (front, last) := (rels[..|rels| - 1], rels[|rels| - 1]);
      assert rels == front + [last] && last in rels;
      StoresAddBlobs(hash, fs, front);
      StoresKeepSound(hash, fs, front);
      BlobReads(hash, AfterStores(hash, fs, front), hash(BytesAt(fs, last)));
      assert BytesAt(fs, last) in Contents(fs);
    }
  }

  /** The first pass leaves a blob for each scanned content and touches nothing outside the store. */
  lemma {:induction false} StoresLeaveBlobs(hash: Hash, fs: Tree, rels: seq<string>)
    requires Sound(hash, fs) && AllRegular(fs, rels)
    ensures var fs' := AfterStores(hash, fs, rels);
            && Sound(hash, fs')
            && (forall r | r in rels :: Blob(hash(BytesAt(fs, r))) in fs')
            && (forall n | Blob(n) in fs :: Blob(n) in fs' && fs'[Blob(n)] == fs[Blob(n)])
            && (forall p: Path | !p.Blob? && !p.Temp? :: (p in fs <==> p in fs') && (p in fs ==> fs'[p] == fs[p]))
            && (forall n | Blob(n) in fs' :: fs'[Blob(n)].bytes in Contents(fs))
            && (forall n | Blob(n) in fs' :: Blob(n) in fs || exists r | r in rels :: n == hash(BytesAt(fs, r)))
            && ReadsPreserved(fs, fs')
  {
    StoresKeepSound(hash, fs, rels);
    StoresAddBlobs(hash, fs, rels);
  }

  lemma {:induction false} StoresKeepArtifact(hash: Hash, fs: Tree, rels: seq<string>, rel: string)
    requires Sound(hash, fs) && AllRegular(fs, rels)
    ensures var (fs', p) := (AfterStores(hash, fs, rels), Artifact(rel)); (p in fs <==> p in fs') && (p in fs ==> fs'[p] == fs[p])
  {
    StoresLeaveBlobs(hash, fs, rels);
  }

  /** Storing a content met before in the same pass would change nothing, which is why the code skips it. */
  lemma {:induction false} RepeatedStoreIsIdle(hash: Hash, fs: Tree, rels: seq<string>, rel: string)
    requires Sound(hash, fs) && AllRegular(fs, rels) && IsRegular(fs, rel)
    ensures AllRegular(fs, rels + [rel]) && Sound(hash, AfterStores(hash, fs, rels))
    ensures var fs' := AfterStores(hash, fs, rels);
            && AfterStores(hash, fs, rels + [rel]) == AfterStore(hash, fs', BytesAt(fs, rel))
            && ((exists r :: r in rels && hash(BytesAt(fs, r)) == hash(BytesAt(fs, rel))) ==> AfterStores(hash, fs, rels + [rel]) == fs')
  {
    StoresLeaveBlobs(hash, fs, rels);
    assert (rels + [rel])[..|rels|] == rels;
    BlobReads(hash, AfterStores(hash, fs, rels), hash(BytesAt(fs, rel)));
  }

  /** The selected symbolic links that lead somewhere when the first pass meets them; a link that was
      broken may have been mended by a blob stored earlier in the same pass. */
  function LinkCount(hash: Hash, fs: Tree, pat: Patterns, walk: seq<string>, dryRun: bool): nat {
    if walk == [] then 0
    else
      var (front, last) := (walk[..|walk| - 1], walk[|walk| - 1]);
      var now := if dryRun then fs else AfterStores(hash, fs, Scan(fs, pat, front));
      LinkCount(hash, fs, pat, front, dryRun) +
      if pat.Select(last) && Artifact(last) in fs && fs[Artifact(last)].Link? && Exists(now, Artifact(last)) then 1 else 0
  }

  lemma {:induction false} WalkSnoc(hash: Hash, fs: Tree, pat: Patterns, front: seq<string>, rel: string, dryRun: bool)
    ensures Scan(fs, pat, front + [rel]) == Scan(fs, pat, front) + if pat.Select(rel) && IsRegular(fs, rel) then [rel] else []
    ensures var now := if dryRun then fs else AfterStores(hash, fs, Scan(fs, pat, front));
            LinkCount(hash, fs, pat, front + [rel], dryRun) == LinkCount(hash, fs, pat, front, dryRun) +
            if pat.Select(rel) && Artifact(rel) in fs && fs[Artifact(rel)].Link? && Exists(now, Artifact(rel)) then 1 else 0
  {
    assert (front + [rel])[..|front|] == front;
  }

  /** The selected symbolic links of the walk. */
  ghost function LinksIn(fs: Tree, pat: Patterns, walk: seq<string>): set<string> {
    set r | r in walk && pat.Select(r) && Artifact(r) in fs && fs[Artifact(r)].Link?
  }

  ghost function Existing(fs: Tree, names: set<string>): set<string> {
    set r | r in names && Exists(fs, Artifact(r))
  }

  ghost function ReadableOf(fs: Tree, names: set<string>): set<string> {
    set r | r in names && Readable(fs, Artifact(r))
  }

  /** How many links are counted: in a dry run those that lead to a file; in a real run at least those that can be
      read, and at most all, as a store may mend a broken one. */
  lemma {:induction false} LinkCountIs(hash: Hash, fs: Tree, pat: Patterns, walk: seq<string>)
    requires Sound(hash, fs) && Distinct(walk)
    ensures LinkCount(hash, fs, pat, walk, true) == |Existing(fs, LinksIn(fs, pat, walk))|
    ensures |ReadableOf(fs, LinksIn(fs, pat, walk))| <= LinkCount(hash, fs, pat, walk, false) <= |LinksIn(fs, pat, walk)|
  {
    if walk == [] {
      assert LinksIn(fs, pat, walk) == {} && Existing(fs, {}) == {} && ReadableOf(fs, {}) == {};
    } else {
      var (front, last) := (walk[..|walk| - 1], walk[|walk| - 1]);
      assert walk == front + [last];
      LinkCountIs(hash, fs, pat, front);
      WalkSnoc(hash, fs, pat, front, last, true);
      WalkSnoc(hash, fs, pat, front, last, false);
      StoresLeaveBlobs(hash, fs, Scan(fs, pat, front));
      LinksInSnoc(fs, pat, front, last);
    }
  }

  lemma {:induction false} LinksInSnoc(fs: Tree, pat: Patterns, front: seq<string>, last: string)
    requires last !in front
    ensures var (before, now, isLink) := (LinksIn(fs, pat, front), LinksIn(fs, pat, front + [last]), pat.Select(last) && Artifact(last) in fs && fs[Artifact(last)].Link?);
            && |now| == |before| + (if isLink then 1 else 0)
            && |Existing(fs, now)| == |Existing(fs, before)| + (if isLink && Exists(fs, Artifact(last)) then 1 else 0)
            && |ReadableOf(fs, now)| == |ReadableOf(fs, before)| + (if isLink && Readable(fs, Artifact(last)) then 1 else 0)
  {
    var (before, now) := (LinksIn(fs, pat, front), LinksIn(fs, pat, front + [last]));
    if pat.Select(last) && Artifact(last) in fs && fs[Artifact(last)].Link? {
      assert now == before + {last};
      NamesSnoc(fs, before, last);
    } else {
      assert now == before;
    }
  }

  lemma {:induction false} NamesSnoc(fs: Tree, names: set<string>, last: string)
    requires last !in names
    ensures |Existing(fs, names + {last})| == |Existing(fs, names)| + if Exists(fs, Artifact(last)) then 1 else 0
    ensures |ReadableOf(fs, names + {last})| == |ReadableOf(fs, names)| + if Readable(fs, Artifact(last)) then 1 else 0
  {
    assert Existing(fs, names + {last}) == Existing(fs, names) + if Exists(fs, Artifact(last)) then {last} else {};
    assert ReadableOf(fs, names + {last}) == ReadableOf(fs, names) + if Readable(fs, Artifact(last)) then {last} else {};
  }

  /** The scan depends on nothing but the artifacts. */
  lemma {:induction false} ScanSame(fs: Tree, fs': Tree, pat: Patterns, walk: seq<string>)
    requires forall r :: IsRegular(fs, r) <==> IsRegular(fs', r)
    ensures Scan(fs, pat, walk) == Scan(fs', pat, walk)
  {
    if walk != [] {
      ScanSame(fs, fs', pat, walk[..|walk| - 1]);
    }
  }

  /* ---------------------------------------------------------------- second pass: link every file */

  function AfterLinks(hash: Hash, fs: Tree, rels: seq<string>): Tree
    requires AllRegular(fs, rels)
  {
    if rels == [] then fs
    else
      var (front, last) := (rels[..|rels| - 1], rels[|rels| - 1]);
      AfterLinks(hash, fs, front)[Artifact(last) := Link(Blob(hash(BytesAt(fs, last))))]
  }

  lemma {:induction false} LinksAt(hash: Hash, fs: Tree, rels: seq<string>)
    requires AllRegular(fs, rels)
    ensures var fs' := AfterLinks(hash, fs, rels);
            && fs'.Keys == fs.Keys
            && (forall r | r in rels :: fs'[Artifact(r)] == Link(Blob(hash(BytesAt(fs, r)))))
            && (forall p | p in fs && !(p.Artifact? && p.rel in rels) :: fs'[p] == fs[p])
  {
    if rels != [] {
      var (front, last) := (rels[..|rels| - 1], rels[|rels| - 1]);
      assert rels == front + [last] && IsRegular(fs, last);
      LinksAt(hash, fs, front);
    }
  }

  /** The blob a file will be linked to holds that file's bytes. */
  ghost predicate Backed(hash: Hash, fs: Tree, rel: string)
    requires IsRegular(fs, rel)
  {
    var b := Blob(hash(BytesAt(fs, rel)));
    b in fs && fs[b] == File(BytesAt(fs, rel))
  }

  /** Each single replacement leaves every path reading the same bytes. */
  lemma {:induction false} LinksPreserveReads(hash: Hash, fs: Tree, rels: seq<string>)
    requires AllRegular(fs, rels) && Distinct(rels)
    requires forall r | r in rels :: Backed(hash, fs, r)
    ensures ReadsPreserved(fs, AfterLinks(hash, fs, rels))
  {
    if rels != [] {
      var (front, last) := (rels[..|rels| - 1], rels[|rels| - 1]);
      assert rels == front + [last];
      LinksPreserveReads(hash, fs, front);
      LinksAt(hash, fs, front);
      var mid := AfterLinks(hash, fs, front);
      assert last !in front && Backed(hash, fs, last);
      LinkingPreservesReads(mid, Artifact(last), Blob(hash(BytesAt(fs, last))));
      ReadsPreservedTransitive(fs, mid, AfterLinks(hash, fs, rels));
    }
  }

  /* ---------------------------------------------------------------- deduplication as a whole */

  /** Effect of a real run over the two directory walks. */
  function AfterDedupe(hash: Hash, fs: Tree, pat: Patterns, walk1: seq<string>, walk2: seq<string>): Tree
    requires Sound(hash, fs)
  {
    var stored := AfterStores(hash, fs, Scan(fs, pat, walk1));
    StoresLeaveBlobs(hash, fs, Scan(fs, pat, walk1));
    AfterLinks(hash, stored, Scan(stored, pat, walk2))
  }

  /** Both walks list exactly the artifacts, each once. */
  ghost predicate Walks(fs: Tree, walk: seq<string>) {
    Distinct(walk) && forall r :: r in walk <==> Artifact(r) in fs
  }

  lemma {:induction false} StoredIsBacked(hash: Hash, fs: Tree, rels: seq<string>, r: string)
    requires Sound(hash, fs) && AllRegular(fs, rels) && r in rels
    requires NoCollision(hash, Contents(fs))
    ensures var fs' := AfterStores(hash, fs, rels); IsRegular(fs', r) && BytesAt(fs', r) == BytesAt(fs, r) && Backed(hash, fs', r)
  {
    StoresLeaveBlobs(hash, fs, rels);
    assert BytesAt(fs, r) in Contents(fs);
  }

  /** The whole effect, path by path: each selected regular file becomes a link to the blob of its
      content, that blob holds its bytes, and nothing else under the artifacts directory changes. */
  lemma {:induction false} DedupeEffect(hash: Hash, fs: Tree, pat: Patterns, walk1: seq<string>, walk2: seq<string>)
    requires Sound(hash, fs) && Walks(fs, walk1) && Walks(fs, walk2)
    requires NoCollision(hash, Contents(fs))
    ensures var fs' := AfterDedupe(hash, fs, pat, walk1, walk2);
            && Sound(hash, fs')
            && (forall r | IsRegular(fs, r) && pat.Select(r) ::
                  var b := Blob(hash(BytesAt(fs, r)));
                  && Artifact(r) in fs' && fs'[Artifact(r)] == Link(b)
                  && b in fs' && fs'[b] == File(BytesAt(fs, r)))
            && (forall r | !(IsRegular(fs, r) && pat.Select(r)) ::
                  (Artifact(r) in fs <==> Artifact(r) in fs') && (Artifact(r) in fs ==> fs'[Artifact(r)] == fs[Artifact(r)]))
            && (forall n | Blob(n) in fs :: Blob(n) in fs' && fs'[Blob(n)] == fs[Blob(n)])
            && ReadsPreserved(fs, fs')
  {
    var rels := Scan(fs, pat, walk1);
    var mid := AfterStores(hash, fs, rels);
    StoresLeaveBlobs(hash, fs, rels);
    var rels2 := Scan(mid, pat, walk2);
    ScanMembers(fs, pat, walk1);
    ScanMembers(mid, pat, walk2);
    forall r | IsRegular(fs, r) && pat.Select(r)
      ensures r in rels && r in rels2
    {
      assert r in walk1 && r in walk2;
    }
    forall r | r in rels2 ensures Backed(hash, mid, r) {
      assert IsRegular(fs, r) && r in rels;
      StoredIsBacked(hash, fs, rels, r);
    }
    LinksAt(hash, mid, rels2);
    LinksPreserveReads(hash, mid, rels2);
    ReadsPreservedTransitive(fs, mid, AfterDedupe(hash, fs, pat, walk1, walk2));
    forall r | IsRegular(fs, r) && pat.Select(r)
      ensures var b := Blob(hash(BytesAt(fs, r))); b in mid && mid[b] == File(BytesAt(fs, r))
    {
      StoredIsBacked(hash, fs, rels, r);
    }
  }

  /** A second run with the same patterns scans nothing and changes nothing. */
  lemma {:induction false} SecondDedupeIsIdle(hash: Hash, fs: Tree, pat: Patterns, walk1: seq<string>, walk2: seq<string>, walk3: seq<string>, walk4: seq<string>)
    requires Sound(hash, fs) && Walks(fs, walk1) && Walks(fs, walk2)
    requires NoCollision(hash, Contents(fs))
    ensures var fs' := AfterDedupe(hash, fs, pat, walk1, walk2);
            && Sound(hash, fs')
            && Scan(fs', pat, walk3) == []
            && AfterDedupe(hash, fs', pat, walk3, walk4) == fs'
  {
    DedupeEffect(hash, fs, pat, walk1, walk2);
    var fs' := AfterDedupe(hash, fs, pat, walk1, walk2);
    forall r ensures !(IsRegular(fs', r) && pat.Select(r)) {
      assert IsRegular(fs, r) && pat.Select(r) ==> fs'[Artifact(r)].Link?;
    }
    ScanNothing(fs', pat, walk3);
    ScanNothing(fs', pat, walk4);
  }

  lemma {:induction false} ScanNothing(fs: Tree, pat: Patterns, walk: seq<string>)
    requires forall r :: !(IsRegular(fs, r) && pat.Select(r))
    ensures Scan(fs, pat, walk) == []
  {
    if walk != [] {
      ScanNothing(fs, pat, walk[..|walk| - 1]);
    }
  }

  /* ---------------------------------------------------------------- restoring */

  /** `restore_from_symlinks` replaces a link that leads into the blob directory by a copy. */
  predicate Restorable(fs: Tree, rel: string) {
    var p := Artifact(rel);
    p in fs && fs[p].Link? && var r := Resolve(fs, p, {}); r.Some? && (r.value.Blob? || r.value.Temp?)
  }

  function AfterRestoreOne(fs: Tree, rel: string): Tree {
    if Restorable(fs, rel) then fs[Artifact(rel) := File(Read(fs, Artifact(rel)).value)] else fs
  }

  function AfterRestore(fs: Tree, walk: seq<string>): (r: Tree)
    ensures r.Keys == fs.Keys
  {
    if walk == [] then fs
    else AfterRestoreOne(AfterRestore(fs, walk[..|walk| - 1]), walk[|walk| - 1])
  }

  datatype RestoreError = Unresolvable(rel: string) | EscapesStore(rel: string)

  /** How the restore reports one path: a copy, an error, or nothing for a path that is not a link. */
  function RestoreVerdict(fs: Tree, rel: string): (nat, seq<RestoreError>) {
    var p := Artifact(rel);
    if p !in fs || !fs[p].Link? then (0, [])
    else
      match Resolve(fs, p, {})
      case None => (0, [Unresolvable(rel)])
      case Some(r) => if r.Blob? || r.Temp? then (1, []) else (0, [EscapesStore(rel)])
  }

  function RestoreReport(fs: Tree, walk: seq<string>): (nat, seq<RestoreError>) {
    if walk == [] then (0, [])
    else
      var (front, last) := (walk[..|walk| - 1], walk[|walk| - 1]);
      var (n, errors) := RestoreReport(fs, front);
      var (m, more) := RestoreVerdict(AfterRestore(fs, front), last);
      (n + m, errors + more)
  }

  /** The report of a walk adds up, path by path, what is said of each path in the tree as it is by then. */
  lemma {:induction false} RestoreReportSnoc(fs: Tree, front: seq<string>, last: string)
    ensures RestoreReport(fs, []) == (0, [])
    ensures var (n, one) := (RestoreReport(fs, front), RestoreVerdict(AfterRestore(fs, front), last));
            RestoreReport(fs, front + [last]) == (n.0 + one.0, n.1 + one.1)
  {
    assert (front + [last])[..|front|] == front;
  }

  /** What restoring cannot change: blobs, and links that lead to one in a single hop until their own turn. */
  lemma {:induction false} RestoreAt(fs: Tree, walk: seq<string>, rel: string, n: string)
    requires Artifact(rel) in fs && fs[Artifact(rel)] == Link(Blob(n))
    requires Blob(n) in fs && fs[Blob(n)].File?
    ensures var fs' := AfterRestore(fs, walk);
            && (forall p: Path | p in fs && !p.Artifact? :: fs'[p] == fs[p])
            && fs'[Artifact(rel)] == if rel in walk then fs[Blob(n)] else fs[Artifact(rel)]
  {
    if walk != [] {
      var (front, last) := (walk[..|walk| - 1], walk[|walk| - 1]);
      assert walk == front + [last];
      RestoreAt(fs, front, rel, n);
      var mid := AfterRestore(fs, front);
      if last == rel && mid[Artifact(rel)].Link? {
        assert Resolve(mid, Blob(n), {} + {Artifact(rel)}) == Some(Blob(n));
        assert Resolve(mid, Artifact(rel), {}) == Some(Blob(n));
      }
    }
  }

  /** Restoring undoes deduplication: in any later tree that still has the link and the blob, every
      replaced path becomes a regular file with its original bytes again. */
  lemma {:induction false} RestoreUndoesDedupe(hash: Hash, fs: Tree, pat: Patterns, walk1: seq<string>, walk2: seq<string>, later: Tree, walk: seq<string>, rel: string)
    requires Sound(hash, fs) && Walks(fs, walk1) && Walks(fs, walk2)
    requires NoCollision(hash, Contents(fs))
    requires IsRegular(fs, rel) && pat.Select(rel) && rel in walk
    requires var (fs', b) := (AfterDedupe(hash, fs, pat, walk1, walk2), Blob(hash(BytesAt(fs, rel))));
             && Artifact(rel) in fs' && Artifact(rel) in later && later[Artifact(rel)] == fs'[Artifact(rel)]
             && b in fs' && b in later && later[b] == fs'[b]
    ensures AfterRestore(later, walk)[Artifact(rel)] == fs[Artifact(rel)]
  {
    DedupeEffect(hash, fs, pat, walk1, walk2);
    RestoreAt(later, walk, rel, hash(BytesAt(fs, rel)));
  }

  /** Restoring, too, leaves every path reading the same bytes once it is done. */
  lemma {:induction false} RestorePreservesReads(fs: Tree, walk: seq<string>)
    ensures ReadsPreserved(fs, AfterRestore(fs, walk))
  {
    if walk != [] {
      var (front, last) := (walk[..|walk| - 1], walk[|walk| - 1]);
      RestorePreservesReads(fs, front);
      var mid := AfterRestore(fs, front);
      if Restorable(mid, last) {
        CopyingPreservesReads(mid, Artifact(last));
      }
      ReadsPreservedTransitive(fs, mid, AfterRestore(fs, walk));
    }
  }

  /* ---------------------------------------------------------------- accounting */

  /** How many of the listed files have the given digest. */
  function HashCount(hash: Hash, fs: Tree, rels: seq<string>, h: string): nat
    requires AllRegular(fs, rels)
  {
    if rels == [] then 0
    else
      var (front, last) := (rels[..|rels| - 1], rels[|rels| - 1]);
      HashCount(hash, fs, front, h) + if hash(BytesAt(fs, last)) == h then 1 else 0
  }

  function SumSizes(fs: Tree, rels: seq<string>): nat
    requires AllRegular(fs, rels)
  {
    if rels == [] then 0
    else SumSizes(fs, rels[..|rels| - 1]) + |BytesAt(fs, rels[|rels| - 1])|
  }

  /** The files a dry run lists: those with a second copy, or whose content the store already has. */
  function DryListed(hash: Hash, fs: Tree, scanned: seq<string>, rels: seq<string>): (r: seq<string>)
    requires AllRegular(fs, scanned) && AllRegular(fs, rels)
    ensures AllRegular(fs, r)
  {
    if rels == [] then []
    else
      var (front, last) := (rels[..|rels| - 1], rels[|rels| - 1]);
      var h := hash(BytesAt(fs, last));
      DryListed(hash, fs, scanned, front) + if HashCount(hash, fs, scanned, h) > 1 || Exists(fs, Blob(h)) then [last] else []
  }

  lemma {:induction false} DryListedMembers(hash: Hash, fs: Tree, scanned: seq<string>, rels: seq<string>)
    requires AllRegular(fs, scanned) && AllRegular(fs, rels)
    ensures forall x :: x in DryListed(hash, fs, scanned, rels) <==>
              x in rels && (HashCount(hash, fs, scanned, hash(BytesAt(fs, x))) > 1 || Exists(fs, Blob(hash(BytesAt(fs, x)))))
  {
    if rels != [] {
      var (front, last) := (rels[..|rels| - 1], rels[|rels| - 1]);
      assert rels == front + [last];
      DryListedMembers(hash, fs, scanned, front);
    }
  }

  /** A dry run announces what the real run would do exactly if every file has a second copy or is in the
      store already; otherwise it announces less. */
  lemma {:induction false} DryRunAnnouncesAllIff(hash: Hash, fs: Tree, scanned: seq<string>, rels: seq<string>)
    requires AllRegular(fs, scanned) && AllRegular(fs, rels)
    ensures |DryListed(hash, fs, scanned, rels)| <= |rels|
    ensures |DryListed(hash, fs, scanned, rels)| == |rels| ==> DryListed(hash, fs, scanned, rels) == rels
    ensures |DryListed(hash, fs, scanned, rels)| == |rels| <==>
            forall r | r in rels :: HashCount(hash, fs, scanned, hash(BytesAt(fs, r))) > 1 || Exists(fs, Blob(hash(BytesAt(fs, r))))
  {
    if rels != [] {
      var (front, last) := (rels[..|rels| - 1], rels[|rels| - 1]);
      assert rels == front + [last];
      DryRunAnnouncesAllIff(hash, fs, scanned, front);
    }
  }

  function DistinctHashes(hash: Hash, fs: Tree, rels: seq<string>): set<string>
    requires AllRegular(fs, rels)
  {
    set r | r in rels :: hash(BytesAt(fs, r))
  }

  function DistinctContents(fs: Tree, rels: seq<string>): set<Bytes>
    requires AllRegular(fs, rels)
  {
    set r | r in rels :: BytesAt(fs, r)
  }

  /** A count above one means what it says: two files with that digest, at different paths. */
  lemma {:induction false} CountedTwice(hash: Hash, fs: Tree, rels: seq<string>, h: string)
    requires AllRegular(fs, rels) && Distinct(rels)
    ensures HashCount(hash, fs, rels, h) > 0 <==> exists r :: r in rels && hash(BytesAt(fs, r)) == h
    ensures HashCount(hash, fs, rels, h) > 1 <==>
            exists r, t :: r in rels && t in rels && r != t && hash(BytesAt(fs, r)) == h && hash(BytesAt(fs, t)) == h
  {
    if rels != [] {
      var (front, last) := (rels[..|rels| - 1], rels[|rels| - 1]);
      assert rels == front + [last];
      assert last !in front;
      CountedTwice(hash, fs, front, h);
    }
  }

  lemma {:induction false} DistinctSnoc(hash: Hash, fs: Tree, front: seq<string>, last: string)
    requires AllRegular(fs, front) && IsRegular(fs, last)
    ensures AllRegular(fs, front + [last])
    ensures DistinctHashes(hash, fs, front + [last]) == DistinctHashes(hash, fs, front) + {hash(BytesAt(fs, last))}
    ensures DistinctContents(fs, front + [last]) == DistinctContents(fs, front) + {BytesAt(fs, last)}
  {
  }

  lemma {:induction false} HashKnownIffContentKnown(hash: Hash, fs: Tree, front: seq<string>, last: string)
    requires AllRegular(fs, front) && IsRegular(fs, last) && NoCollision(hash, Contents(fs))
    ensures hash(BytesAt(fs, last)) in DistinctHashes(hash, fs, front) <==> BytesAt(fs, last) in DistinctContents(fs, front)
  {
    assert BytesAt(fs, last) in Contents(fs);
    if hash(BytesAt(fs, last)) in DistinctHashes(hash, fs, front) {
      var r :| r in front && hash(BytesAt(fs, r)) == hash(BytesAt(fs, last));
      assert BytesAt(fs, r) in Contents(fs);
    }
  }

  lemma {:induction false} SizesStep<S, T>(x: set<S>, a: S, y: set<T>, b: T)
    requires |x| == |y| && (a in x <==> b in y)
    ensures |x + {a}| == |y + {b}|
  {
    if a in x {
      assert x + {a} == x && y + {b} == y;
    }
  }

  /** The number of distinct digests is the number of distinct contents. */
  lemma {:induction false} DistinctHashesAreContents(hash: Hash, fs: Tree, rels: seq<string>)
    requires AllRegular(fs, rels) && NoCollision(hash, Contents(fs))
    ensures |DistinctHashes(hash, fs, rels)| == |DistinctContents(fs, rels)|
  {
    if rels == [] {
      assert DistinctHashes(hash, fs, rels) == {} && DistinctContents(fs, rels) == {};
    } else {
      var (front, last) := (rels[..|rels| - 1], rels[|rels| - 1]);
      assert rels == front + [last] && last in rels;
      DistinctHashesAreContents(hash, fs, front);
      HashKnownIffContentKnown(hash, fs, front, last);
      SizesStep(DistinctHashes(hash, fs, front), hash(BytesAt(fs, last)), DistinctContents(fs, front), BytesAt(fs, last));
      DistinctSnoc(hash, fs, front, last);
    }
  }

  /** Disk space in use, temporary files aside. */
  function Size(p: Path, n: Node): nat {
    if n.File? && !p.Temp? then |n.bytes| else 0
  }

  ghost function TotalBytes(fs: Tree): nat {
    if fs == map[] then 0
    else
      var p :| p in fs;
      Size(p, fs[p]) + TotalBytes(fs - {p})
  }

  lemma {:induction false} TotalWithout(fs: Tree, p: Path)
    requires p in fs
    ensures TotalBytes(fs) == Size(p, fs[p]) + TotalBytes(fs - {p})
    decreases |fs|
  {
    var q :| q in fs && TotalBytes(fs) == Size(q, fs[q]) + TotalBytes(fs - {q});
    if p != q {
      TotalWithout(fs - {q}, p);
      TotalWithout(fs - {p}, q);
      assert fs - {q} - {p} == fs - {p} - {q};
    }
  }

  lemma {:induction false} TotalWith(fs: Tree, p: Path, n: Node)
    ensures TotalBytes(fs[p := n]) + (if p in fs then Size(p, fs[p]) else 0) == TotalBytes(fs) + Size(p, n)
  {
    TotalWithout(fs[p := n], p);
    assert fs[p := n] - {p} == fs - {p};
    if p in fs {
      TotalWithout(fs, p);
    } else {
      assert fs - {p} == fs;
    }
  }

  /** Bytes of the blobs the first pass creates. */
  function NewBlobBytes(hash: Hash, fs: Tree, rels: seq<string>): nat
    requires AllRegular(fs, rels)
  {
    if rels == [] then 0
    else
      var (front, last) := (rels[..|rels| - 1], rels[|rels| - 1]);
      NewBlobBytes(hash, fs, front) +
      if Exists(AfterStores(hash, fs, front), Blob(hash(BytesAt(fs, last)))) then 0 else |BytesAt(fs, last)|
  }

  lemma {:induction false} StoreCost(hash: Hash, fs: Tree, content: Bytes)
    requires Sound(hash, fs)
    ensures TotalBytes(AfterStore(hash, fs, content)) == TotalBytes(fs) + if Exists(fs, Blob(hash(content))) then 0 else |content|
  {
    var h := hash(content);
    BlobReads(hash, fs, h);
    if Blob(h) !in fs {
      if Temp(h) in fs { TotalWithout(fs, Temp(h)); } else { assert fs - {Temp(h)} == fs; }
      TotalWith(fs - {Temp(h)}, Blob(h), File(content));
    }
  }

  lemma {:induction false} StoresCost(hash: Hash, fs: Tree, rels: seq<string>)
    requires Sound(hash, fs) && AllRegular(fs, rels)
    ensures TotalBytes(AfterStores(hash, fs, rels)) == TotalBytes(fs) + NewBlobBytes(hash, fs, rels)
  {
    if rels != [] {
      var (front, last) := (rels[..|rels| - 1], rels[|rels| - 1]);
      assert rels == front + [last] && last in rels;
      StoresCost(hash, fs, front);
      StoresKeepSound(hash, fs, front);
      StoreCost(hash, AfterStores(hash, fs, front), BytesAt(fs, last));
    }
  }

  lemma {:induction false} LinksSave(hash: Hash, fs: Tree, rels: seq<string>)
    requires AllRegular(fs, rels) && Distinct(rels)
    ensures TotalBytes(AfterLinks(hash, fs, rels)) + SumSizes(fs, rels) == TotalBytes(fs)
  {
    if rels != [] {
      var (front, last) := (rels[..|rels| - 1], rels[|rels| - 1]);
      assert rels == front + [last] && IsRegular(fs, last) && last !in front;
      LinksSave(hash, fs, front);
      LinksAt(hash, fs, front);
      TotalWith(AfterLinks(hash, fs, front), Artifact(last), Link(Blob(hash(BytesAt(fs, last)))));
    }
  }

  /** The first pass creates no bytes exactly if each file is empty or in the store already. */
  lemma {:induction false} NoNewBytesIff(hash: Hash, fs: Tree, rels: seq<string>)
    requires Sound(hash, fs) && AllRegular(fs, rels) && NoCollision(hash, Contents(fs))
    ensures NewBlobBytes(hash, fs, rels) == 0 <==> forall r | r in rels :: BytesAt(fs, r) == [] || Blob(hash(BytesAt(fs, r))) in fs
  {
    if rels != [] {
      var (front, last) := (rels[..|rels| - 1], rels[|rels| - 1]);
      assert rels == front + [last] && last in rels;
      NoNewBytesIff(hash, fs, front);
      StoresLeaveBlobs(hash, fs, front);
      var (mid, b) := (AfterStores(hash, fs, front), Blob(hash(BytesAt(fs, last))));
      BlobReads(hash, mid, hash(BytesAt(fs, last)));
      if b in mid && b !in fs {
        var r :| r in front && hash(BytesAt(fs, last)) == hash(BytesAt(fs, r));
        assert BytesAt(fs, r) in Contents(fs) && BytesAt(fs, last) in Contents(fs);
      }
    }
  }

  /** Conservation of disk space: what the run reports as saved is the size of everything it replaced; the
      space it frees is that minus the bytes of the blobs it had to create. */
  lemma {:induction false} ReportedSavingIsGross(hash: Hash, fs: Tree, pat: Patterns, walk1: seq<string>, walk2: seq<string>)
    requires Sound(hash, fs) && Walks(fs, walk1) && Walks(fs, walk2)
    ensures var (rels, stored) := (Scan(fs, pat, walk1), AfterStores(hash, fs, Scan(fs, pat, walk1)));
            TotalBytes(AfterDedupe(hash, fs, pat, walk1, walk2)) + SumSizes(stored, Scan(stored, pat, walk2)) ==
            TotalBytes(fs) + NewBlobBytes(hash, fs, rels)
  {
    StoresCost(hash, fs, Scan(fs, pat, walk1));
    ScanMembers(AfterStores(hash, fs, Scan(fs, pat, walk1)), pat, walk2);
    LinksSave(hash, AfterStores(hash, fs, Scan(fs, pat, walk1)), Scan(AfterStores(hash, fs, Scan(fs, pat, walk1)), pat, walk2));
  }

  /** So the report is the space freed if and only if every file it replaces was empty or stored before. */
  lemma {:induction false} ReportedSavingIsExactIff(hash: Hash, fs: Tree, pat: Patterns, walk1: seq<string>, walk2: seq<string>)
    requires Sound(hash, fs) && Walks(fs, walk1) && Walks(fs, walk2) && NoCollision(hash, Contents(fs))
    ensures var stored := AfterStores(hash, fs, Scan(fs, pat, walk1));
            TotalBytes(fs) - TotalBytes(AfterDedupe(hash, fs, pat, walk1, walk2)) == SumSizes(stored, Scan(stored, pat, walk2)) <==>
            forall r | IsRegular(fs, r) && pat.Select(r) :: BytesAt(fs, r) == [] || Blob(hash(BytesAt(fs, r))) in fs
  {
    ReportedSavingIsGross(hash, fs, pat, walk1, walk2);
    NoNewBytesIff(hash, fs, Scan(fs, pat, walk1));
    ScanMembers(fs, pat, walk1);
    assert forall r | IsRegular(fs, r) && pat.Select(r) :: r in walk1;
  }

  /** Sizes depend on nothing but the listed artifacts. */
  lemma {:induction false} SumSizesSame(fs: Tree, fs': Tree, rels: seq<string>)
    requires AllRegular(fs, rels)
    requires forall r | r in rels :: Artifact(r) in fs' && fs'[Artifact(r)] == fs[Artifact(r)]
    ensures AllRegular(fs', rels) && SumSizes(fs', rels) == SumSizes(fs, rels)
  {
    if rels != [] {
      var (front, last) := (rels[..|rels| - 1], rels[|rels| - 1]);
      assert rels == front + [last] && last in rels;
      SumSizesSame(fs, fs', front);
    }
  }

  /** No two of the files have the same digest, and the store has none of them. */
  ghost predicate AllNew(hash: Hash, fs: Tree, rels: seq<string>)
    requires AllRegular(fs, rels)
  {
    && (forall i, j | 0 <= i < j < |rels| :: hash(BytesAt(fs, rels[i])) != hash(BytesAt(fs, rels[j])))
    && (forall r | r in rels :: Blob(hash(BytesAt(fs, r))) !in fs)
  }

  lemma {:induction false} NewContentsCostTheirSize(hash: Hash, fs: Tree, rels: seq<string>)
    requires Sound(hash, fs) && AllRegular(fs, rels) && AllNew(hash, fs, rels)
    ensures NewBlobBytes(hash, fs, rels) == SumSizes(fs, rels)
  {
    if rels != [] {
      var (front, last) := (rels[..|rels| - 1], rels[|rels| - 1]);
      assert rels == front + [last] && last in rels;
      NewContentsCostTheirSize(hash, fs, front);
      StoresLeaveBlobs(hash, fs, front);
      BlobReads(hash, AfterStores(hash, fs, front), hash(BytesAt(fs, last)));
      forall r | r in front ensures hash(BytesAt(fs, r)) != hash(BytesAt(fs, last)) {
        var i :| 0 <= i < |front| && front[i] == r;
        assert rels[i] == r && rels[|front|] == last;
      }
    }
  }

  function Without(s: seq<string>, i: nat): seq<string>
    requires i < |s|
  {
    s[..i] + s[i + 1..]
  }

  lemma {:induction false} SumSizesWithout(fs: Tree, rels: seq<string>, i: nat)
    requires AllRegular(fs, rels) && i < |rels|
    ensures AllRegular(fs, Without(rels, i)) && SumSizes(fs, rels) == SumSizes(fs, Without(rels, i)) + |BytesAt(fs, rels[i])|
    decreases |rels|
  {
    var (front, last) := (rels[..|rels| - 1], rels[|rels| - 1]);
    if i == |front| {
      assert Without(rels, i) == front;
    } else {
      SumSizesWithout(fs, front, i);
      var shorter := Without(rels, i);
      assert shorter[..|shorter| - 1] == Without(front, i) && shorter[|shorter| - 1] == last;
    }
  }

  lemma {:induction false} WithoutMembers(s: seq<string>, i: nat)
    requires Distinct(s) && i < |s|
    ensures Distinct(Without(s, i)) && forall x :: x in Without(s, i) <==> x in s && x != s[i]
  {
    var t := Without(s, i);
    assert forall k | 0 <= k < |t| :: t[k] == s[if k < i then k else k + 1];
    forall x | x in s && x != s[i] ensures x in t {
      var k :| 0 <= k < |s| && s[k] == x;
      assert t[if k < i then k else k - 1] == x;
    }
  }

  lemma {:induction false} EmptyTogether(a: seq<string>, b: seq<string>)
    requires forall x :: x in a <==> x in b
    ensures a == [] <==> b == []
  {
    if a != [] { assert a[0] in b; }
    if b != [] { assert b[0] in a; }
  }

  /** The order of the walk does not matter to the total size. */
  lemma {:induction false} SumSizesOfSame(fs: Tree, a: seq<string>, b: seq<string>)
    requires AllRegular(fs, a) && AllRegular(fs, b) && Distinct(a) && Distinct(b)
    requires forall x :: x in a <==> x in b
    ensures SumSizes(fs, a) == SumSizes(fs, b)
  {
    EmptyTogether(a, b);
    if a != [] {
      var (front, last) := (a[..|a| - 1], a[|a| - 1]);
      assert a == front + [last] && last in b;
      var i :| 0 <= i < |b| && b[i] == last;
      SumSizesWithout(fs, b, i);
      WithoutMembers(b, i);
      WithoutMembers(a, |front|);
      assert Without(a, |front|) == front;
      SumSizesOfSame(fs, front, Without(b, i));
    }
  }

  /** In particular a run over files no two of which have the same content, none of it stored before,
      frees nothing at all, and reports their total size as saved. */
  lemma {:induction false} DistinctFilesSaveNothing(hash: Hash, fs: Tree, pat: Patterns, walk1: seq<string>, walk2: seq<string>)
    requires Sound(hash, fs) && Walks(fs, walk1) && Walks(fs, walk2)
    requires AllNew(hash, fs, Scan(fs, pat, walk1))
    ensures TotalBytes(AfterDedupe(hash, fs, pat, walk1, walk2)) == TotalBytes(fs)
  {
    var rels := Scan(fs, pat, walk1);
    var stored := AfterStores(hash, fs, rels);
    NewContentsCostTheirSize(hash, fs, rels);
    StoresLeaveBlobs(hash, fs, rels);
    ScanSame(fs, stored, pat, walk2);
    ScanMembers(fs, pat, walk1);
    ScanMembers(fs, pat, walk2);
    SumSizesOfSame(fs, rels, Scan(fs, pat, walk2));
    SumSizesSame(fs, stored, Scan(fs, pat, walk2));
    ReportedSavingIsGross(hash, fs, pat, walk1, walk2);
  }
}
