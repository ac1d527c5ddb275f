/** The part of a file system the content store touches: regular files and symbolic links, read
    through links.  Directories exist implicitly.  A link may lead to another link, to nothing, or in a
    circle, as on disk; what is proved is where paths lead, and which changes no reader can notice. */
module FileTree {
  import opened Hashing

  /** A path under the artifacts directory of a run, a blob, the temporary file a blob is written to
      (`<hash>.tmp` in the same shard), or a path elsewhere. */
  datatype Path = Artifact(rel: string) | Blob(name: string) | Temp(name: string) | Elsewhere(name: string)

  datatype Node = File(bytes: Bytes) | Link(target: Path)

  type Tree = map<Path, Node>

  /** The regular file a path leads to; none if a link is broken or the links form a loop. */
  function Resolve(fs: Tree, p: Path, seen: set<Path>): Option<Path>
    decreases fs.Keys - seen
  {
    if p !in fs || p in seen then None
    else match fs[p]
      case File(_) => Some(p)
      case Link(q) => Resolve(fs, q, seen + {p})
  }

  lemma {:induction false} ResolveFindsFile(fs: Tree, p: Path, seen: set<Path>)
    ensures Resolve(fs, p, seen).Some? ==> var r := Resolve(fs, p, seen).value; r in fs && fs[r].File?
    decreases fs.Keys - seen
  {
    if p in fs && p !in seen && fs[p].Link? {
      ResolveFindsFile(fs, fs[p].target, seen + {p});
    }
  }

  /** A chain of links from `p` to a regular file. */
  ghost predicate Leads(fs: Tree, chain: seq<Path>) {
    && chain != [] && (forall p | p in chain :: p in fs)
    && (forall i | 0 <= i < |chain| - 1 :: fs[chain[i]] == Link(chain[i + 1]))
    && fs[chain[|chain| - 1]].File?
  }

  /** A path leads to the file at the end of the chain of links that starts there, if there is one. */
  lemma {:induction false} ResolveIsChain(fs: Tree, p: Path) returns (chain: seq<Path>)
    ensures Resolve(fs, p, {}).Some? ==> Leads(fs, chain) && chain[0] == p && Resolve(fs, p, {}) == Some(chain[|chain| - 1])
    ensures forall c | Leads(fs, c) && c[0] == p :: Resolve(fs, p, {}) == Some(c[|c| - 1])
  {
    chain := [];
    if Resolve(fs, p, {}).Some? {
      chain := ChainOf(fs, p, {});
    }
    forall c | Leads(fs, c) && c[0] == p ensures Resolve(fs, p, {}) == Some(c[|c| - 1]) {
      ChainResolves(fs, c, {});
    }
  }

  lemma {:induction false} ChainOf(fs: Tree, p: Path, seen: set<Path>) returns (chain: seq<Path>)
    requires Resolve(fs, p, seen).Some?
    ensures Leads(fs, chain) && chain[0] == p && Resolve(fs, p, seen) == Some(chain[|chain| - 1])
    decreases fs.Keys - seen
  {
    if fs[p].File? {
      chain := [p];
    } else {
      var rest := ChainOf(fs, fs[p].target, seen + {p});
      chain := [p] + rest;
      assert forall i | 0 < i < |chain| :: chain[i] == rest[i - 1];
    }
  }

  lemma {:induction false} RestLeads(fs: Tree, chain: seq<Path>, i: nat)
    requires Leads(fs, chain) && i < |chain|
    ensures Leads(fs, chain[i..])
    ensures |chain| == 1 <==> fs[chain[0]].File?
    ensures |chain| > 1 ==> fs[chain[0]] == Link(chain[1])
  {
    var rest := chain[i..];
    assert forall k | 0 <= k < |rest| :: rest[k] == chain[i + k];
    assert |chain| > 1 ==> fs[chain[0]] == Link(chain[0 + 1]);
  }

  /** Two chains from one path are equal. */
  lemma {:induction false} SameChain(fs: Tree, a: seq<Path>, b: seq<Path>)
    requires Leads(fs, a) && Leads(fs, b) && a[0] == b[0]
    ensures |a| == |b| && a[|a| - 1] == b[|b| - 1]
    decreases |a|
  {
    RestLeads(fs, a, 0);
    RestLeads(fs, b, 0);
    if |a| > 1 {
      RestLeads(fs, a, 1);
      RestLeads(fs, b, 1);
      SameChain(fs, a[1..], b[1..]);
    }
  }

  /** So a chain never comes back to where it started: it would go round for ever. */
  lemma {:induction false} ChainHasNoLoop(fs: Tree, chain: seq<Path>, i: nat)
    requires Leads(fs, chain) && 0 < i < |chain|
    ensures chain[i] != chain[0]
  {
    RestLeads(fs, chain, i);
    if chain[i] == chain[0] {
      SameChain(fs, chain, chain[i..]);
    }
  }

  lemma {:induction false} ChainResolves(fs: Tree, chain: seq<Path>, seen: set<Path>)
    requires Leads(fs, chain) && forall p | p in chain :: p !in seen
    ensures Resolve(fs, chain[0], seen) == Some(chain[|chain| - 1])
    decreases |chain|
  {
    RestLeads(fs, chain, 0);
    if |chain| > 1 {
      var rest := chain[1..];
      RestLeads(fs, chain, 1);
      forall p | p in rest ensures p !in seen + {chain[0]} {
        var k :| 0 <= k < |rest| && rest[k] == p;
        assert rest[k] == chain[k + 1];
        ChainHasNoLoop(fs, chain, k + 1);
      }
      ChainResolves(fs, rest, seen + {chain[0]});
    }
  }

  /** `Path.exists`, and `Path.is_file` as there are no directories: links are followed. */
  predicate Exists(fs: Tree, p: Path) {
    Resolve(fs, p, {}).Some?
  }

  function Read(fs: Tree, p: Path): Option<Bytes> {
    ResolveFindsFile(fs, p, {});
    match Resolve(fs, p, {})
    case None => None
    case Some(r) => Some(fs[r].bytes)
  }

  /** Leads to a file other than a store's temporary one. */
  predicate Readable(fs: Tree, p: Path) {
    var r := Resolve(fs, p, {});
    r.Some? && !r.value.Temp?
  }

  /** Whatever could be read before reads the same afterwards. */
  ghost predicate ReadsPreserved(fs: Tree, fs': Tree) {
    forall p | Readable(fs, p) :: Readable(fs', p) && Read(fs', p) == Read(fs, p)
  }

  lemma {:induction false} ReadsPreservedTransitive(a: Tree, b: Tree, c: Tree)
    requires ReadsPreserved(a, b) && ReadsPreserved(b, c)
    ensures ReadsPreserved(a, c)
  {
    forall p | Readable(a, p) ensures Readable(c, p) && Read(c, p) == Read(a, p) {
      assert Readable(b, p) && Read(b, p) == Read(a, p);
    }
  }

  /** Every link of `fs` is still there, unchanged. */
  ghost predicate LinksKept(fs: Tree, fs': Tree) {
    forall p | p in fs && fs[p].Link? :: p in fs' && fs'[p] == fs[p]
  }

  lemma {:induction false} ResolveWithLinksKept(fs: Tree, fs': Tree, p: Path, seen: set<Path>)
    requires LinksKept(fs, fs') && Resolve(fs, p, seen).Some?
    requires var r := Resolve(fs, p, seen).value; r in fs' && fs'[r].File?
    ensures Resolve(fs', p, seen) == Resolve(fs, p, seen)
    decreases fs.Keys - seen
  {
    if fs[p].Link? {
      ResolveWithLinksKept(fs, fs', fs[p].target, seen + {p});
    }
  }

  /** Adding, changing or removing temporary files, and adding files, disturbs no reader. */
  lemma {:induction false} AddingPreservesReads(fs: Tree, fs': Tree)
    requires LinksKept(fs, fs')
    requires forall p | p in fs && fs[p].File? && !p.Temp? :: p in fs' && fs'[p] == fs[p]
    ensures ReadsPreserved(fs, fs')
  {
    forall p | Readable(fs, p) ensures Readable(fs', p) && Read(fs', p) == Read(fs, p) {
      ResolveFindsFile(fs, p, {});
      ResolveWithLinksKept(fs, fs', p, {});
    }
  }

  /** Neither a new path nor a store's temporary file is noticed. */
  lemma {:induction false} NewPathUnnoticed(fs: Tree, p: Path, n: Node)
    requires p !in fs || (p.Temp? && fs[p].File?)
    ensures ReadsPreserved(fs, fs[p := n])
  {
    AddingPreservesReads(fs, fs[p := n]);
  }

  lemma {:induction false} ReadsPreservedReflexive(fs: Tree)
    ensures ReadsPreserved(fs, fs)
  {
  }

  /** Redirecting file `p` to a file `b`: every path that led to `p` now leads to `b`. */
  lemma {:induction false} ResolveAfterLinking(fs: Tree, p: Path, b: Path, q: Path, seen: set<Path>)
    requires p in fs && fs[p].File? && b in fs && fs[b].File? && p != b
    requires forall x | x in seen :: x in fs && fs[x].Link?
    ensures Resolve(fs[p := Link(b)], q, seen) == if Resolve(fs, q, seen) == Some(p) then Some(b) else Resolve(fs, q, seen)
    decreases fs.Keys - seen
  {
    var fs' := fs[p := Link(b)];
    if q in fs && q !in seen {
      if q == p {
        assert b !in seen + {p};
        assert Resolve(fs', b, seen + {p}) == Some(b);
      } else if fs[q].Link? {
        assert Resolve(fs', q, seen) == Resolve(fs', fs[q].target, seen + {q});
        ResolveAfterLinking(fs, p, b, fs[q].target, seen + {q});
      }
    }
  }

  lemma {:induction false} LinkingPreservesReads(fs: Tree, p: Path, b: Path)
    requires p in fs && fs[p].File? && b in fs && fs[b].File? && p != b && !b.Temp?
    requires fs[p].bytes == fs[b].bytes
    ensures ReadsPreserved(fs, fs[p := Link(b)])
  {
    var fs' := fs[p := Link(b)];
    forall q | Readable(fs, q) ensures Readable(fs', q) && Read(fs', q) == Read(fs, q) {
      ResolveFindsFile(fs, q, {});
      ResolveAfterLinking(fs, p, b, q, {});
    }
  }

  /** Replacing a link by a copy of the file it leads to. */
  lemma {:induction false} ResolveAfterCopying(fs: Tree, p: Path, r: Path, q: Path, seen: set<Path>)
    requires Resolve(fs, p, {}) == Some(r) && p in fs && fs[p].Link?
    requires forall x | x in seen :: x in fs && fs[x].Link?
    requires Resolve(fs, q, seen).Some? && p !in seen
    requires r in fs && fs[r].File?
    ensures var r' := Resolve(fs[p := File(fs[r].bytes)], q, seen);
            r' == Resolve(fs, q, seen) || (r' == Some(p) && Resolve(fs, q, seen) == Some(r))
    decreases fs.Keys - seen
  {
    var fs' := fs[p := File(fs[r].bytes)];
    if q == p {
      ResolveIgnoresSeen(fs, p, {}, seen);
    } else if fs[q].Link? {
      assert Resolve(fs', q, seen) == Resolve(fs', fs[q].target, seen + {q});
      ResolveAfterCopying(fs, p, r, fs[q].target, seen + {q});
    }
  }

  /** Two resolutions of the same path that both succeed agree. */
  lemma {:induction false} ResolveIgnoresSeen(fs: Tree, p: Path, s: set<Path>, t: set<Path>)
    requires Resolve(fs, p, s).Some? && Resolve(fs, p, t).Some?
    ensures Resolve(fs, p, s) == Resolve(fs, p, t)
    decreases fs.Keys - s
  {
    if fs[p].Link? {
      ResolveIgnoresSeen(fs, fs[p].target, s + {p}, t + {p});
    }
  }

  lemma {:induction false} CopyingPreservesReads(fs: Tree, p: Path)
    requires Exists(fs, p) && p in fs && fs[p].Link? && !p.Temp?
    ensures ReadsPreserved(fs, fs[p := File(Read(fs, p).value)])
  {
    ResolveFindsFile(fs, p, {});
    var r := Resolve(fs, p, {}).value;
    var fs' := fs[p := File(fs[r].bytes)];
    forall q | Readable(fs, q) ensures Readable(fs', q) && Read(fs', q) == Read(fs, q) {
      ResolveFindsFile(fs, q, {});
      ResolveAfterCopying(fs, p, r, q, {});
    }
  }
}
