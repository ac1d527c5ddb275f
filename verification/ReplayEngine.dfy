/** lib/replay_engine.py: comparing the artifacts of two runs, and the second chain format, whose links
    are short hashes of whole entries. */
module ReplayEngine {
  import opened Hashing
  import opened JsonValue
  import opened Substring

  /* ---------------------------------------------------------------- the short-hash chain */

  type Entry = map<string, Json>

  datatype Line = Blank | Malformed | Parsed(value: Json)

  datatype Check = Accepted | Rejected | Raised

  /** `dumps` prints an entry with sorted keys; `short` is the truncated digest of a text. */
  datatype Format = Format(dumps: Json -> string, short: string -> string) {
    ghost predicate Valid() {
      FixedWidth(short, 16)
    }

    function Text(e: Entry): string {
      dumps(Obj(Body(e)))
    }
  }

  /** The hashed part of an entry. */
  function Body(e: Entry): Entry {
    e - {"entry_hash"}
  }

  function PrevOf(e: Entry): Json {
    if "prev_hash" in e then e["prev_hash"] else Null
  }

  /** The entries of a file all of whose lines are blank or objects. */
  function Entries(lines: seq<Line>): seq<Entry> {
    if lines == [] then []
    else
      Entries(lines[..|lines| - 1]) +
      match lines[|lines| - 1] { case Parsed(Obj(m)) => [m] case _ => [] }
  }

  predicate AllObjects(lines: seq<Line>) {
    forall i | 0 <= i < |lines| :: lines[i].Blank? || (lines[i].Parsed? && lines[i].value.Obj?)
  }

  /** The first entry has a null, empty or otherwise false `prev_hash`; every later one has the short hash
      of its predecessor. */
  ghost predicate Chained(f: Format, es: seq<Entry>) {
    && (es != [] ==> !PrevOf(es[0]).Truthy())
    && forall i | 0 < i < |es| :: PrevOf(es[i]) == Str(f.short(f.Text(es[i - 1])))
  }

  lemma {:induction false} EntriesSnoc(lines: seq<Line>, n: nat)
    requires n < |lines|
    ensures Entries(lines[..n + 1]) == Entries(lines[..n]) + match lines[n] { case Parsed(Obj(m)) => [m] case _ => [] }
  {
    assert lines[..n + 1][..n] == lines[..n];
  }

  /** Lines that are blank add nothing, wherever they are, and every object is one entry. */
  lemma {:induction false} EntriesConcat(a: seq<Line>, b: seq<Line>)
    ensures Entries(a + b) == Entries(a) + Entries(b)
    ensures forall m: map<string, Json> :: Entries([Parsed(Obj(m))]) == [m]
    ensures Entries([]) == Entries([Blank]) == []
  {
    assert forall l: Line :: [l][..0] == [];
    if b == [] {
      assert a + b == a;
    } else {
      var front := b[..|b| - 1];
      EntriesConcat(a, front);
      assert (a + b)[..|a + b| - 1] == a + front;
    }
  }

  /** A chained file, written out: the first entry's `prev_hash`, if there is one, is false to Python, and every
      later one's is the short hash of the text of the entry before it less its `entry_hash`. */
  lemma {:induction false} ChainedMeans(f: Format, es: seq<Entry>)
    ensures Chained(f, es) <==>
            && (es != [] && "prev_hash" in es[0] ==>
                  es[0]["prev_hash"] in [Null, Bool(false), Int(0), Float(0.0), Str(""), Arr([]), Obj(map[])])
            && forall i | 0 < i < |es| ::
                 && "prev_hash" in es[i]
                 && es[i]["prev_hash"] == Str(f.short(f.dumps(Obj(es[i - 1] - {"entry_hash"}))))
  {
    if es != [] && "prev_hash" in es[0] {
      FalseValues(es[0]["prev_hash"]);
    }
    if Chained(f, es) {
      forall i | 0 < i < |es|
        ensures "prev_hash" in es[i] && es[i]["prev_hash"] == Str(f.short(f.dumps(Obj(es[i - 1] - {"entry_hash"}))))
      {
        assert PrevOf(es[i]) == Str(f.short(f.Text(es[i - 1])));
      }
    } else if es == [] || !PrevOf(es[0]).Truthy() {
      var i :| 0 < i < |es| && PrevOf(es[i]) != Str(f.short(f.Text(es[i - 1])));
      assert !("prev_hash" in es[i] && es[i]["prev_hash"] == Str(f.short(f.dumps(Obj(es[i - 1] - {"entry_hash"})))));
    }
  }

  lemma {:induction false} EntriesPrefix(lines: seq<Line>, n: nat)
    requires n <= |lines|
    ensures Entries(lines[..n]) <= Entries(lines)
  {
    if n < |lines| {
      EntriesPrefix(lines[..|lines| - 1], n);
      assert lines[..|lines| - 1][..n] == lines[..n];
    } else {
      assert lines[..n] == lines;
    }
  }

  predicate LinksTo(f: Format, es: seq<Entry>, e: Entry) {
    if es == [] then !PrevOf(e).Truthy() else PrevOf(e) == Str(f.short(f.Text(es[|es| - 1])))
  }

  lemma {:induction false} ChainedSnoc(f: Format, es: seq<Entry>, e: Entry)
    ensures Chained(f, es + [e]) <==> Chained(f, es) && LinksTo(f, es, e)
  {
    var longer := es + [e];
    assert forall i | 0 <= i < |es| :: longer[i] == es[i];
    assert longer[|es|] == e;
    if Chained(f, longer) {
      forall i | 0 < i < |es| ensures PrevOf(es[i]) == Str(f.short(f.Text(es[i - 1]))) {
        assert PrevOf(longer[i]) == Str(f.short(f.Text(longer[i - 1])));
      }
    }
  }

  lemma {:induction false} ChainedPrefix(f: Format, es: seq<Entry>, n: nat)
    requires n <= |es| && Chained(f, es)
    ensures Chained(f, es[..n])
  {
    if n < |es| {
      var front := es[..|es| - 1];
      assert es == front + [es[|es| - 1]];
      ChainedSnoc(f, front, es[|es| - 1]);
      ChainedPrefix(f, front, n);
      assert front[..n] == es[..n];
    } else {
      assert es[..n] == es;
    }
  }

  /** One line further: a broken link there breaks the whole file. */
  lemma {:induction false} NextLine(f: Format, lines: seq<Line>, n: nat)
    requires n < |lines|
    ensures lines[n].Blank? ==> Entries(lines[..n + 1]) == Entries(lines[..n])
    ensures lines[n].Parsed? && lines[n].value.Obj? ==>
              Entries(lines[..n + 1]) == Entries(lines[..n]) + [lines[n].value.m]
    ensures lines[n].Parsed? && lines[n].value.Obj? && !LinksTo(f, Entries(lines[..n]), lines[n].value.m) ==> !Chained(f, Entries(lines))
  {
    EntriesSnoc(lines, n);
    if lines[n].Parsed? && lines[n].value.Obj? {
      var (es, all) := (Entries(lines[..n + 1]), Entries(lines));
      EntriesPrefix(lines, n + 1);
      ChainedSnoc(f, Entries(lines[..n]), lines[n].value.m);
      if Chained(f, all) {
        ChainedPrefix(f, all, |es|);
        assert all[..|es|] == es;
      }
    }
  }

  /** The first line that is not as it should be holds a value that is not an object. */
  ghost predicate RaisesAt(f: Format, lines: seq<Line>, i: nat) {
    && i < |lines| && lines[i].Parsed? && !lines[i].value.Obj?
    && AllObjects(lines[..i]) && Chained(f, Entries(lines[..i]))
  }

  lemma {:induction false} RejectedBefore(f: Format, lines: seq<Line>, i: nat)
    requires i < |lines| && AllObjects(lines[..i])
    requires lines[i].Malformed? || (lines[i].Parsed? && lines[i].value.Obj? && !LinksTo(f, Entries(lines[..i]), lines[i].value.m))
    ensures forall k: nat :: !RaisesAt(f, lines, k)
  {
    forall k: nat ensures !RaisesAt(f, lines, k) {
      if k < i {
        assert lines[..i][k] == lines[k];
      } else if i < k < |lines| {
        assert lines[..k][i] == lines[i] && lines[..k][..i] == lines[..i];
        NextLine(f, lines[..k], i);
      }
    }
  }

  /** `_verify_hash_chain` accepts exactly the chained files; a value that is not an object raises. */
  method VerifyHashChain(f: Format, lines: seq<Line>) returns (r: Check)
    ensures r == Accepted <==> AllObjects(lines) && Chained(f, Entries(lines))
    ensures r == Raised <==> exists i: nat :: RaisesAt(f, lines, i)
    ensures var es := Entries(lines);
            r == Accepted <==>
              && AllObjects(lines)
              && (es != [] && "prev_hash" in es[0] ==>
                    es[0]["prev_hash"] in [Null, Bool(false), Int(0), Float(0.0), Str(""), Arr([]), Obj(map[])])
              && forall i | 0 < i < |es| ::
                   && "prev_hash" in es[i]
                   && es[i]["prev_hash"] == Str(f.short(f.dumps(Obj(es[i - 1] - {"entry_hash"}))))
  {
    r := CheckLinks(f, lines);
    ChainedMeans(f, Entries(lines));
  }

  method CheckLinks(f: Format, lines: seq<Line>) returns (r: Check)
    ensures r == Accepted <==> AllObjects(lines) && Chained(f, Entries(lines))
    ensures r == Raised <==> exists i: nat :: RaisesAt(f, lines, i)
  {
    var prevHash: Option<string> := None;
    for i := 0 to |lines|
      invariant AllObjects(lines[..i]) && Chained(f, Entries(lines[..i]))
      invariant var es := Entries(lines[..i]); prevHash == if es == [] then None else Some(f.short(f.Text(es[|es| - 1])))
    {
      NextLine(f, lines, i);
      assert lines[..i + 1] == lines[..i] + [lines[i]];
      ghost var es := Entries(lines[..i]);
      match lines[i] {
        case Blank =>
        case Malformed =>
          RejectedBefore(f, lines, i);
          return Rejected;
        case Parsed(value) =>
          if !value.Obj? {
            assert RaisesAt(f, lines, i);
            return Raised;
          }
          var entry := value.m;
          var storedPrev := if "prev_hash" in entry then entry["prev_hash"] else Null;
          if prevHash.None? {
            if storedPrev.Truthy() {
              RejectedBefore(f, lines, i);
              return Rejected;
            }
          } else if storedPrev != Str(prevHash.value) {
            RejectedBefore(f, lines, i);
            return Rejected;
          }
          ChainedSnoc(f, es, entry);
          prevHash := Some(f.short(f.dumps(Obj(entry - {"entry_hash"}))));
      }
    }
    assert lines[..|lines|] == lines;
    return Accepted;
  }

  ghost function Texts(f: Format, es: seq<Entry>): set<string> {
    set i | 0 <= i < |es| :: f.Text(es[i])
  }

  ghost function Bodies(es: seq<Entry>): set<Json> {
    set i | 0 <= i < |es| :: Obj(Body(es[i]))
  }

  /** Neither printing nor hashing confuses two of the given entries. */
  ghost predicate Distinguishes(f: Format, a: seq<Entry>, b: seq<Entry>) {
    NoCollision(f.dumps, Bodies(a) + Bodies(b)) && NoCollision(f.short, Texts(f, a) + Texts(f, b))
  }

  lemma {:induction false} BodyKeepsPrev(e: Entry, e': Entry)
    requires Body(e) == Body(e')
    ensures PrevOf(e) == PrevOf(e')
  {
    assert "prev_hash" in e <==> "prev_hash" in Body(e);
    assert "prev_hash" in e' <==> "prev_hash" in Body(e');
    if "prev_hash" in e { assert Body(e)["prev_hash"] == Body(e')["prev_hash"]; }
  }

  /** Equal links lead to equal predecessors. */
  lemma {:induction false} PredecessorsAgree(f: Format, a: seq<Entry>, e: Entry, b: seq<Entry>, e': Entry)
    requires f.Valid() && LinksTo(f, a, e) && LinksTo(f, b, e') && PrevOf(e) == PrevOf(e')
    requires Distinguishes(f, a, b)
    ensures a == [] <==> b == []
    ensures a != [] ==> Body(a[|a| - 1]) == Body(b[|b| - 1])
  {
    if a != [] { assert |f.short(f.Text(a[|a| - 1]))| == 16; }
    if b != [] { assert |f.short(f.Text(b[|b| - 1]))| == 16; }
    if a != [] && b != [] {
      assert f.Text(a[|a| - 1]) in Texts(f, a) && f.Text(b[|b| - 1]) in Texts(f, b);
      assert Obj(Body(a[|a| - 1])) in Bodies(a) && Obj(Body(b[|b| - 1])) in Bodies(b);
    }
  }

  lemma {:induction false} TextsOfFront(f: Format, es: seq<Entry>)
    requires es != []
    ensures Texts(f, es[..|es| - 1]) <= Texts(f, es) && Bodies(es[..|es| - 1]) <= Bodies(es)
  {
  }

  /** Two accepted files whose last entries agree, `entry_hash` aside, agree on every entry, `entry_hash`
      aside, and are equally long. */
  lemma {:induction false} LastEntryBindsFile(f: Format, a: seq<Entry>, b: seq<Entry>)
    requires f.Valid() && Chained(f, a) && Chained(f, b)
    requires a != [] && b != [] && Body(a[|a| - 1]) == Body(b[|b| - 1])
    requires Distinguishes(f, a, b)
    ensures |a| == |b| && forall i | 0 <= i < |a| :: Body(a[i]) == Body(b[i])
    ensures forall i | 0 <= i < |a| :: forall k | k != "entry_hash" ::
              (k in a[i] <==> k in b[i]) && (k in a[i] ==> a[i][k] == b[i][k])
    decreases |a|
  {
    EntriesAgree(f, a, b);
    forall i | 0 <= i < |a|
      ensures forall k | k != "entry_hash" :: (k in a[i] <==> k in b[i]) && (k in a[i] ==> a[i][k] == b[i][k])
    {
      forall k | k != "entry_hash" ensures (k in a[i] <==> k in b[i]) && (k in a[i] ==> a[i][k] == b[i][k]) {
        assert k in Body(a[i]) <==> k in Body(b[i]);
        assert k in a[i] ==> Body(a[i])[k] == a[i][k];
      }
    }
  }

  lemma {:induction false} EntriesAgree(f: Format, a: seq<Entry>, b: seq<Entry>)
    requires f.Valid() && Chained(f, a) && Chained(f, b)
    requires a != [] && b != [] && Body(a[|a| - 1]) == Body(b[|b| - 1])
    requires Distinguishes(f, a, b)
    ensures |a| == |b| && forall i | 0 <= i < |a| :: Body(a[i]) == Body(b[i])
    decreases |a|
  {
    var (m, n) := (|a| - 1, |b| - 1);
    var (a', b') := (a[..m], b[..n]);
    assert a == a' + [a[m]] && b == b' + [b[n]];
    ChainedSnoc(f, a', a[m]);
    ChainedSnoc(f, b', b[n]);
    BodyKeepsPrev(a[m], b[n]);
    TextsOfFront(f, a);
    TextsOfFront(f, b);
    PredecessorsAgree(f, a', a[m], b', b[n]);
    if a' != [] {
      EntriesAgree(f, a', b');
      forall i | 0 <= i < |a| ensures Body(a[i]) == Body(b[i]) {
        if i < m { assert Body(a'[i]) == Body(b'[i]); }
      }
    }
  }

  /** Nothing vouches for the last entry itself, or for the length: replace its content, or drop it, and the
      file is still accepted; and no `entry_hash` is ever looked at. */
  lemma {:induction false} LastEntryIsUnprotected(f: Format, es: seq<Entry>, e: Entry, e': Entry)
    requires Chained(f, es + [e]) && PrevOf(e') == PrevOf(e)
    ensures Chained(f, es + [e']) && Chained(f, es)
  {
    forall i | 0 < i < |es| + 1 ensures PrevOf((es + [e'])[i]) == Str(f.short(f.Text((es + [e'])[i - 1]))) {
      assert PrevOf((es + [e])[i]) == Str(f.short(f.Text((es + [e])[i - 1])));
    }
    forall i | 0 < i < |es| ensures PrevOf(es[i]) == Str(f.short(f.Text(es[i - 1]))) {
      assert PrevOf((es + [e])[i]) == Str(f.short(f.Text((es + [e])[i - 1])));
    }
    if es != [] { assert (es + [e])[0] == es[0]; }
  }

  lemma {:induction false} EntryHashIsIgnored(f: Format, a: seq<Entry>, b: seq<Entry>)
    requires |a| == |b| && forall i | 0 <= i < |a| :: Body(a[i]) == Body(b[i])
    ensures Chained(f, a) <==> Chained(f, b)
  {
    forall i | 0 <= i < |a| ensures PrevOf(a[i]) == PrevOf(b[i]) && f.Text(a[i]) == f.Text(b[i]) {
      assert PrevOf(a[i]) == PrevOf(Body(a[i])) && PrevOf(b[i]) == PrevOf(Body(b[i]));
    }
  }

  /* ---------------------------------------------------------------- comparing two runs */

  type Files = map<string, Bytes>

  type ShortHash = Bytes -> string

  datatype DiffType = ContentChanged | MissingInReplay | ExtraInReplay

  datatype ArtifactDiff = ArtifactDiff(path: string, kind: DiffType, originalHash: Option<string>, replayedHash: Option<string>)

  datatype DiffResult = DiffResult(identical: bool, total: nat, matching: nat, differing: nat, missing: nat, extra: nat, diffs: seq<ArtifactDiff>)

  /** `_collect_artifacts`: the files whose path contains none of the ignored patterns. */
  function Collected(files: Files, ignored: seq<string>): Files {
    map p | p in files && !exists q | q in ignored :: Occurs(p, q) :: files[p]
  }

  /** An ignored file is one with some pattern as a part of its path; the others are collected as they are. */
  lemma {:induction false} CollectedAre(files: Files, ignored: seq<string>, p: string)
    ensures p in Collected(files, ignored) <==>
            p in files && forall q, i, j | q in ignored && 0 <= i <= j <= |p| :: p[i..j] != q
    ensures p in Collected(files, ignored) ==> Collected(files, ignored)[p] == files[p]
  {
    if p in files && forall q, i, j | q in ignored && 0 <= i <= j <= |p| :: p[i..j] != q {
      forall q | q in ignored ensures !Occurs(p, q) {
        if Occurs(p, q) {
          OccursMeans(p, q);
        }
      }
    }
    forall q, i, j | q in ignored && 0 <= i <= j <= |p| && p[i..j] == q ensures Occurs(p, q) {
      OccursMeans(p, q);
    }
  }

  function Changed(h: ShortHash, a: Files, b: Files): set<string> {
    set p | p in a && p in b && h(a[p]) != h(b[p])
  }

  function Same(h: ShortHash, a: Files, b: Files): set<string> {
    set p | p in a && p in b && h(a[p]) == h(b[p])
  }

  /** The diffs report exactly the paths of one kind, each once, with the hashes of both sides. */
  ghost predicate Reports(h: ShortHash, a: Files, b: Files, kind: DiffType, paths: set<string>, ds: seq<ArtifactDiff>) {
    && |ds| == |paths|
    && (forall d | d in ds :: d.path in paths && d.kind == kind)
    && (forall p | p in paths :: exists d :: d in ds && d.path == p)
    && forall d | d in ds ::
         && d.originalHash == (if d.path in a then Some(h(a[d.path])) else None)
         && d.replayedHash == (if d.path in b then Some(h(b[d.path])) else None)
  }

  lemma {:induction false} ReportsSnoc(h: ShortHash, a: Files, b: Files, kind: DiffType, paths: set<string>, ds: seq<ArtifactDiff>, p: string)
    requires Reports(h, a, b, kind, paths, ds) && p !in paths
    ensures Reports(h, a, b, kind, paths + {p}, ds + [DiffOf(h, a, b, kind, p)])
  {
    var d := DiffOf(h, a, b, kind, p);
    forall q | q in paths + {p} ensures exists e :: e in ds + [d] && e.path == q {
      if q == p {
        assert d in ds + [d];
      } else {
        var e :| e in ds && e.path == q;
        assert e in ds + [d];
      }
    }
  }

  function DiffOf(h: ShortHash, a: Files, b: Files, kind: DiffType, p: string): ArtifactDiff {
    ArtifactDiff(p, kind, if p in a then Some(h(a[p])) else None, if p in b then Some(h(b[p])) else None)
  }

  /** The loop over the files both runs have. */
  method CollectChanged(h: ShortHash, a: Files, b: Files, common: set<string>) returns (ds: seq<ArtifactDiff>)
    requires common == a.Keys * b.Keys
    ensures Reports(h, a, b, ContentChanged, Changed(h, a, b), ds)
  {
    ds := [];
    var todo := common;
    ghost var all := Changed(h, a, b);
    while todo != {}
      invariant todo <= common && Reports(h, a, b, ContentChanged, all - todo, ds)
      decreases todo
    {
      var p :| p in todo;
      WithoutOne(all, todo, p);
      if h(a[p]) != h(b[p]) {
        ReportsSnoc(h, a, b, ContentChanged, all - todo, ds, p);
        ds := ds + [DiffOf(h, a, b, ContentChanged, p)];
      }
      todo := todo - {p};
    }
    WithoutNone(all);
  }

  lemma {:induction false} WithoutOne(all: set<string>, todo: set<string>, p: string)
    requires p in todo
    ensures all - (todo - {p}) == if p in all then all - todo + {p} else all - todo
  {
  }

  lemma {:induction false} WithoutNone(all: set<string>)
    ensures all - {} == all
  {
  }

  /** The loops over the files only one run has. */
  method CollectOneSided(h: ShortHash, a: Files, b: Files, kind: DiffType, paths: set<string>) returns (ds: seq<ArtifactDiff>)
    ensures Reports(h, a, b, kind, paths, ds)
  {
    ds := [];
    var todo := paths;
    while todo != {}
      invariant todo <= paths && Reports(h, a, b, kind, paths - todo, ds)
      decreases todo
    {
      var p :| p in todo;
      ReportsSnoc(h, a, b, kind, paths - todo, ds, p);
      WithoutOne(paths, todo, p);
      todo := todo - {p};
      ds := ds + [DiffOf(h, a, b, kind, p)];
    }
    WithoutNone(paths);
  }

  function CountIn(ds: seq<ArtifactDiff>, paths: set<string>): nat {
    if ds == [] then 0 else CountIn(ds[..|ds| - 1], paths) + if ds[|ds| - 1].path in paths then 1 else 0
  }

  function CountKind(ds: seq<ArtifactDiff>, kind: DiffType): nat {
    if ds == [] then 0 else CountKind(ds[..|ds| - 1], kind) + if ds[|ds| - 1].kind == kind then 1 else 0
  }

  lemma {:induction false} CountsOfParts(ds: seq<ArtifactDiff>, es: seq<ArtifactDiff>, paths: set<string>, kind: DiffType)
    requires forall e | e in es :: e.path !in paths && e.kind != kind
    ensures CountIn(ds + es, paths) == CountIn(ds, paths) && CountKind(ds + es, kind) == CountKind(ds, kind)
  {
    if es != [] {
      var front := es[..|es| - 1];
      assert (ds + es)[..|ds + es| - 1] == ds + front;
      CountsOfParts(ds, front, paths, kind);
    } else {
      assert ds + es == ds;
    }
  }

  lemma {:induction false} CountsOfAll(ds: seq<ArtifactDiff>, paths: set<string>, kind: DiffType)
    requires forall d | d in ds :: d.path in paths && d.kind == kind
    ensures CountIn(ds, paths) == CountKind(ds, kind) == |ds|
  {
    if ds != [] {
      CountsOfAll(ds[..|ds| - 1], paths, kind);
    }
  }

  /** The comparison of two runs whose replay exists. */
  ghost predicate Compares(h: ShortHash, a: Files, b: Files, r: DiffResult) {
    && r.total == |a.Keys + b.Keys| && r.matching == |Same(h, a, b)| && r.differing == |Changed(h, a, b)|
    && r.missing == |a.Keys - b.Keys| && r.extra == |b.Keys - a.Keys|
    && (r.identical <==> Changed(h, a, b) == {} && a.Keys == b.Keys)
    && (forall p :: (exists d :: d in r.diffs && d.path == p) <==> p in Changed(h, a, b) + (a.Keys - b.Keys) + (b.Keys - a.Keys))
    && |r.diffs| == r.differing + r.missing + r.extra
    && forall d | d in r.diffs :: d == DiffOf(h, a, b, KindOf(a, b, d.path), d.path)
  }

  function KindOf(a: Files, b: Files, p: string): DiffType {
    if p in a && p in b then ContentChanged else if p in a then MissingInReplay else ExtraInReplay
  }

  lemma {:induction false} SameAndChanged(h: ShortHash, a: Files, b: Files)
    ensures |Same(h, a, b)| + |Changed(h, a, b)| == |a.Keys * b.Keys|
  {
    assert Same(h, a, b) + Changed(h, a, b) == a.Keys * b.Keys;
    assert Same(h, a, b) * Changed(h, a, b) == {};
  }

  method CompareOutputs(h: ShortHash, original: Files, replayed: Option<Files>, ignored: seq<string>) returns (r: DiffResult)
    ensures replayed.None? ==> r == DiffResult(false, 0, 0, 0, 0, 0, [])
    ensures replayed.Some? ==> Compares(h, Collected(original, ignored), Collected(replayed.value, ignored), r)
  {
    if replayed.None? {
      return DiffResult(false, 0, 0, 0, 0, 0, []);
    }
    var a, b := Collected(original, ignored), Collected(replayed.value, ignored);
    var common := a.Keys * b.Keys;
    var changed := CollectChanged(h, a, b, common);
    var missing := CollectOneSided(h, a, b, MissingInReplay, a.Keys - b.Keys);
    var extra := CollectOneSided(h, a, b, ExtraInReplay, b.Keys - a.Keys);
    var diffs := changed + missing + extra;
    CountsOfAll(changed, common, ContentChanged);
    CountsOfParts(changed, missing, common, ContentChanged);
    CountsOfParts(changed + missing, extra, common, ContentChanged);
    SameAndChanged(h, a, b);
    r := DiffResult(diffs == [], |a.Keys + b.Keys|, |common| - CountIn(diffs, common), CountKind(diffs, ContentChanged),
                    |a.Keys - b.Keys|, |b.Keys - a.Keys|, diffs);
    DiffPaths(h, a, b, changed, missing, extra);
  }

  lemma {:induction false} DiffPaths(h: ShortHash, a: Files, b: Files, changed: seq<ArtifactDiff>, missing: seq<ArtifactDiff>, extra: seq<ArtifactDiff>)
    requires Reports(h, a, b, ContentChanged, Changed(h, a, b), changed)
    requires Reports(h, a, b, MissingInReplay, a.Keys - b.Keys, missing)
    requires Reports(h, a, b, ExtraInReplay, b.Keys - a.Keys, extra)
    ensures var diffs := changed + missing + extra;
            && (forall p :: (exists d :: d in diffs && d.path == p) <==> p in Changed(h, a, b) + (a.Keys - b.Keys) + (b.Keys - a.Keys))
            && (diffs == [] <==> Changed(h, a, b) == {} && a.Keys == b.Keys)
            && forall d | d in diffs :: d == DiffOf(h, a, b, KindOf(a, b, d.path), d.path)
  {
    var diffs := changed + missing + extra;
    forall p | p in Changed(h, a, b) + (a.Keys - b.Keys) + (b.Keys - a.Keys) ensures exists d :: d in diffs && d.path == p {
      if p in Changed(h, a, b) {
        var d :| d in changed && d.path == p;
        assert d in diffs;
      } else if p in a.Keys - b.Keys {
        var d :| d in missing && d.path == p;
        assert d in diffs;
      } else {
        var d :| d in extra && d.path == p;
        assert d in diffs;
      }
    }
    forall d | d in diffs ensures d == DiffOf(h, a, b, KindOf(a, b, d.path), d.path) {
      assert d in changed || d in missing || d in extra;
    }
    if diffs == [] {
      assert |Changed(h, a, b)| == 0 && |a.Keys - b.Keys| == 0 && |b.Keys - a.Keys| == 0;
    }
  }

  /** The report, written out: a path of either run has a difference if and only if the other lacks it or the
      hashes differ; .. */
  lemma {:induction false} DiffersIff(h: ShortHash, a: Files, b: Files, r: DiffResult, p: string)
    requires Compares(h, a, b, r) && (p in a || p in b)
    ensures (exists d :: d in r.diffs && d.path == p) <==> !(p in a && p in b && h(a[p]) == h(b[p]))
  {
    assert p in Changed(h, a, b) + (a.Keys - b.Keys) + (b.Keys - a.Keys) <==> !(p in a && p in b && h(a[p]) == h(b[p]));
  }

  /** .. it is of the kind and with the hashes that say so; .. */
  lemma {:induction false} DifferenceIs(h: ShortHash, a: Files, b: Files, r: DiffResult, d: ArtifactDiff)
    requires Compares(h, a, b, r) && d in r.diffs
    ensures d.kind == if d.path !in b then MissingInReplay else if d.path !in a then ExtraInReplay else ContentChanged
    ensures d.originalHash == (if d.path in a then Some(h(a[d.path])) else None)
    ensures d.replayedHash == (if d.path in b then Some(h(b[d.path])) else None)
  {
    assert d == DiffOf(h, a, b, KindOf(a, b, d.path), d.path);
    assert d.path in Changed(h, a, b) + (a.Keys - b.Keys) + (b.Keys - a.Keys);
  }

  /** .. and the counts are the numbers of such paths. */
  lemma {:induction false} CountsAre(h: ShortHash, a: Files, b: Files, r: DiffResult)
    requires Compares(h, a, b, r)
    ensures r.matching == |set p | p in a && p in b && h(a[p]) == h(b[p])| && r.differing == |set p | p in a && p in b && h(a[p]) != h(b[p])|
    ensures r.missing == |set p | p in a && p !in b| && r.extra == |set p | p in b && p !in a|
  {
    assert (set p | p in a && p !in b) == a.Keys - b.Keys;
    assert (set p | p in b && p !in a) == b.Keys - a.Keys;
  }

  /** The four counts partition the paths. */
  lemma {:induction false} CountsPartition(h: ShortHash, a: Files, b: Files, r: DiffResult)
    requires Compares(h, a, b, r)
    ensures r.total == r.matching + r.differing + r.missing + r.extra
  {
    SameAndChanged(h, a, b);
    UnionParts(a.Keys, b.Keys);
  }

  lemma {:induction false} UnionParts(x: set<string>, y: set<string>)
    ensures |x + y| == |x * y| + |x - y| + |y - x|
  {
    assert x + y == (x * y) + (x - y) + (y - x);
  }

  /** `identical` means that both runs have the same files with the same bytes, unless two contents of the
      same path collide under the truncated hash. */
  lemma {:induction false} IdenticalMeansEqual(h: ShortHash, a: Files, b: Files, r: DiffResult)
    requires Compares(h, a, b, r)
    requires forall p | p in a && p in b :: NoCollision(h, {a[p], b[p]})
    ensures r.identical <==> a == b
  {
    if r.identical {
      forall p | p in a ensures p in b && a[p] == b[p] {
        assert p !in Changed(h, a, b);
      }
    }
  }

  /** Swapping the runs swaps missing with extra and keeps the other counts. */
  lemma {:induction false} SwappingSwaps(h: ShortHash, a: Files, b: Files, r: DiffResult, s: DiffResult)
    requires Compares(h, a, b, r) && Compares(h, b, a, s)
    ensures r.total == s.total && r.matching == s.matching && r.differing == s.differing && r.identical == s.identical
    ensures r.missing == s.extra && r.extra == s.missing
  {
    SetsSymmetric(h, a, b);
  }

  lemma {:induction false} SetsSymmetric(h: ShortHash, a: Files, b: Files)
    ensures Same(h, a, b) == Same(h, b, a) && Changed(h, a, b) == Changed(h, b, a)
    ensures a.Keys + b.Keys == b.Keys + a.Keys
    ensures (Changed(h, a, b) == {} && a.Keys == b.Keys) == (Changed(h, b, a) == {} && b.Keys == a.Keys)
  {
  }
}
