/** lib/provenance.py: streamed hashing and the Merkle root. */
module Provenance {
  import opened Hashing

  /* ---------------------------------------------------------------- streamed hashing */

  /** A hashlib object: its digest depends on all the bytes fed to it, in order. */
  class Hasher {
    const hash: Bytes -> string
    var absorbed: Bytes

    constructor (hash: Bytes -> string)
      ensures this.hash == hash && absorbed == []
    {
      this.hash, absorbed := hash, [];
    }

    method Update(chunk: Bytes)
      modifies this
      ensures absorbed == old(absorbed) + chunk
    {
      absorbed := absorbed + chunk;
    }

    method HexDigest() returns (d: string)
      ensures d == hash(absorbed)
    {
      d := hash(absorbed);
    }
  }

  function Min(x: int, y: int): int {
    if x <= y then x else y
  }

  /** An open binary file.  `Read(n)` returns what is left for negative `n`, else at most `n` bytes. */
  class Reader {
    const content: Bytes
    var pos: nat

    constructor (content: Bytes)
      ensures this.content == content && pos == 0
    {
      this.content, pos := content, 0;
    }

    function Rest(): Bytes
      reads this
    {
      if pos <= |content| then content[pos..] else []
    }

    method Seek(start: nat)
      modifies this
      ensures pos == start
    {
      pos := start;
    }

    method Read(n: int) returns (chunk: Bytes)
      modifies this
      ensures chunk == if n < 0 || n >= |old(Rest())| then old(Rest()) else old(Rest())[..n]
      ensures chunk + Rest() == old(Rest())
      ensures pos == old(pos) + |chunk|
    {
      var rest := if pos <= |content| then content[pos..] else [];
      chunk := if n < 0 || n >= |rest| then rest else rest[..n];
      pos := pos + |chunk|;
    }
  }

  datatype HashError = FileNotFound | InvalidOffset

  datatype Content = Raw(bytes: Bytes) | Text(text: string)

  /** `hash_content`: a text is hashed as its encoding, so it has the digest of the same text given as bytes. */
  method HashContent(hash: Bytes -> string, encode: string -> Bytes, content: Content) returns (d: string)
    ensures d == hash(if content.Raw? then content.bytes else encode(content.text))
  {
    var bytes := if content.Raw? then content.bytes else encode(content.text);
    var hasher := new Hasher(hash);
    hasher.Update(bytes);
    assert [] + bytes == bytes;
    d := hasher.HexDigest();
  }

  lemma {:induction false} Associative(a: Bytes, b: Bytes, c: Bytes)
    ensures a + (b + c) == (a + b) + c
  {
  }

  /** Reading in chunks gives the one-shot hash for every chunk size but zero: a read of zero bytes looks
      like the end of the file, and the digest is that of no bytes at all. */
  method HashFile(hash: Bytes -> string, file: Option<Bytes>, chunkSize: int) returns (r: Result<string, HashError>)
    ensures file.None? ==> r == Err(FileNotFound)
    ensures file.Some? ==> r == Ok(hash(if chunkSize == 0 then [] else file.value))
  {
    if file.None? {
      return Err(FileNotFound);
    }
    var hasher := new Hasher(hash);
    var f := new Reader(file.value);
    var chunk := f.Read(chunkSize);
    while chunk != []
      invariant chunkSize == 0 ==> chunk == [] && hasher.absorbed == []
      invariant chunkSize != 0 ==> hasher.absorbed + (chunk + f.Rest()) == file.value
      invariant chunkSize != 0 && chunk == [] ==> f.Rest() == []
      invariant hasher.hash == hash && f.content == file.value
      decreases |chunk| + |f.Rest()|
    {
      Associative(hasher.absorbed, chunk, f.Rest());
      hasher.Update(chunk);
      chunk := f.Read(chunkSize);
    }
    assert chunkSize != 0 ==> hasher.absorbed == file.value;
    var d := hasher.HexDigest();
    return Ok(d);
  }

  /** Hence a chunk size of zero is wrong exactly for files that are not empty. */
  lemma {:induction false} ZeroChunkIsWrongUnlessEmpty(hash: Bytes -> string, content: Bytes)
    requires NoCollision(hash, {[], content})
    ensures hash([]) == hash(content) <==> content == []
  {
  }

  /** The bytes of a file from `start` up to `end`, as far as the file goes. */
  function Range(content: Bytes, start: nat, end: int): Bytes {
    if start >= |content| || end <= start then [] else content[start..Min(end, |content|)]
  }

  method HashFileRange(hash: Bytes -> string, file: Option<Bytes>, start: int, end: int) returns (r: Result<string, HashError>)
    ensures file.None? ==> r == Err(FileNotFound)
    ensures file.Some? && start < 0 ==> r == Err(InvalidOffset)
    ensures file.Some? && start >= 0 ==> r == Ok(hash(Range(file.value, start, end)))
  {
    if file.None? {
      return Err(FileNotFound);
    }
    if start < 0 {
      return Err(InvalidOffset);
    }
    var hasher := new Hasher(hash);
    var f := new Reader(file.value);
    f.Seek(start);
    var toRead := end - start;
    while toRead > 0
      invariant hasher.hash == hash && f.content == file.value && f.pos >= start
      invariant end >= start ==> f.pos == end - toRead && toRead >= 0
      invariant end < start ==> f.pos == start && toRead < 0
      invariant hasher.absorbed == Range(file.value, start, f.pos)
      invariant f.pos > start ==> f.pos <= |file.value|
      decreases toRead
    {
      ghost var pos := f.pos;
      var chunk := f.Read(Min(8192, toRead));
      if chunk == [] {
        break;
      }
      assert pos < |file.value| && chunk == file.value[pos..f.pos];
      hasher.Update(chunk);
      RangesJoin(file.value, start, pos, f.pos);
      toRead := toRead - |chunk|;
    }
    var d := hasher.HexDigest();
    return Ok(d);
  }

  /** Adjacent ranges join up. */
  lemma {:induction false} RangesJoin(content: Bytes, a: nat, b: nat, c: nat)
    requires a <= b <= c
    ensures Range(content, a, b) + Range(content, b, c) == Range(content, a, c)
    ensures Range(content, 0, |content|) == content
  {
  }

  /* ---------------------------------------------------------------- Merkle root */

  type TextHash = string -> string

  function Half(n: nat): nat {
    (n + 1) / 2
  }

  /** An odd list is padded with its last element. */
  function Pad(hashes: seq<string>): seq<string>
    requires hashes != []
  {
    if |hashes| % 2 == 1 then hashes + [hashes[|hashes| - 1]] else hashes
  }

  function PaddedAt(a: seq<string>, k: nat): string
    requires a != []
  {
    if k < |a| then a[k] else a[|a| - 1]
  }

  lemma {:induction false} PadAt(a: seq<string>)
    requires a != []
    ensures |Pad(a)| == 2 * Half(|a|)
    ensures forall k | 0 <= k < |Pad(a)| :: Pad(a)[k] == PaddedAt(a, k)
  {
  }

  /** The text hashed for node `i` of the next level. */
  function PairText(a: seq<string>, i: nat): string
    requires a != []
  {
    PaddedAt(a, 2 * i) + PaddedAt(a, 2 * i + 1)
  }

  /** One level: neighbours are hashed in pairs. */
  function Combine(h: TextHash, hashes: seq<string>): (r: seq<string>)
    requires hashes != []
    ensures |r| == Half(|hashes|)
    ensures forall i | 0 <= i < |r| :: r[i] == h(PairText(hashes, i))
  {
    seq(Half(|hashes|), i requires 0 <= i => h(PairText(hashes, i)))
  }

  /** `hash_content(b"")` is the digest of the empty text. */
  function MerkleRoot(h: TextHash, hashes: seq<string>): string
    decreases |hashes|
  {
    if hashes == [] then h("")
    else if |hashes| == 1 then hashes[0]
    else MerkleRoot(h, Combine(h, hashes))
  }

  /** `compute_merkle_root`: terminates on every list. */
  method ComputeMerkleRoot(h: TextHash, hashes: seq<string>) returns (root: string)
    ensures root == MerkleRoot(h, hashes)
    ensures |hashes| == 2 ==> root == h(hashes[0] + hashes[1])
    ensures |hashes| == 3 ==> root == h(h(hashes[0] + hashes[1]) + h(hashes[2] + hashes[2]))
    decreases |hashes|
  {
    if hashes == [] {
      return h("");
    }
    if |hashes| == 1 {
      return hashes[0];
    }
    var padded := hashes;
    if |hashes| % 2 == 1 {
      padded := hashes + [hashes[|hashes| - 1]];
    }
    var combined := CombineLevel(h, hashes, padded);
    root := ComputeMerkleRoot(h, combined);
  }

  /** The pairing loop. */
  method CombineLevel(h: TextHash, ghost hashes: seq<string>, padded: seq<string>) returns (combined: seq<string>)
    requires hashes != [] && padded == Pad(hashes)
    ensures combined == Combine(h, hashes)
    ensures |padded| == 2 * |combined| && forall i | 0 <= i < |combined| :: combined[i] == h(padded[2 * i] + padded[2 * i + 1])
  {
    PadAt(hashes);
    combined := [];
    var i := 0;
    while i < |padded|
      invariant 0 <= i <= |padded| && i == 2 * |combined|
      invariant forall k | 0 <= k < |combined| :: combined[k] == h(PairText(hashes, k))
    {
      combined := combined + [h(padded[i] + padded[i + 1])];
      i := i + 2;
    }
  }

  /** Every text hashed on the way up. */
  ghost function PairTexts(hashes: seq<string>): set<string>
    requires hashes != []
  {
    set i | 0 <= i < Half(|hashes|) :: PairText(hashes, i)
  }

  ghost function MerkleTexts(h: TextHash, hashes: seq<string>): set<string>
    decreases |hashes|
  {
    if |hashes| <= 1 then {}
    else PairTexts(hashes) + MerkleTexts(h, Combine(h, hashes))
  }

  ghost predicate Wide(hashes: seq<string>, width: nat) {
    forall i | 0 <= i < |hashes| :: |hashes[i]| == width
  }

  ghost function Height(n: nat): nat {
    if n <= 1 then 0 else 1 + Height(Half(n))
  }

  /** The root with nothing hashed: the leaves' texts one after the other, padding included. */
  ghost function Spelled(hashes: seq<string>): string {
    MerkleRoot(Verbatim, hashes)
  }

  function Verbatim(text: string): string {
    text
  }

  /** Two pairs of lists in step: the one pair agrees at a position exactly where the other does. */
  ghost predicate InStep(a: seq<string>, b: seq<string>, a': seq<string>, b': seq<string>) {
    && |a| == |a'| && |b| == |b'|
    && forall i, j | 0 <= i < |a| && 0 <= j < |b| :: a[i] == b[j] <==> a'[i] == b'[j]
  }

  /** Texts of fixed width, concatenated, are equal exactly when their parts are. */
  lemma {:induction false} PairsEqual(x: string, y: string, x': string, y': string)
    requires |x| == |x'|
    ensures x + y == x' + y' <==> x == x' && y == y'
  {
    if x + y == x' + y' {
      assert x == (x + y)[..|x|] && y == (x + y)[|x|..];
      assert x' == (x' + y')[..|x'|] && y' == (x' + y')[|x'|..];
    }
  }

  lemma {:induction false} PairInStep(h: TextHash, a: seq<string>, b: seq<string>, a': seq<string>, b': seq<string>, w: nat, w': nat, i: nat, j: nat)
    requires a != [] && b != [] && InStep(a, b, a', b')
    requires Wide(a, w) && Wide(b, w) && Wide(a', w') && Wide(b', w')
    requires NoCollision(h, {PairText(a, i), PairText(b, j)})
    ensures h(PairText(a, i)) == h(PairText(b, j)) <==> PairText(a', i) == PairText(b', j)
  {
    PairsEqual(PaddedAt(a, 2 * i), PaddedAt(a, 2 * i + 1), PaddedAt(b, 2 * j), PaddedAt(b, 2 * j + 1));
    PairsEqual(PaddedAt(a', 2 * i), PaddedAt(a', 2 * i + 1), PaddedAt(b', 2 * j), PaddedAt(b', 2 * j + 1));
  }

  lemma {:induction false} LevelInStep(h: TextHash, a: seq<string>, b: seq<string>, a': seq<string>, b': seq<string>, w: nat, w': nat)
    requires a != [] && b != [] && InStep(a, b, a', b')
    requires Wide(a, w) && Wide(b, w) && Wide(a', w') && Wide(b', w')
    requires NoCollision(h, PairTexts(a) + PairTexts(b))
    ensures InStep(Combine(h, a), Combine(h, b), Combine(Verbatim, a'), Combine(Verbatim, b'))
  {
    forall i, j | 0 <= i < Half(|a|) && 0 <= j < Half(|b|)
      ensures Combine(h, a)[i] == Combine(h, b)[j] <==> Combine(Verbatim, a')[i] == Combine(Verbatim, b')[j]
    {
      assert PairText(a, i) in PairTexts(a) && PairText(b, j) in PairTexts(b);
      PairInStep(h, a, b, a', b', w, w', i, j);
    }
  }

  lemma {:induction false} LevelWide(h: TextHash, a: seq<string>, w: nat, w': nat)
    requires a != []
    ensures FixedWidth(h, w) ==> Wide(Combine(h, a), w)
    ensures Wide(a, w') ==> Wide(Combine(Verbatim, a), 2 * w')
  {
  }

  lemma {:induction false} RootsInStep(h: TextHash, a: seq<string>, b: seq<string>, a': seq<string>, b': seq<string>, w: nat, w': nat)
    requires FixedWidth(h, w) && a != [] && b != [] && Height(|a|) == Height(|b|)
    requires InStep(a, b, a', b') && Wide(a, w) && Wide(b, w) && Wide(a', w') && Wide(b', w')
    requires NoCollision(h, MerkleTexts(h, a) + MerkleTexts(h, b))
    ensures MerkleRoot(h, a) == MerkleRoot(h, b) <==> Spelled(a') == Spelled(b')
    decreases |a|
  {
    if |a| > 1 {
      LevelInStep(h, a, b, a', b', w, w');
      LevelWide(h, a, w, w');
      LevelWide(h, b, w, w');
      LevelWide(h, a', w, w');
      LevelWide(h, b', w, w');
      RootsInStep(h, Combine(h, a), Combine(h, b), Combine(Verbatim, a'), Combine(Verbatim, b'), w, 2 * w');
    }
  }

  /** For two lists of digests whose trees have the same height the roots are equal if and only if the
      leaves, spelled out with the padding, are; left to right needs that no two of the texts hashed on
      the way up collide. */
  lemma {:induction false} RootBindsLeaves(h: TextHash, a: seq<string>, b: seq<string>, width: nat)
    requires FixedWidth(h, width) && Wide(a, width) && Wide(b, width)
    requires a != [] && b != [] && Height(|a|) == Height(|b|)
    requires NoCollision(h, MerkleTexts(h, a) + MerkleTexts(h, b))
    ensures MerkleRoot(h, a) == MerkleRoot(h, b) <==> Spelled(a) == Spelled(b)
  {
    RootsInStep(h, a, b, a, b, width, width);
  }

  lemma {:induction false} SliceOfPair(s: string, i: nat, w: nat, x: string, y: string)
    requires |x| == |y| == w && |s| >= (i + 1) * (2 * w) && s[i * (2 * w)..(i + 1) * (2 * w)] == x + y
    ensures (2 * i) * w == i * (2 * w) && (2 * i + 1) * w == i * (2 * w) + w && (2 * i + 2) * w == (i + 1) * (2 * w)
    ensures s[(2 * i) * w..(2 * i + 1) * w] == x && s[(2 * i + 1) * w..(2 * i + 2) * w] == y
  {
    var (lo, t) := (i * (2 * w), x + y);
    assert (2 * i + 1) * w == lo + w && (i + 1) * (2 * w) == lo + 2 * w && (2 * i + 2) * w == lo + 2 * w;
    assert s[lo..lo + w] == t[..w] && s[lo + w..lo + 2 * w] == t[w..];
  }

  /** The leaves stand in the spelled-out text one after the other. */
  lemma {:induction false} SpelledStarts(a: seq<string>, width: nat, k: nat)
    requires a != [] && Wide(a, width) && k < |a|
    ensures 0 <= k * width <= (k + 1) * width <= |Spelled(a)|
    ensures Spelled(a)[k * width..(k + 1) * width] == a[k]
    decreases |a|
  {
    if |a| > 1 {
      LevelWide(Verbatim, a, 0, width);
      var i := k / 2;
      SpelledStarts(Combine(Verbatim, a), 2 * width, i);
      assert Combine(Verbatim, a)[i] == PairText(a, i);
      SliceOfPair(Spelled(a), i, width, PaddedAt(a, 2 * i), PaddedAt(a, 2 * i + 1));
      assert k == 2 * i || k == 2 * i + 1;
    } else {
      assert k == 0 && (k + 1) * width == width;
    }
  }

  /** For lists of the same length the root determines the list. */
  lemma {:induction false} RootBindsList(h: TextHash, a: seq<string>, b: seq<string>, width: nat)
    requires FixedWidth(h, width) && Wide(a, width) && Wide(b, width)
    requires |a| == |b|
    requires NoCollision(h, MerkleTexts(h, a) + MerkleTexts(h, b))
    ensures MerkleRoot(h, a) == MerkleRoot(h, b) <==> a == b
  {
    if a != [] && MerkleRoot(h, a) == MerkleRoot(h, b) {
      RootBindsLeaves(h, a, b, width);
      forall k | 0 <= k < |a| ensures a[k] == b[k] {
        SpelledStarts(a, width, k);
        SpelledStarts(b, width, k);
      }
    }
  }

  /** Lists of different lengths can share a root.  Padding is invisible in it .. */
  lemma {:induction false} PaddingIsInvisible(h: TextHash, a: seq<string>)
    requires |a| > 1 && |a| % 2 == 1
    ensures MerkleRoot(h, a + [a[|a| - 1]]) == MerkleRoot(h, a)
  {
    var b := a + [a[|a| - 1]];
    forall i | 0 <= i < Half(|a|) ensures PairText(b, i) == PairText(a, i) {}
    assert Combine(h, b) == Combine(h, a);
  }

  /** The list of nodes `k` levels above the leaves. */
  ghost function Level(h: TextHash, a: seq<string>, k: nat): (r: seq<string>)
    requires a != []
    ensures r != []
    decreases k
  {
    if k == 0 then a else Level(h, Combine(h, a), k - 1)
  }

  /** .. and so is the height of the tree: a list of inner nodes has the root of its leaves. */
  lemma {:induction false} InnerNodesPassAsLeaves(h: TextHash, a: seq<string>, k: nat)
    requires a != [] && k <= Height(|a|)
    ensures MerkleRoot(h, Level(h, a, k)) == MerkleRoot(h, a)
    ensures Height(|Level(h, a, k)|) == Height(|a|) - k
    decreases k
  {
    if k > 0 {
      InnerNodesPassAsLeaves(h, Combine(h, a), k - 1);
    }
  }

  lemma {:induction false} UpperTexts(h: TextHash, a: seq<string>, more: set<string>)
    requires |a| > 1 && NoCollision(h, MerkleTexts(h, a) + more)
    ensures NoCollision(h, MerkleTexts(h, Combine(h, a)) + more)
  {
    assert MerkleTexts(h, a) == PairTexts(a) + MerkleTexts(h, Combine(h, a));
  }

  lemma {:induction false} Climb(h: TextHash, a: seq<string>, width: nat, more: set<string>, k: nat)
    requires FixedWidth(h, width) && 0 < k <= Height(|a|) && a != []
    requires NoCollision(h, MerkleTexts(h, a) + more)
    ensures |Combine(h, a)| < |a| && Wide(Combine(h, a), width)
    ensures NoCollision(h, MerkleTexts(h, Combine(h, a)) + more)
    ensures Height(|a|) == Height(|Combine(h, a)|) + 1
    ensures MerkleRoot(h, a) == MerkleRoot(h, Combine(h, a))
    ensures Level(h, a, k) == Level(h, Combine(h, a), k - 1)
  {
    UpperTexts(h, a, more);
    LevelWide(h, a, width, width);
  }

  /** The root of a list of more than one is the digest of a text hashed on the way up, and not of the empty one. */
  lemma {:induction false} RootIsDigestOfPair(h: TextHash, a: seq<string>, width: nat) returns (text: string)
    requires FixedWidth(h, width) && Wide(a, width) && |a| > 1
    ensures text in MerkleTexts(h, a) && MerkleRoot(h, a) == h(text) && |text| == 2 * width
    decreases |a|
  {
    var up := Combine(h, a);
    LevelWide(h, a, width, width);
    if |up| == 1 {
      text := PairText(a, 0);
      assert text in PairTexts(a);
      assert MerkleRoot(h, a) == MerkleRoot(h, up);
    } else {
      text := RootIsDigestOfPair(h, up, width);
    }
  }

  /** The empty list has a root too, that of no bytes; the one other list that shares it is the list of just
      that digest. */
  lemma {:induction false} EmptyRootExactlyWhen(h: TextHash, b: seq<string>, width: nat)
    requires FixedWidth(h, width) && width > 0 && Wide(b, width)
    requires NoCollision(h, MerkleTexts(h, b) + {""})
    ensures MerkleRoot(h, b) == MerkleRoot(h, []) <==> b == [] || b == [h("")]
  {
    if |b| > 1 {
      var text := RootIsDigestOfPair(h, b, width);
      assert text != "";
    } else if |b| == 1 {
      assert b == [b[0]];
    }
  }

  /** These are the only ways for lists that are not empty: two such lists have the same root if and only if
      the nodes of the taller tree at the height of the other, spelled out with the padding, are the other's
      leaves. */
  lemma {:induction false} RootsEqualExactlyWhen(h: TextHash, a: seq<string>, b: seq<string>, width: nat)
    requires FixedWidth(h, width) && Wide(a, width) && Wide(b, width)
    requires a != [] && b != [] && Height(|a|) >= Height(|b|)
    requires NoCollision(h, MerkleTexts(h, a) + MerkleTexts(h, b))
    ensures MerkleRoot(h, a) == MerkleRoot(h, b) <==> Spelled(Level(h, a, Height(|a|) - Height(|b|))) == Spelled(b)
    decreases |a|
  {
    if Height(|a|) == Height(|b|) {
      RootBindsLeaves(h, a, b, width);
    } else {
      Climb(h, a, width, MerkleTexts(h, b), Height(|a|) - Height(|b|));
      RootsEqualExactlyWhen(h, Combine(h, a), b, width);
    }
  }
}
