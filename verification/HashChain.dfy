/** lib/hash_chain.py: the append-only hash-chained event log, read and written by one process.
    Interleaved writers are in ChainProtocol.dfy; waiting for the lock is in LockWait.dfy. */
module HashChain {
  import opened Hashing
  import opened LockWait

  const GENESIS := "genesis"

  /** One stored line.  `timestamp` is not part of the hashed text. */
  datatype ChainedEvent<E> = ChainedEvent(seqNo: int, prevHash: string, eventHash: string, timestamp: string, event: E)

  /** The JSON text layer.  `loads` gives the event that parsing a text yields. */
  datatype Codec<!E(==, !new)> = Codec(dumps: E -> string, loads: string -> E) {
    /** What a reader of the file sees of an event that was written. */
    function Reload(e: E): E {
      loads(dumps(e))
    }

    /** True of every event that was read back from a file. */
    predicate Parsed(e: E) {
      Reload(e) == e
    }

    /** The text survives a write and a read.  Fails for dictionaries whose integer keys sort
        differently as text: {2: .., 10: ..} comes back as {"10": .., "2": ..}. */
    predicate Stable(e: E) {
      dumps(Reload(e)) == dumps(e)
    }

    /** A JSON object's text starts with an opening brace (RFC 8259, section 4), and printing and
        parsing a parsed event changes nothing. */
    ghost predicate Lawful() {
      && (forall e :: |dumps(e)| > 0 && dumps(e)[0] == '{')
      && (forall e :: Parsed(Reload(e)))
    }
  }

  /** The hashed text: a bare concatenation, with no separator. */
  function HashedText<E(==, !new)>(c: Codec<E>, prevHash: string, e: E): string {
    prevHash + c.dumps(e)
  }

  /** The hash the next event has to link to. */
  function Head<E>(evs: seq<ChainedEvent<E>>): string {
    if evs == [] then GENESIS else evs[|evs| - 1].eventHash
  }

  /** Event `i` carries number `i`, names its predecessor's hash, and has the right hash itself. */
  predicate LinkedAt<E(==, !new)>(h: string -> string, c: Codec<E>, evs: seq<ChainedEvent<E>>, i: nat)
    requires i < |evs|
  {
    && evs[i].seqNo == i
    && evs[i].prevHash == Head(evs[..i])
    && evs[i].eventHash == h(HashedText(c, evs[i].prevHash, evs[i].event))
  }

  ghost predicate WellFormed<E(!new)>(h: string -> string, c: Codec<E>, evs: seq<ChainedEvent<E>>) {
    forall i: nat | i < |evs| :: LinkedAt(h, c, evs, i)
  }

  /** One link, written out: event `i` has number `i`, names the hash of the event before it, `genesis` for the
      first, and has for its own hash that of this name followed at once by its text. */
  lemma {:induction false} LinkedMeans<E(!new)>(h: string -> string, c: Codec<E>, evs: seq<ChainedEvent<E>>, i: nat)
    requires i < |evs|
    ensures LinkedAt(h, c, evs, i) <==>
            && evs[i].seqNo == i
            && evs[i].prevHash == (if i == 0 then "genesis" else evs[i - 1].eventHash)
            && evs[i].eventHash == h(evs[i].prevHash + c.dumps(evs[i].event))
  {
    if i > 0 {
      assert evs[..i][i - 1] == evs[i - 1];
    }
  }

  lemma {:induction false} ValidMeans<E(!new)>(h: string -> string, c: Codec<E>, evs: seq<ChainedEvent<E>>)
    requires WellFormed(h, c, evs)
    ensures forall i: nat | i < |evs| ::
              && evs[i].seqNo == i
              && evs[i].prevHash == (if i == 0 then "genesis" else evs[i - 1].eventHash)
              && evs[i].eventHash == h(evs[i].prevHash + c.dumps(evs[i].event))
  {
    forall i: nat | i < |evs|
      ensures evs[i].seqNo == i && evs[i].prevHash == (if i == 0 then "genesis" else evs[i - 1].eventHash)
      ensures evs[i].eventHash == h(evs[i].prevHash + c.dumps(evs[i].event))
    {
      assert LinkedAt(h, c, evs, i);
      LinkedMeans(h, c, evs, i);
    }
  }

  lemma {:induction false} InvalidMeans<E(!new)>(h: string -> string, c: Codec<E>, evs: seq<ChainedEvent<E>>) returns (i: nat)
    requires !WellFormed(h, c, evs)
    ensures i < |evs|
    ensures evs[i].seqNo != i || evs[i].prevHash != (if i == 0 then "genesis" else evs[i - 1].eventHash) ||
            evs[i].eventHash != h(evs[i].prevHash + c.dumps(evs[i].event))
  {
    i :| i < |evs| && !LinkedAt(h, c, evs, i);
    LinkedMeans(h, c, evs, i);
  }

  predicate Sequenced<E>(evs: seq<ChainedEvent<E>>) {
    forall i | 0 <= i < |evs| :: evs[i].seqNo == i
  }

  /* ---------------------------------------------------------------- the head binds the log */

  ghost function HashedTexts<E(!new)>(c: Codec<E>, evs: seq<ChainedEvent<E>>): set<string> {
    set i | 0 <= i < |evs| :: HashedText(c, evs[i].prevHash, evs[i].event)
  }

  /** Equal up to the timestamps, which the hash does not cover. */
  ghost predicate SameButTimestamps<E>(a: seq<ChainedEvent<E>>, b: seq<ChainedEvent<E>>) {
    && |a| == |b|
    && forall i | 0 <= i < |a| :: a[i].(timestamp := b[i].timestamp) == b[i]
  }

  ghost predicate AllParsed<E(!new)>(c: Codec<E>, evs: seq<ChainedEvent<E>>) {
    forall i | 0 <= i < |evs| :: c.Parsed(evs[i].event)
  }

  predicate Braceless(s: string) {
    forall i | 0 <= i < |s| :: s[i] != '{'
  }

  /** The bare concatenation decodes uniquely: the left part never contains a brace and the right
      part starts with one. */
  lemma {:induction false} UniqueDecoding(p: string, j: string, p': string, j': string)
    requires Braceless(p) && Braceless(p')
    requires |j| > 0 && j[0] == '{' && |j'| > 0 && j'[0] == '{'
    requires p + j == p' + j'
    ensures p == p' && j == j'
  {
    assert (p + j)[|p|] == '{' && (p' + j')[|p'|] == '{';
    assert p == (p + j)[..|p|] && p' == (p' + j')[..|p'|];
    assert j == (p + j)[|p|..] && j' == (p' + j')[|p'|..];
  }

  lemma {:induction false} HeadIsBraceless<E(!new)>(h: string -> string, c: Codec<E>, evs: seq<ChainedEvent<E>>)
    requires HexDigests(h) && WellFormed(h, c, evs)
    ensures Braceless(Head(evs))
    ensures evs == [] <==> Head(evs) == GENESIS
  {
    if evs != [] {
      assert LinkedAt(h, c, evs, |evs| - 1);
      assert IsHex(Head(evs));
      assert !IsHexDigit(GENESIS[0]);
    }
  }

  lemma {:induction false} PrefixWellFormed<E(!new)>(h: string -> string, c: Codec<E>, evs: seq<ChainedEvent<E>>, n: nat)
    requires WellFormed(h, c, evs) && n <= |evs|
    ensures WellFormed(h, c, evs[..n])
  {
    forall i: nat | i < n ensures LinkedAt(h, c, evs[..n], i) {
      assert LinkedAt(h, c, evs, i);
      assert evs[..n][..i] == evs[..i];
    }
  }

  /** Two logs that both verify and end in the same head hold the same events in the same order,
      timestamps aside, unless two of the texts hashed along the way collide. */
  lemma {:induction false} HeadBindsLog<E(!new)>(h: string -> string, c: Codec<E>, a: seq<ChainedEvent<E>>, b: seq<ChainedEvent<E>>)
    requires HexDigests(h) && c.Lawful()
    requires WellFormed(h, c, a) && WellFormed(h, c, b)
    requires AllParsed(c, a) && AllParsed(c, b)
    requires NoCollision(h, HashedTexts(c, a) + HashedTexts(c, b))
    requires Head(a) == Head(b)
    ensures SameButTimestamps(a, b)
    decreases |a|
  {
    HeadIsBraceless(h, c, a);
    HeadIsBraceless(h, c, b);
    if a != [] {
      var m, n := |a| - 1, |b| - 1;
      var a', b' := a[..m], b[..n];
      assert LinkedAt(h, c, a, m) && LinkedAt(h, c, b, n);
      PrefixWellFormed(h, c, a, m);
      PrefixWellFormed(h, c, b, n);
      HeadIsBraceless(h, c, a');
      HeadIsBraceless(h, c, b');
      assert HashedText(c, a[m].prevHash, a[m].event) in HashedTexts(c, a);
      assert HashedText(c, b[n].prevHash, b[n].event) in HashedTexts(c, b);
      UniqueDecoding(a[m].prevHash, c.dumps(a[m].event), b[n].prevHash, c.dumps(b[n].event));
      assert c.Parsed(a[m].event) && c.Parsed(b[n].event);
      assert HashedTexts(c, a') <= HashedTexts(c, a) && HashedTexts(c, b') <= HashedTexts(c, b);
      HeadBindsLog(h, c, a', b');
    }
  }

  /** An intermediate hash binds the prefix that leads to it: if one log's head occurs in the other,
      the first is a prefix of the second. */
  lemma {:induction false} HeadBindsPrefix<E(!new)>(h: string -> string, c: Codec<E>, a: seq<ChainedEvent<E>>, b: seq<ChainedEvent<E>>, k: nat)
    requires HexDigests(h) && c.Lawful()
    requires WellFormed(h, c, a) && WellFormed(h, c, b)
    requires AllParsed(c, a) && AllParsed(c, b)
    requires NoCollision(h, HashedTexts(c, a) + HashedTexts(c, b))
    requires k < |b| && Head(a) == b[k].eventHash
    ensures |a| == k + 1 && SameButTimestamps(a, b[..k + 1])
  {
    var b' := b[..k + 1];
    PrefixWellFormed(h, c, b, k + 1);
    assert HashedTexts(c, b') <= HashedTexts(c, b);
    HeadBindsLog(h, c, a, b');
  }

  /** The same event under the same predecessor always gets the same hash, so the timestamps of a
      verified log can be rewritten at will without verification noticing. */
  lemma {:induction false} TimestampsAreFree<E(!new)>(h: string -> string, c: Codec<E>, a: seq<ChainedEvent<E>>, b: seq<ChainedEvent<E>>)
    requires SameButTimestamps(a, b)
    ensures WellFormed(h, c, a) <==> WellFormed(h, c, b)
    ensures Head(a) == Head(b)
  {
    forall i: nat | i < |a| ensures LinkedAt(h, c, a, i) <==> LinkedAt(h, c, b, i) {
      assert a[i].(timestamp := b[i].timestamp) == b[i];
      if i > 0 {
        assert a[i - 1].(timestamp := b[i - 1].timestamp) == b[i - 1];
        assert a[..i][i - 1] == a[i - 1] && b[..i][i - 1] == b[i - 1];
      }
    }
    if |a| > 0 {
      assert a[|a| - 1].(timestamp := b[|a| - 1].timestamp) == b[|a| - 1];
    }
  }

  /* ---------------------------------------------------------------- appending */

  /** What `append` writes after a log that ends in `evs`, before the text round trip. */
  function NextEvent<E(==, !new)>(h: string -> string, c: Codec<E>, evs: seq<ChainedEvent<E>>, e: E, now: string): ChainedEvent<E> {
    var prev := Head(evs);
    ChainedEvent(if evs == [] then 0 else evs[|evs| - 1].seqNo + 1, prev, h(HashedText(c, prev, e)), now, e)
  }

  /** The cached fields of one log object. */
  datatype Cache = Cache(nextSeq: int, prevHash: string)

  /** `_load_chain_state`: an empty log leaves the cache as it is. */
  function LoadTail<E>(evs: seq<ChainedEvent<E>>, k: Cache): Cache {
    if evs == [] then k else Cache(evs[|evs| - 1].seqNo + 1, evs[|evs| - 1].eventHash)
  }

  /** The event made from a cached state. */
  function Chain<E(==, !new)>(h: string -> string, c: Codec<E>, k: Cache, e: E, now: string): ChainedEvent<E> {
    ChainedEvent(k.nextSeq, k.prevHash, h(HashedText(c, k.prevHash, e)), now, e)
  }

  /** From a reloaded cache it continues the log; on an empty log the cache must be that of a new object. */
  lemma {:induction false} ReloadedChainContinues<E(!new)>(h: string -> string, c: Codec<E>, evs: seq<ChainedEvent<E>>, k: Cache, e: E, now: string)
    ensures Chain(h, c, LoadTail(evs, k), e, now) == NextEvent(h, c, evs, e, now) <==>
            evs != [] || k == Cache(0, GENESIS)
  {
  }

  /** The line as every later reader sees it. */
  function Stored<E(==, !new)>(c: Codec<E>, r: ChainedEvent<E>): ChainedEvent<E> {
    r.(event := c.Reload(r.event))
  }

  /** Appending to a log that verifies gives one that verifies exactly when the event's text survives
      the write and the read, unless the two texts collide.  The documentation promises it always. */
  lemma {:induction false} AppendVerifiesIffStable<E(!new)>(h: string -> string, c: Codec<E>, evs: seq<ChainedEvent<E>>, e: E, now: string)
    requires WellFormed(h, c, evs)
    requires NoCollision(h, {HashedText(c, Head(evs), e), HashedText(c, Head(evs), c.Reload(e))})
    ensures WellFormed(h, c, evs + [Stored(c, NextEvent(h, c, evs, e, now))]) <==> c.Stable(e)
  {
    var r := Stored(c, NextEvent(h, c, evs, e, now));
    var longer := evs + [r];
    var n := |evs|;
    assert longer[..n] == evs;
    if n > 0 { assert LinkedAt(h, c, evs, n - 1); }
    forall i: nat | i < n ensures LinkedAt(h, c, longer, i) {
      assert LinkedAt(h, c, evs, i);
      assert longer[..i] == evs[..i];
    }
    assert LinkedAt(h, c, longer, n) <==> r.eventHash == h(HashedText(c, r.prevHash, r.event));
    if HashedText(c, r.prevHash, e) == HashedText(c, r.prevHash, r.event) {
      assert c.dumps(e) == HashedText(c, r.prevHash, e)[|r.prevHash|..];
      assert c.dumps(r.event) == HashedText(c, r.prevHash, r.event)[|r.prevHash|..];
    }
  }

  /** Appending never repairs a log that does not verify. */
  lemma {:induction false} AppendKeepsVerdict<E(!new)>(h: string -> string, c: Codec<E>, evs: seq<ChainedEvent<E>>, r: ChainedEvent<E>)
    requires WellFormed(h, c, evs + [r])
    ensures WellFormed(h, c, evs)
  {
    PrefixWellFormed(h, c, evs + [r], |evs|);
    assert (evs + [r])[..|evs|] == evs;
  }

  /** Dictionaries with the keys 2 and 10: as integers they print in numeric order, and once parsed
      the keys are text and print the other way round. */
  datatype TwoKeys = IntegerKeys | TextKeys

  const twoKeysCodec: Codec<TwoKeys> :=
    Codec((d: TwoKeys) => if d.IntegerKeys? then "{\"2\":null,\"10\":null}" else "{\"10\":null,\"2\":null}",
          (text: string) => TextKeys)

  /** A concrete input on which `append` succeeds and `verify` then rejects the log, whatever the hash, as
      long as it tells the two texts apart. */
  lemma {:induction false} UnstableEventBreaksChain(h: string -> string, now: string)
    requires NoCollision(h, {HashedText(twoKeysCodec, GENESIS, IntegerKeys), HashedText(twoKeysCodec, GENESIS, TextKeys)})
    ensures twoKeysCodec.Lawful()
    ensures !twoKeysCodec.Stable(IntegerKeys)
    ensures !WellFormed(h, twoKeysCodec, [Stored(twoKeysCodec, NextEvent(h, twoKeysCodec, [], IntegerKeys, now))])
  {
    var r := Stored(twoKeysCodec, NextEvent(h, twoKeysCodec, [], IntegerKeys, now));
    assert twoKeysCodec.dumps(IntegerKeys)[2] == '2' && twoKeysCodec.dumps(TextKeys)[2] == '1';
    assert forall e :: twoKeysCodec.Reload(e) == TextKeys;
    AppendVerifiesIffStable(h, twoKeysCodec, [], IntegerKeys, now);
    assert [] + [r] == [r];
  }

  /* ---------------------------------------------------------------- the file and its readers */

  /** A line of the file and its length in bytes, line end included; `None` is a blank line. */
  datatype Line<E> = Line(width: nat, rec: Option<ChainedEvent<E>>)

  function Events<E>(lines: seq<Line<E>>): seq<ChainedEvent<E>> {
    if lines == [] then []
    else Events(lines[..|lines| - 1]) + match lines[|lines| - 1].rec { case None => [] case Some(r) => [r] }
  }

  lemma {:induction false} EventsOfPrefix<E>(lines: seq<Line<E>>, n: nat)
    requires n <= |lines|
    ensures Events(lines[..n]) <= Events(lines)
  {
    if n < |lines| {
      EventsOfPrefix(lines[..|lines| - 1], n);
      assert lines[..|lines| - 1][..n] == lines[..n];
    } else {
      assert lines[..n] == lines;
    }
  }

  /** One more line is one more event, unless it is blank. */
  lemma {:induction false} EventsSnoc<E>(lines: seq<Line<E>>, n: nat)
    requires n < |lines|
    ensures Events(lines[..n + 1]) == Events(lines[..n]) + match lines[n].rec { case None => [] case Some(r) => [r] }
  {
    assert lines[..n + 1][..n] == lines[..n];
  }

  datatype VerificationResult = VerificationResult(valid: bool, totalEvents: nat, verifiedEvents: nat,
                                                   firstInvalidSeq: Option<int>, chainHeadHash: Option<string>)

  /** The longest prefix that verifies, and the stored number of the event after it. */
  ghost predicate Verdict<E(!new)>(h: string -> string, c: Codec<E>, evs: seq<ChainedEvent<E>>, v: VerificationResult) {
    && v.totalEvents == |evs|
    && v.verifiedEvents <= |evs|
    && (v.valid <==> WellFormed(h, c, evs))
    && WellFormed(h, c, evs[..v.verifiedEvents])
    && (forall n: nat | v.verifiedEvents < n <= |evs| :: !WellFormed(h, c, evs[..n]))
    && (v.valid ==> v.verifiedEvents == |evs| && v.firstInvalidSeq == None && v.chainHeadHash == Some(Head(evs)))
    && (!v.valid ==> v.verifiedEvents < |evs| && v.firstInvalidSeq == Some(evs[v.verifiedEvents].seqNo) && v.chainHeadHash == None)
  }

  lemma {:induction false} BrokenLinkBreaksLonger<E(!new)>(h: string -> string, c: Codec<E>, evs: seq<ChainedEvent<E>>, i: nat)
    requires i < |evs| && !LinkedAt(h, c, evs, i)
    ensures forall n: nat | i < n <= |evs| :: !WellFormed(h, c, evs[..n])
  {
    forall n: nat | i < n <= |evs| ensures !WellFormed(h, c, evs[..n]) {
      assert evs[..n][..i] == evs[..i];
      assert !LinkedAt(h, c, evs[..n], i);
    }
  }

  /** The events numbered a, a+1, .., b-1 of a log numbered from 0. */
  function Slice<E>(evs: seq<ChainedEvent<E>>, a: int, b: int): seq<ChainedEvent<E>> {
    var lo := if a < 0 then 0 else if a > |evs| then |evs| else a;
    var hi := if b < lo then lo else if b > |evs| then |evs| else b;
    evs[lo..hi]
  }

  lemma {:induction false} SliceSnoc<E>(evs: seq<ChainedEvent<E>>, ev: ChainedEvent<E>, a: int, b: int)
    ensures Slice(evs + [ev], a, b) == Slice(evs, a, b) + if a <= |evs| < b then [ev] else []
  {
  }

  /** Past the end of the range nothing more is to be found. */
  lemma {:induction false} SliceStops<E>(evs: seq<ChainedEvent<E>>, n: nat, a: int, b: int)
    requires n <= |evs| && n >= b
    ensures Slice(evs, a, b) == Slice(evs[..n], a, b)
  {
  }

  /** The event a line adds carries, on a numbered log, its position as its number. */
  lemma {:induction false} NumberOfLine<E>(lines: seq<Line<E>>, i: nat)
    requires i < |lines|
    ensures Events(lines[..i]) <= Events(lines)
    ensures lines[i].rec.Some? ==> |Events(lines[..i])| < |Events(lines)| && Events(lines)[|Events(lines[..i])|] == lines[i].rec.value
  {
    EventsSnoc(lines, i);
    EventsOfPrefix(lines, i + 1);
    EventsOfPrefix(lines, i);
    if lines[i].rec.Some? {
      assert Events(lines[..i + 1])[|Events(lines[..i])|] == lines[i].rec.value;
    }
  }

  class LogFile<E> {
    var lines: seq<Line<E>>

    constructor ()
      ensures lines == []
    {
      lines := [];
    }
  }

  datatype AppendError = Closed | LockTimeout

  datatype CloseError = ChainIntegrity

  class HashChainedLog<E(==, !new)> {
    const file: LogFile<E>
    const hash: string -> string
    const codec: Codec<E>
    const width: ChainedEvent<E> -> nat
    const backoff: seq<real>
    const verifyOnClose: bool
    var nextSeq: int
    var prevHash: string
    var closed: bool

    ghost predicate Valid() {
      backoff != []
    }

    ghost function Cached(): Cache
      reads this
    {
      Cache(nextSeq, prevHash)
    }

    constructor (file: LogFile<E>, hash: string -> string, codec: Codec<E>, width: ChainedEvent<E> -> nat,
                 backoff: seq<real>, verifyOnClose: bool)
      ensures this.file == file && this.hash == hash && this.codec == codec && this.width == width
      ensures this.verifyOnClose == verifyOnClose && this.backoff == if backoff == [] then [0.1, 0.5, 2.0] else backoff
      ensures Valid() && !closed && Cached() == LoadTail(Events(file.lines), Cache(0, GENESIS))
    {
      this.file, this.hash, this.codec, this.width, this.verifyOnClose := file, hash, codec, width, verifyOnClose;
      this.backoff := if backoff == [] then [0.1, 0.5, 2.0] else backoff;
      nextSeq, prevHash, closed := 0, GENESIS, false;
      new;
      LoadChainState();
    }

    method LoadChainState()
      modifies this`nextSeq, this`prevHash
      ensures Cached() == LoadTail(Events(file.lines), old(Cached()))
    {
      var last: Option<ChainedEvent<E>> := None;
      for i := 0 to |file.lines|
        invariant var evs := Events(file.lines[..i]); last == if evs == [] then None else Some(evs[|evs| - 1])
        invariant nextSeq == old(nextSeq) && prevHash == old(prevHash)
      {
        EventsSnoc(file.lines, i);
        if file.lines[i].rec.Some? {
          last := file.lines[i].rec;
        }
      }
      assert file.lines[..|file.lines|] == file.lines;
      if last.Some? {
        nextSeq := last.value.seqNo + 1;
        prevHash := last.value.eventHash;
      }
    }

    /** Whatever the cached state was, the written event continues the file as it is under the lock; only
        on an empty file does the cached state decide.  A refusal changes nothing: the log was closed, or the
        first attempt to stop at did not find the lock free.  The log may be invalid, and the cached state
        stale. */
    method Append(event: E, now: string, env: Surroundings, timeout: real, ghost last: nat)
      returns (r: Result<ChainedEvent<E>, AppendError>)
      requires Valid() && env.Valid() && Stops(env, timeout, backoff, last)
      modifies this`nextSeq, this`prevHash, file
      ensures closed ==> r == Err(Closed)
      ensures !closed ==>
                && (r.Err? ==> r.error == LockTimeout)
                && exists k: nat :: FirstStop(env, timeout, backoff, k) && (r.Ok? <==> env.free(k))
      ensures r.Err? ==> file.lines == old(file.lines) && Cached() == old(Cached())
      ensures r.Ok? ==>
                var evs := old(Events(file.lines));
                && r.value == Chain(hash, codec, LoadTail(evs, old(Cached())), event, now)
                && (evs != [] || old(Cached()) == Cache(0, GENESIS) ==> r.value == NextEvent(hash, codec, evs, event, now))
                && file.lines == old(file.lines) + [Line(width(r.value), Some(Stored(codec, r.value)))]
                && Cached() == Cache(r.value.seqNo + 1, r.value.eventHash)
                && Events(file.lines) == evs + [Stored(codec, r.value)]
      ensures r.Ok? ==>
                var evs := old(Events(file.lines));
                && r.value.eventHash == hash(r.value.prevHash + codec.dumps(event))
                && r.value.event == event && r.value.timestamp == now
                && r.value.seqNo == (if evs == [] then old(nextSeq) else evs[|evs| - 1].seqNo + 1)
                && r.value.prevHash == (if evs == [] then old(prevHash) else evs[|evs| - 1].eventHash)
                && Events(file.lines) == evs + [r.value.(event := codec.loads(codec.dumps(event)))]
                && nextSeq == r.value.seqNo + 1 && prevHash == r.value.eventHash
    {
      if closed {
        return Err(Closed);
      }
      var acquired, _, failed := Poll(env, timeout, backoff, last);
      assert FirstStop(env, timeout, backoff, |failed|);
      if !acquired {
        return Err(LockTimeout);
      }
      LoadChainState();
      var eventHash := hash(HashedText(codec, prevHash, event));
      var chained := ChainedEvent(nextSeq, prevHash, eventHash, now, event);
      ghost var before := file.lines;
      file.lines := file.lines + [Line(width(chained), Some(Stored(codec, chained)))];
      assert file.lines[..|before|] == before;
      prevHash := eventHash;
      nextSeq := nextSeq + 1;
      return Ok(chained);
    }

    method ReadAll() returns (evs: seq<ChainedEvent<E>>)
      ensures evs == Events(file.lines)
    {
      evs := [];
      for i := 0 to |file.lines|
        invariant evs == Events(file.lines[..i])
      {
        EventsSnoc(file.lines, i);
        if file.lines[i].rec.Some? {
          evs := evs + [file.lines[i].rec.value];
        }
      }
      assert file.lines[..|file.lines|] == file.lines;
    }

    /** On a log numbered 0, 1, 2, .. the early exit loses nothing: the result is the slice. */
    method ReadRange(startSeq: int, endSeq: int) returns (r: seq<ChainedEvent<E>>)
      ensures Sequenced(Events(file.lines)) ==> r == Slice(Events(file.lines), startSeq, endSeq)
    {
      r := [];
      ghost var all := Events(file.lines);
      for i := 0 to |file.lines|
        invariant Sequenced(all) ==> r == Slice(Events(file.lines[..i]), startSeq, endSeq)
      {
        ghost var front := Events(file.lines[..i]);
        EventsSnoc(file.lines, i);
        NumberOfLine(file.lines, i);
        if file.lines[i].rec.Some? {
          var ev := file.lines[i].rec.value;
          SliceSnoc(front, ev, startSeq, endSeq);
          if startSeq <= ev.seqNo < endSeq {
            r := r + [ev];
          } else if ev.seqNo >= endSeq {
            if Sequenced(all) {
              SliceStops(all, |front|, startSeq, endSeq);
              assert all[..|front|] == front;
            }
            return;
          }
        }
      }
      assert file.lines[..|file.lines|] == file.lines;
    }

    method FindEvent(seqNo: int) returns (r: Option<ChainedEvent<E>>)
      ensures r.Some? ==> r.value in Events(file.lines) && r.value.seqNo == seqNo
      ensures Sequenced(Events(file.lines)) ==>
                var evs := Events(file.lines); r == if 0 <= seqNo < |evs| then Some(evs[seqNo]) else None
    {
      ghost var all := Events(file.lines);
      for i := 0 to |file.lines|
        invariant forall e | e in Events(file.lines[..i]) :: e.seqNo < seqNo
      {
        EventsSnoc(file.lines, i);
        NumberOfLine(file.lines, i);
        if file.lines[i].rec.Some? {
          var ev := file.lines[i].rec.value;
          if ev.seqNo == seqNo {
            return Some(ev);
          } else if ev.seqNo > seqNo {
            return None;
          }
        }
      }
      assert file.lines[..|file.lines|] == file.lines;
      return None;
    }

    /** Valid exactly for logs whose every event has its number, its link and its hash. */
    method Verify() returns (v: VerificationResult, ghost evs: seq<ChainedEvent<E>>)
      ensures Verdict(hash, codec, Events(file.lines), v)
      ensures evs == Events(file.lines)
      ensures v.valid <==> forall i: nat | i < |evs| ::
                             && evs[i].seqNo == i
                             && evs[i].prevHash == (if i == 0 then "genesis" else evs[i - 1].eventHash)
                             && evs[i].eventHash == hash(evs[i].prevHash + codec.dumps(evs[i].event))
      ensures v.valid ==> v.chainHeadHash == Some(if evs == [] then "genesis" else evs[|evs| - 1].eventHash)
    {
      var all := ReadAll();
      evs := all;
      v := VerifyEvents(all);
      if v.valid {
        ValidMeans(hash, codec, evs);
      } else {
        ghost var i := InvalidMeans(hash, codec, evs);
      }
    }

    method VerifyEvents(evs: seq<ChainedEvent<E>>) returns (v: VerificationResult)
      ensures Verdict(hash, codec, evs, v)
    {
      if evs == [] {
        return VerificationResult(true, 0, 0, None, Some(GENESIS));
      }
      var prev := GENESIS;
      var verified := 0;
      for i := 0 to |evs|
        invariant verified == i && prev == Head(evs[..i])
        invariant forall k: nat | k < i :: LinkedAt(hash, codec, evs, k)
        invariant WellFormed(hash, codec, evs[..i])
      {
        var event := evs[i];
        if event.seqNo != verified || event.prevHash != prev || event.eventHash != hash(HashedText(codec, prev, event.event)) {
          BrokenLinkBreaksLonger(hash, codec, evs, i);
          assert evs[..|evs|] == evs;
          return VerificationResult(false, |evs|, verified, Some(event.seqNo), None);
        }
        ghost var longer := evs[..i + 1];
        forall k: nat | k < |longer| ensures LinkedAt(hash, codec, longer, k) {
          assert LinkedAt(hash, codec, evs, k);
          assert longer[..k] == evs[..k];
        }
        prev := event.eventHash;
        verified := verified + 1;
      }
      assert evs[..|evs|] == evs;
      return VerificationResult(true, |evs|, verified, None, Some(prev));
    }

    /** Closing with verification refuses exactly the logs that do not verify, and then stays open. */
    method Close(verify: Option<bool>) returns (r: Result<VerificationResult, CloseError>)
      modifies this`closed
      ensures var asked := if verify.Some? then verify.value else verifyOnClose;
              && (r.Err? <==> asked && !WellFormed(hash, codec, Events(file.lines)))
              && (asked && r.Ok? ==> Verdict(hash, codec, Events(file.lines), r.value))
              && closed == (r.Ok? || old(closed))
    {
      var shouldVerify := if verify.Some? then verify.value else verifyOnClose;
      if shouldVerify {
        var result, _ := Verify();
        if !result.valid {
          return Err(ChainIntegrity);
        }
        closed := true;
        return Ok(result);
      }
      closed := true;
      return Ok(VerificationResult(true, 0, 0, None, None));
    }
  }

  /* ---------------------------------------------------------------- the offset index */

  function Offset<E>(lines: seq<Line<E>>, n: nat): nat
    requires n <= |lines|
  {
    if n == 0 then 0 else Offset(lines, n - 1) + lines[n - 1].width
  }

  /** Seeking to a byte offset and reading one line; `None` when the offset is not the start of a line. */
  function ReadLineAt<E>(lines: seq<Line<E>>, offset: int): Option<Line<E>> {
    if lines == [] then None
    else if offset == 0 then Some(lines[0])
    else if offset < lines[0].width then None
    else ReadLineAt(lines[1..], offset - lines[0].width)
  }

  lemma {:induction false} OffsetShift<E>(lines: seq<Line<E>>, n: nat)
    requires 0 < n <= |lines|
    ensures Offset(lines, n) == lines[0].width + Offset(lines[1..], n - 1)
  {
    if n > 1 {
      OffsetShift(lines, n - 1);
      assert lines[1..][n - 2] == lines[n - 1];
    }
  }

  lemma {:induction false} ReadLineAtOffset<E>(lines: seq<Line<E>>, n: nat)
    requires n < |lines| && forall l | l in lines :: l.width > 0
    ensures ReadLineAt(lines, Offset(lines, n)) == Some(lines[n])
    decreases n
  {
    if n > 0 {
      OffsetShift(lines, n);
      ReadLineAtOffset(lines[1..], n - 1);
      assert lines[0].width > 0;
    }
  }

  /** Position of the event numbered by its index among the lines. */
  lemma {:induction false} LineOfEvent<E>(lines: seq<Line<E>>, s: nat) returns (n: nat)
    requires s < |Events(lines)|
    ensures n < |lines| && lines[n].rec == Some(Events(lines)[s]) && |Events(lines[..n])| == s
    decreases |lines|
  {
    var m := |lines| - 1;
    if s < |Events(lines[..m])| {
      n := LineOfEvent(lines[..m], s);
      assert lines[..m][..n] == lines[..n];
    } else {
      n := m;
    }
  }

  /** Each number that occurs in the first `n` lines is mapped to the start of the last of them that carries it. */
  ghost predicate Indexes<E>(lines: seq<Line<E>>, n: nat, index: map<int, nat>)
    requires n <= |lines|
  {
    && (forall s :: s in index <==> exists e :: e in Events(lines[..n]) && e.seqNo == s)
    && forall s | s in index :: IndexedTo(lines, n, s, index[s])
  }

  lemma {:induction false} IndexedMore<E>(lines: seq<Line<E>>, n: nat, index: map<int, nat>)
    requires n < |lines| && Indexes(lines, n, index)
    ensures Indexes(lines, n + 1, if lines[n].rec.Some? then index[lines[n].rec.value.seqNo := Offset(lines, n)] else index)
  {
    EventsSnoc(lines, n);
    var next := if lines[n].rec.Some? then index[lines[n].rec.value.seqNo := Offset(lines, n)] else index;
    forall s | s in next ensures IndexedTo(lines, n + 1, s, next[s]) {
      if lines[n].rec.Some? && lines[n].rec.value.seqNo == s {
        assert IndexWitness(lines, n + 1, s, next[s], n);
      } else {
        var k: nat :| k < n && IndexWitness(lines, n, s, index[s], k);
        assert IndexWitness(lines, n + 1, s, next[s], k);
      }
    }
  }

  class ChainIndex<E(!new)> {
    const file: LogFile<E>
    var index: map<int, nat>

    constructor (file: LogFile<E>)
      ensures this.file == file && index == map[]
    {
      this.file, index := file, map[];
    }

    /** Each number that occurs is mapped to the start of the last line that carries it. */
    method Rebuild() returns (n: nat)
      modifies this`index
      ensures n == |index|
      ensures forall s :: s in index <==> exists e :: e in Events(file.lines) && e.seqNo == s
      ensures forall s | s in index :: IndexedTo(file.lines, |file.lines|, s, index[s])
    {
      index := map[];
      var offset := 0;
      for i := 0 to |file.lines|
        invariant offset == Offset(file.lines, i)
        invariant Indexes(file.lines, i, index)
      {
        IndexedMore(file.lines, i, index);
        var line := file.lines[i];
        if line.rec.Some? {
          index := index[line.rec.value.seqNo := offset];
        }
        offset := offset + line.width;
      }
      assert file.lines[..|file.lines|] == file.lines;
      return |index|;
    }

    method GetOffset(s: int) returns (r: Option<nat>)
      ensures r == if s in index then Some(index[s]) else None
    {
      return if s in index then Some(index[s]) else None;
    }
  }

  /** Line `k` is the last of the first `n` lines that carries number `s`, and it starts at `offset`. */
  ghost predicate IndexWitness<E>(lines: seq<Line<E>>, n: nat, s: int, offset: nat, k: nat)
    requires n <= |lines|
  {
    && k < n && offset == Offset(lines, k)
    && lines[k].rec.Some? && lines[k].rec.value.seqNo == s
    && forall j | k < j < n && lines[j].rec.Some? :: lines[j].rec.value.seqNo != s
  }

  ghost predicate IndexedTo<E>(lines: seq<Line<E>>, n: nat, s: int, offset: nat)
    requires n <= |lines|
  {
    exists k: nat :: k < n && IndexWitness(lines, n, s, offset, k)
  }

  /** On a log numbered 0, 1, 2, .. an index entry for `s` leads to event `s`. */
  lemma {:induction false} IndexLeadsToEvent<E(!new)>(lines: seq<Line<E>>, s: nat, offset: nat)
    requires forall l | l in lines :: l.width > 0
    requires Sequenced(Events(lines)) && s < |Events(lines)|
    requires IndexedTo(lines, |lines|, s, offset)
    ensures ReadLineAt(lines, offset).Some? && ReadLineAt(lines, offset).value.rec == Some(Events(lines)[s])
  {
    var k: nat :| k < |lines| && IndexWitness(lines, |lines|, s, offset, k);
    ReadLineAtOffset(lines, k);
    EventsSnoc(lines, k);
    EventsOfPrefix(lines, k + 1);
    var evs := Events(lines);
    assert Events(lines[..k + 1])[|Events(lines[..k])|] == lines[k].rec.value;
    assert evs[|Events(lines[..k])|] == lines[k].rec.value;
  }
}
