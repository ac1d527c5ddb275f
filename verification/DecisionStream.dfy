/** lib/decision_capture.py: the buffered, mirrored decision stream, as an object used by one thread at
    a time.  DecisionThreads.dfy has the interleaved threads and the crashes. */
module DecisionStream {
  import opened Hashing

  /** `json.dumps(record)`, none if the record cannot be serialised. */
  type Dumps<!R> = R -> Option<string>

  /** The rows the given decisions leave on disk, in order. */
  function Rows<R>(dumps: Dumps<R>, decisions: seq<R>): seq<string> {
    if decisions == [] then []
    else Rows(dumps, decisions[..|decisions| - 1]) + Row(dumps, decisions[|decisions| - 1])
  }

  function Row<R>(dumps: Dumps<R>, r: R): seq<string> {
    match dumps(r) { case None => [] case Some(text) => [text + "\n"] }
  }

  /** `"".join(rows)` */
  function Join(rows: seq<string>): string {
    if rows == [] then "" else Join(rows[..|rows| - 1]) + rows[|rows| - 1]
  }

  lemma {:induction false} RowsSnoc<R>(dumps: Dumps<R>, decisions: seq<R>, r: R)
    ensures Rows(dumps, decisions + [r]) == Rows(dumps, decisions) + Row(dumps, r)
  {
    assert (decisions + [r])[..|decisions|] == decisions;
  }

  /** A record that can be serialised adds one row, its text and a line end, and any other none. */
  lemma {:induction false} RowsAre<R>(dumps: Dumps<R>, decisions: seq<R>, r: R)
    ensures Rows(dumps, []) == []
    ensures Rows(dumps, decisions + [r]) == Rows(dumps, decisions) + if dumps(r).Some? then [dumps(r).value + "\n"] else []
  {
    RowsSnoc(dumps, decisions, r);
  }

  /** Writing a batch gives the bytes of writing its rows one at a time. */
  lemma {:induction false} JoinConcat(a: seq<string>, b: seq<string>)
    ensures Join(a + b) == Join(a) + Join(b)
  {
    if b == [] {
      assert a + b == a;
    } else {
      var front := b[..|b| - 1];
      JoinConcat(a, front);
      assert (a + b)[..|a + b| - 1] == a + front;
    }
  }

  lemma {:induction false} JoinSnoc(rows: seq<string>, row: string)
    ensures Join(rows + [row]) == Join(rows) + row
  {
    assert (rows + [row])[..|rows|] == rows;
  }

  /** Every decision has its row exactly when every decision can be serialised. */
  lemma {:induction false} RowsCompleteIff<R>(dumps: Dumps<R>, decisions: seq<R>)
    ensures |Rows(dumps, decisions)| <= |decisions|
    ensures |Rows(dumps, decisions)| == |decisions| <==> forall r | r in decisions :: dumps(r).Some?
    ensures |Rows(dumps, decisions)| == |decisions| ==>
              forall i | 0 <= i < |decisions| :: Rows(dumps, decisions)[i] == dumps(decisions[i]).value + "\n"
  {
    if decisions != [] {
      var (front, last) := (decisions[..|decisions| - 1], decisions[|decisions| - 1]);
      assert decisions == front + [last];
      RowsCompleteIff(dumps, front);
    }
  }

  datatype Stream = Stream(open: bool, disk: string)

  /** `_emit_to_stream_handles` on one handle; writes succeed. */
  function Written(s: Stream, data: string): Stream {
    if s.open then s.(disk := s.disk + data) else s
  }

  function AllWritten(streams: seq<Stream>, data: string): seq<Stream> {
    seq(|streams|, i requires 0 <= i < |streams| => Written(streams[i], data))
  }

  function AllClosed(streams: seq<Stream>): seq<Stream> {
    seq(|streams|, i requires 0 <= i < |streams| => streams[i].(open := false))
  }

  /** Every open stream's bytes, followed by `tail`, are `text`. */
  ghost predicate Synced(streams: seq<Stream>, tail: string, text: string) {
    forall s | s in streams && s.open :: s.disk + tail == text
  }

  lemma {:induction false} SyncedWrites(streams: seq<Stream>, tail: string, text: string, line: string)
    requires Synced(streams, tail, text)
    ensures Synced(streams, tail + line, text + line)
    ensures Synced(AllWritten(streams, tail), "", text)
    ensures tail == "" ==> Synced(AllWritten(streams, line), "", text + line)
  {
    forall s | s in streams && s.open ensures s.disk + (tail + line) == text + line {
      assert s.disk + (tail + line) == (s.disk + tail) + line;
    }
    forall x, s | s in AllWritten(streams, x) && s.open ensures exists t :: t in streams && t.open && s == Written(t, x) {
      var i :| 0 <= i < |streams| && s == Written(streams[i], x);
      assert streams[i] in streams;
    }
  }

  class DecisionCapture<R> {
    const dumps: Dumps<R>
    const streaming: bool
    const buffered: bool
    const bufferRows: nat
    var decisions: seq<R>
    var buffer: seq<string>
    /** the primary, the legacy and the run stream */
    var streams: seq<Stream>
    var closed: bool

    /** While the capture is open each open stream's bytes followed by the buffered rows are the rows of
        the decisions, in order. */
    ghost predicate Valid()
      reads this
    {
      && |streams| == 3 && bufferRows > 0
      && (!streaming || !buffered ==> buffer == [])
      && |buffer| < bufferRows
      && (closed ==> forall s | s in streams :: !s.open)
      && (streaming && !closed ==> Synced(streams, Join(buffer), Join(Rows(dumps, decisions))))
    }

    /** `handles` says which of the three handles could be handles; without the primary one nothing is
        ever streamed.  The row limit falls back to 50. */
    constructor (dumps: Dumps<R>, wantStreaming: bool, wantBuffer: bool, rows: int, handles: (bool, bool, bool))
      ensures Valid() && !closed && decisions == [] && buffer == []
      ensures this.dumps == dumps && streaming == (wantStreaming && handles.0) && buffered == wantBuffer
      ensures bufferRows == if rows > 0 then rows else 50
      ensures wantStreaming ==> streams == [Stream(handles.0, ""), Stream(handles.1, ""), Stream(handles.2, "")]
    {
      this.dumps, streaming, buffered := dumps, wantStreaming && handles.0, wantBuffer;
      bufferRows := if rows > 0 then rows else 50;
      decisions, buffer, closed := [], [], false;
      streams := if wantStreaming then [Stream(handles.0, ""), Stream(handles.1, ""), Stream(handles.2, "")]
                 else [Stream(false, ""), Stream(false, ""), Stream(false, "")];
    }

    method Emit(data: string)
      requires |streams| == 3
      modifies this`streams
      ensures streams == AllWritten(old(streams), data)
    {
      for i := 0 to 3
        invariant |streams| == 3
        invariant forall j | 0 <= j < 3 :: streams[j] == if j < i then Written(old(streams)[j], data) else old(streams)[j]
      {
        if streams[i].open {
          streams := streams[i := streams[i].(disk := streams[i].disk + data)];
        }
      }
    }

    method FlushBuffer()
      requires |streams| == 3
      modifies this`buffer, this`streams
      ensures buffer == [] && streams == AllWritten(old(streams), Join(old(buffer)))
    {
      if buffer == [] {
        assert forall i | 0 <= i < 3 :: streams[i].disk + "" == streams[i].disk;
        assert streams == AllWritten(streams, "");
        return;
      }
      var blob := JoinRows(buffer);
      buffer := [];
      Emit(blob);
    }

    method JoinRows(rows: seq<string>) returns (blob: string)
      ensures blob == Join(rows)
    {
      blob := "";
      for i := 0 to |rows|
        invariant blob == Join(rows[..i])
      {
        assert rows[..i + 1][..i] == rows[..i];
        blob := blob + rows[i];
      }
      assert rows[..|rows|] == rows;
    }

    /** The decision is remembered even when serialising it raises; its row is then missing for good. */
    method LogDecision(r: R) returns (raised: bool)
      requires Valid()
      modifies this`decisions, this`buffer, this`streams
      ensures Valid()
      ensures decisions == old(decisions) + [r]
      ensures raised <==> streaming && dumps(r) == None
      ensures |streams| == 3 && forall i | 0 <= i < 3 :: streams[i].open == old(streams[i].open) && old(streams[i].disk) <= streams[i].disk
      ensures forall i | 0 <= i < 3 && !old(streams[i].open) :: streams[i] == old(streams[i])
      ensures streaming && !buffered && dumps(r).Some? ==> streams == AllWritten(old(streams), dumps(r).value + "\n")
      ensures streaming && buffered && dumps(r).Some? ==>
                var rows := old(buffer) + [dumps(r).value + "\n"];
                if |rows| < bufferRows then streams == old(streams) && buffer == rows else streams == AllWritten(old(streams), Join(rows)) && buffer == []
      ensures !streaming || raised ==> streams == old(streams) && buffer == old(buffer)
    {
      RowsSnoc(dumps, decisions, r);
      decisions := decisions + [r];
      if !streaming {
        return false;
      }
      var text := dumps(r);
      if text == None {
        assert Rows(dumps, decisions) == Rows(dumps, old(decisions));
        return true;
      }
      WriteLine(text.value + "\n", Rows(dumps, old(decisions)));
      return false;
    }

    /** `_write_to_streams` from the serialised line on; `before` are the rows of the earlier decisions. */
    method WriteLine(line: string, ghost before: seq<string>)
      requires streaming && |streams| == 3 && |buffer| < bufferRows && (!buffered ==> buffer == [])
      requires !closed ==> Synced(streams, Join(buffer), Join(before))
      modifies this`buffer, this`streams
      ensures |streams| == 3 && |buffer| < bufferRows && (!buffered ==> buffer == [])
      ensures !closed ==> Synced(streams, Join(buffer), Join(before + [line]))
      ensures forall i | 0 <= i < 3 :: streams[i].open == old(streams[i].open) && old(streams[i].disk) <= streams[i].disk
      ensures forall i | 0 <= i < 3 && !old(streams[i].open) :: streams[i] == old(streams[i])
      ensures !buffered ==> streams == AllWritten(old(streams), line)
      ensures buffered && |old(buffer)| + 1 < bufferRows ==> streams == old(streams) && buffer == old(buffer) + [line]
      ensures buffered && |old(buffer)| + 1 >= bufferRows ==> streams == AllWritten(old(streams), Join(old(buffer) + [line])) && buffer == []
    {
      JoinSnoc(before, line);
      JoinSnoc(buffer, line);
      if !closed {
        SyncedWrites(streams, Join(buffer), Join(before), line);
        SyncedWrites(streams, Join(buffer) + line, Join(before) + line, "");
      }
      if buffered {
        buffer := buffer + [line];
        if |buffer| >= bufferRows {
          FlushBuffer();
        }
      } else {
        Emit(line);
      }
    }

    /** Afterwards, while the capture is open, the bytes of every open stream are those of the
        unbuffered path: the rows of the decisions, whatever the buffering. */
    method Flush()
      requires Valid()
      modifies this`buffer, this`streams
      ensures Valid() && buffer == [] && streams == AllWritten(old(streams), Join(old(buffer)))
      ensures streaming && !closed ==> forall i | 0 <= i < 3 && streams[i].open :: streams[i].disk == Join(Rows(dumps, decisions))
    {
      if streaming && !closed {
        SyncedWrites(streams, Join(buffer), Join(Rows(dumps, decisions)), "");
      }
      FlushBuffer();
      assert forall s: Stream :: s.disk + "" == s.disk;
    }

    method Close()
      requires Valid()
      modifies this`buffer, this`streams, this`closed
      ensures Valid() && closed && buffer == [] && streams == AllClosed(AllWritten(old(streams), Join(old(buffer))))
      ensures streaming && !old(closed) ==> forall i | 0 <= i < 3 && old(streams[i].open) :: streams[i].disk == Join(Rows(dumps, decisions))
    {
      Flush();
      ghost var drained := streams;
      for i := 0 to 3
        invariant |streams| == 3 && buffer == []
        invariant forall j | 0 <= j < 3 :: streams[j] == if j < i then drained[j].(open := false) else drained[j]
      {
        streams := streams[i := streams[i].(open := false)];
      }
      closed := true;
    }
  }

  /** The bytes on disk after closing do not depend on whether, or how, rows were buffered. */
  method CloseEitherWay<R>(dumps: Dumps<R>, records: seq<R>, rows: int, handles: (bool, bool, bool)) returns (direct: seq<Stream>, batched: seq<Stream>)
    ensures direct == batched
    ensures handles.0 ==> |direct| == 3 && direct[0].disk == Join(Rows(dumps, records))
  {
    var a := new DecisionCapture(dumps, true, false, rows, handles);
    var b := new DecisionCapture(dumps, true, true, rows, handles);
    for i := 0 to |records|
      invariant a.Valid() && b.Valid() && !a.closed && !b.closed
      invariant a.decisions == b.decisions == records[..i]
      invariant forall j | 0 <= j < 3 :: a.streams[j].open == b.streams[j].open
      invariant a.streams[0].open == handles.0 && a.streaming == b.streaming == handles.0
      invariant forall j | 0 <= j < 3 && (!a.streams[j].open || !handles.0) :: a.streams[j].disk == b.streams[j].disk == ""
    {
      assert records[..i + 1] == records[..i] + [records[i]];
      var _ := a.LogDecision(records[i]);
      var _ := b.LogDecision(records[i]);
    }
    assert records[..|records|] == records;
    a.Close();
    b.Close();
    direct, batched := a.streams, b.streams;
  }
}
