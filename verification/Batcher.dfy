/** Streaming of query results in numbered responses (service/crud_logic.go). */
module Batcher {
  import opened Prelude

  type Bytes = seq<int>

  /** The size in bytes from which a response is sent. */
  const MAX_BYTES := 1024 * 1024

  // ---------- Rows and batches ----------

  function Size(rows: seq<Bytes>): nat {
    if rows == [] then 0 else Size(rows[..|rows| - 1]) + |rows[|rows| - 1]|
  }

  function Flatten(bs: seq<seq<Bytes>>): seq<Bytes> {
    if bs == [] then [] else Flatten(bs[..|bs| - 1]) + bs[|bs| - 1]
  }

  /** The preferred batch size, clamped. */
  function Clamp(prefer: int): (limit: int)
    ensures 1 <= limit <= 10000
    ensures 1 <= prefer <= 10000 ==> limit == prefer
    ensures prefer < 1 ==> limit == 1
    ensures prefer > 10000 ==> limit == 10000
  {
    if prefer <= 0 then 1 else if prefer > 10000 then 10000 else prefer
  }

  predicate Full(b: seq<Bytes>, limit: int) {
    Size(b) >= 1_048_576 || |b| >= limit
  }

  /** A batch that was closed by its last row. */
  predicate Closed(b: seq<Bytes>, limit: int) {
    |b| > 0 && Full(b, limit) && !Full(b[..|b| - 1], limit)
  }

  predicate AllClosed(bs: seq<seq<Bytes>>, limit: int) {
    forall i :: 0 <= i < |bs| ==> Closed(bs[i], limit)
  }

  /** The batches hold the rows in order; each but the last closes at the first row that reaches
      a limit, and the last, which may be empty, reaches none. */
  ghost predicate IsPartition(bs: seq<seq<Bytes>>, rows: seq<Bytes>, limit: int) {
    && |bs| > 0 && Flatten(bs) == rows
    && AllClosed(bs[..|bs| - 1], limit) && !Full(bs[|bs| - 1], limit)
  }

  /** No batch is longer than preferred, nor than 10000 rows. */
  lemma AtMostPreferred(bs: seq<seq<Bytes>>, rows: seq<Bytes>, prefer: int)
    requires IsPartition(bs, rows, Clamp(prefer))
    ensures forall i :: 0 <= i < |bs| ==> |bs[i]| <= 10000 && (prefer >= 1 ==> |bs[i]| <= prefer)
  {
    forall i | 0 <= i < |bs|
      ensures |bs[i]| <= Clamp(prefer)
    {
      if i < |bs| - 1 {
        assert bs[..|bs| - 1][i] == bs[i];
      }
    }
  }

  lemma {:induction false} SingleRows(bs: seq<seq<Bytes>>)
    requires forall i :: 0 <= i < |bs| ==> |bs[i]| == 1
    ensures |Flatten(bs)| == |bs| && forall i :: 0 <= i < |bs| ==> bs[i] == [Flatten(bs)[i]]
  {
    if bs != [] {
      var front := bs[..|bs| - 1];
      SingleRows(front);
      forall i | 0 <= i < |bs|
        ensures bs[i] == [Flatten(bs)[i]]
      {
        if i < |bs| - 1 {
          assert front[i] == bs[i];
        }
      }
    }
  }

  /** Without a preference every batch holds one row, and an empty one ends them. */
  lemma UnsetPreference(bs: seq<seq<Bytes>>, rows: seq<Bytes>, prefer: int)
    requires IsPartition(bs, rows, Clamp(prefer)) && prefer <= 0
    ensures |bs| == |rows| + 1 && bs[|rows|] == [] && forall i :: 0 <= i < |rows| ==> bs[i] == [rows[i]]
  {
    var closed := bs[..|bs| - 1];
    forall i | 0 <= i < |closed|
      ensures |closed[i]| == 1
    {
      assert Closed(closed[i], 1);
    }
    SingleRows(closed);
    assert Flatten(bs) == Flatten(closed) + [];
  }

  lemma {:induction false} SizeSplit(a: seq<Bytes>, b: seq<Bytes>)
    ensures Size(a + b) == Size(a) + Size(b)
  {
    if b == [] {
      assert a + b == a;
    } else {
      assert (a + b)[..|a + b| - 1] == a + b[..|b| - 1];
      SizeSplit(a, b[..|b| - 1]);
    }
  }

  lemma FullPrefix(a: seq<Bytes>, b: seq<Bytes>, limit: int)
    requires a <= b && Full(a, limit)
    ensures Full(b, limit)
  {
    assert b == a + b[|a|..];
    SizeSplit(a, b[|a|..]);
  }

  lemma {:induction false} FlattenSplit(a: seq<seq<Bytes>>, b: seq<seq<Bytes>>)
    ensures Flatten(a + b) == Flatten(a) + Flatten(b)
  {
    if b == [] {
      assert a + b == a;
    } else {
      assert (a + b)[..|a + b| - 1] == a + b[..|b| - 1];
      FlattenSplit(a, b[..|b| - 1]);
    }
  }

  lemma FlattenOne(b: seq<Bytes>)
    ensures Flatten([b]) == b
  {
    assert Flatten([b]) == Flatten([]) + b;
  }

  /** Two batches closed on the same rows are the same. */
  lemma SameClosed(a: seq<Bytes>, b: seq<Bytes>, rows: seq<Bytes>, limit: int)
    requires Closed(a, limit) && Closed(b, limit) && a <= rows && b <= rows
    ensures a == b
  {
    if |a| < |b| {
      FullPrefix(a, b[..|b| - 1], limit);
    } else if |b| < |a| {
      FullPrefix(b, a[..|a| - 1], limit);
    }
  }

  lemma {:induction false} FirstBatch(bs: seq<seq<Bytes>>, rows: seq<Bytes>)
    requires |bs| > 0 && Flatten(bs) == rows
    ensures bs[0] <= rows && Flatten(bs[1..]) == rows[|bs[0]|..]
  {
    assert bs == [bs[0]] + bs[1..];
    FlattenSplit([bs[0]], bs[1..]);
    FlattenOne(bs[0]);
  }

  /** The local conditions determine the partition: there is only one for the given rows. */
  lemma {:induction false} PartitionUnique(a: seq<seq<Bytes>>, b: seq<seq<Bytes>>, rows: seq<Bytes>, limit: int)
    requires IsPartition(a, rows, limit) && IsPartition(b, rows, limit)
    ensures a == b
    decreases |a|
  {
    FirstBatch(a, rows);
    FirstBatch(b, rows);
    if |a| == 1 || |b| == 1 {
      if |a| > 1 {
        assert a[0] == a[..|a| - 1][0];
        FlattenOne(b[0]);
        FullPrefix(a[0], rows, limit);
      } else if |b| > 1 {
        assert b[0] == b[..|b| - 1][0];
        FlattenOne(a[0]);
        FullPrefix(b[0], rows, limit);
      } else {
        FlattenOne(a[0]);
        FlattenOne(b[0]);
      }
    } else {
      assert a[0] == a[..|a| - 1][0] && b[0] == b[..|b| - 1][0];
      SameClosed(a[0], b[0], rows, limit);
      TailPartition(a, rows, limit);
      TailPartition(b, rows, limit);
      PartitionUnique(a[1..], b[1..], rows[|a[0]|..], limit);
      assert a == [a[0]] + a[1..] && b == [b[0]] + b[1..];
    }
  }

  lemma TailPartition(a: seq<seq<Bytes>>, rows: seq<Bytes>, limit: int)
    requires IsPartition(a, rows, limit) && |a| > 1
    ensures a[0] <= rows && IsPartition(a[1..], rows[|a[0]|..], limit)
  {
    FirstBatch(a, rows);
    var t := a[1..];
    assert t[|t| - 1] == a[|a| - 1];
    assert t[..|t| - 1] == a[..|a| - 1][1..];
  }

  // ---------- Responses and the client ----------

  datatype Resp = Resp(responseNo: int, errInfo: string, msgBytes: seq<Bytes>, msgFormat: int, responseEnd: bool)

  class QueryResp {
    var responseNo: int
    var errInfo: string
    var msgBytes: seq<Bytes>
    var msgFormat: int
    var responseEnd: bool

    constructor (no: int, err: string, format: int, end: bool)
      ensures Snapshot() == Resp(no, err, [], format, end)
    {
      responseNo, errInfo, msgBytes, msgFormat, responseEnd := no, err, [], format, end;
    }

    function Snapshot(): Resp
      reads this
    {
      Resp(responseNo, errInfo, msgBytes, msgFormat, responseEnd)
    }
  }

  /** One call of the send function. A send that reports failure may still have reached the client. */
  datatype Attempt = Attempt(resp: Resp, delivered: bool, ok: bool)

  predicate Sent(log0: seq<Attempt>, log1: seq<Attempt>, resp: Resp, ok: bool) {
    && |log1| == |log0| + 1 && log0 == log1[..|log0|]
    && log1[|log0|].resp == resp && log1[|log0|].ok == ok && (ok ==> log1[|log0|].delivered)
  }

  class Client {
    var log: seq<Attempt>

    method Send(resp: QueryResp) returns (ok: bool, why: string)
      modifies this
      ensures Sent(old(log), log, resp.Snapshot(), ok)
    {
      ok, why := *, *;
      var reached: bool := *;
      log := log + [Attempt(resp.Snapshot(), ok || reached, ok)];
    }
  }

  /** The rows that reached the client, in order. */
  function Received(log: seq<Attempt>): seq<Bytes> {
    if log == [] then []
    else Received(log[..|log| - 1]) + (if log[|log| - 1].delivered then log[|log| - 1].resp.msgBytes else [])
  }

  lemma {:induction false} ReceivedSplit(a: seq<Attempt>, b: seq<Attempt>)
    ensures Received(a + b) == Received(a) + Received(b)
  {
    if b == [] {
      assert a + b == a;
    } else {
      assert (a + b)[..|a + b| - 1] == a + b[..|b| - 1];
      ReceivedSplit(a, b[..|b| - 1]);
    }
  }

  lemma ReceivedOne(t: Attempt)
    ensures Received([t]) == if t.delivered then t.resp.msgBytes else []
  {
    assert Received([t]) == Received([]) + if t.delivered then t.resp.msgBytes else [];
  }

  // ---------- Requests, rows and error texts ----------

  datatype Handler = TableQuery(table: string) | NamedQuery(query: string)

  datatype Stage = Scanning | Marshalling | Sending | Iterating

  function ErrText(h: Handler, stage: Stage, why: string): (t: string)
    ensures t != "" && |why| <= |t| && t[|t| - |why|..] == why
  {
    match stage
    case Scanning => (if h.TableQuery? then "tablequery " + h.table + " scan row data err: " else "scan row data err: ")
      + why
    case Marshalling => (if h.TableQuery? then "tablequery " + h.table + " marshal msg err: " else "marshal msg err: ")
      + why
    case Sending => "send msg fail, " + why
    case Iterating => "query " + (if h.TableQuery? then h.table else h.query) + " err: " + why
  }

  /** What happens to one row: it is scanned and marshalled, or one of the two fails. */
  datatype RowEvent = Row(bytes: Bytes) | ScanFails(why: string) | MarshalFails(why: string)

  /** What happens before the rows: the database lookup's own error is sent as it is; every later
      error is sent inside a text of the handler's. */
  datatype Setup = Ready | NoDatabase(why: string) | Refused(what: string, why: string)

  /** The first n rows are scanned and marshalled. */
  predicate GoodTo(events: seq<RowEvent>, n: nat) {
    n <= |events| && forall i :: 0 <= i < n ==> events[i].Row?
  }

  /** Where the first failing row stands, or the number of rows. */
  function FirstBad(events: seq<RowEvent>, from: nat): (n: nat)
    requires GoodTo(events, from)
    ensures from <= n && GoodTo(events, n)
    ensures n < |events| ==> !events[n].Row?
    decreases |events| - from
  {
    if from < |events| && events[from].Row? then FirstBad(events, from + 1) else from
  }

  function RowsTo(events: seq<RowEvent>, n: nat): (r: seq<Bytes>)
    requires GoodTo(events, n)
    ensures |r| == n && forall i :: 0 <= i < n ==> r[i] == events[i].bytes
  {
    seq(n, i requires 0 <= i < n => events[i].bytes)
  }

  /** The result rows: those before the first failing one. */
  function GoodRows(events: seq<RowEvent>): seq<Bytes> {
    RowsTo(events, FirstBad(events, 0))
  }

  lemma GoodSoFar(events: seq<RowEvent>, i: nat)
    requires GoodTo(events, i)
    ensures RowsTo(events, i) <= GoodRows(events)
  {
  }

  lemma GoodStep(events: seq<RowEvent>, i: nat)
    requires GoodTo(events, i) && i < |events| && events[i].Row?
    ensures RowsTo(events, i + 1) == RowsTo(events, i) + [events[i].bytes]
  {
  }

  // ---------- The stream ----------

  /** The batches as the responses that carry them, numbered from zero, none marked as the end. */
  ghost predicate Carries(log: seq<Attempt>, bs: seq<seq<Bytes>>, format: int) {
    && |log| == |bs|
    && forall i :: 0 <= i < |bs| ==> log[i] == Attempt(Resp(i, "", bs[i], format, false), true, true)
  }

  /** The single response that reports an error. */
  ghost predicate Reports(log: seq<Attempt>, text: string) {
    |log| == 1 && log[0].resp == Resp(0, text, [], 0, true) && (log[0].ok ==> log[0].delivered)
  }

  /** How a stream ends after the batches `bs` were sent. */
  datatype Ending =
    | Completed(last: seq<Bytes>)
    | RowFailed(text: string, rest: seq<Bytes>)
    | SendFailed(batch: seq<Bytes>, end: bool, text: string)

  ghost predicate EndsWith(tail: seq<Attempt>, no: int, format: int, e: Ending) {
    match e
    case Completed(last) => tail == [Attempt(Resp(no, "", last, format, true), true, true)]
    case RowFailed(text, _) => text != "" && Reports(tail, text)
    case SendFailed(batch, end, text) =>
      && |tail| == 2 && tail[0].resp == Resp(no, "", batch, format, end) && !tail[0].ok
      && text != "" && Reports(tail[1..], text)
  }

  /** Which rows each ending leaves unsent: none when the stream completed or its last send failed, and
      those that waited in the open response when a row failed. */
  ghost predicate EndFits(events: seq<RowEvent>, rowsErr: bool, limit: int, bs: seq<seq<Bytes>>, e: Ending) {
    match e
    case Completed(last) =>
      !rowsErr && GoodTo(events, |events|) && IsPartition(bs + [last], GoodRows(events), limit)
    case RowFailed(_, rest) =>
      Flatten(bs) + rest == GoodRows(events) && !Full(rest, limit) && (rowsErr || !GoodTo(events, |events|))
    case SendFailed(batch, end, _) =>
      && Flatten(bs) + batch <= GoodRows(events)
      && (end ==> !rowsErr && GoodTo(events, |events|) && IsPartition(bs + [batch], GoodRows(events), limit))
      && (!end ==> Closed(batch, limit))
  }

  /** A whole stream: closed batches sent in order, then one ending. */
  ghost predicate StreamOk(log: seq<Attempt>, events: seq<RowEvent>, rowsErr: bool, limit: int, format: int,
                           bs: seq<seq<Bytes>>, e: Ending)
  {
    && AllClosed(bs, limit)
    && |bs| <= |log| && Carries(log[..|bs|], bs, format)
    && EndsWith(log[|bs|..], |bs|, format, e)
    && EndFits(events, rowsErr, limit, bs, e)
  }

  // ---------- Steps of the stream ----------

  /** After i rows: `part` was sent, carrying `bs`, and `cur` waits in the open response. */
  ghost predicate Mid(part: seq<Attempt>, events: seq<RowEvent>, i: nat, limit: int, format: int,
                      bs: seq<seq<Bytes>>, cur: seq<Bytes>)
  {
    && GoodTo(events, i) && Carries(part, bs, format) && AllClosed(bs, limit)
    && Flatten(bs) + cur == RowsTo(events, i) && !Full(cur, limit)
  }

  /** The next row goes into the open response, which it may close. */
  lemma {:induction false} TakeRow(part: seq<Attempt>, events: seq<RowEvent>, i: nat, limit: int, format: int,
                bs: seq<seq<Bytes>>, cur: seq<Bytes>, cur': seq<Bytes>)
    requires Mid(part, events, i, limit, format, bs, cur) && i < |events| && events[i].Row?
    requires cur' == cur + [events[i].bytes]
    ensures Size(cur') == Size(cur) + |events[i].bytes|
    ensures Flatten(bs) + cur' == RowsTo(events, i + 1)
    ensures if Full(cur', limit) then Closed(cur', limit) else Mid(part, events, i + 1, limit, format, bs, cur')
  {
    GoodStep(events, i);
    assert cur'[..|cur'| - 1] == cur;
    assert Flatten(bs) + cur' == (Flatten(bs) + cur) + [events[i].bytes];
  }

  lemma {:induction false} SendBatch(part: seq<Attempt>, events: seq<RowEvent>, i: nat, limit: int, format: int,
                  bs: seq<seq<Bytes>>, batch: seq<Bytes>)
    requires limit >= 1 && GoodTo(events, i)
    requires Carries(part, bs, format) && AllClosed(bs, limit)
    requires Closed(batch, limit) && Flatten(bs) + batch == RowsTo(events, i)
    ensures Mid(part + [Attempt(Resp(|bs|, "", batch, format, false), true, true)], events, i, limit, format,
                bs + [batch], [])
  {
    assert (bs + [batch])[..|bs|] == bs;
    assert Flatten(bs + [batch]) + [] == Flatten(bs) + batch;
  }

  lemma StopAtError(part: seq<Attempt>, events: seq<RowEvent>, i: nat, rowsErr: bool, limit: int, format: int,
                    bs: seq<seq<Bytes>>, cur: seq<Bytes>, tail: seq<Attempt>, text: string)
    requires Mid(part, events, i, limit, format, bs, cur)
    requires if i < |events| then !events[i].Row? else rowsErr
    requires text != "" && Reports(tail, text)
    ensures StreamOk(part + tail, events, rowsErr, limit, format, bs, RowFailed(text, cur))
  {
    GoodSoFar(events, i);
    assert (part + tail)[..|bs|] == part && (part + tail)[|bs|..] == tail;
    assert Flatten(bs) <= Flatten(bs) + cur;
  }

  lemma {:induction false} StopAtSend(part: seq<Attempt>, events: seq<RowEvent>, i: nat, rowsErr: bool, limit: int,
                                      format: int, bs: seq<seq<Bytes>>, batch: seq<Bytes>, end: bool,
                                      tail: seq<Attempt>, text: string)
    requires GoodTo(events, i) && Carries(part, bs, format) && AllClosed(bs, limit)
             && Flatten(bs) + batch == RowsTo(events, i)
    requires if end then i == |events| && !rowsErr && !Full(batch, limit) else Closed(batch, limit)
    requires EndsWith(tail, |bs|, format, SendFailed(batch, end, text))
    ensures StreamOk(part + tail, events, rowsErr, limit, format, bs, SendFailed(batch, end, text))
  {
    GoodSoFar(events, i);
    assert (part + tail)[..|bs|] == part && (part + tail)[|bs|..] == tail;
    if end {
      LastBatch(events, limit, bs, batch);
    }
  }

  lemma Finish(part: seq<Attempt>, events: seq<RowEvent>, limit: int, format: int, bs: seq<seq<Bytes>>,
               last: seq<Bytes>, tail: seq<Attempt>)
    requires Mid(part, events, |events|, limit, format, bs, last)
    requires tail == [Attempt(Resp(|bs|, "", last, format, true), true, true)]
    ensures StreamOk(part + tail, events, false, limit, format, bs, Completed(last))
  {
    assert (part + tail)[..|bs|] == part && (part + tail)[|bs|..] == tail;
    LastBatch(events, limit, bs, last);
  }

  lemma {:induction false} LastBatch(events: seq<RowEvent>, limit: int, bs: seq<seq<Bytes>>, last: seq<Bytes>)
    requires GoodTo(events, |events|) && AllClosed(bs, limit) && !Full(last, limit)
    requires Flatten(bs) + last == RowsTo(events, |events|)
    ensures IsPartition(bs + [last], GoodRows(events), limit)
  {
    assert FirstBad(events, 0) == |events|;
    assert (bs + [last])[..|bs|] == bs;
  }

  /** Sends the error of a failed stream. */
  method SendErr(client: Client, text: string) returns (ok: bool, ghost tail: seq<Attempt>)
    modifies client
    ensures client.log == old(client.log) + tail && Reports(tail, text)
    ensures ok == tail[0].ok
  {
    var resp := new QueryResp(0, text, 0, true);
    var why: string;
    ghost var log0 := client.log;
    ok, why := client.Send(resp);
    tail := client.log[|log0|..];
  }

  /** Sends a response; when that fails, tries to send the error instead. */
  method SendOrReport(h: Handler, client: Client, resp: QueryResp)
    returns (sent: bool, ok: bool, ghost tail: seq<Attempt>, ghost text: string)
    modifies client
    ensures client.log == old(client.log) + tail && |tail| > 0 && ok == tail[|tail| - 1].ok
    ensures sent ==> tail == [Attempt(resp.Snapshot(), true, true)]
    ensures !sent ==>
            |tail| == 2 && tail[0].resp == resp.Snapshot() && !tail[0].ok && text != "" && Reports(tail[1..], text)
  {
    ghost var log0 := client.log;
    var why: string;
    sent, why := client.Send(resp);
    tail, text := [client.log[|log0|]], "";
    ok := sent;
    if !sent {
      text := ErrText(h, Sending, why);
      ghost var more;
      ok, more := SendErr(client, ErrText(h, Sending, why));
      tail := tail + more;
      assert tail[1..] == more;
    }
  }

  method FailRow(h: Handler, client: Client, event: RowEvent)
    returns (ok: bool, ghost tail: seq<Attempt>, ghost text: string)
    requires !event.Row?
    modifies client
    ensures client.log == old(client.log) + tail && text != "" && Reports(tail, text) && ok == tail[0].ok
  {
    var t := ErrText(h, if event.ScanFails? then Scanning else Marshalling, event.why);
    text := t;
    ok, tail := SendErr(client, t);
  }

  /** Everything the loop keeps: what was sent, and the open response with its counters. */
  ghost predicate LoopState(client: Client, resp: QueryResp, respNo: int, respBatchSize: int, respMsgByteSize: int,
                            events: seq<RowEvent>, i: nat, limit: int, format: int, bs: seq<seq<Bytes>>)
    reads client, resp
  {
    && Mid(client.log, events, i, limit, format, bs, resp.msgBytes)
    && resp.Snapshot() == Resp(respNo, "", resp.msgBytes, format, false) && respNo == |bs|
    && respBatchSize == |resp.msgBytes| && respMsgByteSize == Size(resp.msgBytes)
  }

  /** Puts a good row into the open response, and sends the response when the row closes it. */
  method PutRow(h: Handler, client: Client, resp: QueryResp, respNo: int, respBatchSize: int, respMsgByteSize: int,
                batchSize: int, format: int, bytes: Bytes,
                ghost events: seq<RowEvent>, ghost i: nat, ghost rowsErr: bool, ghost bs: seq<seq<Bytes>>)
    returns (sent: bool, ok: bool, resp': QueryResp, respNo': int, respBatchSize': int, respMsgByteSize': int,
             ghost bs': seq<seq<Bytes>>, ghost e: Ending)
    requires i < |events| && events[i] == Row(bytes) && batchSize >= 1
    requires LoopState(client, resp, respNo, respBatchSize, respMsgByteSize, events, i, batchSize, format, bs)
    modifies client, resp
    ensures resp' == resp || fresh(resp')
    ensures sent ==>
            LoopState(client, resp', respNo', respBatchSize', respMsgByteSize', events, i + 1, batchSize, format, bs')
    ensures !sent ==> StreamOk(client.log, events, rowsErr, batchSize, format, bs, e)
    ensures !sent ==> |client.log| > 0 && ok == client.log[|client.log| - 1].ok
  {
    ghost var part, cur := client.log, resp.msgBytes;
    resp', respNo', bs', sent, ok, e := resp, respNo, bs, true, true, Completed([]);
    resp.msgBytes := resp.msgBytes + [bytes];
    respMsgByteSize' := respMsgByteSize + |bytes|;
    respBatchSize' := respBatchSize + 1;
    ghost var batch := resp.msgBytes;
    TakeRow(part, events, i, batchSize, format, bs, cur, batch);
    if respMsgByteSize' >= MAX_BYTES || respBatchSize' >= batchSize {
      resp.responseNo := respNo;
      resp.responseEnd := false;
      ghost var tail, text;
      sent, ok, tail, text := SendOrReport(h, client, resp);
      if !sent {
        StopAtSend(part, events, i + 1, rowsErr, batchSize, format, bs, batch, false, tail, text);
        e := SendFailed(batch, false, text);
        return;
      }
      SendBatch(part, events, i + 1, batchSize, format, bs, batch);
      bs' := bs + [batch];
      respNo' := respNo + 1;
      respBatchSize', respMsgByteSize' := 0, 0;
      resp' := new QueryResp(respNo', "", format, false);
    }
  }

  /** The end of the rows: reports the iteration error, or sends the last response. */
  method EndRows(h: Handler, client: Client, resp: QueryResp, rowsErr: Option<string>, batchSize: int, format: int,
                 ghost respNo: int, ghost events: seq<RowEvent>, ghost bs: seq<seq<Bytes>>)
    returns (ok: bool, ghost e: Ending)
    requires LoopState(client, resp, respNo, |resp.msgBytes|, Size(resp.msgBytes), events, |events|, batchSize, format,
                       bs)
    modifies client, resp
    ensures StreamOk(client.log, events, rowsErr.Some?, batchSize, format, bs, e)
    ensures |client.log| > 0 && ok == client.log[|client.log| - 1].ok
  {
    ghost var part, last, tail := client.log, resp.msgBytes, [];
    if rowsErr.Some? {
      var text := ErrText(h, Iterating, rowsErr.value);
      ok, tail := SendErr(client, text);
      StopAtError(part, events, |events|, true, batchSize, format, bs, last, tail, text);
      e := RowFailed(text, last);
      return;
    }
    resp.responseEnd := true;
    var sent;
    ghost var text;
    sent, ok, tail, text := SendOrReport(h, client, resp);
    if sent {
      Finish(part, events, batchSize, format, bs, last, tail);
      e := Completed(last);
    } else {
      StopAtSend(part, events, |events|, false, batchSize, format, bs, last, true, tail, text);
      e := SendFailed(last, true, text);
    }
  }

  /** Ends the stream at a row that cannot be scanned or marshalled. */
  method FailStream(h: Handler, client: Client, resp: QueryResp, ghost respNo: int, events: seq<RowEvent>, i: nat,
                    ghost rowsErr: bool, ghost batchSize: int, ghost format: int, ghost bs: seq<seq<Bytes>>)
    returns (ok: bool, ghost e: Ending)
    requires i < |events| && !events[i].Row?
    requires LoopState(client, resp, respNo, |resp.msgBytes|, Size(resp.msgBytes), events, i, batchSize, format, bs)
    modifies client
    ensures StreamOk(client.log, events, rowsErr, batchSize, format, bs, e)
    ensures |client.log| > 0 && ok == client.log[|client.log| - 1].ok
  {
    ghost var part, tail, text := client.log, [], "";
    ok, tail, text := FailRow(h, client, events[i]);
    StopAtError(part, events, i, rowsErr, batchSize, format, bs, resp.msgBytes, tail, text);
    e := RowFailed(text, resp.msgBytes);
  }

  method ClampBatchSize(preferBatchSize: int) returns (batchSize: int)
    ensures batchSize == Clamp(preferBatchSize)
  {
    batchSize := preferBatchSize;
    if batchSize <= 0 {
      batchSize := 1;
    }
    if batchSize > 10000 {
      batchSize := 10000;
    }
  }

  /** The row loop shared by HandleTableQuery and HandleQuery. */
  method StreamRows(h: Handler, preferBatchSize: int, format: int, events: seq<RowEvent>, rowsErr: Option<string>,
                    client: Client)
    returns (ok: bool, ghost bs: seq<seq<Bytes>>, ghost e: Ending)
    requires client.log == []
    modifies client
    ensures StreamOk(client.log, events, rowsErr.Some?, Clamp(preferBatchSize), format, bs, e)
    ensures |client.log| > 0 && ok == client.log[|client.log| - 1].ok
  {
    var batchSize := ClampBatchSize(preferBatchSize);
    var respNo, respBatchSize, respMsgByteSize := 0, 0, 0;
    var resp := new QueryResp(respNo, "", format, false);
    bs := [];
    var i := 0;
    while i < |events|
      invariant 0 <= i <= |events| && fresh(resp)
      invariant LoopState(client, resp, respNo, respBatchSize, respMsgByteSize, events, i, batchSize, format, bs)
    {
      if !events[i].Row? {
        ok, e := FailStream(h, client, resp, respNo, events, i, rowsErr.Some?, batchSize, format, bs);
        return;
      }
      var sent;
      ghost var bs';
      sent, ok, resp, respNo, respBatchSize, respMsgByteSize, bs', e :=
        PutRow(h, client, resp, respNo, respBatchSize, respMsgByteSize, batchSize, format, events[i].bytes,
               events, i, rowsErr.Some?, bs);
      if !sent {
        return;
      }
      bs := bs';
      i := i + 1;
    }
    ok, e := EndRows(h, client, resp, rowsErr, batchSize, format, respNo, events, bs);
  }

  // ---------- What a client can rely on ----------

  lemma {:induction false} CarriedRows(log: seq<Attempt>, bs: seq<seq<Bytes>>, format: int)
    requires Carries(log, bs, format)
    ensures Received(log) == Flatten(bs)
    decreases |bs|
  {
    if bs != [] {
      var n := |bs| - 1;
      CarriedRows(log[..n], bs[..n], format);
      assert log[n].delivered && log[n].resp.msgBytes == bs[n];
    }
  }

  lemma {:induction false} TailRows(tail: seq<Attempt>, no: int, format: int, e: Ending)
    requires EndsWith(tail, no, format, e)
    ensures e.Completed? ==> Received(tail) == e.last
    ensures e.RowFailed? ==> Received(tail) == []
    ensures e.SendFailed? ==> Received(tail) == if tail[0].delivered then e.batch else []
  {
    ReceivedOne(tail[0]);
    if e.SendFailed? {
      assert tail == [tail[0]] + [tail[1]];
      ReceivedOne(tail[1]);
      ReceivedSplit([tail[0]], [tail[1]]);
    } else {
      assert tail == [tail[0]];
    }
  }

  lemma {:induction false} StreamRowsReceived(log: seq<Attempt>, events: seq<RowEvent>, rowsErr: bool, limit: int,
                                              format: int, bs: seq<seq<Bytes>>, e: Ending)
    requires StreamOk(log, events, rowsErr, limit, format, bs, e)
    ensures Received(log) == Flatten(bs) + Received(log[|bs|..])
    ensures EndsWith(log[|bs|..], |bs|, format, e)
  {
    assert log == log[..|bs|] + log[|bs|..];
    ReceivedSplit(log[..|bs|], log[|bs|..]);
    CarriedRows(log[..|bs|], bs, format);
  }

  /** Whatever fails, and whether or not failed sends got through, the rows the client has are
      the first rows of the result, in order and without gaps. */
  lemma {:induction false} ReceivedIsPrefix(log: seq<Attempt>, events: seq<RowEvent>, rowsErr: bool, limit: int,
                                            format: int, bs: seq<seq<Bytes>>, e: Ending)
    requires StreamOk(log, events, rowsErr, limit, format, bs, e)
    ensures Received(log) <= GoodRows(events)
  {
    StreamRowsReceived(log, events, rowsErr, limit, format, bs, e);
    TailRows(log[|bs|..], |bs|, format, e);
    if e.Completed? {
      FlattenSplit(bs, [e.last]);
      FlattenOne(e.last);
    }
    assert e.SendFailed? ==> Flatten(bs) <= Flatten(bs) + e.batch;
  }

  /** The client got a response marked as the end without an error text. */
  predicate EndSeen(log: seq<Attempt>) {
    exists i :: 0 <= i < |log| && log[i].delivered && log[i].resp.responseEnd && log[i].resp.errInfo == ""
  }

  /** The batch of the last response, if the stream got that far. */
  function LastBatchOf(e: Ending): seq<Bytes> {
    match e
    case Completed(last) => last
    case SendFailed(batch, _, _) => batch
    case RowFailed(_, _) => []
  }

  /** The position of such a response is behind the carried batches. */
  lemma EndPosition(log: seq<Attempt>, bs: seq<seq<Bytes>>, format: int) returns (k: nat)
    requires |bs| <= |log| && Carries(log[..|bs|], bs, format) && EndSeen(log)
    ensures k < |log[|bs|..]|
    ensures var a := log[|bs|..][k]; a.delivered && a.resp.responseEnd && a.resp.errInfo == ""
  {
    var i :| 0 <= i < |log| && log[i].delivered && log[i].resp.responseEnd && log[i].resp.errInfo == "";
    assert forall j :: 0 <= j < |bs| ==> log[j] == log[..|bs|][j];
    k := i - |bs|;
  }

  /** Such a response can only be the last one of the rows, sent or half sent. */
  lemma EndIsLast(log: seq<Attempt>, bs: seq<seq<Bytes>>, format: int, e: Ending)
    requires |bs| <= |log| && Carries(log[..|bs|], bs, format) && EndsWith(log[|bs|..], |bs|, format, e) && EndSeen(log)
    ensures e.Completed? || (e.SendFailed? && e.end)
    ensures Received(log[|bs|..]) == LastBatchOf(e)
  {
    var k := EndPosition(log, bs, format);
    EndOfTail(log[|bs|..], |bs|, format, e, k);
  }

  lemma {:induction false} EndOfTail(tail: seq<Attempt>, no: int, format: int, e: Ending, k: nat)
    requires EndsWith(tail, no, format, e) && k < |tail|
    requires tail[k].delivered && tail[k].resp.responseEnd && tail[k].resp.errInfo == ""
    ensures e.Completed? || (e.SendFailed? && e.end)
    ensures Received(tail) == LastBatchOf(e)
  {
    assert e.SendFailed? ==> tail[1] == tail[1..][0];
    TailRows(tail, no, format, e);
  }

  /** A client that saw such a response has every row of a result none of whose rows failed. */
  lemma {:induction false} EndMeansComplete(log: seq<Attempt>, events: seq<RowEvent>, rowsErr: bool, limit: int,
                                            format: int, bs: seq<seq<Bytes>>, e: Ending)
    requires StreamOk(log, events, rowsErr, limit, format, bs, e) && EndSeen(log)
    ensures !rowsErr && GoodTo(events, |events|) && Received(log) == RowsTo(events, |events|)
  {
    EndIsLast(log, bs, format, e);
    StreamRowsReceived(log, events, rowsErr, limit, format, bs, e);
    FlattenSplit(bs, [LastBatchOf(e)]);
    FlattenOne(LastBatchOf(e));
    assert FirstBad(events, 0) == |events|;
  }

  /** The responses of an undisturbed stream. */
  function Numbered(bs: seq<seq<Bytes>>, format: int): (r: seq<Attempt>)
    ensures |r| == |bs|
    ensures forall i :: 0 <= i < |bs| ==> r[i] == Attempt(Resp(i, "", bs[i], format, i == |bs| - 1), true, true)
  {
    seq(|bs|, i requires 0 <= i < |bs| => Attempt(Resp(i, "", bs[i], format, i == |bs| - 1), true, true))
  }

  /** When nothing fails, the responses carry the one partition of the rows, numbered from zero,
      and exactly the last is marked as the end. */
  lemma UndisturbedStream(log: seq<Attempt>, events: seq<RowEvent>, limit: int, format: int, bs: seq<seq<Bytes>>,
                          e: Ending)
    returns (all: seq<seq<Bytes>>)
    requires StreamOk(log, events, false, limit, format, bs, e)
    requires GoodTo(events, |events|) && forall i :: 0 <= i < |log| ==> log[i].ok
    ensures IsPartition(all, RowsTo(events, |events|), limit) && log == Numbered(all, format)
  {
    var tail := log[|bs|..];
    assert |bs| < |log| && log[|bs|] == tail[0];
    all := bs + [e.last];
    assert FirstBad(events, 0) == |events|;
    forall i | 0 <= i < |log|
      ensures log[i] == Numbered(all, format)[i]
    {
      if i < |bs| {
        assert log[i] == log[..|bs|][i];
      } else {
        assert log[i] == tail[0];
      }
    }
  }

  /** Both handlers send the same responses for the same rows, batch size and format. */
  lemma HandlersAgree(log1: seq<Attempt>, log2: seq<Attempt>, events: seq<RowEvent>, limit: int, format: int,
                      bs1: seq<seq<Bytes>>, bs2: seq<seq<Bytes>>, e1: Ending, e2: Ending)
    requires StreamOk(log1, events, false, limit, format, bs1, e1)
             && StreamOk(log2, events, false, limit, format, bs2, e2)
    requires GoodTo(events, |events|)
    requires forall i :: 0 <= i < |log1| ==> log1[i].ok
    requires forall i :: 0 <= i < |log2| ==> log2[i].ok
    ensures log1 == log2
  {
    var all1 := UndisturbedStream(log1, events, limit, format, bs1, e1);
    var all2 := UndisturbedStream(log2, events, limit, format, bs2, e2);
    PartitionUnique(all1, all2, RowsTo(events, |events|), limit);
  }

  /** What a client can rely on after a whole call. The rows it has are the first rows of the
      result. If it saw an error-free end, it has every row of a clean result, except in one case:
      the database lookup failed with an error whose own text is empty. If nothing fails, it has
      the one partition of the rows. */
  ghost predicate Relied(log: seq<Attempt>, setup: Setup, limit: int, format: int, events: seq<RowEvent>, rowsErr: bool)
  {
    && Received(log) <= GoodRows(events)
    && (EndSeen(log) && setup != NoDatabase("") ==>
          setup == Ready && !rowsErr && GoodTo(events, |events|) && Received(log) == RowsTo(events, |events|))
    && (setup == NoDatabase("") ==> |log| == 1 && Received(log) == [] && EndSeen(log) == log[0].delivered)
    && (setup == Ready && !rowsErr && GoodTo(events, |events|) && (forall i :: 0 <= i < |log| ==> log[i].ok) ==>
          exists all :: IsPartition(all, RowsTo(events, |events|), limit) && log == Numbered(all, format))
  }

  lemma RefusedCall(log: seq<Attempt>, setup: Setup, limit: int, format: int, events: seq<RowEvent>, rowsErr: bool)
    requires setup != Ready && Reports(log, if setup.NoDatabase? then setup.why else SetupText(setup))
    ensures Relied(log, setup, limit, format, events, rowsErr)
  {
    ReceivedOne(log[0]);
    assert log == [log[0]];
  }

  lemma StreamedCall(log: seq<Attempt>, limit: int, format: int, events: seq<RowEvent>, rowsErr: bool,
                     bs: seq<seq<Bytes>>, e: Ending)
    requires StreamOk(log, events, rowsErr, limit, format, bs, e)
    ensures Relied(log, Ready, limit, format, events, rowsErr)
  {
    ReceivedIsPrefix(log, events, rowsErr, limit, format, bs, e);
    if EndSeen(log) {
      EndMeansComplete(log, events, rowsErr, limit, format, bs, e);
    }
    if !rowsErr && GoodTo(events, |events|) && forall i :: 0 <= i < |log| ==> log[i].ok {
      var all := UndisturbedStream(log, events, limit, format, bs, e);
    }
  }

  /** One response that ends the call with a text in place of rows. */
  predicate ErrorResponse(resp: Resp) {
    resp.responseNo == 0 && resp.errInfo != "" && resp.msgBytes == [] && resp.msgFormat == 0 && resp.responseEnd
  }

  /** The rows were sent up to this batch, every response numbered and closed by a limit. */
  ghost predicate SentBefore(log: seq<Attempt>, bs: seq<seq<Bytes>>, limit: int, format: int) {
    && |bs| < |log|
    && forall i :: 0 <= i < |bs| ==>
        log[i] == Attempt(Resp(i, "", bs[i], format, false), true, true) && Closed(bs[i], limit)
  }

  /** How a stream of rows ends: with the last rows, with the report of a row that failed, or with the
      report of a send that failed, which nothing but that report follows. */
  ghost predicate EndsAs(log: seq<Attempt>, bs: seq<seq<Bytes>>, rest: seq<Bytes>, limit: int, format: int,
                         events: seq<RowEvent>, rowsErr: bool)
    requires |bs| < |log|
  {
    var n, clean := |bs|, !rowsErr && GoodTo(events, |events|);
    if |log| == n + 1 then
      && Flatten(bs) + rest == GoodRows(events) && !Full(rest, limit)
      && if clean then log[n] == Attempt(Resp(n, "", rest, format, true), true, true)
         else ErrorResponse(log[n].resp)
    else
      && |log| == n + 2 && !log[n].ok && ErrorResponse(log[n + 1].resp)
      && log[n].resp == Resp(n, "", rest, format, clean && !Full(rest, limit))
      && Flatten(bs) + rest <= GoodRows(events)
      && (if Full(rest, limit) then Closed(rest, limit) else clean && Flatten(bs) + rest == GoodRows(events))
  }

  /** What is sent in a whole call, response by response. */
  ghost predicate Told(log: seq<Attempt>, setup: Setup, limit: int, format: int, events: seq<RowEvent>, rowsErr: bool) {
    match setup
    case NoDatabase(why) => |log| == 1 && log[0].resp == Resp(0, why, [], 0, true)
    case Refused(what, why) => |log| == 1 && log[0].resp == Resp(0, what + " err: " + why, [], 0, true)
    case Ready => exists bs, rest :: SentBefore(log, bs, limit, format) && EndsAs(log, bs, rest, limit, format, events,
                                                                                 rowsErr)
  }

  lemma StreamTold(log: seq<Attempt>, limit: int, format: int, events: seq<RowEvent>, rowsErr: bool,
                   bs: seq<seq<Bytes>>, e: Ending)
    requires StreamOk(log, events, rowsErr, limit, format, bs, e)
    ensures Told(log, Ready, limit, format, events, rowsErr)
  {
    var tail := log[|bs|..];
    var rest := match e case Completed(last) => last case RowFailed(_, rest) => rest case SendFailed(batch, _,
                                                                                                     _) => batch;
    forall i | 0 <= i < |bs|
      ensures log[i] == Attempt(Resp(i, "", bs[i], format, false), true, true)
    {
      assert log[i] == log[..|bs|][i];
    }
    assert log[|bs|] == tail[0];
    assert (bs + [rest])[..|bs|] == bs && Flatten(bs + [rest]) == Flatten(bs) + rest;
    if e.SendFailed? {
      assert log[|bs| + 1] == tail[1..][0];
    } else {
      assert |tail| == 1;
    }
    assert SentBefore(log, bs, limit, format) && EndsAs(log, bs, rest, limit, format, events, rowsErr);
  }

  /** The whole handler: a failed setup sends one error response, otherwise the rows are streamed. */
  method Handle(h: Handler, setup: Setup, preferBatchSize: int, format: int, events: seq<RowEvent>,
                rowsErr: Option<string>, client: Client) returns (ok: bool)
    requires client.log == []
    modifies client
    ensures |client.log| > 0 && ok == client.log[|client.log| - 1].ok
    ensures Relied(client.log, setup, Clamp(preferBatchSize), format, events, rowsErr.Some?)
    ensures Told(client.log, setup, Clamp(preferBatchSize), format, events, rowsErr.Some?)
  {
    if setup != Ready {
      ghost var tail;
      ok, tail := SendErr(client, if setup.NoDatabase? then setup.why else SetupText(setup));
      RefusedCall(client.log, setup, Clamp(preferBatchSize), format, events, rowsErr.Some?);
      return;
    }
    ghost var bs, e;
    ok, bs, e := StreamRows(h, preferBatchSize, format, events, rowsErr, client);
    StreamedCall(client.log, Clamp(preferBatchSize), format, events, rowsErr.Some?, bs, e);
    StreamTold(client.log, Clamp(preferBatchSize), format, events, rowsErr.Some?, bs, e);
  }

  function SetupText(setup: Setup): (t: string)
    requires setup.Refused?
    ensures t != ""
  {
    setup.what + " err: " + setup.why
  }
}
