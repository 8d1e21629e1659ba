/**
 Buffered asynchronous reads on Windows: _hs_win32_start_async_read and _hs_win32_finalize_async_read
 of src/device_win32.c, with the stream semantics of src/serial_win32.c and the message semantics of
 src/hid_win32.c.  What the driver does is an input: a request may complete, break or stay in flight
 between two calls or while a call waits.  The read issued when the device was opened succeeded.
 */
module AsyncRead {
  import opened Wrappers

  const READ_BUFFER_SIZE: nat := 1024

  /** The overlapped request.  Asking for its result again gives the same result again. */
  datatype Request = InFlight | Completed(data: Bytes) | Failed

  /** What happens to a request in flight; while a call waits without a timeout it is not Nothing. */
  datatype Wait = Nothing | Data(data: Bytes) | Broken

  /** ptr and len of the handle; the buffer holds the data of the completed request. */
  datatype Port = Port(request: Request, ptr: nat, len: int)

  datatype Outcome = Outcome(port: Port, data: Bytes, result: int)

  const OPENED := Port(InFlight, 0, 0)

  predicate Sound(p: Port)
  {
    && (p.request.Completed? ==> |p.request.data| <= READ_BUFFER_SIZE)
    && (0 < p.len ==> p.request.Completed? && p.ptr + p.len == |p.request.data|)
    && (p.len < 0 ==> p.request.Failed?)
  }

  /** A request never yields more than the buffer takes. */
  predicate Possible(w: Wait) { w.Data? ==> |w.data| <= READ_BUFFER_SIZE }

  function Settle(request: Request, w: Wait): Request
  {
    if !request.InFlight? then request
    else match w case Nothing => request case Data(data) => Completed(data) case Broken => Failed
  }

  /** The device at work between two calls. */
  function Elapse(p: Port, w: Wait): Port { p.(request := Settle(p.request, w)) }

  function Start(p: Port, ok: bool): Port
  {
    if ok then Port(InFlight, p.ptr, 0) else Port(Failed, p.ptr, ERROR_IO)
  }

  function Restart(p: Port, ok: bool): Port { if p.len < 0 then Start(p, ok) else p }

  /** _hs_win32_finalize_async_read, its result stored in len. */
  function Finalize(p: Port, w: Wait): Port
  {
    var request := Settle(p.request, w);
    Port(request, p.ptr, match request case InFlight => 0 case Completed(data) => |data| case Failed => ERROR_IO)
  }

  /** hs_serial_read, up to the point where it knows what it can return. */
  function Look(p: Port, w: Wait, restart: bool): Port
  {
    var p1 := Restart(p, restart);
    if p1.len != 0 then p1
    else
      var p2 := Finalize(p1, w);
      if p2.len <= 0 then p2 else p2.(ptr := 0)
  }

  /** The rest of hs_serial_read: copy, advance, and issue a new request once the buffer is used up. */
  function Take(p: Port, size: nat, next: bool): Outcome
    requires Sound(p) && 0 < p.len
  {
    var n := if size > p.len then p.len else size;
    var p' := p.(ptr := p.ptr + n, len := p.len - n);
    Outcome(if p'.len == 0 then Start(p', next) else p', p.request.data[p.ptr..p.ptr + n], n)
  }

  function SerialRead(p: Port, size: nat, w: Wait, restart: bool, next: bool): Outcome
    requires Sound(p) && Possible(w)
  {
    var p1 := Look(p, w, restart);
    if p1.len <= 0 then Outcome(p1, [], p1.len) else Take(p1, size, next)
  }

  function HidRead(p: Port, size: nat, w: Wait, restart: bool, next: bool): Outcome
  {
    var p1 := Restart(p, restart);
    if p1.len < 0 then Outcome(p1, [], p1.len)
    else
      var p2 := Finalize(p1, w);
      if p2.len <= 0 then Outcome(p2, [], p2.len)
      else
        var n := if size > p2.len then p2.len else size;
        Outcome(Start(p2, next), p2.request.data[..n], n)
  }

  /** Completed, and not yet given to the caller. */
  function Unread(p: Port): Bytes
    requires Sound(p)
  {
    if 0 < p.len then p.request.data[p.ptr..]
    else if p.len == 0 && p.request.Completed? then p.request.data
    else []
  }

  /** What a request in flight brings in. */
  function Arrival(request: Request, w: Wait): Bytes { if request.InFlight? && w.Data? then w.data else [] }

  /** What the driver brings in while a read is under way: nothing, unless the read finds the buffer empty. */
  function ArrivalDuring(p: Port, w: Wait, restart: bool): Bytes
  {
    var p1 := Restart(p, restart);
    if p1.len == 0 then Arrival(p1.request, w) else []
  }

  // ---------- one serial read ----------

  lemma LookIsSound(p: Port, w: Wait, restart: bool)
    requires Sound(p) && Possible(w)
    ensures Sound(Look(p, w, restart))
    ensures Unread(Look(p, w, restart)) == Unread(p) + ArrivalDuring(p, w, restart)
    ensures Look(p, w, restart).len <= 0 ==> Unread(Look(p, w, restart)) == []
  {
  }

  lemma TakeLeavesTheRest(p: Port, size: nat, next: bool)
    requires Sound(p) && 0 < p.len && 0 < size
    ensures var o := Take(p, size, next);
            && Sound(o.port)
            && o.data == Prefix(Unread(p), size)
            && o.data + Unread(o.port) == Unread(p)
            && o.result == |o.data| > 0
            && (|o.data| < |Unread(p)| ==> o.port.request == p.request)
  {
    var n := if size > p.len then p.len else size;
    assert p.request.data[p.ptr..] == p.request.data[p.ptr..p.ptr + n] + p.request.data[p.ptr + n..];
  }

  /**
   A read returns as much of what is there as fits, and leaves exactly the rest.  Without anything it
   returns 0 or the error.  A request is issued again only once nothing of the old one is left.
   */
  lemma SerialReadTakesPrefix(p: Port, size: nat, w: Wait, restart: bool, next: bool)
    requires Sound(p) && Possible(w) && 0 < size
    ensures var there := Unread(p) + ArrivalDuring(p, w, restart);
            var o := SerialRead(p, size, w, restart, next);
            && Sound(o.port)
            && o.data == Prefix(there, size)
            && o.data + Unread(o.port) == there
            && (if there != [] then o.result == |o.data| > 0 else o.result == o.port.len <= 0)
            && (|o.data| < |there| ==> o.port.request == Look(p, w, restart).request)
  {
    LookIsSound(p, w, restart);
    var p1 := Look(p, w, restart);
    if 0 < p1.len {
      TakeLeavesTheRest(p1, size, next);
    }
  }

  // ---------- the stream over whole runs ----------

  datatype Op =
    | Device(w: Wait)
    | Read(size: nat, w: Wait, restart: bool, next: bool)

  predicate Valid(op: Op) { Possible(op.w) && (op.Read? ==> 0 < op.size) }

  datatype Stream = Stream(port: Port, returned: Bytes, arrived: Bytes)

  function StreamStep(s: Stream, op: Op): Stream
    requires Sound(s.port) && Valid(op)
  {
    match op
    case Device(w) => s.(port := Elapse(s.port, w), arrived := s.arrived + Arrival(s.port.request, w))
    case Read(size, w, restart, next) =>
      var o := SerialRead(s.port, size, w, restart, next);
      Stream(o.port, s.returned + o.data, s.arrived + ArrivalDuring(s.port, w, restart))
  }

  /** Nothing is lost, repeated or reordered, and the pointer stays in the buffer. */
  ghost predicate Preserved(s: Stream)
  {
    && Sound(s.port)
    && s.returned + Unread(s.port) == s.arrived
    && (0 < s.port.len ==> s.port.ptr + s.port.len <= READ_BUFFER_SIZE)
  }

  lemma StreamStepKeeps(s: Stream, op: Op)
    requires Preserved(s) && Valid(op)
    ensures Preserved(StreamStep(s, op))
  {
    match op
    case Device(w) =>
      Regroup(s.returned, Unread(s.port), Arrival(s.port.request, w));
    case Read(size, w, restart, next) =>
      SerialReadTakesPrefix(s.port, size, w, restart, next);
      var o := SerialRead(s.port, size, w, restart, next);
      Regroup(s.returned, o.data, Unread(o.port));
      Regroup(s.returned, Unread(s.port), ArrivalDuring(s.port, w, restart));
  }

  /** Over any run of reads, timeouts, failures and restarts: returned ++ unread is what arrived. */
  function StreamRun(s: Stream, ops: seq<Op>): (s': Stream)
    requires Preserved(s) && forall i :: 0 <= i < |ops| ==> Valid(ops[i])
    ensures Preserved(s')
    decreases |ops|
  {
    if ops == [] then s
    else
      StreamStepKeeps(s, ops[0]);
      StreamRun(StreamStep(s, ops[0]), ops[1..])
  }

  /** From the opened device on. */
  lemma NoByteIsLost(ops: seq<Op>)
    requires forall i :: 0 <= i < |ops| ==> Valid(ops[i])
    ensures var s := StreamRun(Stream(OPENED, [], []), ops);
            s.returned + Unread(s.port) == s.arrived
  {
    var s := StreamRun(Stream(OPENED, [], []), ops);
    assert Preserved(s);
  }

  // ---------- messages ----------

  datatype Delivery = Delivery(size: nat, data: Bytes)

  /** arrived are the messages that the driver completed, delivered the ones that reads returned. */
  datatype Mail = Mail(port: Port, delivered: seq<Delivery>, arrived: seq<Bytes>)

  function Message(data: Bytes): seq<Bytes> { if data == [] then [] else [data] }

  /** The message, if any, that the next read will return. */
  function Waiting(p: Port): seq<Bytes>
  {
    if p.len == 0 && p.request.Completed? then Message(p.request.data) else []
  }

  function MailStep(m: Mail, op: Op): Mail
  {
    match op
    case Device(w) => m.(port := Elapse(m.port, w), arrived := m.arrived + Message(Arrival(m.port.request, w)))
    case Read(size, w, restart, next) =>
      var o := HidRead(m.port, size, w, restart, next);
      var delivered := if o.result > 0 then m.delivered + [Delivery(size, o.data)] else m.delivered;
      Mail(o.port, delivered, m.arrived + Message(ArrivalDuring(m.port, w, restart)))
  }

  /** The k-th successful read returns the k-th message, cut to what the caller asked for. */
  ghost predicate OneToOne(m: Mail)
  {
    && Sound(m.port) && m.port.len <= 0
    && |m.arrived| == |m.delivered| + |Waiting(m.port)|
    && m.arrived[|m.delivered|..] == Waiting(m.port)
    && Matched(m.delivered, m.arrived)
  }

  ghost predicate Matched(delivered: seq<Delivery>, arrived: seq<Bytes>)
  {
    |delivered| <= |arrived| &&
    forall k :: 0 <= k < |delivered| ==> delivered[k].data == Prefix(arrived[k], delivered[k].size)
  }

  lemma MatchedMore(delivered: seq<Delivery>, arrived: seq<Bytes>, more: seq<Bytes>)
    requires Matched(delivered, arrived)
    ensures Matched(delivered, arrived + more)
  {
  }

  lemma MatchedNext(delivered: seq<Delivery>, arrived: seq<Bytes>, d: Delivery)
    requires Matched(delivered, arrived) && |delivered| < |arrived|
    requires d.data == Prefix(arrived[|delivered|], d.size)
    ensures Matched(delivered + [d], arrived)
  {
  }

  lemma HidReadTakesOne(p: Port, size: nat, w: Wait, restart: bool, next: bool)
    requires Sound(p) && p.len <= 0 && Possible(w) && 0 < size
    ensures var there := Waiting(p) + Message(ArrivalDuring(p, w, restart));
            var o := HidRead(p, size, w, restart, next);
            && Sound(o.port) && o.port.len <= 0 && Waiting(o.port) == []
            && |there| <= 1
            && if there == [] then o.data == [] && o.result == o.port.len
               else o.data == Prefix(there[0], size) && o.result == |o.data| > 0
  {
  }

  lemma DeviceKeepsMail(m: Mail, w: Wait)
    requires OneToOne(m) && Possible(w)
    ensures OneToOne(MailStep(m, Device(w)))
  {
    var more := Message(Arrival(m.port.request, w));
    assert Waiting(Elapse(m.port, w)) == Waiting(m.port) + more;
    MatchedMore(m.delivered, m.arrived, more);
  }

  /** With nothing waiting behind it, everything that arrived was delivered: there is what was not before. */
  lemma AllDelivered(delivered: seq<Delivery>, arrived: seq<Bytes>, there: seq<Bytes>, size: nat, data: Bytes)
    requires Matched(delivered, arrived) && arrived[|delivered|..] == there && |there| <= 1
    requires there != [] ==> data == Prefix(there[0], size)
    ensures var delivered' := if there != [] then delivered + [Delivery(size, data)] else delivered;
            Matched(delivered', arrived) && |delivered'| == |arrived|
  {
    if there != [] {
      assert arrived[|delivered|] == there[0];
      MatchedNext(delivered, arrived, Delivery(size, data));
    }
  }

  lemma ReadKeepsMail(m: Mail, size: nat, w: Wait, restart: bool, next: bool)
    requires OneToOne(m) && Possible(w) && 0 < size
    ensures OneToOne(MailStep(m, Read(size, w, restart, next)))
  {
    HidReadTakesOne(m.port, size, w, restart, next);
    var more, o := Message(ArrivalDuring(m.port, w, restart)), HidRead(m.port, size, w, restart, next);
    MatchedMore(m.delivered, m.arrived, more);
    assert (m.arrived + more)[|m.delivered|..] == Waiting(m.port) + more;
    AllDelivered(m.delivered, m.arrived + more, Waiting(m.port) + more, size, o.data);
  }

  lemma MailStepKeeps(m: Mail, op: Op)
    requires OneToOne(m) && Valid(op)
    ensures OneToOne(MailStep(m, op))
  {
    match op
    case Device(w) => DeviceKeepsMail(m, w);
    case Read(size, w, restart, next) => ReadKeepsMail(m, size, w, restart, next);
  }

  function MailRun(m: Mail, ops: seq<Op>): (m': Mail)
    requires OneToOne(m) && forall i :: 0 <= i < |ops| ==> Valid(ops[i])
    ensures OneToOne(m')
    decreases |ops|
  {
    if ops == [] then m
    else
      MailStepKeeps(m, ops[0]);
      MailRun(MailStep(m, ops[0]), ops[1..])
  }

  // ---------- failures ----------

  /**
   The read meets a failure: one that an earlier read saw and that stays, as the request cannot be
   issued again or breaks again, or else one of the request that was there.
   */
  predicate Meets(p: Port, w: Wait, restart: bool)
  {
    if p.len < 0 then !restart || w.Broken?
    else p.request.Failed? || (p.request.InFlight? && w.Broken?)
  }

  /**
   With nothing there to return, both reads return the error if they meet a failure; they return 0 only
   while the request is in flight, or if it completed without data.
   */
  lemma FailureIsReturned(p: Port, size: nat, w: Wait, restart: bool, next: bool)
    requires Sound(p) && p.len <= 0 && Possible(w) && 0 < size
    requires Unread(p) + ArrivalDuring(p, w, restart) == []
    ensures var s, h := SerialRead(p, size, w, restart, next), HidRead(p, size, w, restart, next);
            && s == h && s.data == []
            && s.result == (if Meets(p, w, restart) then -4 else 0)
            && (s.result == 0 ==> s.port.request == InFlight || s.port.request == Completed([]))
            && (s.result != 0 ==> s.port.request == Failed && s.port.len < 0)
  {
  }

  /** A read does not leave a failure unnoticed: behind it, a failed request is known to be one. */
  lemma ReadKnowsFailure(p: Port, size: nat, w: Wait, restart: bool, next: bool)
    requires Sound(p) && Possible(w) && 0 < size
    ensures var o := SerialRead(p, size, w, restart, next);
            o.port.request.Failed? <==> o.port.len < 0
    ensures var o := HidRead(p, size, w, restart, next);
            p.len <= 0 ==> (o.port.request.Failed? <==> o.port.len < 0)
  {
  }

  /** After that, a read that can issue the request again does, and waits for the data or returns them. */
  lemma ErrorIsRecovered(p: Port, size: nat, w: Wait, next: bool)
    requires Sound(p) && p.len < 0 && Possible(w) && 0 < size
    ensures var s, h := SerialRead(p, size, w, true, next), HidRead(p, size, w, true, next);
            && (w.Nothing? ==> s.port == h.port == Port(InFlight, p.ptr, 0) && s.result == h.result == 0)
            && (w.Data? && w.data != [] ==> s.data == h.data == Prefix(w.data, size) && s.result == h.result == |s.data|)
  {
  }

  /** A read that takes the last of what is there issues the next request, or knows that it could not. */
  lemma NextIsRequested(p: Port, size: nat, w: Wait, restart: bool, next: bool)
    requires Sound(p) && Possible(w) && 0 < size
    requires var there := Unread(p) + ArrivalDuring(p, w, restart); there != [] && |there| <= size
    ensures var q := SerialRead(p, size, w, restart, next).port;
            if next then q.request == InFlight && q.len == 0 else q.request == Failed && q.len == -4
    ensures p.len <= 0 ==>
              var q := HidRead(p, size, w, restart, next).port;
              if next then q.request == InFlight && q.len == 0 else q.request == Failed && q.len == -4
  {
    LookIsSound(p, w, restart);
  }

  /** No failure goes unnoticed: a failed request is known to be one, unless no read came since it failed. */
  predicate Noticed(p: Port) { p.request.Failed? ==> p.len < 0 }

  lemma {:induction false} StreamSnoc(s: Stream, ops: seq<Op>, op: Op)
    requires Preserved(s) && Valid(op) && forall i :: 0 <= i < |ops| ==> Valid(ops[i])
    ensures forall i :: 0 <= i < |ops + [op]| ==> Valid((ops + [op])[i])
    ensures StreamRun(s, ops + [op]) == StreamStep(StreamRun(s, ops), op)
    decreases |ops|
  {
    if ops == [] {
      assert ops + [op] == [op] && [op][1..] == [];
      StreamStepKeeps(s, op);
      assert StreamRun(StreamStep(s, op), []) == StreamStep(s, op);
    } else {
      assert (ops + [op])[0] == ops[0] && (ops + [op])[1..] == ops[1..] + [op];
      StreamStepKeeps(s, ops[0]);
      StreamSnoc(StreamStep(s, ops[0]), ops[1..], op);
    }
  }

  lemma {:induction false} MailSnoc(m: Mail, ops: seq<Op>, op: Op)
    requires OneToOne(m) && Valid(op) && forall i :: 0 <= i < |ops| ==> Valid(ops[i])
    ensures forall i :: 0 <= i < |ops + [op]| ==> Valid((ops + [op])[i])
    ensures MailRun(m, ops + [op]) == MailStep(MailRun(m, ops), op)
    decreases |ops|
  {
    if ops == [] {
      assert ops + [op] == [op] && [op][1..] == [];
      MailStepKeeps(m, op);
      assert MailRun(MailStep(m, op), []) == MailStep(m, op);
    } else {
      assert (ops + [op])[0] == ops[0] && (ops + [op])[1..] == ops[1..] + [op];
      MailStepKeeps(m, ops[0]);
      MailSnoc(MailStep(m, ops[0]), ops[1..], op);
    }
  }

  /** So no run that ends with a read leaves one behind, for serial and for HID reads. */
  lemma RunsNoticeFailures(s: Stream, m: Mail, ops: seq<Op>, read: Op)
    requires Preserved(s) && OneToOne(m) && read.Read? && Valid(read)
    requires forall i :: 0 <= i < |ops| ==> Valid(ops[i])
    ensures forall i :: 0 <= i < |ops + [read]| ==> Valid((ops + [read])[i])
    ensures Noticed(StreamRun(s, ops + [read]).port) && Noticed(MailRun(m, ops + [read]).port)
  {
    StreamSnoc(s, ops, read);
    MailSnoc(m, ops, read);
    ReadKnowsFailure(StreamRun(s, ops).port, read.size, read.w, read.restart, read.next);
    ReadKnowsFailure(MailRun(m, ops).port, read.size, read.w, read.restart, read.next);
  }

  /** An opened device that is unplugged: the next read says so. */
  lemma UnplugIsReported(size: nat, w: Wait, restart: bool, next: bool)
    requires 0 < size && Possible(w)
    ensures var p := Elapse(OPENED, Broken);
            SerialRead(p, size, w, restart, next).result == -4 == HidRead(p, size, w, restart, next).result
  {
  }

  // ---------- the completion without data ----------

  /** A request is over, it brought nothing, and the handle does not know that it is over. */
  predicate Stalled(p: Port) { p.len == 0 && p.request == Completed([]) }

  /** No read changes that: each returns 0, as if the request were still in flight. */
  lemma StalledForGood(p: Port, size: nat, w: Wait, restart: bool, next: bool)
    requires Stalled(p) && Possible(w)
    ensures SerialRead(p, size, w, restart, next) == Outcome(p, [], 0) == HidRead(p, size, w, restart, next)
    ensures Elapse(p, w) == p
  {
  }

  /** The step completes a request in flight, without data. */
  predicate CompletesEmpty(p: Port, op: Op)
  {
    op.w == Data([]) && ((p.len == 0 && p.request.InFlight?) || (op.Read? && p.len < 0 && op.restart))
  }

  lemma StallsIf(p: Port, size: nat, w: Wait, restart: bool, next: bool)
    requires Sound(p) && Possible(w) && 0 < size && !Stalled(p)
    ensures Stalled(Elapse(p, w)) <==> CompletesEmpty(p, Device(w))
    ensures var op := Read(size, w, restart, next);
            && (Stalled(SerialRead(p, size, w, restart, next).port) <==> CompletesEmpty(p, op))
            && (p.len <= 0 ==> (Stalled(HidRead(p, size, w, restart, next).port) <==> CompletesEmpty(p, op)))
  {
  }

  /** Some step of the run does; for serial reads. */
  ghost predicate StreamMeetsEmpty(s: Stream, ops: seq<Op>)
    requires Preserved(s) && forall i :: 0 <= i < |ops| ==> Valid(ops[i])
    decreases |ops|
  {
    ops != [] &&
    (CompletesEmpty(s.port, ops[0]) ||
     (StreamStepKeeps(s, ops[0]);
      StreamMeetsEmpty(StreamStep(s, ops[0]), ops[1..])))
  }

  /** And for HID reads. */
  ghost predicate MailMeetsEmpty(m: Mail, ops: seq<Op>)
    requires OneToOne(m) && forall i :: 0 <= i < |ops| ==> Valid(ops[i])
    decreases |ops|
  {
    ops != [] &&
    (CompletesEmpty(m.port, ops[0]) ||
     (MailStepKeeps(m, ops[0]);
      MailMeetsEmpty(MailStep(m, ops[0]), ops[1..])))
  }

  /** Once stalled, no run of serial reads returns or receives anything. */
  lemma {:induction false} StalledStreamIsOver(s: Stream, ops: seq<Op>)
    requires Preserved(s) && Stalled(s.port) && forall i :: 0 <= i < |ops| ==> Valid(ops[i])
    ensures StreamRun(s, ops) == s
    decreases |ops|
  {
    if ops != [] {
      if ops[0].Read? {
        StalledForGood(s.port, ops[0].size, ops[0].w, ops[0].restart, ops[0].next);
      }
      assert StreamStep(s, ops[0]) == s;
      StalledStreamIsOver(s, ops[1..]);
    }
  }

  /** Nor does any run of HID reads. */
  lemma {:induction false} StalledMailIsOver(m: Mail, ops: seq<Op>)
    requires OneToOne(m) && Stalled(m.port) && forall i :: 0 <= i < |ops| ==> Valid(ops[i])
    ensures MailRun(m, ops) == m
    decreases |ops|
  {
    if ops != [] {
      if ops[0].Read? {
        StalledForGood(m.port, ops[0].size, ops[0].w, ops[0].restart, ops[0].next);
      }
      assert MailStep(m, ops[0]) == m;
      StalledMailIsOver(m, ops[1..]);
    }
  }

  lemma StepStalls(p: Port, op: Op)
    requires Sound(p) && Valid(op) && !Stalled(p)
    ensures op.Device? ==> (Stalled(Elapse(p, op.w)) <==> CompletesEmpty(p, op))
    ensures op.Read? ==>
              (Stalled(SerialRead(p, op.size, op.w, op.restart, op.next).port) <==> CompletesEmpty(p, op))
    ensures op.Read? && p.len <= 0 ==>
              (Stalled(HidRead(p, op.size, op.w, op.restart, op.next).port) <==> CompletesEmpty(p, op))
  {
    match op
    case Device(w) => StallsIf(p, 1, w, false, false);
    case Read(size, w, restart, next) => StallsIf(p, size, w, restart, next);
  }

  /** A run of serial reads ends stalled iff some step of it completed a request in flight without data. */
  lemma {:induction false} StreamStallsExactlyIf(s: Stream, ops: seq<Op>)
    requires Preserved(s) && !Stalled(s.port) && forall i :: 0 <= i < |ops| ==> Valid(ops[i])
    ensures Stalled(StreamRun(s, ops).port) <==> StreamMeetsEmpty(s, ops)
    decreases |ops|
  {
    if ops != [] {
      var s' := StreamStep(s, ops[0]);
      StepStalls(s.port, ops[0]);
      StreamStepKeeps(s, ops[0]);
      if Stalled(s'.port) {
        StalledStreamIsOver(s', ops[1..]);
      } else {
        StreamStallsExactlyIf(s', ops[1..]);
      }
    }
  }

  /** And so does a run of HID reads. */
  lemma {:induction false} MailStallsExactlyIf(m: Mail, ops: seq<Op>)
    requires OneToOne(m) && !Stalled(m.port) && forall i :: 0 <= i < |ops| ==> Valid(ops[i])
    ensures Stalled(MailRun(m, ops).port) <==> MailMeetsEmpty(m, ops)
    decreases |ops|
  {
    if ops != [] {
      var m' := MailStep(m, ops[0]);
      StepStalls(m.port, ops[0]);
      MailStepKeeps(m, ops[0]);
      if Stalled(m'.port) {
        StalledMailIsOver(m', ops[1..]);
      } else {
        MailStallsExactlyIf(m', ops[1..]);
      }
    }
  }

  /** And it happens: the first request completes without data. */
  lemma ReadsCanStall()
    ensures Stalled(StreamRun(Stream(OPENED, [], []), [Device(Data([]))]).port)
    ensures Stalled(MailRun(Mail(OPENED, [], []), [Device(Data([]))]).port)
  {
    var op := Device(Data([]));
    assert [op][1..] == [];
    assert StreamRun(Stream(OPENED, [], []), [op]) == StreamRun(StreamStep(Stream(OPENED, [], []), op), []);
    assert MailRun(Mail(OPENED, [], []), [op]) == MailRun(MailStep(Mail(OPENED, [], []), op), []);
  }

  // ---------- the handle ----------

  datatype Status = Pending | Done(count: nat) | Error

  class Handle {
    const buf: array<Byte>
    var status: Status   // of the overlapped request
    var ptr: nat
    var len: int

    ghost predicate Fits()
      reads this
    {
      buf.Length == READ_BUFFER_SIZE && (status.Done? ==> status.count <= buf.Length)
    }

    ghost function View(): Port
      requires Fits()
      reads this, buf
    {
      Port(match status case Pending => InFlight case Done(count) => Completed(buf[..count]) case Error => Failed, ptr, len)
    }

    /** After the first request was issued. */
    constructor ()
      ensures Fits() && fresh(buf) && View() == OPENED
    {
      buf := new Byte[READ_BUFFER_SIZE];
      status, ptr, len := Pending, 0, 0;
    }

    /** What the driver does to a request in flight. */
    method Driver(w: Wait)
      requires Fits() && Possible(w)
      modifies `status, buf
      ensures Fits() && View() == Elapse(old(View()), w)
    {
      if status.Pending? {
        match w {
          case Nothing =>
          case Broken => status := Error;
          case Data(data) =>
            forall i | 0 <= i < |data| {
              buf[i] := data[i];
            }
            status := Done(|data|);
            assert buf[..|data|] == data;
        }
      }
    }

    method StartAsyncRead(ok: bool) returns (r: int)
      requires Fits()
      modifies `status
      ensures Fits() && View().(len := r) == Start(old(View()), ok)
    {
      status := if ok then Pending else Error;
      r := if ok then 0 else ERROR_IO;
    }

    method FinalizeAsyncRead(w: Wait) returns (r: int)
      requires Fits() && Possible(w)
      modifies `status, buf
      ensures Fits() && View().(len := r) == Finalize(old(View()), w)
    {
      Driver(w);
      match status {
        case Pending => r := 0;
        case Done(count) => r := count;
        case Error => r := ERROR_IO;
      }
    }

    method CopyOut(out: array<Byte>, from: nat, n: nat)
      requires from + n <= buf.Length && n <= out.Length && out != buf
      modifies out
      ensures out[..n] == buf[from..from + n] && out[n..] == old(out[n..])
    {
      forall i | 0 <= i < n {
        out[i] := buf[from + i];
      }
    }

    /** hs_serial_read, until it knows what it can return. */
    method Fill(w: Wait, restart: bool)
      requires Fits() && Possible(w)
      modifies this, buf
      ensures Fits() && View() == Look(old(View()), w, restart)
    {
      if len < 0 {
        len := StartAsyncRead(restart);
        if len < 0 {
          return;
        }
      }
      if len == 0 {
        len := FinalizeAsyncRead(w);
        if len > 0 {
          ptr := 0;
        }
      }
    }

    /** Its second half. */
    method TakeOut(out: array<Byte>, size: nat, next: bool) returns (r: int)
      requires Fits() && Sound(View()) && 0 < len && size <= out.Length && out != buf
      modifies `status, `ptr, `len, out
      ensures Fits()
      ensures var o := Take(old(View()), size, next);
              View() == o.port && r == o.result && out[..|o.data|] == o.data && out[|o.data|..] == old(out[|o.data|..])
    {
      var n := if size > len then len else size;
      ghost var data := buf[..status.count];
      assert data[ptr..ptr + n] == buf[ptr..ptr + n];
      CopyOut(out, ptr, n);
      ptr := ptr + n;
      len := len - n;
      if len == 0 {
        len := StartAsyncRead(next);
      }
      r := n;
    }

    /** hs_serial_read. */
    method ReadSerial(out: array<Byte>, size: nat, w: Wait, restart: bool, next: bool) returns (r: int)
      requires Fits() && Sound(View()) && Possible(w) && 0 < size <= out.Length && out != buf
      modifies this, buf, out
      ensures Fits()
      ensures var o := SerialRead(old(View()), size, w, restart, next);
              View() == o.port && r == o.result && out[..|o.data|] == o.data && out[|o.data|..] == old(out[|o.data|..])
    {
      LookIsSound(View(), w, restart);
      Fill(w, restart);
      if len <= 0 {
        return len;
      }
      r := TakeOut(out, size, next);
    }

    /** hs_hid_read. */
    method ReadHid(out: array<Byte>, size: nat, w: Wait, restart: bool, next: bool) returns (r: int)
      requires Fits() && Possible(w) && 0 < size <= out.Length && out != buf
      modifies this, buf, out
      ensures Fits()
      ensures var o := HidRead(old(View()), size, w, restart, next);
              View() == o.port && r == o.result && out[..|o.data|] == o.data && out[|o.data|..] == old(out[|o.data|..])
    {
      if len < 0 {
        len := StartAsyncRead(restart);
        if len < 0 {
          return len;
        }
      }
      len := FinalizeAsyncRead(w);
      if len <= 0 {
        return len;
      }
      var n := if size > len then len else size;
      CopyOut(out, 0, n);
      len := StartAsyncRead(next);
      r := n;
    }
  }
}
