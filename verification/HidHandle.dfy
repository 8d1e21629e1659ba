/**
 The report pool of src/hid_darwin.c on its data structures: two linked lists of report nodes that trade
 places and are overwritten in place, under the mutex.  Each locked section is proved to do what module
 ReportQueue says.
 */
module HidHandle {
  import opened Wrappers
  import opened LinkedList
  import opened Lists
  import opened ReportQueue

  /** struct hid_report: room for the report id and the largest payload. */
  class Report {
    const data: array<Byte>
    var size: nat

    constructor (room: nat)
      ensures fresh(data) && data.Length == room && size == 0
    {
      data := new Byte[room](_ => 0);
      size := 0;
    }
  }

  type RNode = Node<Report>  // hid_report.list; its entry is the report around it

  class Handle {
    const size: nat               // the largest input report
    const capacity: nat           // of the pipe
    const reports: RNode
    const freeReports: RNode
    var allocatedReports: nat
    var threadRet: int
    var removed: bool             // hid == NULL
    var pipe: nat                 // bytes in the pipe

    ghost var queueRing: seq<RNode>
    ghost var freeRing: seq<RNode>
    ghost var queueNodes: set<RNode>
    ghost var freeNodes: set<RNode>
    ghost var nodes: set<RNode>   // all nodes, on a list or about to be
    ghost var queue: seq<Report>  // the reports on the two lists
    ghost var free: seq<Report>
    ghost var owed: bool
    ghost var queued: seq<Bytes>  // what the queued reports hold
    ghost var accepted: seq<Bytes>
    ghost var taken: seq<Bytes>
    ghost var delivered: seq<Delivery>
    ghost var repr: set<object>   // all reports and their data

    // ---------- the two lists ----------

    ghost predicate Linked()
      reads this, nodes
    {
      && queueNodes <= nodes && freeNodes <= nodes
      && Listed(reports, queueRing, queueNodes) && Entries(queueRing) == queue
      && Listed(freeReports, freeRing, freeNodes) && Entries(freeRing) == free
      && queueNodes !! freeNodes
    }

    method QueueEmpty() returns (empty: bool)
      requires Linked()
      ensures empty <==> queue == []
    {
      empty := IsEmpty(reports, queueRing);
    }

    method FreeEmpty() returns (empty: bool)
      requires Linked()
      ensures empty <==> free == []
    {
      empty := IsEmpty(freeReports, freeRing);
    }

    method PopFree() returns (node: RNode)
      requires Linked() && free != []
      modifies `freeRing, `freeNodes, `free, nodes
      ensures Linked() && node.entry == Some(old(free)[0]) && free == old(free)[1..]
      ensures node in nodes && node !in queueNodes && node !in freeNodes
    {
      label L:
      node := RemoveFirst(freeReports, freeRing, freeNodes);
      assert Listed(reports, queueRing, queueNodes) == old@L(Listed(reports, queueRing, queueNodes));
      assert node in old(freeNodes);
      freeRing, freeNodes, free := freeRing[..1] + freeRing[2..], freeNodes - {node}, free[1..];
    }

    method PopQueue() returns (node: RNode)
      requires Linked() && queue != []
      modifies `queueRing, `queueNodes, `queue, nodes
      ensures Linked() && node.entry == Some(old(queue)[0]) && queue == old(queue)[1..]
      ensures node in nodes && node !in queueNodes && node !in freeNodes
    {
      label L:
      node := RemoveFirst(reports, queueRing, queueNodes);
      assert Listed(freeReports, freeRing, freeNodes) == old@L(Listed(freeReports, freeRing, freeNodes));
      assert node in old(queueNodes);
      queueRing, queueNodes, queue := queueRing[..1] + queueRing[2..], queueNodes - {node}, queue[1..];
    }

    method PushQueue(node: RNode)
      requires Linked() && node.entry.Some? && node in nodes && node !in queueNodes && node !in freeNodes
      modifies `queueRing, `queueNodes, `queue, nodes
      ensures Linked() && queue == old(queue) + [node.entry.value]
    {
      label L:
      Append(reports, node, queueRing, queueNodes);
      assert Listed(freeReports, freeRing, freeNodes) == old@L(Listed(freeReports, freeRing, freeNodes));
      queueRing, queueNodes, queue := queueRing + [node], queueNodes + {node}, queue + [node.entry.value];
    }

    method PushFree(node: RNode)
      requires Linked() && node.entry.Some? && node in nodes && node !in queueNodes && node !in freeNodes
      modifies `freeRing, `freeNodes, `free, nodes
      ensures Linked() && free == [node.entry.value] + old(free)
    {
      label L:
      Prepend(freeReports, node, freeRing, freeNodes);
      assert Listed(reports, queueRing, queueNodes) == old@L(Listed(reports, queueRing, queueNodes));
      freeRing, freeNodes, free :=
        [freeReports, node] + freeRing[1..], freeNodes + {node}, [node.entry.value] + free;
    }

    // ---------- the reports on them ----------

    ghost predicate Sized(r: Report)
      reads `repr
    {
      r in repr && r.data in repr && r.data.Length == size + 1
    }

    ghost predicate Holds(r: Report, b: Bytes)
      reads r, r.data
    {
      r.size == |b| <= r.data.Length && r.data[..r.size] == b
    }

    /** Different reports with different buffers. */
    ghost predicate Apart(r: Report, q: Report) { r != q && r.data != q.data }

    ghost predicate AllApart(rs: seq<Report>)
    {
      forall i, j {:trigger Apart(rs[i], rs[j])} :: 0 <= i < j < |rs| ==> Apart(rs[i], rs[j])
    }

    /** All reports are apart; the queued ones hold the given bytes. */
    ghost predicate Pooled(q: seq<Report>, f: seq<Report>, held: seq<Bytes>)
      reads `repr, repr
    {
      && this !in repr
      && (forall i {:trigger Sized(q[i])} :: 0 <= i < |q| ==> Sized(q[i]))
      && (forall i {:trigger Sized(f[i])} :: 0 <= i < |f| ==> Sized(f[i]))
      && AllApart(q + f)
      && |held| == |q|
      && forall i {:trigger Holds(q[i], held[i])} :: 0 <= i < |q| ==> Sized(q[i]) && Holds(q[i], held[i])
    }

    ghost predicate Valid()
      reads this, nodes, repr
    {
      Linked() && Pooled(queue, free, queued) && PoolKept(View(Idle))
    }

    ghost function View(reader: Reader): State
      reads this
    {
      State(queued, |free|, allocatedReports, threadRet, removed, pipe, owed, reader, accepted, taken, delivered)
    }

    constructor (size: nat, capacity: nat)
      requires 2 <= capacity
      ensures Valid() && View(Idle) == START && this.size == size && this.capacity == capacity
      ensures repr == {} && fresh(nodes)
    {
      this.size, this.capacity := size, capacity;
      allocatedReports, threadRet, removed, pipe, owed := 0, 0, false, 0, false;
      queue, free, queued, accepted, taken, delivered, repr := [], [], [], [], [], [], {};
      var q := NewList();
      var f := NewList();
      reports, queueRing, queueNodes := q, [q], {q};
      freeReports, freeRing, freeNodes := f, [f], {f};
      nodes := {q, f};
    }

    /** The write of fire_device_event; the pipe does not block when it is full. */
    method FireDeviceEvent()
      requires Valid() && owed
      modifies `pipe, `owed
      ensures Valid() && forall reader :: View(reader) == Step(old(View(reader)), size, capacity, Fire)
    {
      if pipe < capacity {
        pipe := pipe + 1;
      }
      owed := false;
    }

    method ResetDeviceEvent()
      modifies `pipe
      ensures pipe == if old(pipe) > 0 then old(pipe) - 1 else 0
    {
      if pipe > 0 {
        pipe := pipe - 1;
      }
    }

    /** hid_removal_callback, while it has the mutex. */
    method RemovalCallback()
      requires Valid() && !owed && !removed
      modifies `removed, `owed
      ensures Valid() && forall reader :: View(reader) == Step(old(View(reader)), size, capacity, Vanish)
    {
      removed := true;
      owed := true;
    }

    // ---------- storing a report ----------

    /** Apart from all the others, a new report can join. */
    lemma JoinPool(q: seq<Report>, f: seq<Report>, held: seq<Bytes>, r: Report)
      requires Pooled(q, f, held) && f == [] && Sized(r) && forall i :: 0 <= i < |q| ==> Apart(q[i], r)
      ensures Pooled(q, [r], held)
    {
      assert q + f == q;
      forall i, j | 0 <= i < j < |q + [r]| ensures Apart((q + [r])[i], (q + [r])[j]) {
        assert j < |q| ==> Apart(q[i], q[j]);
      }
    }

    method NewReport() returns (report: Report)
      requires Pooled(queue, free, queued) && free == []
      modifies `repr
      ensures fresh(report) && fresh(report.data) && repr == old(repr) + {report, report.data}
      ensures Pooled(queue, [report], queued)
    {
      report := new Report(size + 1);
      repr := repr + {report, report.data};
      forall i | 0 <= i < |queue| ensures Sized(queue[i]) && Holds(queue[i], queued[i]) && Apart(queue[i], report) {
        assert old(Sized(queue[i])) && old(Holds(queue[i], queued[i]));
      }
      JoinPool(queue, free, queued, report);
    }

    method TakeFree() returns (node: RNode)
      requires Linked() && Pooled(queue, free, queued) && free != []
      modifies `freeRing, `freeNodes, `free, nodes
      ensures Linked() && node.entry.Some? && Pooled(queue, [node.entry.value] + free, queued)
      ensures node in nodes && node !in queueNodes && node !in freeNodes && free == old(free)[1..]
      ensures View(Idle) == old(View(Idle)).(free := |free|)
    {
      node := PopFree();
      assert [node.entry.value] + free == old(free);
      assert Pooled(queue, old(free), queued) == old(Pooled(queue, free, queued));
    }

    /**
     Finds a node to store a report in: a free one, or a new one while there may be more.  Until it is
     stored its report counts as the first free one.
     */
    method GetNode(memory: bool) returns (r: int, node: Node?<Report>)
      requires Linked() && Pooled(queue, free, queued)
      modifies `freeRing, `freeNodes, `free, `nodes, nodes, `allocatedReports, `repr
      ensures Linked() && fresh(repr - old(repr)) && fresh(nodes - old(nodes))
      ensures r == 0 || (r == ERROR_MEMORY && node == null)
      ensures node == null ==> Pooled(queue, free, queued) && free == old(free) == []
      ensures node != null ==> node.entry.Some? && Pooled(queue, [node.entry.value] + free, queued)
      ensures node != null ==> node in nodes && node !in queueNodes && node !in freeNodes
      ensures View(Idle) == if node == null then old(View(Idle))
                            else old(View(Idle)).(free := |free|, pool := allocatedReports)
      ensures old(free) != [] ==> node != null && free == old(free)[1..] && allocatedReports == old(allocatedReports)
      ensures old(free) == [] ==>
                && free == []
                && allocatedReports == old(allocatedReports) + (if node != null then 1 else 0)
                && (node == null && r == 0 <==> old(allocatedReports) == MAX_REPORTS)
                && (node == null && r != 0 <==> old(allocatedReports) != MAX_REPORTS && !memory)
    {
      r := 0;
      var empty := FreeEmpty();
      if !empty {
        node := TakeFree();
      } else if allocatedReports == MAX_REPORTS {
        node := null;
      } else if !memory {
        r, node := ERROR_MEMORY, null;
      } else {
        node := Allocate();
      }
    }

    method Allocate() returns (node: RNode)
      requires Linked() && Pooled(queue, free, queued) && free == []
      modifies `allocatedReports, `repr, `nodes
      ensures Linked() && fresh(repr - old(repr)) && fresh(nodes - old(nodes)) && node.entry.Some?
      ensures node in nodes && node !in queueNodes && node !in freeNodes
      ensures Pooled(queue, [node.entry.value] + free, queued) && allocatedReports == old(allocatedReports) + 1
    {
      var report := NewReport();
      assert [report] + free == [report];
      allocatedReports := allocatedReports + 1;
      node := new Node(Some(report));
      nodes := nodes + {node};
      assert Pooled(queue, [report], queued);
    }

    method Fill(report: Report, id: Byte, payload: Bytes)
      requires report.data.Length == size + 1
      modifies report, report.data
      ensures Holds(report, Stored(size, id, payload))
    {
      var n := if |payload| > size then size else |payload|;
      report.data[0] := id;
      forall i | 0 <= i < n {
        report.data[i + 1] := payload[i];
      }
      report.size := n + 1;
      assert report.data[..n + 1] == [id] + payload[..n];
    }

    /** Filled, the first free report may join the queue. */
    lemma JoinQueue(q: seq<Report>, r: Report, f: seq<Report>, held: seq<Bytes>, b: Bytes)
      requires Pooled(q, [r] + f, held) && Holds(r, b)
      ensures Pooled(q + [r], f, held + [b])
    {
      Regroup(q, [r], f);
      assert ([r] + f)[0] == r;
      forall i | 0 <= i < |f| ensures Sized(f[i]) { assert Sized(([r] + f)[i + 1]); }
      forall i | 0 <= i < |q + [r]| ensures Sized((q + [r])[i]) && Holds((q + [r])[i], (held + [b])[i]) {
        assert i < |q| ==> Sized(q[i]) && Holds(q[i], held[i]);
      }
    }

    /** Overwrites the first free report in place: no queued one notices. */
    method FillApart(r: Report, ghost f: seq<Report>, id: Byte, payload: Bytes)
      requires Pooled(queue, [r] + f, queued)
      modifies r, r.data
      ensures Pooled(queue + [r], f, queued + [Stored(size, id, payload)])
    {
      assert ([r] + f)[0] == r && Sized(r);
      forall i | 0 <= i < |queue| ensures Apart(queue[i], r) {
        assert Apart((queue + ([r] + f))[i], (queue + ([r] + f))[|queue|]);
      }
      Fill(r, id, payload);
      forall i | 0 <= i < |queue| ensures Sized(queue[i]) && Holds(queue[i], queued[i]) {
        assert old(Sized(queue[i])) && old(Holds(queue[i], queued[i])) && Apart(queue[i], r);
      }
      JoinQueue(queue, r, f, queued, Stored(size, id, payload));
    }

    /** A node on neither list, its report filled, goes to the end of the queue. */
    method Queue(node: RNode, ghost b: Bytes)
      requires Linked() && node.entry.Some? && Pooled(queue + [node.entry.value], free, queued + [b])
      requires node in nodes && node !in queueNodes && node !in freeNodes
      modifies `queueRing, `queueNodes, `queue, nodes, `queued, `accepted
      ensures Linked() && Pooled(queue, free, queued)
      ensures queued == old(queued) + [b] && accepted == old(accepted) + [b]
    {
      PushQueue(node);
      queued, accepted := queued + [b], accepted + [b];
      assert Pooled(queue, free, queued) == old(Pooled(queue + [node.entry.value], free, queued + [b]));
    }

    /** Fills the report of a node and queues it. */
    method Store(node: RNode, id: Byte, payload: Bytes)
      requires Linked() && node.entry.Some? && Pooled(queue, [node.entry.value] + free, queued)
      requires node in nodes && node !in queueNodes && node !in freeNodes
      modifies `queueRing, `queueNodes, `queue, nodes, `queued, `accepted
      modifies node.entry.value, node.entry.value.data
      ensures Linked() && Pooled(queue, free, queued)
      ensures var b, s := Stored(size, id, payload), old(View(Idle));
              View(Idle) == s.(queued := s.queued + [b], accepted := s.accepted + [b])
    {
      label L:
      FillApart(node.entry.value, free, id, payload);
      assert Linked() == old@L(Linked());
      Queue(node, Stored(size, id, payload));
    }

    lemma FirstIsSized(r: Report, f: seq<Report>)
      requires Pooled(queue, [r] + f, queued)
      ensures Sized(r)
    {
      assert ([r] + f)[0] == r;
    }

    /** What hid_report_callback does to the lists; what it owes and an error to report come after. */
    method Accept(id: Byte, payload: Bytes, memory: bool) returns (r: int)
      requires Linked() && Pooled(queue, free, queued)
      modifies `freeRing, `freeNodes, `free, `allocatedReports, `repr, `nodes
      modifies `queueRing, `queueNodes, `queue, `queued, `accepted, nodes, repr
      ensures Linked() && Pooled(queue, free, queued)
      ensures fresh(repr - old(repr)) && fresh(nodes - old(nodes))
      ensures var s' := Enqueue(old(View(Idle)), size, id, payload, memory);
              View(Idle) == s'.(owed := owed, error := threadRet) && s'.error == if r < 0 then r else threadRet
    {
      var node;
      r, node := GetNode(memory);
      if node != null {
        FirstIsSized(node.entry.value, free);
        Store(node, id, payload);
      }
    }

    /** hid_report_callback, while it has the mutex. */
    method ReportCallback(id: Byte, payload: Bytes, memory: bool) returns (fire: bool)
      requires Valid() && !owed
      modifies this, repr, nodes
      ensures Valid() && fresh(repr - old(repr)) && fire == owed
      ensures fresh(nodes - old(nodes))
      ensures View(Idle) == Enqueue(old(View(Idle)), size, id, payload, memory)
    {
      StepKeepsPool(View(Idle), size, capacity, Arrive(id, payload, memory));
      fire := QueueEmpty();
      var r := Accept(id, payload, memory);
      Settle(if r < 0 then r else threadRet, fire);
    }

    /** The fields that the lists do not depend on. */
    method Settle(ret: int, ghost fire: bool)
      requires Linked() && Pooled(queue, free, queued)
      modifies `threadRet, `owed
      ensures Linked() && Pooled(queue, free, queued)
      ensures View(Idle) == old(View(Idle)).(error := ret, owed := fire)
    {
      threadRet, owed := ret, fire;
    }

    // ---------- reading one ----------

    /** The first queued report may become the first free one. */
    lemma Rotate(q: seq<Report>, f: seq<Report>, held: seq<Bytes>)
      requires Pooled(q, f, held) && q != []
      ensures Pooled(q[1..], [q[0]] + f, held[1..])
    {
      var q', f' := q[1..], [q[0]] + f;
      forall i | 0 <= i < |q'| ensures Sized(q'[i]) && Holds(q'[i], held[1..][i]) {
        assert Sized(q[i + 1]) && Holds(q[i + 1], held[i + 1]);
      }
      forall i | 0 <= i < |f'| ensures Sized(f'[i]) {
        assert if i == 0 then Sized(q[0]) else Sized(f[i - 1]);
      }
      forall i, j | 0 <= i < j < |q' + f'| ensures Apart((q' + f')[i], (q' + f')[j]) {
        var n := |q'|;
        var i', j' := if i < n then i + 1 else if i == n then 0 else i, if j < n then j + 1 else if j == n then 0 else j;
        assert (q' + f')[i] == (q + f)[i'] && (q' + f')[j] == (q + f)[j'];
        assert if i' < j' then Apart((q + f)[i'], (q + f)[j']) else Apart((q + f)[j'], (q + f)[i']);
      }
    }

    /** The first queued node becomes the first free one. */
    method MoveFirst()
      requires Linked() && queue != []
      modifies `queueRing, `queueNodes, `queue, `freeRing, `freeNodes, `free, nodes
      ensures Linked()
      ensures queue == old(queue)[1..] && free == [old(queue)[0]] + old(free)
    {
      var node := PopQueue();
      PushFree(node);
    }

    method MoveFirstKept()
      requires Linked() && Pooled(queue, free, queued) && queue != []
      modifies `queueRing, `queueNodes, `queue, `freeRing, `freeNodes, `free, nodes
      ensures Linked() && Pooled(queue, free, queued[1..]) && |free| == old(|free|) + 1
    {
      Rotate(queue, free, queued);
      MoveFirst();
      assert Pooled(queue, free, queued[1..]) == old(Pooled(queue[1..], [queue[0]] + free, queued[1..]));
    }

    /** Writes down that the first queued report was delivered. */
    method Record(ghost room: nat)
      requires Linked() && queued != [] && Pooled(queue, free, queued[1..])
      modifies `queued, `taken, `delivered
      ensures Linked() && Pooled(queue, free, queued)
      ensures View(Idle) == Delivered(old(View(Idle)), room)
    {
      ghost var b := queued[0];
      queued, taken, delivered := queued[1..], taken + [b], delivered + [Delivery(room, Prefix(b, room))];
    }

    method Recycle(ghost room: nat)
      requires Linked() && Pooled(queue, free, queued) && queue != []
      modifies `queueRing, `queueNodes, `queue, `freeRing, `freeNodes, `free, nodes
      modifies `queued, `taken, `delivered
      ensures Linked() && Pooled(queue, free, queued)
      ensures View(Idle) == Delivered(old(View(Idle)), room).(free := old(|free|) + 1)
    {
      MoveFirstKept();
      Record(room);
    }

    ghost function Delivered(s: State, room: nat): State
      requires s.queued != []
    {
      var b := s.queued[0];
      s.(queued := s.queued[1..], taken := s.taken + [b], delivered := s.delivered + [Delivery(room, Prefix(b, room))])
    }

    method CopyOut(report: Report, buf: array<Byte>, room: nat, ghost b: Bytes) returns (n: nat)
      requires Holds(report, b) && room <= buf.Length && buf != report.data
      modifies buf
      ensures n <= buf.Length && buf[..n] == Prefix(b, room) && buf[n..] == old(buf[n..])
    {
      n := if room > report.size then report.size else room;
      forall i | 0 <= i < n {
        buf[i] := report.data[i];
      }
      assert forall i :: 0 <= i < n ==> b[i] == report.data[i];
    }

    /** Copies the first queued report and makes its node free. */
    method Deliver(buf: array<Byte>, room: nat) returns (n: nat)
      requires Linked() && Pooled(queue, free, queued) && queue != [] && room <= buf.Length && buf !in repr
      modifies `queueRing, `queueNodes, `queue, `freeRing, `freeNodes, `free, nodes
      modifies `queued, `taken, `delivered, buf
      ensures Linked() && Pooled(queue, free, queued)
      ensures View(Idle) == Delivered(old(View(Idle)), room).(free := old(|free|) + 1)
      ensures n <= buf.Length && buf[..n] == Prefix(old(queued)[0], room) && buf[n..] == old(buf[n..])
    {
      Neighbours(queueRing, 0);
      var report := reports.next.entry.value;
      assert report == Entries(queueRing)[0];
      assert Sized(queue[0]) && Holds(queue[0], queued[0]);
      label L:
      n := CopyOut(report, buf, room, queued[0]);
      assert Linked() == old@L(Linked());
      assert Pooled(queue, free, queued) == old@L(Pooled(queue, free, queued));
      Recycle(room);
    }

    /** The byte in the pipe goes with the last report. */
    method ResetIfEmpty()
      requires Linked() && Pooled(queue, free, queued)
      modifies `pipe
      ensures Linked() && Pooled(queue, free, queued)
      ensures View(Idle) == Reset(old(View(Idle)))
    {
      var empty := QueueEmpty();
      if empty {
        ResetDeviceEvent();
      }
    }

    method ReadLocked(buf: array<Byte>, room: nat) returns (r: int)
      requires Linked() && Pooled(queue, free, queued) && room <= buf.Length && buf !in repr
      modifies `queueRing, `queueNodes, `queue, `freeRing, `freeNodes, `free, nodes
      modifies `queued, `taken, `delivered, `threadRet, `pipe, `owed, buf
      ensures Linked() && Pooled(queue, free, queued)
      ensures View(Idle) == Dequeue(old(View(Idle)), room).0 && r == Dequeue(old(View(Idle)), room).1
      ensures if old(threadRet) >= 0 && old(queued) != [] then
                0 <= r <= buf.Length && buf[..r] == Prefix(old(queued)[0], room) && buf[r..] == old(buf[r..])
              else
                buf[..] == old(buf[..])
    {
      var empty := QueueEmpty();
      if threadRet < 0 {
        r := threadRet;
        Settle(0, owed);
      } else if empty {
        return 0;
      } else {
        r := Deliver(buf, room);
      }

      ResetIfEmpty();
    }

    /** hs_hid_read, while it has the mutex. */
    method ReadReport(buf: array<Byte>, room: nat) returns (r: int)
      requires Valid() && 0 < room <= buf.Length && buf !in repr
      modifies this, nodes, buf
      ensures Valid() && repr == old(repr) && nodes == old(nodes)
      ensures View(Idle) == Dequeue(old(View(Idle)), room).0 && r == Dequeue(old(View(Idle)), room).1
      ensures if old(threadRet) >= 0 && old(queued) != [] then
                0 <= r <= buf.Length && buf[..r] == Prefix(old(queued)[0], room) && buf[r..] == old(buf[r..])
              else
                buf[..] == old(buf[..])
    {
      StepKeepsPool(View(Ready(room)), size, capacity, Take);
      r := ReadLocked(buf, room);
    }

    // ---------- closing ----------

    /** Splices the queue in front of the free reports. */
    method SpliceAll()
      requires Linked()
      modifies `queueRing, `queueNodes, `queue, `freeRing, `freeNodes, `free, nodes
      ensures Linked() && queue == [] && free == old(queue + free)
    {
      MoveAll(freeReports, reports, freeRing, queueRing, freeNodes, queueNodes);
      freeRing := [freeReports] + queueRing[1..] + freeRing[1..];
      freeNodes := freeNodes + (queueNodes - {reports});
      free, queue := queue + free, [];
      queueRing, queueNodes := [reports], {reports};
    }

    /** Where the loop below goes on: a node is read only as long as the report around it is there. */
    static function NextOf(cur: RNode, ghost gone: seq<Report>): RNode
      requires cur.next != null && (cur.entry.Some? ==> cur.entry.value !in gone)
      reads cur
    {
      cur.next
    }

    /** The loop that frees: the next node is read before the report around the current one goes. */
    method FreeAll() returns (freed: seq<Report>)
      requires Linked() && forall i, j :: 0 <= i < j < |free| ==> free[i] != free[j]
      ensures freed == free
    {
      freed := [];
      Neighbours(freeRing, 0);
      var cur := freeReports.next;
      ghost var k := 1;
      while cur != freeReports
        invariant 1 <= k <= |freeRing| && freed == free[..k - 1]
        invariant cur == if k < |freeRing| then freeRing[k] else freeReports
        decreases |freeRing| - k
      {
        Neighbours(freeRing, k);
        assert cur.entry.value == Entries(freeRing)[k - 1];
        var next := NextOf(cur, freed);
        freed := freed + [cur.entry.value];
        cur := next;
        k := k + 1;
      }
    }

    /** close_hid_device, once the thread is gone: every report allocated is freed, once. */
    method Close() returns (freed: seq<Report>)
      requires Valid()
      modifies `queueRing, `queueNodes, `queue, `freeRing, `freeNodes, `free, nodes
      ensures freed == old(queue) + old(free) && |freed| == allocatedReports <= MAX_REPORTS
      ensures forall i, j :: 0 <= i < j < |freed| ==> freed[i] != freed[j]
    {
      assert AllApart(queue + free);
      SpliceAll();
      forall i, j | 0 <= i < j < |free| ensures free[i] != free[j] {
        assert Apart(free[i], free[j]);
      }
      freed := FreeAll();
    }
  }
}
