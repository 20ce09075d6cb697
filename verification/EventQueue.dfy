/** The kernel event queue: many producers, one reader that copies outside the lock, and accounting of drops. */
module EventQueue {
  import opened Options
  import opened Bytes
  import opened Sequences

  const EINTR: int := 4
  const EPIPE: int := 32
  const ENOSPC: int := 28
  const ENOMEM: int := 12
  const EMSGSIZE: int := 90
  const EINVAL: int := 22
  const EFAULT: int := 14
  const EAGAIN: int := 11
  const ERESTARTSYS: int := 512

  const TYPE_DROPPED: U16 := 0xFFFF
  const FLAG_INTERNAL: U16 := 1

  // ---------- records on the wire ----------

  type U16 = x: nat | x < 0x1_0000
  type U32 = x: nat | x < 0x1_0000_0000
  type U64 = x: nat | x < 0x1_0000_0000_0000_0000

  datatype Record = Record(typ: U16, flags: U16, seqno: nat, ts: U64, payload: seq<Byte>)

  const HEADER_SIZE: nat := 24

  function Header(r: Record): (b: seq<Byte>)
    ensures |b| == HEADER_SIZE
  {
    Le(r.typ, 2) + Le(r.flags, 2) + Le(|r.payload|, 4) + Le(r.seqno, 8) + Le(r.ts, 8)
  }

  function Encode(r: Record): (b: seq<Byte>)
    ensures |b| == RecordSize(r)
  {
    Header(r) + r.payload
  }

  function RecordSize(r: Record): nat { HEADER_SIZE + |r.payload| }

  /** How many drops, the first and the last of them; all zero for none. */
  datatype Drops = Drops(count: nat, first: nat, last: nat)

  const NoDrops: Drops := Drops(0, 0, 0)

  function DropRecord(d: Drops, ts: U64): (r: Record)
    ensures RecordSize(r) == 48
  {
    Record(TYPE_DROPPED, FLAG_INTERNAL, d.first, ts, Le(d.count, 8) + Le(d.first, 8) + Le(d.last, 8))
  }

  // ---------- the queue ----------

  datatype Queue = Queue(pending: seq<Record>, queued: nat, maxQueued: nat, maxPayload: U32, nextSeq: nat,
                         total: nat, drop: Drops, inflight: Drops, closed: bool)

  function Init(maxQueued: nat, maxPayload: U32): Queue {
    Queue([], 0, maxQueued, maxPayload, 1, 0, NoDrops, NoDrops, false)
  }

  predicate HasData(q: Queue) { q.drop.count != 0 || q.inflight.count != 0 || q.pending != [] }

  function NoteDrop(q: Queue, n: nat): Queue {
    q.(total := q.total + 1, drop := Drops(q.drop.count + 1, if q.drop.count == 0 then n else q.drop.first, n))
  }

  predicate Accepts(q: Queue, node: bool) {
    !q.closed && node && (q.maxQueued == 0 || q.queued < q.maxQueued)
  }

  /** The critical section of a push: `node` says whether the node could be allocated. */
  function Push(q: Queue, r: Record, node: bool): Queue {
    if q.closed then q
    else
      var q1 := q.(nextSeq := q.nextSeq + 1);
      if !Accepts(q, node) then NoteDrop(q1, q.nextSeq)
      else q1.(pending := q.pending + [r.(seqno := q.nextSeq)], queued := q.queued + 1)
  }

  function Drop(q: Queue): Queue {
    if q.closed then q else NoteDrop(q.(nextSeq := q.nextSeq + 1), q.nextSeq)
  }

  function DropBegin(q: Queue): Queue { q.(inflight := q.drop, drop := NoDrops) }

  function DropCommit(q: Queue): Queue { q.(inflight := NoDrops) }

  /** Put an unreported interval back in front of the drops noted since. */
  function DropRestore(q: Queue): Queue {
    q.(inflight := NoDrops,
       drop := if q.drop.count == 0 then q.inflight
               else Drops(q.drop.count + q.inflight.count, q.inflight.first, q.drop.last))
  }

  function NodeCommit(q: Queue): Queue
    requires q.pending != [] && q.queued > 0
  {
    q.(pending := q.pending[1..], queued := q.queued - 1)
  }

  /** The methods the rest of the kernel calls, one critical section each; the reader is further down. */
  class EventQueue {
    var pending: seq<Record>
    var queued: nat
    const maxQueued: nat
    const maxPayload: U32
    var nextSeq: nat
    var total: nat
    var drop: Drops
    var inflight: Drops
    var closed: bool

    function View(): Queue
      reads this
    {
      Queue(pending, queued, maxQueued, maxPayload, nextSeq, total, drop, inflight, closed)
    }

    constructor (maxQueued: nat, maxPayload: U32)
      ensures View() == Init(maxQueued, maxPayload)
    {
      this.maxQueued, this.maxPayload := maxQueued, maxPayload;
      pending, queued, nextSeq, total := [], 0, 1, 0;
      drop, inflight, closed := NoDrops, NoDrops, false;
    }

    method NoteDropLocked(n: nat)
      modifies this`total, this`drop
      ensures View() == NoteDrop(old(View()), n)
    {
      total := total + 1;
      if drop.count == 0 {
        drop := drop.(first := n);
      }
      drop := drop.(count := drop.count + 1);
      drop := drop.(last := n);
    }

    method PushEvent(typ: U16, flags: U16, payload: Option<seq<Byte>>, len: nat, ts: U64, node: bool) returns (ret: int)
      requires payload.Some? ==> |payload.value| == len
      modifies this
      ensures ret == if len > maxPayload then -EMSGSIZE else if len > 0 && payload.None? then -EINVAL
                     else if old(closed) then -EPIPE else if Accepts(old(View()), node) then 0
                     else if node then -ENOSPC else -ENOMEM
      ensures View() == if len > maxPayload || (len > 0 && payload.None?) then old(View())
                        else Push(old(View()), Record(typ, flags, 0, ts, if payload.Some? then payload.value else []), node)
    {
      if len > maxPayload {
        return -EMSGSIZE;
      }
      if len > 0 && payload.None? {
        return -EINVAL;
      }
      if closed {
        return -EPIPE;
      }
      var n := nextSeq;
      nextSeq := nextSeq + 1;
      if !node || (maxQueued > 0 && queued >= maxQueued) {
        NoteDropLocked(n);
        return if node then -ENOSPC else -ENOMEM;
      }
      pending := pending + [Record(typ, flags, n, ts, if payload.Some? then payload.value else [])];
      queued := queued + 1;
      return 0;
    }

    method DropEvent()
      modifies this
      ensures View() == Drop(old(View()))
    {
      if closed {
        return;
      }
      var n := nextSeq;
      nextSeq := nextSeq + 1;
      NoteDropLocked(n);
    }

    method Close()
      modifies this`closed
      ensures View() == old(View()).(closed := true)
    {
      closed := true;
    }

    /** The clearing section of destroy, which the reader's lock keeps apart from any read. */
    method Destroy()
      modifies this
      ensures View() == Init(maxQueued, maxPayload).(nextSeq := old(nextSeq), total := old(total), closed := true)
    {
      closed := true;
      while pending != []
        invariant View() == old(View()).(closed := true, pending := pending)
        decreases |pending|
      {
        pending := pending[1..];
      }
      queued := 0;
      drop, inflight := NoDrops, NoDrops;
    }
  }

  // ---------- the system: producers, one reader, and what became of every event ----------

  /** Where the reader is; `out` is what this read has copied out and `count` the room left. `rec` is the
      record being copied while the lock is released. */
  datatype Reader = Idle(ret: int)
                  | AtDrop(count: nat, out: seq<Byte>)
                  | CopyingDrop(count: nat, out: seq<Byte>, rec: Record)
                  | AtNode(count: nat, out: seq<Byte>)
                  | CopyingNode(count: nat, out: seq<Byte>, rec: Record)

  /** What the reader has been given: an event, or the report of an interval of drops. */
  datatype Item = Event(rec: Record) | Report(drops: Drops, ts: U64)

  /** The history of a run. `log[n - 1]` is the record accepted under number n, or None if n was dropped. The
      dropped numbers are kept by state: reported (by report), being reported, and waiting. */
  datatype History = History(log: seq<Option<Record>>, given: seq<Item>, reported: seq<seq<nat>>,
                             inflight: seq<nat>, waiting: seq<nat>, returned: seq<Byte>)

  datatype System = System(q: Queue, reader: Reader, h: History)

  datatype Step = PushStep(rec: Record, node: bool) | DropStep | CloseStep | ReadStep(count: nat)
                | ReaderStep(fault: bool, ts: U64)

  function Start(maxQueued: nat, maxPayload: U32): System {
    System(Init(maxQueued, maxPayload), Idle(0), History([], [], [], [], [], []))
  }

  function Produce(s: System, q: Queue, fate: Option<Record>): System {
    if s.q.closed then s
    else
      var h := s.h.(log := s.h.log + [fate], waiting := if fate.None? then s.h.waiting + [s.q.nextSeq] else s.h.waiting);
      s.(q := q, h := h)
  }

  /** The read ends with what was copied, or with the error if that is nothing. */
  function Finish(s: System, err: int): System {
    var ret := if s.reader.Idle? then 0 else if s.reader.out != [] then |s.reader.out| else err;
    var out := if s.reader.Idle? then [] else s.reader.out;
    s.(reader := Idle(ret), h := s.h.(returned := s.h.returned + out))
  }

  /** A record has been copied out: go on if there is room left. */
  function Copied(s: System, rec: Record, item: Item): System
    requires s.reader.CopyingDrop? || s.reader.CopyingNode?
    requires RecordSize(rec) <= s.reader.count
  {
    var count, out := s.reader.count - RecordSize(rec), s.reader.out + Encode(rec);
    var s1 := s.(reader := AtDrop(count, out), h := s.h.(given := s.h.given + [item]));
    if count > 0 then s1 else Finish(s1, 0)
  }

  /** A record being copied fits, and a node being copied is still there. */
  predicate CanCopy(s: System) {
    && (s.reader.CopyingDrop? || s.reader.CopyingNode? ==> RecordSize(s.reader.rec) <= s.reader.count)
    && (s.reader.CopyingNode? ==> s.q.pending != [] && s.q.queued > 0)
  }

  function ReaderMoves(s: System, fault: bool, ts: U64): System
    requires CanCopy(s)
  {
    match s.reader
    case Idle(_) => s
    case AtDrop(count, out) =>
      if s.q.drop.count == 0 then s.(reader := AtNode(count, out))
      else if count < RecordSize(DropRecord(s.q.drop, ts)) then Finish(s, -EMSGSIZE)
      else s.(q := DropBegin(s.q), reader := CopyingDrop(count, out, DropRecord(s.q.drop, ts)),
              h := s.h.(inflight := s.h.waiting, waiting := []))
    case CopyingDrop(_, _, rec) =>
      if fault then
        Finish(s.(q := DropRestore(s.q), h := s.h.(inflight := [], waiting := s.h.inflight + s.h.waiting)), -EFAULT)
      else
        Copied(s.(q := DropCommit(s.q), h := s.h.(reported := s.h.reported + [s.h.inflight], inflight := [])),
               rec, Report(s.q.inflight, rec.ts))
    case AtNode(count, out) =>
      if s.q.pending == [] then Finish(s, 0)
      else if count < RecordSize(s.q.pending[0]) then Finish(s, -EMSGSIZE)
      else s.(reader := CopyingNode(count, out, s.q.pending[0]))
    case CopyingNode(_, _, rec) =>
      if fault then Finish(s, -EFAULT) else Copied(s.(q := NodeCommit(s.q)), rec, Event(rec))
  }

  /** One step of a producer or of the reader; a read that would wait does not start. */
  function Next(s: System, step: Step): System
    requires CanCopy(s)
  {
    match step
    case PushStep(rec, node) =>
      if |rec.payload| > s.q.maxPayload then s
      else Produce(s, Push(s.q, rec, node), if Accepts(s.q, node) then Some(rec.(seqno := s.q.nextSeq)) else None)
    case DropStep => Produce(s, Drop(s.q), None)
    case CloseStep => s.(q := s.q.(closed := true))
    case ReadStep(count) =>
      if s.reader.Idle? && count > 0 && (HasData(s.q) || s.q.closed) then s.(reader := AtDrop(count, [])) else s
    case ReaderStep(fault, ts) => ReaderMoves(s, fault, ts)
  }

  // ---------- the invariant ----------

  /** The accepted records, and the dropped numbers, of a log. */
  function Accepted(log: seq<Option<Record>>): seq<Record> {
    if log == [] then []
    else
      var x := log[|log| - 1];
      Accepted(log[..|log| - 1]) + if x.Some? then [x.value] else []
  }

  function Dropped(log: seq<Option<Record>>): seq<nat> {
    if log == [] then []
    else Dropped(log[..|log| - 1]) + if log[|log| - 1].None? then [|log|] else []
  }

  function Events(given: seq<Item>): seq<Record> {
    if given == [] then []
    else
      var x := given[|given| - 1];
      Events(given[..|given| - 1]) + if x.Event? then [x.rec] else []
  }

  function Reports(given: seq<Item>): seq<Drops> {
    if given == [] then []
    else
      var x := given[|given| - 1];
      Reports(given[..|given| - 1]) + if x.Report? then [x.drops] else []
  }

  function Wire(item: Item): Record {
    match item
    case Event(rec) => rec
    case Report(drops, ts) => DropRecord(drops, ts)
  }

  function EncodeAll(given: seq<Item>): seq<Byte> {
    if given == [] then [] else EncodeAll(given[..|given| - 1]) + Encode(Wire(given[|given| - 1]))
  }

  /** The counters describe exactly these numbers. */
  predicate Describes(d: Drops, ns: seq<nat>) {
    d == if ns == [] then NoDrops else Drops(|ns|, ns[0], ns[|ns| - 1])
  }

  ghost predicate EventsAccounted(s: System) {
    && |s.h.log| == s.q.nextSeq - 1
    && (forall k :: 0 <= k < |s.h.log| && s.h.log[k].Some? ==> s.h.log[k].value.seqno == k + 1 && |s.h.log[k].value.payload| <= s.q.maxPayload)
    && Accepted(s.h.log) == Events(s.h.given) + s.q.pending
    && s.q.queued == |s.q.pending|
    && (s.q.maxQueued > 0 ==> s.q.queued <= s.q.maxQueued)
  }

  ghost predicate DropsAccounted(s: System) {
    && Dropped(s.h.log) == Flat(s.h.reported) + s.h.inflight + s.h.waiting
    && s.q.total == |Dropped(s.h.log)|
    && Describes(s.q.drop, s.h.waiting)
    && Describes(s.q.inflight, s.h.inflight)
    && |Reports(s.h.given)| == |s.h.reported|
    && (forall k :: 0 <= k < |s.h.reported| ==> s.h.reported[k] != [] && Describes(Reports(s.h.given)[k], s.h.reported[k]))
  }

  ghost predicate ReaderInStep(s: System) {
    && (s.reader.CopyingDrop? <==> s.h.inflight != [])
    && (s.reader.CopyingDrop? ==> s.reader.rec == DropRecord(s.q.inflight, s.reader.rec.ts) && RecordSize(s.reader.rec) <= s.reader.count)
    && (s.reader.CopyingNode? ==> s.q.pending != [] && s.reader.rec == s.q.pending[0] && RecordSize(s.reader.rec) <= s.reader.count)
    && EncodeAll(s.h.given) == s.h.returned + if s.reader.Idle? then [] else s.reader.out
  }

  ghost predicate Inv(s: System) { EventsAccounted(s) && DropsAccounted(s) && ReaderInStep(s) }

  // ---------- every step keeps it ----------

  lemma LogAppend(log: seq<Option<Record>>, x: Option<Record>)
    ensures Accepted(log + [x]) == Accepted(log) + if x.Some? then [x.value] else []
    ensures Dropped(log + [x]) == Dropped(log) + if x.None? then [|log| + 1] else []
  {
    assert (log + [x])[..|log|] == log;
  }

  lemma GivenAppend(given: seq<Item>, x: Item)
    ensures Events(given + [x]) == Events(given) + if x.Event? then [x.rec] else []
    ensures Reports(given + [x]) == Reports(given) + if x.Report? then [x.drops] else []
    ensures EncodeAll(given + [x]) == EncodeAll(given) + Encode(Wire(x))
  {
    assert (given + [x])[..|given|] == given;
  }

  lemma ProduceKeeps(s: System, q: Queue, fate: Option<Record>)
    requires Inv(s) && !s.q.closed
    requires fate.Some? ==> fate.value.seqno == s.q.nextSeq && |fate.value.payload| <= s.q.maxPayload && Accepts(s.q, true)
    requires fate.Some? ==>
      q == s.q.(nextSeq := s.q.nextSeq + 1, pending := s.q.pending + [fate.value], queued := s.q.queued + 1)
    requires fate.None? ==> q == NoteDrop(s.q.(nextSeq := s.q.nextSeq + 1), s.q.nextSeq)
    ensures Inv(Produce(s, q, fate))
  {
    hide Accepted, Dropped, Events, Reports, EncodeAll, Flat, DropRecord;
    LogAppend(s.h.log, fate);
    var t := Produce(s, q, fate);
    if fate.Some? {
      assert Events(s.h.given) + s.q.pending + [fate.value] == Events(s.h.given) + (s.q.pending + [fate.value]);
    } else {
      var old_waiting := s.h.waiting;
      assert Flat(s.h.reported) + s.h.inflight + old_waiting + [s.q.nextSeq]
          == Flat(s.h.reported) + s.h.inflight + (old_waiting + [s.q.nextSeq]);
    }
  }

  lemma FinishKeeps(s: System, err: int)
    requires EventsAccounted(s) && DropsAccounted(s) && s.h.inflight == []
    requires EncodeAll(s.h.given) == s.h.returned + if s.reader.Idle? then [] else s.reader.out
    ensures Inv(Finish(s, err))
  {
    hide Accepted, Dropped, Events, Reports, EncodeAll, Flat;
  }

  lemma CopiedKeeps(s: System, rec: Record, item: Item)
    requires (s.reader.CopyingDrop? || s.reader.CopyingNode?) && RecordSize(rec) <= s.reader.count && Wire(item) == rec
    requires s.h.inflight == [] && EncodeAll(s.h.given) == s.h.returned + s.reader.out
    requires EventsAccounted(s.(h := s.h.(given := s.h.given + [item]))) && DropsAccounted(s.(h := s.h.(given := s.h.given + [item])))
    ensures Inv(Copied(s, rec, item))
  {
    hide Accepted, Dropped, Events, Reports, EncodeAll, Flat, Encode, Wire;
    GivenAppend(s.h.given, item);
    var count, out := s.reader.count - RecordSize(rec), s.reader.out + Encode(rec);
    var s1 := s.(reader := AtDrop(count, out), h := s.h.(given := s.h.given + [item]));
    assert s.h.returned + s.reader.out + Encode(rec) == s.h.returned + out;
    assert EventsAccounted(s1) && DropsAccounted(s1);
    if count == 0 {
      FinishKeeps(s1, 0);
    }
  }

  lemma DropCopyKeeps(s: System, fault: bool, ts: U64)
    requires Inv(s) && s.reader.CopyingDrop?
    ensures Inv(ReaderMoves(s, fault, ts))
  {
    hide Accepted, Dropped, Events, Reports, EncodeAll, Flat, Encode;
    if fault {
      var s1 := s.(q := DropRestore(s.q), h := s.h.(inflight := [], waiting := s.h.inflight + s.h.waiting));
      assert Flat(s.h.reported) + s.h.inflight + s.h.waiting == Flat(s.h.reported) + [] + (s.h.inflight + s.h.waiting);
      FinishKeeps(s1, -EFAULT);
    } else {
      var s1 := s.(q := DropCommit(s.q), h := s.h.(reported := s.h.reported + [s.h.inflight], inflight := []));
      var item := Report(s.q.inflight, s.reader.rec.ts);
      FlatAppend(s.h.reported, s.h.inflight);
      GivenAppend(s.h.given, item);
      assert Flat(s.h.reported) + s.h.inflight + s.h.waiting == (Flat(s.h.reported) + s.h.inflight) + [] + s.h.waiting;
      CopiedKeeps(s1, s.reader.rec, item);
    }
  }

  lemma NodeCopyKeeps(s: System, fault: bool, ts: U64)
    requires Inv(s) && s.reader.CopyingNode?
    ensures Inv(ReaderMoves(s, fault, ts))
  {
    hide Accepted, Dropped, Events, Reports, EncodeAll, Flat, Encode;
    if fault {
      FinishKeeps(s, -EFAULT);
    } else {
      var s1 := s.(q := NodeCommit(s.q));
      var rec := s.reader.rec;
      GivenAppend(s.h.given, Event(rec));
      assert s.q.pending == [rec] + s.q.pending[1..];
      assert Events(s.h.given) + s.q.pending == Events(s.h.given) + [rec] + s.q.pending[1..];
      CopiedKeeps(s1, rec, Event(rec));
    }
  }

  lemma StepKeepsInv(s: System, step: Step)
    requires Inv(s)
    ensures Inv(Next(s, step))
  {
    hide Accepted, Dropped, Events, Reports, EncodeAll, Flat, Encode, Le;
    match step
    case PushStep(rec, node) =>
      if |rec.payload| <= s.q.maxPayload && !s.q.closed {
        ProduceKeeps(s, Push(s.q, rec, node), if Accepts(s.q, node) then Some(rec.(seqno := s.q.nextSeq)) else None);
      }
    case DropStep =>
      if !s.q.closed {
        ProduceKeeps(s, Drop(s.q), None);
      }
    case CloseStep =>
    case ReadStep(count) =>
    case ReaderStep(fault, ts) =>
      match s.reader {
        case Idle(_) =>
        case AtDrop(count, out) =>
          if s.q.drop.count > 0 && count < RecordSize(DropRecord(s.q.drop, ts)) {
            FinishKeeps(s, -EMSGSIZE);
          } else if s.q.drop.count > 0 {
            assert Flat(s.h.reported) + s.h.inflight + s.h.waiting == Flat(s.h.reported) + s.h.waiting + [];
          }
        case CopyingDrop(_, _, _) =>
          DropCopyKeeps(s, fault, ts);
        case AtNode(count, out) =>
          if s.q.pending == [] {
            FinishKeeps(s, 0);
          } else if count < RecordSize(s.q.pending[0]) {
            FinishKeeps(s, -EMSGSIZE);
          }
        case CopyingNode(_, _, _) =>
          NodeCopyKeeps(s, fault, ts);
      }
  }

  // ---------- whole runs ----------

  ghost function Run(s: System, steps: seq<Step>): (t: System)
    requires Inv(s)
    ensures Inv(t)
  {
    if steps == [] then s
    else
      var t := Run(s, steps[..|steps| - 1]);
      StepKeepsInv(t, steps[|steps| - 1]);
      Next(t, steps[|steps| - 1])
  }

  lemma StartsWell(maxQueued: nat, maxPayload: U32)
    ensures Inv(Start(maxQueued, maxPayload))
  {
  }

  // ---------- what the invariant says ----------

  ghost predicate Ascending(ns: seq<nat>) { forall i, j :: 0 <= i < j < |ns| ==> ns[i] < ns[j] }

  ghost predicate AscendingRecords(rs: seq<Record>) { forall i, j :: 0 <= i < j < |rs| ==> rs[i].seqno < rs[j].seqno }

  ghost predicate Numbered(log: seq<Option<Record>>) {
    forall k :: 0 <= k < |log| && log[k].Some? ==> log[k].value.seqno == k + 1
  }

  lemma {:induction false} InAccepted(log: seq<Option<Record>>, r: Record)
    requires Numbered(log)
    ensures r in Accepted(log) <==> 1 <= r.seqno <= |log| && log[r.seqno - 1] == Some(r)
    decreases |log|
  {
    if log != [] {
      InAccepted(log[..|log| - 1], r);
    }
  }

  lemma {:induction false} AcceptedAscends(log: seq<Option<Record>>)
    requires Numbered(log)
    ensures AscendingRecords(Accepted(log))
    decreases |log|
  {
    if log != [] {
      var before := log[..|log| - 1];
      AcceptedAscends(before);
      forall i | 0 <= i < |Accepted(before)|
        ensures Accepted(before)[i].seqno < |log|
      {
        InAccepted(before, Accepted(before)[i]);
      }
    }
  }

  lemma {:induction false} InDropped(log: seq<Option<Record>>, n: nat)
    ensures n in Dropped(log) <==> 1 <= n <= |log| && log[n - 1].None?
    decreases |log|
  {
    if log != [] {
      InDropped(log[..|log| - 1], n);
    }
  }

  lemma {:induction false} DroppedAscends(log: seq<Option<Record>>)
    ensures Ascending(Dropped(log))
    decreases |log|
  {
    if log != [] {
      var before := log[..|log| - 1];
      DroppedAscends(before);
      forall i | 0 <= i < |Dropped(before)|
        ensures Dropped(before)[i] < |log|
      {
        InDropped(before, Dropped(before)[i]);
      }
    }
  }

  predicate Among(rs: seq<Record>, n: nat) { exists i :: 0 <= i < |rs| && rs[i].seqno == n }

  function Count(b: bool): nat { if b then 1 else 0 }

  lemma SplitRecords(a: seq<Record>, b: seq<Record>, n: nat)
    requires AscendingRecords(a + b)
    ensures Among(a + b, n) <==> Among(a, n) || Among(b, n)
    ensures !(Among(a, n) && Among(b, n))
  {
    var c := a + b;
    assert forall i | 0 <= i < |a| :: c[i] == a[i];
    assert forall j | 0 <= j < |b| :: c[|a| + j] == b[j];
  }

  lemma SplitNumbers(a: seq<nat>, b: seq<nat>, n: nat)
    requires Ascending(a + b)
    ensures Ascending(a) && Ascending(b) && !(n in a && n in b)
    ensures forall i, j :: 0 <= i < |a| && 0 <= j < |b| ==> a[i] < b[j]
  {
    var c := a + b;
    assert forall i | 0 <= i < |a| :: c[i] == a[i];
    assert forall j | 0 <= j < |b| :: c[|a| + j] == b[j];
  }

  lemma AcceptedAmong(s: System, n: nat)
    requires EventsAccounted(s)
    ensures AscendingRecords(Events(s.h.given) + s.q.pending)
    ensures Among(Events(s.h.given) + s.q.pending, n) <==> 1 <= n < s.q.nextSeq && s.h.log[n - 1].Some?
  {
    hide Accepted, Events;
    AcceptedAscends(s.h.log);
    var rs := Accepted(s.h.log);
    if 1 <= n < s.q.nextSeq && s.h.log[n - 1].Some? {
      InAccepted(s.h.log, s.h.log[n - 1].value);
      var i :| 0 <= i < |rs| && rs[i] == s.h.log[n - 1].value;
    }
    if Among(rs, n) {
      var i :| 0 <= i < |rs| && rs[i].seqno == n;
      InAccepted(s.h.log, rs[i]);
    }
  }

  /** Every number handed out has exactly one fate: given to the reader, pending, reported as dropped, waiting to
      be reported, or being reported; no other number has one. */
  lemma Partition(s: System, n: nat)
    requires Inv(s)
    ensures Count(Among(Events(s.h.given), n)) + Count(Among(s.q.pending, n)) + Count(n in Flat(s.h.reported))
          + Count(n in s.h.inflight) + Count(n in s.h.waiting) == Count(1 <= n < s.q.nextSeq)
  {
    hide Accepted, Dropped, Events, Flat, Among, Ascending, AscendingRecords, ReaderInStep;
    AcceptedAmong(s, n);
    SplitRecords(Events(s.h.given), s.q.pending, n);
    DroppedAscends(s.h.log);
    InDropped(s.h.log, n);
    SplitNumbers(Flat(s.h.reported) + s.h.inflight, s.h.waiting, n);
    SplitNumbers(Flat(s.h.reported), s.h.inflight, n);
    var ds := Dropped(s.h.log);
    assert n in ds <==> 1 <= n < s.q.nextSeq && s.h.log[n - 1].None?;
    assert n in ds <==> n in Flat(s.h.reported) || n in s.h.inflight || n in s.h.waiting;
  }

  lemma OrderedHalves(a: seq<Record>, b: seq<Record>)
    requires AscendingRecords(a + b)
    ensures AscendingRecords(a) && AscendingRecords(b)
    ensures forall i, j :: 0 <= i < |a| && 0 <= j < |b| ==> a[i].seqno < b[j].seqno
  {
    assert forall i | 0 <= i < |a| :: (a + b)[i] == a[i];
    assert forall j | 0 <= j < |b| :: (a + b)[|a| + j] == b[j];
  }

  /** The reader is given the accepted records in order, each once, whatever faults there are: what it has been
      given and what is pending make up what was accepted. */
  lemma GivenInOrder(s: System)
    requires Inv(s)
    ensures AscendingRecords(Events(s.h.given)) && AscendingRecords(s.q.pending)
    ensures forall i, j :: 0 <= i < |Events(s.h.given)| && 0 <= j < |s.q.pending| ==>
      Events(s.h.given)[i].seqno < s.q.pending[j].seqno
    ensures forall r: Record :: r in Events(s.h.given) + s.q.pending <==>
      1 <= r.seqno < s.q.nextSeq && s.h.log[r.seqno - 1] == Some(r)
  {
    hide Accepted, Events, DropsAccounted, ReaderInStep, AscendingRecords;
    AcceptedAscends(s.h.log);
    OrderedHalves(Events(s.h.given), s.q.pending);
    forall r: Record
      ensures r in Events(s.h.given) + s.q.pending <==> 1 <= r.seqno < s.q.nextSeq && s.h.log[r.seqno - 1] == Some(r)
    {
      InAccepted(s.h.log, r);
    }
  }

  // ---------- drops ----------

  predicate MinMax(d: Drops, ns: seq<nat>) {
    && d.count == |ns|
    && (ns == [] ==> d.first == 0 && d.last == 0)
    && (ns != [] ==> d.first in ns && d.last in ns && forall n :: n in ns ==> d.first <= n <= d.last)
  }

  lemma AscendingMinMax(d: Drops, ns: seq<nat>)
    requires Ascending(ns) && Describes(d, ns)
    ensures MinMax(d, ns)
  {
  }

  function Sum(ds: seq<Drops>): nat {
    if ds == [] then 0 else Sum(ds[..|ds| - 1]) + ds[|ds| - 1].count
  }

  lemma {:induction false} SumIsFlat(ds: seq<Drops>, batches: seq<seq<nat>>)
    requires |ds| == |batches| && forall k :: 0 <= k < |ds| ==> Describes(ds[k], batches[k])
    ensures Sum(ds) == |Flat(batches)|
    decreases |ds|
  {
    if ds != [] { SumIsFlat(ds[..|ds| - 1], batches[..|ds| - 1]); }
  }

  /** The counters are the sizes, the first and the last numbers of the drops they stand for, and add up. */
  lemma DropCounters(s: System)
    requires Inv(s)
    ensures MinMax(s.q.drop, s.h.waiting) && MinMax(s.q.inflight, s.h.inflight)
    ensures s.q.total == Sum(Reports(s.h.given)) + s.q.inflight.count + s.q.drop.count
    ensures forall n: nat :: n in Dropped(s.h.log) <==> 1 <= n < s.q.nextSeq && s.h.log[n - 1].None?
    ensures s.q.total == |Dropped(s.h.log)| && Ascending(Dropped(s.h.log))
  {
    hide Accepted, Dropped, Events, Flat, Reports, Ascending, ReaderInStep;
    DroppedAscends(s.h.log);
    forall n: nat
      ensures n in Dropped(s.h.log) <==> 1 <= n < s.q.nextSeq && s.h.log[n - 1].None?
    {
      InDropped(s.h.log, n);
    }
    SumIsFlat(Reports(s.h.given), s.h.reported);
    SplitNumbers(Flat(s.h.reported) + s.h.inflight, s.h.waiting, 0);
    SplitNumbers(Flat(s.h.reported), s.h.inflight, 0);
    AscendingMinMax(s.q.drop, s.h.waiting);
    AscendingMinMax(s.q.inflight, s.h.inflight);
  }

  lemma {:induction false} BatchInFlat(batches: seq<seq<nat>>, k: nat, n: nat)
    requires k < |batches| && n in batches[k]
    ensures n in Flat(batches)
    decreases |batches|
  {
    if k < |batches| - 1 { BatchInFlat(batches[..|batches| - 1], k, n); }
  }

  lemma {:induction false} BatchesAscend(batches: seq<seq<nat>>, i: nat, j: nat, a: nat, b: nat)
    requires Ascending(Flat(batches)) && i < j < |batches| && a in batches[i] && b in batches[j]
    ensures a < b
    decreases |batches|
  {
    var before, last := batches[..|batches| - 1], batches[|batches| - 1];
    SplitNumbers(Flat(before), last, 0);
    if j < |batches| - 1 {
      BatchesAscend(before, i, j, a, b);
    } else {
      BatchInFlat(before, i, a);
    }
  }

  /** Reports cover intervals that follow each other without overlap, and what is still to be reported comes after. */
  lemma ReportsAscend(s: System, i: nat, j: nat)
    requires Inv(s) && i < |Reports(s.h.given)|
    ensures 1 <= Reports(s.h.given)[i].first <= Reports(s.h.given)[i].last
    ensures i < j < |Reports(s.h.given)| ==> Reports(s.h.given)[i].last < Reports(s.h.given)[j].first
    ensures s.q.inflight.count > 0 ==> Reports(s.h.given)[i].last < s.q.inflight.first
    ensures s.q.drop.count > 0 ==> Reports(s.h.given)[i].last < s.q.drop.first
    ensures s.q.inflight.count > 0 && s.q.drop.count > 0 ==> s.q.inflight.last < s.q.drop.first
  {
    hide Accepted, Dropped, Events, Flat, Reports, ReaderInStep, Ascending;
    DroppedAscends(s.h.log);
    InDropped(s.h.log, s.h.reported[i][0]);
    SplitNumbers(Flat(s.h.reported) + s.h.inflight, s.h.waiting, 0);
    SplitNumbers(Flat(s.h.reported), s.h.inflight, 0);
    var batch, ds := s.h.reported[i], Flat(s.h.reported);
    var first, last := batch[0], batch[|batch| - 1];
    OneBatchAscends(s.h.reported, i);
    BatchInFlat(s.h.reported, i, first);
    BatchInFlat(s.h.reported, i, last);
    assert first in ds + s.h.inflight + s.h.waiting;
    if i < j < |s.h.reported| {
      BatchesAscend(s.h.reported, i, j, last, s.h.reported[j][0]);
    }
    var k :| 0 <= k < |ds| && ds[k] == last;
    assert (ds + s.h.inflight)[k] == last;
    assert s.h.inflight != [] ==> (ds + s.h.inflight)[|ds| + |s.h.inflight| - 1] == s.h.inflight[|s.h.inflight| - 1];
  }

  lemma {:induction false} OneBatchAscends(batches: seq<seq<nat>>, k: nat)
    requires Ascending(Flat(batches)) && k < |batches| && batches[k] != []
    ensures Ascending(batches[k]) && batches[k][0] <= batches[k][|batches[k]| - 1]
    decreases |batches|
  {
    SplitNumbers(Flat(batches[..|batches| - 1]), batches[|batches| - 1], 0);
    if k < |batches| - 1 { OneBatchAscends(batches[..|batches| - 1], k); }
  }

  /** In every reachable state of a queue each number has one fate, and the counters and intervals describe the
      drops that are not yet reported. */
  lemma EveryRunAccounts(maxQueued: nat, maxPayload: U32, steps: seq<Step>, n: nat)
    ensures Inv(Start(maxQueued, maxPayload))
    ensures var s := Run(Start(maxQueued, maxPayload), steps);
      && Count(Among(Events(s.h.given), n)) + Count(Among(s.q.pending, n)) + Count(n in Flat(s.h.reported))
         + Count(n in s.h.inflight) + Count(n in s.h.waiting) == Count(1 <= n < s.q.nextSeq)
      && MinMax(s.q.drop, s.h.waiting) && MinMax(s.q.inflight, s.h.inflight)
      && s.q.total == Sum(Reports(s.h.given)) + s.q.inflight.count + s.q.drop.count
  {
    hide Inv, Start, Count, Among, Events, Flat, MinMax, Sum, Reports;
    StartsWell(maxQueued, maxPayload);
    var s := Run(Start(maxQueued, maxPayload), steps);
    Partition(s, n);
    DropCounters(s);
  }

  // ---------- what the reader gets ----------

  /** The numbers and lengths fit their fields. */
  predicate Fits(r: Record) { |r.payload| < 0x1_0000_0000 && r.seqno < 0x1_0000_0000_0000_0000 }

  lemma HeaderUnique(a: Record, b: Record)
    requires Fits(a) && Fits(b) && Header(a) == Header(b)
    ensures a.(payload := []) == b.(payload := []) && |a.payload| == |b.payload|
  {
    hide Le, Pow256;
    Powers256();
    var al, bl := |a.payload|, |b.payload|;
    Cancel(Le(a.typ, 2) + Le(a.flags, 2) + Le(al, 4) + Le(a.seqno, 8), Le(b.typ, 2) + Le(b.flags, 2) + Le(bl, 4) + Le(b.seqno, 8),
           Le(a.ts, 8), Le(b.ts, 8));
    Cancel(Le(a.typ, 2) + Le(a.flags, 2) + Le(al, 4), Le(b.typ, 2) + Le(b.flags, 2) + Le(bl, 4), Le(a.seqno, 8), Le(b.seqno, 8));
    Cancel(Le(a.typ, 2) + Le(a.flags, 2), Le(b.typ, 2) + Le(b.flags, 2), Le(al, 4), Le(bl, 4));
    Cancel(Le(a.typ, 2), Le(b.typ, 2), Le(a.flags, 2), Le(b.flags, 2));
    LeUnique(a.typ, b.typ, 2);
    LeUnique(a.flags, b.flags, 2);
    LeUnique(al, bl, 4);
    LeUnique(a.seqno, b.seqno, 8);
    LeUnique(a.ts, b.ts, 8);
  }

  lemma RecordUnique(a: Record, b: Record, x: seq<Byte>, y: seq<Byte>)
    requires Fits(a) && Fits(b) && Encode(a) + x == Encode(b) + y
    ensures a == b && x == y
  {
    hide Header;
    assert Encode(a) + x == Header(a) + (a.payload + x);
    assert Encode(b) + y == Header(b) + (b.payload + y);
    Cancel(Header(a), Header(b), a.payload + x, b.payload + y);
    HeaderUnique(a, b);
    Cancel(a.payload, b.payload, x, y);
  }

  /** The records one after another. */
  function Stream(rs: seq<Record>): seq<Byte> {
    if rs == [] then [] else Encode(rs[0]) + Stream(rs[1..])
  }

  lemma {:induction false} StreamUnique(rs: seq<Record>, qs: seq<Record>)
    requires (forall r | r in rs + qs :: Fits(r)) && Stream(rs) == Stream(qs)
    ensures rs == qs
    decreases |rs|
  {
    hide Encode, Fits;
    if rs != [] && qs != [] {
      assert rs[0] in rs + qs && qs[0] in rs + qs;
      RecordUnique(rs[0], qs[0], Stream(rs[1..]), Stream(qs[1..]));
      forall r | r in rs[1..] + qs[1..] ensures Fits(r) { assert r in rs + qs; }
      StreamUnique(rs[1..], qs[1..]);
    }
  }

  lemma {:induction false} StreamAppend(rs: seq<Record>, r: Record)
    ensures Stream(rs + [r]) == Stream(rs) + Encode(r)
    decreases |rs|
  {
    hide Encode;
    if rs == [] {
      assert rs + [r] == [r] && [r][1..] == [];
    } else {
      StreamAppend(rs[1..], r);
      assert (rs + [r])[1..] == rs[1..] + [r];
    }
  }

  function Wires(given: seq<Item>): seq<Record> {
    seq(|given|, i requires 0 <= i < |given| => Wire(given[i]))
  }

  lemma {:induction false} EncodeAllIsStream(given: seq<Item>)
    ensures EncodeAll(given) == Stream(Wires(given))
    decreases |given|
  {
    hide Encode, Wire;
    if given != [] {
      var before := given[..|given| - 1];
      EncodeAllIsStream(before);
      StreamAppend(Wires(before), Wire(given[|given| - 1]));
      assert Wires(given) == Wires(before) + [Wire(given[|given| - 1])];
    }
  }

  lemma {:induction false} GivenEvent(given: seq<Item>, item: Item)
    requires item in given
    ensures item.Event? ==> item.rec in Events(given)
    ensures item.Report? ==> item.drops in Reports(given)
    decreases |given|
  {
    if item in given[..|given| - 1] { GivenEvent(given[..|given| - 1], item); }
  }

  lemma GivenFits(s: System, item: Item)
    requires Inv(s) && item in s.h.given && s.q.nextSeq <= 0x1_0000_0000_0000_0000
    ensures Fits(Wire(item))
  {
    hide Accepted, Events, Reports, Le;
    GivenEvent(s.h.given, item);
    if item.Event? {
      GivenInOrder(s);
      assert item.rec in Events(s.h.given) + s.q.pending;
    } else {
      var k :| 0 <= k < |Reports(s.h.given)| && Reports(s.h.given)[k] == item.drops;
      ReportInRange(s, k);
    }
  }

  lemma ReportInRange(s: System, k: nat)
    requires Inv(s) && k < |Reports(s.h.given)|
    ensures Reports(s.h.given)[k].first < s.q.nextSeq
  {
    hide Accepted, Dropped, Events, Reports, Flat, ReaderInStep;
    InDropped(s.h.log, s.h.reported[k][0]);
    BatchInFlat(s.h.reported, k, s.h.reported[k][0]);
    assert s.h.reported[k][0] in Flat(s.h.reported) + s.h.inflight + s.h.waiting;
  }

  /** All that completed reads have returned, put together, is whole records; reading it back yields the events and
      drop reports given, in their order, and nothing else. */
  lemma ReadsBack(s: System, rs: seq<Record>)
    requires Inv(s) && s.reader.Idle? && s.q.nextSeq <= 0x1_0000_0000_0000_0000
    requires forall r | r in rs :: Fits(r)
    ensures Stream(rs) == s.h.returned <==> rs == Wires(s.h.given)
  {
    hide Encode, Wire, Fits, Stream, EncodeAll, EventsAccounted, DropsAccounted;
    EncodeAllIsStream(s.h.given);
    forall r | r in rs + Wires(s.h.given)
      ensures Fits(r)
    {
      if r !in rs {
        var i :| 0 <= i < |s.h.given| && Wires(s.h.given)[i] == r;
        GivenFits(s, s.h.given[i]);
      }
    }
    if Stream(rs) == s.h.returned {
      StreamUnique(rs, Wires(s.h.given));
    }
  }

  /** While the reader copies the head record with the lock released, nobody else can take it away. */
  lemma HeadStays(s: System, step: Step)
    requires Inv(s) && s.reader.CopyingNode? && !step.ReaderStep?
    ensures Next(s, step).reader == s.reader
    ensures Next(s, step).q.pending != [] && Next(s, step).q.pending[0] == s.reader.rec
  {
    hide EventsAccounted, DropsAccounted, EncodeAll, Encode;
  }

  // ---------- the reading code, among other processors ----------

  /** What the rest of the world does at the k-th point where the reader holds no lock: the producers' steps,
      whether the copy to user memory faults, and the clock; and how often a waiting reader wakes up before a signal
      interrupts it. */
  datatype World = World(others: nat -> seq<Step>, fault: nat -> bool, clock: nat -> U64, patience: nat)

  predicate IsProducer(step: Step) { !step.ReadStep? && !step.ReaderStep? }

  ghost predicate OnlyProducers(w: World) {
    forall k: nat, step :: step in w.others(k) ==> IsProducer(step)
  }

  lemma RunAppend(s: System, tr: seq<Step>, step: Step)
    requires Inv(s)
    ensures CanCopy(Run(s, tr)) && Run(s, tr + [step]) == Next(Run(s, tr), step)
  {
    assert (tr + [step])[..|tr|] == tr;
  }

  lemma ProducersOnly(s: System, step: Step)
    requires Inv(s) && IsProducer(step)
    ensures Next(s, step).reader == s.reader && Next(s, step).h.returned == s.h.returned && Next(s, step).h.given == s.h.given
  {
    hide Inv;
  }

  /** The producers run. `s` is where the whole run began and `tr` the steps so far. */
  method Interfere(queue: EventQueue, steps: seq<Step>, ghost s: System, ghost tr: seq<Step>) returns (ghost tr': seq<Step>)
    requires Inv(s) && Run(s, tr).q == queue.View() && forall step :: step in steps ==> IsProducer(step)
    modifies queue
    ensures tr <= tr' && Run(s, tr').q == queue.View() && Run(s, tr').reader == Run(s, tr).reader
    ensures Run(s, tr').h.returned == Run(s, tr).h.returned && Run(s, tr').h.given == Run(s, tr).h.given
  {
    hide Inv, Run, Push, CanCopy;
    tr' := tr;
    for i := 0 to |steps|
      invariant tr <= tr' && Run(s, tr').q == queue.View() && Run(s, tr').reader == Run(s, tr).reader
      invariant Run(s, tr').h.returned == Run(s, tr).h.returned && Run(s, tr').h.given == Run(s, tr).h.given
    {
      var step := steps[i];
      assert step in steps;
      RunAppend(s, tr', step);
      ProducersOnly(Run(s, tr'), step);
      match step {
        case PushStep(rec, node) =>
          PushIgnoresNumber(queue.View(), rec, node);
          var _ := queue.PushEvent(rec.typ, rec.flags, Some(rec.payload), |rec.payload|, rec.ts, node);
        case DropStep =>
          queue.DropEvent();
        case CloseStep =>
          queue.Close();
        case ReadStep(_) =>
          assert false;
        case ReaderStep(_, _) =>
          assert false;
      }
      tr' := tr' + [step];
    }
  }

  lemma PushIgnoresNumber(q: Queue, rec: Record, node: bool)
    ensures Push(q, rec.(seqno := 0), node) == Push(q, rec, node)
    ensures q.closed ==> Push(q, rec, node) == q
  {
  }

  /** What ends a read with this much room left, and the error it is if nothing has been copied: a drop report or a
      record that does not fit, a fault while one is copied, or nothing left to read. */
  predicate Stops(u: System, fault: bool, room: nat, err: int) {
    match u.reader
    case Idle(_) => false
    case AtDrop(count, _) => count == room && u.q.drop.count != 0 && room < 48 && err == -EMSGSIZE
    case AtNode(count, _) =>
      count == room && if u.q.pending == [] then err == 0 else room < RecordSize(u.q.pending[0]) && err == -EMSGSIZE
    case CopyingDrop(count, _, _) => count == room && fault && err == -EFAULT
    case CopyingNode(count, _, _) => count == room && fault && err == -EFAULT
  }

  /** The last step of the run is such a step of the reader. */
  ghost predicate StopsAtEnd(s: System, tr: seq<Step>, room: nat, err: int)
    requires Inv(s)
  {
    tr != [] && tr[|tr| - 1].ReaderStep? && Stops(Run(s, tr[..|tr| - 1]), tr[|tr| - 1].fault, room, err)
  }

  ghost predicate StopsShort(s: System, tr: seq<Step>, room: nat)
    requires Inv(s)
  {
    exists err :: StopsAtEnd(s, tr, room, err)
  }

  /** Any step that ends a read is one of these, unless the record it copies fills the buffer. */
  lemma OnlyTheseStop(u: System, fault: bool, ts: U64)
    requires CanCopy(u) && !u.reader.Idle? && ReaderMoves(u, fault, ts).reader.Idle?
    ensures var room, t := u.reader.count, ReaderMoves(u, fault, ts);
      || ((u.reader.CopyingDrop? || u.reader.CopyingNode?) && !fault && room == RecordSize(u.reader.rec))
      || exists err :: Stops(u, fault, room, err) && t.reader == Idle(if u.reader.out != [] then |u.reader.out| else err)
  {
    hide Encode;
    var err := if u.reader.CopyingDrop? || u.reader.CopyingNode? then -EFAULT
               else if u.reader.AtNode? && u.q.pending == [] then 0 else -EMSGSIZE;
    if !((u.reader.CopyingDrop? || u.reader.CopyingNode?) && !fault) {
      assert Stops(u, fault, u.reader.count, err);
    }
  }

  /** read_drop: one drop report, its size, or an error; 0 if there is nothing to report. */
  method ReadDrop(queue: EventQueue, count: nat, w: World, k: nat, ghost out: seq<Byte>, ghost s: System, ghost tr: seq<Step>)
    returns (ret: int, bytes: seq<Byte>, ghost tr': seq<Step>)
    requires Inv(s) && OnlyProducers(w) && Run(s, tr).q == queue.View() && Run(s, tr).reader == AtDrop(count, out)
    modifies queue
    ensures tr <= tr' && Run(s, tr').q == queue.View()
    ensures ret == 0 ==> Run(s, tr').reader == AtNode(count, out) && Run(s, tr').h.returned == Run(s, tr).h.returned
    ensures ret > 0 ==> ret == |bytes| <= count && After(Run(s, tr), Run(s, tr'), count - ret, out + bytes)
    ensures ret < 0 ==> Ended(Run(s, tr), Run(s, tr'), ret, out) && StopsAtEnd(s, tr', count, ret)
  {
    hide Inv, Run, CanCopy, Encode, Le, Push, Drop;
    tr' := tr;
    bytes := [];
    var ts := w.clock(k);
    RunAppend(s, tr', ReaderStep(false, ts));
    tr' := tr' + [ReaderStep(false, ts)];
    if queue.drop.count == 0 {
      return 0, bytes, tr';
    }
    if count < 48 {
      return -EMSGSIZE, bytes, tr';
    }
    var rec := DropRecord(queue.drop, ts);
    queue.inflight := queue.drop;
    queue.drop := NoDrops;
    tr' := Interfere(queue, w.others(k), s, tr');
    RunAppend(s, tr', ReaderStep(w.fault(k), ts));
    tr' := tr' + [ReaderStep(w.fault(k), ts)];
    if w.fault(k) {
      if queue.drop.count == 0 {
        queue.drop := queue.inflight;
      } else {
        queue.drop := Drops(queue.drop.count + queue.inflight.count, queue.inflight.first, queue.drop.last);
      }
      queue.inflight := NoDrops;
      return -EFAULT, bytes, tr';
    }
    queue.inflight := NoDrops;
    return 48, Encode(rec), tr';
  }

  /** The read goes on with this much room and this output, or has just returned it for lack of room. */
  ghost predicate After(s: System, t: System, count: nat, out: seq<Byte>) {
    if count > 0 then t.reader == AtDrop(count, out) && t.h.returned == s.h.returned
    else t.reader == Idle(|out|) && t.h.returned == s.h.returned + out
  }

  /** The read has returned its output, or the error if it has none. */
  ghost predicate Ended(s: System, t: System, err: int, out: seq<Byte>) {
    && t.reader == Idle(if out != [] then |out| else err)
    && t.h.returned == s.h.returned + out
  }

  /** read_node: the head record, its size, or an error; 0 if there is none. */
  method ReadNode(queue: EventQueue, count: nat, w: World, k: nat, ghost out: seq<Byte>, ghost s: System, ghost tr: seq<Step>)
    returns (ret: int, bytes: seq<Byte>, ghost tr': seq<Step>)
    requires Inv(s) && OnlyProducers(w) && Run(s, tr).q == queue.View() && Run(s, tr).reader == AtNode(count, out)
    modifies queue
    ensures tr <= tr' && Run(s, tr').q == queue.View()
    ensures ret > 0 ==> ret == |bytes| <= count && After(Run(s, tr), Run(s, tr'), count - ret, out + bytes)
    ensures ret <= 0 ==> Ended(Run(s, tr), Run(s, tr'), ret, out) && StopsAtEnd(s, tr', count, ret)
  {
    hide Inv, Run, Encode, Le, Push, Drop;
    tr' := tr;
    bytes := [];
    var ts := w.clock(k);
    RunAppend(s, tr', ReaderStep(false, ts));
    tr' := tr' + [ReaderStep(false, ts)];
    if queue.pending == [] {
      return 0, bytes, tr';
    }
    var node := queue.pending[0];
    if count < RecordSize(node) {
      return -EMSGSIZE, bytes, tr';
    }
    tr' := Interfere(queue, w.others(k), s, tr');
    RunAppend(s, tr', ReaderStep(w.fault(k), ts));
    tr' := tr' + [ReaderStep(w.fault(k), ts)];
    if w.fault(k) {
      return -EFAULT, bytes, tr';
    }
    queue.pending := queue.pending[1..];
    queue.queued := queue.queued - 1;
    return RecordSize(node), Encode(node), tr';
  }

  /** ksu_event_queue_wait_ready: 0 once there is data or the queue is closed, or the reason not to wait longer. */
  method WaitReady(queue: EventQueue, w: World, nonBlocking: bool, ghost s: System, ghost tr: seq<Step>)
    returns (ret: int, k: nat, ghost tr': seq<Step>)
    requires Inv(s) && OnlyProducers(w) && Run(s, tr).q == queue.View()
    modifies queue
    ensures tr <= tr' && Run(s, tr').q == queue.View() && Run(s, tr').reader == Run(s, tr).reader
    ensures Run(s, tr').h.returned == Run(s, tr).h.returned && Run(s, tr').h.given == Run(s, tr).h.given
    ensures nonBlocking ==> tr' == tr && queue.View() == old(queue.View())
    ensures ret == 0 <==> HasData(queue.View()) || queue.closed
    ensures ret != 0 ==> ret == if nonBlocking then -EAGAIN else -ERESTARTSYS
  {
    hide Inv, Run, Push, Drop;
    tr', k := tr, 0;
    while !(queue.drop.count != 0 || queue.inflight.count != 0 || queue.pending != []) && !queue.closed
      invariant Run(s, tr').q == queue.View() && Run(s, tr').reader == Run(s, tr).reader
      invariant Run(s, tr').h.returned == Run(s, tr).h.returned && Run(s, tr').h.given == Run(s, tr).h.given
      invariant tr <= tr' && k <= w.patience && (nonBlocking ==> tr' == tr && queue.View() == old(queue.View()))
      decreases w.patience - k
    {
      if nonBlocking {
        return -EAGAIN, k, tr';
      }
      if k == w.patience {
        return -ERESTARTSYS, k, tr';
      }
      tr' := Interfere(queue, w.others(k), s, tr');
      k := k + 1;
    }
    return 0, k, tr';
  }

  /** read: it fills the buffer with whole records, drop reports first. Producers run wherever it holds no lock.
      A signal while it waits for other readers interrupts it before anything is read; `began` says whether it came
      past both waits. */
  method Read(queue: EventQueue, size: nat, w: World, nonBlocking: bool, interrupted: bool, ghost s: System, ghost tr: seq<Step>)
    returns (ret: int, buf: seq<Byte>, ghost began: bool, ghost tr': seq<Step>)
    requires Inv(s) && OnlyProducers(w) && Run(s, tr).q == queue.View() && Run(s, tr).reader.Idle?
    modifies queue
    ensures tr <= tr' && Run(s, tr').q == queue.View()
    ensures Run(s, tr').h.returned == Run(s, tr).h.returned + buf
    ensures size == 0 ==> ret == 0 && !began
    ensures interrupted && size > 0 ==> ret == -EINTR && !began
    ensures size == 0 || interrupted || nonBlocking ==>
      (began <==> size > 0 && !interrupted && (HasData(old(queue.View())) || old(queue.closed)))
    ensures size == 0 || interrupted || (nonBlocking && !began) ==> tr' == tr && queue.View() == old(queue.View())
    ensures !began ==> buf == [] && Run(s, tr').reader == Run(s, tr).reader
    ensures !began && size > 0 && !interrupted ==>
      !HasData(queue.View()) && !queue.closed && ret == if nonBlocking then -EAGAIN else -ERESTARTSYS
    ensures began ==> Run(s, tr').reader == Idle(ret) && |buf| <= size
    ensures began && buf != [] ==> ret == |buf|
    ensures began && buf == [] ==> StopsAtEnd(s, tr', size, ret)
    ensures began && 0 < |buf| < size ==> StopsShort(s, tr', size - |buf|)
  {
    hide Inv, Run, CanCopy, Encode, Le, Push, Drop, StopsAtEnd;
    tr', began := tr, false;
    buf := [];
    if size == 0 {
      return 0, buf, began, tr';
    }
    if interrupted {
      return -EINTR, buf, began, tr';
    }
    var k;
    ret, k, tr' := WaitReady(queue, w, nonBlocking, s, tr');
    if ret != 0 {
      return ret, buf, began, tr';
    }
    RunAppend(s, tr', ReadStep(size));
    tr', began := tr' + [ReadStep(size)], true;
    var count: nat, copied: nat := size, 0;
    while count > 0
      invariant |buf| == copied && count + copied == size && tr <= tr' && Run(s, tr').q == queue.View()
      invariant After(Run(s, tr), Run(s, tr'), count, buf)
      decreases count
    {
      var bytes;
      tr' := Interfere(queue, w.others(k), s, tr');
      ret, bytes, tr' := ReadDrop(queue, count, w, k + 1, buf, s, tr');
      k := k + 2;
      if ret < 0 {
        if copied == 0 { return ret, buf, began, tr'; }
        return copied, buf, began, tr';
      }
      if ret == 0 {
        tr' := Interfere(queue, w.others(k), s, tr');
        ret, bytes, tr' := ReadNode(queue, count, w, k + 1, buf, s, tr');
        k := k + 2;
        if ret <= 0 {
          if copied == 0 { return ret, buf, began, tr'; }
          return copied, buf, began, tr';
        }
      }
      copied := copied + ret;
      buf := buf + bytes;
      count := count - ret;
    }
    return copied, buf, began, tr';
  }

  // ---------- the layout of a record ----------

  /** Where the fields stand in the bytes a reader gets. */
  lemma RecordLayout(r: Record)
    requires |r.payload| < 0x1_0000_0000 && r.seqno < 0x1_0000_0000_0000_0000
    ensures var b := Encode(r);
      && FromLe(b[0..2]) == r.typ && FromLe(b[2..4]) == r.flags && FromLe(b[4..8]) == |r.payload|
      && FromLe(b[8..16]) == r.seqno && FromLe(b[16..24]) == r.ts && b[24..] == r.payload
  {
    Powers256();
    hide Le, FromLe, Pow256;
    var b := Encode(r);
    assert b[0..2] == Le(r.typ, 2) && b[2..4] == Le(r.flags, 2) && b[4..8] == Le(|r.payload|, 4);
    assert b[8..16] == Le(r.seqno, 8) && b[16..24] == Le(r.ts, 8);
    FromLeLe(r.typ, 2);
    FromLeLe(r.flags, 2);
    FromLeLe(|r.payload|, 4);
    FromLeLe(r.seqno, 8);
    FromLeLe(r.ts, 8);
  }

  /** A report of drops is an internal record of its own type, numbered by the first drop. */
  lemma ReportLayout(d: Drops, ts: U64)
    requires d.count < 0x1_0000_0000_0000_0000 && d.first < 0x1_0000_0000_0000_0000 && d.last < 0x1_0000_0000_0000_0000
    ensures var b := Encode(DropRecord(d, ts));
      && |b| == 48 && FromLe(b[0..2]) == 0xFFFF && FromLe(b[2..4]) == 1 && FromLe(b[4..8]) == 24
      && FromLe(b[8..16]) == d.first && FromLe(b[16..24]) == ts
      && FromLe(b[24..32]) == d.count && FromLe(b[32..40]) == d.first && FromLe(b[40..48]) == d.last
  {
    Powers256();
    hide Le, FromLe, Pow256;
    var r := DropRecord(d, ts);
    var b := Encode(r);
    RecordLayout(r);
    assert r.payload[0..8] == Le(d.count, 8) && r.payload[8..16] == Le(d.first, 8) && r.payload[16..24] == Le(d.last, 8);
    assert b[24..32] == b[24..][0..8] && b[32..40] == b[24..][8..16] && b[40..48] == b[24..][16..24];
    FromLeLe(d.count, 8);
    FromLeLe(d.first, 8);
    FromLeLe(d.last, 8);
  }

  /** The errors a producer or a reader gets, in numbers. */
  lemma ErrorNumbers()
    ensures EINTR == 4 && EAGAIN == 11 && ENOMEM == 12 && EFAULT == 14 && EINVAL == 22
    ensures ENOSPC == 28 && EPIPE == 32 && EMSGSIZE == 90 && ERESTARTSYS == 512
  {
  }
}
