/** The transport layer's threads: a writer and a reader thread, a mutex with a condition variable
    between them, two semaphores and two busy flags, and the client thread behind the message queue
    (uwb/halimpl/tml/phTmlUwb.cc:204-428, 560-660, 726-837; uwb/halimpl/hal/phNxpUciHal.cc:984-993).
    Each step is what one thread does between two points where others may interfere. */
module Tml {
  import opened Bytes

  /** A received packet: its first byte, and the number of the write it answers, if it is a response. */
  datatype Packet = Packet(head: byte, answers: Option<nat>)

  /** Notifications are passed on without waiting: `(head & 0x60) == 0x60`. */
  predicate Exempt(p: Packet) { p.head / 0x20 % 4 == 3 }

  datatype Msg = WriteDone(id: nat, ok: bool) | ReadDone(packet: Packet, gaveUp: bool)

  /** The writer thread: waiting on txSemaphore; past it; wanting the mutex; writing under the mutex;
      about to post its message; about to set the flag and signal. */
  datatype WriterPc = WIdle | WCheck | WWant | WWriting(sent: bool) | WPost(ok: bool) | WSignal

  /** The reader thread: waiting on rxSemaphore; past it; in the device read; holding a packet; waiting
      on the condition variable; about to post its message. */
  datatype ReaderPc = RIdle | RCheck | RReading | RFilled(p: Packet) | RWaiting(p: Packet, signalled: bool) | RPost(p: Packet, gaveUp: bool)

  /** Whoever calls phTmlUwb_Read, at open or at the end of the read callback: not there; before the
      call, with the callback running; inside, before the semaphore is posted. */
  datatype Arm = NotArming | ToArm | ArmPosting

  datatype WriteSide = WriteSide(enable: bool, busy: bool, txSem: nat, pc: WriterPc, calling: bool, submitted: nat, posted: nat, missed: nat)
  datatype ReadSide = ReadSide(enable: bool, busy: bool, rxSem: nat, pc: ReaderPc, arm: Arm, buffer: Option<Packet>, missed: nat)

  /** `missed` counts the semaphore waits that failed: the thread goes on as if it had been woken.
      `cbFlag` is gWriterCbflag, `waitFlag` wait_busy_flag. `log` is everything ever posted to `queue`;
      `received` what the device delivered, `consumed` what the callback saw in the shared buffer. */
  datatype State = State(w: WriteSide, r: ReadSide, cbFlag: bool, waitFlag: bool, queue: seq<Msg>,
                         log: seq<Msg>, received: seq<Packet>, consumed: seq<Packet>)

  datatype Action =
    | CallWrite | PostTx
    | WriterWakes | WriterInterrupted | WriterBegins | WriterLocks | WriterSubmits | WriterUnlocks(ok: bool) | WriterPosts | WriterSignals
    | ReaderWakes | ReaderInterrupted | ReaderBegins | ReadFails | ReadGets(p: Packet) | ReaderLocks | ReaderResumes | ReaderGivesUp | ReaderPosts
    | ClientTakes | CallRead | PostRx

  /** The mutex is held over several steps only by the writer. */
  predicate MutexFree(st: State) { !st.w.pc.WWriting? }

  predicate Enabled(st: State, a: Action) {
    match a
    case CallWrite => !st.w.calling && !st.w.busy
    case PostTx => st.w.calling
    case WriterWakes => st.w.pc.WIdle? && st.w.txSem > 0
    case WriterInterrupted => st.w.pc.WIdle?
    case WriterBegins => st.w.pc.WCheck?
    case WriterLocks => st.w.pc.WWant?
    case WriterSubmits => st.w.pc == WWriting(false)
    case WriterUnlocks(_) => st.w.pc == WWriting(true)
    case WriterPosts => st.w.pc.WPost?
    case WriterSignals => st.w.pc.WSignal?
    case ReaderWakes => st.r.pc.RIdle? && st.r.rxSem > 0
    case ReaderInterrupted => st.r.pc.RIdle?
    case ReaderBegins => st.r.pc.RCheck?
    case ReadFails => st.r.pc.RReading?
    case ReadGets(p) => st.r.pc.RReading? && (p.answers.Some? ==> p.answers.value < st.w.submitted)
    case ReaderLocks => st.r.pc.RFilled? && MutexFree(st)
    case ReaderResumes => st.r.pc.RWaiting? && st.r.pc.signalled && MutexFree(st)
    case ReaderGivesUp => st.r.pc.RWaiting? && MutexFree(st)
    case ReaderPosts => st.r.pc.RPost?
    case ClientTakes => st.queue != [] && st.r.arm.NotArming?
    case CallRead => st.r.arm.ToArm? && !st.r.busy
    case PostRx => st.r.arm.ArmPosting?
  }

  function StepWriter(st: State, a: Action): State
    requires Enabled(st, a)
  {
    var w := st.w;
    match a
    case CallWrite => st.(w := w.(busy := true, enable := true, calling := true))
    case PostTx => st.(w := w.(txSem := w.txSem + 1, calling := false))
    case WriterWakes => st.(w := w.(txSem := w.txSem - 1, pc := WCheck))
    case WriterInterrupted => st.(w := w.(missed := w.missed + 1, pc := WCheck))
    case WriterBegins => st.(w := if w.enable then w.(enable := false, pc := WWant) else w.(pc := WIdle))
    case WriterLocks => st.(w := w.(pc := WWriting(false)), cbFlag := false)
    case WriterSubmits => st.(w := w.(pc := WWriting(true), submitted := w.submitted + 1))
    case WriterUnlocks(ok) => st.(w := w.(pc := WPost(ok)))
    case WriterPosts =>
      var m := WriteDone(w.posted, w.pc.ok);
      st.(w := w.(pc := if w.pc.ok then WSignal else WIdle, posted := w.posted + 1), queue := st.queue + [m], log := st.log + [m])
    case WriterSignals =>
      var pc := if st.waitFlag && st.r.pc.RWaiting? then RWaiting(st.r.pc.p, true) else st.r.pc;
      st.(w := w.(pc := WIdle), cbFlag := true, waitFlag := false, r := st.r.(pc := pc))
    case _ => st
  }

  function StepReader(st: State, a: Action): State
    requires Enabled(st, a)
  {
    var r := st.r;
    match a
    case ReaderWakes => st.(r := r.(rxSem := r.rxSem - 1, pc := RCheck))
    case ReaderInterrupted => st.(r := r.(missed := r.missed + 1, pc := RCheck))
    case ReaderBegins => st.(r := r.(pc := if r.enable then RReading else RIdle))
    case ReadFails => st.(r := r.(rxSem := r.rxSem + 1, pc := RIdle))
    case ReadGets(p) => st.(r := r.(enable := false, pc := RFilled(p), buffer := Some(p)), received := st.received + [p])
    case ReaderLocks =>
      if !st.cbFlag && !Exempt(r.pc.p) then st.(r := r.(pc := RWaiting(r.pc.p, false)), waitFlag := true)
      else st.(r := r.(pc := RPost(r.pc.p, false)))
    case ReaderResumes => st.(r := r.(pc := RPost(r.pc.p, false)))
    case ReaderGivesUp => st.(r := r.(pc := RPost(r.pc.p, true)))
    case ReaderPosts =>
      var m := ReadDone(r.pc.p, r.pc.gaveUp);
      st.(r := r.(pc := RIdle), queue := st.queue + [m], log := st.log + [m])
    case _ => st
  }

  function StepClient(st: State, a: Action): State
    requires Enabled(st, a)
  {
    match a
    case ClientTakes =>
      if st.queue[0].WriteDone? then st.(w := st.w.(busy := false), queue := st.queue[1..])
      else st.(r := st.r.(busy := false, arm := ToArm), queue := st.queue[1..],
               consumed := st.consumed + if st.r.buffer.Some? then [st.r.buffer.value] else [])
    case CallRead => st.(r := st.r.(busy := true, enable := true, arm := ArmPosting))
    case PostRx => st.(r := st.r.(rxSem := st.r.rxSem + 1, arm := NotArming))
    case _ => st
  }

  predicate ByWriter(a: Action) {
    a.CallWrite? || a.PostTx? || a.WriterWakes? || a.WriterInterrupted? || a.WriterBegins? || a.WriterLocks? || a.WriterSubmits? ||
    a.WriterUnlocks? || a.WriterPosts? || a.WriterSignals?
  }

  predicate ByClient(a: Action) { a.ClientTakes? || a.CallRead? || a.PostRx? }

  function Step(st: State, a: Action): State
    requires Enabled(st, a)
  {
    if ByWriter(a) then StepWriter(st, a) else if ByClient(a) then StepClient(st, a) else StepReader(st, a)
  }

  /** Just opened: the first read is about to be armed. */
  const START := State(WriteSide(false, false, 0, WIdle, false, 0, 0, 0), ReadSide(false, false, 0, RIdle, ToArm, None, 0),
                       false, false, [], [], [], [])

  /** The state after a schedule, if every action in it was possible. */
  function After(schedule: seq<Action>): Option<State> {
    if schedule == [] then Some(START)
    else match After(schedule[..|schedule| - 1])
      case None => None
      case Some(st) =>
        var a := schedule[|schedule| - 1];
        if Enabled(st, a) then Some(Step(st, a)) else None
  }

  // ----- Tokens

  function One(b: bool): nat { if b then 1 else 0 }

  function Writes(q: seq<Msg>): nat { if q == [] then 0 else One(q[0].WriteDone?) + Writes(q[1..]) }
  function Reads(q: seq<Msg>): nat { if q == [] then 0 else One(q[0].ReadDone?) + Reads(q[1..]) }

  lemma {:induction false} CountAppend(q: seq<Msg>, m: Msg)
    ensures Writes(q + [m]) == Writes(q) + One(m.WriteDone?) && Reads(q + [m]) == Reads(q) + One(m.ReadDone?)
  {
    if q == [] {
      assert q + [m] == [m];
    } else {
      CountAppend(q[1..], m);
      assert (q + [m])[1..] == q[1..] + [m];
    }
  }

  predicate WriterHolds(pc: WriterPc) { pc.WWant? || pc.WWriting? || pc.WPost? }
  predicate ReaderHolds(pc: ReaderPc) { pc.RFilled? || pc.RWaiting? || pc.RPost? }

  function WriteTokens(st: State): nat {
    One(st.w.enable) + One(WriterHolds(st.w.pc)) + Writes(st.queue)
  }

  function ReadTokens(st: State): nat {
    One(st.r.arm.ToArm?) + One(st.r.enable) + One(ReaderHolds(st.r.pc)) + Reads(st.queue)
  }

  /** What can make the writer, or the reader, look at its flag. */
  function WriteCalls(st: State): nat { One(st.w.calling) + st.w.txSem + One(st.w.pc.WCheck?) }
  function ReadCalls(st: State): nat { One(st.r.arm.ArmPosting?) + st.r.rxSem + One(st.r.pc.RCheck? || st.r.pc.RReading?) }

  /** A write is under way in exactly one place while the busy flag is set, and nowhere otherwise; and a
      requested one is not forgotten. */
  predicate WriteToken(st: State) {
    && WriteTokens(st) == One(st.w.busy)
    && One(st.w.enable) <= WriteCalls(st) <= One(st.w.enable) + st.w.missed
  }

  /** The read is to be armed, requested, held by the reader, or queued: exactly one of these. */
  predicate ReadToken(st: State) {
    && ReadTokens(st) == 1
    && (st.r.busy <==> !st.r.arm.ToArm?)
    && (st.r.pc.RReading? ==> st.r.enable)
    && One(st.r.enable) <= ReadCalls(st) <= One(st.r.enable) + st.r.missed
  }

  lemma WriteTokenStep(st: State, a: Action)
    requires Enabled(st, a) && WriteToken(st)
    ensures WriteToken(Step(st, a))
  {
    if a.WriterPosts? || a.ReaderPosts? {
      PostKeepsWriteToken(st, a);
    } else if ByWriter(a) {
      WriterKeepsToken(st, a);
    } else if ByClient(a) {
      ClientKeepsToken(st, a);
    } else {
      ReaderKeepsToken(st, a);
    }
  }

  lemma PostKeepsWriteToken(st: State, a: Action)
    requires Enabled(st, a) && WriteToken(st) && (a.WriterPosts? || a.ReaderPosts?)
    ensures WriteToken(Step(st, a))
  {
    CountAppend(st.queue, if a.WriterPosts? then WriteDone(st.w.posted, st.w.pc.ok) else ReadDone(st.r.pc.p, st.r.pc.gaveUp));
  }

  lemma ReaderKeepsToken(st: State, a: Action)
    requires Enabled(st, a) && WriteToken(st) && !ByWriter(a) && !ByClient(a) && !a.ReaderPosts?
    ensures WriteToken(StepReader(st, a))
  {
  }

  lemma ClientKeepsToken(st: State, a: Action)
    requires Enabled(st, a) && WriteToken(st) && ByClient(a)
    ensures WriteToken(StepClient(st, a))
  {
  }

  lemma WriterKeepsToken(st: State, a: Action)
    requires Enabled(st, a) && WriteToken(st) && ByWriter(a) && !a.WriterPosts?
    ensures WriteToken(StepWriter(st, a))
  {
  }

  lemma ReadTokenStep(st: State, a: Action)
    requires Enabled(st, a) && ReadToken(st)
    ensures ReadToken(Step(st, a))
  {
    if a.WriterPosts? || a.ReaderPosts? {
      PostKeepsReadToken(st, a);
    } else if ByWriter(a) {
      WriterKeepsReadToken(st, a);
    } else if ByClient(a) {
      ClientKeepsReadToken(st, a);
    } else {
      ReaderKeepsReadToken(st, a);
    }
  }

  lemma PostKeepsReadToken(st: State, a: Action)
    requires Enabled(st, a) && ReadToken(st) && (a.WriterPosts? || a.ReaderPosts?)
    ensures ReadToken(Step(st, a))
  {
    CountAppend(st.queue, if a.WriterPosts? then WriteDone(st.w.posted, st.w.pc.ok) else ReadDone(st.r.pc.p, st.r.pc.gaveUp));
  }

  lemma WriterKeepsReadToken(st: State, a: Action)
    requires Enabled(st, a) && ReadToken(st) && ByWriter(a) && !a.WriterPosts?
    ensures ReadToken(StepWriter(st, a))
  {
  }

  lemma ClientKeepsReadToken(st: State, a: Action)
    requires Enabled(st, a) && ReadToken(st) && ByClient(a)
    ensures ReadToken(StepClient(st, a))
  {
  }

  lemma ReaderKeepsReadToken(st: State, a: Action)
    requires Enabled(st, a) && ReadToken(st) && !ByWriter(a) && !ByClient(a) && !a.ReaderPosts?
    ensures ReadToken(StepReader(st, a))
  {
  }

  // ----- The shared receive buffer

  /** The packet on its way to the client, if any. */
  function InFlight(st: State): seq<Packet> {
    if (ReaderHolds(st.r.pc) || Reads(st.queue) > 0) && st.r.buffer.Some? then [st.r.buffer.value] else []
  }

  /** Whoever holds or queues a packet finds it in the buffer; and what was received is what was
      consumed, then the packet in flight. */
  predicate BufferIntact(st: State) {
    && (ReaderHolds(st.r.pc) ==> st.r.buffer == Some(st.r.pc.p))
    && (forall i :: 0 <= i < |st.queue| && st.queue[i].ReadDone? ==> st.r.buffer == Some(st.queue[i].packet))
    && st.received == st.consumed + InFlight(st)
  }

  lemma {:induction false} NoReads(q: seq<Msg>)
    ensures Reads(q) == 0 <==> forall i :: 0 <= i < |q| ==> q[i].WriteDone?
  {
    if q != [] {
      NoReads(q[1..]);
      if Reads(q) == 0 {
        assert forall i :: 0 < i < |q| ==> q[i] == q[1..][i - 1];
      } else if q[0].WriteDone? {
        var i :| 0 <= i < |q[1..]| && !q[1..][i].WriteDone?;
        assert q[i + 1] == q[1..][i];
      }
    }
  }

  lemma BufferWriterStep(st: State, a: Action)
    requires Enabled(st, a) && ByWriter(a) && BufferIntact(st)
    ensures BufferIntact(StepWriter(st, a))
  {
    if a.WriterPosts? { CountAppend(st.queue, WriteDone(st.w.posted, st.w.pc.ok)); }
  }

  lemma BufferReaderStep(st: State, a: Action)
    requires Enabled(st, a) && !ByWriter(a) && !ByClient(a) && ReadToken(st) && BufferIntact(st)
    ensures BufferIntact(StepReader(st, a))
  {
    NoReads(st.queue);
    if a.ReaderPosts? { CountAppend(st.queue, ReadDone(st.r.pc.p, st.r.pc.gaveUp)); }
  }

  lemma BufferClientStep(st: State, a: Action)
    requires Enabled(st, a) && ByClient(a) && ReadToken(st) && BufferIntact(st)
    ensures BufferIntact(StepClient(st, a))
  {
    if a.ClientTakes? { NoReads(st.queue[1..]); }
  }

  // ----- The order of messages

  /** Write `k`'s completion message is in `log`. */
  predicate Completed(log: seq<Msg>, k: nat) {
    exists j :: 0 <= j < |log| && log[j].WriteDone? && log[j].id == k
  }

  /** A message that has to come after the completion of the write it answers. */
  predicate MustWait(m: Msg) { m.ReadDone? && !m.gaveUp && m.packet.answers.Some? && !Exempt(m.packet) }

  predicate InOrder(log: seq<Msg>) {
    forall i :: 0 <= i < |log| && MustWait(log[i]) ==> Completed(log[..i], log[i].packet.answers.value)
  }

  /** The reader's packet does not answer a write whose completion is still to come. */
  predicate Covered(p: Packet, posted: nat) { p.answers.Some? && !Exempt(p) ==> p.answers.value < posted }

  predicate Ordered(st: State) {
    && InOrder(st.log)
    && (forall k: nat :: k < st.w.posted ==> Completed(st.log, k))
    && st.w.submitted == st.w.posted + One(st.w.pc == WWriting(true) || st.w.pc.WPost?)
    && (st.cbFlag ==> st.w.submitted == st.w.posted && !st.w.pc.WWriting? && !st.w.pc.WPost? && !st.w.pc.WSignal?)
    && (ReaderHolds(st.r.pc) && st.r.pc.p.answers.Some? ==> st.r.pc.p.answers.value < st.w.submitted)
    && (st.r.pc.RWaiting? && st.r.pc.signalled ==> Covered(st.r.pc.p, st.w.posted))
    && (st.r.pc.RPost? && !st.r.pc.gaveUp ==> Covered(st.r.pc.p, st.w.posted))
    && (st.r.pc.RWaiting? && !st.r.pc.signalled ==> st.waitFlag && !st.cbFlag)
  }

  lemma LogAppend(log: seq<Msg>, m: Msg)
    requires InOrder(log) && (MustWait(m) ==> Completed(log, m.packet.answers.value))
    ensures InOrder(log + [m])
    ensures forall k: nat :: Completed(log, k) ==> Completed(log + [m], k)
    ensures m.WriteDone? ==> Completed(log + [m], m.id)
  {
    var after := log + [m];
    forall i | 0 <= i < |after| && MustWait(after[i]) ensures Completed(after[..i], after[i].packet.answers.value) {
      assert after[..i] == log[..i];
      if i == |log| { assert log[..i] == log; }
    }
    forall k: nat | Completed(log, k) ensures Completed(after, k) {
      var j :| 0 <= j < |log| && log[j].WriteDone? && log[j].id == k;
      assert after[j] == log[j];
    }
    assert after[|log|] == m;
  }

  lemma OrderedWriterStep(st: State, a: Action)
    requires Enabled(st, a) && ByWriter(a) && Ordered(st)
    ensures Ordered(StepWriter(st, a))
  {
    if a.WriterPosts? { LogAppend(st.log, WriteDone(st.w.posted, st.w.pc.ok)); }
  }

  lemma OrderedReaderStep(st: State, a: Action)
    requires Enabled(st, a) && !ByWriter(a) && !ByClient(a) && Ordered(st)
    ensures Ordered(StepReader(st, a))
  {
    if a.ReaderPosts? { LogAppend(st.log, ReadDone(st.r.pc.p, st.r.pc.gaveUp)); }
  }

  lemma OrderedClientStep(st: State, a: Action)
    requires Enabled(st, a) && ByClient(a) && Ordered(st)
    ensures Ordered(StepClient(st, a))
  {
  }

  // ----- Over all runs

  predicate Invariant(st: State) { WriteToken(st) && ReadToken(st) && BufferIntact(st) && Ordered(st) }

  lemma StepKeepsInvariant(st: State, a: Action)
    requires Enabled(st, a) && Invariant(st)
    ensures Invariant(Step(st, a))
  {
    WriteTokenStep(st, a);
    ReadTokenStep(st, a);
    if ByWriter(a) {
      BufferWriterStep(st, a);
      OrderedWriterStep(st, a);
    } else if ByClient(a) {
      BufferClientStep(st, a);
      OrderedClientStep(st, a);
    } else {
      BufferReaderStep(st, a);
      OrderedReaderStep(st, a);
    }
  }

  lemma {:induction false} AlwaysInvariant(schedule: seq<Action>)
    requires After(schedule).Some?
    ensures Invariant(After(schedule).value)
    decreases |schedule|
  {
    if schedule != [] {
      AlwaysInvariant(schedule[..|schedule| - 1]);
      StepKeepsInvariant(After(schedule[..|schedule| - 1]).value, schedule[|schedule| - 1]);
    }
  }

  /** In every interleaving, the message of a response enters the queue after the completion message of
      the write it answers, unless the reader gave up waiting; notifications are exempt. */
  lemma ResponseFollowsCompletion(schedule: seq<Action>, i: nat)
    requires After(schedule).Some? && i < |After(schedule).value.log| && MustWait(After(schedule).value.log[i])
    ensures var log := After(schedule).value.log;
      exists j :: 0 <= j < i && log[j].WriteDone? && log[j].id == log[i].packet.answers.value
  {
    AlwaysInvariant(schedule);
    var log := After(schedule).value.log;
    var j :| 0 <= j < |log[..i]| && log[..i][j].WriteDone? && log[..i][j].id == log[i].packet.answers.value;
    assert log[j] == log[..i][j];
  }

  /** The same by the first bytes of packets: it holds of everything but message types 3 and 7, of responses
      (message type 2) in particular. */
  lemma ResponseBytesFollowCompletion(schedule: seq<Action>, i: nat)
    requires After(schedule).Some? && i < |After(schedule).value.log|
    ensures var log := After(schedule).value.log;
      match log[i]
      case WriteDone(_, _) => true
      case ReadDone(p, gaveUp) =>
        !gaveUp && p.answers.Some? && !(0x60 <= p.head < 0x80) && !(0xE0 <= p.head < 0x100) ==>
          exists j :: 0 <= j < i && log[j].WriteDone? && log[j].id == p.answers.value
  {
    var m := After(schedule).value.log[i];
    if m.ReadDone? && !m.gaveUp && m.packet.answers.Some? {
      MessageTypes(m.packet.head);
      if !(0x60 <= m.packet.head < 0x80) && !(0xE0 <= m.packet.head) { ResponseFollowsCompletion(schedule, i); }
    }
  }

  lemma MessageTypes(head: byte)
    ensures head / 0x20 % 4 == 3 <==> 0x60 <= head < 0x80 || 0xE0 <= head < 0x100
  {
  }

  /** What the reader does with the packet it holds: it waits while the flag is down, unless the packet is a
      notification (or of message type 7), and then goes on at once. */
  lemma ReaderWaitsIff(st: State)
    requires Enabled(st, ReaderLocks)
    ensures var p, next := st.r.pc.p, Step(st, ReaderLocks);
      if !st.cbFlag && !(0x60 <= p.head < 0x80) && !(0xE0 <= p.head < 0x100)
      then next == st.(r := st.r.(pc := RWaiting(p, false)), waitFlag := true)
      else next == st.(r := st.r.(pc := RPost(p, false)))
  {
    MessageTypes(st.r.pc.p.head);
  }

  /** Read-token conservation: exactly one of a read to be armed, requested, held by the reader and queued, in
      every interleaving, failed waits included; a requested one is never without a token, an armer or a
      reader to serve it. Only failed waits leave tokens over. */
  lemma ReadTokenConserved(schedule: seq<Action>)
    requires After(schedule).Some?
    ensures var st := After(schedule).value;
      && One(st.r.arm.ToArm?) + One(st.r.enable) + One(ReaderHolds(st.r.pc)) + Reads(st.queue) == 1
      && One(st.r.enable) <= ReadCalls(st) <= One(st.r.enable) + st.r.missed
      && (st.r.missed == 0 ==>
            One(!st.r.arm.NotArming?) + st.r.rxSem + One(!st.r.pc.RIdle?) + Reads(st.queue) == 1)
  {
    AlwaysInvariant(schedule);
  }

  /** So the buffer is never overwritten while a packet is queued or being consumed: the client sees
      exactly the packets the device delivered, in order, the last one possibly still in flight. */
  lemma PacketsArriveInOrder(schedule: seq<Action>, p: Packet)
    requires After(schedule).Some?
    ensures var st := After(schedule).value;
      && st.consumed <= st.received <= st.consumed + st.received[|st.consumed|..] && |st.received| <= |st.consumed| + 1
      && (Enabled(st, ReadGets(p)) ==> Reads(st.queue) == 0 && !st.r.arm.ToArm? && st.received == st.consumed)
  {
    AlwaysInvariant(schedule);
  }

  /** At most one write is between its call and its completion callback, and the busy flag says so; failed
      waits included, and without them the tokens add up too. */
  lemma SingleWriteInFlight(schedule: seq<Action>)
    requires After(schedule).Some?
    ensures var st := After(schedule).value;
      && One(st.w.enable) + One(WriterHolds(st.w.pc)) + Writes(st.queue) == One(st.w.busy)
      && One(st.w.enable) <= WriteCalls(st) <= One(st.w.enable) + st.w.missed
      && st.w.posted <= st.w.submitted <= st.w.posted + 1
      && (st.w.missed == 0 ==>
            WriteCalls(st) + One(WriterHolds(st.w.pc)) + Writes(st.queue) == One(st.w.busy) && (st.w.pc.WCheck? ==> st.w.enable))
  {
    AlwaysInvariant(schedule);
  }

  /** No wake-up is lost: the reader sleeps unsignalled only while the flag is down and the writer's next
      success will signal it. */
  lemma NoLostSignal(schedule: seq<Action>)
    requires After(schedule).Some?
    ensures var st := After(schedule).value;
      st.r.pc.RWaiting? && !st.r.pc.signalled ==>
        && !st.cbFlag
        && (Enabled(st, WriterSignals) ==> Step(st, WriterSignals).r.pc == RWaiting(st.r.pc.p, true))
  {
    AlwaysInvariant(schedule);
  }

  lemma Extend(schedule: seq<Action>, st: State, a: Action) returns (longer: seq<Action>, next: State)
    requires After(schedule) == Some(st) && Enabled(st, a)
    ensures longer == schedule + [a] && next == Step(st, a) && After(longer) == Some(next)
  {
    longer, next := schedule + [a], Step(st, a);
    assert longer[..|longer| - 1] == schedule;
  }

  lemma ReadArmed() returns (s: seq<Action>, st: State)
    ensures After(s) == Some(st)
    ensures st == START.(r := ReadSide(true, true, 0, RReading, NotArming, None, 0))
  {
    s, st := [], START;
    s, st := Extend(s, st, CallRead);
    s, st := Extend(s, st, PostRx);
    s, st := Extend(s, st, ReaderWakes);
    s, st := Extend(s, st, ReaderBegins);
  }

  lemma WriteSubmitted() returns (s: seq<Action>, st: State)
    ensures After(s) == Some(st)
    ensures st == START.(w := WriteSide(false, true, 0, WWriting(true), false, 1, 0, 0),
                         r := ReadSide(true, true, 0, RReading, NotArming, None, 0))
  {
    s, st := ReadArmed();
    s, st := Extend(s, st, CallWrite);
    s, st := Extend(s, st, PostTx);
    s, st := Extend(s, st, WriterWakes);
    s, st := Extend(s, st, WriterBegins);
    s, st := Extend(s, st, WriterLocks);
    s, st := Extend(s, st, WriterSubmits);
  }

  // ----- What the flag says

  /** The outcome of the last completed write, if there is one. */
  function LastWrite(log: seq<Msg>): Option<bool> {
    if log == [] then None
    else
      var m := log[|log| - 1];
      if m.WriteDone? then Some(m.ok) else LastWrite(log[..|log| - 1])
  }

  /** Between writes the flag is up exactly if the last one succeeded; from the lock to the signal it is down. */
  predicate FlagIsLastWrite(st: State) {
    && (st.w.pc.WIdle? || st.w.pc.WCheck? || st.w.pc.WWant? ==> (st.cbFlag <==> LastWrite(st.log) == Some(true)))
    && (st.w.pc.WWriting? || st.w.pc.WPost? || st.w.pc.WSignal? ==> !st.cbFlag)
    && (st.w.pc.WSignal? ==> LastWrite(st.log) == Some(true))
  }

  lemma LastWriteAppend(log: seq<Msg>, m: Msg)
    ensures LastWrite(log + [m]) == if m.WriteDone? then Some(m.ok) else LastWrite(log)
  {
    assert (log + [m])[..|log|] == log;
  }

  lemma FlagStep(st: State, a: Action)
    requires Enabled(st, a) && FlagIsLastWrite(st)
    ensures FlagIsLastWrite(Step(st, a))
  {
    if a.WriterPosts? {
      LastWriteAppend(st.log, WriteDone(st.w.posted, st.w.pc.ok));
    } else if a.ReaderPosts? {
      LastWriteAppend(st.log, ReadDone(st.r.pc.p, st.r.pc.gaveUp));
    }
  }

  /** In every interleaving: so after a failed write, as before the first one, every response waits. */
  lemma {:induction false} FlagTellsLastWrite(schedule: seq<Action>)
    requires After(schedule).Some?
    ensures FlagIsLastWrite(After(schedule).value)
    decreases |schedule|
  {
    if schedule != [] {
      FlagTellsLastWrite(schedule[..|schedule| - 1]);
      FlagStep(After(schedule[..|schedule| - 1]).value, schedule[|schedule| - 1]);
    }
  }

  /** Giving up is what breaks the order: a schedule in which write 0's response is posted first. */
  lemma GivingUpBreaksOrder(p: Packet) returns (s: seq<Action>, st: State)
    requires p.answers == Some(0) && !(0x60 <= p.head < 0x80) && !(0xE0 <= p.head < 0x100)
    ensures After(s) == Some(st) && st.log == [ReadDone(p, true)] && !Completed(st.log, 0)
  {
    s, st := WriteSubmitted();
    s, st := Extend(s, st, WriterUnlocks(true));
    s, st := Extend(s, st, ReadGets(p));
    ReaderWaitsIff(st);
    s, st := Extend(s, st, ReaderLocks);
    s, st := Extend(s, st, ReaderGivesUp);
    s, st := Extend(s, st, ReaderPosts);
  }
}
