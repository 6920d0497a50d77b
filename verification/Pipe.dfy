/** The scull pipe: a ring buffer between sleeping readers and writers. */
module Pipe {
  import opened Memory
  import opened Wire

  // ----- the ring -----

  /** `rp` and `wp` are offsets in the buffer; it is empty when they are equal. */
  datatype Ring = Ring(buffer: Bytes, rp: nat, wp: nat)

  predicate RingOk(r: Ring) {
    r.rp < |r.buffer| && r.wp < |r.buffer|
  }

  /** The bytes waiting to be read, oldest first. */
  ghost function Waiting(r: Ring): Bytes
    requires RingOk(r)
  {
    if r.rp <= r.wp then r.buffer[r.rp..r.wp] else r.buffer[r.rp..] + r.buffer[..r.wp]
  }

  /** spacefree. */
  function SpaceFree(r: Ring): (n: nat)
    requires RingOk(r)
    ensures n == |r.buffer| - 1 - |Waiting(r)|
  {
    var size := |r.buffer|;
    if r.rp == r.wp then size - 1
    else
      assert (r.rp + size - r.wp) % size == if r.rp > r.wp then r.rp - r.wp else r.rp + size - r.wp;
      (r.rp + size - r.wp) % size - 1
  }

  function Min(x: nat, y: nat): nat {
    if x < y then x else y
  }

  function Wrap(p: nat, size: nat): nat {
    if p == size then 0 else p
  }

  /** How much one read takes: up to the write pointer, or to the end of the buffer when that has wrapped. */
  function ReadLength(r: Ring, count: nat): nat
    requires RingOk(r) && r.rp != r.wp
  {
    if r.wp > r.rp then Min(count, r.wp - r.rp) else Min(count, |r.buffer| - r.rp)
  }

  function AfterRead(r: Ring, n: nat): Ring {
    r.(rp := Wrap(r.rp + n, |r.buffer|))
  }

  /** What a read takes are the oldest bytes, as many as it asked for or as stand in one piece, and the others stay. */
  lemma ReadTakesOldest(r: Ring, count: nat)
    requires RingOk(r) && r.rp != r.wp
    ensures var n := ReadLength(r, count);
            && r.rp + n <= |r.buffer| && n <= count && (count > 0 ==> n > 0)
            && RingOk(AfterRead(r, n)) && |AfterRead(r, n).buffer| == |r.buffer|
            && Waiting(r) == r.buffer[r.rp..r.rp + n] + Waiting(AfterRead(r, n))
            && (n == count || n == |Waiting(r)| || r.rp + n == |r.buffer|)
  {
  }

  /** How much one write accepts. */
  function WriteLength(r: Ring, count: nat): nat
    requires RingOk(r)
  {
    var n := Min(count, SpaceFree(r));
    if r.wp >= r.rp then Min(n, |r.buffer| - r.wp) else Min(n, r.rp - r.wp - 1)
  }

  function AfterWrite(r: Ring, s: Bytes): Ring
    requires r.wp + |s| <= |r.buffer|
  {
    Ring(Splice(r.buffer, r.wp, s), r.rp, Wrap(r.wp + |s|, |r.buffer|))
  }

  /**
   * What a write accepts goes behind the waiting bytes: all of it, or until the buffer is full or ends. A nonempty one
   * never makes the pointers equal.
   */
  lemma WriteAppends(r: Ring, s: Bytes)
    requires RingOk(r)
    ensures var n := WriteLength(r, |s|);
            && n <= |s| && r.wp + n <= |r.buffer| && (|s| > 0 && SpaceFree(r) > 0 ==> n > 0)
            && RingOk(AfterWrite(r, s[..n])) && |AfterWrite(r, s[..n]).buffer| == |r.buffer|
            && Waiting(AfterWrite(r, s[..n])) == Waiting(r) + s[..n]
            && (n > 0 ==> AfterWrite(r, s[..n]).rp != AfterWrite(r, s[..n]).wp)
            && (n == |s| || n == SpaceFree(r) || r.wp + n == |r.buffer|)
  {
    hide Splice, Waiting, AfterWrite, SpaceFree;
    var n := WriteLength(r, |s|);
    WriteFits(r, |s|);
    if r.wp >= r.rp {
      AppendsAhead(r, s[..n]);
    } else {
      AppendsBehind(r, s[..n]);
    }
  }

  /** Writing towards the end of the buffer. */
  lemma AppendsAhead(r: Ring, t: Bytes)
    requires RingOk(r) && r.rp <= r.wp && r.wp + |t| <= |r.buffer| && (r.wp + |t| == |r.buffer| ==> r.rp > 0)
    ensures var r' := AfterWrite(r, t);
            && RingOk(r') && |r'.buffer| == |r.buffer| && Waiting(r') == Waiting(r) + t
            && (t != [] ==> r'.rp != r'.wp)
  {
    hide Splice;
    var n, b := |t|, Splice(r.buffer, r.wp, t);
    SpliceAt(r.buffer, r.wp, t);
    SpliceElsewhere(r.buffer, r.wp, t, r.rp, r.wp);
    assert b[r.rp..r.wp + n] == b[r.rp..r.wp] + b[r.wp..r.wp + n];
    assert r.wp + n == |b| ==> b[r.rp..] == b[r.rp..r.wp + n] && b[..0] == [];
  }

  /** Writing towards the read pointer. */
  lemma AppendsBehind(r: Ring, t: Bytes)
    requires RingOk(r) && r.wp + |t| < r.rp
    ensures var r' := AfterWrite(r, t);
            && RingOk(r') && |r'.buffer| == |r.buffer| && Waiting(r') == Waiting(r) + t
            && (t != [] ==> r'.rp != r'.wp)
  {
    hide Splice;
    var n, b := |t|, Splice(r.buffer, r.wp, t);
    SpliceAt(r.buffer, r.wp, t);
    SpliceElsewhere(r.buffer, r.wp, t, r.rp, |b|);
    SpliceElsewhere(r.buffer, r.wp, t, 0, r.wp);
    assert b[..r.wp + n] == b[0..r.wp] + b[r.wp..r.wp + n];
    assert b[r.rp..|b|] == b[r.rp..] && r.buffer[r.rp..|b|] == r.buffer[r.rp..];
    assert r.buffer[0..r.wp] == r.buffer[..r.wp];
  }

  lemma WriteFits(r: Ring, count: nat)
    requires RingOk(r)
    ensures var n := WriteLength(r, count);
            && n <= count && r.wp + n <= |r.buffer| && (count > 0 && SpaceFree(r) > 0 ==> n > 0)
            && (r.wp >= r.rp && r.wp + n == |r.buffer| ==> r.rp > 0) && (r.wp < r.rp ==> r.wp + n < r.rp)
            && (n == count || n == SpaceFree(r) || r.wp + n == |r.buffer|)
  {
  }

  // ----- in place -----

  class Device {
    var buffer: array<Byte>
    var rp: nat
    var wp: nat

    function Now(): Ring
      reads this, buffer
    {
      Ring(buffer[..], rp, wp)
    }

    /** scull_p_open with a buffer of `size` bytes just allocated. */
    constructor (size: nat)
      requires size > 0
      ensures fresh(buffer) && buffer.Length == size && RingOk(Now()) && Waiting(Now()) == []
    {
      buffer := new Byte[size];
      rp, wp := 0, 0;
    }

    /** scull_p_read once there is something to read. */
    method Take(count: nat) returns (s: Bytes)
      requires RingOk(Now()) && rp != wp
      modifies this`rp
      ensures s == old(buffer[rp..rp + ReadLength(Now(), count)]) && Now() == AfterRead(old(Now()), |s|)
      ensures RingOk(Now()) && old(Waiting(Now())) == s + Waiting(Now()) && |s| <= count
      ensures |s| == count || |s| == |old(Waiting(Now()))| || old(rp) + |s| == buffer.Length
    {
      hide Waiting;
      ReadTakesOldest(Now(), count);
      var n := if wp > rp then Min(count, wp - rp) else Min(count, buffer.Length - rp);
      s := buffer[rp..rp + n];
      rp := rp + n;
      if rp == buffer.Length {
        rp := 0;
      }
    }

    /** scull_p_write once there is room. */
    method Put(s: Bytes) returns (n: nat)
      requires RingOk(Now())
      modifies this`wp, buffer
      ensures n == WriteLength(old(Now()), |s|) <= |s| && old(wp) + n <= buffer.Length
      ensures Now() == AfterWrite(old(Now()), s[..n])
      ensures RingOk(Now()) && Waiting(Now()) == old(Waiting(Now())) + s[..n]
      ensures n == |s| || SpaceFree(Now()) == 0 || old(wp) + n == buffer.Length
    {
      hide Waiting, Splice;
      WriteAppends(Now(), s);
      n := Min(|s|, SpaceFree(Now()));
      if wp >= rp {
        n := Min(n, buffer.Length - wp);
      } else {
        n := Min(n, rp - wp - 1);
      }
      Store(buffer, wp, s[..n]);
      wp := wp + n;
      if wp == buffer.Length {
        wp := 0;
      }
    }
  }

  // ----- readers and writers -----

  type Thread = nat

  /** A call and its arguments. */
  datatype Call = Read(count: nat) | Write(data: Bytes)

  /** Where a thread is. Readers wait on one queue and writers on another. */
  datatype Pc =
    | Idle
    | WantSem(call: Call)               // in down_interruptible
    | Holding(call: Call)               // has the semaphore, about to look at the ring
    | Released(call: Call)              // found it empty or full and gave the semaphore back
    | Queued(call: Call, woken: bool)   // on the queue and marked as sleeping, about to look again
    | Asleep(call: Call)                // in schedule(), until a wake-up or a signal
    | Awake(call: Call)                 // back from schedule()
    | Ready(call: Call)                 // has the semaphore and can proceed: scull_getwritespace has returned 0
    | Waking(call: Call)                // done and without the semaphore, about to wake the other queue

  datatype State = State(ring: Ring, sem: Option<Thread>, pc: map<Thread, Pc>, accepted: Bytes, returned: Bytes)

  /** What a thread or its surroundings decide at a step. */
  datatype Choice = Choice(call: Call, signal: bool, nonblock: bool, fault: bool)

  /** Whether thread `t` can run; one that sleeps runs only for a signal. */
  predicate Enabled(s: State, t: Thread, c: Choice) {
    t in s.pc && RingOk(s.ring) && match s.pc[t]
    case WantSem(_) => s.sem == None
    case Asleep(_) => c.signal
    case Ready(Read(_)) => s.ring.rp != s.ring.wp
    case _ => true
  }

  function Goto(s: State, t: Thread, p: Pc): State {
    s.(pc := s.pc[t := p])
  }

  predicate Blocks(r: Ring, call: Call)
    requires RingOk(r)
  {
    if call.Read? then r.rp == r.wp else SpaceFree(r) == 0
  }

  /** What `wake_up_interruptible` does to a thread, on the queue for calls that are reads or on the other one. */
  function WakeOne(p: Pc, readers: bool): Pc {
    match p
    case Asleep(call) => if call.Read? == readers then Awake(call) else p
    case Queued(call, _) => if call.Read? == readers then Queued(call, true) else p
    case _ => p
  }

  function WakeAll(s: State, readers: bool): State {
    s.(pc := map t | t in s.pc :: WakeOne(s.pc[t], readers))
  }

  /** The transfer itself, then `up`. A faulting copy moves nothing and wakes nobody. */
  function Transfer(s: State, t: Thread, call: Call, fault: bool): State
    requires RingOk(s.ring) && (call.Read? ==> s.ring.rp != s.ring.wp)
  {
    var s' := Goto(s.(sem := None), t, if fault then Idle else Waking(call));
    if fault then s'
    else
      match call
      case Read(count) =>
        var n := ReadLength(s.ring, count);
        ReadTakesOldest(s.ring, count);
        s'.(ring := AfterRead(s.ring, n), returned := s.returned + s.ring.buffer[s.ring.rp..s.ring.rp + n])
      case Write(data) =>
        var n := WriteLength(s.ring, |data|);
        WriteAppends(s.ring, data);
        s'.(ring := AfterWrite(s.ring, data[..n]), accepted := s.accepted + data[..n])
  }

  /**
   * One step. A reader sleeps in wait_event_interruptible, which queues itself and looks again after each wake-up;
   * a writer looks once after queueing itself and goes on after one wake-up.
   */
  function Step(s: State, t: Thread, c: Choice): State
    requires Enabled(s, t, c)
  {
    match s.pc[t]
    case Idle => Goto(s, t, WantSem(c.call))
    case WantSem(call) => if c.signal then Goto(s, t, Idle) else Goto(s.(sem := Some(t)), t, Holding(call))
    case Holding(call) =>
      if Blocks(s.ring, call) then Goto(s.(sem := None), t, Released(call)) else Goto(s, t, Ready(call))
    case Released(call) => if c.nonblock then Goto(s, t, Idle) else Goto(s, t, Queued(call, false))
    case Queued(call, woken) =>
      if !Blocks(s.ring, call) then
        if call.Write? && c.signal then Goto(s, t, Idle) else Goto(s, t, WantSem(call))
      else if call.Read? && c.signal then Goto(s, t, Idle)
      else if woken then Goto(s, t, Awake(call))
      else Goto(s, t, Asleep(call))
    case Asleep(call) => Goto(s, t, Idle)
    case Awake(call) =>
      if call.Read? then Goto(s, t, Queued(call, false))
      else if c.signal then Goto(s, t, Idle)
      else Goto(s, t, WantSem(call))
    case Ready(call) => Transfer(s, t, call, c.fault)
    case Waking(call) => WakeAll(Goto(s, t, Idle), call.Write?)
  }

  datatype Turn = Turn(t: Thread, c: Choice)

  /** The state after `run`, or None if some turn of it cannot be taken. */
  function Run(s: State, run: seq<Turn>): Option<State>
    decreases |run|
  {
    if run == [] then Some(s)
    else
      var last := run[|run| - 1];
      match Run(s, run[..|run| - 1])
      case None => None
      case Some(m) => if Enabled(m, last.t, last.c) then Some(Step(m, last.t, last.c)) else None
  }

  /** Between two opens: the ring empty, nobody inside. */
  predicate Opened(s: State) {
    && RingOk(s.ring) && s.ring.rp == s.ring.wp && s.sem == None && s.accepted == [] && s.returned == []
    && forall t <- s.pc :: s.pc[t].Idle?
  }

  predicate HasSem(p: Pc) {
    p.Holding? || p.Ready?
  }

  /** The semaphore is held by exactly the thread that has it, and whoever got past the wait can proceed. */
  ghost predicate SemOk(s: State, t: Thread) {
    && (s.sem == Some(t) <==> t in s.pc && HasSem(s.pc[t]))
    && (t in s.pc && s.pc[t].Ready? ==> RingOk(s.ring) && !Blocks(s.ring, s.pc[t].call))
  }

  ghost predicate Inv(s: State) {
    && RingOk(s.ring)
    && s.accepted == s.returned + Waiting(s.ring)
    && (forall t :: SemOk(s, t))
    && (forall t :: NotForgotten(s, t))
  }

  /** Whoever is about to wake the queue on which `call` waits. */
  ghost predicate WillWake(s: State, u: Thread, call: Call) {
    u in s.pc && s.pc[u].Waking? && s.pc[u].call.Read? != call.Read?
  }

  /** A thread asleep with nothing to wait for is about to be woken. */
  ghost predicate NotForgotten(s: State, t: Thread) {
    t in s.pc && s.pc[t].Asleep? && RingOk(s.ring) && !Blocks(s.ring, s.pc[t].call) ==>
      exists u :: WillWake(s, u, s.pc[t].call)
  }

  lemma FlowStep(s: State, t: Thread, c: Choice)
    requires Inv(s) && Enabled(s, t, c)
    ensures var s' := Step(s, t, c); RingOk(s'.ring) && s'.accepted == s'.returned + Waiting(s'.ring)
    ensures |Step(s, t, c).ring.buffer| == |s.ring.buffer|
  {
    hide Waiting, ReadLength, WriteLength, AfterRead, AfterWrite, SpaceFree;
    if s.pc[t].Ready? && !c.fault {
      match s.pc[t].call
      case Read(count) =>
        ReadTakesOldest(s.ring, count);
        var n := ReadLength(s.ring, count);
        assert s.returned + (s.ring.buffer[s.ring.rp..s.ring.rp + n] + Waiting(AfterRead(s.ring, n)))
            == (s.returned + s.ring.buffer[s.ring.rp..s.ring.rp + n]) + Waiting(AfterRead(s.ring, n));
      case Write(data) =>
        WriteAppends(s.ring, data);
        assert s.returned + (Waiting(s.ring) + data[..WriteLength(s.ring, |data|)])
            == (s.returned + Waiting(s.ring)) + data[..WriteLength(s.ring, |data|)];
    }
  }

  lemma SemStep(s: State, t: Thread, c: Choice, u: Thread)
    requires Inv(s) && Enabled(s, t, c)
    ensures SemOk(Step(s, t, c), u)
  {
    FlowStep(s, t, c);
    assert SemOk(s, t) && SemOk(s, u);
  }

  /** Nobody becomes unblocked unless by a call of the other kind, which then goes on to wake the queue. */
  lemma UnblockedBy(s: State, t: Thread, c: Choice, call: Call)
    requires Inv(s) && Enabled(s, t, c) && Blocks(s.ring, call)
    requires RingOk(Step(s, t, c).ring) && !Blocks(Step(s, t, c).ring, call)
    ensures WillWake(Step(s, t, c), t, call)
  {
    assert SemOk(s, t);
  }

  lemma WakeStep(s: State, t: Thread, c: Choice, u: Thread)
    requires Inv(s) && Enabled(s, t, c)
    ensures NotForgotten(Step(s, t, c), u)
  {
    hide AfterRead, AfterWrite, ReadLength, WriteLength, SpaceFree, Waiting;
    FlowStep(s, t, c);
    var s' := Step(s, t, c);
    if u in s'.pc && s'.pc[u].Asleep? && !Blocks(s'.ring, s'.pc[u].call) {
      var call := s'.pc[u].call;
      if Blocks(s.ring, call) {
        UnblockedBy(s, t, c, call);
      } else {
        assert NotForgotten(s, u);
        var v :| WillWake(s, v, call);
        assert v != t && WillWake(s', v, call);
      }
    }
  }

  lemma {:induction false} RunKeepsInv(s: State, run: seq<Turn>)
    requires Opened(s) && Run(s, run).Some?
    ensures Inv(Run(s, run).value) && |Run(s, run).value.ring.buffer| == |s.ring.buffer|
    decreases |run|
  {
    hide Step, SemOk, NotForgotten, Enabled;
    if run == [] {
      StartInv(s);
    } else {
      var m, last := Run(s, run[..|run| - 1]).value, run[|run| - 1];
      RunKeepsInv(s, run[..|run| - 1]);
      FlowStep(m, last.t, last.c);
      forall u ensures SemOk(Step(m, last.t, last.c), u) { SemStep(m, last.t, last.c, u); }
      forall u ensures NotForgotten(Step(m, last.t, last.c), u) { WakeStep(m, last.t, last.c, u); }
    }
  }

  lemma StartInv(s: State)
    requires Opened(s)
    ensures Inv(s)
  {
  }

  /** First in, first out: what readers got is a prefix of what writers put in, short of it by less than the buffer. */
  lemma FirstInFirstOut(s: State, run: seq<Turn>)
    requires Opened(s) && Run(s, run).Some?
    ensures var e := Run(s, run).value;
            e.returned <= e.accepted && |e.accepted| < |e.returned| + |s.ring.buffer|
  {
    RunKeepsInv(s, run);
    var e := Run(s, run).value;
    assert |Waiting(e.ring)| == |e.ring.buffer| - 1 - SpaceFree(e.ring);
  }

  /** A writer that leaves scull_getwritespace holds the semaphore exactly when it got space, and then has space. */
  lemma SpaceMeansSemaphore(s: State, run: seq<Turn>, t: Thread)
    requires Opened(s) && Run(s, run).Some? && t in Run(s, run).value.pc
    ensures var e := Run(s, run).value;
            && (e.sem == Some(t) <==> HasSem(e.pc[t]))
            && RingOk(e.ring)
            && (e.pc[t].Ready? ==> if e.pc[t].call.Read? then e.ring.rp != e.ring.wp else SpaceFree(e.ring) > 0)
            && forall u <- e.pc :: HasSem(e.pc[t]) && HasSem(e.pc[u]) ==> t == u
  {
    RunKeepsInv(s, run);
    var e := Run(s, run).value;
    assert SemOk(e, t);
    forall u <- e.pc | HasSem(e.pc[t]) && HasSem(e.pc[u]) ensures t == u { assert SemOk(e, u); }
  }

  /** No lost wake-up: a reader asleep with data waiting, or a writer asleep with space free, is about to be woken. */
  lemma SleepersAreWoken(s: State, run: seq<Turn>, t: Thread)
    requires Opened(s) && Run(s, run).Some? && t in Run(s, run).value.pc && Run(s, run).value.pc[t].Asleep?
    ensures var e := Run(s, run).value;
            && RingOk(e.ring)
            && match e.pc[t].call
               case Read(_) => e.ring.rp != e.ring.wp ==> exists u <- e.pc :: e.pc[u].Waking? && e.pc[u].call.Write?
               case Write(_) => SpaceFree(e.ring) > 0 ==> exists u <- e.pc :: e.pc[u].Waking? && e.pc[u].call.Read?
  {
    RunKeepsInv(s, run);
    var e := Run(s, run).value;
    assert NotForgotten(e, t);
    if !Blocks(e.ring, e.pc[t].call) {
      var u :| WillWake(e, u, e.pc[t].call);
    }
  }

  // ----- what a call gets -----

  /** The call with which thread `t` last set out. */
  function Asked(s: State, run: seq<Turn>, t: Thread): Option<Call>
    decreases |run|
  {
    if run == [] then None
    else
      var before, last := run[..|run| - 1], run[|run| - 1];
      match Run(s, before)
      case None => None
      case Some(m) => if last.t == t && t in m.pc && m.pc[t].Idle? then Some(last.c.call) else Asked(s, before, t)
  }

  /** A thread stays with its call, and sets out with the one it chose. */
  lemma CallStep(s: State, t: Thread, c: Choice, u: Thread)
    requires Enabled(s, t, c) && u in Step(s, t, c).pc && !Step(s, t, c).pc[u].Idle?
    ensures u in s.pc && Step(s, t, c).pc[u].call == if s.pc[u].Idle? then c.call else s.pc[u].call
    ensures s.pc[u].Idle? ==> u == t
  {
    hide ReadLength, WriteLength, AfterRead, AfterWrite, SpaceFree;
  }

  lemma {:induction false} CallIsAsked(s: State, run: seq<Turn>, t: Thread)
    requires Opened(s) && Run(s, run).Some? && t in Run(s, run).value.pc && !Run(s, run).value.pc[t].Idle?
    ensures Asked(s, run, t) == Some(Run(s, run).value.pc[t].call)
    decreases |run|
  {
    hide Step, Enabled;
    if run == [] {
    } else {
      var before, last := run[..|run| - 1], run[|run| - 1];
      var m := Run(s, before).value;
      CallStep(m, last.t, last.c, t);
      if !m.pc[t].Idle? {
        CallIsAsked(s, before, t);
      }
    }
  }

  /** What a call did to the pipe: a read took the oldest bytes, a write put its first ones behind. */
  ghost predicate Serves(s: State, s': State, call: Call)
    requires RingOk(s.ring) && RingOk(s'.ring)
  {
    var waiting, size := Waiting(s.ring), |s.ring.buffer|;
    match call
    case Read(count) =>
      var n := |waiting| - |Waiting(s'.ring)|;
      && 0 <= n <= count && (n == 0 ==> count == 0)
      && (n == count || n == |waiting| || s.ring.rp + n == size)
      && s'.returned == s.returned + waiting[..n] && Waiting(s'.ring) == waiting[n..] && s'.accepted == s.accepted
    case Write(data) =>
      var n := |Waiting(s'.ring)| - |waiting|;
      && 0 <= n <= |data| && (n == 0 ==> data == [])
      && (n == |data| || |Waiting(s'.ring)| == size - 1 || s.ring.wp + n == size)
      && s'.accepted == s.accepted + data[..n] && Waiting(s'.ring) == waiting + data[..n] && s'.returned == s.returned
  }

  lemma TransferServes(s: State, t: Thread, call: Call)
    requires RingOk(s.ring) && !Blocks(s.ring, call)
    ensures RingOk(Transfer(s, t, call, false).ring) && Serves(s, Transfer(s, t, call, false), call)
  {
    hide Waiting, ReadLength, WriteLength, AfterRead, AfterWrite;
    match call
    case Read(count) => ReadTakesOldest(s.ring, count);
    case Write(data) => WriteAppends(s.ring, data);
  }

  /**
   * A thread that holds the semaphore of a pipe it need not wait for is served by its next two turns as it asked.
   * Nobody else moves a byte, and nothing moves when the copy faults.
   */
  lemma HolderIsServed(s: State, run: seq<Turn>, t: Thread, c: Choice, d: Choice)
    requires Opened(s) && Run(s, run).Some? && t in Run(s, run).value.pc && Run(s, run).value.pc[t].Holding?
    requires RingOk(Run(s, run).value.ring) && !Blocks(Run(s, run).value.ring, Run(s, run).value.pc[t].call)
    ensures var e := Run(s, run).value;
            && Enabled(e, t, c) && Enabled(Step(e, t, c), t, d)
            && var e' := Step(Step(e, t, c), t, d);
               && RingOk(e'.ring) && Asked(s, run, t).Some? && e'.sem == None
               && if d.fault then MovesNothing(e, e') && e'.pc[t].Idle?
                  else Serves(e, e', Asked(s, run, t).value) && e'.pc[t].Waking?
  {
    hide Waiting, ReadLength, WriteLength, AfterRead, AfterWrite, SpaceFree, Transfer;
    CallIsAsked(s, run, t);
    var e := Run(s, run).value;
    TransferServes(Step(e, t, c), t, e.pc[t].call);
    TransferLeaves(Step(e, t, c), t, e.pc[t].call, d.fault);
  }

  ghost predicate MovesNothing(s: State, s': State) {
    s'.ring == s.ring && s'.accepted == s.accepted && s'.returned == s.returned
  }

  lemma TransferLeaves(s: State, t: Thread, call: Call, fault: bool)
    requires RingOk(s.ring) && !Blocks(s.ring, call)
    ensures var s' := Transfer(s, t, call, fault);
            && s'.sem == None && s'.pc == s.pc[t := if fault then Idle else Waking(call)]
            && (fault ==> MovesNothing(s, s'))
  {
    hide ReadLength, WriteLength, AfterRead, AfterWrite, SpaceFree;
  }

  /**
   * Whatever else a thread does moves nothing. A call comes back unserved only for a signal, for a fault, or when it
   * must not wait and found nothing to do.
   */
  lemma OtherTurns(s: State, run: seq<Turn>, t: Thread, c: Choice)
    requires Opened(s) && Run(s, run).Some? && Enabled(Run(s, run).value, t, c)
    ensures var e := Run(s, run).value;
            var e' := Step(e, t, c);
            && (!e.pc[t].Ready? || c.fault ==> MovesNothing(e, e'))
            && (!e.pc[t].Idle? && e'.pc[t].Idle? ==>
                  e.pc[t].Waking? || c.signal || (e.pc[t].Ready? && c.fault) || (e.pc[t].Released? && c.nonblock))
            && (e'.pc[t].Released? ==> Blocks(e.ring, e.pc[t].call))
            && (e'.pc[t].Waking? ==> e.pc[t].Ready? && !c.fault)
            && (e.pc[t].Waking? ==> e'.pc[t].Idle?)
            && (e.pc[t].Released? && c.nonblock ==> e'.pc[t].Idle?)
            && forall u <- e.pc :: e'.pc[u].Idle? != e.pc[u].Idle? ==> u == t
  {
    hide Waiting, ReadLength, WriteLength, AfterRead, AfterWrite, SpaceFree;
  }

  /** Everyone in a call sleeps, for want of data or of space. */
  ghost predicate AllWait(s: State) {
    RingOk(s.ring) && forall u <- s.pc :: s.pc[u].Idle? || (s.pc[u].Asleep? && Blocks(s.ring, s.pc[u].call))
  }

  /**
   * Unless everyone in a call waits, one of them can go on without a signal. A buffer that can hold a byte is never
   * empty and full, so then they are all readers or all writers.
   */
  lemma SomeoneCanStep(s: State, run: seq<Turn>, c: Choice) returns (u: Thread)
    requires Opened(s) && Run(s, run).Some? && !c.signal
    ensures var e := Run(s, run).value;
            AllWait(e) || (u in e.pc && !e.pc[u].Idle? && Enabled(e, u, c))
    ensures var e := Run(s, run).value;
            AllWait(e) && |s.ring.buffer| > 1 ==>
              forall v, w :: v in e.pc && w in e.pc && e.pc[v].Asleep? && e.pc[w].Asleep? ==>
                  e.pc[v].call.Read? == e.pc[w].call.Read?
  {
    RunKeepsInv(s, run);
    var e := Run(s, run).value;
    u := 0;
    if t :| t in e.pc && !e.pc[t].Idle? && !e.pc[t].Asleep? {
      u := t;
      assert SemOk(e, t);
      if !Enabled(e, t, c) {
        u := e.sem.value;
        assert SemOk(e, u);
      }
    } else {
      forall t <- e.pc | e.pc[t].Asleep? ensures Blocks(e.ring, e.pc[t].call) { assert NotForgotten(e, t); }
    }
  }
}
