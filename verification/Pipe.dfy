/**
 A pipe shared by any number of threads: a ring of bytes behind a gate, a semaphore that counts bytes
 to read and one that counts room to write. One event is what a thread does between two points where
 another thread may run: one critical section of the gate, or one semaphore call.
 */
module Pipe {
  import opened Wrappers

  const PIPE_BYTES: nat := 4096

  datatype Outcome = Moved(count: nat) | WouldBlock | BrokenPipe | NoRoom

  /** Where a thread stands. `put` counts the bytes already written by the call. */
  datatype Pc =
    | Idle(last: Outcome)
    | PullCheck(count: nat, waited: bool, nonblock: bool)
    | PullPost(left: nat, taken: nat)
    | PullRepost
    | PullWait(count: nat)
    | PullParked(count: nat)
    | PushWait(bytes: seq<Byte>, put: nat)
    | PushParked(bytes: seq<Byte>, put: nat)
    | PushPut(bytes: seq<Byte>, put: nat)
    | PushPost(bytes: seq<Byte>, put: nat)
    | TryCensus(bytes: seq<Byte>, put: nat)
    | TryWait(bytes: seq<Byte>, put: nat)
    | TryPut(bytes: seq<Byte>, put: nat)
    | TryGiveBack(why: Outcome, put: nat)
    | TryPost(bytes: seq<Byte>, put: nat)
    | DropPost

  /** A counting semaphore: units at hand and the threads queued for one, first come first served. */
  datatype Semaphore = Semaphore(count: nat, waiters: seq<nat>)

  /**
   The pipe and its threads. For the record only: `pushed` and `popped` are all bytes ever put in and
   taken out, in order, and `hadWriter` says that there was a writer once.
   */
  datatype State = State(ring: seq<Byte>, readable: Semaphore, writable: Semaphore, readers: nat, writers: nat,
                         threads: seq<Pc>, pushed: seq<Byte>, popped: seq<Byte>, hadWriter: bool)

  datatype Call = Pull(count: nat, nonblock: bool) | Push(bytes: seq<Byte>) | TryPush(bytes: seq<Byte>) | DropWriter

  datatype Event = Begin(t: nat, call: Call) | Advance(t: nat) | AddReader | DropReader | AddWriter

  // ------------------------------------------------------------------ the steps

  function To(s: State, t: nat, pc: Pc): State
    requires t < |s.threads|
  {
    s.(threads := s.threads[t := pc])
  }

  predicate Parked(pc: Pc) {
    pc.PullParked? || pc.PushParked?
  }

  /** A parked thread goes on with the unit it was handed. */
  function Woken(pc: Pc): Pc {
    match pc
    case PullParked(count) => PullCheck(count, true, false)
    case PushParked(bytes, put) => PushPut(bytes, put)
    case _ => pc
  }

  function PostReadable(s: State): State {
    var q := s.readable.waiters;
    if q != [] && q[0] < |s.threads|
    then To(s.(readable := s.readable.(waiters := q[1..])), q[0], Woken(s.threads[q[0]]))
    else s.(readable := s.readable.(count := s.readable.count + 1))
  }

  function PostWritable(s: State): State {
    var q := s.writable.waiters;
    if q != [] && q[0] < |s.threads|
    then To(s.(writable := s.writable.(waiters := q[1..])), q[0], Woken(s.threads[q[0]]))
    else s.(writable := s.writable.(count := s.writable.count + 1))
  }

  function WaitReadable(s: State, t: nat, count: nat): State
    requires t < |s.threads|
  {
    if s.readable.count > 0
    then To(s.(readable := s.readable.(count := s.readable.count - 1)), t, PullCheck(count, true, false))
    else To(s.(readable := s.readable.(waiters := s.readable.waiters + [t])), t, PullParked(count))
  }

  function WaitWritable(s: State, t: nat, bytes: seq<Byte>, put: nat): State
    requires t < |s.threads|
  {
    if s.writable.count > 0
    then To(s.(writable := s.writable.(count := s.writable.count - 1)), t, PushPut(bytes, put))
    else To(s.(writable := s.writable.(waiters := s.writable.waiters + [t])), t, PushParked(bytes, put))
  }

  /** One pass of the reader through the gate. */
  function Drain(s: State, t: nat, count: nat, waited: bool, nonblock: bool): State
    requires t < |s.threads|
  {
    var taken := if count < |s.ring| then count else |s.ring|;
    var s' := s.(ring := s.ring[taken..], popped := s.popped + s.ring[..taken]);
    if taken != 0 then To(s', t, PullPost(taken, taken))
    else if s.writers == 0 then To(s', t, if waited then PullRepost else Idle(Moved(0)))
    else if nonblock then To(s', t, Idle(WouldBlock))
    else To(s', t, PullWait(count))
  }

  /** The ring takes a byte unless it is full. */
  function Fill(s: State, byte: Byte): State {
    if |s.ring| < PIPE_BYTES then s.(ring := s.ring + [byte], pushed := s.pushed + [byte]) else s
  }

  function NextPush(bytes: seq<Byte>, put: nat): Pc {
    if bytes == [] then Idle(Moved(put)) else PushWait(bytes, put)
  }

  function NextTry(bytes: seq<Byte>, put: nat): Pc {
    if bytes == [] then Idle(Moved(put)) else TryCensus(bytes, put)
  }

  /** What a non-blocking write returns when it stops early. */
  function Stopped(why: Outcome, put: nat): Pc {
    Idle(if put != 0 then Moved(put) else why)
  }

  /** Some step of thread `t`; a thread that is idle or parked has none. */
  function Run(s: State, t: nat): State
    requires t < |s.threads|
  {
    match s.threads[t]
    case PullCheck(count, waited, nonblock) => Drain(s, t, count, waited, nonblock)
    case PullPost(left, taken) =>
      if left == 0 then To(s, t, Idle(Moved(taken))) else PostWritable(To(s, t, PullPost(left - 1, taken)))
    case PullRepost => PostReadable(To(s, t, Idle(Moved(0))))
    case PullWait(count) => WaitReadable(s, t, count)
    case PushWait(bytes, put) => WaitWritable(s, t, bytes, put)
    case PushPut(bytes, put) =>
      if bytes == [] || |s.ring| >= PIPE_BYTES then To(s, t, Idle(NoRoom))
      else To(Fill(s, bytes[0]), t, PushPost(bytes[1..], put + 1))
    case PushPost(bytes, put) => PostReadable(To(s, t, NextPush(bytes, put)))
    case TryCensus(bytes, put) => To(s, t, if s.readers == 0 then Stopped(BrokenPipe, put) else TryWait(bytes, put))
    case TryWait(bytes, put) =>
      if s.writable.count == 0 then To(s, t, Stopped(WouldBlock, put))
      else To(s.(writable := s.writable.(count := s.writable.count - 1)), t, TryPut(bytes, put))
    case TryPut(bytes, put) =>
      if s.readers == 0 then To(s, t, TryGiveBack(BrokenPipe, put))
      else if bytes == [] || |s.ring| >= PIPE_BYTES then To(s, t, TryGiveBack(NoRoom, put))
      else To(Fill(s, bytes[0]), t, TryPost(bytes[1..], put + 1))
    case TryGiveBack(why, put) => PostWritable(To(s, t, Stopped(why, put)))
    case TryPost(bytes, put) => PostReadable(To(s, t, NextTry(bytes, put)))
    case DropPost => PostReadable(To(s, t, Idle(Moved(0))))
    case _ => s
  }

  predicate CanRun(pc: Pc) {
    !pc.Idle? && !Parked(pc)
  }

  predicate Enabled(s: State, e: Event) {
    match e
    case Begin(t, call) => t < |s.threads| && s.threads[t].Idle?
    case Advance(t) => t < |s.threads| && CanRun(s.threads[t])
    case DropReader => s.readers > 0
    case _ => true
  }

  function Next(s: State, e: Event): State
    requires Enabled(s, e)
  {
    match e
    case Begin(t, Pull(count, nonblock)) =>
      To(s, t, if count == 0 then Idle(Moved(0)) else PullCheck(count, false, nonblock))
    case Begin(t, Push(bytes)) => To(s, t, NextPush(bytes, 0))
    case Begin(t, TryPush(bytes)) => To(s, t, NextTry(bytes, 0))
    case Begin(t, DropWriter) =>
      var writers := if s.writers != 0 then s.writers - 1 else 0;
      To(s.(writers := writers), t, if writers == 0 then DropPost else s.threads[t])
    case Advance(t) => Run(s, t)
    case AddReader => s.(readers := s.readers + 1)
    case DropReader => s.(readers := s.readers - 1)
    case AddWriter => s.(writers := s.writers + 1, hadWriter := true)
  }

  /** A new pipe: no byte, all room, no end open yet. */
  function Fresh(threads: nat): State {
    State([], Semaphore(0, []), Semaphore(PIPE_BYTES, []), 0, 0, seq(threads, i => Idle(Moved(0))), [], [], false)
  }

  ghost predicate Steps(s: State, events: seq<Event>, s': State)
    decreases |events|
  {
    if events == [] then s == s' else Enabled(s, events[0]) && Steps(Next(s, events[0]), events[1..], s')
  }
}
