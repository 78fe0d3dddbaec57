/**
 What every run of a pipe keeps: room and bytes add up, bytes leave in the order they came, and no
 wake-up is lost, the hand-on of end-of-file included.
 */
module PipeRuns {
  import opened Wrappers
  import opened Pipe

  // ------------------------------------------------------------------ sums over the threads

  /** What a thread holds or owes: room in the ring, a wake-up for a reader, or steps still to take. */
  datatype Meter = Room | Wake | Effort

  function Weight(m: Meter, pc: Pc): nat {
    match m
    case Room => (
      match pc
      case PullPost(left, _) => left
      case PushPut(_, _) => 1
      case TryPut(_, _) => 1
      case TryGiveBack(_, _) => 1
      case _ => 0)
    case Wake => (
      match pc
      case PullCheck(_, waited, _) => if waited then 1 else 0
      case PullRepost => 1
      case PushPost(_, _) => 1
      case TryPost(_, _) => 1
      case DropPost => 1
      case _ => 0)
    case Effort => (
      match pc
      case Idle(_) => 0
      case PullCheck(_, waited, _) => if waited then 2 else 5
      case PullPost(left, _) => left + 1
      case PullRepost => 1
      case PullWait(_) => 4
      case PullParked(_) => 3
      case PushWait(bytes, _) => 30 * |bytes| + 2
      case PushParked(bytes, _) => 30 * |bytes| + 1
      case PushPut(bytes, _) => 30 * |bytes|
      case PushPost(bytes, _) => 30 * |bytes| + 3
      case TryCensus(bytes, _) => 30 * |bytes| + 2
      case TryWait(bytes, _) => 30 * |bytes| + 1
      case TryPut(bytes, _) => 30 * |bytes|
      case TryGiveBack(_, _) => 1
      case TryPost(bytes, _) => 30 * |bytes| + 3
      case DropPost => 1)
  }

  function Sum(m: Meter, threads: seq<Pc>): nat {
    if threads == [] then 0 else Weight(m, threads[0]) + Sum(m, threads[1..])
  }

  lemma {:induction false} SumUpdate(m: Meter, threads: seq<Pc>, t: nat, pc: Pc)
    requires t < |threads|
    ensures Sum(m, threads[t := pc]) + Weight(m, threads[t]) == Sum(m, threads) + Weight(m, pc)
  {
    if t > 0 {
      SumUpdate(m, threads[1..], t - 1, pc);
      assert threads[t := pc][1..] == threads[1..][t - 1 := pc];
    } else {
      assert threads[0 := pc][1..] == threads[1..];
    }
  }

  lemma {:induction false} SumHolds(m: Meter, threads: seq<Pc>, t: nat)
    requires t < |threads|
    ensures Weight(m, threads[t]) <= Sum(m, threads)
  {
    if t == 0 {
    } else {
      SumHolds(m, threads[1..], t - 1);
    }
  }

  /** A sum that is not zero has a thread to show for it. */
  lemma {:induction false} SumShows(m: Meter, threads: seq<Pc>) returns (t: nat)
    requires Sum(m, threads) > 0
    ensures t < |threads| && Weight(m, threads[t]) > 0
  {
    if Weight(m, threads[0]) > 0 {
      t := 0;
    } else {
      var k := SumShows(m, threads[1..]);
      t := k + 1;
    }
  }

  // ------------------------------------------------------------------ the invariant

  /** The queue of a semaphore: threads parked on it, each once, and only while there is no unit. */
  ghost predicate Queue(sem: Semaphore, threads: seq<Pc>, reading: bool) {
    && (sem.waiters != [] ==> sem.count == 0)
    && (forall i, j :: 0 <= i < j < |sem.waiters| ==> sem.waiters[i] != sem.waiters[j])
    && (forall t :: t in sem.waiters ==>
         t < |threads| && (if reading then threads[t].PullParked? else threads[t].PushParked?))
    && (forall t :: 0 <= t < |threads| && (if reading then threads[t].PullParked? else threads[t].PushParked?) ==>
         t in sem.waiters)
  }

  /** A thread's stage makes sense. */
  ghost predicate Sane(pc: Pc, hadWriter: bool) {
    match pc
    case Idle(last) => last != NoRoom
    case PullCheck(count, waited, nonblock) => count > 0 && (waited ==> hadWriter && !nonblock)
    case PullWait(count) => count > 0 && hadWriter
    case PullParked(count) => count > 0 && hadWriter
    case PushWait(bytes, _) => bytes != []
    case PushParked(bytes, _) => bytes != []
    case PushPut(bytes, _) => bytes != []
    case TryCensus(bytes, _) => bytes != []
    case TryWait(bytes, _) => bytes != []
    case TryPut(bytes, _) => bytes != []
    case TryGiveBack(why, _) => why != NoRoom
    case _ => true
  }

  function AtEnd(s: State): nat {
    if s.hadWriter && s.writers == 0 then 1 else 0
  }

  /** The invariant, short of `room` places and `wake` wake-ups that are about to be posted. */
  ghost predicate InvShort(s: State, room: nat, wake: nat) {
    && s.writable.count + |s.ring| + Sum(Room, s.threads) + room == PIPE_BYTES
    && s.pushed == s.popped + s.ring
    && |s.ring| + AtEnd(s) <= s.readable.count + Sum(Wake, s.threads) + wake
    && Queue(s.readable, s.threads, true) && Queue(s.writable, s.threads, false)
    && (!s.hadWriter ==> s.writers == 0)
    && forall t :: 0 <= t < |s.threads| ==> Sane(s.threads[t], s.hadWriter)
  }

  ghost predicate Inv(s: State) {
    InvShort(s, 0, 0)
  }

  // ------------------------------------------------------------------ every event keeps it

  /** A thread that is not parked moves to another such stage. */
  lemma QueueMove(sem: Semaphore, threads: seq<Pc>, reading: bool, t: nat, pc: Pc)
    requires Queue(sem, threads, reading) && t < |threads| && !Parked(threads[t]) && !Parked(pc)
    ensures Queue(sem, threads[t := pc], reading)
  {
  }

  lemma MoveKeeps(s: State, t: nat, pc: Pc, room: nat, wake: nat, room': nat, wake': nat)
    requires InvShort(s, room, wake) && t < |s.threads| && !Parked(s.threads[t]) && !Parked(pc) && Sane(pc, s.hadWriter)
    requires Weight(Room, s.threads[t]) + room == Weight(Room, pc) + room'
    requires Weight(Wake, s.threads[t]) + wake <= Weight(Wake, pc) + wake'
    ensures InvShort(To(s, t, pc), room', wake')
  {
    hide Queue, Sum, Weight, Sane;
    SumUpdate(Room, s.threads, t, pc);
    SumUpdate(Wake, s.threads, t, pc);
    QueueMove(s.readable, s.threads, true, t, pc);
    QueueMove(s.writable, s.threads, false, t, pc);
  }

  /** The first of the queue leaves it with a unit. */
  lemma QueueWake(sem: Semaphore, other: Semaphore, threads: seq<Pc>, reading: bool)
    requires Queue(sem, threads, reading) && Queue(other, threads, !reading) && sem.waiters != []
    requires sem.waiters[0] < |threads|
    ensures var t := sem.waiters[0];
            && Queue(sem.(waiters := sem.waiters[1..]), threads[t := Woken(threads[t])], reading)
            && Queue(other, threads[t := Woken(threads[t])], !reading)
  {
    var t, rest := sem.waiters[0], sem.waiters[1..];
    var threads' := threads[t := Woken(threads[t])];
    assert t in sem.waiters;
    forall k | k in rest
      ensures k != t && k in sem.waiters
    {
      var i :| 0 <= i < |rest| && rest[i] == k;
      assert sem.waiters[i + 1] == k;
    }
    forall k | k in sem.waiters && k != t
      ensures k in rest
    {
      var i :| 0 <= i < |sem.waiters| && sem.waiters[i] == k;
      assert rest[i - 1] == k;
    }
    forall i, j | 0 <= i < j < |rest|
      ensures rest[i] != rest[j]
    {
      var i', j' := i + 1, j + 1;
      assert sem.waiters[i'] != sem.waiters[j'];
    }
  }

  /** A thread joins the queue when there is no unit. */
  lemma QueuePark(sem: Semaphore, other: Semaphore, threads: seq<Pc>, reading: bool, t: nat, pc: Pc)
    requires Queue(sem, threads, reading) && Queue(other, threads, !reading) && sem.count == 0
    requires t < |threads| && !Parked(threads[t]) && if reading then pc.PullParked? else pc.PushParked?
    ensures Queue(sem.(waiters := sem.waiters + [t]), threads[t := pc], reading)
    ensures Queue(other, threads[t := pc], !reading)
  {
    assert t !in sem.waiters;
    var q := sem.waiters + [t];
    forall k | k in sem.waiters
      ensures k in q
    {
    }
  }

  lemma PostReadableKeeps(s: State, room: nat, wake: nat)
    requires InvShort(s, room, wake + 1)
    ensures InvShort(PostReadable(s), room, wake)
  {
    hide Queue, Sum;
    QueueFirst(s.readable, s.threads, true);
    if s.readable.waiters != [] {
      var t := s.readable.waiters[0];
      QueueWake(s.readable, s.writable, s.threads, true);
      SumUpdate(Room, s.threads, t, Woken(s.threads[t]));
      SumUpdate(Wake, s.threads, t, Woken(s.threads[t]));
    } else {
      QueueUnit(s.readable, s.threads, true);
    }
  }

  lemma PostWritableKeeps(s: State, room: nat, wake: nat)
    requires InvShort(s, room + 1, wake)
    ensures InvShort(PostWritable(s), room, wake)
  {
    hide Queue, Sum;
    QueueFirst(s.writable, s.threads, false);
    if s.writable.waiters != [] {
      var t := s.writable.waiters[0];
      QueueWake(s.writable, s.readable, s.threads, false);
      SumUpdate(Room, s.threads, t, Woken(s.threads[t]));
      SumUpdate(Wake, s.threads, t, Woken(s.threads[t]));
    } else {
      QueueUnit(s.writable, s.threads, false);
    }
  }

  lemma QueueFirst(sem: Semaphore, threads: seq<Pc>, reading: bool)
    requires Queue(sem, threads, reading)
    ensures sem.waiters != [] ==> sem.count == 0 && sem.waiters[0] < |threads|
    ensures sem.waiters != [] ==>
              if reading then threads[sem.waiters[0]].PullParked? else threads[sem.waiters[0]].PushParked?
  {
    if sem.waiters != [] {
      assert sem.waiters[0] in sem.waiters;
    }
  }

  lemma QueueUnit(sem: Semaphore, threads: seq<Pc>, reading: bool)
    requires Queue(sem, threads, reading)
    ensures sem.waiters == [] ==> forall n: nat :: Queue(sem.(count := n), threads, reading)
    ensures sem.count > 0 ==> Queue(sem.(count := sem.count - 1), threads, reading)
  {
  }

  lemma WaitReadableKeeps(s: State, t: nat)
    requires Inv(s) && t < |s.threads| && s.threads[t].PullWait?
    ensures Inv(WaitReadable(s, t, s.threads[t].count))
  {
    hide Queue, Sum;
    var count := s.threads[t].count;
    assert Sane(s.threads[t], s.hadWriter);
    if s.readable.count > 0 {
      QueueUnit(s.readable, s.threads, true);
      var s' := s.(readable := s.readable.(count := s.readable.count - 1));
      MoveKeeps(s', t, PullCheck(count, true, false), 0, 1, 0, 0);
    } else {
      SumUpdate(Room, s.threads, t, PullParked(count));
      SumUpdate(Wake, s.threads, t, PullParked(count));
      QueuePark(s.readable, s.writable, s.threads, true, t, PullParked(count));
    }
  }

  lemma WaitWritableKeeps(s: State, t: nat)
    requires Inv(s) && t < |s.threads| && s.threads[t].PushWait?
    ensures Inv(WaitWritable(s, t, s.threads[t].bytes, s.threads[t].put))
  {
    hide Queue, Sum;
    var bytes, put := s.threads[t].bytes, s.threads[t].put;
    assert Sane(s.threads[t], s.hadWriter);
    if s.writable.count > 0 {
      QueueUnit(s.writable, s.threads, false);
      var s' := s.(writable := s.writable.(count := s.writable.count - 1));
      MoveKeeps(s', t, PushPut(bytes, put), 1, 0, 0, 0);
    } else {
      SumUpdate(Room, s.threads, t, PushParked(bytes, put));
      SumUpdate(Wake, s.threads, t, PushParked(bytes, put));
      QueuePark(s.writable, s.readable, s.threads, false, t, PushParked(bytes, put));
    }
  }

  lemma DrainKeeps(s: State, t: nat)
    requires Inv(s) && t < |s.threads| && s.threads[t].PullCheck?
    ensures var pc := s.threads[t];
            Inv(Drain(s, t, pc.count, pc.waited, pc.nonblock))
  {
    hide Queue, Sum;
    var pc := s.threads[t];
    assert Sane(pc, s.hadWriter);
    var taken := if pc.count < |s.ring| then pc.count else |s.ring|;
    var s' := s.(ring := s.ring[taken..], popped := s.popped + s.ring[..taken]);
    assert s.ring == s.ring[..taken] + s.ring[taken..];
    SumHolds(Wake, s.threads, t);
    if taken != 0 {
      assert InvShort(s', taken, 0) by {
        assert |s'.ring| == |s.ring| - taken;
      }
      // One unit was spent on at least one byte.
      SumUpdate(Room, s.threads, t, PullPost(taken, taken));
      SumUpdate(Wake, s.threads, t, PullPost(taken, taken));
      QueueMove(s.readable, s.threads, true, t, PullPost(taken, taken));
      QueueMove(s.writable, s.threads, false, t, PullPost(taken, taken));
    } else {
      assert s' == s.(ring := s.ring) by {
        assert s.ring[0..] == s.ring && s.popped + s.ring[..0] == s.popped;
      }
      if s.writers == 0 {
        MoveKeeps(s, t, if pc.waited then PullRepost else Idle(Moved(0)), 0, 0, 0, 0);
      } else {
        var next := if pc.nonblock then Idle(WouldBlock) else PullWait(pc.count);
        SumUpdate(Room, s.threads, t, next);
        SumUpdate(Wake, s.threads, t, next);
        QueueMove(s.readable, s.threads, true, t, next);
        QueueMove(s.writable, s.threads, false, t, next);
      }
    }
  }

  /** A thread that holds a place in the ring finds room. */
  lemma PutHasRoom(s: State, t: nat)
    requires Inv(s) && t < |s.threads| && (s.threads[t].PushPut? || s.threads[t].TryPut?)
    ensures |s.ring| < PIPE_BYTES
  {
    SumHolds(Room, s.threads, t);
  }

  lemma PutKeeps(s: State, t: nat, pc: Pc)
    requires Inv(s) && t < |s.threads| && (s.threads[t].PushPut? || s.threads[t].TryPut?)
    requires s.threads[t].bytes != []
    requires Weight(Room, pc) == 0 && Weight(Wake, pc) == 1 && !Parked(pc) && Sane(pc, s.hadWriter)
    ensures Inv(To(Fill(s, s.threads[t].bytes[0]), t, pc))
  {
    hide Queue, Sum;
    var byte := s.threads[t].bytes[0];
    PutHasRoom(s, t);
    var s' := Fill(s, byte);
    SumUpdate(Room, s.threads, t, pc);
    SumUpdate(Wake, s.threads, t, pc);
    QueueMove(s.readable, s.threads, true, t, pc);
    QueueMove(s.writable, s.threads, false, t, pc);
    assert s.popped + (s.ring + [byte]) == (s.popped + s.ring) + [byte];
  }

  lemma TakeUnit(s: State)
    requires Inv(s) && s.writable.count > 0
    ensures InvShort(s.(writable := s.writable.(count := s.writable.count - 1)), 1, 0)
  {
    hide Queue, Sum;
    QueueUnit(s.writable, s.threads, false);
  }

  lemma RunKeeps(s: State, t: nat)
    requires Inv(s) && t < |s.threads| && CanRun(s.threads[t])
    ensures Inv(Run(s, t))
  {
    hide Queue, Sum, InvShort;
    var pc := s.threads[t];
    SaneAt(s, t);
    match pc {
      case PullCheck(count, waited, nonblock) => DrainKeeps(s, t);
      case PullPost(left, taken) =>
        if left == 0 {
          MoveKeeps(s, t, Idle(Moved(taken)), 0, 0, 0, 0);
        } else {
          MoveKeeps(s, t, PullPost(left - 1, taken), 0, 0, 1, 0);
          PostWritableKeeps(To(s, t, PullPost(left - 1, taken)), 0, 0);
        }
      case PullRepost =>
        MoveKeeps(s, t, Idle(Moved(0)), 0, 0, 0, 1);
        PostReadableKeeps(To(s, t, Idle(Moved(0))), 0, 0);
      case PullWait(count) => WaitReadableKeeps(s, t);
      case PushWait(bytes, put) => WaitWritableKeeps(s, t);
      case PushPut(bytes, put) =>
        PutHasRoom(s, t);
        PutKeeps(s, t, PushPost(bytes[1..], put + 1));
      case PushPost(bytes, put) =>
        MoveKeeps(s, t, NextPush(bytes, put), 0, 0, 0, 1);
        PostReadableKeeps(To(s, t, NextPush(bytes, put)), 0, 0);
      case TryCensus(bytes, put) =>
        MoveKeeps(s, t, if s.readers == 0 then Stopped(BrokenPipe, put) else TryWait(bytes, put), 0, 0, 0, 0);
      case TryWait(bytes, put) =>
        if s.writable.count == 0 {
          MoveKeeps(s, t, Stopped(WouldBlock, put), 0, 0, 0, 0);
        } else {
          TakeUnit(s);
          MoveKeeps(s.(writable := s.writable.(count := s.writable.count - 1)), t, TryPut(bytes, put), 1, 0, 0, 0);
        }
      case TryPut(bytes, put) =>
        PutHasRoom(s, t);
        if s.readers == 0 {
          MoveKeeps(s, t, TryGiveBack(BrokenPipe, put), 0, 0, 0, 0);
        } else {
          PutKeeps(s, t, TryPost(bytes[1..], put + 1));
        }
      case TryGiveBack(why, put) =>
        MoveKeeps(s, t, Stopped(why, put), 0, 0, 1, 0);
        PostWritableKeeps(To(s, t, Stopped(why, put)), 0, 0);
      case TryPost(bytes, put) =>
        MoveKeeps(s, t, NextTry(bytes, put), 0, 0, 0, 1);
        PostReadableKeeps(To(s, t, NextTry(bytes, put)), 0, 0);
      case DropPost =>
        MoveKeeps(s, t, Idle(Moved(0)), 0, 0, 0, 1);
        PostReadableKeeps(To(s, t, Idle(Moved(0))), 0, 0);
    }
  }

  lemma NextKeeps(s: State, e: Event)
    requires Inv(s) && Enabled(s, e)
    ensures Inv(Next(s, e))
  {
    hide Queue, Sum;
    match e {
      case Begin(t, Pull(count, nonblock)) =>
        MoveKeeps(s, t, if count == 0 then Idle(Moved(0)) else PullCheck(count, false, nonblock), 0, 0, 0, 0);
      case Begin(t, Push(bytes)) => MoveKeeps(s, t, NextPush(bytes, 0), 0, 0, 0, 0);
      case Begin(t, TryPush(bytes)) => MoveKeeps(s, t, NextTry(bytes, 0), 0, 0, 0, 0);
      case Begin(t, DropWriter) =>
        var writers := if s.writers != 0 then s.writers - 1 else 0;
        var s' := s.(writers := writers);
        if writers == 0 {
          assert InvShort(s', 0, 1);
          MoveKeeps(s', t, DropPost, 0, 1, 0, 0);
        } else {
          assert s'.threads[t := s.threads[t]] == s'.threads;
        }
      case Advance(t) => RunKeeps(s, t);
      case _ =>
    }
  }

  lemma FreshHolds(threads: nat)
    ensures Inv(Fresh(threads))
  {
    hide Weight, Sum;
    IdleSum(Room, Fresh(threads).threads);
    IdleSum(Wake, Fresh(threads).threads);
  }

  lemma {:induction false} IdleSum(m: Meter, threads: seq<Pc>)
    requires forall t :: 0 <= t < |threads| ==> threads[t].Idle?
    ensures Sum(m, threads) == 0
  {
    if threads == [] {
    } else {
      IdleSum(m, threads[1..]);
    }
  }

  /** The invariant holds after every run of a new pipe. */
  lemma {:induction false} StepsKeep(s: State, events: seq<Event>, s': State)
    requires Inv(s) && Steps(s, events, s')
    ensures Inv(s')
    decreases |events|
  {
    if events == [] {
    } else {
      NextKeeps(s, events[0]);
      StepsKeep(Next(s, events[0]), events[1..], s');
    }
  }

  ghost predicate Reachable(s: State) {
    exists n: nat, events: seq<Event> :: Steps(Fresh(n), events, s)
  }

  lemma ReachableHolds(s: State)
    requires Reachable(s)
    ensures Inv(s)
  {
    var n: nat, events :| Steps(Fresh(n), events, s);
    FreshHolds(n);
    StepsKeep(Fresh(n), events, s);
  }

  // ------------------------------------------------------------------ what follows for every run

  /** Bytes come out in the order they went in; none is lost or repeated, and the ring never overflows. */
  lemma FirstInFirstOut(s: State)
    requires Reachable(s)
    ensures s.pushed == s.popped + s.ring && |s.ring| <= PIPE_BYTES
  {
    ReachableHolds(s);
  }

  /** Places in the ring are conserved: free, filled, reserved by a writer or about to be given back. */
  lemma RoomIsConserved(s: State)
    requires Reachable(s)
    ensures s.writable.count + |s.ring| + Sum(Room, s.threads) == PIPE_BYTES
  {
    ReachableHolds(s);
  }

  /** No write ever finds the ring full after it was granted room. */
  lemma NeverNoRoom(s: State, t: nat)
    requires Reachable(s) && t < |s.threads|
    ensures s.threads[t] != Idle(NoRoom)
    ensures s.threads[t].PushPut? || s.threads[t].TryPut? ==> |s.ring| < PIPE_BYTES
  {
    ReachableHolds(s);
    assert Sane(s.threads[t], s.hadWriter);
    if s.threads[t].PushPut? || s.threads[t].TryPut? {
      PutHasRoom(s, t);
    }
  }

  /** A reader that sleeps while there is something to see has a wake-up coming from a thread that can run. */
  lemma NoLostWakeup(s: State, t: nat) returns (k: nat)
    requires Reachable(s) && t < |s.threads| && s.threads[t].PullParked? && (s.ring != [] || s.writers == 0)
    ensures k < |s.threads| && CanRun(s.threads[k]) && Weight(Wake, s.threads[k]) > 0
  {
    ReachableHolds(s);
    assert Sane(s.threads[t], s.hadWriter) && t in s.readable.waiters;
    k := SumShows(Wake, s.threads);
  }

  /** A writer that sleeps while the ring has room has a place coming from a thread that can run. */
  lemma NoLostRoom(s: State, t: nat) returns (k: nat)
    requires Reachable(s) && t < |s.threads| && s.threads[t].PushParked? && |s.ring| < PIPE_BYTES
    ensures k < |s.threads| && CanRun(s.threads[k]) && Weight(Room, s.threads[k]) > 0
  {
    ReachableHolds(s);
    assert t in s.writable.waiters;
    k := SumShows(Room, s.threads);
  }

  // ------------------------------------------------------------------ the threads come to rest

  /** An upper bound on the steps the threads can take without new calls. */
  function Work(s: State): nat {
    10 * (s.readable.count + Sum(Wake, s.threads)) + 2 * |s.ring| + Sum(Effort, s.threads)
  }

  lemma MoveWork(s: State, t: nat, pc: Pc)
    requires t < |s.threads|
    ensures Work(To(s, t, pc)) + 10 * Weight(Wake, s.threads[t]) + Weight(Effort, s.threads[t])
            == Work(s) + 10 * Weight(Wake, pc) + Weight(Effort, pc)
  {
    SumUpdate(Wake, s.threads, t, pc);
    SumUpdate(Effort, s.threads, t, pc);
  }

  lemma PostReadableWork(s: State)
    requires Queue(s.readable, s.threads, true)
    ensures Work(PostReadable(s)) <= Work(s) + 10
  {
    QueueFirst(s.readable, s.threads, true);
    if s.readable.waiters != [] {
      var t := s.readable.waiters[0];
      MoveWork(s, t, Woken(s.threads[t]));
    }
  }

  lemma PostWritableWork(s: State)
    requires Queue(s.writable, s.threads, false)
    ensures Work(PostWritable(s)) <= Work(s)
  {
    QueueFirst(s.writable, s.threads, false);
    if s.writable.waiters != [] {
      var t := s.writable.waiters[0];
      MoveWork(s, t, Woken(s.threads[t]));
    }
  }

  lemma DrainTires(s: State, t: nat)
    requires Inv(s) && t < |s.threads| && s.threads[t].PullCheck?
    ensures var pc := s.threads[t];
            Work(Drain(s, t, pc.count, pc.waited, pc.nonblock)) < Work(s)
  {
    hide Queue, Sum;
    var pc := s.threads[t];
    assert Sane(pc, s.hadWriter);
    var taken := if pc.count < |s.ring| then pc.count else |s.ring|;
    var s' := s.(ring := s.ring[taken..], popped := s.popped + s.ring[..taken]);
    assert Work(s') + 2 * taken == Work(s);
    var next := if taken != 0 then PullPost(taken, taken)
                else if s.writers == 0 then (if pc.waited then PullRepost else Idle(Moved(0)))
                else if pc.nonblock then Idle(WouldBlock) else PullWait(pc.count);
    MoveWork(s', t, next);
  }

  lemma GiveRoomTires(s: State, t: nat, next: Pc)
    requires Inv(s) && t < |s.threads| && !Parked(s.threads[t]) && !Parked(next)
    requires Weight(Wake, next) == Weight(Wake, s.threads[t]) && Weight(Effort, next) < Weight(Effort, s.threads[t])
    ensures Work(PostWritable(To(s, t, next))) < Work(s) && Work(To(s, t, next)) < Work(s)
  {
    hide Queue, Work, Weight;
    MoveWork(s, t, next);
    QueueMove(s.writable, s.threads, false, t, next);
    PostWritableWork(To(s, t, next));
  }

  lemma PostTires(s: State, t: nat, next: Pc)
    requires Inv(s) && t < |s.threads| && !Parked(s.threads[t]) && !Parked(next)
    requires Weight(Wake, next) == 0 && Weight(Wake, s.threads[t]) == 1
    requires Weight(Effort, next) < Weight(Effort, s.threads[t])
    ensures Work(PostReadable(To(s, t, next))) < Work(s)
  {
    hide Queue, Work, Weight;
    MoveWork(s, t, next);
    QueueMove(s.readable, s.threads, true, t, next);
    PostReadableWork(To(s, t, next));
  }

  lemma WaitTires(s: State, t: nat)
    requires Inv(s) && t < |s.threads| && (s.threads[t].PullWait? || s.threads[t].PushWait?)
    ensures Work(Run(s, t)) < Work(s)
  {
    hide Queue, Sum, InvShort;
    var pc := s.threads[t];
    if pc.PullWait? {
      MoveWork(s, t, PullCheck(pc.count, true, false));
      MoveWork(s, t, PullParked(pc.count));
    } else {
      MoveWork(s, t, PushPut(pc.bytes, pc.put));
      MoveWork(s, t, PushParked(pc.bytes, pc.put));
    }
  }

  lemma SaneAt(s: State, t: nat)
    requires Inv(s) && t < |s.threads|
    ensures Sane(s.threads[t], s.hadWriter)
  {
  }

  lemma PutTires(s: State, t: nat)
    requires Inv(s) && t < |s.threads| && (s.threads[t].PushPut? || s.threads[t].TryPut?)
    ensures Work(Run(s, t)) < Work(s)
  {
    hide Queue, Sum, InvShort;
    var pc := s.threads[t];
    SaneAt(s, t);
    PutHasRoom(s, t);
    var rest := pc.bytes[1..];
    if pc.PushPut? {
      FilledTires(s, t, PushPost(rest, pc.put + 1));
    } else if s.readers == 0 {
      MoveWork(s, t, TryGiveBack(BrokenPipe, pc.put));
    } else {
      FilledTires(s, t, TryPost(rest, pc.put + 1));
    }
  }

  lemma FilledTires(s: State, t: nat, next: Pc)
    requires t < |s.threads| && (s.threads[t].PushPut? || s.threads[t].TryPut?) && |s.ring| < PIPE_BYTES
    requires s.threads[t].bytes != [] && (next.PushPost? || next.TryPost?) && next.bytes == s.threads[t].bytes[1..]
    ensures Work(To(Fill(s, s.threads[t].bytes[0]), t, next)) < Work(s)
  {
    hide Sum;
    MoveWork(Fill(s, s.threads[t].bytes[0]), t, next);
  }

  /** Every step of a thread uses some of the work up. */
  lemma RunTires(s: State, t: nat)
    requires Inv(s) && t < |s.threads| && CanRun(s.threads[t])
    ensures Work(Run(s, t)) < Work(s)
  {
    hide Work, PostReadable, PostWritable, InvShort, Drain, WaitReadable, WaitWritable, Fill;
    var pc := s.threads[t];
    match pc {
      case PullCheck(count, waited, nonblock) => DrainTires(s, t);
      case PullPost(left, taken) =>
        GiveRoomTires(s, t, if left == 0 then Idle(Moved(taken)) else PullPost(left - 1, taken));
      case PullWait(count) => WaitTires(s, t);
      case PushWait(bytes, put) => WaitTires(s, t);
      case PushPut(bytes, put) => PutTires(s, t);
      case TryCensus(bytes, put) =>
        GiveRoomTires(s, t, if s.readers == 0 then Stopped(BrokenPipe, put) else TryWait(bytes, put));
      case TryWait(bytes, put) => TryWaitTires(s, t);
      case TryPut(bytes, put) => PutTires(s, t);
      case TryGiveBack(why, put) => GiveRoomTires(s, t, Stopped(why, put));
      case PushPost(bytes, put) => PostTires(s, t, NextPush(bytes, put));
      case TryPost(bytes, put) => PostTires(s, t, NextTry(bytes, put));
      case PullRepost => PostTires(s, t, Idle(Moved(0)));
      case DropPost => PostTires(s, t, Idle(Moved(0)));
    }
  }

  lemma TryWaitTires(s: State, t: nat)
    requires t < |s.threads| && s.threads[t].TryWait?
    ensures Work(Run(s, t)) < Work(s)
  {
    hide Sum;
    var pc := s.threads[t];
    MoveWork(s, t, if s.writable.count == 0 then Stopped(WouldBlock, pc.put) else TryPut(pc.bytes, pc.put));
  }

  ghost predicate Quiet(s: State) {
    forall t :: 0 <= t < |s.threads| ==> !CanRun(s.threads[t])
  }

  /** Without new calls a run is never longer than the work at hand. */
  lemma {:induction false} RunsAreShort(s: State, events: seq<Event>, s': State)
    requires Inv(s) && Steps(s, events, s') && forall e :: e in events ==> e.Advance?
    ensures |events| + Work(s') <= Work(s)
    decreases |events|
  {
    if events == [] {
    } else {
      assert events[0] in events;
      RunTires(s, events[0].t);
      RunKeeps(s, events[0].t);
      RunsAreShort(Next(s, events[0]), events[1..], s');
    }
  }

  /** At rest, a sleeping reader faces an empty ring and a live writer, and a sleeping writer a full ring. */
  lemma AtRest(s: State, t: nat)
    requires Reachable(s) && Quiet(s) && t < |s.threads|
    ensures s.threads[t].PullParked? ==> s.ring == [] && s.writers > 0
    ensures s.threads[t].PushParked? ==> |s.ring| == PIPE_BYTES
  {
    ReachableHolds(s);
    if s.threads[t].PullParked? && (s.ring != [] || s.writers == 0) {
      var k := NoLostWakeup(s, t);
      assert false;
    }
    if s.threads[t].PushParked? && |s.ring| != PIPE_BYTES {
      var k := NoLostRoom(s, t);
      assert false;
    }
  }

  lemma {:induction false} StepsConcat(s: State, xs: seq<Event>, s1: State, ys: seq<Event>, s2: State)
    requires Steps(s, xs, s1) && Steps(s1, ys, s2)
    ensures Steps(s, xs + ys, s2)
    decreases |xs|
  {
    if xs == [] {
      assert xs + ys == ys;
    } else {
      assert (xs + ys)[1..] == xs[1..] + ys;
      StepsConcat(Next(s, xs[0]), xs[1..], s1, ys, s2);
    }
  }

  /**
   Once the last writer is gone every reader gets to see it: however the threads are scheduled, if no
   new call begins then within `Work(s)` steps nobody can run, and then no reader is asleep.
   */
  lemma EndOfFileReachesAll(s: State, events: seq<Event>, s': State)
    requires Reachable(s) && s.writers == 0
    requires Steps(s, events, s') && forall e :: e in events ==> e.Advance?
    ensures |events| <= Work(s)
    ensures Quiet(s') ==> forall t :: 0 <= t < |s'.threads| ==> !s'.threads[t].PullParked?
  {
    hide Work, Inv;
    ReachableHolds(s);
    RunsAreShort(s, events, s');
    WritersStay(s, events, s');
    var n: nat, past :| Steps(Fresh(n), past, s);
    StepsConcat(Fresh(n), past, s, events, s');
    if Quiet(s') {
      forall t | 0 <= t < |s'.threads|
        ensures !s'.threads[t].PullParked?
      {
        AtRest(s', t);
      }
    }
  }

  lemma {:induction false} WritersStay(s: State, events: seq<Event>, s': State)
    requires Steps(s, events, s') && forall e :: e in events ==> e.Advance?
    ensures s'.writers == s.writers
    decreases |events|
  {
    if events == [] {
    } else {
      assert events[0] in events;
      WritersStay(Next(s, events[0]), events[1..], s');
    }
  }

  // ------------------------------------------------------------------ waiting in turn

  /** A queue that stays, gains a thread at its end, or loses its first thread, which can run again. */
  ghost predicate InTurn(q: seq<nat>, q': seq<nat>, threads': seq<Pc>) {
    || q' == q
    || (|q'| == |q| + 1 && q < q')
    || (q != [] && q' == q[1..] && q[0] < |threads'| && CanRun(threads'[q[0]]))
  }

  lemma PostsInTurn(s: State, t: nat, pc: Pc)
    requires Queue(s.readable, s.threads, true) && Queue(s.writable, s.threads, false)
    requires t < |s.threads| && !Parked(s.threads[t]) && !Parked(pc)
    ensures var r, w := PostReadable(To(s, t, pc)), PostWritable(To(s, t, pc));
            && InTurn(s.readable.waiters, r.readable.waiters, r.threads) && r.writable == s.writable
            && InTurn(s.writable.waiters, w.writable.waiters, w.threads) && w.readable == s.readable
  {
    hide Queue;
    QueueMove(s.readable, s.threads, true, t, pc);
    QueueMove(s.writable, s.threads, false, t, pc);
    QueueFirst(s.readable, s.threads[t := pc], true);
    QueueFirst(s.writable, s.threads[t := pc], false);
  }

  lemma AdvanceInTurn(s: State, t: nat)
    requires Inv(s) && t < |s.threads| && CanRun(s.threads[t])
    ensures InTurn(s.readable.waiters, Run(s, t).readable.waiters, Run(s, t).threads)
    ensures InTurn(s.writable.waiters, Run(s, t).writable.waiters, Run(s, t).threads)
  {
    hide PostReadable, PostWritable, InTurn, Queue, Sum, Sane, Drain;
    Still(s.readable.waiters, Run(s, t).threads);
    Still(s.writable.waiters, Run(s, t).threads);
    match s.threads[t]
    case PullCheck(count, waited, nonblock) => DrainSpares(s, t, count, waited, nonblock);
    case PullPost(left, taken) => PostsInTurn(s, t, PullPost(if left == 0 then 0 else left - 1, taken));
    case PullRepost => PostsInTurn(s, t, Idle(Moved(0)));
    case PullWait(count) => WaitsInTurn(s.readable.waiters, t, Run(s, t).threads);
    case PushWait(bytes, put) => WaitsInTurn(s.writable.waiters, t, Run(s, t).threads);
    case PushPost(bytes, put) => PostsInTurn(s, t, NextPush(bytes, put));
    case TryGiveBack(why, put) => PostsInTurn(s, t, Stopped(why, put));
    case TryPost(bytes, put) => PostsInTurn(s, t, NextTry(bytes, put));
    case DropPost => PostsInTurn(s, t, Idle(Moved(0)));
    case _ =>
  }

  lemma DrainSpares(s: State, t: nat, count: nat, waited: bool, nonblock: bool)
    requires t < |s.threads|
    ensures Drain(s, t, count, waited, nonblock).readable == s.readable
    ensures Drain(s, t, count, waited, nonblock).writable == s.writable
  {
  }

  lemma Still(q: seq<nat>, threads: seq<Pc>)
    ensures InTurn(q, q, threads)
  {
  }

  lemma WaitsInTurn(q: seq<nat>, t: nat, threads: seq<Pc>)
    ensures InTurn(q, q + [t], threads)
  {
  }

  /** Both semaphores serve first come, first served, at every step of every run. */
  lemma FirstComeFirstServed(s: State, e: Event)
    requires Reachable(s) && Enabled(s, e)
    ensures InTurn(s.readable.waiters, Next(s, e).readable.waiters, Next(s, e).threads)
    ensures InTurn(s.writable.waiters, Next(s, e).writable.waiters, Next(s, e).threads)
  {
    hide Reachable, InvShort, PostReadable, PostWritable, InTurn;
    ReachableHolds(s);
    Still(s.readable.waiters, Next(s, e).threads);
    Still(s.writable.waiters, Next(s, e).threads);
    if e.Advance? {
      AdvanceInTurn(s, e.t);
    }
  }
}
