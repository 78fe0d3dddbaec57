/**
 Whose bytes a pipe carries. A bystander keeps a log of any run: the calls begun, what each was
 answered, and for every byte pushed or popped the call that moved it. The log is written from the
 events and from what the pipe's record grew by, never from what a thread believes it has done.
 */
module PipeCalls {
  import opened Wrappers
  import opened Pipe
  import PipeRuns

  /** How a thread may find the pipe when it takes a step, and `Drained`: how its step leaves it. */
  datatype Sight = NoWriter | NoByte | NoReader | NoPlace | Drained

  /** A call of thread `t`, how it found the pipe at its steps so far, and its answer once it has returned. */
  datatype Entry = Entry(t: nat, call: Call, seen: set<Sight>, answer: Option<Outcome>)

  /** All calls in the order begun, each thread's newest, and the call behind every byte pushed and popped. */
  datatype Log = Log(calls: seq<Entry>, newest: map<nat, nat>, givers: seq<nat>, takers: seq<nat>)

  const BLANK: Log := Log([], map[], [], [])

  /** `NoWriter` is end of file, neither byte nor writer; `NoByte` is an empty ring that a writer may still fill. */
  function Sights(s: State, s': State): set<Sight> {
    (if s.ring == [] && s.writers == 0 then {NoWriter} else {})
    + (if s.ring == [] && s.writers > 0 then {NoByte} else {})
    + (if s.readers == 0 then {NoReader} else {})
    + (if s.writable.count == 0 then {NoPlace} else {})
    + (if s'.ring == [] then {Drained} else {})
  }

  function Times(n: int, c: nat): seq<nat> {
    if n > 0 then seq(n, _ => c) else []
  }

  /** A step of thread `t`: the bytes it moved are put down to the thread's newest call. */
  function Note(log: Log, s: State, t: nat, s': State): Log {
    if t !in log.newest || log.newest[t] >= |log.calls| || t >= |s'.threads| then log
    else
      var c := log.newest[t];
      var seen := log.calls[c].(seen := log.calls[c].seen + Sights(s, s'));
      var entry := if s'.threads[t].Idle? then seen.(answer := Some(s'.threads[t].last)) else seen;
      log.(calls := log.calls[c := entry], givers := log.givers + Times(|s'.pushed| - |s.pushed|, c),
           takers := log.takers + Times(|s'.popped| - |s.popped|, c))
  }

  function Watch(log: Log, s: State, e: Event, s': State): Log {
    match e
    case Begin(t, call) =>
      Note(log.(calls := log.calls + [Entry(t, call, {}, None)], newest := log.newest[t := |log.calls|]), s, t, s')
    case Advance(t) => Note(log, s, t, s')
    case _ => log
  }

  /** The log of a run. */
  function Chronicle(log: Log, s: State, events: seq<Event>): Log
    decreases |events|
  {
    if events == [] || !Enabled(s, events[0]) then log
    else var s' := Next(s, events[0]); Chronicle(Watch(log, s, events[0], s'), s', events[1..])
  }

  // ------------------------------------------------------------------ the bytes of one call

  /** The bytes that call `c` moved, in order. */
  function Of(bytes: seq<Byte>, who: seq<nat>, c: nat): seq<Byte>
    requires |bytes| == |who|
  {
    if bytes == [] then []
    else
      var n := |bytes| - 1;
      Of(bytes[..n], who[..n], c) + (if who[n] == c then [bytes[n]] else [])
  }

  lemma {:induction false} OfMore(bytes: seq<Byte>, who: seq<nat>, more: seq<Byte>, mover: nat, c: nat)
    requires |bytes| == |who|
    ensures Of(bytes + more, who + Times(|more|, mover), c) == Of(bytes, who, c) + (if mover == c then more else [])
  {
    var all, names := bytes + more, who + Times(|more|, mover);
    if more == [] {
      assert all == bytes && names == who;
    } else {
      var n := |more| - 1;
      OfMore(bytes, who, more[..n], mover, c);
      assert all[..|all| - 1] == bytes + more[..n] && names[..|all| - 1] == who + Times(n, mover);
      assert more == more[..n] + [more[n]];
    }
  }

  lemma {:induction false} OfFront(bytes: seq<Byte>, who: seq<nat>, c: nat, i: nat)
    requires |bytes| == |who| && i <= |bytes|
    ensures Of(bytes[..i], who[..i], c) <= Of(bytes, who, c)
  {
    if i == |bytes| {
      assert bytes[..i] == bytes && who[..i] == who;
    } else {
      var n := |bytes| - 1;
      OfFront(bytes[..n], who[..n], c, i);
      assert bytes[..n][..i] == bytes[..i] && who[..n][..i] == who[..i];
    }
  }

  /** No call made yet has bytes. */
  lemma {:induction false} OfNobody(bytes: seq<Byte>, who: seq<nat>, c: nat)
    requires |bytes| == |who| && forall i :: 0 <= i < |who| ==> who[i] != c
    ensures Of(bytes, who, c) == []
  {
    if bytes == [] {
    } else {
      OfNobody(bytes[..|bytes| - 1], who[..|bytes| - 1], c);
    }
  }

  // ------------------------------------------------------------------ what a call is owed

  /** A call that has returned moved what its answer says: `given` into the pipe, `took` out of it. */
  ghost predicate Answered(call: Call, answer: Outcome, given: seq<Byte>, took: seq<Byte>, seen: set<Sight>) {
    match call
    case Pull(count, nonblock) => given == [] && (
      match answer
      case Moved(n) =>
        |took| == n <= count && (n < count ==> Drained in seen) && (n == 0 < count ==> NoWriter in seen)
      case WouldBlock => took == [] && nonblock && count > 0 && NoByte in seen
      case _ => false)
    case Push(bytes) => took == [] && answer == Moved(|bytes|) && given == bytes
    case TryPush(bytes) => took == [] && (
      match answer
      case Moved(n) =>
        && n <= |bytes| && given == bytes[..n] && (n == 0 ==> bytes == [])
        && (n < |bytes| ==> NoReader in seen || NoPlace in seen)
      case WouldBlock => given == [] && bytes != [] && NoPlace in seen
      case BrokenPipe => given == [] && bytes != [] && NoReader in seen
      case NoRoom => false)
    case DropWriter => given == [] && took == []
  }

  /** A call under way has moved a first part of what it may move. */
  ghost predicate UnderWay(call: Call, given: seq<Byte>, took: seq<Byte>) {
    match call
    case Pull(count, nonblock) => given == [] && |took| <= count
    case Push(bytes) => given <= bytes && took == []
    case TryPush(bytes) => given <= bytes && took == []
    case DropWriter => given == [] && took == []
  }

  ghost predicate Honoured(entry: Entry, given: seq<Byte>, took: seq<Byte>) {
    if entry.answer.Some? then Answered(entry.call, entry.answer.value, given, took, entry.seen)
    else UnderWay(entry.call, given, took)
  }

  /** What is left to push is what was offered without the bytes given. */
  ghost predicate Parted(bytes: seq<Byte>, given: seq<Byte>, rest: seq<Byte>, put: nat) {
    bytes == given + rest && put == |given|
  }

  /** The stage of a thread fits its call. */
  ghost predicate Fits(pc: Pc, call: Call, given: seq<Byte>, took: seq<Byte>, seen: set<Sight>) {
    match call
    case Pull(count, nonblock) => given == [] && (
      match pc
      case PullCheck(n, waited, flag) => took == [] && n == count && (if waited then !nonblock else flag == nonblock)
      case PullPost(_, taken) => |took| == taken && 0 < taken <= count && (taken < count ==> Drained in seen)
      case PullRepost => took == [] && NoWriter in seen && Drained in seen
      case PullWait(n) => took == [] && n == count && !nonblock
      case PullParked(n) => took == [] && n == count && !nonblock
      case _ => false)
    case Push(bytes) => took == [] && (
      match pc
      case PushWait(rest, put) => Parted(bytes, given, rest, put)
      case PushParked(rest, put) => Parted(bytes, given, rest, put)
      case PushPut(rest, put) => Parted(bytes, given, rest, put)
      case PushPost(rest, put) => Parted(bytes, given, rest, put)
      case _ => false)
    case TryPush(bytes) => took == [] && (
      match pc
      case TryCensus(rest, put) => Parted(bytes, given, rest, put)
      case TryWait(rest, put) => Parted(bytes, given, rest, put)
      case TryPut(rest, put) => Parted(bytes, given, rest, put)
      case TryGiveBack(why, put) => why == BrokenPipe && given < bytes && put == |given| && NoReader in seen
      case TryPost(rest, put) => Parted(bytes, given, rest, put) && put > 0
      case _ => false)
    case DropWriter => given == [] && took == [] && pc.DropPost?
  }

  ghost predicate Stands(pc: Pc, call: Call, given: seq<Byte>, took: seq<Byte>, seen: set<Sight>) {
    if pc.Idle? then Answered(call, pc.last, given, took, seen) else Fits(pc, call, given, took, seen)
  }

  lemma FitsIsUnderWay(pc: Pc, call: Call, given: seq<Byte>, took: seq<Byte>, seen: set<Sight>)
    requires Fits(pc, call, given, took, seen)
    ensures UnderWay(call, given, took)
  {
  }

  // ------------------------------------------------------------------ one step

  /** A post moves no byte and leaves a thread where it was, or wakes it. */
  lemma PostsSpare(s: State, q: nat)
    requires q < |s.threads|
    ensures forall s' :: s' == PostReadable(s) || s' == PostWritable(s) ==>
                           && |s'.threads| == |s.threads| && s'.ring == s.ring
                           && s'.pushed == s.pushed && s'.popped == s.popped
                           && (s'.threads[q] == s.threads[q] || s'.threads[q] == Woken(s.threads[q]))
  {
  }

  /** What a step of thread `t` does to the bytes and to `t`. */
  ghost predicate Moves(s: State, t: nat, s': State, call: Call, given: seq<Byte>, took: seq<Byte>, seen: set<Sight>) {
    && t < |s'.threads| == |s.threads| && s.pushed <= s'.pushed && s.popped <= s'.popped
    && Stands(s'.threads[t], call, given + s'.pushed[|s.pushed|..], took + s'.popped[|s.popped|..],
              seen + Sights(s, s'))
  }

  /** A thread moves to `pc`, no byte moves, and perhaps a semaphore is posted. */
  lemma MovesTo(s: State, t: nat, s1: State, pc: Pc, call: Call, given: seq<Byte>, took: seq<Byte>, seen: set<Sight>)
    requires t < |s.threads| && !Parked(pc) && Stands(pc, call, given, took, seen + Sights(s, s1))
    requires s1.ring == s.ring && s1.pushed == s.pushed && s1.popped == s.popped && s1.threads == s.threads[t := pc]
    ensures Moves(s, t, s1, call, given, took, seen)
    ensures Moves(s, t, PostReadable(s1), call, given, took, seen)
    ensures Moves(s, t, PostWritable(s1), call, given, took, seen)
  {
    hide Stands;
    PostsSpare(s1, t);
    assert given + s.pushed[|s.pushed|..] == given && took + s.popped[|s.popped|..] == took;
  }

  lemma PullMoves(s: State, t: nat, call: Call, given: seq<Byte>, took: seq<Byte>, seen: set<Sight>)
    requires t < |s.threads| && CanRun(s.threads[t]) && call.Pull? && Fits(s.threads[t], call, given, took, seen)
    requires PipeRuns.Sane(s.threads[t], s.hadWriter)
    ensures Moves(s, t, Run(s, t), call, given, took, seen)
  {
    hide PostReadable, PostWritable;
    match s.threads[t]
    case PullPost(left, taken) =>
      var pc := if left == 0 then Idle(Moved(taken)) else PullPost(left - 1, taken);
      MovesTo(s, t, To(s, t, pc), pc, call, given, took, seen);
    case PullRepost => MovesTo(s, t, To(s, t, Idle(Moved(0))), Idle(Moved(0)), call, given, took, seen);
    case _ =>
  }

  /** A put is one byte: what was left to push loses its first byte, the record gains it. */
  lemma PutMoves(s: State, t: nat, call: Call, given: seq<Byte>, took: seq<Byte>, seen: set<Sight>,
          rest: seq<Byte>, pc: Pc)
    requires t < |s.threads| && rest != [] && |s.ring| < PIPE_BYTES && !Parked(pc)
    requires Stands(pc, call, given + [rest[0]], took, seen + Sights(s, Fill(s, rest[0])))
    ensures Moves(s, t, To(Fill(s, rest[0]), t, pc), call, given, took, seen)
  {
    hide Stands;
    assert (s.pushed + [rest[0]])[|s.pushed|..] == [rest[0]];
    assert took + s.popped[|s.popped|..] == took;
  }

  lemma OneLess(bytes: seq<Byte>, given: seq<Byte>, rest: seq<Byte>, put: nat)
    requires Parted(bytes, given, rest, put) && rest != []
    ensures given < bytes && put == |given|
    ensures Parted(bytes, given + [rest[0]], rest[1..], put + 1)
  {
    assert rest == [rest[0]] + rest[1..];
  }

  lemma NoneLeft(bytes: seq<Byte>, given: seq<Byte>, put: nat)
    requires Parted(bytes, given, [], put)
    ensures given == bytes == bytes[..put] && put == |bytes|
  {
  }

  lemma PushMoves(s: State, t: nat, call: Call, given: seq<Byte>, took: seq<Byte>, seen: set<Sight>)
    requires PipeRuns.Inv(s)
    requires t < |s.threads| && CanRun(s.threads[t]) && call.Push? && Fits(s.threads[t], call, given, took, seen)
    ensures Moves(s, t, Run(s, t), call, given, took, seen)
  {
    hide PostReadable, PostWritable, Parted, Fill, PipeRuns.Sum, PipeRuns.Queue;
    assert PipeRuns.Sane(s.threads[t], s.hadWriter);
    match s.threads[t]
    case PushPut(rest, put) =>
      PipeRuns.PutHasRoom(s, t);
      OneLess(call.bytes, given, rest, put);
      PutMoves(s, t, call, given, took, seen, rest, PushPost(rest[1..], put + 1));
    case PushPost(rest, put) =>
      if rest == [] {
        NoneLeft(call.bytes, given, put);
      }
      MovesTo(s, t, To(s, t, NextPush(rest, put)), NextPush(rest, put), call, given, took, seen);
    case PushWait(_, _) =>
      assert given + s.pushed[|s.pushed|..] == given && took + s.popped[|s.popped|..] == took;
  }

  lemma StoppedShort(call: Call, given: seq<Byte>, took: seq<Byte>, seen: set<Sight>, rest: seq<Byte>, put: nat,
          why: Outcome)
    requires call.TryPush? && took == [] && Parted(call.bytes, given, rest, put) && rest != []
    requires (why == WouldBlock && NoPlace in seen) || (why == BrokenPipe && NoReader in seen)
    ensures Stands(Stopped(why, put), call, given, took, seen)
  {
    assert call.bytes[..put] == given;
  }

  lemma SightsTell(s: State, s': State)
    ensures (NoReader in Sights(s, s') <==> s.readers == 0) && (NoPlace in Sights(s, s') <==> s.writable.count == 0)
  {
  }

  /** A non-blocking push gives up. */
  lemma TryStops(s: State, t: nat, call: Call, given: seq<Byte>, took: seq<Byte>, seen: set<Sight>)
    requires t < |s.threads| && call.TryPush? && Fits(s.threads[t], call, given, took, seen)
    requires PipeRuns.Sane(s.threads[t], s.hadWriter)
    requires s.threads[t].TryCensus? || s.threads[t].TryWait? || s.threads[t].TryGiveBack?
    ensures Moves(s, t, Run(s, t), call, given, took, seen)
  {
    hide PostReadable, PostWritable, Stopped, Sights, Moves;
    var s' := Run(s, t);
    var all := seen + Sights(s, s');
    SightsTell(s, s');
    match s.threads[t]
    case TryCensus(rest, put) =>
      if s.readers == 0 {
        StoppedShort(call, given, took, all, rest, put, BrokenPipe);
      }
      MovesTo(s, t, s', s'.threads[t], call, given, took, seen);
    case TryWait(rest, put) =>
      if s.writable.count == 0 {
        StoppedShort(call, given, took, all, rest, put, WouldBlock);
      }
      MovesTo(s, t, s', s'.threads[t], call, given, took, seen);
    case TryGiveBack(why, put) =>
      var s1 := To(s, t, Stopped(why, put));
      StoppedShort(call, given, took, seen + Sights(s, s1), call.bytes[|given|..], put, why);
      MovesTo(s, t, s1, Stopped(why, put), call, given, took, seen);
  }

  /** A non-blocking push goes on by one byte. */
  lemma TryPuts(s: State, t: nat, call: Call, given: seq<Byte>, took: seq<Byte>, seen: set<Sight>)
    requires PipeRuns.Inv(s)
    requires t < |s.threads| && call.TryPush? && Fits(s.threads[t], call, given, took, seen)
    requires s.threads[t].TryPut? || s.threads[t].TryPost?
    ensures Moves(s, t, Run(s, t), call, given, took, seen)
  {
    hide PostReadable, PostWritable, Fill, Sights, Parted, Moves, PipeRuns.Sum, PipeRuns.Queue;
    assert PipeRuns.Sane(s.threads[t], s.hadWriter);
    var s' := Run(s, t);
    SightsTell(s, s');
    match s.threads[t]
    case TryPut(rest, put) =>
      PipeRuns.PutHasRoom(s, t);
      OneLess(call.bytes, given, rest, put);
      if s.readers == 0 {
        MovesTo(s, t, s', TryGiveBack(BrokenPipe, put), call, given, took, seen);
      } else {
        PutMoves(s, t, call, given, took, seen, rest, TryPost(rest[1..], put + 1));
      }
    case TryPost(rest, put) =>
      if rest == [] {
        NoneLeft(call.bytes, given, put);
      }
      MovesTo(s, t, To(s, t, NextTry(rest, put)), NextTry(rest, put), call, given, took, seen);
  }

  /** Any step of a thread moves bytes as its call may, and its next stage knows how many. */
  lemma StepMoves(s: State, t: nat, call: Call, given: seq<Byte>, took: seq<Byte>, seen: set<Sight>)
    requires PipeRuns.Inv(s) && t < |s.threads| && CanRun(s.threads[t]) && Fits(s.threads[t], call, given, took, seen)
    ensures Moves(s, t, Run(s, t), call, given, took, seen)
  {
    hide PostReadable, PostWritable, PipeRuns.Sum, PipeRuns.Queue, Moves;
    match call
    case Pull(_, _) =>
      assert PipeRuns.Sane(s.threads[t], s.hadWriter);
      PullMoves(s, t, call, given, took, seen);
    case Push(_) => PushMoves(s, t, call, given, took, seen);
    case TryPush(_) =>
      assert PipeRuns.Sane(s.threads[t], s.hadWriter);
      if s.threads[t].TryPut? || s.threads[t].TryPost? {
        TryPuts(s, t, call, given, took, seen);
      } else {
        TryStops(s, t, call, given, took, seen);
      }
    case DropWriter => MovesTo(s, t, To(s, t, Idle(Moved(0))), Idle(Moved(0)), call, given, took, seen);
  }

  /** A step leaves the other threads where they were, or wakes one. */
  lemma StepSpares(s: State, t: nat, q: nat)
    requires t < |s.threads| && q < |s.threads| && q != t
    ensures |Run(s, t).threads| == |s.threads|
    ensures Run(s, t).threads[q] == s.threads[q] || Run(s, t).threads[q] == Woken(s.threads[q])
  {
    hide PostReadable, PostWritable, Woken, NextPush, NextTry, Stopped, Drain;
    match s.threads[t]
    case PullCheck(count, waited, nonblock) => DrainSparesOthers(s, t, count, waited, nonblock, q);
    case PullPost(left, taken) => PostsSpare(To(s, t, PullPost(if left == 0 then 0 else left - 1, taken)), q);
    case PullRepost => PostsSpare(To(s, t, Idle(Moved(0))), q);
    case PushPost(rest, put) => PostsSpare(To(s, t, NextPush(rest, put)), q);
    case TryGiveBack(why, put) => PostsSpare(To(s, t, Stopped(why, put)), q);
    case TryPost(rest, put) => PostsSpare(To(s, t, NextTry(rest, put)), q);
    case DropPost => PostsSpare(To(s, t, Idle(Moved(0))), q);
    case _ =>
  }

  lemma DrainSparesOthers(s: State, t: nat, count: nat, waited: bool, nonblock: bool, q: nat)
    requires t < |s.threads| && q < |s.threads| && q != t
    ensures |Drain(s, t, count, waited, nonblock).threads| == |s.threads|
    ensures Drain(s, t, count, waited, nonblock).threads[q] == s.threads[q]
  {
  }

  lemma WokenFits(pc: Pc, call: Call, given: seq<Byte>, took: seq<Byte>, seen: set<Sight>)
    requires Fits(pc, call, given, took, seen)
    ensures Fits(Woken(pc), call, given, took, seen)
  {
  }

  // ------------------------------------------------------------------ every run

  /** Every byte has a call behind it. */
  ghost predicate InStep(s: State, log: Log) {
    && |log.givers| == |s.pushed| && |log.takers| == |s.popped|
    && (forall i :: 0 <= i < |log.givers| ==> log.givers[i] < |log.calls|)
    && (forall i :: 0 <= i < |log.takers| ==> log.takers[i] < |log.calls|)
  }

  function Given(s: State, log: Log, c: nat): seq<Byte>
    requires InStep(s, log)
  {
    Of(s.pushed, log.givers, c)
  }

  function Taken(s: State, log: Log, c: nat): seq<Byte>
    requires InStep(s, log)
  {
    Of(s.popped, log.takers, c)
  }

  ghost predicate CallSound(s: State, log: Log, c: nat)
    requires InStep(s, log) && c < |log.calls|
  {
    var entry := log.calls[c];
    match entry.answer
    case Some(answer) => Answered(entry.call, answer, Given(s, log, c), Taken(s, log, c), entry.seen)
    case None =>
      && entry.t < |s.threads| && entry.t in log.newest && log.newest[entry.t] == c
      && Fits(s.threads[entry.t], entry.call, Given(s, log, c), Taken(s, log, c), entry.seen)
  }

  /** A thread's newest call is open just while the thread is busy. */
  ghost predicate ThreadKnown(s: State, log: Log, t: nat)
    requires t < |s.threads|
  {
    if t !in log.newest then s.threads[t].Idle?
    else
      && log.newest[t] < |log.calls| && log.calls[log.newest[t]].t == t
      && (log.calls[log.newest[t]].answer.None? <==> !s.threads[t].Idle?)
  }

  ghost predicate NewestLast(log: Log) {
    forall c :: 0 <= c < |log.calls| ==> log.calls[c].t in log.newest && c <= log.newest[log.calls[c].t]
  }

  /** The bytes of one thread's calls lie in the order of the calls. */
  ghost predicate InTurn(log: Log) {
    forall i, j :: 0 <= i < j < |log.givers| && SameThread(log, log.givers[i], log.givers[j]) ==>
                     log.givers[i] <= log.givers[j]
  }

  ghost predicate SameThread(log: Log, c: nat, d: nat) {
    c < |log.calls| && d < |log.calls| && log.calls[c].t == log.calls[d].t
  }

  ghost predicate Recorded(s: State, log: Log) {
    && InStep(s, log) && NewestLast(log) && InTurn(log)
    && (forall t :: 0 <= t < |s.threads| ==> ThreadKnown(s, log, t))
    && (forall c :: 0 <= c < |log.calls| ==> CallSound(s, log, c))
  }

  /** A thread has moved bytes for its call `c`; all other calls stand as before. */
  lemma NoteKeeps(s: State, log: Log, t: nat, c: nat, s': State)
    requires InStep(s, log) && t < |s.threads| && t in log.newest && log.newest[t] == c < |log.calls|
    requires s.pushed <= s'.pushed && s.popped <= s'.popped && |s'.threads| == |s.threads|
    ensures var log' := Note(log, s, t, s');
            && InStep(s', log')
            && Given(s', log', c) == Given(s, log, c) + s'.pushed[|s.pushed|..]
            && Taken(s', log', c) == Taken(s, log, c) + s'.popped[|s.popped|..]
            && forall d :: d != c ==> Given(s', log', d) == Given(s, log, d) && Taken(s', log', d) == Taken(s, log, d)
  {
    hide Of;
    var more, less := s'.pushed[|s.pushed|..], s'.popped[|s.popped|..];
    assert s'.pushed == s.pushed + more && s'.popped == s.popped + less;
    forall d
      ensures Of(s'.pushed, log.givers + Times(|more|, c), d)
              == Of(s.pushed, log.givers, d) + (if c == d then more else [])
      ensures Of(s'.popped, log.takers + Times(|less|, c), d)
              == Of(s.popped, log.takers, d) + (if c == d then less else [])
    {
      OfMore(s.pushed, log.givers, more, c, d);
      OfMore(s.popped, log.takers, less, c, d);
    }
  }

  lemma NoteInTurn(s: State, log: Log, t: nat, s': State)
    requires InTurn(log) && NewestLast(log) && t in log.newest && log.newest[t] < |log.calls|
    requires log.calls[log.newest[t]].t == t
    ensures InTurn(Note(log, s, t, s')) && NewestLast(Note(log, s, t, s'))
  {
    var log' := Note(log, s, t, s');
    forall i, j | 0 <= i < j < |log'.givers| && SameThread(log', log'.givers[i], log'.givers[j])
      ensures log'.givers[i] <= log'.givers[j]
    {
      assert SameThread(log, log'.givers[i], log'.givers[j]);
    }
  }

  lemma WokenStays(pc: Pc)
    ensures Woken(pc).Idle? <==> pc.Idle?
    ensures Woken(pc).Idle? ==> Woken(pc) == pc
  {
  }

  lemma AdvanceKeeps(s: State, log: Log, t: nat)
    requires PipeRuns.Inv(s) && Recorded(s, log) && t < |s.threads| && CanRun(s.threads[t])
    ensures Recorded(Run(s, t), Note(log, s, t, Run(s, t)))
  {
    hide Run, PipeRuns.InvShort, Given, Taken, Fits, Answered, Woken, InTurn, NewestLast;
    assert ThreadKnown(s, log, t);
    var c, s' := log.newest[t], Run(s, t);
    var log' := Note(log, s, t, s');
    assert CallSound(s, log, c);
    StepMoves(s, t, log.calls[c].call, Given(s, log, c), Taken(s, log, c), log.calls[c].seen);
    NoteKeeps(s, log, t, c, s');
    NoteInTurn(s, log, t, s');
    forall q | 0 <= q < |s'.threads|
      ensures ThreadKnown(s', log', q)
    {
      assert ThreadKnown(s, log, q);
      if q != t {
        StepSpares(s, t, q);
        WokenStays(s.threads[q]);
      }
    }
    forall d | 0 <= d < |log'.calls|
      ensures CallSound(s', log', d)
    {
      assert CallSound(s, log, d);
      if d != c && log.calls[d].answer.None? {
        var q := log.calls[d].t;
        StepSpares(s, t, q);
        WokenFits(s.threads[q], log.calls[d].call, Given(s, log, d), Taken(s, log, d), log.calls[d].seen);
      }
    }
  }

  /** A call begins with nothing moved. */
  lemma BeginStands(s: State, t: nat, call: Call)
    requires Enabled(s, Begin(t, call))
    ensures var s' := Next(s, Begin(t, call));
            && s'.pushed == s.pushed && s'.popped == s.popped && Stands(s'.threads[t], call, [], [], Sights(s, s'))
            && |s'.threads| == |s.threads|
            && forall q :: 0 <= q < |s.threads| && q != t ==> s'.threads[q] == s.threads[q]
  {
  }

  lemma BeginKeeps(s: State, log: Log, t: nat, call: Call)
    requires Recorded(s, log) && Enabled(s, Begin(t, call))
    ensures var s' := Next(s, Begin(t, call)); Recorded(s', Watch(log, s, Begin(t, call), s'))
  {
    hide Next, Of, Fits, Answered;
    var s', c := Next(s, Begin(t, call)), |log.calls|;
    var log1 := log.(calls := log.calls + [Entry(t, call, {}, None)], newest := log.newest[t := c]);
    var log' := Note(log1, s, t, s');
    BeginStands(s, t, call);
    assert InStep(s, log1) && InTurn(log1);
    assert NewestLast(log1) by {
      if t in log.newest {
        assert ThreadKnown(s, log, t);
      }
    }
    OfNobody(s.pushed, log.givers, c);
    OfNobody(s.popped, log.takers, c);
    NoteKeeps(s, log1, t, c, s');
    NoteInTurn(s, log1, t, s');
    forall q | 0 <= q < |s'.threads|
      ensures ThreadKnown(s', log', q)
    {
      assert ThreadKnown(s, log, q);
    }
    forall d | 0 <= d < |log'.calls|
      ensures CallSound(s', log', d)
    {
      if d == c {
        assert {} + Sights(s, s') == Sights(s, s');
      } else {
        assert CallSound(s, log, d);
        assert log'.calls[d] == log.calls[d];
        if log.calls[d].answer.None? {
          assert ThreadKnown(s, log, log.calls[d].t) && ThreadKnown(s, log, t);
        }
      }
    }
  }

  lemma WatchKeeps(s: State, log: Log, e: Event)
    requires PipeRuns.Inv(s) && Recorded(s, log) && Enabled(s, e)
    ensures Recorded(Next(s, e), Watch(log, s, e, Next(s, e)))
  {
    hide Note, Run, Fits, Answered, Of, PipeRuns.InvShort;
    match e
    case Begin(t, call) => BeginKeeps(s, log, t, call);
    case Advance(t) => AdvanceKeeps(s, log, t);
    case _ => StillKeeps(s, log, Next(s, e));
  }

  /** Opening and closing ends moves neither bytes nor threads. */
  lemma StillKeeps(s: State, log: Log, s': State)
    requires Recorded(s, log) && s'.threads == s.threads && s'.pushed == s.pushed && s'.popped == s.popped
    ensures Recorded(s', log)
  {
    hide Fits, Answered, Of, InTurn, NewestLast;
    forall t | 0 <= t < |s'.threads|
      ensures ThreadKnown(s', log, t)
    {
      assert ThreadKnown(s, log, t);
    }
    forall c | 0 <= c < |log.calls|
      ensures CallSound(s', log, c)
    {
      assert CallSound(s, log, c);
    }
  }

  lemma {:induction false} ChronicleKeeps(s: State, log: Log, events: seq<Event>, s': State)
    requires PipeRuns.Inv(s) && Recorded(s, log) && Steps(s, events, s')
    ensures Recorded(s', Chronicle(log, s, events))
    decreases |events|
  {
    hide Recorded, Watch, PipeRuns.Inv, Next, Enabled;
    if events == [] {
    } else {
      var s1 := Next(s, events[0]);
      WatchKeeps(s, log, events[0]);
      PipeRuns.NextKeeps(s, events[0]);
      ChronicleKeeps(s1, Watch(log, s, events[0], s1), events[1..], s');
    }
  }

  // ------------------------------------------------------------------ the main results

  /**
   In every interleaving of any threads: a push that has returned put in exactly the bytes it was
   offered, in order, and says so; a non-blocking push put in just the first bytes it counts; a read took
   out as many bytes as it counts, at most what it asked for; and a call under way has moved a first part.
   */
  lemma EveryCallMovesItsBytes(threads: nat, events: seq<Event>, s: State)
    requires Steps(Fresh(threads), events, s)
    ensures var log := Chronicle(BLANK, Fresh(threads), events);
            && InStep(s, log) && InTurn(log)
            && forall c :: 0 <= c < |log.calls| ==> Honoured(log.calls[c], Given(s, log, c), Taken(s, log, c))
  {
    hide Given, Taken, Answered, UnderWay, Fits, PipeRuns.Inv, InTurn, Chronicle;
    var log := Chronicle(BLANK, Fresh(threads), events);
    PipeRuns.FreshHolds(threads);
    BlankRecorded(threads);
    ChronicleKeeps(Fresh(threads), BLANK, events, s);
    forall c | 0 <= c < |log.calls|
      ensures Honoured(log.calls[c], Given(s, log, c), Taken(s, log, c))
    {
      assert CallSound(s, log, c);
      if log.calls[c].answer.None? {
        FitsIsUnderWay(s.threads[log.calls[c].t], log.calls[c].call, Given(s, log, c), Taken(s, log, c),
                       log.calls[c].seen);
      }
    }
  }

  lemma BlankRecorded(threads: nat)
    ensures Recorded(Fresh(threads), BLANK)
  {
    assert forall t :: 0 <= t < threads ==> ThreadKnown(Fresh(threads), BLANK, t);
  }

  /** What a writing call was offered. */
  function Offered(call: Call): seq<Byte> {
    match call
    case Push(bytes) => bytes
    case TryPush(bytes) => bytes
    case _ => []
  }

  /**
   From end to end: byte `i` to come out of the pipe is byte `k` of what some call was offered, where `k`
   is the number of bytes of that call that came out before.
   */
  lemma BytesComeFromCalls(threads: nat, events: seq<Event>, s: State, i: nat)
    requires Steps(Fresh(threads), events, s) && i < |s.popped|
    ensures var log := Chronicle(BLANK, Fresh(threads), events);
            && |s.popped| <= |log.givers| && log.givers[i] < |log.calls|
            && var c := log.givers[i];
               var k := |Of(s.popped[..i], log.givers[..i], c)|;
               k < |Offered(log.calls[c].call)| && s.popped[i] == Offered(log.calls[c].call)[k]
  {
    hide Of, Chronicle;
    var log := Chronicle(BLANK, Fresh(threads), events);
    EveryCallMovesItsBytes(threads, events, s);
    PipeRuns.FirstInFirstOut(s);
    var c, given := log.givers[i], Given(s, log, log.givers[i]);
    assert s.popped[..i] == s.pushed[..i] && s.popped[i] == s.pushed[i];
    OfFront(s.pushed, log.givers, c, i + 1);
    OfNext(s.pushed, log.givers, i);
    assert Honoured(log.calls[c], given, Taken(s, log, c));
    assert given <= Offered(log.calls[c].call);
  }

  lemma OfNext(bytes: seq<Byte>, who: seq<nat>, i: nat)
    requires |bytes| == |who| && i < |bytes|
    ensures Of(bytes[..i + 1], who[..i + 1], who[i]) == Of(bytes[..i], who[..i], who[i]) + [bytes[i]]
  {
    assert bytes[..i + 1][..i] == bytes[..i] && who[..i + 1][..i] == who[..i];
  }
}
