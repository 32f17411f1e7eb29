/** The in-memory pipe: one slot, guarded by a mutex, with a lock per side and a condition per
    side.  A step is one critical section under the mutex: from taking it to waiting or leaving. */
module Pipe {
  import opened Text

  type Msg = string

  datatype Err = ClosedPipe | EOF | Custom(text: string)

  /** A call that has the write lock: about to enter, or waiting with the error it would return;
      woken once its condition has been signalled. */
  datatype Writer = NoWriter | Entering(m: Msg) | Sleeping(err: Option<Err>, woken: bool)

  datatype Reader = NoReader | Arriving | Dozing(woken: bool)

  /** How a send ended: the error returned, None for nil. */
  datatype State = State(msg: Option<Msg>, rerr: Option<Err>, werr: Option<Err>, writer: Writer, reader: Reader,
                         sent: seq<Msg>, got: seq<nat>, results: map<nat, Option<Err>>)

  // sent lists the messages in the order their senders got the write lock, got the positions
  // in sent of the messages readers received, and results what each finished send returned.

  function Init(): State {
    State(None, None, None, NoWriter, NoReader, [], [], map[])
  }

  /** The position of the send that holds, or last held, the write lock. */
  function Current(s: State): nat {
    if s.sent == [] then 0 else |s.sent| - 1
  }

  function SignalReader(r: Reader): Reader {
    if r.Dozing? then Dozing(true) else r
  }

  function SignalWriter(w: Writer): Writer {
    if w.Sleeping? then Sleeping(w.err, true) else w
  }

  /** psend's loop, from its test to the wait or the return. */
  function SendPass(s: State, err: Option<Err>): State
  {
    if s.msg == None then SendReturns(s, err)
    else if s.rerr.Some? then SendReturns(s, s.rerr)
    else s.(writer := Sleeping(if s.werr.Some? then Some(ClosedPipe) else err, false))
  }

  function SendReturns(s: State, err: Option<Err>): State
  {
    s.(msg := None, writer := NoWriter, results := s.results[Current(s) := err])
  }

  /** preceive's loop, from its test to the wait or the return. */
  function ReceivePass(s: State): State
  {
    if s.rerr.Some? then s.(reader := NoReader)
    else if s.msg.Some? then
      s.(msg := None, writer := SignalWriter(s.writer), reader := NoReader, got := s.got + [Current(s)])
    else if s.werr.Some? then s.(reader := NoReader)
    else s.(reader := Dozing(false))
  }

  datatype Event =
    | LockWrite(m: Msg)
    | EnterSend
    | WakeSend
    | LockRead
    | EnterReceive
    | WakeReceive
    | CloseRead(err: Option<Err>)
    | CloseWrite(err: Option<Err>)

  predicate Enabled(s: State, e: Event) {
    match e
    case LockWrite(m) => s.writer.NoWriter?
    case EnterSend => s.writer.Entering?
    case WakeSend => s.writer.Sleeping? && s.writer.woken
    case LockRead => s.reader.NoReader?
    case EnterReceive => s.reader.Arriving?
    case WakeReceive => s.reader.Dozing? && s.reader.woken
    case CloseRead(err) => true
    case CloseWrite(err) => true
  }

  function Step(s: State, e: Event): State
    requires Enabled(s, e)
  {
    match e
    case LockWrite(m) => s.(writer := Entering(m), sent := s.sent + [m])
    case EnterSend => SendPass(s.(msg := Some(s.writer.m), reader := SignalReader(s.reader)), None)
    case WakeSend => SendPass(s, s.writer.err)
    case LockRead => s.(reader := Arriving)
    case EnterReceive => ReceivePass(s)
    case WakeReceive => ReceivePass(s)
    case CloseRead(err) =>
      s.(rerr := Some(if err.None? then ClosedPipe else err.value),
         reader := SignalReader(s.reader), writer := SignalWriter(s.writer))
    case CloseWrite(err) =>
      s.(werr := Some(if err.None? then EOF else err.value),
         reader := SignalReader(s.reader), writer := SignalWriter(s.writer))
  }

  // ---------- what every run keeps ----------

  ghost predicate Ordered(s: State) {
    && (forall i, j :: 0 <= i < j < |s.got| ==> s.got[i] < s.got[j])
    && (forall i :: 0 <= i < |s.got| ==> s.got[i] < |s.sent|)
  }

  /** The slot holds the current sender's message until a reader or the sender empties it. */
  ghost predicate SlotOwned(s: State) {
    && (!s.writer.NoWriter? ==> s.sent != [])
    && (s.writer.Entering? ==> s.writer.m == s.sent[Current(s)] && s.msg == None && Current(s) !in s.got)
    && (s.writer.Sleeping? ==> if Current(s) in s.got then s.msg == None else s.msg == Some(s.sent[Current(s)]))
    && (s.writer.NoWriter? ==> s.msg == None)
  }

  /** Every send but the current one has returned; nil means delivered. */
  ghost predicate ResultsKept(s: State) {
    && (forall k: nat :: k in s.results <==> k < |s.sent| && (s.writer.NoWriter? || k != Current(s)))
    && (forall k :: k in s.results && s.results[k] == None ==> k in s.got)
    && (s.werr == None ==> forall k :: k in s.results && k in s.got ==> s.results[k] == None)
    && (s.writer.Sleeping? && s.writer.err.Some? ==> s.werr.Some? && s.writer.err == Some(ClosedPipe))
  }

  /** No lost wakeup: whoever waits unsignalled has nothing to leave its loop for. */
  ghost predicate NoLostWakeup(s: State) {
    && (s.reader.Dozing? && !s.reader.woken ==> s.rerr == None && s.msg == None && s.werr == None)
    && (s.writer.Sleeping? && !s.writer.woken ==> s.msg.Some? && s.rerr == None)
  }

  ghost predicate Inv(s: State) {
    Ordered(s) && SlotOwned(s) && ResultsKept(s) && NoLostWakeup(s)
  }

  lemma SendPassKeepsInv(s: State, err: Option<Err>)
    requires Ordered(s) && SlotOwned(s) && ResultsKept(s) && s.writer.Sleeping?
    requires s.reader.Dozing? && !s.reader.woken ==> s.rerr == None && s.msg == None && s.werr == None
    requires err.Some? ==> s.werr.Some? && err == Some(ClosedPipe)
    ensures Inv(SendPass(s, err))
  {
  }

  lemma ReceivePassKeepsInv(s: State)
    requires Ordered(s) && SlotOwned(s) && ResultsKept(s)
    requires s.writer.Sleeping? && !s.writer.woken ==> s.msg.Some? && s.rerr == None
    ensures Inv(ReceivePass(s))
  {
    if s.rerr == None && s.msg.Some? { TakenInOrder(s); }
  }

  /** A message that is taken is the last one received. */
  lemma TakenInOrder(s: State)
    requires Ordered(s) && SlotOwned(s) && s.msg.Some?
    ensures s.writer.Sleeping? && Current(s) < |s.sent| && forall k :: k in s.got ==> k < Current(s)
    ensures forall k :: k in s.got + [Current(s)] <==> k in s.got || k == Current(s)
  {
  }

  lemma StepKeepsInv(s: State, e: Event)
    requires Inv(s) && Enabled(s, e)
    ensures Inv(Step(s, e))
  {
    match e
    case LockWrite(m) =>
    case EnterSend =>
      EnterSleeping(s);
      SendPassKeepsInv(Filled(s), None);
    case WakeSend => SendPassKeepsInv(s, s.writer.err);
    case LockRead =>
    case EnterReceive => ReceivePassKeepsInv(s);
    case WakeReceive => ReceivePassKeepsInv(s);
    case CloseRead(err) =>
    case CloseWrite(err) =>
  }

  /** A call that has filled the slot, and waits for nothing yet. */
  function Filled(s: State): State
    requires s.writer.Entering?
  {
    s.(msg := Some(s.writer.m), reader := SignalReader(s.reader), writer := Sleeping(None, true))
  }

  /** The first pass is a pass of such a call. */
  lemma EnterSleeping(s: State)
    requires s.writer.Entering?
    ensures Step(s, EnterSend) == SendPass(Filled(s), None)
  {
  }

  ghost predicate Runnable(s: State, es: seq<Event>)
    decreases |es|
  {
    es == [] || (Enabled(s, es[0]) && Runnable(Step(s, es[0]), es[1..]))
  }

  ghost function Final(s: State, es: seq<Event>): State
    requires Runnable(s, es)
    decreases |es|
  {
    if es == [] then s else Final(Step(s, es[0]), es[1..])
  }

  lemma {:induction false} RunKeepsInv(s: State, es: seq<Event>)
    requires Inv(s) && Runnable(s, es)
    ensures Inv(Final(s, es))
    decreases |es|
  {
    if es != [] {
      StepKeepsInv(s, es[0]);
      RunKeepsInv(Step(s, es[0]), es[1..]);
    }
  }

  // ---------- delivery ----------

  /** From the start, whatever the interleaving: messages are received in write-lock order, each
      at most once, and a send that returned nil was received. */
  lemma EveryRun(es: seq<Event>)
    requires Runnable(Init(), es)
    ensures Inv(Final(Init(), es))
  {
    RunKeepsInv(Init(), es);
  }

  /** A send leaves its loop finding the slot empty exactly when a reader took its message. */
  lemma SendLeavesIffTaken(s: State)
    requires Inv(s) && Enabled(s, WakeSend)
    ensures var t := Step(s, WakeSend);
      && (Current(s) in s.got ==> t.writer == NoWriter && t.results[Current(s)] == s.writer.err)
      && (Current(s) !in s.got && s.rerr.Some? ==> t.writer == NoWriter && t.results[Current(s)] == s.rerr)
      && (Current(s) !in s.got && s.rerr == None ==> t.writer.Sleeping? && t.msg == s.msg)
  {
  }

  /** What a send that has returned left behind is never received later. */
  lemma {:induction false} NothingReceivedAfterReturn(s: State, es: seq<Event>, k: nat)
    requires Inv(s) && Runnable(s, es) && k in s.results
    ensures k in Final(s, es).got <==> k in s.got
    ensures k in Final(s, es).results && Final(s, es).results[k] == s.results[k]
    decreases |es|
  {
    if es != [] {
      var t := Step(s, es[0]);
      StepKeepsInv(s, es[0]);
      assert k in t.got <==> k in s.got;
      NothingReceivedAfterReturn(t, es[1..], k);
    }
  }

  /** The only errors of a send: ClosedPipe for a closed write side, and what the reader's side gave. */
  lemma ErrorOfSend(s: State)
    requires Inv(s) && Enabled(s, WakeSend) && Step(s, WakeSend).writer == NoWriter
    ensures var e := Step(s, WakeSend).results[Current(s)];
      if Current(s) in s.got then e == None || (e == Some(ClosedPipe) && s.werr.Some?) else e == s.rerr && e.Some?
  {
  }

  /** After the read side is closed nothing is received any more. */
  lemma {:induction false} NothingReceivedAfterClose(s: State, es: seq<Event>)
    requires Inv(s) && Runnable(s, es) && s.rerr.Some?
    ensures Final(s, es).got == s.got
    decreases |es|
  {
    if es != [] {
      StepKeepsInv(s, es[0]);
      NothingReceivedAfterClose(Step(s, es[0]), es[1..]);
    }
  }

  /** Send k goes through its loop with its message still in the slot and only the write side closed. */
  predicate SeesWriteClosed(s: State, e: Event, k: nat) {
    && Current(s) == k && s.werr.Some? && s.rerr == None
    && (e.EnterSend? || (e.WakeSend? && s.msg.Some?))
  }

  ghost predicate NeverSeesWriteClosed(s: State, es: seq<Event>, k: nat)
    requires Runnable(s, es)
    decreases |es|
  {
    es == [] || (!SeesWriteClosed(s, es[0], k) && NeverSeesWriteClosed(Step(s, es[0]), es[1..], k))
  }

  /** Send k will return an error, or has. */
  ghost predicate Failing(s: State, k: nat) {
    if k in s.results then s.results[k].Some? else k == Current(s) && s.writer.Sleeping? && s.writer.err.Some?
  }

  /** Nothing but the fate of its message decides what send k returns. */
  ghost predicate Clean(s: State, k: nat) {
    && (k in s.results && k in s.got ==> s.results[k] == None)
    && (k == Current(s) && s.writer.Sleeping? ==> s.writer.err == None)
  }

  /** One step: an error that is recorded stays so, and only such a pass records one. */
  lemma FateStep(s: State, e: Event, k: nat)
    requires Inv(s) && Enabled(s, e)
    ensures Failing(s, k) || SeesWriteClosed(s, e, k) ==> Failing(Step(s, e), k)
    ensures Clean(s, k) && !SeesWriteClosed(s, e, k) ==> Clean(Step(s, e), k)
  {
  }

  lemma {:induction false} FailingForever(s: State, es: seq<Event>, k: nat)
    requires Inv(s) && Runnable(s, es) && Failing(s, k)
    ensures Failing(Final(s, es), k)
    decreases |es|
  {
    if es != [] {
      StepKeepsInv(s, es[0]);
      FateStep(s, es[0], k);
      FailingForever(Step(s, es[0]), es[1..], k);
    }
  }

  lemma {:induction false} FateOfSend(s: State, es: seq<Event>, k: nat)
    requires Inv(s) && Runnable(s, es) && Clean(s, k)
    ensures if NeverSeesWriteClosed(s, es, k) then Clean(Final(s, es), k) else Failing(Final(s, es), k)
    decreases |es|
  {
    if es != [] {
      StepKeepsInv(s, es[0]);
      FateStep(s, es[0], k);
      if SeesWriteClosed(s, es[0], k) {
        FailingForever(Step(s, es[0]), es[1..], k);
      } else {
        FateOfSend(Step(s, es[0]), es[1..], k);
      }
    }
  }

  /** A send returned nil exactly if its message was received and it never went through its loop with
      the message in the slot and only the write side closed; in particular, while the write side is
      open, nil and delivery are the same thing. */
  lemma NilIffDelivered(es: seq<Event>, k: nat)
    requires Runnable(Init(), es) && k in Final(Init(), es).results
    ensures var s := Final(Init(), es);
      && (s.results[k] == None <==> k in s.got && NeverSeesWriteClosed(Init(), es, k))
      && (s.werr == None ==> (s.results[k] == None <==> k in s.got))
  {
    RunKeepsInv(Init(), es);
    FateOfSend(Init(), es, k);
  }

  /** Closing the write side under a waiting sender: its message is still received, and the
      sender is told that the pipe is closed. */
  function CloseUnderSender(m: Msg): seq<Event> {
    [LockWrite(m), EnterSend, CloseWrite(None), WakeSend, LockRead, EnterReceive, WakeSend]
  }

  lemma DeliveredWithError(m: Msg)
    ensures Runnable(Init(), CloseUnderSender(m))
    ensures var s := Final(Init(), CloseUnderSender(m));
      s.got == [0] && s.sent == [m] && s.results == map[0 := Some(ClosedPipe)]
  {
    var es := CloseUnderSender(m);
    var s1 := Step(Init(), es[0]);
    var s2 := Step(s1, es[1]);
    var s3 := Step(s2, es[2]);
    var s4 := Step(s3, es[3]);
    var s5 := Step(s4, es[4]);
    var s6 := Step(s5, es[5]);
    var s7 := Step(s6, es[6]);
    assert Enabled(Init(), es[0]) && Enabled(s1, es[1]) && Enabled(s2, es[2]) && Enabled(s3, es[3]);
    assert Enabled(s4, es[4]) && Enabled(s5, es[5]) && Enabled(s6, es[6]);
    assert s7.got == [0] && s7.sent == [m] && s7.results == map[0 := Some(ClosedPipe)];
    assert Runnable(s7, []) && Final(s7, []) == s7;
    hide Step, Enabled, Init, Runnable, Final;
    FinalOne(s6, es[6], []);
    FinalOne(s5, es[5], es[6..]);
    FinalOne(s4, es[4], es[5..]);
    FinalOne(s3, es[3], es[4..]);
    FinalOne(s2, es[2], es[3..]);
    FinalOne(s1, es[1], es[2..]);
    FinalOne(Init(), es[0], es[1..]);
  }

  lemma FinalOne(s: State, e: Event, es: seq<Event>)
    requires Enabled(s, e) && Runnable(Step(s, e), es)
    ensures Runnable(s, [e] + es) && Final(s, [e] + es) == Final(Step(s, e), es)
  {
    assert ([e] + es)[1..] == es;
  }

  // ---------- what closing tells the other side ----------

  datatype Received = Message(m: Msg) | Failed(err: Err)

  /** What a preceive gets when it runs: a message, an error, or nothing yet. */
  function Outcome(s: State): Option<Received> {
    if s.rerr.Some? then Some(Failed(ClosedPipe))
    else if s.msg.Some? then Some(Message(s.msg.value))
    else if s.werr.Some? then Some(Failed(s.werr.value))
    else None
  }

  ghost predicate NoClose(es: seq<Event>) {
    forall e :: e in es ==> !e.CloseRead? && !e.CloseWrite?
  }

  lemma {:induction false} StaysClosed(s: State, es: seq<Event>)
    requires Runnable(s, es) && NoClose(es)
    ensures Final(s, es).rerr == s.rerr && Final(s, es).werr == s.werr
    decreases |es|
  {
    if es != [] {
      assert es[0] in es && forall e :: e in es[1..] ==> e in es;
      StaysClosed(Step(s, es[0]), es[1..]);
    }
  }

  /** After the write side is closed a reader still gets the message that waits, and otherwise the error
      given, which is the end of the stream if none is. */
  lemma AfterCloseWrite(s: State, err: Option<Err>, es: seq<Event>)
    requires s.rerr == None && Runnable(Step(s, CloseWrite(err)), es) && NoClose(es)
    ensures var t := Final(Step(s, CloseWrite(err)), es);
      Outcome(t) == Some(
        if t.msg.Some? then Message(t.msg.value) else if err == None then Failed(EOF) else Failed(err.value))
  {
    StaysClosed(Step(s, CloseWrite(err)), es);
  }

  /** After the read side is closed a reader gets ClosedPipe, and a sender whose message was not taken
      the error given, which is ClosedPipe too if none is. */
  lemma AfterCloseRead(s: State, err: Option<Err>, es: seq<Event>)
    requires Inv(s) && Runnable(Step(s, CloseRead(err)), es) && NoClose(es)
    ensures var t := Final(Step(s, CloseRead(err)), es);
      && Outcome(t) == Some(Failed(ClosedPipe))
      && (Enabled(t, WakeSend) && Current(t) !in t.got ==>
           Step(t, WakeSend).results[Current(t)] == Some(if err == None then ClosedPipe else err.value))
  {
    StepKeepsInv(s, CloseRead(err));
    RunKeepsInv(Step(s, CloseRead(err)), es);
    StaysClosed(Step(s, CloseRead(err)), es);
  }

  // ---------- waking ----------

  /** A waiting call whose condition holds has been signalled, and leaves when it runs. */
  lemma SignalledAndLeaves(s: State)
    requires Inv(s)
    ensures s.reader.Dozing? && (s.rerr.Some? || s.msg.Some? || s.werr.Some?) ==>
      Enabled(s, WakeReceive) && Step(s, WakeReceive).reader == NoReader
    ensures s.writer.Sleeping? && (s.msg == None || s.rerr.Some?) ==>
      Enabled(s, WakeSend) && Step(s, WakeSend).writer == NoWriter
  {
  }

  /** A sender and a receiver never both wait with nobody to wake them, and a reader that
      arrives at an open pipe takes the waiting sender's message at once. */
  lemma NeverBothAsleep(s: State)
    requires Inv(s)
    ensures !(s.reader == Dozing(false) && s.writer.Sleeping? && !s.writer.woken)
    ensures s.writer.Sleeping? && !s.writer.woken && s.reader.Arriving? ==>
      var t := Step(s, EnterReceive); t.got == s.got + [Current(s)] && t.writer.woken
  {
  }

  // ---------- the shared object ----------

  class InMemoryPipe {
    var msg: Option<Msg>
    var rerr: Option<Err>
    var werr: Option<Err>
    var writer: Writer
    var reader: Reader
    ghost var sent: seq<Msg>
    ghost var got: seq<nat>
    ghost var results: map<nat, Option<Err>>

    ghost function View(): State
      reads this
    {
      State(msg, rerr, werr, writer, reader, sent, got, results)
    }

    constructor ()
      ensures View() == Init()
    {
      msg, rerr, werr, writer, reader := None, None, None, NoWriter, NoReader;
      sent, got, results := [], [], map[];
    }

    method LockWrite(m: Msg)
      requires Enabled(View(), Event.LockWrite(m))
      modifies this
      ensures View() == Step(old(View()), Event.LockWrite(m))
    {
      writer, sent := Entering(m), sent + [m];
    }

    method EnterSend()
      requires Enabled(View(), Event.EnterSend)
      modifies this
      ensures View() == Step(old(View()), Event.EnterSend)
    {
      msg := Some(writer.m);
      if reader.Dozing? {
        reader := Dozing(true);
      }
      SendLoop(None);
    }

    method WakeSend()
      requires Enabled(View(), Event.WakeSend)
      modifies this
      ensures View() == Step(old(View()), Event.WakeSend)
    {
      SendLoop(writer.err);
    }

    /** From the loop test to Wait, or out of the loop. */
    method SendLoop(pending: Option<Err>)
      modifies this
      ensures View() == SendPass(old(View()), pending)
    {
      var err := pending;
      if msg != None {
        if rerr.Some? {
          err := rerr;
        } else {
          if werr.Some? {
            err := Some(ClosedPipe);
          }
          writer := Sleeping(err, false);
          return;
        }
      }
      msg := None;
      writer, results := NoWriter, results[Current(View()) := err];
    }

    method LockRead()
      requires Enabled(View(), Event.LockRead)
      modifies this
      ensures View() == Step(old(View()), Event.LockRead)
    {
      reader := Arriving;
    }

    /** preceive from the loop test to Wait or to its return: None while it waits. */
    method ReceiveLoop() returns (r: Option<Received>)
      modifies this
      ensures View() == ReceivePass(old(View()))
      ensures r == Outcome(old(View())) && (r == None <==> reader.Dozing?)
      ensures r.Some? && r.value.Message? ==> got == old(got) + [old(Current(View()))]
      ensures r.Some? && r.value.Failed? ==> got == old(got) && msg == old(msg)
    {
      if rerr.Some? {
        reader := NoReader;
        return Some(Failed(ClosedPipe));
      }
      if msg == None {
        if werr.Some? {
          reader := NoReader;
          return Some(Failed(werr.value));
        }
        reader := Dozing(false);
        return None;
      }
      var m := msg.value;
      got := got + [Current(View())];
      msg := None;
      if writer.Sleeping? {
        writer := Sleeping(writer.err, true);
      }
      reader := NoReader;
      return Some(Message(m));
    }

    method CloseRead(err: Option<Err>)
      modifies this
      ensures View() == Step(old(View()), Event.CloseRead(err))
    {
      rerr := Some(if err.None? then ClosedPipe else err.value);
      SignalBoth();
    }

    method CloseWrite(err: Option<Err>)
      modifies this
      ensures View() == Step(old(View()), Event.CloseWrite(err))
    {
      werr := Some(if err.None? then EOF else err.value);
      SignalBoth();
    }

    method SignalBoth()
      modifies this`reader, this`writer
      ensures reader == SignalReader(old(reader)) && writer == SignalWriter(old(writer))
    {
      if reader.Dozing? {
        reader := Dozing(true);
      }
      if writer.Sleeping? {
        writer := Sleeping(writer.err, true);
      }
    }
  }

  // ---------- relaying ----------

  /** The messages before the first failure. */
  function Messages(rs: seq<Received>): seq<Msg> {
    if rs == [] || rs[0].Failed? then [] else [rs[0].m] + Messages(rs[1..])
  }

  lemma MessagesFrom(rs: seq<Received>, n: nat)
    requires n < |rs|
    ensures Messages(rs[n..]) == if rs[n].Failed? then [] else [rs[n].m] + Messages(rs[n + 1..])
  {
    assert rs[n..][1..] == rs[n + 1..];
  }

  /** PipeSender.ReceiveFrom: incoming[i] and acks[i] are what its i-th preceive and psend give.
      It relays in order, counts the sends that returned nil, and ends without an error only
      at EOF. */
  method ReceiveFrom(incoming: seq<Received>, acks: seq<Option<Err>>)
    returns (n: nat, err: Option<Err>, relayed: seq<Msg>)
    requires |acks| == |incoming| > 0 && incoming[|incoming| - 1].Failed?
    ensures relayed <= Messages(incoming)
    ensures n < |acks| && forall i :: 0 <= i < n ==> acks[i] == None
    ensures if n < |relayed| then |relayed| == n + 1 && err == acks[n] && err.Some?
      else incoming[n].Failed? && err == (if incoming[n].err == EOF then None else Some(incoming[n].err))
    ensures err == None ==> relayed == Messages(incoming) && n == |relayed|
  {
    n, relayed := 0, [];
    assert incoming[0..] == incoming && Relayed(incoming, 0, []);
    hide Messages, Relayed;
    while true
      invariant n < |incoming| && |relayed| == n
      invariant forall i :: 0 <= i < n ==> acks[i] == None
      invariant Relayed(incoming, n, relayed)
      decreases |incoming| - n
    {
      RelayedNext(incoming, n, relayed);
      if incoming[n].Failed? {
        err := if incoming[n].err == EOF then None else Some(incoming[n].err);
        return;
      }
      relayed := relayed + [incoming[n].m];
      if acks[n].Some? {
        err := acks[n];
        return;
      }
      n := n + 1;
    }
  }

  ghost predicate Relayed(incoming: seq<Received>, n: nat, relayed: seq<Msg>)
    requires n <= |incoming|
  {
    Messages(incoming) == relayed + Messages(incoming[n..])
  }

  /** One message more, or none is left. */
  lemma RelayedNext(incoming: seq<Received>, n: nat, relayed: seq<Msg>)
    requires n < |incoming| && Relayed(incoming, n, relayed)
    ensures incoming[n].Failed? ==> relayed == Messages(incoming)
    ensures incoming[n].Message? ==>
      Relayed(incoming, n + 1, relayed + [incoming[n].m]) && relayed + [incoming[n].m] <= Messages(incoming)
  {
    MessagesFrom(incoming, n);
    hide Messages;
    if incoming[n].Message? {
      Associate(relayed, [incoming[n].m], Messages(incoming[n + 1..]));
    }
  }
}
