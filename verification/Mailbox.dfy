/**
 The mailbox between the clients and the script thread: a ring of messages that forgets its oldest ones, and a sticky
 event the script thread waits on. Any number of producers and one consumer, interleaved at their critical sections.
 */
module Mailbox {
  import opened Bytes

  const MAX_NB_MESSAGES := 64
  const MAX_MESSAGES_SIZE := 512

  // ----- what the critical sections do -----

  /** The first characters of a message, all of them if they fit a slot with its terminator. */
  predicate Shortened(short: string, msg: string)
  {
    short <= msg && |short| == if |msg| <= MAX_MESSAGES_SIZE - 1 then |msg| else MAX_MESSAGES_SIZE - 1
  }

  /** What strncpy leaves of a message in a cleared slot. */
  function Truncate(msg: string): (r: string)
    ensures Shortened(r, msg)
  {
    if |msg| < MAX_MESSAGES_SIZE then msg else msg[..MAX_MESSAGES_SIZE - 1]
  }

  /** All that producers and consumer share. */
  datatype Shared = Shared(queue: seq<string>, signalled: bool, cancelled: bool)

  /** A message joins the queue; of a full queue the oldest message is lost. */
  function Enqueue(s: Shared, msg: string): Shared
  {
    s.(queue := (if |s.queue| == MAX_NB_MESSAGES - 1 then s.queue[1..] else s.queue) + [Truncate(msg)])
  }

  function Dequeue(s: Shared): Shared
    requires s.queue != []
  {
    s.(queue := s.queue[1..])
  }

  /** The messages from outIndex up to inIndex, around the end of the ring. */
  function RingQueue(messages: seq<string>, outIndex: nat, inIndex: nat): (q: seq<string>)
    requires |messages| == MAX_NB_MESSAGES && inIndex < MAX_NB_MESSAGES && outIndex < MAX_NB_MESSAGES
    ensures |q| == (if outIndex <= inIndex then inIndex - outIndex else inIndex + MAX_NB_MESSAGES - outIndex)
  {
    if outIndex <= inIndex then messages[outIndex..inIndex] else messages[outIndex..] + messages[..inIndex]
  }

  /** Taking the message at outIndex takes the oldest one. */
  lemma RingTake(messages: seq<string>, outIndex: nat, inIndex: nat)
    requires |messages| == MAX_NB_MESSAGES && inIndex < MAX_NB_MESSAGES && outIndex < MAX_NB_MESSAGES
    requires outIndex != inIndex
    ensures var q := RingQueue(messages, outIndex, inIndex);
            q == [messages[outIndex]] + RingQueue(messages, (outIndex + 1) % MAX_NB_MESSAGES, inIndex)
  {
    var next := if outIndex == MAX_NB_MESSAGES - 1 then 0 else outIndex + 1;
    assert (outIndex + 1) % MAX_NB_MESSAGES == next;
    RingQueueIs(messages, outIndex, inIndex);
    RingQueueIs(messages, next, inIndex);
    hide RingQueue;
    if outIndex < inIndex {
      TakeAhead(messages, outIndex, inIndex);
    } else if outIndex == MAX_NB_MESSAGES - 1 {
      TakeLast(messages, inIndex);
    } else {
      TakeAround(messages, outIndex, inIndex);
    }
  }

  lemma RingQueueIs(messages: seq<string>, outIndex: nat, inIndex: nat)
    requires |messages| == MAX_NB_MESSAGES && inIndex < MAX_NB_MESSAGES && outIndex < MAX_NB_MESSAGES
    ensures outIndex <= inIndex ==> RingQueue(messages, outIndex, inIndex) == messages[outIndex..inIndex]
    ensures outIndex > inIndex ==> RingQueue(messages, outIndex, inIndex) == messages[outIndex..] + messages[..inIndex]
  {
  }

  lemma TakeLast(messages: seq<string>, inIndex: nat)
    requires inIndex < |messages|
    ensures messages[|messages| - 1..] + messages[..inIndex] == [messages[|messages| - 1]] + messages[0..inIndex]
  {
  }

  lemma TakeAhead(messages: seq<string>, outIndex: nat, inIndex: nat)
    requires outIndex < inIndex <= |messages|
    ensures messages[outIndex..inIndex] == [messages[outIndex]] + messages[outIndex + 1..inIndex]
  {
  }

  lemma TakeAround(messages: seq<string>, outIndex: nat, inIndex: nat)
    requires inIndex < outIndex < |messages|
    ensures messages[outIndex..] + messages[..inIndex]
            == [messages[outIndex]] + (messages[outIndex + 1..] + messages[..inIndex])
  {
    var m, rest := messages[outIndex], messages[..inIndex];
    FirstOf(messages, outIndex);
    assert ([m] + messages[outIndex + 1..]) + rest == [m] + (messages[outIndex + 1..] + rest);
  }

  lemma FirstOf(messages: seq<string>, k: nat)
    requires k < |messages|
    ensures messages[k..] == [messages[k]] + messages[k + 1..]
  {
  }

  /** Storing at inIndex, with outIndex out of the way, adds at the end. */
  lemma RingPut(messages: seq<string>, outIndex: nat, inIndex: nat, msg: string)
    requires |messages| == MAX_NB_MESSAGES && inIndex < MAX_NB_MESSAGES && outIndex < MAX_NB_MESSAGES
    requires (inIndex + 1) % MAX_NB_MESSAGES != outIndex
    ensures RingQueue(messages[inIndex := msg], outIndex, (inIndex + 1) % MAX_NB_MESSAGES)
            == RingQueue(messages, outIndex, inIndex) + [msg]
  {
    var m, next := messages[inIndex := msg], if inIndex == MAX_NB_MESSAGES - 1 then 0 else inIndex + 1;
    assert (inIndex + 1) % MAX_NB_MESSAGES == next;
    RingQueueIs(messages, outIndex, inIndex);
    RingQueueIs(m, outIndex, next);
    hide RingQueue;
    if inIndex == MAX_NB_MESSAGES - 1 {
      PutAtEnd(messages, outIndex, msg);
    } else if outIndex <= inIndex {
      PutAhead(messages, outIndex, inIndex, msg);
    } else {
      PutAround(messages, outIndex, inIndex, msg);
    }
  }

  lemma PutAhead(messages: seq<string>, outIndex: nat, inIndex: nat, msg: string)
    requires outIndex <= inIndex < |messages|
    ensures messages[inIndex := msg][outIndex..inIndex + 1] == messages[outIndex..inIndex] + [msg]
  {
  }

  lemma PutAtEnd(messages: seq<string>, outIndex: nat, msg: string)
    requires outIndex < |messages|
    ensures messages[|messages| - 1 := msg][outIndex..] + messages[|messages| - 1 := msg][..0]
            == messages[outIndex..|messages| - 1] + [msg]
  {
  }

  lemma PutAround(messages: seq<string>, outIndex: nat, inIndex: nat, msg: string)
    requires inIndex < outIndex < |messages|
    ensures messages[inIndex := msg][outIndex..] + messages[inIndex := msg][..inIndex + 1]
            == messages[outIndex..] + messages[..inIndex] + [msg]
  {
  }

  /** In a full ring the oldest message makes room, before the new one is stored. */
  lemma RingFull(messages: seq<string>, outIndex: nat, inIndex: nat, msg: string)
    requires |messages| == MAX_NB_MESSAGES && inIndex < MAX_NB_MESSAGES && outIndex < MAX_NB_MESSAGES
    requires (inIndex + 1) % MAX_NB_MESSAGES == outIndex
    ensures var q := RingQueue(messages, outIndex, inIndex);
            && |q| == MAX_NB_MESSAGES - 1
            && RingQueue(messages[inIndex := msg], (outIndex + 1) % MAX_NB_MESSAGES, outIndex) == q[1..] + [msg]
  {
    hide RingQueue;
    RingTake(messages, outIndex, inIndex);
    RingPut(messages, (outIndex + 1) % MAX_NB_MESSAGES, inIndex, msg);
  }

  class InBuffer {
    const messages: array<string>
    var inIndex: nat
    var outIndex: nat
    var signalled: bool
    var cancelled: bool

    ghost predicate Valid()
      reads this
    {
      messages.Length == MAX_NB_MESSAGES && inIndex < MAX_NB_MESSAGES && outIndex < MAX_NB_MESSAGES
    }

    ghost function View(): Shared
      reads this, messages
      requires Valid()
    {
      Shared(RingQueue(messages[..], outIndex, inIndex), signalled, cancelled)
    }

    constructor ()
      ensures Valid() && fresh(messages) && View() == Shared([], false, false)
    {
      messages := new string[MAX_NB_MESSAGES](_ => "");
      inIndex, outIndex, signalled, cancelled := 0, 0, false, false;
    }

    /** The critical section of msg_push_in_msg. */
    method PushInMsg(msg: string)
      requires Valid()
      modifies this`inIndex, this`outIndex, messages
      ensures Valid() && View() == Enqueue(old(View()), msg)
      ensures View().queue != [] && Shortened(View().queue[|View().queue| - 1], msg)
    {
      hide RingQueue, Truncate;
      if (inIndex + 1) % MAX_NB_MESSAGES == outIndex {
        RingFull(messages[..], outIndex, inIndex, Truncate(msg));
      } else {
        RingPut(messages[..], outIndex, inIndex, Truncate(msg));
      }
      messages[inIndex] := Truncate(msg);
      inIndex := (inIndex + 1) % MAX_NB_MESSAGES;
      if inIndex == outIndex {
        outIndex := (outIndex + 1) % MAX_NB_MESSAGES;
      }
    }

    /** A critical section of msg_in_wait: takes the oldest message, if there is one. */
    method TakeMessage() returns (msg: Option<string>)
      requires Valid()
      modifies this`outIndex
      ensures Valid() && (msg.None? <==> old(View()).queue == [])
      ensures msg.None? ==> View() == old(View())
      ensures msg.Some? ==> msg.value == old(View()).queue[0] && View() == Dequeue(old(View()))
    {
      if outIndex == inIndex {
        return None;
      }
      hide RingQueue;
      RingTake(messages[..], outIndex, inIndex);
      msg := Some(messages[outIndex]);
      outIndex := (outIndex + 1) % MAX_NB_MESSAGES;
    }

    /** The critical section of sendEvent. */
    method SetEvent()
      requires Valid()
      modifies this`signalled
      ensures Valid() && View() == old(View()).(signalled := true)
    {
      signalled := true;
    }

    /** The critical section of cancelEvent. */
    method SetCancelled()
      requires Valid()
      modifies this`cancelled
      ensures Valid() && View() == old(View()).(cancelled := true)
    {
      cancelled := true;
    }

    /** What waitEvent does while it holds its mutex: returns false to go to sleep. */
    method CheckEvent() returns (go: bool)
      requires Valid()
      modifies this`signalled
      ensures Valid() && go == (old(View()).signalled || old(View()).cancelled)
      ensures View() == if go then old(View()).(signalled := false) else old(View())
    {
      go := signalled || cancelled;
      if go {
        signalled := false;
      }
    }
  }

  // ----- interleavings -----

  /** Where a producer is: outside, behind its push, or behind setting the event and before signalling the condition. */
  datatype Producer = Idle | Pushed | Flagged

  /** Where the script thread is in msg_in_wait. */
  datatype Consumer = Start | MustWait | Asleep | Awake | Recheck

  datatype Fate = Delivered | Dropped

  /** The shared state, the threads, and the history of the mailbox. */
  datatype State = State(shared: Shared, producers: seq<Producer>, consumer: Consumer,
                         log: seq<string>, fates: seq<Fate>, delivered: seq<string>)

  datatype Action = Push(i: nat, msg: string) | Flag(i: nat) | Cancel(i: nat) | Signal(i: nat)
                  | Look | Check | SpuriousWakeUp | LookAgain

  function ProducerAt(s: State, i: nat): Option<Producer>
  {
    if i < |s.producers| then Some(s.producers[i]) else None
  }

  function WithProducer(s: State, i: nat, p: Producer): State
    requires i < |s.producers|
  {
    s.(producers := s.producers[i := p])
  }

  /** The consumer takes the oldest message and returns. */
  function Taken(s: State): State
    requires s.shared.queue != []
  {
    s.(shared := Dequeue(s.shared), consumer := Start, fates := s.fates + [Delivered],
       delivered := s.delivered + [s.shared.queue[0]])
  }

  /** One step of one thread; None if the thread is not there. */
  function Step(s: State, a: Action): Option<State>
  {
    match a
    case Push(i, msg) =>
      if ProducerAt(s, i) != Some(Idle) then None
      else
        var lost := if |s.shared.queue| == MAX_NB_MESSAGES - 1 then [Dropped] else [];
        Some(WithProducer(s, i, Pushed).(shared := Enqueue(s.shared, msg), log := s.log + [Truncate(msg)],
                                         fates := s.fates + lost))
    case Flag(i) =>
      if ProducerAt(s, i) != Some(Pushed) then None
      else Some(WithProducer(s, i, Flagged).(shared := s.shared.(signalled := true)))
    case Cancel(i) =>
      if ProducerAt(s, i) != Some(Idle) then None
      else Some(WithProducer(s, i, Flagged).(shared := s.shared.(cancelled := true)))
    case Signal(i) =>
      if ProducerAt(s, i) != Some(Flagged) then None
      else Some(WithProducer(s, i, Idle).(consumer := if s.consumer == Asleep then Awake else s.consumer))
    case Look =>
      if s.consumer != Start then None
      else if s.shared.queue == [] then Some(s.(consumer := MustWait))
      else Some(Taken(s))
    case Check =>
      if s.consumer != MustWait && s.consumer != Awake then None
      else if s.shared.signalled || s.shared.cancelled then
        Some(s.(shared := s.shared.(signalled := false), consumer := Recheck))
      else Some(s.(consumer := Asleep))
    case SpuriousWakeUp =>
      if s.consumer != Asleep then None else Some(s.(consumer := Awake))
    case LookAgain =>
      if s.consumer != Recheck then None
      else if s.shared.queue == [] then Some(s.(consumer := Start))
      else Some(Taken(s))
  }

  function Initial(n: nat): State
  {
    State(Shared([], false, false), seq(n, _ => Idle), Start, [], [], [])
  }

  function Run(s: State, actions: seq<Action>): Option<State>
    decreases |actions|
  {
    if actions == [] then Some(s)
    else
      match Step(s, actions[0])
      case None => None
      case Some(t) => Run(t, actions[1..])
  }

  // ----- what every interleaving keeps -----

  /** The messages with the fate Delivered. */
  function Select(log: seq<string>, fates: seq<Fate>): seq<string>
    requires |fates| <= |log|
    decreases |fates|
  {
    if fates == [] then []
    else
      var n := |fates| - 1;
      Select(log, fates[..n]) + if fates[n] == Delivered then [log[n]] else []
  }

  /**
   The queue is what was pushed last, at most 63 messages; each older message was delivered or dropped, and the
   delivered ones came out in the order in which they went in.
   */
  ghost predicate Fifo(s: State)
  {
    && |s.shared.queue| < MAX_NB_MESSAGES
    && |s.fates| <= |s.log|
    && s.shared.queue == s.log[|s.fates|..]
    && s.delivered == Select(s.log, s.fates)
  }

  predicate Waiting(s: State)
  {
    s.consumer == MustWait || s.consumer == Asleep || s.consumer == Awake
  }

  /** Nobody waits for a message that is there, unless a producer has yet to set the event or to signal it. */
  ghost predicate NoLostWakeUp(s: State)
  {
    && (Waiting(s) && s.shared.queue != [] && !s.shared.signalled && !s.shared.cancelled
        ==> exists i: nat :: ProducerAt(s, i) == Some(Pushed))
    && (s.consumer == Asleep && (s.shared.signalled || s.shared.cancelled)
        ==> exists i: nat :: ProducerAt(s, i) == Some(Flagged))
  }

  lemma {:induction false} SelectPrefix(log: seq<string>, more: seq<string>, fates: seq<Fate>)
    requires |fates| <= |log|
    ensures Select(log + more, fates) == Select(log, fates)
    decreases |fates|
  {
    if fates != [] {
      SelectPrefix(log, more, fates[..|fates| - 1]);
    }
  }

  lemma SelectMore(log: seq<string>, fates: seq<Fate>, f: Fate)
    requires |fates| < |log|
    ensures Select(log, fates + [f]) == Select(log, fates) + if f == Delivered then [log[|fates|]] else []
  {
    assert (fates + [f])[..|fates|] == fates;
  }

  lemma FifoPushed(s: State, msg: string, lost: seq<Fate>)
    requires Fifo(s) && lost == if |s.shared.queue| == MAX_NB_MESSAGES - 1 then [Dropped] else []
    ensures Fifo(s.(shared := Enqueue(s.shared, msg), log := s.log + [Truncate(msg)], fates := s.fates + lost))
  {
    hide Select, Truncate;
    var log := s.log + [Truncate(msg)];
    SelectPrefix(s.log, [Truncate(msg)], s.fates);
    assert log[|s.fates|..] == s.shared.queue + [Truncate(msg)];
    if lost == [Dropped] {
      SelectMore(log, s.fates, Dropped);
      assert log[|s.fates| + 1..] == s.shared.queue[1..] + [Truncate(msg)];
    } else {
      assert s.fates + lost == s.fates;
    }
  }

  lemma FifoTaken(s: State)
    requires Fifo(s) && s.shared.queue != []
    ensures Fifo(Taken(s))
  {
    SelectMore(s.log, s.fates, Delivered);
  }

  lemma StepKeepsFifo(s: State, a: Action)
    requires Fifo(s) && Step(s, a).Some?
    ensures Fifo(Step(s, a).value)
  {
    hide Select;
    match a
    case Push(i, msg) => FifoPushed(s, msg, if |s.shared.queue| == MAX_NB_MESSAGES - 1 then [Dropped] else []);
    case Look => if s.shared.queue != [] { FifoTaken(s); }
    case LookAgain => if s.shared.queue != [] { FifoTaken(s); }
    case _ =>
  }

  lemma StepKeepsWakeUp(s: State, a: Action)
    requires NoLostWakeUp(s) && Step(s, a).Some?
    ensures NoLostWakeUp(Step(s, a).value)
  {
    var t := Step(s, a).value;
    match a
    case Push(i, _) => assert ProducerAt(t, i) == Some(Pushed); StillThere(s, t, i, Flagged);
    case Flag(i) => assert ProducerAt(t, i) == Some(Flagged);
    case Cancel(i) => assert ProducerAt(t, i) == Some(Flagged);
    case Signal(i) => StillThere(s, t, i, Pushed);
    case _ => assert t.producers == s.producers; assert forall i: nat :: ProducerAt(s, i) == ProducerAt(t, i);
  }

  /** A step of one producer leaves the others where they are. */
  lemma StillThere(s: State, t: State, i: nat, p: Producer)
    requires i < |s.producers| && |t.producers| == |s.producers| && s.producers[i] != p
    requires forall k: nat | k < |s.producers| && k != i :: t.producers[k] == s.producers[k]
    ensures (exists k: nat :: ProducerAt(s, k) == Some(p)) ==> exists k: nat :: ProducerAt(t, k) == Some(p)
  {
    if k: nat :| ProducerAt(s, k) == Some(p) {
      assert ProducerAt(t, k) == Some(p);
    }
  }

  lemma {:induction false} RunKeeps(s: State, actions: seq<Action>)
    requires Fifo(s) && NoLostWakeUp(s) && Run(s, actions).Some?
    ensures Fifo(Run(s, actions).value) && NoLostWakeUp(Run(s, actions).value)
    decreases |actions|
  {
    hide Fifo, NoLostWakeUp, Step;
    if actions != [] {
      StepKeepsFifo(s, actions[0]);
      StepKeepsWakeUp(s, actions[0]);
      RunKeeps(Step(s, actions[0]).value, actions[1..]);
    }
  }

  // ----- what became of each message -----

  /**
   Step j of the run decided the fate of message k, which was the oldest in the queue: a push into 63 messages dropped
   it, or the script thread took it.
   */
  ghost predicate Decided(s: State, actions: seq<Action>, j: nat, k: nat, fate: Fate)
  {
    && j < |actions| && Run(s, actions[..j]).Some?
    && var before := Run(s, actions[..j]).value;
       && |before.fates| == k && Fifo(before) && before.shared.queue != []
       && match fate
          case Dropped => actions[j].Push? && |before.shared.queue| == MAX_NB_MESSAGES - 1
          case Delivered => actions[j] == Look || actions[j] == LookAgain
  }

  ghost predicate SomewhereDecided(s: State, actions: seq<Action>, k: nat, fate: Fate)
  {
    exists j: nat :: Decided(s, actions, j, k, fate)
  }

  /** Every fate from the first one on was decided by a step of the run. */
  ghost predicate FatesDecided(s: State, actions: seq<Action>, first: nat, fates: seq<Fate>)
  {
    forall k: nat | first <= k < |fates| :: SomewhereDecided(s, actions, k, fates[k])
  }

  lemma {:induction false} RunLast(s: State, actions: seq<Action>, a: Action)
    ensures Run(s, actions + [a]) == if Run(s, actions).None? then None else Step(Run(s, actions).value, a)
    decreases |actions|
  {
    hide Step;
    if actions == [] {
      assert [] + [a] == [a] && [a][1..] == [];
    } else {
      assert (actions + [a])[1..] == actions[1..] + [a];
      if Step(s, actions[0]).Some? {
        RunLast(Step(s, actions[0]).value, actions[1..], a);
      }
    }
  }

  /** A step decides at most one fate, that of the oldest message. */
  lemma StepDecides(s: State, a: Action)
    requires Fifo(s) && Step(s, a).Some?
    ensures var t := Step(s, a).value;
            && s.fates <= t.fates && |t.fates| <= |s.fates| + 1
            && (|t.fates| > |s.fates| ==>
                  && s.shared.queue != []
                  && match t.fates[|s.fates|]
                     case Dropped => a.Push? && |s.shared.queue| == MAX_NB_MESSAGES - 1
                     case Delivered => a == Look || a == LookAgain)
  {
    hide Select;
  }

  lemma DecidedLater(s: State, actions: seq<Action>, a: Action, k: nat, fate: Fate)
    requires SomewhereDecided(s, actions, k, fate)
    ensures SomewhereDecided(s, actions + [a], k, fate)
  {
    hide Run, Fifo;
    var j: nat :| Decided(s, actions, j, k, fate);
    assert (actions + [a])[..j] == actions[..j];
    assert Decided(s, actions + [a], j, k, fate);
  }

  /** A step decides the fate of the oldest message, or none. */
  lemma DecidedNow(s: State, before: seq<Action>, a: Action)
    requires Run(s, before).Some? && Fifo(Run(s, before).value) && Step(Run(s, before).value, a).Some?
    ensures var s1, t := Run(s, before).value, Step(Run(s, before).value, a).value;
            && s1.fates <= t.fates && |t.fates| <= |s1.fates| + 1
            && (|t.fates| > |s1.fates| ==> SomewhereDecided(s, before + [a], |s1.fates|, t.fates[|s1.fates|]))
  {
    StepDecides(Run(s, before).value, a);
    hide Run, Fifo, Step;
    assert (before + [a])[..|before|] == before;
    var s1, t := Run(s, before).value, Step(Run(s, before).value, a).value;
    if |t.fates| > |s1.fates| {
      assert Decided(s, before + [a], |before|, |s1.fates|, t.fates[|s1.fates|]);
    }
  }

  lemma FatesLater(s: State, before: seq<Action>, a: Action, first: nat, known: seq<Fate>, fates: seq<Fate>)
    requires FatesDecided(s, before, first, known) && known <= fates && |fates| <= |known| + 1
    requires |fates| > |known| ==> SomewhereDecided(s, before + [a], |known|, fates[|known|])
    ensures FatesDecided(s, before + [a], first, fates)
  {
    hide SomewhereDecided;
    forall k: nat | first <= k < |fates|
      ensures SomewhereDecided(s, before + [a], k, fates[k])
    {
      if k < |known| {
        assert fates[k] == known[k];
        DecidedLater(s, before, a, k, known[k]);
      }
    }
  }

  lemma {:induction false} EveryFateDecided(s: State, actions: seq<Action>)
    requires Fifo(s) && NoLostWakeUp(s) && Run(s, actions).Some?
    ensures FatesDecided(s, actions, |s.fates|, Run(s, actions).value.fates)
    decreases |actions|
  {
    if actions == [] {
      NoSteps(s);
    } else {
      hide Run, Fifo, Step, NoLostWakeUp, FatesDecided, SomewhereDecided;
      var n := |actions| - 1;
      var before, a := actions[..n], actions[n];
      assert actions == before + [a];
      RunLast(s, before, a);
      RunKeeps(s, before);
      EveryFateDecided(s, before);
      DecidedNow(s, before, a);
      FatesLater(s, before, a, |s.fates|, Run(s, before).value.fates, Run(s, actions).value.fates);
    }
  }

  lemma NoSteps(s: State)
    ensures Run(s, []) == Some(s)
  {
  }

  /** What was pushed, in order. */
  function Pushes(actions: seq<Action>): seq<string>
  {
    if actions == [] then []
    else (if actions[0].Push? then [actions[0].msg] else []) + Pushes(actions[1..])
  }

  /** Entry by entry, the messages as they are kept. */
  ghost predicate Kept(log: seq<string>, pushed: seq<string>)
  {
    |log| == |pushed| && forall k | 0 <= k < |pushed| :: Shortened(log[k], pushed[k])
  }

  lemma StepLogs(s: State, a: Action)
    requires Step(s, a).Some?
    ensures Step(s, a).value.log == s.log + if a.Push? then [Truncate(a.msg)] else []
  {
    hide Truncate;
  }

  /** The log holds what the pushes of the run were given. */
  lemma {:induction false} LogOfPushes(s: State, actions: seq<Action>)
    requires Run(s, actions).Some?
    ensures s.log <= Run(s, actions).value.log && Kept(Run(s, actions).value.log[|s.log|..], Pushes(actions))
    decreases |actions|
  {
    hide Step, Truncate, Shortened;
    if actions != [] {
      StepLogs(s, actions[0]);
      var t, end := Step(s, actions[0]).value, Run(s, actions).value;
      LogOfPushes(t, actions[1..]);
      if actions[0].Push? {
        assert end.log[|s.log|] == t.log[|s.log|];
        assert end.log[|s.log|..] == [end.log[|s.log|]] + end.log[|t.log|..];
      }
    }
  }

  /**
   In every interleaving of any number of producers with the script thread, the mailbox is safe: the log holds what was
   pushed, order and wake-ups are kept, and a message is dropped only by a push that finds it the oldest of 63.
   */
  lemma MailboxSafe(n: nat, actions: seq<Action>)
    requires Run(Initial(n), actions).Some?
    ensures Fifo(Run(Initial(n), actions).value) && NoLostWakeUp(Run(Initial(n), actions).value)
    ensures FatesDecided(Initial(n), actions, 0, Run(Initial(n), actions).value.fates)
    ensures Kept(Run(Initial(n), actions).value.log, Pushes(actions))
  {
    hide Run, FatesDecided, Kept;
    LogOfPushes(Initial(n), actions);
    assert Fifo(Initial(n)) && NoLostWakeUp(Initial(n));
    RunKeeps(Initial(n), actions);
    EveryFateDecided(Initial(n), actions);
  }

  // ----- what that is good for -----

  /** When no producer is under way, the script thread sleeps only if there is nothing to read. */
  lemma SleepsOnlyOnEmpty(n: nat, actions: seq<Action>)
    requires Run(Initial(n), actions).Some?
    ensures var s := Run(Initial(n), actions).value;
            (forall i | 0 <= i < |s.producers| :: s.producers[i] == Idle) && s.consumer == Asleep
            ==> s.shared.queue == []
  {
    MailboxSafe(n, actions);
  }

  /** The next steps that bring a waiting script thread its message: its own, and those of one producer under way. */
  function Rescue(s: State, pushed: nat, flagged: nat): seq<Action>
  {
    (if s.shared.signalled || s.shared.cancelled then if s.consumer == Asleep then [Signal(flagged)] else []
     else [Flag(pushed)] + if s.consumer == Asleep then [Signal(pushed)] else [])
    + [Check, LookAgain]
  }

  /** An event that is set lets a waiting thread that is not asleep take its message. */
  lemma TakesNow(s: State)
    requires (s.consumer == MustWait || s.consumer == Awake) && (s.shared.signalled || s.shared.cancelled)
    requires s.shared.queue != []
    ensures Run(s, [Check, LookAgain]).Some?
    ensures Run(s, [Check, LookAgain]).value.delivered == s.delivered + [s.shared.queue[0]]
  {
    assert [Check] + [LookAgain] == [Check, LookAgain] && [LookAgain] + [] == [LookAgain];
    RunOne(s, Check, [LookAgain]);
    RunOne(Step(s, Check).value, LookAgain, []);
  }

  /** A producer that has to signal the condition wakes a sleeping thread. */
  lemma TakesAfterSignal(s: State, flagged: nat)
    requires s.consumer == Asleep && (s.shared.signalled || s.shared.cancelled) && s.shared.queue != []
    requires ProducerAt(s, flagged) == Some(Flagged)
    ensures Run(s, [Signal(flagged)] + [Check, LookAgain]).Some?
    ensures Run(s, [Signal(flagged)] + [Check, LookAgain]).value.delivered == s.delivered + [s.shared.queue[0]]
  {
    RunOne(s, Signal(flagged), [Check, LookAgain]);
    TakesNow(Step(s, Signal(flagged)).value);
  }

  /** A script thread that waits while a message is there gets it within four steps, without another push. */
  lemma NeverStuck(s: State) returns (pushed: nat, flagged: nat)
    requires Fifo(s) && NoLostWakeUp(s) && Waiting(s) && s.shared.queue != []
    ensures Run(s, Rescue(s, pushed, flagged)).Some?
    ensures Run(s, Rescue(s, pushed, flagged)).value.delivered == s.delivered + [s.shared.queue[0]]
  {
    hide Run, Fifo;
    pushed, flagged := 0, 0;
    var rest := [Check, LookAgain];
    assert [] + rest == rest;
    if s.shared.signalled || s.shared.cancelled {
      if s.consumer == Asleep {
        flagged :| ProducerAt(s, flagged) == Some(Flagged);
        TakesAfterSignal(s, flagged);
      } else {
        TakesNow(s);
      }
    } else {
      pushed :| ProducerAt(s, pushed) == Some(Pushed);
      var s0 := Step(s, Flag(pushed)).value;
      if s.consumer == Asleep {
        RunOne(s, Flag(pushed), [Signal(pushed)] + rest);
        TakesAfterSignal(s0, pushed);
        assert [Flag(pushed)] + ([Signal(pushed)] + rest) == Rescue(s, pushed, flagged);
      } else {
        RunOne(s, Flag(pushed), rest);
        TakesNow(s0);
        assert [Flag(pushed)] + [] + rest == [Flag(pushed)] + rest;
      }
    }
  }

  lemma RunOne(s: State, a: Action, rest: seq<Action>)
    requires Step(s, a).Some?
    ensures Run(s, [a] + rest) == Run(Step(s, a).value, rest)
  {
    hide Step;
    assert ([a] + rest)[1..] == rest;
  }
}
