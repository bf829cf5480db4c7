/** The message queue between threads: a list under a mutex and a counting semaphore. The list
    operations are LinkedList's Append and TakeFirst; here any number of threads interleave them with
    the semaphore (uwb/halimpl/tml/phDal4Uwb_messageQueueLib.cc:156-231). */
module MessageQueue {
  import opened Bytes
  import LinkedList

  /** A thread is outside the queue, has appended and not yet posted the semaphore, or is past the
      semaphore wait and has not yet taken a message. */
  datatype Thread = Outside | Appended | Woken

  /** `appended` and `delivered` are all messages so far; `missed` counts receivers that found the list
      empty (the call then returns without a message), `interrupted` the waits that ended by an error. */
  datatype State<T> = State(list: seq<T>, sem: nat, threads: seq<Thread>,
                            appended: seq<T>, delivered: seq<T>, missed: nat, interrupted: nat)

  datatype Action<T> = Append(thread: nat, msg: T) | Post(thread: nat) | Wait(thread: nat) | Interrupt(thread: nat) | Take(thread: nat)

  predicate Enabled<T(!new)>(st: State<T>, a: Action<T>) {
    a.thread < |st.threads| && match a
      case Append(t, _) => st.threads[t] == Outside
      case Post(t) => st.threads[t] == Appended
      case Wait(t) => st.threads[t] == Outside && st.sem > 0
      case Interrupt(t) => st.threads[t] == Outside
      case Take(t) => st.threads[t] == Woken
  }

  function Step<T(!new)>(st: State<T>, a: Action<T>): State<T>
    requires Enabled(st, a)
  {
    match a
    case Append(t, m) => st.(list := st.list + [m], appended := st.appended + [m], threads := st.threads[t := Appended])
    case Post(t) => st.(sem := st.sem + 1, threads := st.threads[t := Outside])
    case Wait(t) => st.(sem := st.sem - 1, threads := st.threads[t := Woken])
    case Interrupt(t) => st.(interrupted := st.interrupted + 1, threads := st.threads[t := Woken])
    case Take(t) =>
      if st.list == [] then st.(missed := st.missed + 1, threads := st.threads[t := Outside])
      else st.(list := st.list[1..], delivered := st.delivered + [st.list[0]], threads := st.threads[t := Outside])
  }

  function Start<T>(threads: nat): State<T> {
    State([], 0, seq(threads, i => Outside), [], [], 0, 0)
  }

  /** The state after a schedule, if every action in it was possible. */
  function After<T(!new)>(threads: nat, schedule: seq<Action<T>>): Option<State<T>> {
    if schedule == [] then Some(Start(threads))
    else match After(threads, schedule[..|schedule| - 1])
      case None => None
      case Some(st) =>
        var a := schedule[|schedule| - 1];
        if Enabled(st, a) then Some(Step(st, a)) else None
  }

  function Count(threads: seq<Thread>, x: Thread): nat {
    if threads == [] then 0 else (if threads[0] == x then 1 else 0) + Count(threads[1..], x)
  }

  lemma {:induction false} CountUpdate(threads: seq<Thread>, t: nat, y: Thread, x: Thread)
    requires t < |threads|
    ensures Count(threads[t := y], x) ==
      Count(threads, x) + (if y == x then 1 else 0) - (if threads[t] == x then 1 else 0)
  {
    if t == 0 {
      assert threads[0 := y][1..] == threads[1..];
    } else {
      CountUpdate(threads[1..], t - 1, y, x);
      assert threads[t := y][1..] == threads[1..][t - 1 := y];
    }
  }

  lemma {:induction false} CountPositive(threads: seq<Thread>, t: nat)
    requires t < |threads|
    ensures Count(threads, threads[t]) > 0
  {
    if t > 0 { CountPositive(threads[1..], t - 1); }
  }

  /** The books: tokens in the semaphore and receivers past it are matched by messages that senders have
      finished sending, up to what interrupted waits upset. */
  ghost predicate Balanced<T(!new)>(st: State<T>) {
    && st.appended == st.delivered + st.list
    && st.sem + Count(st.threads, Woken) + Count(st.threads, Appended) + st.missed == |st.list| + st.interrupted
    && st.missed <= st.interrupted
  }

  lemma StepBalanced<T(!new)>(st: State<T>, a: Action<T>)
    requires Enabled(st, a) && Balanced(st)
    ensures Balanced(Step(st, a))
  {
    CountUpdate(st.threads, a.thread, Step(st, a).threads[a.thread], Woken);
    CountUpdate(st.threads, a.thread, Step(st, a).threads[a.thread], Appended);
    CountPositive(st.threads, a.thread);
    if a.Take? && st.list != [] {
      assert st.list == [st.list[0]] + st.list[1..];
    }
  }

  lemma {:induction false} AllOutside(n: nat, x: Thread)
    requires x != Outside
    ensures Count(seq(n, i => Outside), x) == 0
  {
    if n > 0 {
      assert seq(n, i => Outside)[1..] == seq(n - 1, i => Outside);
      AllOutside(n - 1, x);
    }
  }

  /** Every reachable state is balanced. */
  lemma {:induction false} AlwaysBalanced<T(!new)>(threads: nat, schedule: seq<Action<T>>)
    requires After(threads, schedule).Some?
    ensures Balanced(After(threads, schedule).value)
    decreases |schedule|
  {
    if schedule == [] {
      AllOutside(threads, Woken);
      AllOutside(threads, Appended);
    } else {
      AlwaysBalanced(threads, schedule[..|schedule| - 1]);
      StepBalanced(After(threads, schedule[..|schedule| - 1]).value, schedule[|schedule| - 1]);
    }
  }

  /** Messages are delivered in the order they were appended, none twice and none skipped, whatever the
      interleaving. */
  lemma DeliveredInOrder<T(!new)>(threads: nat, schedule: seq<Action<T>>)
    requires After(threads, schedule).Some?
    ensures var st := After(threads, schedule).value;
      st.delivered <= st.appended && st.appended[|st.delivered|..] == st.list
  {
    AlwaysBalanced(threads, schedule);
  }

  /** Without interrupted waits the semaphore's tokens and the receivers past it are exactly the messages
      whose senders have posted; so a woken receiver finds a message, and no receive returns without one. */
  lemma WokenReceiverFindsMessage<T(!new)>(threads: nat, schedule: seq<Action<T>>, t: nat)
    requires After(threads, schedule).Some? && After(threads, schedule).value.interrupted == 0
    ensures var st := After(threads, schedule).value;
      && st.sem + Count(st.threads, Woken) == |st.list| - Count(st.threads, Appended) && st.missed == 0
      && (t < |st.threads| && st.threads[t] == Woken ==> st.list != [])
  {
    AlwaysBalanced(threads, schedule);
    var st := After(threads, schedule).value;
    if t < |st.threads| { CountPositive(st.threads, t); }
  }

  /** No message is stranded: with nobody inside the queue, a receiver has to wait only if it is empty. */
  lemma NoLostWakeup<T(!new)>(threads: nat, schedule: seq<Action<T>>)
    requires After(threads, schedule).Some? && After(threads, schedule).value.interrupted == 0
    requires var st := After(threads, schedule).value; Count(st.threads, Woken) == Count(st.threads, Appended) == 0
    ensures var st := After(threads, schedule).value; st.sem == |st.list|
  {
    AlwaysBalanced(threads, schedule);
  }

  /** Interrupted waits are what makes receives come back empty: at most one each. One is enough. */
  lemma MissesNeedInterrupts<T(!new)>(threads: nat, schedule: seq<Action<T>>)
    requires After(threads, schedule).Some?
    ensures After(threads, schedule).value.missed <= After(threads, schedule).value.interrupted
    ensures threads > 0 ==>
      var st := Step(Step(Start<T>(threads), Interrupt(0)), Take(0)); st.missed == 1 && st.delivered == []
  {
    AlwaysBalanced(threads, schedule);
  }

  // ----- One queue operation at a time, on the list itself

  /** The critical sections keep the list the state describes. */
  method RunCritical<T(==,!new)>(q: LinkedList.List<T>, ghost st: State<T>, a: Action<T>)
    returns (got: Option<T>)
    requires q.Valid() && q.Contents() == st.list && Enabled(st, a) && (a.Append? || a.Take?)
    modifies q, q.spine
    ensures q.Valid() && q.Contents() == Step(st, a).list
    ensures a.Take? ==> Step(st, a).delivered == st.delivered + if got.Some? then [got.value] else []
  {
    got := None;
    match a
    case Append(_, m) => q.Append(m);
    case Take(_) =>
      got := q.TakeFirst();
      assert got.Some? ==> st.list[1..] == q.Contents() && st.list[0] == got.value;
  }
}
