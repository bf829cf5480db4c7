/** phNxpUciHal_process_ext_cmd_rsp: a command is written, its response awaited, and the command
    repeated under two counters (uwb/halimpl/hal/phNxpUciHal_ext.cc:68-173, 455-473). */
module RetryLoop {
  import opened Bytes
  import opened Uci

  const MAX_RETRIES := 5
  const MAX_INVALID := 3

  /** What ends the wait for a response. */
  datatype Answer = Timeout | Retransmit | InvalidLength | Success | Failure

  /** How one attempt goes: the write fails, or the HAL consumed the command itself, or the timer does not
      start, or the wait fails, or it ends with an answer. */
  datatype Attempt = WriteFails | Consumed | TimerFails | WaitFails | Answered(a: Answer)

  /** phNxpUciHal_is_retry_required: chained commands and data messages get no response (and no retry). */
  predicate NoResponse(octet0: byte) { Chained(octet0) || MessageType(octet0) == MT_DATA }

  predicate CountsAsRetry(t: Attempt) { t == Answered(Timeout) || t == Answered(Retransmit) }
  predicate CountsAsInvalid(t: Attempt) { t == Answered(InvalidLength) }

  /** Among the first `n` attempts. */
  function Retries(env: nat -> Attempt, n: nat): nat {
    if n == 0 then 0 else Retries(env, n - 1) + if CountsAsRetry(env(n - 1)) then 1 else 0
  }

  function Invalids(env: nat -> Attempt, n: nat): nat {
    if n == 0 then 0 else Invalids(env, n - 1) + if CountsAsInvalid(env(n - 1)) then 1 else 0
  }

  /** The `n`-th attempt calls for another one. */
  predicate GoesOn(env: nat -> Attempt, n: nat)
    requires n > 0
  {
    && (CountsAsRetry(env(n - 1)) || CountsAsInvalid(env(n - 1)))
    && Retries(env, n) < MAX_RETRIES && Invalids(env, n) < MAX_INVALID
  }

  /** The command was attempted `n` times: every attempt but the last one called for another. */
  predicate Ends(env: nat -> Attempt, n: nat) {
    n > 0 && (forall k :: 0 < k < n ==> GoesOn(env, k)) && !GoesOn(env, n)
  }

  /** A counter reached its limit. */
  predicate GaveUp(env: nat -> Attempt, n: nat) { Retries(env, n) >= MAX_RETRIES || Invalids(env, n) >= MAX_INVALID }

  /** The status returned after `n` attempts, success or not. A failing write leaves the status of the
      previous turn, which is that of starting the timer; a failing wait leaves this turn's. */
  predicate Reported(env: nat -> Attempt, n: nat, stopOk: bool)
    requires n > 0
  {
    match env(n - 1)
    case WriteFails => n > 1
    case Consumed => n > 1
    case TimerFails => false
    case WaitFails => true
    case Answered(a) => a == Success && stopOk
  }

  method ProcessExtCmdRsp(octet0: byte, env: nat -> Attempt, stopOk: bool) returns (ok: bool, writes: nat, notified: nat)
    ensures octet0 / 16 % 2 == 1 || octet0 < 0x20 ==> writes == 1 && notified == 0 && !ok
    ensures !(octet0 / 16 % 2 == 1 || octet0 < 0x20) ==>
      Ends(env, writes) && ok == Reported(env, writes, stopOk) && notified == if GaveUp(env, writes) then 1 else 0
  {
    ok, writes, notified := false, 0, 0;
    var retries, invalids, exitLoop := 0, 0, false;
    var noResponse := NoResponse(octet0);
    var answer := Success;
    while !exitLoop
      invariant !exitLoop ==> notified == 0
      invariant noResponse ==> !ok && notified == 0 && writes == (if exitLoop then 1 else 0)
      invariant !noResponse ==> retries == Retries(env, writes) && invalids == Invalids(env, writes)
      invariant !noResponse && !exitLoop ==> (forall k :: 0 < k <= writes ==> GoesOn(env, k)) && (ok <==> writes > 0)
      invariant !noResponse && !exitLoop ==> retries < MAX_RETRIES && invalids < MAX_INVALID
      invariant !noResponse && exitLoop ==> Ends(env, writes) && env(writes - 1) == Answered(answer)
      invariant !noResponse && exitLoop ==> notified == if GaveUp(env, writes) then 1 else 0
      decreases if exitLoop then 0 else 1, MAX_RETRIES + MAX_INVALID - retries - invalids
    {
      var attempt := env(writes);
      writes := writes + 1;
      if attempt.WriteFails? { return; }
      if attempt.Consumed? { return; }
      if noResponse {
        exitLoop := true;
      } else {
        ok := !attempt.TimerFails?;
        if !ok { return; }
        if attempt.WaitFails? { return; }
        answer := attempt.a;
        match answer {
          case Timeout => retries := retries + 1;
          case Retransmit => retries := retries + 1;
          case InvalidLength => invalids := invalids + 1;
          case _ => exitLoop := true;
        }
        if retries >= MAX_RETRIES || invalids >= MAX_INVALID {
          exitLoop := true;
          notified := notified + 1;
        }
      }
    }
    if !noResponse {
      ok := stopOk;
      if !ok { return; }
      if answer != Success { ok := false; }
    }
  }

  /** The contract determines the number of attempts. */
  lemma EndIsUnique(env: nat -> Attempt, n: nat, m: nat)
    requires Ends(env, n) && Ends(env, m)
    ensures n == m
  {
  }

  lemma {:induction false} CountersAddUp(env: nat -> Attempt, n: nat)
    requires forall k :: 0 < k <= n ==> GoesOn(env, k)
    ensures Retries(env, n) + Invalids(env, n) == n
  {
    if n > 0 {
      CountersAddUp(env, n - 1);
      assert GoesOn(env, n);
    }
  }

  /** At most seven attempts: four repetitions, two invalid lengths, and the one that exits. */
  lemma AtMostSevenAttempts(env: nat -> Attempt, n: nat)
    requires Ends(env, n)
    ensures n <= 7
  {
    CountersAddUp(env, n - 1);
    if n > 1 { assert GoesOn(env, n - 1); }
  }

  /** The device-error notification goes out exactly when the last attempt brought a counter to its limit;
      before it, neither was there. */
  lemma NotificationAtLimit(env: nat -> Attempt, n: nat)
    requires Ends(env, n)
    ensures GaveUp(env, n) <==>
      ((env(n - 1) == Answered(Timeout) || env(n - 1) == Answered(Retransmit)) && Retries(env, n) == 5) ||
      (env(n - 1) == Answered(InvalidLength) && Invalids(env, n) == 3)
    ensures n > 1 ==> !GaveUp(env, n - 1)
  {
    if n == 1 {
      assert Retries(env, 0) == 0 && Invalids(env, 0) == 0;
    } else {
      assert GoesOn(env, n - 1);
    }
  }

  /** `n` attempts that all end in `a`. */
  function Always(a: Answer): nat -> Attempt { (i: nat) => Answered(a) }

  lemma {:induction false} AlwaysCounts(a: Answer, n: nat)
    ensures Retries(Always(a), n) == if a == Timeout || a == Retransmit then n else 0
    ensures Invalids(Always(a), n) == if a == InvalidLength then n else 0
  {
    if n > 0 { AlwaysCounts(a, n - 1); }
  }

  /** A chip that never answers, or always asks for a retransmission, is tried five times; one that always finds
      the length invalid three times; any other answer ends the loop at once. */
  lemma AttemptsForOneAnswer(a: Answer)
    ensures Ends(Always(a), match a { case Timeout => 5 case Retransmit => 5 case InvalidLength => 3 case _ => 1 })
    ensures GaveUp(Always(a), match a { case Timeout => 5 case Retransmit => 5 case InvalidLength => 3 case _ => 1 }) <==>
      a == Timeout || a == Retransmit || a == InvalidLength
  {
    var n: nat := match a { case Timeout => 5 case Retransmit => 5 case InvalidLength => 3 case _ => 1 };
    AlwaysCounts(a, n);
    forall k | 0 < k < n ensures GoesOn(Always(a), k) { AlwaysCounts(a, k); }
  }

  /** The longest way to go on: four repetitions, then invalid lengths; and `last` as the `m`-th attempt. */
  function Longest(m: nat, last: Attempt): nat -> Attempt {
    (i: nat) => if i + 1 == m then last else if i < MAX_RETRIES - 1 then Answered(Timeout) else Answered(InvalidLength)
  }

  lemma {:induction false} LongestCounts(m: nat, last: Attempt, k: nat)
    requires k < m
    ensures var env := Longest(m, last);
      && Retries(env, k) == (if k < MAX_RETRIES then k else MAX_RETRIES - 1)
      && Invalids(env, k) == (if k < MAX_RETRIES then 0 else k - MAX_RETRIES + 1)
  {
    if k > 0 { LongestCounts(m, last, k - 1); }
  }

  lemma LongestGoesOn(m: nat, last: Attempt)
    requires 0 < m <= 7
    ensures forall k :: 0 < k < m ==> GoesOn(Longest(m, last), k)
  {
    forall k | 0 < k < m ensures GoesOn(Longest(m, last), k) { LongestCounts(m, last, k); }
  }

  /** Seven attempts happen, whatever the last one is; the notification then depends on it alone. */
  lemma SevenAttempts(last: Attempt) returns (env: nat -> Attempt)
    ensures Ends(env, 7) && env(6) == last
    ensures GaveUp(env, 7) <==> CountsAsRetry(last) || CountsAsInvalid(last)
  {
    env := Longest(7, last);
    LongestGoesOn(7, last);
    LongestCounts(7, last, 6);
  }

  /** A run of `n` attempts that reports success although none of them was answered with success. */
  predicate FalseSuccess(env: nat -> Attempt, n: nat, stopOk: bool) {
    Ends(env, n) && Reported(env, n, stopOk) && forall k :: 0 <= k < n ==> env(k) != Answered(Success)
  }

  /** Exactly which attempts can end such a run, and when: a failing wait as any of the seven, a failing write
      or a command the HAL consumes as any but the first. */
  lemma FalseSuccessIff(n: nat, last: Attempt, stopOk: bool)
    requires n > 0
    ensures (exists env: nat -> Attempt :: FalseSuccess(env, n, stopOk) && env(n - 1) == last) <==>
      n <= 7 && (last == WaitFails || (n > 1 && (last == WriteFails || last == Consumed)))
  {
    forall env: nat -> Attempt | FalseSuccess(env, n, stopOk) ensures n <= 7 { AtMostSevenAttempts(env, n); }
    if n <= 7 && (last == WaitFails || (n > 1 && (last == WriteFails || last == Consumed))) {
      var env := Longest(n, last);
      LongestGoesOn(n, last);
      assert Reported(env, n, stopOk);
      assert FalseSuccess(env, n, stopOk);
    }
  }

  /** And a run that is answered with success reports it exactly when the timer stops. */
  lemma TrueSuccessIff(env: nat -> Attempt, n: nat, stopOk: bool)
    requires Ends(env, n)
    ensures (exists k :: 0 <= k < n && env(k) == Answered(Success)) ==> (Reported(env, n, stopOk) <==> stopOk)
  {
    if k :| 0 <= k < n && env(k) == Answered(Success) {
      assert !GoesOn(env, k + 1);
    }
  }
}
