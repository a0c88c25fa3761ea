/**
 * The rules by which beacon/system/tasks/tasks.c runs tasks. A task is a call
 * the model does not see: the rules record each execution in a log, and
 * task_periodic returns the new value of *last_execution_s. All times are
 * uint32_t, so differences and sums wrap modulo 2^32.
 */
module Scheduler {

  const Modulus32: nat := 0x1_0000_0000

  /** A uint32_t value. */
  predicate IsU32(x: int)
  {
    0 <= x < Modulus32
  }

  /** uint32_t subtraction. */
  function Sub32(a: nat, b: nat): (r: nat)
    ensures IsU32(r)
  {
    (a - b) % Modulus32
  }

  /** uint32_t addition (a uint16_t operand is widened first). */
  function Add32(a: nat, b: nat): (r: nat)
    ensures IsU32(r)
  {
    (a + b) % Modulus32
  }

  /** Whether task_periodic runs its task. */
  predicate PeriodicDue(periodS: nat, lastExecutionS: nat, currentTimeS: nat)
  {
    Sub32(currentTimeS, lastExecutionS) >= periodS
  }

  /** Without wrap-around the elapsed time is the plain difference. */
  lemma PeriodicWithoutWrap(periodS: nat, lastExecutionS: nat, currentTimeS: nat)
    requires IsU32(currentTimeS) && lastExecutionS <= currentTimeS
    ensures PeriodicDue(periodS, lastExecutionS, currentTimeS) <==> currentTimeS - lastExecutionS >= periodS
  {
  }

  /** A clock that wrapped past zero still counts the elapsed seconds across the wrap. */
  lemma PeriodicAcrossWrap(periodS: nat, lastExecutionS: nat, currentTimeS: nat)
    requires IsU32(lastExecutionS) && currentTimeS < lastExecutionS
    ensures PeriodicDue(periodS, lastExecutionS, currentTimeS)
        <==> Modulus32 - lastExecutionS + currentTimeS >= periodS
  {
  }

  /** Right after running, a task is not due again unless the period is 0. */
  lemma PeriodicNotDueAtOnce(periodS: nat, currentTimeS: nat)
    ensures PeriodicDue(periodS, currentTimeS, currentTimeS) <==> periodS == 0
  {
  }

  /** Whether task_scheduled runs its task. */
  predicate ScheduledDue(timeToRunS: nat, currentTimeS: nat, timeoutS: nat, condition: bool)
  {
    condition && currentTimeS >= timeToRunS && Add32(timeToRunS, timeoutS) <= currentTimeS
  }

  /**
   * Without wrap-around the "timeout" is a delay: a scheduled task runs exactly from
   * time_to_run + timeout on, so never at time_to_run itself when timeout > 0.
   */
  lemma ScheduledIsDelay(timeToRunS: nat, currentTimeS: nat, timeoutS: nat, condition: bool)
    requires timeToRunS + timeoutS < Modulus32
    ensures ScheduledDue(timeToRunS, currentTimeS, timeoutS, condition)
        <==> condition && currentTimeS >= timeToRunS + timeoutS
    ensures timeoutS > 0 ==> !ScheduledDue(timeToRunS, timeToRunS, timeoutS, condition)
  {
  }

  /** When time_to_run + timeout wraps, the delay is lost: a scheduled task runs at time_to_run. */
  lemma ScheduledWrapRunsEarly()
    ensures ScheduledDue(Modulus32 - 1, Modulus32 - 1, 1, true)
  {
  }

  /**
   * The processor as the scheduling rules see it: the global interrupt enable bit
   * and a log with one entry per task execution, recording whether
   * interrupts were enabled while that execution ran.
   */
  class Cpu {
    var gie: bool
    var taskLog: seq<bool>

    constructor(gie0: bool)
      ensures gie == gie0 && taskLog == []
    {
      gie := gie0;
      taskLog := [];
    }

    /** task_periodic: runs when the wrapped elapsed time reaches the period, then records the time. */
    method TaskPeriodic(periodS: nat, lastExecutionS: nat, currentTimeS: nat) returns (newLastExecutionS: nat)
      requires IsU32(periodS) && IsU32(lastExecutionS) && IsU32(currentTimeS)
      modifies this`taskLog
      ensures PeriodicDue(periodS, lastExecutionS, currentTimeS) ==>
        taskLog == old(taskLog) + [gie] && newLastExecutionS == currentTimeS
      ensures !PeriodicDue(periodS, lastExecutionS, currentTimeS) ==>
        taskLog == old(taskLog) && newLastExecutionS == lastExecutionS
    {
      newLastExecutionS := lastExecutionS;
      if Sub32(currentTimeS, lastExecutionS) >= periodS {
        taskLog := taskLog + [gie];
        newLastExecutionS := currentTimeS;
      }
    }

    /**
     * task_periodic_no_preemption: the same rule, run with interrupts
     * disabled; afterwards interrupts are enabled whatever they were before.
     */
    method TaskPeriodicNoPreemption(periodS: nat, lastExecutionS: nat, currentTimeS: nat) returns (newLastExecutionS: nat)
      requires IsU32(periodS) && IsU32(lastExecutionS) && IsU32(currentTimeS)
      modifies this
      ensures PeriodicDue(periodS, lastExecutionS, currentTimeS) ==>
        taskLog == old(taskLog) + [false] && gie && newLastExecutionS == currentTimeS
      ensures !PeriodicDue(periodS, lastExecutionS, currentTimeS) ==>
        taskLog == old(taskLog) && gie == old(gie) && newLastExecutionS == lastExecutionS
    {
      newLastExecutionS := lastExecutionS;
      if Sub32(currentTimeS, lastExecutionS) >= periodS {
        gie := false;
        taskLog := taskLog + [gie];
        newLastExecutionS := currentTimeS;
        gie := true;
      }
    }

    /** task_aperiodic */
    method TaskAperiodic(condition: bool)
      modifies this`taskLog
      ensures taskLog == if condition then old(taskLog) + [gie] else old(taskLog)
    {
      if condition == true {
        taskLog := taskLog + [gie];
      }
    }

    /** task_scheduled: three nested tests. */
    method TaskScheduled(timeToRunS: nat, currentTimeS: nat, timeoutS: nat, condition: bool)
      requires IsU32(timeToRunS) && IsU32(currentTimeS) && timeoutS < 0x1_0000
      modifies this`taskLog
      ensures taskLog == if ScheduledDue(timeToRunS, currentTimeS, timeoutS, condition)
        then old(taskLog) + [gie] else old(taskLog)
    {
      if condition == true {
        if currentTimeS >= timeToRunS {
          if Add32(timeToRunS, timeoutS) <= currentTimeS {
            taskLog := taskLog + [gie];
          }
        }
      }
    }

    /** task_scheduled_no_preemption: the same tests, with the job run with interrupts disabled. */
    method TaskScheduledNoPreemption(timeToRunS: nat, currentTimeS: nat, timeoutS: nat, condition: bool)
      requires IsU32(timeToRunS) && IsU32(currentTimeS) && timeoutS < 0x1_0000
      modifies this
      ensures ScheduledDue(timeToRunS, currentTimeS, timeoutS, condition) ==>
        taskLog == old(taskLog) + [false] && gie
      ensures !ScheduledDue(timeToRunS, currentTimeS, timeoutS, condition) ==>
        taskLog == old(taskLog) && gie == old(gie)
    {
      if condition == true {
        if currentTimeS >= timeToRunS {
          if Add32(timeToRunS, timeoutS) <= currentTimeS {
            gie := false;
            taskLog := taskLog + [gie];
            gie := true;
          }
        }
      }
    }
  }

  /**
   * The calls task_init_with_timeout makes when the k-th call of the init function
   * returns answer(k): it stops at the first true answer, or after the call
   * that finds the timeout counter at 0.
   */
  function InitCalls(answer: nat -> bool, k: nat, timeoutMs: nat): (calls: nat)
    ensures k < calls <= k + timeoutMs + 1
    decreases timeoutMs
  {
    if answer(k) then k + 1
    else if timeoutMs == 0 then k + 1
    else InitCalls(answer, k + 1, timeoutMs - 1)
  }

  /** task_init_with_timeout: `while (!task() && timeout_ms--)`; returns the number of calls. */
  method TaskInitWithTimeout(answer: nat -> bool, timeoutMs: nat) returns (calls: nat)
    requires IsU32(timeoutMs)
    ensures calls == InitCalls(answer, 0, timeoutMs)
  {
    var remaining := timeoutMs;
    calls := 0;
    while true
      invariant calls + remaining == timeoutMs
      invariant InitCalls(answer, calls, remaining) == InitCalls(answer, 0, timeoutMs)
      decreases remaining
    {
      var ok := answer(calls);
      calls := calls + 1;
      if ok {
        return;
      }
      if remaining == 0 {
        return;
      }
      remaining := remaining - 1;
    }
  }

  /**
   * The calls stop at the first true answer, all earlier answers were false,
   * and the loop makes at most timeout_ms + 1 calls.
   */
  lemma {:induction false} InitCallsMeaning(answer: nat -> bool, k: nat, timeoutMs: nat)
    ensures var calls := InitCalls(answer, k, timeoutMs);
      calls <= k + timeoutMs + 1
      && (forall j :: k <= j < calls - 1 ==> !answer(j))
      && (answer(calls - 1) || calls == k + timeoutMs + 1)
    decreases timeoutMs
  {
    if !answer(k) && timeoutMs > 0 {
      InitCallsMeaning(answer, k + 1, timeoutMs - 1);
    }
  }
}
