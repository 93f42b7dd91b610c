/**
  The debounced two-state door machine of `src/state.py`.

  The machine consumes one "delta vs closed reference" sample per step. In
  CLOSED it counts consecutive samples at or above `open_threshold`; in OPEN
  it counts consecutive samples at or below `close_threshold`. A sample that
  does not qualify resets the running counter, and reaching the debounce
  length switches state, resets both counters and emits the new state as the
  event. The door states, which the source spells as the strings "CLOSED" and
  "OPEN", are the datatype `Door`; the "no event" result `None` is `Option.None`.

  `Next` and `Run` are the specification on values; `DoorStateMachine` is the
  object the source mutates in place, proved against `Next`.
*/
module DoorState {
  import opened Wrappers

  datatype Door = Closed | Open

  /** `DoorStateConfig`: hysteresis thresholds and debounce lengths (Python ints, so possibly <= 0). */
  datatype Config = Config(openThreshold: real, closeThreshold: real, openDebounce: int, closeDebounce: int)

  /** The abstract state of a machine: `state`, `_open_count`, `_close_count`. */
  datatype Machine = Machine(door: Door, openCount: nat, closeCount: nat)

  /** What one step yields: the new state and the optional event. */
  datatype StepResult = StepResult(next: Machine, event: Option<Door>)

  /** What a run of steps yields: the last state and one optional event per sample. */
  datatype Trace = Trace(last: Machine, events: seq<Option<Door>>)

  /** A fresh machine: CLOSED whatever the door really is, both counters zero. */
  const Initial := Machine(Closed, 0, 0)

  /**
    The invariant every step keeps: the counter of the inactive direction is
    zero, and with a positive debounce length a counter never rests at or
    above it (reaching it would have caused a transition).
  */
  predicate Inv(cfg: Config, m: Machine)
  {
    (m.door == Closed ==> m.closeCount == 0) &&
    (m.door == Open ==> m.openCount == 0) &&
    (cfg.openDebounce >= 1 ==> m.openCount < cfg.openDebounce) &&
    (cfg.closeDebounce >= 1 ==> m.closeCount < cfg.closeDebounce)
  }

  /** One call of `step(delta_closed)` on values. */
  function Next(cfg: Config, m: Machine, delta: real): (r: StepResult)
    // at most one event, and there is one exactly when the door changes
    ensures r.event.Some? <==> r.next.door != m.door
    // the event is the new state, and every transition clears both counters
    ensures r.event.Some? ==> r.event.value == r.next.door && r.next.openCount == 0 && r.next.closeCount == 0
    // a step without an event leaves the counter of the other direction alone
    ensures r.event.None? && m.door == Closed ==> r.next.closeCount == m.closeCount
    ensures r.event.None? && m.door == Open ==> r.next.openCount == m.openCount
    // a sample that does not qualify resets the running counter and emits nothing
    ensures m.door == Closed && delta < cfg.openThreshold && cfg.openDebounce >= 1 ==>
              r == StepResult(m.(openCount := 0), None)
    ensures m.door == Open && delta > cfg.closeThreshold && cfg.closeDebounce >= 1 ==>
              r == StepResult(m.(closeCount := 0), None)
    // a qualifying sample that does not complete the debounce advances the counter by one
    ensures m.door == Closed && delta >= cfg.openThreshold && r.event.None? ==> r.next.openCount == m.openCount + 1
    ensures m.door == Open && delta <= cfg.closeThreshold && r.event.None? ==> r.next.closeCount == m.closeCount + 1
    // with a positive debounce length, a transition happens exactly when a qualifying
    // sample brings the counter up to the debounce length
    ensures m.door == Closed && cfg.openDebounce >= 1 ==>
              (r.event.Some? <==> delta >= cfg.openThreshold && m.openCount + 1 >= cfg.openDebounce)
    ensures m.door == Open && cfg.closeDebounce >= 1 ==>
              (r.event.Some? <==> delta <= cfg.closeThreshold && m.closeCount + 1 >= cfg.closeDebounce)
    // with a debounce length of 0 or less the counter always reaches it, so every step transitions
    ensures m.door == Closed && cfg.openDebounce <= 0 ==> r == StepResult(Machine(Open, 0, 0), Some(Open))
    ensures m.door == Open && cfg.closeDebounce <= 0 ==> r == StepResult(Machine(Closed, 0, 0), Some(Closed))
    ensures Inv(cfg, m) ==> Inv(cfg, r.next)
  {
    match m.door
    case Closed =>
      var count := if delta >= cfg.openThreshold then m.openCount + 1 else 0;
      if count >= cfg.openDebounce then StepResult(Machine(Open, 0, 0), Some(Open))
      else StepResult(m.(openCount := count), None)
    case Open =>
      var count := if delta <= cfg.closeThreshold then m.closeCount + 1 else 0;
      if count >= cfg.closeDebounce then StepResult(Machine(Closed, 0, 0), Some(Closed))
      else StepResult(m.(closeCount := count), None)
  }

  /** Feeding the samples `deltas` one after another, starting from `m`. */
  function Run(cfg: Config, m: Machine, deltas: seq<real>): (r: Trace)
    ensures |r.events| == |deltas|
    ensures Inv(cfg, m) ==> Inv(cfg, r.last)
    decreases |deltas|
  {
    if deltas == [] then Trace(m, [])
    else
      var s := Next(cfg, m, deltas[0]);
      var rest := Run(cfg, s.next, deltas[1..]);
      Trace(rest.last, [s.event] + rest.events)
  }

  /** `n` steps without an event. */
  function Quiet(n: nat): (r: seq<Option<Door>>)
    ensures |r| == n && forall i :: 0 <= i < n ==> r[i] == None
  {
    seq(n, _ => None)
  }

  /** Running `a + b` is running `a`, then `b` from where `a` left the machine. */
  lemma {:induction false} RunAppend(cfg: Config, m: Machine, a: seq<real>, b: seq<real>)
    ensures Run(cfg, m, a + b) ==
            Trace(Run(cfg, Run(cfg, m, a).last, b).last, Run(cfg, m, a).events + Run(cfg, Run(cfg, m, a).last, b).events)
    decreases |a|
  {
    if a == [] {
      assert a + b == b;
    } else {
      assert (a + b)[0] == a[0];
      assert (a + b)[1..] == a[1..] + b;
      RunAppend(cfg, Next(cfg, m, a[0]).next, a[1..], b);
    }
  }

  /**
    In CLOSED with `c` qualifying samples already counted, `openDebounce - c`
    more samples at or above the open threshold emit nothing until the last,
    which emits OPEN and leaves the machine OPEN with both counters zero.
  */
  lemma {:induction false} OpenCountsUp(cfg: Config, m: Machine, deltas: seq<real>)
    requires m.door == Closed && |deltas| >= 1 && m.openCount + |deltas| == cfg.openDebounce
    requires forall i :: 0 <= i < |deltas| ==> deltas[i] >= cfg.openThreshold
    ensures Run(cfg, m, deltas) == Trace(Machine(Open, 0, 0), Quiet(|deltas| - 1) + [Some(Open)])
    decreases |deltas|
  {
    var s := Next(cfg, m, deltas[0]);
    if |deltas| == 1 {
      assert s == StepResult(Machine(Open, 0, 0), Some(Open));
      assert Quiet(0) + [Some(Open)] == [Some(Open)];
    } else {
      assert s.next == m.(openCount := m.openCount + 1) && s.event == None;
      OpenCountsUp(cfg, s.next, deltas[1..]);
      assert [None] + (Quiet(|deltas| - 2) + [Some(Open)]) == Quiet(|deltas| - 1) + [Some(Open)];
    }
  }

  /** The mirror image of `OpenCountsUp` for closing from OPEN. */
  lemma {:induction false} CloseCountsUp(cfg: Config, m: Machine, deltas: seq<real>)
    requires m.door == Open && |deltas| >= 1 && m.closeCount + |deltas| == cfg.closeDebounce
    requires forall i :: 0 <= i < |deltas| ==> deltas[i] <= cfg.closeThreshold
    ensures Run(cfg, m, deltas) == Trace(Machine(Closed, 0, 0), Quiet(|deltas| - 1) + [Some(Closed)])
    decreases |deltas|
  {
    var s := Next(cfg, m, deltas[0]);
    if |deltas| == 1 {
      assert s == StepResult(Machine(Closed, 0, 0), Some(Closed));
      assert Quiet(0) + [Some(Closed)] == [Some(Closed)];
    } else {
      assert s.next == m.(closeCount := m.closeCount + 1) && s.event == None;
      CloseCountsUp(cfg, s.next, deltas[1..]);
      assert [None] + (Quiet(|deltas| - 2) + [Some(Closed)]) == Quiet(|deltas| - 1) + [Some(Closed)];
    }
  }

  /**
    From a fresh machine, exactly `openDebounce` samples at or above the open
    threshold (equality included) give no event until the last, which is OPEN.
  */
  lemma OpensAfterDebounce(cfg: Config, deltas: seq<real>)
    requires cfg.openDebounce >= 1 && |deltas| == cfg.openDebounce
    requires forall i :: 0 <= i < |deltas| ==> deltas[i] >= cfg.openThreshold
    ensures Run(cfg, Initial, deltas) == Trace(Machine(Open, 0, 0), Quiet(cfg.openDebounce - 1) + [Some(Open)])
  {
    OpenCountsUp(cfg, Initial, deltas);
  }

  /**
    From OPEN as a transition leaves it, exactly `closeDebounce` samples at or
    below the close threshold give no event until the last, which is CLOSED,
    and the machine is back in its initial state.
  */
  lemma ClosesAfterDebounce(cfg: Config, deltas: seq<real>)
    requires cfg.closeDebounce >= 1 && |deltas| == cfg.closeDebounce
    requires forall i :: 0 <= i < |deltas| ==> deltas[i] <= cfg.closeThreshold
    ensures Run(cfg, Machine(Open, 0, 0), deltas) == Trace(Initial, Quiet(cfg.closeDebounce - 1) + [Some(Closed)])
  {
    CloseCountsUp(cfg, Machine(Open, 0, 0), deltas);
  }

  /** In CLOSED, samples that stay below the open threshold never produce an event. */
  lemma {:induction false} StaysClosed(cfg: Config, m: Machine, deltas: seq<real>)
    requires cfg.openDebounce >= 1 && m.door == Closed
    requires forall i :: 0 <= i < |deltas| ==> deltas[i] < cfg.openThreshold
    ensures Run(cfg, m, deltas).events == Quiet(|deltas|)
    ensures Run(cfg, m, deltas).last.door == Closed
    ensures Run(cfg, m, deltas).last.closeCount == m.closeCount
    ensures |deltas| > 0 ==> Run(cfg, m, deltas).last.openCount == 0
    decreases |deltas|
  {
    if deltas != [] {
      var next := m.(openCount := 0);
      assert Next(cfg, m, deltas[0]) == StepResult(next, None);
      StaysClosed(cfg, next, deltas[1..]);
      assert [None] + Quiet(|deltas| - 1) == Quiet(|deltas|);
    }
  }

  /** In OPEN, samples that stay above the close threshold never produce an event. */
  lemma {:induction false} StaysOpen(cfg: Config, m: Machine, deltas: seq<real>)
    requires cfg.closeDebounce >= 1 && m.door == Open
    requires forall i :: 0 <= i < |deltas| ==> deltas[i] > cfg.closeThreshold
    ensures Run(cfg, m, deltas).events == Quiet(|deltas|)
    ensures Run(cfg, m, deltas).last.door == Open
    ensures Run(cfg, m, deltas).last.openCount == m.openCount
    ensures |deltas| > 0 ==> Run(cfg, m, deltas).last.closeCount == 0
    decreases |deltas|
  {
    if deltas != [] {
      var next := m.(closeCount := 0);
      assert Next(cfg, m, deltas[0]) == StepResult(next, None);
      StaysOpen(cfg, next, deltas[1..]);
      assert [None] + Quiet(|deltas| - 1) == Quiet(|deltas|);
    }
  }

  /**
    In CLOSED, a run without events ends in CLOSED, and its open counter `c`
    counts qualifying samples only: it is at most the starting counter plus
    the run's length, and the last `c` samples of the run (those the run has)
    are all at or above the open threshold.
  */
  lemma {:induction false} QuietClosedCount(cfg: Config, m: Machine, deltas: seq<real>)
    requires m.door == Closed && Run(cfg, m, deltas).events == Quiet(|deltas|)
    ensures Run(cfg, m, deltas).last.door == Closed
    ensures Run(cfg, m, deltas).last.openCount <= m.openCount + |deltas|
    ensures forall i :: 0 <= i < |deltas| && |deltas| - Run(cfg, m, deltas).last.openCount <= i ==>
              deltas[i] >= cfg.openThreshold
    decreases |deltas|
  {
    if deltas != [] {
      var s := Next(cfg, m, deltas[0]);
      var rest := deltas[1..];
      assert s.event == Run(cfg, m, deltas).events[0] == None;
      assert Run(cfg, m, deltas).events == [s.event] + Run(cfg, s.next, rest).events;
      assert Run(cfg, s.next, rest).events == Run(cfg, m, deltas).events[1..] == Quiet(|rest|);
      QuietClosedCount(cfg, s.next, rest);
      var c := Run(cfg, m, deltas).last.openCount;
      assert s.next.openCount == if deltas[0] >= cfg.openThreshold then m.openCount + 1 else 0;
      forall i | 0 <= i < |deltas| && |deltas| - c <= i ensures deltas[i] >= cfg.openThreshold {
        if i > 0 {
          assert deltas[i] == rest[i - 1];
        }
      }
    }
  }

  /** The mirror image of `QuietClosedCount` in OPEN, for the close counter. */
  lemma {:induction false} QuietOpenCount(cfg: Config, m: Machine, deltas: seq<real>)
    requires m.door == Open && Run(cfg, m, deltas).events == Quiet(|deltas|)
    ensures Run(cfg, m, deltas).last.door == Open
    ensures Run(cfg, m, deltas).last.closeCount <= m.closeCount + |deltas|
    ensures forall i :: 0 <= i < |deltas| && |deltas| - Run(cfg, m, deltas).last.closeCount <= i ==>
              deltas[i] <= cfg.closeThreshold
    decreases |deltas|
  {
    if deltas != [] {
      var s := Next(cfg, m, deltas[0]);
      var rest := deltas[1..];
      assert s.event == Run(cfg, m, deltas).events[0] == None;
      assert Run(cfg, m, deltas).events == [s.event] + Run(cfg, s.next, rest).events;
      assert Run(cfg, s.next, rest).events == Run(cfg, m, deltas).events[1..] == Quiet(|rest|);
      QuietOpenCount(cfg, s.next, rest);
      var c := Run(cfg, m, deltas).last.closeCount;
      assert s.next.closeCount == if deltas[0] <= cfg.closeThreshold then m.closeCount + 1 else 0;
      forall i | 0 <= i < |deltas| && |deltas| - c <= i ensures deltas[i] <= cfg.closeThreshold {
        if i > 0 {
          assert deltas[i] == rest[i - 1];
        }
      }
    }
  }

  /**
    The converse of `OpensAfterDebounce`: if a run from a fresh machine emits
    nothing until its last sample, which emits OPEN, then the run was at least
    `openDebounce` samples long and its last `openDebounce` samples were all
    at or above the open threshold.
  */
  lemma OpenMeansDebounced(cfg: Config, deltas: seq<real>)
    requires cfg.openDebounce >= 1 && |deltas| >= 1
    requires Run(cfg, Initial, deltas).events == Quiet(|deltas| - 1) + [Some(Open)]
    ensures |deltas| >= cfg.openDebounce
    ensures forall i :: |deltas| - cfg.openDebounce <= i < |deltas| ==> deltas[i] >= cfg.openThreshold
  {
    var n := |deltas|;
    var pre, d := deltas[..n - 1], deltas[n - 1];
    assert deltas == pre + [d];
    RunAppend(cfg, Initial, pre, [d]);
    var mid := Run(cfg, Initial, pre);
    assert mid.events == Run(cfg, Initial, deltas).events[..n - 1] == Quiet(n - 1);
    QuietClosedCount(cfg, Initial, pre);
    var s := Next(cfg, mid.last, d);
    assert Run(cfg, mid.last, [d]).events == [s.event];
    assert s.event == Some(Open);
    forall i | n - cfg.openDebounce <= i < n ensures deltas[i] >= cfg.openThreshold {
      if i < n - 1 {
        assert deltas[i] == pre[i];
      }
    }
  }

  /**
    The converse of `ClosesAfterDebounce`: if a run from OPEN with zero
    counters emits nothing until its last sample, which emits CLOSED, then its
    last `closeDebounce` samples were all at or below the close threshold.
  */
  lemma ClosedMeansDebounced(cfg: Config, deltas: seq<real>)
    requires cfg.closeDebounce >= 1 && |deltas| >= 1
    requires Run(cfg, Machine(Open, 0, 0), deltas).events == Quiet(|deltas| - 1) + [Some(Closed)]
    ensures |deltas| >= cfg.closeDebounce
    ensures forall i :: |deltas| - cfg.closeDebounce <= i < |deltas| ==> deltas[i] <= cfg.closeThreshold
  {
    var n := |deltas|;
    var start := Machine(Open, 0, 0);
    var pre, d := deltas[..n - 1], deltas[n - 1];
    assert deltas == pre + [d];
    RunAppend(cfg, start, pre, [d]);
    var mid := Run(cfg, start, pre);
    assert mid.events == Run(cfg, start, deltas).events[..n - 1] == Quiet(n - 1);
    QuietOpenCount(cfg, start, pre);
    var s := Next(cfg, mid.last, d);
    assert Run(cfg, mid.last, [d]).events == [s.event];
    assert s.event == Some(Closed);
    forall i | n - cfg.closeDebounce <= i < n ensures deltas[i] <= cfg.closeThreshold {
      if i < n - 1 {
        assert deltas[i] == pre[i];
      }
    }
  }

  /** The runner's thresholds and debounce lengths (`src/main.py:29-32`). */
  const RunnerConfig := Config(0.02, 0.008, 3, 6)

  /**
    With the runner's configuration, the sample sequence of three samples of
    0.03 then six of 0.005 emits OPEN on the third call and CLOSED on the
    ninth, and nothing otherwise.
  */
  lemma RunnerScenario()
    ensures Run(RunnerConfig, Initial, [0.03, 0.03, 0.03, 0.005, 0.005, 0.005, 0.005, 0.005, 0.005]) ==
            Trace(Initial, [None, None, Some(Open), None, None, None, None, None, Some(Closed)])
  {
  }

  /** `DoorStateMachine`: the object whose `step` updates its fields in place. */
  class DoorStateMachine {
    const cfg: Config
    var state: Door
    var openCount: nat
    var closeCount: nat

    /** The machine's fields as a value. */
    ghost function Model(): Machine
      reads this
    {
      Machine(state, openCount, closeCount)
    }

    ghost predicate Valid()
      reads this
    {
      Inv(cfg, Model())
    }

    constructor (cfg: Config)
      ensures this.cfg == cfg && Model() == Initial && Valid()
    {
      this.cfg := cfg;
      state := Closed;
      openCount := 0;
      closeCount := 0;
    }

    method Step(delta: real) returns (event: Option<Door>)
      requires Valid()
      modifies this
      ensures Valid()
      ensures StepResult(Model(), event) == Next(cfg, old(Model()), delta)
    {
      if state == Closed {
        if delta >= cfg.openThreshold {
          openCount := openCount + 1;
        } else {
          openCount := 0;
        }
        if openCount >= cfg.openDebounce {
          state := Open;
          openCount := 0;
          closeCount := 0;
          return Some(Open);
        }
      } else {
        if delta <= cfg.closeThreshold {
          closeCount := closeCount + 1;
        } else {
          closeCount := 0;
        }
        if closeCount >= cfg.closeDebounce {
          state := Closed;
          openCount := 0;
          closeCount := 0;
          return Some(Closed);
        }
      }
      return None;
    }
  }
}
