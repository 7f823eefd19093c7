/** The worker thread of one timer: a loop that waits on an absolute deadline and
    is woken by time or by a signal that the duration has been changed. */
module TimerWorker {

  const SECOND: nat := 1_000_000_000
  const UINT32: nat := 0x1_0000_0000

  /** struct timespec */
  datatype Timespec = Timespec(sec: nat, nsec: nat)

  /** A reading of the clock. */
  type Clock = t: Timespec | t.nsec < SECOND witness Timespec(0, 0)

  predicate AtMost(a: Clock, b: Clock) {
    a.sec < b.sec || (a.sec == b.sec && a.nsec <= b.nsec)
  }

  function Plus(t: Clock, seconds: nat): Clock {
    t.(sec := t.sec + seconds)
  }

  function Nanoseconds(t: Clock): nat {
    SECOND * t.sec + t.nsec
  }

  /** duration_min * 60 + duration_sec, computed as an unsigned 32-bit number. */
  function Total(min: int, sec: int): nat {
    (min * 60 + sec) % UINT32
  }

  /** What pthread_cond_timedwait came back with, when, and (for a signal) the
      duration found then. */
  datatype Wake = TimedOut(at: Clock) | Signalled(at: Clock, min: int, sec: nat) | Failed(at: Clock)

  /** The worker between two waits. */
  datatype Loop = Loop(clock: Clock, min: int, sec: int, started: int, end: int)

  function Begin(clock: Clock, min: int, sec: int): Loop {
    Loop(clock, min, sec, clock.sec, clock.sec + Total(min, sec))
  }

  function Remaining(l: Loop): int {
    l.end - l.clock.sec
  }

  /** The time the next wait is to last until. */
  function Timeout(l: Loop): Clock {
    Plus(l.clock, if Remaining(l) > 60 then Remaining(l) - 60 else 1)
  }

  predicate Possible(l: Loop, wake: Wake) {
    AtMost(if wake.TimedOut? then Timeout(l) else l.clock, wake.at)
  }

  /** What one wake-up does: the loop goes round again, or is left. */
  datatype Turn = Again(l: Loop) | Out(l: Loop)

  function Woken(l: Loop, wake: Wake): Turn {
    match wake
    case TimedOut(at) => Again(l.(clock := at))
    case Failed(at) => Out(l.(clock := at))
    case Signalled(at, min, sec) =>
      if min <= 0 && sec <= 0 then Out(l.(clock := at, min := min, sec := sec)) else Again(Begin(at, min, sec))
  }

  /** How far a script of wake-ups takes the worker: it may still be waiting when the
      script ends, or have left the loop after `waits` of them. */
  datatype Progress = Waiting(l: Loop) | Left(l: Loop, waits: nat)

  function Later(p: Progress, waits: nat): Progress {
    if p.Left? then Left(p.l, p.waits + waits) else p
  }

  function Play(l: Loop, script: seq<Wake>): (p: Progress)
    ensures p.Left? ==> p.waits <= |script|
    decreases |script|
  {
    if Remaining(l) <= 0 then Left(l, 0)
    else if script == [] then Waiting(l)
    else match Woken(l, script[0])
      case Out(next) => Left(next, 1)
      case Again(next) => Later(Play(next, script[1..]), 1)
  }

  /** The script can happen: no wait times out before its deadline or goes back in time. */
  predicate PossibleScript(l: Loop, script: seq<Wake>)
    decreases |script|
  {
    Remaining(l) <= 0 || script == [] ||
    (Possible(l, script[0]) &&
     match Woken(l, script[0])
     case Out(_) => true
     case Again(next) => PossibleScript(next, script[1..]))
  }

  /** The deadlines the worker waits for, one for every wait it starts. */
  function Deadlines(l: Loop, script: seq<Wake>): seq<Clock>
    decreases |script|
  {
    if Remaining(l) <= 0 then []
    else if script == [] then [Timeout(l)]
    else match Woken(l, script[0])
      case Out(_) => [Timeout(l)]
      case Again(next) => [Timeout(l)] + Deadlines(next, script[1..])
  }

  /** One wait of a run, after `waits` others that set the deadlines `done`. */
  lemma OneMoreWait(l: Loop, script: seq<Wake>, turn: Turn, rest: seq<Wake>, waits: nat, done: seq<Clock>)
    requires Remaining(l) > 0 && script != [] && turn == Woken(l, script[0]) && rest == script[1..]
    ensures Later(Play(l, script), waits) ==
            if turn.Out? then Left(turn.l, waits + 1) else Later(Play(turn.l, rest), waits + 1)
    ensures done + Deadlines(l, script) ==
            if turn.Out? then done + [Timeout(l)] else (done + [Timeout(l)]) + Deadlines(turn.l, rest)
  {
    if turn.Again? {
      var more := Deadlines(turn.l, rest);
      assert Deadlines(l, script) == [Timeout(l)] + more;
      assert done + ([Timeout(l)] + more) == (done + [Timeout(l)]) + more;
    }
  }

  /** Whether the worker, out of its loop, asks for the device to be switched off. */
  predicate TurnsOff(l: Loop, ledOff: bool) {
    (l.min != 0 || l.sec != 0) && !ledOff
  }

  class Worker {
    var durationMin: int
    var durationSec: int
    var startedAt: int
    var timeout: Clock

    /** What the loop makes of one wake-up. */
    method Wakened(wake: Wake, clock0: Clock, endTime0: Clock)
      returns (clock: Clock, endTime: Clock, again: bool)
      modifies `durationMin, `durationSec, `startedAt
      ensures var t := Woken(old(Loop(clock0, durationMin, durationSec, startedAt, endTime0.sec)), wake);
              again == t.Again? && t.l == Loop(clock, durationMin, durationSec, startedAt, endTime.sec)
    {
      clock, endTime, again := wake.at, endTime0, true;
      if wake.Signalled? {
        durationMin, durationSec := wake.min, wake.sec;
        if durationMin <= 0 && durationSec <= 0 {
          again := false;
        } else {
          endTime := Plus(clock, Total(durationMin, durationSec));
          startedAt := clock.sec;
        }
      } else if wake.Failed? {
        again := false;
      }
    }

    /** timer_worker from the first clock reading on.  `script` stands for what the
        waits return; each signal brings the duration its sender stored.  `deadlines`
        collects the times that `timeout` was set to, one a wait. */
    method TimerWorker(start: Clock, script: seq<Wake>, ledOff: bool)
      returns (left: bool, waits: nat, off: bool, ghost deadlines: seq<Clock>)
      modifies this
      ensures var p := Play(old(Begin(start, durationMin, durationSec)), script);
              && left == p.Left?
              && (left ==> waits == p.waits && off == TurnsOff(p.l, ledOff))
              && (!left ==> waits == |script| && !off)
              && startedAt == p.l.started
              && durationMin == p.l.min && durationSec == p.l.sec
      ensures deadlines == Deadlines(old(Begin(start, durationMin, durationSec)), script)
      ensures timeout == if deadlines == [] then old(timeout) else deadlines[|deadlines| - 1]
    {
      waits, off, deadlines := 0, false, [];
      var clock: Clock := start;
      var endTime := Plus(clock, Total(durationMin, durationSec));
      startedAt := clock.sec;
      ghost var l := Begin(start, durationMin, durationSec);
      ghost var p, all := Play(l, script), Deadlines(l, script);
      while true
        invariant waits <= |script| && l == Loop(clock, durationMin, durationSec, startedAt, endTime.sec)
        invariant p == Later(Play(l, script[waits..]), waits)
        invariant all == deadlines + Deadlines(l, script[waits..])
        invariant timeout == if deadlines == [] then old(timeout) else deadlines[|deadlines| - 1]
        decreases |script| - waits
      {
        var remaining := endTime.sec - clock.sec;
        if remaining <= 0 {
          break;
        }
        timeout := Plus(clock, if remaining > 60 then remaining - 60 else 1);
        if waits == |script| {
          return false, waits, false, deadlines + [timeout];
        }
        var wake := script[waits];
        ghost var turn := Woken(l, wake);
        assert script[waits..][1..] == script[waits + 1..];
        OneMoreWait(l, script[waits..], turn, script[waits + 1..], waits, deadlines);
        deadlines := deadlines + [timeout];
        l, waits := turn.l, waits + 1;
        var again;
        clock, endTime, again := Wakened(wake, clock, endTime);
        if !again {
          break;
        }
      }
      left := true;
      if (durationMin != 0 || durationSec != 0) && !ledOff {
        off := true;
      }
    }
  }

  // ------------------------------------------------------------------- theorems

  predicate NoFailure(script: seq<Wake>) {
    forall i :: 0 <= i < |script| ==> !script[i].Failed?
  }

  /** The start or signal that set the duration in force after a script of wake-ups:
      when it came and what it asked for. */
  function InForce(start: Clock, min: int, sec: int, script: seq<Wake>): (Clock, int, int) {
    if script == [] then (start, min, sec)
    else match script[|script| - 1]
      case Signalled(at, m, s) => (at, m, s)
      case _ => InForce(start, min, sec, script[..|script| - 1])
  }

  lemma {:induction false} InForceCons(start: Clock, min: int, sec: int, script: seq<Wake>)
    requires script != []
    ensures InForce(start, min, sec, script) ==
            match script[0]
            case Signalled(at, m, s) => InForce(at, m, s, script[1..])
            case _ => InForce(start, min, sec, script[1..])
  {
    var n := |script| - 1;
    if n > 0 && !script[n].Signalled? {
      InForceCons(start, min, sec, script[..n]);
      assert script[..n][1..] == script[1..][..n - 1];
    }
  }

  /** The worker was told to stop: its last wake-up was a signal with nothing left to wait for. */
  predicate Stopped(script: seq<Wake>) {
    script != [] && match script[|script| - 1]
                    case Signalled(_, min, sec) => min <= 0 && sec <= 0
                    case _ => false
  }

  /** The invariant at every wait: the deadline is the latest start plus the duration in force. */
  predicate Aligned(l: Loop, start: Clock, min: int, sec: int) {
    l.min == min && l.sec == sec && l.started == start.sec && l.end == start.sec + Total(min, sec)
  }

  /** Where any possible run leaves the loop: either the deadline of the duration in
      force has passed, or the last wake-up was a stopping signal (and then the values
      it brought are the ones left behind). */
  lemma {:induction false} LeavesOnTime(l: Loop, start: Clock, min: int, sec: int, script: seq<Wake>)
    requires Aligned(l, start, min, sec) && PossibleScript(l, script) && NoFailure(script)
    ensures var p := Play(l, script);
            match p
            case Waiting(m) => var (at, a, b) := InForce(start, min, sec, script); Aligned(m, at, a, b)
            case Left(m, waits) =>
              && waits <= |script|
              && var used := script[..waits];
                 var (at, a, b) := InForce(start, min, sec, used);
                 && m.min == a && m.sec == b
                 && (Stopped(used) || (Aligned(m, at, a, b) && m.clock.sec >= at.sec + Total(a, b)))
    decreases |script|
  {
    if Remaining(l) > 0 && script != [] {
      var rest := script[1..];
      assert NoFailure(rest) by {
        assert forall i :: 0 <= i < |rest| ==> rest[i] == script[i + 1];
      }
      match script[0]
      case Failed(_) =>
      case TimedOut(at) =>
        LeavesOnTime(l.(clock := at), start, min, sec, rest);
        UsedCons(l.(clock := at), start, min, sec, script);
      case Signalled(at, m, s) =>
        if m <= 0 && s <= 0 {
          assert script[..1] == [script[0]];
        } else {
          LeavesOnTime(Begin(at, m, s), at, m, s, rest);
          UsedCons(Begin(at, m, s), start, min, sec, script);
        }
    }
  }

  lemma UsedCons(l: Loop, start: Clock, min: int, sec: int, script: seq<Wake>)
    requires script != []
    ensures var p := Play(l, script[1..]);
            && (p.Left? && p.waits < |script| ==>
                  var used := script[..p.waits + 1];
                  && used[0] == script[0] && used[1..] == script[1..][..p.waits]
                  && (p.waits > 0 ==> Stopped(used) == Stopped(used[1..]))
                  && InForce(start, min, sec, used) ==
                     (match script[0]
                      case Signalled(at, m, s) => InForce(at, m, s, used[1..])
                      case _ => InForce(start, min, sec, used[1..])))
            && InForce(start, min, sec, script) ==
               (match script[0]
                case Signalled(at, m, s) => InForce(at, m, s, script[1..])
                case _ => InForce(start, min, sec, script[1..]))
  {
    InForceCons(start, min, sec, script);
    var p := Play(l, script[1..]);
    if p.Left? && p.waits < |script| {
      InForceCons(start, min, sec, script[..p.waits + 1]);
    }
  }

  /** A run is possible exactly when every wait that times out does so no earlier than its
      own deadline, and no other wait ends before it began. */
  lemma {:induction false} PossibleMeansDeadlines(l: Loop, script: seq<Wake>)
    ensures PossibleScript(l, script) <==>
            forall i :: 0 <= i < |script| && i < |Deadlines(l, script)| ==>
                          InTime(l, script, Deadlines(l, script)[i], i)
    decreases |script|
  {
    if Remaining(l) > 0 && script != [] {
      var ds, rest := Deadlines(l, script), script[1..];
      assert Possible(l, script[0]) <==> InTime(l, script, ds[0], 0);
      match Woken(l, script[0])
      case Out(_) =>
      case Again(next) =>
        PossibleMeansDeadlines(next, rest);
        assert ds[1..] == Deadlines(next, rest);
        InTimeCons(l, next, script, ds);
    }
  }

  /** Wake-up i against the deadline of its wait. */
  predicate InTime(l: Loop, script: seq<Wake>, deadline: Clock, i: nat)
    requires i < |script|
  {
    AtMost(if script[i].TimedOut? then deadline else if i == 0 then l.clock else script[i - 1].at, script[i].at)
  }

  lemma InTimeCons(l: Loop, next: Loop, script: seq<Wake>, ds: seq<Clock>)
    requires script != [] && ds != [] && next.clock == script[0].at
    ensures (forall i :: 0 <= i < |script| && i < |ds| ==> InTime(l, script, ds[i], i)) <==>
            InTime(l, script, ds[0], 0) &&
            forall i :: 0 <= i < |script| - 1 && i < |ds| - 1 ==> InTime(next, script[1..], ds[1..][i], i)
  {
    assert forall i :: 0 <= i < |script| - 1 && i < |ds| - 1 ==>
                         InTime(next, script[1..], ds[1..][i], i) == InTime(l, script, ds[i + 1], i + 1);
    if forall i :: 0 <= i < |script| - 1 && i < |ds| - 1 ==> InTime(next, script[1..], ds[1..][i], i) {
      forall i | 1 <= i < |script| && i < |ds| ensures InTime(l, script, ds[i], i) {
        assert InTime(next, script[1..], ds[1..][i - 1], i - 1);
      }
    }
  }

  lemma SecondsApart(t: Clock, at: Clock, total: nat)
    requires t.sec >= at.sec + total
    ensures Nanoseconds(t) + SECOND > Nanoseconds(at) + SECOND * total
  {
  }

  /** Over every possible run without wait errors, however it is reset or cancelled:
      the device is asked off only once the duration in force has passed since it was
      set (to the second on the clock, less than one second early in real time), or
      at once by a stopping signal whose minutes are negative; and a stopping signal
      asks it off in no other case, so a cancel to zero never does. */
  lemma OffOnlyWhenDue(start: Clock, min: int, sec: int, script: seq<Wake>, ledOff: bool)
    requires PossibleScript(Begin(start, min, sec), script) && NoFailure(script)
    ensures var p := Play(Begin(start, min, sec), script);
            p.Left? ==>
              var used := script[..p.waits];
              var (at, a, b) := InForce(start, min, sec, used);
              if Stopped(used) then TurnsOff(p.l, ledOff) <==> a < 0 && !ledOff
              else && p.l.clock.sec >= at.sec + Total(a, b)
                   && Nanoseconds(p.l.clock) + SECOND > Nanoseconds(at) + SECOND * Total(a, b)
                   && (TurnsOff(p.l, ledOff) <==> !(a == 0 && b == 0) && !ledOff)
  {
    LeavesOnTime(Begin(start, min, sec), start, min, sec, script);
    var p := Play(Begin(start, min, sec), script);
    if p.Left? {
      var used := script[..p.waits];
      var (at, a, b) := InForce(start, min, sec, used);
      if !Stopped(used) {
        SecondsApart(p.l.clock, at, Total(a, b));
      }
    }
  }

  /** Every wait times out exactly at its deadline. */
  predicate Prompt(l: Loop, script: seq<Wake>)
    decreases |script|
  {
    script == [] || (script[0] == TimedOut(Timeout(l)) && Prompt(l.(clock := Timeout(l)), script[1..]))
  }

  lemma {:induction false} PromptLoop(l: Loop, script: seq<Wake>)
    requires Prompt(l, script) && |script| >= WaitsNeeded(l)
    ensures var p, ds, r := Play(l, script), Deadlines(l, script), Remaining(l);
            && p.Left? && p.waits == WaitsNeeded(l) == |ds|
            && p.l == l.(clock := if r > 0 then Plus(l.clock, r) else l.clock)
            && forall i :: 0 <= i < |ds| ==> ds[i] == Plus(l.clock, if r > 60 then r - 60 + i else i + 1)
    decreases |script|
  {
    if Remaining(l) > 0 {
      PromptLoop(l.(clock := Timeout(l)), script[1..]);
    }
  }

  /** Woken promptly, an untouched timer waits until a minute before its end and then once a
      second, and is out of its loop exactly when its duration is over. */
  lemma PromptRun(start: Clock, min: int, sec: int, script: seq<Wake>)
    requires Prompt(Begin(start, min, sec), script) && |script| >= 61
    ensures var l, t := Begin(start, min, sec), (60 * min + sec) % 0x1_0000_0000;
            var p, ds := Play(l, script), Deadlines(l, script);
            && p.Left? && p.waits == |ds| == (if t > 60 then 61 else t)
            && p.l.clock == Timespec(start.sec + t, start.nsec)
            && forall i :: 0 <= i < |ds| ==>
                 ds[i] == Timespec(start.sec + (if t > 60 then t - 60 + i else i + 1), start.nsec)
  {
    PromptLoop(Begin(start, min, sec), script);
  }

  lemma {:induction false} LeftByFailure(l: Loop, start: Clock, min: int, sec: int, script: seq<Wake>, i: nat)
    requires l.min == min && l.sec == sec
    requires i < |script| && script[i].Failed? && i < |Deadlines(l, script)|
    ensures var p, (_, a, b) := Play(l, script), InForce(start, min, sec, script[..i]);
            p.Left? && p.waits == i + 1 && p.l.clock == script[i].at && p.l.min == a && p.l.sec == b
    decreases |script|
  {
    if i > 0 {
      var next := Woken(l, script[0]).l;
      InForceCons(start, min, sec, script[..i]);
      assert script[..i][1..] == script[1..][..i - 1];
      LeftByFailure(next, if script[0].Signalled? then script[0].at else start, next.min, next.sec, script[1..], i - 1);
    }
  }

  /** A wait that fails ends the loop at once, and the device is asked off unless the
      duration then in force was zero or the device is off already. */
  lemma FailureLeaves(start: Clock, min: int, sec: int, script: seq<Wake>, i: nat, ledOff: bool)
    requires i < |script| && script[i].Failed? && i < |Deadlines(Begin(start, min, sec), script)|
    ensures var p, (_, a, b) := Play(Begin(start, min, sec), script), InForce(start, min, sec, script[..i]);
            p.Left? && p.waits == i + 1 && (TurnsOff(p.l, ledOff) <==> !(a == 0 && b == 0) && !ledOff)
  {
    LeftByFailure(Begin(start, min, sec), start, min, sec, script, i);
  }

  /** A reset of a running timer to minus one minute asks the device off at once. */
  lemma NegativeMinutesTurnOff()
    ensures var l, script := Begin(Timespec(0, 0), 5, 0), [Signalled(Timespec(1, 0), -1, 0)];
            PossibleScript(l, script) && Play(l, script).Left? && TurnsOff(Play(l, script).l, false)
  {
  }

  /** get_timer_left_sec, as an unsigned 32-bit number. */
  function TimerLeft(min: int, sec: int, started: int, now: int): int {
    var total, elapsed := Total(min, sec), now - started;
    if elapsed >= total then 0 else (total - elapsed) % UINT32
  }

  /** With every signal taken, the time shown as left is the time to the deadline. */
  lemma TimeLeftIsShown(start: Clock, min: int, sec: int, script: seq<Wake>, now: int)
    requires PossibleScript(Begin(start, min, sec), script) && NoFailure(script)
    ensures var p := Play(Begin(start, min, sec), script);
            p.Waiting? && now >= p.l.started ==>
              TimerLeft(p.l.min, p.l.sec, p.l.started, now) == if p.l.end > now then p.l.end - now else 0
  {
    LeavesOnTime(Begin(start, min, sec), start, min, sec, script);
  }

  // Waits that only time out.
  predicate OnlyTimeouts(script: seq<Wake>) {
    forall i :: 0 <= i < |script| ==> script[i].TimedOut?
  }

  /** One wait to bring the remainder down to a minute, then one a second. */
  function WaitsNeeded(l: Loop): nat {
    if Remaining(l) <= 0 then 0 else if Remaining(l) <= 60 then Remaining(l) else 61
  }

  lemma TimeoutAdvances(l: Loop, at: Clock)
    requires Remaining(l) > 0 && AtMost(Timeout(l), at)
    ensures WaitsNeeded(l.(clock := at)) < WaitsNeeded(l)
  {
  }

  lemma {:induction false} BoundedWaits(l: Loop, script: seq<Wake>)
    requires PossibleScript(l, script) && OnlyTimeouts(script)
    ensures var p := Play(l, script);
            && (p.Left? ==> p.waits <= WaitsNeeded(l) && p.l.min == l.min && p.l.sec == l.sec)
            && (|script| >= WaitsNeeded(l) ==> p.Left?)
    decreases |script|
  {
    if Remaining(l) > 0 && script != [] {
      var next := l.(clock := script[0].at);
      TimeoutAdvances(l, script[0].at);
      assert forall i :: 0 <= i < |script| - 1 ==> script[1..][i] == script[i + 1];
      BoundedWaits(next, script[1..]);
    }
  }

  /** A timer nobody touches waits at most 61 times, whatever its duration, and then
      asks the device off unless its duration was zero or the device is off already. */
  lemma UntouchedTimerEnds(start: Clock, min: int, sec: int, script: seq<Wake>, ledOff: bool)
    requires PossibleScript(Begin(start, min, sec), script) && OnlyTimeouts(script)
    ensures var p := Play(Begin(start, min, sec), script);
            && (p.Left? ==> p.waits <= 61)
            && (|script| >= 61 ==> p.Left?)
            && (p.Left? ==> (TurnsOff(p.l, ledOff) <==> (min != 0 || sec != 0) && !ledOff))
  {
    BoundedWaits(Begin(start, min, sec), script);
  }
}
