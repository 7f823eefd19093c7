/** The list of running timers: a doubly linked list with one node per timed
    button, appended to by start_timer and shortened by each worker that ends. */
module TimerList {
  import opened TimerWorker

  /** What one timer holds, apart from its links. */
  datatype Entry = Entry(button: int, min: int, sec: int, started: int)

  // --------------------------------------------------------------- specification

  datatype Op =
    | Start(button: int, min: int, sec: int, now: int)
    | Clear(button: int)
    | Restamp(button: int, now: int)
    | Exit(button: int)

  /** The place of a button's timer in the list, or the list's length. */
  function IndexOf(s: seq<Entry>, button: int): (i: nat)
    ensures i <= |s|
    ensures i < |s| ==> s[i].button == button
    ensures forall j :: 0 <= j < i ==> s[j].button != button
  {
    if s == [] || s[0].button == button then 0 else 1 + IndexOf(s[1..], button)
  }

  function Apply(s: seq<Entry>, op: Op): seq<Entry> {
    var i := IndexOf(s, op.button);
    match op
    case Start(b, min, sec, now) =>
      if i < |s| then s[i := s[i].(min := min, sec := sec)] else s + [Entry(b, min, sec, now)]
    case Clear(b) => if i < |s| then s[i := s[i].(min := 0, sec := 0)] else s
    case Restamp(b, now) => if i < |s| then s[i := s[i].(started := now)] else s
    case Exit(b) => if i < |s| then s[..i] + s[i + 1..] else s
  }

  function Run(ops: seq<Op>): seq<Entry> {
    if ops == [] then [] else Apply(Run(ops[..|ops| - 1]), ops[|ops| - 1])
  }

  predicate Distinct(s: seq<Entry>) {
    forall i, j :: 0 <= i < j < |s| ==> s[i].button != s[j].button
  }

  lemma IndexIs(s: seq<Entry>, k: nat)
    requires Distinct(s) && k < |s|
    ensures IndexOf(s, s[k].button) == k
  {
  }

  lemma RemovalDistinct(s: seq<Entry>, k: nat)
    requires Distinct(s) && k < |s|
    ensures Distinct(s[..k] + s[k + 1..])
  {
    var t := s[..k] + s[k + 1..];
    forall i, j | 0 <= i < j < |t| ensures t[i].button != t[j].button {
      assert t[i] == s[if i < k then i else i + 1] && t[j] == s[if j < k then j else j + 1];
    }
  }

  lemma Removal(s: seq<Entry>, k: nat)
    requires Distinct(s) && k < |s|
    ensures IndexOf(s, s[k].button) == k
    ensures Apply(s, Exit(s[k].button)) == s[..k] + s[k + 1..] && Distinct(s[..k] + s[k + 1..])
  {
    IndexIs(s, k);
    RemovalDistinct(s, k);
    ApplyExit(s, k, s[k].button);
  }

  lemma ApplyExit(s: seq<Entry>, k: nat, b: int)
    requires k < |s| && IndexOf(s, b) == k
    ensures Apply(s, Exit(b)) == s[..k] + s[k + 1..]
  {
  }

  // ---------------------------------------------------------------- whole runs

  /** Operation i started the button and no exit of the button has followed. */
  predicate StandingStart(ops: seq<Op>, b: int, i: nat) {
    && i < |ops| && ops[i].Start? && ops[i].button == b
    && forall j :: i < j < |ops| ==> !(ops[j].Exit? && ops[j].button == b)
  }

  ghost predicate Live(ops: seq<Op>, b: int) {
    exists i :: StandingStart(ops, b, i)
  }

  /** Operation i created the button's present timer: it is a standing start, and the
      button had no timer when it came. */
  ghost predicate BornAt(ops: seq<Op>, b: int, i: nat) {
    StandingStart(ops, b, i) && !Live(ops[..i], b)
  }

  lemma StandingSnoc(ops: seq<Op>, op: Op, b: int, i: nat)
    ensures StandingStart(ops + [op], b, i) <==>
            if op.button == b && op.Exit? then false
            else StandingStart(ops, b, i) || (i == |ops| && op.Start? && op.button == b)
  {
    var all := ops + [op];
    if i < |ops| {
      assert all[i] == ops[i];
      assert all[|ops|] == op;
      assert forall j :: i < j < |ops| ==> all[j] == ops[j];
    }
  }

  lemma LiveSnoc(ops: seq<Op>, op: Op, b: int)
    ensures Live(ops + [op], b) <==>
            if op.button != b then Live(ops, b)
            else !op.Exit? && (op.Start? || Live(ops, b))
  {
    forall i: nat {
      StandingSnoc(ops, op, b, i);
    }
    StandingSnoc(ops, op, b, |ops|);
    if op.button != b || !op.Exit? {
      if i: nat :| StandingStart(ops, b, i) {
        assert StandingStart(ops + [op], b, i);
      }
      if i: nat :| StandingStart(ops + [op], b, i) {
        assert i < |ops| ==> StandingStart(ops, b, i);
      }
    }
  }

  lemma BornSnoc(ops: seq<Op>, op: Op, b: int, i: nat)
    ensures BornAt(ops + [op], b, i) <==>
            if op.button == b && op.Exit? then false
            else BornAt(ops, b, i) || (i == |ops| && op.Start? && op.button == b && !Live(ops, b))
  {
    StandingSnoc(ops, op, b, i);
    if i <= |ops| {
      assert (ops + [op])[..i] == ops[..i];
      assert ops[..|ops|] == ops;
    }
  }

  lemma DistinctAfter(s: seq<Entry>, op: Op)
    requires Distinct(s)
    ensures Distinct(Apply(s, op))
  {
    var i := IndexOf(s, op.button);
    if op.Exit? && i < |s| {
      RemovalDistinct(s, i);
    }
  }

  /** Whether another button's timer is in the list does not change. */
  lemma OthersKept(s: seq<Entry>, op: Op, b: int)
    requires Distinct(s) && op.button != b
    ensures IndexOf(Apply(s, op), b) < |Apply(s, op)| <==> IndexOf(s, b) < |s|
  {
    var t, i, k := Apply(s, op), IndexOf(s, op.button), IndexOf(s, b);
    if k < |s| {
      assert t[if op.Exit? && i < k then k - 1 else k].button == b;
    }
  }

  lemma OwnAfter(s: seq<Entry>, op: Op)
    requires Distinct(s)
    ensures IndexOf(Apply(s, op), op.button) < |Apply(s, op)| <==>
            !op.Exit? && (op.Start? || IndexOf(s, op.button) < |s|)
  {
    var t, i := Apply(s, op), IndexOf(s, op.button);
    assert forall j :: 0 <= j < |s| && s[j].button == op.button ==> j == i;
    if !op.Exit? && i < |t| {
      assert t[i].button == op.button;
    }
  }

  lemma IndexAfter(s: seq<Entry>, op: Op, b: int)
    requires Distinct(s)
    ensures var t := Apply(s, op);
            && Distinct(t)
            && (IndexOf(t, b) < |t| <==>
                if op.button != b then IndexOf(s, b) < |s|
                else !op.Exit? && (op.Start? || IndexOf(s, b) < |s|))
  {
    DistinctAfter(s, op);
    if op.button == b {
      OwnAfter(s, op);
    } else {
      OthersKept(s, op, b);
    }
  }

  /** After any sequence of starts, cancels, restamps and exits the list holds exactly
      the live buttons, each once. */
  lemma {:induction false} ListHoldsLiveTimers(ops: seq<Op>, b: int)
    ensures Distinct(Run(ops))
    ensures IndexOf(Run(ops), b) < |Run(ops)| <==> Live(ops, b)
  {
    if ops == [] {
    } else {
      var init, op := ops[..|ops| - 1], ops[|ops| - 1];
      assert ops == init + [op];
      ListHoldsLiveTimers(init, b);
      IndexAfter(Run(init), op, b);
      LiveSnoc(init, op, b);
    }
  }

  /** The duration most recently asked for a button, by a start or a cancel. */
  function Asked(ops: seq<Op>, b: int): (int, int) {
    if ops == [] then (0, 0) else
    var op := ops[|ops| - 1];
    if op.button == b && op.Start? then (op.min, op.sec)
    else if op.button == b && op.Clear? then (0, 0)
    else Asked(ops[..|ops| - 1], b)
  }

  lemma EntryAfter(s: seq<Entry>, op: Op, b: int)
    requires Distinct(s) && IndexOf(Apply(s, op), b) < |Apply(s, op)|
    ensures var e := Apply(s, op)[IndexOf(Apply(s, op), b)];
            if op.button == b && op.Start? then (e.min, e.sec) == (op.min, op.sec)
            else IndexOf(s, b) < |s| &&
                 (e.min, e.sec) == if op.button == b && op.Clear? then (0, 0)
                                   else (s[IndexOf(s, b)].min, s[IndexOf(s, b)].sec)
  {
    var t, k := Apply(s, op), IndexOf(s, op.button);
    var i := IndexOf(t, b);
    IndexAfter(s, op, b);
    if op.Exit? && k < |s| {
      ApplyExit(s, k, op.button);
      PlaceCut(s, k, i);
      IndexIs(s, if k <= i then i + 1 else i);
    } else if i < |s| {
      IndexIs(s, i);
    }
  }

  /** A live timer holds the duration last asked for it. */
  lemma {:induction false} ListHoldsLatestDuration(ops: seq<Op>, b: int)
    requires Live(ops, b)
    ensures var i := IndexOf(Run(ops), b);
            i < |Run(ops)| && (Run(ops)[i].min, Run(ops)[i].sec) == Asked(ops, b)
  {
    var init, op := ops[..|ops| - 1], ops[|ops| - 1];
    assert ops == init + [op];
    ListHoldsLiveTimers(ops, b);
    ListHoldsLiveTimers(init, b);
    EntryAfter(Run(init), op, b);
    if !(op.button == b && op.Start?) {
      ListHoldsLatestDuration(init, b);
    }
  }

  /** When the duration in force began: at the last restamp of the button's timer since it
      was created, or else at the start that created it. */
  ghost function StampedAt(ops: seq<Op>, b: int): int {
    if ops == [] then 0 else
    var init, op := ops[..|ops| - 1], ops[|ops| - 1];
    if op.button == b && op.Restamp? && Live(init, b) then op.now
    else if op.button == b && op.Start? && !Live(init, b) then op.now
    else StampedAt(init, b)
  }

  lemma StampAfter(s: seq<Entry>, op: Op, b: int)
    requires Distinct(s) && IndexOf(Apply(s, op), b) < |Apply(s, op)|
    ensures var e, k := Apply(s, op)[IndexOf(Apply(s, op), b)], IndexOf(s, b);
            if op.button == b && op.Start? && k == |s| then e.started == op.now
            else k < |s| && e.started == if op.button == b && op.Restamp? then op.now else s[k].started
  {
    var t, k := Apply(s, op), IndexOf(s, op.button);
    var i := IndexOf(t, b);
    IndexAfter(s, op, b);
    if op.Exit? && k < |s| {
      ApplyExit(s, k, op.button);
      PlaceCut(s, k, i);
      IndexIs(s, if k <= i then i + 1 else i);
    } else if i < |s| {
      IndexIs(s, i);
    }
  }

  /** A live timer holds the time at which the duration in force began. */
  lemma {:induction false} ListHoldsLatestStamp(ops: seq<Op>, b: int)
    requires Live(ops, b)
    ensures var i := IndexOf(Run(ops), b);
            i < |Run(ops)| && Run(ops)[i].started == StampedAt(ops, b)
  {
    var init, op := ops[..|ops| - 1], ops[|ops| - 1];
    assert ops == init + [op];
    ListHoldsLiveTimers(ops, b);
    ListHoldsLiveTimers(init, b);
    StampAfter(Run(init), op, b);
    if Live(init, b) {
      ListHoldsLatestStamp(init, b);
    }
  }

  /** So what is shown as left is what remains of the duration last asked for, counted from
      when it began. */
  lemma SecondsLeft(ops: seq<Op>, b: int, now: int)
    requires Live(ops, b)
    ensures var (min, sec) := Asked(ops, b);
            var end := StampedAt(ops, b) + (60 * min + sec) % 0x1_0000_0000;
            SecondsShown(Run(ops), b, now) == if end > now then (end - now) % 0x1_0000_0000 else 0
  {
    ListHoldsLatestDuration(ops, b);
    ListHoldsLatestStamp(ops, b);
  }

  /** What the list shows for a button; none for a button without a timer. */
  function SecondsShown(s: seq<Entry>, b: int, now: int): int {
    var i := IndexOf(s, b);
    if i < |s| then TimerLeft(s[i].min, s[i].sec, s[i].started, now) else 0
  }

  /** A timer of ten minutes, reset after nine, shows ten again. */
  lemma ResetShowsFull()
    ensures var ops := [Start(7, 10, 0, 100), Restamp(7, 100), Start(7, 10, 0, 640), Restamp(7, 640)];
            SecondsShown(Run(ops), 7, 640) == 600
  {
    var a, b, c, d := Start(7, 10, 0, 100), Restamp(7, 100), Start(7, 10, 0, 640), Restamp(7, 640);
    assert [a, b, c, d][..3] == [a, b, c] && [a, b, c][..2] == [a, b] && [a, b][..1] == [a] && [a][..0] == [];
    assert Run([a]) == [Entry(7, 10, 0, 100)];
    assert Run([a, b]) == [Entry(7, 10, 0, 100)];
    assert Run([a, b, c]) == [Entry(7, 10, 0, 100)];
    assert Run([a, b, c, d]) == [Entry(7, 10, 0, 640)];
  }

  /** Where the entry at p stood before the operation; |s| if it was not there. */
  function PlaceBefore(s: seq<Entry>, op: Op, p: nat): nat {
    if op.Exit? && IndexOf(s, op.button) <= p then p + 1 else p
  }

  lemma PlaceKept(s: seq<Entry>, op: Op, p: nat)
    requires p < |Apply(s, op)| && IndexOf(s, op.button) < |s|
    ensures PlaceBefore(s, op, p) < |s| && s[PlaceBefore(s, op, p)].button == Apply(s, op)[p].button
  {
    if op.Exit? {
      ApplyExit(s, IndexOf(s, op.button), op.button);
      PlaceCut(s, IndexOf(s, op.button), p);
    }
  }

  lemma PlaceCut(s: seq<Entry>, k: nat, p: nat)
    requires k < |s| && p < |s| - 1
    ensures (s[..k] + s[k + 1..])[p] == s[if k <= p then p + 1 else p]
  {
  }

  /** Every timer that is running was created by one of the starts. */
  lemma {:induction false} EntryBorn(ops: seq<Op>, b: int) returns (i: nat)
    requires Live(ops, b)
    ensures BornAt(ops, b, i)
  {
    var init, op := ops[..|ops| - 1], ops[|ops| - 1];
    assert ops == init + [op];
    LiveSnoc(init, op, b);
    if Live(init, b) {
      i := EntryBorn(init, b);
    } else {
      i := |init|;
    }
    BornSnoc(init, op, b, i);
  }

  /** The timers stand in the order in which they were created. */
  lemma ListInStartOrder(ops: seq<Op>, p: nat, q: nat) returns (i: nat, j: nat)
    requires p < q < |Run(ops)|
    ensures BornAt(ops, Run(ops)[p].button, i) && BornAt(ops, Run(ops)[q].button, j) && i < j
  {
    var a, b := Run(ops)[p].button, Run(ops)[q].button;
    EntryIsLive(ops, p);
    EntryIsLive(ops, q);
    i := EntryBorn(ops, a);
    j := EntryBorn(ops, b);
    BirthsInOrder(ops, p, q, i, j);
  }

  lemma EntryIsLive(ops: seq<Op>, p: nat)
    requires p < |Run(ops)|
    ensures Live(ops, Run(ops)[p].button)
  {
    ListHoldsLiveTimers(ops, Run(ops)[p].button);
    IndexIs(Run(ops), p);
  }

  lemma {:induction false} BirthsInOrder(ops: seq<Op>, p: nat, q: nat, i: nat, j: nat)
    requires p < q < |Run(ops)|
    requires BornAt(ops, Run(ops)[p].button, i) && BornAt(ops, Run(ops)[q].button, j)
    ensures i < j
    decreases |ops|
  {
    var init, op := ops[..|ops| - 1], ops[|ops| - 1];
    assert ops == init + [op];
    var s, t := Run(init), Run(ops);
    var a, b := t[p].button, t[q].button;
    BornSnoc(init, op, a, i);
    BornSnoc(init, op, b, j);
    ListHoldsLiveTimers(init, a);
    ListHoldsLiveTimers(init, b);
    ListHoldsLiveTimers(ops, a);
    if IndexOf(s, op.button) < |s| {
      PlaceKept(s, op, p);
      PlaceKept(s, op, q);
      BirthsInOrder(init, PlaceBefore(s, op, p), PlaceBefore(s, op, q), i, j);
    } else if op.Start? && q == |s| {
      StartIsLatest(init, a, b, i, op, j);
    } else {
      BirthsInOrder(init, p, q, i, j);
    }
  }

  lemma StartIsLatest(init: seq<Op>, a: int, b: int, i: nat, op: Op, j: nat)
    requires op.Start? && op.button == b && a != b && !Live(init, b)
    requires BornAt(init + [op], a, i) && BornAt(init + [op], b, j)
    ensures i < j == |init|
  {
    BornSnoc(init, op, a, i);
    BornSnoc(init, op, b, j);
  }

  // ----------------------------------------------------------------- linked list

  class TimerThread {
    const button: int
    var durationMin: int
    var durationSec: int
    var startedAt: int
    var next: TimerThread?
    var prev: TimerThread?

    constructor (button: int, min: int, sec: int, now: int)
      ensures this.button == button && durationMin == min && durationSec == sec && startedAt == now
      ensures next == null && prev == null
    {
      this.button := button;
      durationMin, durationSec, startedAt := min, sec, now;
      next, prev := null, null;
    }

    function Value(): Entry
      reads `durationMin, `durationSec, `startedAt
    {
      Entry(button, durationMin, durationSec, startedAt)
    }
  }

  class Timers {
    var head: TimerThread?
    ghost var nodes: seq<TimerThread>
    ghost var contents: seq<Entry>

    /** prev and next are each other's inverse along nodes, which holds each node once
        and starts at head. */
    ghost predicate Linked()
      reads `head, `nodes, nodes
    {
      && (forall i, j :: 0 <= i < j < |nodes| ==> nodes[i] != nodes[j])
      && head == (if nodes == [] then null else nodes[0])
      && (forall i {:trigger nodes[i].prev} :: 0 <= i < |nodes| ==>
            nodes[i].prev == if i == 0 then null else nodes[i - 1])
      && (forall i {:trigger nodes[i].next} :: 0 <= i < |nodes| ==>
            nodes[i].next == if i == |nodes| - 1 then null else nodes[i + 1])
    }

    /** contents is what the nodes hold, each button at most once. */
    ghost predicate Valid()
      reads this, nodes
    {
      && Linked()
      && Distinct(contents)
      && |contents| == |nodes|
      && forall i :: 0 <= i < |nodes| ==> contents[i] == nodes[i].Value()
    }

    constructor ()
      ensures Valid() && contents == []
    {
      head := null;
      nodes, contents := [], [];
    }

    /** find_timerthread: the node of the button's timer, wherever it stands. */
    method Find(button: int) returns (t: TimerThread?)
      requires Valid()
      ensures var i := IndexOf(contents, button);
              t == if i < |nodes| then nodes[i] else null
    {
      t := head;
      ghost var k := 0;
      while t != null
        invariant 0 <= k <= |nodes|
        invariant t == if k < |nodes| then nodes[k] else null
        invariant forall j :: 0 <= j < k ==> contents[j].button != button
        decreases |nodes| - k
      {
        if t.button == button {
          return;
        }
        t := t.next;
        k := k + 1;
      }
    }

    /** get_timer_left_sec */
    method GetTimerLeftSec(button: int, now: int) returns (left: int)
      requires Valid()
      ensures left == SecondsShown(contents, button, now)
    {
      var t := Find(button);
      if t != null {
        var total := Total(t.durationMin, t.durationSec);
        var elapsed := now - t.startedAt;
        if elapsed >= total {
          return 0;
        }
        return (total - elapsed) % UINT32;
      }
      return 0;
    }

    /** The last node, found by running to the end of the list. */
    method Last() returns (t: TimerThread)
      requires Linked() && nodes != []
      ensures t == nodes[|nodes| - 1]
    {
      t := head;
      ghost var k := 0;
      while t.next != null
        invariant 0 <= k < |nodes| && t == nodes[k]
        decreases |nodes| - k
      {
        t := t.next;
        k := k + 1;
      }
    }

    /** Link a new node behind the last one. */
    method Append(added: TimerThread)
      requires Linked() && added !in nodes && added.next == null && added.prev == null
      modifies `head, `nodes, nodes`next, added`prev
      ensures Linked() && nodes == old(nodes) + [added]
    {
      if head == null {
        head := added;
        head.prev := null;
      } else {
        var t := Last();
        t.next := added;
        added.prev := t;
      }
      nodes := nodes + [added];
    }

    /** Give a running timer its new duration. */
    method SetDuration(t: TimerThread, ghost i: nat, min: int, sec: int)
      requires Valid() && i < |nodes| && t == nodes[i]
      modifies `contents, t`durationMin, t`durationSec
      ensures Valid()
      ensures contents == old(contents)[i := old(contents)[i].(min := min, sec := sec)]
    {
      t.durationMin := min;
      t.durationSec := sec;
      contents := contents[i := contents[i].(min := min, sec := sec)];
    }

    /** start_timer: give a running timer its new duration, or append a new one. */
    method StartTimer(button: int, min: int, sec: int, now: int)
      requires Valid()
      modifies this, nodes
      ensures Valid()
      ensures contents == Apply(old(contents), Start(button, min, sec, now))
      ensures old(nodes) <= nodes
      ensures |nodes| > |old(nodes)| ==> fresh(nodes[|old(nodes)|])
    {
      var t := Find(button);
      if t != null {
        SetDuration(t, IndexOf(contents, button), min, sec);
        return;
      }
      var added := new TimerThread(button, min, sec, now);
      Append(added);
      contents := contents + [Entry(button, min, sec, now)];
    }

    /** clear_timer */
    method ClearTimer(button: int)
      requires Valid()
      modifies `contents, nodes
      ensures Valid()
      ensures contents == Apply(old(contents), Clear(button))
    {
      var t := Find(button);
      if t != null {
        SetDuration(t, IndexOf(contents, button), 0, 0);
      }
    }

    /** timer_worker noting when the current duration began. */
    method RestampTimer(t: TimerThread, now: int)
      requires Valid() && t in nodes
      modifies this`contents, t`startedAt
      ensures Valid()
      ensures contents == Apply(old(contents), Restamp(t.button, now))
    {
      ghost var i :| 0 <= i < |nodes| && nodes[i] == t;
      IndexIs(contents, i);
      t.startedAt := now;
      contents := contents[i := contents[i].(started := now)];
    }

    /** The four cases of removing a node from the links. */
    method Splice(t: TimerThread, ghost k: nat)
      requires Linked() && k < |nodes| && t == nodes[k]
      modifies `head, `nodes, nodes`next, nodes`prev
      ensures Linked() && nodes == old(nodes)[..k] + old(nodes)[k + 1..]
    {
      if t.next != null && t.prev != null {
        t.next.prev := t.prev;
        t.prev.next := t.next;
      } else if t.next == null && t.prev != null {
        t.prev.next := null;
      } else if t.next != null && t.prev == null {
        head := t.next;
        head.prev := null;
      } else if t.next == null && t.prev == null {
        head := null;
      }
      nodes := nodes[..k] + nodes[k + 1..];
    }

    /** The end of timer_worker: its own node leaves the list, wherever it stands. */
    method Unlink(t: TimerThread)
      requires Valid() && t in nodes
      modifies this, nodes
      ensures Valid()
      ensures contents == Apply(old(contents), Exit(t.button))
      ensures var k := IndexOf(old(contents), t.button);
              k < |old(nodes)| && old(nodes)[k] == t && nodes == old(nodes)[..k] + old(nodes)[k + 1..]
    {
      ghost var k :| 0 <= k < |nodes| && nodes[k] == t;
      Removal(contents, k);
      label before:
      Splice(t, k);
      contents := contents[..k] + contents[k + 1..];
      forall i | 0 <= i < |nodes| ensures contents[i] == nodes[i].Value() {
        assert nodes[i] == old@before(nodes)[if i < k then i else i + 1];
      }
    }
  }
}
