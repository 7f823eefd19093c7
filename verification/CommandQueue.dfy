/** The AllButton command channel: a bounded queue of keys for normal operation, one
    slot for the programming threads, and a counter that resends a menu key the
    panel has not answered. */
module CommandQueue {
  import opened Wire

  const MAX_STACK := 20

  const CMD_STATUS: byte := 0x02
  const CMD_MSG: byte := 0x03
  const CMD_MSG_LONG: byte := 0x04
  const CMD_MSG_LOOP_ST: byte := 0x08

  const KEY_MENU: byte := 0x09
  const KEY_LEFT: byte := 0x13
  const KEY_RIGHT: byte := 0x18
  const KEY_ENTER: byte := 0x1d

  predicate IsMessage(packetType: byte) {
    packetType == CMD_MSG || packetType == CMD_MSG_LONG || packetType == CMD_MSG_LOOP_ST
  }

  /** Keys the panel is expected to answer with a message. */
  predicate IsMenuKey(cmd: byte) {
    cmd == KEY_ENTER || cmd == KEY_RIGHT || cmd == KEY_LEFT || cmd == KEY_MENU
  }

  // --------------------------------------------------------------- specification

  datatype Channel = Channel(queue: seq<byte>, slot: byte, awaiting: int, lastSent: byte)

  const IDLE: Channel := Channel([], NUL, 0, NUL)

  /** Where the byte handed out by a pop came from. */
  datatype Source = Resent | FromSlot | FromQueue | Nothing

  datatype Pop = Pop(packetType: byte, programming: bool, cmd: byte, source: Source)

  function Pushed(c: Channel, cmd: byte): Channel {
    if |c.queue| < MAX_STACK then c.(queue := c.queue + [cmd]) else c
  }

  /** The byte a pop hands out and its source, the resend counter aside. */
  function Choice(c: Channel, packetType: byte, programming: bool): (byte, Source) {
    if programming then
      if c.slot != NUL && packetType == CMD_STATUS then (c.slot, FromSlot) else (NUL, Nothing)
    else if c.queue != [] && packetType == CMD_STATUS then (c.queue[0], FromQueue)
    else (NUL, Nothing)
  }

  function Resends(c: Channel, packetType: byte): bool {
    c.awaiting > 3 && !IsMessage(packetType)
  }

  function PopOf(c: Channel, packetType: byte, programming: bool): Pop {
    if Resends(c, packetType) then Pop(packetType, programming, c.lastSent, Resent)
    else var (cmd, source) := Choice(c, packetType, programming); Pop(packetType, programming, cmd, source)
  }

  function Popped(c: Channel, packetType: byte, programming: bool): Channel {
    var p := PopOf(c, packetType, programming);
    if p.source.Resent? then c.(awaiting := 0) else
    var waited := if c.awaiting <= 0 then c.awaiting else if IsMessage(packetType) then 0 else c.awaiting + 1;
    Channel(if p.source.FromQueue? then c.queue[1..] else c.queue,
            if p.source.FromSlot? then NUL else c.slot,
            if IsMenuKey(p.cmd) then 1 else waited,
            if IsMenuKey(p.cmd) then p.cmd else c.lastSent)
  }

  // -------------------------------------------------------------------- the code

  class AllButton {
    var commands: array<byte>
    var stackPlace: nat
    var pgmCommand: byte
    var expectNextMessage: int
    var lastSentCommand: byte

    ghost predicate Valid()
      reads this
    {
      commands.Length == MAX_STACK && stackPlace <= MAX_STACK
    }

    ghost function Value(): Channel
      requires Valid()
      reads this, commands
    {
      Channel(commands[..stackPlace], pgmCommand, expectNextMessage, lastSentCommand)
    }

    constructor ()
      ensures Valid() && Value() == IDLE && fresh(commands)
    {
      commands := new byte[MAX_STACK];
      stackPlace, pgmCommand, expectNextMessage, lastSentCommand := 0, NUL, 0, NUL;
    }

    /** push_allb_cmd */
    method Push(cmd: byte) returns (accepted: bool)
      requires Valid()
      modifies this, commands
      ensures Valid() && commands == old(commands)
      ensures Value() == Pushed(old(Value()), cmd)
      ensures accepted == (old(stackPlace) < MAX_STACK)
    {
      if stackPlace < MAX_STACK {
        commands[stackPlace] := cmd;
        stackPlace := stackPlace + 1;
      } else {
        return false;
      }
      return true;
    }

    /** pop_allb_cmd; `programming` says a thread is programming and it is not a
        OneTouch or AqualinkTouch one. */
    method PopCommand(packetType: byte, programming: bool) returns (cmd: byte)
      requires Valid()
      modifies this, commands
      ensures Valid() && commands == old(commands)
      ensures Value() == Popped(old(Value()), packetType, programming)
      ensures cmd == PopOf(old(Value()), packetType, programming).cmd
    {
      cmd := NUL;
      if expectNextMessage > 0 && IsMessage(packetType) {
        expectNextMessage := 0;
      } else if expectNextMessage > 3 {
        expectNextMessage := 0;
        return lastSentCommand;
      } else if expectNextMessage > 0 {
        expectNextMessage := expectNextMessage + 1;
      }

      if programming {
        if pgmCommand != NUL && packetType == CMD_STATUS {
          cmd := pgmCommand;
          pgmCommand := NUL;
        }
      } else if stackPlace > 0 && packetType == CMD_STATUS {
        cmd := commands[0];
        stackPlace := stackPlace - 1;
        forall i | 0 <= i < stackPlace {
          commands[i] := commands[i + 1];
        }
      }

      if cmd == KEY_ENTER || cmd == KEY_RIGHT || cmd == KEY_LEFT || cmd == KEY_MENU {
        expectNextMessage := 1;
        lastSentCommand := cmd;
      }
    }
  }

  // ------------------------------------------------------------------ whole runs

  datatype Event = Push(cmd: byte) | SetSlot(cmd: byte) | Ask(packetType: byte, programming: bool)

  /** The channel after some events, with everything accepted into the queue, everything
      taken out of it, everything put into the slot, everything the slot handed out, and
      every pop. */
  datatype History = History(channel: Channel, accepted: seq<byte>, taken: seq<byte>,
                             placed: seq<byte>, served: seq<byte>, pops: seq<Pop>)

  function Next(h: History, e: Event): History {
    match e
    case Push(cmd) =>
      h.(channel := Pushed(h.channel, cmd),
         accepted := if |h.channel.queue| < MAX_STACK then h.accepted + [cmd] else h.accepted)
    case SetSlot(cmd) => h.(channel := h.channel.(slot := cmd), placed := h.placed + [cmd])
    case Ask(packetType, programming) =>
      var p := PopOf(h.channel, packetType, programming);
      h.(channel := Popped(h.channel, packetType, programming),
         taken := if p.source.FromQueue? then h.taken + [p.cmd] else h.taken,
         served := if p.source.FromSlot? then h.served + [p.cmd] else h.served,
         pops := h.pops + [p])
  }

  function Play(events: seq<Event>): History {
    if events == [] then History(IDLE, [], [], [], [], [])
    else Next(Play(events[..|events| - 1]), events[|events| - 1])
  }

  predicate Fifo(h: History) {
    h.taken + h.channel.queue == h.accepted && |h.channel.queue| <= MAX_STACK
  }

  lemma FifoKept(h: History, e: Event)
    requires Fifo(h)
    ensures Fifo(Next(h, e))
  {
    var q := h.channel.queue;
    match e
    case Push(cmd) => assert h.taken + (q + [cmd]) == (h.taken + q) + [cmd];
    case SetSlot(_) =>
    case Ask(packetType, programming) =>
      if PopOf(h.channel, packetType, programming).source.FromQueue? {
        assert h.taken + q == (h.taken + [q[0]]) + q[1..];
      }
  }

  /** The queue is first in, first out, loses nothing, repeats nothing, and never
      holds more than twenty keys. */
  lemma {:induction false} QueueIsFifo(events: seq<Event>)
    ensures Fifo(Play(events))
  {
    if events == [] {
    } else {
      QueueIsFifo(events[..|events| - 1]);
      FifoKept(Play(events[..|events| - 1]), events[|events| - 1]);
    }
  }

  /** s can be had from t by leaving some of its elements out. */
  predicate Subsequence(s: seq<byte>, t: seq<byte>) {
    s == [] ||
    (t != [] &&
     (Subsequence(s, t[..|t| - 1]) ||
      (s[|s| - 1] == t[|t| - 1] && Subsequence(s[..|s| - 1], t[..|t| - 1]))))
  }

  lemma SubsequenceSnoc(s: seq<byte>, t: seq<byte>, b: byte)
    requires Subsequence(s, t)
    ensures Subsequence(s, t + [b]) && Subsequence(s + [b], t + [b])
  {
    assert (t + [b])[..|t|] == t && (s + [b])[..|s|] == s;
  }

  /** The keys served are among those placed, in order; a key still in the slot is the one
      placed last, and is not among them yet. */
  predicate SlotInOrder(h: History) {
    && Subsequence(h.served, h.placed)
    && (h.channel.slot != NUL ==> h.placed != [] && h.channel.slot == h.placed[|h.placed| - 1]
                                  && Subsequence(h.served, h.placed[..|h.placed| - 1]))
  }

  /** What the slot hands out are programming keys that were put there, in order, each
      at most once: a key is lost only when another is put over it. */
  lemma {:induction false} SlotServesInOrder(events: seq<Event>)
    ensures SlotInOrder(Play(events))
  {
    if events == [] {
    } else {
      SlotServesInOrder(events[..|events| - 1]);
      SlotKept(Play(events[..|events| - 1]), events[|events| - 1]);
    }
  }

  lemma SlotKept(h: History, e: Event)
    requires SlotInOrder(h)
    ensures SlotInOrder(Next(h, e))
  {
    match e
    case Push(_) =>
    case SetSlot(cmd) =>
      SubsequenceSnoc(h.served, h.placed, cmd);
      assert (h.placed + [cmd])[..|h.placed|] == h.placed;
    case Ask(packetType, programming) =>
      if PopOf(h.channel, packetType, programming).source.FromSlot? {
        var n := |h.placed| - 1;
        SubsequenceSnoc(h.served, h.placed[..n], h.placed[n]);
        assert h.placed[..n] + [h.placed[n]] == h.placed;
      }
  }

  /** A pop that hands out a menu key for the first time. */
  predicate MenuSend(p: Pop) {
    !p.source.Resent? && IsMenuKey(p.cmd)
  }

  /** The k-th pop from the end sent a menu key, and none since has sent another or
      seen a message. */
  predicate Unanswered(pops: seq<Pop>, k: nat) {
    && 1 <= k <= |pops| && MenuSend(pops[|pops| - k])
    && forall m :: |pops| - k < m < |pops| ==> !IsMessage(pops[m].packetType) && !MenuSend(pops[m])
  }

  lemma UnansweredSnoc(pops: seq<Pop>, p: Pop, k: nat)
    requires k >= 1
    ensures Unanswered(pops + [p], k) <==>
            if k == 1 then MenuSend(p)
            else Unanswered(pops, k - 1) && !IsMessage(p.packetType) && !MenuSend(p)
  {
    var all := pops + [p];
    assert forall m :: 0 <= m < |pops| ==> all[m] == pops[m];
    if k > 1 && Unanswered(all, k) {
      assert !IsMessage(all[|pops|].packetType);
      assert forall m :: |pops| - (k - 1) < m < |pops| ==> all[m] == pops[m];
    }
  }

  /** The counter is exactly how many pops ago the unanswered menu key was sent. */
  predicate CounterTracks(h: History) {
    && 0 <= h.channel.awaiting <= 4
    && (forall k :: 1 <= k <= 4 ==> (Unanswered(h.pops, k) <==> h.channel.awaiting == k))
    && (h.channel.awaiting > 0 ==>
          h.channel.awaiting <= |h.pops| && h.pops[|h.pops| - h.channel.awaiting].cmd == h.channel.lastSent)
  }

  lemma TracksOn(h: History, e: Event)
    requires CounterTracks(h)
    ensures CounterTracks(Next(h, e))
  {
    if e.Ask? {
      var p := PopOf(h.channel, e.packetType, e.programming);
      forall k | 1 <= k <= 4
        ensures Unanswered(h.pops + [p], k) <==> Next(h, e).channel.awaiting == k
      {
        UnansweredSnoc(h.pops, p, k);
      }
    }
  }

  lemma {:induction false} CounterAlwaysTracks(events: seq<Event>)
    ensures CounterTracks(Play(events))
  {
    if events == [] {
    } else {
      CounterAlwaysTracks(events[..|events| - 1]);
      TracksOn(Play(events[..|events| - 1]), events[|events| - 1]);
    }
  }

  /** What a pop may be, given the pops before it. */
  predicate ProperPop(before: seq<Pop>, p: Pop) {
    && (p.source.Resent? <==> Unanswered(before, 4) && !IsMessage(p.packetType))
    && (p.source.Resent? ==> p.cmd == before[|before| - 4].cmd)
    && (!p.source.Resent? && p.cmd != NUL ==> p.packetType == CMD_STATUS)
    && (p.source.FromQueue? ==> !p.programming)
    && (p.source.FromSlot? ==> p.programming)
    && (p.source.Nothing? ==> p.cmd == NUL)
  }

  /** Over every run of pushes, slot settings and pops: a pop is a resend if and only if
      a menu key was sent four pops earlier with no other since and no message at any
      of the four, and then it repeats that key; any other byte handed out answers a
      status packet, comes from the queue only outside programming mode and from the
      slot only inside it. */
  lemma {:induction false} EveryPopIsProper(events: seq<Event>, n: nat)
    requires n < |Play(events).pops|
    ensures ProperPop(Play(events).pops[..n], Play(events).pops[n])
  {
    var init := events[..|events| - 1];
    var h, e := Play(init), events[|events| - 1];
    if n < |h.pops| {
      EveryPopIsProper(init, n);
      assert Play(events).pops[..n] == h.pops[..n];
    } else {
      CounterAlwaysTracks(init);
      assert Play(events).pops[..n] == h.pops;
      NextPopIsProper(h, e);
    }
  }

  lemma NextPopIsProper(h: History, e: Event)
    requires CounterTracks(h) && e.Ask?
    ensures ProperPop(h.pops, PopOf(h.channel, e.packetType, e.programming))
  {
    assert h.channel.awaiting == 4 <==> Unanswered(h.pops, 4);
  }

  /** Between two resends a fresh menu key is always sent. */
  lemma FreshSendBetweenResends(events: seq<Event>, n: nat, m: nat)
    requires n < m < |Play(events).pops|
    requires Play(events).pops[n].source.Resent? && Play(events).pops[m].source.Resent?
    ensures n < m - 4 && MenuSend(Play(events).pops[m - 4])
  {
    var pops := Play(events).pops;
    EveryPopIsProper(events, n);
    EveryPopIsProper(events, m);
    assert pops[..m][m - 4] == pops[m - 4] && pops[..n][n - 4] == pops[n - 4];
    assert forall i :: 0 <= i < n ==> pops[..n][i] == pops[i];
    assert forall i :: 0 <= i < m ==> pops[..m][i] == pops[i];
  }

  // -------------------------------------------------------------------- service

  /** The programming key waiting in the slot: the one put there last, unless a status
      packet in programming mode has been answered with it since. */
  function WaitingKey(events: seq<Event>): byte {
    if events == [] then NUL else
    var init := events[..|events| - 1];
    match events[|events| - 1]
    case Push(_) => WaitingKey(init)
    case SetSlot(cmd) => cmd
    case Ask(packetType, programming) =>
      var pops := Play(events).pops;
      if packetType == CMD_STATUS && programming && !LastResent(pops) then NUL else WaitingKey(init)
  }

  predicate LastResent(pops: seq<Pop>) {
    pops != [] && pops[|pops| - 1].source.Resent?
  }

  lemma {:induction false} SlotIsWaitingKey(events: seq<Event>)
    ensures Play(events).channel.slot == WaitingKey(events)
  {
    if events == [] {
    } else {
      SlotIsWaitingKey(events[..|events| - 1]);
    }
  }

  /** Over every history, what a pop answers that is no resend: to a status packet outside
      programming mode the first key accepted and not yet taken, inside it the key waiting
      in the slot, and to anything else nothing. */
  lemma PopServes(events: seq<Event>, packetType: byte, programming: bool)
    ensures var h, p := Play(events), PopOf(Play(events).channel, packetType, programming);
            !p.source.Resent? ==>
              && (p.source.FromQueue? <==>
                  packetType == CMD_STATUS && !programming && |h.accepted| > |h.taken|)
              && (p.source.FromSlot? <==>
                  packetType == CMD_STATUS && programming && WaitingKey(events) != NUL)
              && p.cmd == (if packetType != CMD_STATUS then NUL
                           else if programming then WaitingKey(events)
                           else if |h.accepted| > |h.taken| then h.accepted[|h.taken|] else NUL)
  {
    QueueIsFifo(events);
    SlotIsWaitingKey(events);
    var h := Play(events);
    assert h.accepted == h.taken + h.channel.queue;
  }

  const POLL: Event := Ask(CMD_STATUS, false)

  /** n status packets in a row outside programming mode. */
  function Polls(events: seq<Event>, n: nat): seq<Event> {
    if n == 0 then events else Polls(events, n - 1) + [POLL]
  }

  /** What they do to a history. */
  function Polled(h: History, n: nat): History {
    if n == 0 then h else Next(Polled(h, n - 1), POLL)
  }

  lemma PlaySnoc(events: seq<Event>, e: Event)
    ensures Play(events + [e]) == Next(Play(events), e)
  {
    assert (events + [e])[..|events|] == events;
  }

  lemma {:induction false} PollsAre(events: seq<Event>, n: nat)
    ensures Play(Polls(events, n)) == Polled(Play(events), n)
  {
    if n == 0 {
    } else {
      PollsAre(events, n - 1);
      PlaySnoc(Polls(events, n - 1), POLL);
    }
  }

  /** Over every history a key pushed is accepted if and only if fewer than twenty accepted
      keys are still to be taken; none is taken by that. */
  lemma PushAccepted(events: seq<Event>, cmd: byte)
    ensures var h, g := Play(events), Play(events + [Push(cmd)]);
            && g.taken == h.taken
            && g.accepted == if |h.accepted| - |h.taken| < 20 then h.accepted + [cmd] else h.accepted
  {
    QueueIsFifo(events);
    PlaySnoc(events, Push(cmd));
    assert |Play(events).accepted| == |Play(events).taken| + |Play(events).channel.queue|;
  }

  function UpTo(s: seq<byte>, n: nat): seq<byte> {
    if n <= |s| then s[..n] else s
  }

  /** One of them takes the next key, if it is no resend. */
  lemma OnePoll(h: History, g: History)
    requires Fifo(h) && g == Next(h, POLL)
    ensures Fifo(g) && g.accepted == h.accepted && |h.taken| <= |h.accepted|
    ensures g.taken == UpTo(h.accepted, if LastResent(g.pops) then |h.taken| else |h.taken| + 1)
  {
    FifoKept(h, POLL);
    assert h.accepted == h.taken + h.channel.queue;
  }

  /** None of them is a resend. */
  predicate NoResend(h: History, n: nat) {
    n == 0 || (NoResend(h, n - 1) && !LastResent(Polled(h, n).pops))
  }

  lemma {:induction false} PolledServes(h: History, n: nat)
    requires Fifo(h) && NoResend(h, n)
    ensures var g := Polled(h, n);
            && Fifo(g) && g.accepted == h.accepted && |h.taken| <= |h.accepted|
            && g.taken == UpTo(h.accepted, |h.taken| + n)
  {
    if n == 0 {
      assert h.accepted == h.taken + h.channel.queue;
    } else {
      PolledServes(h, n - 1);
      OnePoll(Polled(h, n - 1), Polled(h, n));
    }
  }

  /** n of them of which none is a resend hand out the next n waiting keys, or all. */
  lemma PollsServe(events: seq<Event>, n: nat)
    requires NoResend(Play(events), n)
    ensures var h, g := Play(events), Play(Polls(events, n));
            g.accepted == h.accepted && g.taken == UpTo(h.accepted, |h.taken| + n)
  {
    QueueIsFifo(events);
    PollsAre(events, n);
    PolledServes(Play(events), n);
  }

  /** No two pops in a row resend, so of two of them one takes a key if any waits. */
  lemma TwoPolls(h: History, g: History, f: History)
    requires Fifo(h) && g == Next(h, POLL) && f == Next(g, POLL)
    ensures Fifo(f) && f.accepted == h.accepted && |h.taken| <= |f.taken| <= |f.accepted|
    ensures |h.taken| < |h.accepted| ==> |f.taken| > |h.taken|
  {
    OnePoll(h, g);
    OnePoll(g, f);
    assert !(LastResent(g.pops) && LastResent(f.pops));
  }

  lemma {:induction false} PolledEmpties(h: History, n: nat)
    requires Fifo(h)
    ensures var g := Polled(h, 2 * n);
            && Fifo(g) && g.accepted == h.accepted && |h.taken| <= |h.accepted|
            && |UpTo(h.accepted, |h.taken| + n)| <= |g.taken| <= |h.accepted|
  {
    if n == 0 {
      assert h.accepted == h.taken + h.channel.queue;
    } else {
      PolledEmpties(h, n - 1);
      TwoPolls(Polled(h, 2 * n - 2), Polled(h, 2 * n - 1), Polled(h, 2 * n));
    }
  }

  /** Every key accepted is handed out: whatever the history, forty status packets in a row
      outside programming mode empty the queue. */
  lemma FortyPollsEmpty(events: seq<Event>)
    ensures Play(Polls(events, 40)).channel.queue == []
    ensures Play(Polls(events, 40)).taken == Play(events).accepted
  {
    var n: nat := 20;
    QueueIsFifo(events);
    PolledEmpties(Play(events), n);
    PollsAre(events, 2 * n);
    var g := Polled(Play(events), 2 * n);
    assert g.accepted == g.taken + g.channel.queue;
  }

  // -------------------------------------------------------------------- a resend

  /** From the start: a key, the status packet it answers, and four more packets. */
  function KeyThenFour(key: byte, a: byte, b: byte, c: byte, d: byte): seq<Event> {
    [Push(key), POLL, Ask(a, false), Ask(b, false), Ask(c, false), Ask(d, false)]
  }

  predicate Silent(packetType: byte) {
    packetType != 0x03 && packetType != 0x04 && packetType != 0x08
  }

  /** The key comes out a second time if and only if it is ENTER, RIGHT, LEFT or MENU and
      none of the four packets is a message of one of the three kinds. */
  lemma KeyResent(key: byte, a: byte, b: byte, c: byte, d: byte)
    requires key != NUL
    ensures var pops := Play(KeyThenFour(key, a, b, c, d)).pops;
            && |pops| == 5 && pops[0].cmd == key
            && pops[1].cmd == NUL && pops[2].cmd == NUL && pops[3].cmd == NUL
            && pops[4].cmd == if key in [0x1d, 0x18, 0x13, 0x09] && Silent(a) && Silent(b) && Silent(c) && Silent(d)
                              then key else NUL
  {
    var sent := [Push(key), POLL];
    KeySent(key);
    AskedAgain(sent, a);
    AskedAgain(sent + [Ask(a, false)], b);
    AskedAgain(sent + [Ask(a, false)] + [Ask(b, false)], c);
    AskedAgain(sent + [Ask(a, false)] + [Ask(b, false)] + [Ask(c, false)], d);
    assert KeyThenFour(key, a, b, c, d) ==
           sent + [Ask(a, false)] + [Ask(b, false)] + [Ask(c, false)] + [Ask(d, false)];
  }

  lemma KeySent(key: byte)
    requires key != NUL
    ensures var h := Play([Push(key), POLL]);
            && h.channel == Channel([], NUL, if key in [0x1d, 0x18, 0x13, 0x09] then 1 else 0,
                                    if key in [0x1d, 0x18, 0x13, 0x09] then key else NUL)
            && |h.pops| == 1 && h.pops[0].cmd == key
  {
    PlaySnoc([], Push(key));
    PlaySnoc([Push(key)], POLL);
    assert [] + [Push(key)] == [Push(key)] && [Push(key)] + [POLL] == [Push(key), POLL];
  }

  /** One packet with nothing to send: the count goes on, is called off by a message, or
      ends in a resend. */
  lemma AskedAgain(events: seq<Event>, packetType: byte)
    requires Play(events).channel.queue == [] && 0 <= Play(events).channel.awaiting <= 4
    ensures var h, g := Play(events), Play(events + [Ask(packetType, false)]);
            && |g.pops| == |h.pops| + 1 && g.pops[..|h.pops|] == h.pops && g.channel.queue == []
            && (var w := h.channel.awaiting;
                if w == 4 && Silent(packetType) then g.pops[|h.pops|].cmd == h.channel.lastSent
                else && g.pops[|h.pops|].cmd == NUL && g.channel.lastSent == h.channel.lastSent
                     && g.channel.awaiting == if w == 0 || !Silent(packetType) then 0 else w + 1)
  {
    PlaySnoc(events, Ask(packetType, false));
  }
}
