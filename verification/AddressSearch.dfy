/** Finding a keypad address nobody uses: one that is probed three times without the
    probe being answered. */
module AddressSearch {
  import opened Wire

  const CMD_PROBE: byte := 0x00
  const FIRST_ID: byte := 0x08
  const LAST_ID: byte := 0x0B

  datatype Packet = Packet(dest: byte, cmd: byte)

  predicate IsProbe(p: Packet) {
    FIRST_ID <= p.dest <= LAST_ID && p.cmd == CMD_PROBE
  }

  // --------------------------------------------------------------- specification

  datatype State = State(counts: seq<nat>, lastId: byte)

  predicate Wf(s: State) {
    |s.counts| == 4 && (s.lastId == NUL || FIRST_ID <= s.lastId <= LAST_ID)
  }

  const START: State := State([0, 0, 0, 0], NUL)

  /** One packet: the next state, and the address to use, or NUL. */
  function Look(s: State, p: Packet): (r: (State, byte))
    requires Wf(s)
    ensures Wf(r.0)
  {
    if 0x08 <= p.dest <= 0x0B && p.cmd == CMD_PROBE then (s.(lastId := p.dest), NUL)
    else if p.dest == DEV_MASTER || s.lastId == NUL then (s.(lastId := NUL), NUL)
    else
      var k := s.lastId - FIRST_ID;
      var counts := s.counts[k := s.counts[k] + 1];
      if counts[k] >= 3 then (State(counts, s.lastId), s.lastId) else (State(counts, NUL), NUL)
  }

  class Finder {
    var id: array<nat>
    var lastId: byte

    ghost predicate Valid()
      reads this, id
    {
      id.Length == 4 && Wf(State(id[..], lastId))
    }

    constructor ()
      ensures Valid() && State(id[..], lastId) == START && fresh(id)
    {
      id := new nat[] [0, 0, 0, 0];
      lastId := NUL;
    }

    /** find_unused_address */
    method FindUnusedAddress(p: Packet) returns (found: byte)
      requires Valid()
      modifies this, id
      ensures Valid() && id == old(id)
      ensures (State(id[..], lastId), found) == Look(old(State(id[..], lastId)), p)
    {
      if FIRST_ID <= p.dest <= LAST_ID && p.cmd == CMD_PROBE {
        lastId := p.dest;
      } else if p.dest == DEV_MASTER && lastId != NUL {
        lastId := NUL;
      } else if lastId != NUL {
        id[lastId - 8] := id[lastId - 8] + 1;
        if id[lastId - 8] >= 3 {
          return lastId;
        }
        lastId := NUL;
      } else {
        lastId := NUL;
      }
      return NUL;
    }
  }

  // ------------------------------------------------------------------ whole runs

  /** The state after some packets and the address found, after which no more are looked at. */
  function Search(packets: seq<Packet>): (r: (State, byte))
    ensures Wf(r.0)
  {
    if packets == [] then (START, NUL) else
    var before := Search(packets[..|packets| - 1]);
    if before.1 != NUL then before else Look(before.0, packets[|packets| - 1])
  }

  /** Packet i probes the address and the next packet is neither to the master nor
      another keypad probe. */
  predicate UnansweredProbe(packets: seq<Packet>, i: nat, id: byte) {
    && i + 1 < |packets| && IsProbe(packets[i]) && packets[i].dest == id
    && packets[i + 1].dest != DEV_MASTER && !IsProbe(packets[i + 1])
  }

  /** How many unanswered probes of the address the packets hold. */
  function Unanswered(packets: seq<Packet>, id: byte): nat {
    if |packets| < 2 then 0
    else Unanswered(packets[..|packets| - 1], id) + (if UnansweredProbe(packets, |packets| - 2, id) then 1 else 0)
  }

  /** As long as nothing is found the counters are the numbers of unanswered probes. */
  predicate Counting(packets: seq<Packet>) {
    var s := Search(packets).0;
    && s.lastId == (if packets != [] && IsProbe(packets[|packets| - 1]) then packets[|packets| - 1].dest else NUL)
    && forall id: byte :: FIRST_ID <= id <= LAST_ID ==> s.counts[id - FIRST_ID] == Unanswered(packets, id) < 3
  }

  lemma {:induction false} CountsUntilFound(packets: seq<Packet>)
    ensures Search(packets).1 == NUL ==> Counting(packets)
    ensures packets != [] && Search(packets[..|packets| - 1]).1 == NUL && Search(packets).1 != NUL ==>
              var id := Search(packets).1;
              && FIRST_ID <= id <= LAST_ID && Unanswered(packets, id) == 3
              && forall other: byte :: FIRST_ID <= other <= LAST_ID && other != id ==> Unanswered(packets, other) < 3
  {
    if packets == [] {
    } else {
      var n := |packets| - 1;
      CountsUntilFound(packets[..n]);
      if n > 0 {
        assert packets[..n][n - 1] == packets[n - 1];
      }
    }
  }

  /** No address has three unanswered probes yet. */
  predicate NoneYet(packets: seq<Packet>) {
    forall id: byte :: FIRST_ID <= id <= LAST_ID ==> Unanswered(packets, id) < 3
  }

  /** Nothing is found if and only if no address has three unanswered probes yet. */
  lemma {:induction false} NothingFound(packets: seq<Packet>)
    ensures Search(packets).1 == NUL <==> NoneYet(packets)
  {
    CountsUntilFound(packets);
    if Search(packets).1 != NUL {
      var n := |packets| - 1;
      NothingFound(packets[..n]);
      if Search(packets[..n]).1 != NUL {
        var id: byte :| FIRST_ID <= id <= LAST_ID && Unanswered(packets[..n], id) >= 3;
        UnansweredGrows(packets, id);
      }
    }
  }

  lemma UnansweredGrows(packets: seq<Packet>, id: byte)
    requires packets != []
    ensures Unanswered(packets, id) >= Unanswered(packets[..|packets| - 1], id)
  {
  }

  /** The address found is the first to collect three unanswered probes: there is a
      prefix in which it has exactly three while every other address has fewer, and
      before whose end no address had three. */
  lemma {:induction false} FirstToThree(packets: seq<Packet>) returns (n: nat)
    requires Search(packets).1 != NUL
    ensures 0 < n <= |packets|
    ensures var id := Search(packets).1;
            && FIRST_ID <= id <= LAST_ID && Unanswered(packets[..n], id) == 3
            && (forall other: byte :: FIRST_ID <= other <= LAST_ID && other != id ==>
                  Unanswered(packets[..n], other) < 3)
            && NoneYet(packets[..n - 1])
  {
    var m := |packets| - 1;
    if Search(packets[..m]).1 != NUL {
      n := FirstToThree(packets[..m]);
      assert packets[..m][..n] == packets[..n] && packets[..m][..n - 1] == packets[..n - 1];
    } else {
      n := |packets|;
      assert packets[..n] == packets;
      CountsUntilFound(packets);
      NothingFound(packets[..m]);
    }
  }
}
