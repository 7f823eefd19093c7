/** Matching replies to requests on the Jandy line: a reply goes to the master and
    does not say who sent it, so it is attributed to the device addressed just before. */
module JandyReplies {
  import opened Wire

  datatype Device = NoDevice | Swg | EPump | Jxi | Lx | ChemFeed | HeatPump | JLight | ChemAnalyzer

  /** Which device classes are read, and whether AqualinkTouch status is, on which ID it is not. */
  datatype Config = Config(enabled: set<Device>, readsTouch: bool, extendedId: byte)

  predicate Between(id: byte, min: byte, max: byte) {
    min <= id <= max
  }

  predicate HasId(d: Device, id: byte) {
    match d
    case NoDevice => false
    case Swg => Between(id, 0x50, 0x53)
    case EPump => Between(id, 0x78, 0x7B) || Between(id, 0xE0, 0xE3)
    case Jxi => Between(id, 0x68, 0x6B)
    case Lx => Between(id, 0x38, 0x3B)
    case ChemFeed => Between(id, 0x80, 0x83)
    case ChemAnalyzer => Between(id, 0x84, 0x87)
    case HeatPump => Between(id, 0x70, 0x73)
    case JLight => Between(id, 0xF0, 0xF4)
  }

  predicate IsTouchId(id: byte) {
    Between(id, 0x30, 0x33)
  }

  predicate Tracks(cfg: Config, d: Device, id: byte) {
    d in cfg.enabled && HasId(d, id)
  }

  /** The handler a packet is given to, with the device address concerned. */
  datatype Action =
    | FromDevice(device: Device, address: byte)
    | Missing(device: Device, address: byte)
    | ToDevice(device: Device, address: byte)
    | TouchStatus
    | Ignored

  datatype State = State(interested: Device, previousTo: byte)

  const START: State := State(NoDevice, NUL)

  /** A packet's destination, and whether the chlorinator is known to be off just then. */
  datatype Packet = Packet(dest: byte, swgOff: bool)

  /** The class and enabledness of a destination: at most one class has any ID. */
  function Tracked(cfg: Config, id: byte): (d: Device)
    ensures d.NoDevice? ==> forall e :: !Tracks(cfg, e, id)
    ensures !d.NoDevice? ==> Tracks(cfg, d, id)
  {
    if Tracks(cfg, Swg, id) then Swg
    else if Tracks(cfg, EPump, id) then EPump
    else if Tracks(cfg, Jxi, id) then Jxi
    else if Tracks(cfg, Lx, id) then Lx
    else if Tracks(cfg, ChemFeed, id) then ChemFeed
    else if Tracks(cfg, ChemAnalyzer, id) then ChemAnalyzer
    else if Tracks(cfg, HeatPump, id) then HeatPump
    else if Tracks(cfg, JLight, id) then JLight
    else NoDevice
  }

  function Process(cfg: Config, s: State, p: Packet): (State, Action) {
    if !s.interested.NoDevice? then
      (START,
       if p.dest == DEV_MASTER then FromDevice(s.interested, s.previousTo)
       else if s.interested.EPump? || (s.interested.Swg? && !p.swgOff) then Missing(s.interested, s.previousTo)
       else Ignored)
    else
      var d := Tracked(cfg, p.dest);
      if !d.NoDevice? then (State(d, p.dest), ToDevice(d, p.dest))
      else if cfg.readsTouch && IsTouchId(p.dest) && p.dest != cfg.extendedId then (s, TouchStatus)
      else (START, Ignored)
  }

  class Line {
    const cfg: Config
    var interestedInNextAck: Device
    var previousPacketTo: byte

    constructor (cfg: Config)
      ensures this.cfg == cfg && Value() == START
    {
      this.cfg, interestedInNextAck, previousPacketTo := cfg, NoDevice, NUL;
    }

    function Value(): State
      reads this
    {
      State(interestedInNextAck, previousPacketTo)
    }

    /** processJandyPacket; the handlers are represented by the returned action. */
    method ProcessJandyPacket(p: Packet) returns (action: Action)
      modifies this
      ensures (Value(), action) == Process(cfg, old(Value()), p)
    {
      action := Ignored;
      if p.dest == DEV_MASTER && interestedInNextAck != NoDevice {
        action := FromDevice(interestedInNextAck, previousPacketTo);
        interestedInNextAck := NoDevice;
        previousPacketTo := NUL;
      } else if p.dest != DEV_MASTER && interestedInNextAck != NoDevice {
        if interestedInNextAck == Swg && !p.swgOff {
          action := Missing(Swg, previousPacketTo);
        } else if interestedInNextAck == EPump {
          action := Missing(EPump, previousPacketTo);
        }
        interestedInNextAck := NoDevice;
        previousPacketTo := NUL;
      } else {
        action := ProcessRequest(p);
      }
    }

    /** Its second half: nothing is awaited, so the packet may be a request. */
    method ProcessRequest(p: Packet) returns (action: Action)
      requires interestedInNextAck == NoDevice
      modifies this
      ensures (Value(), action) == Process(cfg, old(Value()), p)
    {
      action := Ignored;
      if Swg in cfg.enabled && HasId(Swg, p.dest) {
        action := Request(Swg, p);
      } else if EPump in cfg.enabled && HasId(EPump, p.dest) {
        action := Request(EPump, p);
      } else if Jxi in cfg.enabled && HasId(Jxi, p.dest) {
        action := Request(Jxi, p);
      } else if Lx in cfg.enabled && HasId(Lx, p.dest) {
        action := Request(Lx, p);
      } else if ChemFeed in cfg.enabled && HasId(ChemFeed, p.dest) {
        action := Request(ChemFeed, p);
      } else if ChemAnalyzer in cfg.enabled && HasId(ChemAnalyzer, p.dest) {
        action := Request(ChemAnalyzer, p);
      } else if cfg.readsTouch && IsTouchId(p.dest) && p.dest != cfg.extendedId {
        action := TouchStatus;
      } else if HeatPump in cfg.enabled && HasId(HeatPump, p.dest) {
        action := Request(HeatPump, p);
      } else if JLight in cfg.enabled && HasId(JLight, p.dest) {
        action := Request(JLight, p);
      } else {
        interestedInNextAck := NoDevice;
        previousPacketTo := NUL;
      }
    }

    /** The class of an enabled device's own ID, whatever else is enabled. */
    lemma TrackedAs(d: Device, id: byte)
      requires Tracks(cfg, d, id)
      ensures Tracked(cfg, id) == d
    {
    }

    /** Note a request, and hand it to its To-handler. */
    method Request(d: Device, p: Packet) returns (action: Action)
      requires interestedInNextAck == NoDevice && Tracks(cfg, d, p.dest)
      modifies this
      ensures (Value(), action) == Process(cfg, old(Value()), p) == (State(d, p.dest), ToDevice(d, p.dest))
    {
      TrackedAs(d, p.dest);
      interestedInNextAck := d;
      previousPacketTo := p.dest;
      action := ToDevice(d, p.dest);
    }
  }

  // ------------------------------------------------------------------ whole runs

  function StateAfter(cfg: Config, packets: seq<Packet>): State {
    if packets == [] then START
    else Process(cfg, StateAfter(cfg, packets[..|packets| - 1]), packets[|packets| - 1]).0
  }

  function ActionAt(cfg: Config, packets: seq<Packet>, i: nat): Action
    requires i < |packets|
  {
    Process(cfg, StateAfter(cfg, packets[..i]), packets[i]).1
  }

  /** Packet i opens a request: it goes to a tracked device, and the packet before it did
      not open one.  (The packet right after a request only closes it.) */
  predicate Opens(cfg: Config, packets: seq<Packet>, i: nat)
    requires i < |packets|
  {
    !Tracked(cfg, packets[i].dest).NoDevice? && (i == 0 || !Opens(cfg, packets, i - 1))
  }

  lemma {:induction false} OpensPrefix(cfg: Config, packets: seq<Packet>, i: nat, n: nat)
    requires i < n <= |packets|
    ensures Opens(cfg, packets[..n], i) == Opens(cfg, packets, i)
  {
    if i == 0 {
    } else {
      OpensPrefix(cfg, packets, i - 1, n);
    }
  }

  /** The machine remembers a request exactly when the last packet opened one, and then
      which: no request is remembered for longer than one packet. */
  lemma {:induction false} RemembersLastRequest(cfg: Config, packets: seq<Packet>)
    ensures var s, n := StateAfter(cfg, packets), |packets|;
            && (s.interested.NoDevice? <==> s.previousTo == NUL)
            && (!s.interested.NoDevice? <==> n > 0 && Opens(cfg, packets, n - 1))
            && (!s.interested.NoDevice? ==>
                  s == State(Tracked(cfg, packets[n - 1].dest), packets[n - 1].dest))
  {
    if packets == [] {
    } else {
      var n := |packets| - 1;
      RemembersLastRequest(cfg, packets[..n]);
      if n > 0 {
        OpensPrefix(cfg, packets, n - 1, n);
        assert packets[..n][n - 1] == packets[n - 1];
      }
    }
  }

  /** Reply attribution, exactly: over every packet sequence a From-handler runs on a
      packet if and only if the packet goes to the master and the one directly before it
      opened a request, and then for that request's class and address. */
  lemma RepliesAttributed(cfg: Config, packets: seq<Packet>, i: nat, d: Device, a: byte)
    requires i < |packets|
    ensures ActionAt(cfg, packets, i) == FromDevice(d, a) <==>
            && packets[i].dest == DEV_MASTER
            && i > 0 && Opens(cfg, packets, i - 1)
            && packets[i - 1].dest == a && Tracked(cfg, a) == d
  {
    RemembersLastRequest(cfg, packets[..i]);
    if i > 0 {
      OpensPrefix(cfg, packets, i - 1, i);
      assert packets[..i][i - 1] == packets[i - 1];
    }
  }

  /** A device is reported missing if and only if its request was directly followed by a
      packet to someone other than the master, for pumps and for a chlorinator not off. */
  lemma MissingReplies(cfg: Config, packets: seq<Packet>, i: nat, d: Device, a: byte)
    requires i < |packets|
    ensures ActionAt(cfg, packets, i) == Missing(d, a) <==>
            && packets[i].dest != DEV_MASTER
            && i > 0 && Opens(cfg, packets, i - 1)
            && packets[i - 1].dest == a && Tracked(cfg, a) == d
            && (d.EPump? || (d.Swg? && !packets[i].swgOff))
  {
    RemembersLastRequest(cfg, packets[..i]);
    if i > 0 {
      OpensPrefix(cfg, packets, i - 1, i);
      assert packets[..i][i - 1] == packets[i - 1];
    }
  }

  /** An AqualinkTouch status packet is read if and only if such packets are, it goes to one
      of the four addresses but not to the one read elsewhere, and does not directly
      follow a request. */
  lemma TouchStatusRead(cfg: Config, packets: seq<Packet>, i: nat)
    requires i < |packets|
    ensures ActionAt(cfg, packets, i) == TouchStatus <==>
            && cfg.readsTouch && packets[i].dest in [0x30, 0x31, 0x32, 0x33]
            && packets[i].dest != cfg.extendedId
            && (i == 0 || !Opens(cfg, packets, i - 1))
  {
    RemembersLastRequest(cfg, packets[..i]);
    if i > 0 {
      OpensPrefix(cfg, packets, i - 1, i);
    }
  }

  /** The addresses of the classes: blocks of four, two of them for pumps, and five for
      lights. */
  lemma AddressBlocks(id: byte)
    ensures HasId(Swg, id) <==> id / 4 == 0x14
    ensures HasId(EPump, id) <==> id / 4 == 0x1E || id / 4 == 0x38
    ensures HasId(Jxi, id) <==> id / 4 == 0x1A
    ensures HasId(Lx, id) <==> id / 4 == 0x0E
    ensures HasId(ChemFeed, id) <==> id / 4 == 0x20
    ensures HasId(ChemAnalyzer, id) <==> id / 4 == 0x21
    ensures HasId(HeatPump, id) <==> id / 4 == 0x1C
    ensures HasId(JLight, id) <==> id / 4 == 0x3C || id == 0xF4
  {
  }

  /** A To-handler runs exactly on the packets that open a request: one that directly
      follows another request is passed over. */
  lemma RequestsNoted(cfg: Config, packets: seq<Packet>, i: nat, d: Device, a: byte)
    requires i < |packets|
    ensures ActionAt(cfg, packets, i) == ToDevice(d, a) <==>
            Opens(cfg, packets, i) && packets[i].dest == a && Tracked(cfg, a) == d
  {
    RemembersLastRequest(cfg, packets[..i]);
    if i > 0 {
      OpensPrefix(cfg, packets, i - 1, i);
    }
  }
}
