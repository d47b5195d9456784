/** The TFTP client of etherboot/core/nic.c against stop-and-wait servers (RFC 1350, with
    the block size option) over a network that loses, duplicates and reorders packets. */
module Tftp {
  import opened Disk

  const TFTP_DEFAULTSIZE_PACKET: nat := 512
  const MAX_TFTP_RETRIES: nat := 20
  const WINDOW: nat := 0x1_0000

  /** A block number as it is sent. */
  function Low16(n: nat): (w: nat)
    ensures w < WINDOW
  {
    n % WINDOW
  }

  /** Within a window of 2^16 blocks the number sent tells the block. */
  lemma {:induction false} Low16Tells(a: nat, b: nat)
    requires a <= b < a + WINDOW && Low16(a) == Low16(b)
    ensures a == b
  {
  }

  lemma {:induction false} Low16Step(a: nat, b: nat)
    requires Low16(a) == Low16(b)
    ensures Low16(a + 1) == Low16(b + 1)
  {
  }

  // ---------- the client ----------

  /** What the client makes of a received packet; `blksize` is the size an option
      acknowledgement names, None if it is malformed or names one below the default. */
  datatype Packet = Oops | Oack(blksize: BlkSize) | Data(block: nat, payload: seq<byte>) | Unknown

  datatype BlkSize = Size(n: nat) | Unchanged | Bad

  datatype Event = Timeout | Arrival(packet: Packet)

  datatype Delivery = Delivery(payload: seq<byte>, number: nat, eof: bool)

  datatype Client = Client(block: nat, prevblock: nat, bcounter: nat, packetsize: nat, retry: nat)

  datatype Status = Running | Returned(rc: int)

  /** What one turn of the loop does: the new variables, the acknowledgements sent, and the
      blocks handed over. */
  datatype Turn = Turn(client: Client, acks: seq<nat>, given: seq<Delivery>, status: Status)

  const Initial: Client := Client(0, 0, 0, TFTP_DEFAULTSIZE_PACKET, 0)

  /** The second half of the loop of `tftp`, once the packet has set `block`.  `rc` is what
      `fnc` returns if it is called. */
  function Acknowledge(c: Client, payload: seq<byte>, rc: int): Turn
    requires c.block < WINDOW && c.prevblock < WINDOW
  {
    var c1 := if (c.block != 0 || c.bcounter != 0) && c.block != Low16(c.prevblock + 1)
              then c.(block := c.prevblock) else c;
    if c1.block != Low16(c1.prevblock + 1) then Turn(c1, [c1.block], [], Running)
    else
      var c2 := c1.(prevblock := c1.block, retry := 0, bcounter := c1.bcounter + 1);
      var eof := |payload| < c2.packetsize;
      Turn(c2, [c2.block], [Delivery(payload, c2.bcounter, eof)],
        if rc <= 0 then Returned(rc) else if eof then Returned(1) else Running)
  }

  function Receive(c: Client, e: Event, rc: int): Turn
    requires c.block < WINDOW && c.prevblock < WINDOW
    requires e.Arrival? && e.packet.Data? ==> e.packet.block < WINDOW
  {
    match e
    case Timeout =>
      if c.block == 0 && c.retry < MAX_TFTP_RETRIES then Turn(c.(retry := c.retry + 1), [], [], Running)
      else Turn(c, [], [], Returned(0))
    case Arrival(Oops) => Turn(c, [], [], Returned(0))
    case Arrival(Unknown) => Turn(c, [], [], Returned(0))
    case Arrival(Oack(blksize)) =>
      if c.prevblock != 0 then Turn(c, [], [], Running)
      else if blksize.Bad? then Turn(c, [], [], Returned(0))
      else
        var c1 := if blksize.Size? then c.(packetsize := blksize.n) else c;
        Acknowledge(c1.(block := 0), [], rc)
    case Arrival(Data(block, payload)) =>
      if |payload| > c.packetsize then Turn(c, [], [], Running)
      else Acknowledge(c.(block := block), payload, rc)
  }

  /** Block numbers are 16-bit words. */
  predicate WordSized(events: seq<Event>) {
    forall i :: 0 <= i < |events| && events[i].Arrival? && events[i].packet.Data? ==> events[i].packet.block < WINDOW
  }

  function After(t: Turn, u: Turn): Turn {
    Turn(u.client, t.acks + u.acks, t.given + u.given, u.status)
  }

  /** The client's whole run on a sequence of events. */
  function Run(events: seq<Event>, rcs: seq<int>): (t: Turn)
    requires |events| == |rcs|
    requires WordSized(events)
    ensures t.client.block < WINDOW && t.client.prevblock < WINDOW
    decreases |events|
  {
    if events == [] then Turn(Initial, [], [], Running)
    else
      var n := |events| - 1;
      var t := Run(events[..n], rcs[..n]);
      if t.status != Running then t
      else
        After(t, Receive(t.client, events[n], rcs[n]))
  }

  lemma {:induction false} RunStep(events: seq<Event>, rcs: seq<int>, i: nat)
    requires i < |events| == |rcs|
    requires WordSized(events)
    requires Run(events[..i], rcs[..i]).status == Running
    ensures var t := Run(events[..i], rcs[..i]);
      Run(events[..i + 1], rcs[..i + 1]) == After(t, Receive(t.client, events[i], rcs[i]))
  {
    assert events[..i + 1][..i] == events[..i] && rcs[..i + 1][..i] == rcs[..i];
  }

  lemma {:induction false} RunStops(events: seq<Event>, rcs: seq<int>, i: nat)
    requires i <= |events| == |rcs|
    requires WordSized(events)
    requires Run(events[..i], rcs[..i]).status != Running
    ensures Run(events, rcs) == Run(events[..i], rcs[..i])
    decreases |events|
  {
    if i < |events| {
      var n := |events| - 1;
      assert events[..n][..i] == events[..i] && rcs[..n][..i] == rcs[..i];
      RunStops(events[..n], rcs[..n], i);
    } else {
      assert events[..i] == events && rcs[..i] == rcs;
    }
  }

  /** Payload `d` came in some packet with the number that was due. */
  ghost predicate Came(events: seq<Event>, d: Delivery) {
    exists j :: 0 <= j < |events| && events[j].Arrival? && events[j].packet == Data(Low16(d.number), d.payload)
  }

  /** Whatever arrives, from whatever server: what has been handed over is numbered 1, 2, 3, ...,
      each came in a packet with that number modulo 2^16, only the last can be marked as the end,
      and the 16-bit number follows the true one across every wrap-around. */
  ghost predicate Sound(events: seq<Event>, t: Turn) {
    && t.client.bcounter == |t.given| && t.client.prevblock == Low16(|t.given|)
    && (forall k :: 0 <= k < |t.given| ==> t.given[k].number == k + 1 && Came(events, t.given[k]))
    && (forall k :: 0 <= k < |t.given| ==> t.given[k].eof ==> k == |t.given| - 1 && t.status != Running)
    && (t.status == Returned(1) ==> t.given != [] && t.given[|t.given| - 1].eof)
  }

  lemma {:induction false} CameStays(events: seq<Event>, n: nat, d: Delivery)
    requires n <= |events| && Came(events[..n], d)
    ensures Came(events, d)
  {
    var j :| 0 <= j < n && events[..n][j].Arrival? && events[..n][j].packet == Data(Low16(d.number), d.payload);
    assert events[j] == events[..n][j];
  }

  /** One turn hands over nothing, or what came with the number that was due. */
  lemma {:induction false} ReceiveIsSound(c: Client, e: Event, rc: int)
    requires c.block < WINDOW && c.prevblock == Low16(c.bcounter)
    requires e.Arrival? && e.packet.Data? ==> e.packet.block < WINDOW
    ensures var r := Receive(c, e, rc);
      && r.client.prevblock == Low16(r.client.bcounter) && |r.given| <= 1
      && r.client.bcounter == c.bcounter + |r.given|
      && (r.given == [] ==> r.status != Returned(1))
      && (r.given != [] ==>
        && r.given[0].number == c.bcounter + 1 && (r.given[0].eof ==> r.status != Running)
        && e == Arrival(Data(Low16(c.bcounter + 1), r.given[0].payload))
        && (r.status == Returned(1) ==> r.given[0].eof))
  {
    Low16Step(c.bcounter, Low16(c.bcounter));
  }

  lemma {:induction false} RunIsSound(events: seq<Event>, rcs: seq<int>)
    requires |events| == |rcs| && WordSized(events)
    ensures Sound(events, Run(events, rcs))
    decreases |events|
  {
    if events != [] {
      var n := |events| - 1;
      var t, u := Run(events[..n], rcs[..n]), Run(events, rcs);
      RunIsSound(events[..n], rcs[..n]);
      forall k | 0 <= k < |t.given| ensures Came(events, t.given[k]) {
        CameStays(events, n, t.given[k]);
      }
      if t.status == Running {
        var r := Receive(t.client, events[n], rcs[n]);
        ReceiveIsSound(t.client, events[n], rcs[n]);
        if r.given != [] { assert Came(events, r.given[0]) by { assert events[n].Arrival?; } }
      }
    }
  }

  /** What the client answers after `n` blocks, with packets of `size` bytes agreed: data that is not
      too long, and option acknowledgements as long as its 16-bit number is 0. */
  predicate Answerable(e: Event, n: nat, size: nat) {
    e.Arrival? && match e.packet
      case Data(_, payload) => |payload| <= size
      case Oack(blksize) => !blksize.Bad? && n % 0x1_0000 == 0
      case _ => false
  }

  lemma {:induction false} ReceiveAnswers(c: Client, e: Event, rc: int)
    requires c.block < WINDOW && c.prevblock == Low16(c.bcounter)
    requires e.Arrival? && e.packet.Data? ==> e.packet.block < WINDOW
    ensures var r := Receive(c, e, rc);
      && r.acks == (if Answerable(e, c.bcounter, c.packetsize) then [r.client.bcounter % 0x1_0000] else [])
      && (r.given != [] <==>
        Answerable(e, c.bcounter, c.packetsize) && e.packet.Data? && e.packet.block == (c.bcounter + 1) % 0x1_0000)
  {
    Low16Step(c.bcounter, Low16(c.bcounter));
  }

  /** An answerable packet adds one acknowledgement, of the newest block the client then has, and
      nothing else adds any; a block is handed over exactly if it has the number that is due. */
  predicate Answered(t: Turn, u: Turn, e: Event) {
    && u.acks == t.acks + (if Answerable(e, |t.given|, t.client.packetsize) then [|u.given| % 0x1_0000] else [])
    && (|u.given| > |t.given| <==>
      && Answerable(e, |t.given|, t.client.packetsize)
      && e.packet.Data? && e.packet.block == (|t.given| + 1) % 0x1_0000)
  }

  /** What ends the transfer: with 0 a packet that cannot belong to it, else the block handed over,
      if `fnc` said so or it is shorter than the others. */
  predicate EndedBy(t: Turn, u: Turn, e: Event, rc: int) {
    !e.Arrival? || u.status == (
      if e.packet.Oops? || e.packet.Unknown? || (e.packet == Oack(Bad) && |t.given| % 0x1_0000 == 0) then Returned(0)
      else if |u.given| <= |t.given| then Running
      else if rc <= 0 then Returned(rc)
      else if |u.given[|t.given|].payload| < t.client.packetsize then Returned(1)
      else Running)
  }

  lemma {:induction false} TurnEnds(t: Turn, u: Turn, e: Event, rc: int)
    requires t.client.block < WINDOW && (e.Arrival? && e.packet.Data? ==> e.packet.block < WINDOW)
    requires t.client.bcounter == |t.given| && t.client.prevblock == Low16(|t.given|)
    requires u == After(t, Receive(t.client, e, rc))
    ensures EndedBy(t, u, e, rc)
  {
    Low16Step(|t.given|, Low16(|t.given|));
  }

  /** A request is repeated at most twenty times. */
  lemma {:induction false} GivesUp(events: seq<Event>, rcs: seq<int>)
    requires |events| == |rcs| && forall i :: 0 <= i < |events| ==> events[i] == Timeout
    ensures var t := Run(events, rcs);
      t.status == (if |events| <= 20 then Running else Returned(0)) && t.acks == [] && t.given == []
    ensures |events| <= 20 ==> Run(events, rcs).client == Initial.(retry := |events|)
    decreases |events|
  {
    if events != [] { GivesUp(events[..|events| - 1], rcs[..|events| - 1]); }
  }

  lemma {:induction false} TurnAnswers(t: Turn, u: Turn, e: Event, rc: int)
    requires t.client.block < WINDOW && (e.Arrival? && e.packet.Data? ==> e.packet.block < WINDOW)
    requires t.client.bcounter == |t.given| && t.client.prevblock == Low16(|t.given|)
    requires u == After(t, Receive(t.client, e, rc)) && u.client.bcounter == |u.given|
    ensures Answered(t, u, e)
  {
    ReceiveAnswers(t.client, e, rc);
  }

  lemma {:induction false} RunCounts(events: seq<Event>, rcs: seq<int>)
    requires |events| == |rcs| && WordSized(events)
    ensures var t := Run(events, rcs);
      t.client.bcounter == |t.given| && t.client.prevblock == Low16(|t.given|)
  {
    RunIsSound(events, rcs);
  }

  /** So it is for every packet and timeout, whatever arrives, from whatever server. */
  lemma {:induction false} RunAnswers(events: seq<Event>, rcs: seq<int>, i: nat)
    requires i < |events| == |rcs| && WordSized(events) && Run(events[..i], rcs[..i]).status == Running
    ensures Answered(Run(events[..i], rcs[..i]), Run(events[..i + 1], rcs[..i + 1]), events[i])
    ensures EndedBy(Run(events[..i], rcs[..i]), Run(events[..i + 1], rcs[..i + 1]), events[i], rcs[i])
  {
    RunStep(events, rcs, i);
    RunCounts(events[..i], rcs[..i]);
    RunCounts(events[..i + 1], rcs[..i + 1]);
    TurnAnswers(Run(events[..i], rcs[..i]), Run(events[..i + 1], rcs[..i + 1]), events[i], rcs[i]);
    TurnEnds(Run(events[..i], rcs[..i]), Run(events[..i + 1], rcs[..i + 1]), events[i], rcs[i]);
  }

  // ---------- the protocol ----------

  /** The file being served, as the blocks the server cuts it into: all full but the last,
      which is shorter and possibly empty. */
  datatype Served = Served(blocks: seq<seq<byte>>, size: nat, option: bool) {
    ghost predicate Valid() {
      && blocks != [] && size >= TFTP_DEFAULTSIZE_PACKET && (!option ==> size == TFTP_DEFAULTSIZE_PACKET)
      && (forall i :: 0 <= i < |blocks| - 1 ==> |blocks[i]| == size)
      && |blocks[|blocks| - 1]| < size
    }
  }

  /** A message on its way to the client.  It carries the true number of its block, of which
      the packet shows the low 16 bits. */
  datatype Message = OptionAck | Block(n: nat)

  /** The client, what it has handed over, the last block sent in each server session
      (0: the option acknowledgement), and every message and acknowledgement ever sent.
      `acked` holds the number of blocks the client had when it sent the acknowledgement. */
  datatype Sys = Sys(client: Client, status: Status, given: seq<Delivery>, sessions: seq<nat>,
    sent: set<Message>, acks: seq<nat>, acked: seq<nat>)

  function Shown(f: Served, m: Message): Packet
    requires m.Block? ==> 1 <= m.n <= |f.blocks|
  {
    match m
    case OptionAck => Oack(Size(f.size))
    case Block(n) => Data(Low16(n), f.blocks[n - 1])
  }

  ghost predicate Init(s: Sys) {
    s == Sys(Initial, Running, [], [], {}, [], [])
  }

  /** A server answers a request, possibly a repeated one, with a new session. */
  ghost predicate Open(f: Served, s: Sys, s': Sys) {
    s' == s.(sessions := s.sessions + [if f.option then 0 else 1],
             sent := s.sent + {if f.option then OptionAck else Block(1)})
  }

  /** A session sends its last message again. */
  ghost predicate Resend(s: Sys, s': Sys, i: nat) {
    i < |s.sessions| && s' == s.(sent := s.sent + {if s.sessions[i] == 0 then OptionAck else Block(s.sessions[i])})
  }

  /** Acknowledgement `k` reaches session `i`, at most 2^16 blocks late: if it shows the
      number of the last block sent, the session goes on to the next. */
  ghost predicate Proceed(f: Served, s: Sys, s': Sys, i: nat, k: nat) {
    && i < |s.sessions| && k < |s.acks| == |s.acked|
    && s.sessions[i] < s.acked[k] + WINDOW
    && var cur := s.sessions[i];
    s' == if s.acks[k] == Low16(cur) && cur < |f.blocks|
          then s.(sessions := s.sessions[i := cur + 1], sent := s.sent + {Block(cur + 1)}) else s
  }

  /** The client takes one turn. */
  ghost predicate Turned(s: Sys, s': Sys, e: Event, rc: int) {
    && s.status == Running
    && (e.Arrival? && e.packet.Data? ==> e.packet.block < WINDOW)
    && s.client.block < WINDOW && s.client.prevblock < WINDOW
    && var t := Receive(s.client, e, rc);
    s' == s.(client := t.client, status := t.status, given := s.given + t.given, acks := s.acks + t.acks,
             acked := s.acked + seq(|t.acks|, _ => t.client.bcounter))
  }

  /** Any message ever sent may arrive, any number of times, at most 2^16 blocks late. */
  ghost predicate Deliver(f: Served, s: Sys, s': Sys, m: Message, rc: int) {
    && m in s.sent && (m.Block? ==> 1 <= m.n <= |f.blocks| && s.client.bcounter + 1 < m.n + WINDOW)
    && Turned(s, s', Arrival(Shown(f, m)), rc)
  }

  /** An error packet arrives, a malformed option acknowledgement, or what is no TFTP at all. */
  ghost predicate Disturb(s: Sys, s': Sys, p: Packet, rc: int) {
    (p.Oops? || p.Unknown? || p == Oack(Bad)) && Turned(s, s', Arrival(p), rc)
  }

  ghost predicate ServerStep(f: Served, s: Sys, s': Sys) {
    || Open(f, s, s')
    || (exists i :: Resend(s, s', i))
    || (exists i, k :: Proceed(f, s, s', i, k))
  }

  /** The client takes a turn on the event `e`. */
  ghost predicate ClientStep(f: Served, s: Sys, s': Sys, e: Event, rc: int) {
    match e
    case Timeout => Turned(s, s', Timeout, rc)
    case Arrival(p) => Disturb(s, s', p, rc) || exists m :: Deliver(f, s, s', m, rc) && p == Shown(f, m)
  }

  ghost predicate Next(f: Served, s: Sys, s': Sys) {
    ServerStep(f, s, s') || exists e, rc :: ClientStep(f, s, s', e, rc)
  }

  ghost predicate IsRun(f: Served, run: seq<Sys>) {
    && run != [] && Init(run[0])
    && forall i :: 0 <= i < |run| - 1 ==> Next(f, run[i], run[i + 1])
  }

  /** What the client has handed over after `n` blocks of the file. */
  ghost function Expected(f: Served, n: nat): seq<Delivery>
    requires n <= |f.blocks|
  {
    seq(n, i requires 0 <= i < n => Delivery(f.blocks[i], i + 1, i + 1 == |f.blocks|))
  }

  ghost predicate ClientOk(f: Served, s: Sys) {
    var c := s.client;
    && c.bcounter <= |f.blocks| && s.given == Expected(f, c.bcounter)
    && c.prevblock == Low16(c.bcounter) && (c.block == 0 || c.block == c.prevblock)
    && (c.packetsize == f.size || (f.option && c.packetsize == TFTP_DEFAULTSIZE_PACKET))
  }

  ghost predicate NetworkOk(f: Served, s: Sys) {
    && (forall i :: 0 <= i < |s.sessions| ==> s.sessions[i] <= s.client.bcounter + 1 && s.sessions[i] <= |f.blocks|)
    && (forall m :: m in s.sent && m.Block? ==> 1 <= m.n <= s.client.bcounter + 1 && m.n <= |f.blocks|)
    && (forall i :: 0 <= i < |s.sessions| && s.sessions[i] == 0 ==> f.option)
    && (OptionAck in s.sent ==> f.option)
    && |s.acks| == |s.acked|
    && (forall k :: 0 <= k < |s.acks| ==> s.acked[k] <= s.client.bcounter && s.acks[k] == Low16(s.acked[k]))
  }

  /** Once an acknowledgement or a block is on its way, the block size has been agreed. */
  ghost predicate SizeAgreed(f: Served, s: Sys) {
    && (s.acks != [] ==> s.client.packetsize == f.size)
    && (forall m :: m in s.sent && m.Block? ==> s.client.packetsize == f.size)
    && (forall i :: 0 <= i < |s.sessions| && s.sessions[i] > 0 ==> s.client.packetsize == f.size)
  }

  /** The file is handed over completely exactly if `tftp` returns because of its end. */
  ghost predicate EndOk(f: Served, s: Sys) {
    && (s.status == Running ==> s.client.bcounter < |f.blocks|)
    && (s.status == Returned(1) ==> s.client.bcounter == |f.blocks|)
  }

  ghost predicate Inv(f: Served, s: Sys) {
    ClientOk(f, s) && NetworkOk(f, s) && SizeAgreed(f, s) && EndOk(f, s)
  }

  lemma {:induction false} InitInv(f: Served, s: Sys)
    requires f.Valid() && Init(s)
    ensures Inv(f, s)
  {
  }

  lemma {:induction false} OpenInv(f: Served, s: Sys, s': Sys)
    requires f.Valid() && Inv(f, s) && Open(f, s, s')
    ensures Inv(f, s')
  {
  }

  lemma {:induction false} ResendInv(f: Served, s: Sys, s': Sys, i: nat)
    requires f.Valid() && Inv(f, s) && Resend(s, s', i)
    ensures Inv(f, s')
  {
  }

  /** A session never gets more than one block ahead of the client. */
  lemma {:induction false} ProceedInv(f: Served, s: Sys, s': Sys, i: nat, k: nat)
    requires f.Valid() && Inv(f, s) && Proceed(f, s, s', i, k)
    ensures Inv(f, s')
  {
    var cur, t := s.sessions[i], s.acked[k];
    if s.acks[k] == Low16(cur) && t < cur {
      Low16Tells(t, cur);
    }
  }

  /** What a turn can do to the invariant: nothing is handed over, or the next block is. */
  lemma {:induction false} TurnInv(f: Served, s: Sys, s': Sys, t: Turn)
    requires f.Valid() && Inv(f, s) && s.status == Running
    requires s' == s.(client := t.client, status := t.status, given := s.given + t.given, acks := s.acks + t.acks,
                      acked := s.acked + seq(|t.acks|, _ => t.client.bcounter))
    requires t.client.packetsize == s.client.packetsize || (f.option && t.client.packetsize == f.size)
    requires t.acks != [] ==> t.client.packetsize == f.size && t.acks == [Low16(t.client.bcounter)]
    requires t.client.prevblock == Low16(t.client.bcounter)
    requires t.client.block == 0 || t.client.block == t.client.prevblock
    requires t.given == [] ==> t.client.bcounter == s.client.bcounter && t.status != Returned(1)
    requires t.given != [] ==>
      && t.client.bcounter == s.client.bcounter + 1
      && t.given == [Expected(f, s.client.bcounter + 1)[s.client.bcounter]]
      && (t.status == Running ==> t.client.bcounter < |f.blocks|)
      && (t.status == Returned(1) ==> t.client.bcounter == |f.blocks|)
    ensures Inv(f, s')
  {
    if t.given != [] {
      var n := s.client.bcounter;
      assert Expected(f, n + 1) == Expected(f, n) + t.given;
    }
  }

  lemma {:induction false} OptionInv(f: Served, s: Sys, s': Sys, rc: int)
    requires f.Valid() && Inv(f, s) && Deliver(f, s, s', OptionAck, rc)
    ensures Inv(f, s')
  {
    TurnInv(f, s, s', Receive(s.client, Arrival(Shown(f, OptionAck)), rc));
  }

  /** The block that is handed over is the next one of the file. */
  lemma {:induction false} BlockInv(f: Served, s: Sys, s': Sys, m: Message, rc: int)
    requires f.Valid() && Inv(f, s) && m.Block? && Deliver(f, s, s', m, rc)
    ensures Inv(f, s')
  {
    var n := s.client.bcounter;
    Low16Step(n, Low16(n));
    if Low16(m.n) == Low16(n + 1) { Low16Tells(m.n, n + 1); }
    TurnInv(f, s, s', Receive(s.client, Arrival(Shown(f, m)), rc));
  }

  /** Why the bound on staleness is needed: the client takes a block for the next one
      exactly if their numbers agree modulo 2^16. */
  lemma {:induction false} AcceptanceIsModular(f: Served, s: Sys, n: nat, rc: int)
    requires f.Valid() && Inv(f, s) && 1 <= n <= |f.blocks| && s.client.packetsize == f.size
    ensures Receive(s.client, Arrival(Shown(f, Block(n))), rc).given != [] <==>
      n % WINDOW == (s.client.bcounter + 1) % WINDOW
  {
    Low16Step(s.client.bcounter, Low16(s.client.bcounter));
  }

  /** A timeout, or a packet that cannot belong to the transfer, at most ends it. */
  lemma {:induction false} TimeoutInv(f: Served, s: Sys, s': Sys, rc: int)
    requires f.Valid() && Inv(f, s) && Turned(s, s', Timeout, rc)
    ensures Inv(f, s') && s'.given == s.given && s'.acks == s.acks && s'.status in {Running, Returned(0)}
  {
    TurnInv(f, s, s', Receive(s.client, Timeout, rc));
  }

  lemma {:induction false} DisturbInv(f: Served, s: Sys, s': Sys, p: Packet, rc: int)
    requires f.Valid() && Inv(f, s) && Disturb(s, s', p, rc)
    ensures Inv(f, s') && s'.given == s.given && s'.acks == s.acks && s'.status in {Running, Returned(0)}
  {
    TurnInv(f, s, s', Receive(s.client, Arrival(p), rc));
  }

  lemma {:induction false} ClientInv(f: Served, s: Sys, s': Sys, e: Event, rc: int)
    requires f.Valid() && Inv(f, s) && ClientStep(f, s, s', e, rc)
    ensures Inv(f, s')
  {
    match e
    case Timeout => TimeoutInv(f, s, s', rc);
    case Arrival(p) =>
      if Disturb(s, s', p, rc) {
        DisturbInv(f, s, s', p, rc);
      } else {
        var m :| Deliver(f, s, s', m, rc) && p == Shown(f, m);
        if m.Block? { BlockInv(f, s, s', m, rc); } else { OptionInv(f, s, s', rc); }
      }
  }

  lemma {:induction false} NextInv(f: Served, s: Sys, s': Sys)
    requires f.Valid() && Inv(f, s) && Next(f, s, s')
    ensures Inv(f, s')
  {
    if Open(f, s, s') {
      OpenInv(f, s, s');
    } else if i :| Resend(s, s', i) {
      ResendInv(f, s, s', i);
    } else if i, k :| Proceed(f, s, s', i, k) {
      ProceedInv(f, s, s', i, k);
    } else {
      var e, rc :| ClientStep(f, s, s', e, rc);
      ClientInv(f, s, s', e, rc);
    }
  }

  lemma {:induction false} RunInv(f: Served, run: seq<Sys>, i: nat)
    requires f.Valid() && IsRun(f, run) && i < |run|
    ensures Inv(f, run[i])
  {
    if i == 0 {
      InitInv(f, run[0]);
    } else {
      RunInv(f, run, i - 1);
      assert Next(f, run[i - 1], run[i - 1 + 1]);
      NextInv(f, run[i - 1], run[i]);
    }
  }

  /** In every state of every run the blocks handed over are the first blocks of the file,
      numbered from 1, none skipped and none repeated, the end marked on the last one only;
      the 16-bit counter follows the true one across every wrap-around; and no
      acknowledgement names a block that had not been received. */
  lemma {:induction false} TransferIsSafe(f: Served, run: seq<Sys>, i: nat)
    requires f.Valid() && IsRun(f, run) && i < |run|
    ensures var s := run[i];
      && s.client.bcounter <= |f.blocks| && s.given == Expected(f, s.client.bcounter)
      && s.client.prevblock == s.client.bcounter % WINDOW
      && (s.status == Returned(1) ==> s.given == Expected(f, |f.blocks|))
      && |s.acks| == |s.acked|
      && forall k :: 0 <= k < |s.acks| ==> s.acks[k] == s.acked[k] % WINDOW && s.acked[k] <= s.client.bcounter
  {
    RunInv(f, run, i);
  }

  // ---------- acknowledgements, and how a transfer comes to its end ----------

  /** A block that arrives is answered by exactly one acknowledgement, which names the newest block
      the client has then. */
  lemma {:induction false} BlockIsAnswered(f: Served, s: Sys, s': Sys, n: nat, rc: int)
    requires f.Valid() && Inv(f, s) && Deliver(f, s, s', Block(n), rc)
    ensures n == s.client.bcounter + 1 ==>
      s'.acks == s.acks + [n % 0x1_0000] && s'.acked == s.acked + [n] && |s'.given| == |s.given| + 1
    ensures n != s.client.bcounter + 1 ==>
      && s'.acks == s.acks + [s.client.bcounter % 0x1_0000] && s'.acked == s.acked + [s.client.bcounter]
      && s'.given == s.given && s'.status == Running
  {
    var c := s.client.bcounter;
    assert s.client.packetsize == f.size && |f.blocks[n - 1]| <= f.size;
    Low16Step(c, Low16(c));
    if Low16(n) == Low16(c + 1) { Low16Tells(n, c + 1); }
    assert seq(1, _ => s'.client.bcounter) == [s'.client.bcounter];
  }

  /** So it is in every state of every run. */
  lemma {:induction false} EveryBlockIsAnswered(f: Served, run: seq<Sys>, i: nat, s': Sys, n: nat, rc: int)
    requires f.Valid() && IsRun(f, run) && i < |run| && Deliver(f, run[i], s', Block(n), rc)
    ensures var had := |run[i].given|;
      s'.acks == run[i].acks + [(if n == had + 1 then n else had) % 0x1_0000]
  {
    RunInv(f, run, i);
    BlockIsAnswered(f, run[i], s', n, rc);
  }

  /** An option acknowledgement is answered as block 0 is, as long as there is no block. */
  lemma {:induction false} OptionIsAnswered(f: Served, s: Sys, s': Sys, rc: int)
    requires f.Valid() && Inv(f, s) && Deliver(f, s, s', OptionAck, rc) && s.given == []
    ensures s'.acks == s.acks + [0] && s'.given == [] && s'.status == Running && s'.client.packetsize == f.size
    ensures s'.acked == s.acked + [0]
  {
    assert seq(1, _ => s'.client.bcounter) == [0];
  }

  /** The transfer stands where the client has `n` blocks, and one session has sent the next. */
  ghost predicate HasBlocks(f: Served, s: Sys, n: nat) {
    && Inv(f, s) && s.status == Running && s.client.bcounter == n < |f.blocks| && s.client.packetsize == f.size
    && s.sessions == [n + 1] && Block(n + 1) in s.sent
  }

  lemma {:induction false} RunMore(f: Served, run: seq<Sys>, s: Sys) returns (more: seq<Sys>)
    requires f.Valid() && IsRun(f, run) && Next(f, run[|run| - 1], s)
    ensures IsRun(f, more) && |more| == |run| + 1 && more[|run|] == s && more[..|run|] == run
  {
    more := run + [s];
    forall i | 0 <= i < |more| - 1 ensures Next(f, more[i], more[i + 1]) {
      if i < |run| - 1 { assert Next(f, run[i], run[i + 1]); }
    }
  }

  /** The client's next state when a message arrives. */
  ghost function Arrives(f: Served, s: Sys, m: Message, rc: int): (s': Sys)
    requires f.Valid() && Inv(f, s) && s.status == Running
    requires m in s.sent && (m.Block? ==> s.client.bcounter + 1 < m.n + WINDOW)
    ensures Deliver(f, s, s', m, rc)
  {
    var t := Receive(s.client, Arrival(Shown(f, m)), rc);
    s.(client := t.client, status := t.status, given := s.given + t.given, acks := s.acks + t.acks,
       acked := s.acked + seq(|t.acks|, _ => t.client.bcounter))
  }

  lemma {:induction false} DeliverIsNext(f: Served, s: Sys, s': Sys, m: Message, rc: int)
    requires f.Valid() && Inv(f, s) && Deliver(f, s, s', m, rc)
    ensures Next(f, s, s') && Inv(f, s')
  {
    assert ClientStep(f, s, s', Arrival(Shown(f, m)), rc);
    ClientInv(f, s, s', Arrival(Shown(f, m)), rc);
  }

  /** The session gets the last acknowledgement and sends its next block. */
  lemma {:induction false} Proceeds(f: Served, s: Sys) returns (s': Sys)
    requires f.Valid() && Inv(f, s) && |s.sessions| == 1 && s.acks != [] && s.sessions[0] < |f.blocks|
    requires var k := |s.acks| - 1; s.acked[k] == s.sessions[0] && s.acks[k] == Low16(s.sessions[0])
    ensures Next(f, s, s') && Inv(f, s')
    ensures s' == s.(sessions := [s.sessions[0] + 1], sent := s.sent + {Block(s.sessions[0] + 1)})
  {
    s' := s.(sessions := [s.sessions[0] + 1], sent := s.sent + {Block(s.sessions[0] + 1)});
    assert s.sessions[0 := s.sessions[0] + 1] == [s.sessions[0] + 1];
    assert Proceed(f, s, s', 0, |s.acks| - 1);
    ProceedInv(f, s, s', 0, |s.acks| - 1);
  }

  /** A run in which a server opens a session and the block size is agreed. */
  lemma {:induction false} RunStarts(f: Served) returns (run: seq<Sys>)
    requires f.Valid()
    ensures IsRun(f, run) && HasBlocks(f, run[|run| - 1], 0)
  {
    var s := Sys(Initial, Running, [], [], {}, [], []);
    run := [s];
    InitInv(f, s);
    var s1 := s.(sessions := [if f.option then 0 else 1], sent := {if f.option then OptionAck else Block(1)});
    assert Open(f, s, s1);
    OpenInv(f, s, s1);
    run := RunMore(f, run, s1);
    if f.option { run := OptionIsAgreed(f, run); }
  }

  lemma {:induction false} OptionIsAgreed(f: Served, run: seq<Sys>) returns (more: seq<Sys>)
    requires f.Valid() && f.option && IsRun(f, run)
    requires var s := run[|run| - 1];
      Inv(f, s) && s.status == Running && s.sessions == [0] && OptionAck in s.sent && s.given == [] && s.acks == []
    ensures IsRun(f, more) && HasBlocks(f, more[|more| - 1], 0)
  {
    var s1 := run[|run| - 1];
    var s2 := Arrives(f, s1, OptionAck, 1);
    OptionIsAnswered(f, s1, s2, 1);
    DeliverIsNext(f, s1, s2, OptionAck, 1);
    more := RunMore(f, run, s2);
    var s3 := Proceeds(f, s2);
    more := RunMore(f, more, s3);
  }

  /** One block more. */
  lemma {:induction false} RunGoesOn(f: Served, run: seq<Sys>, n: nat) returns (more: seq<Sys>)
    requires f.Valid() && IsRun(f, run) && HasBlocks(f, run[|run| - 1], n) && n + 1 < |f.blocks|
    ensures IsRun(f, more) && HasBlocks(f, more[|more| - 1], n + 1)
  {
    var s := run[|run| - 1];
    var s1 := Arrives(f, s, Block(n + 1), 1);
    BlockIsAnswered(f, s, s1, n + 1, 1);
    DeliverIsNext(f, s, s1, Block(n + 1), 1);
    more := RunMore(f, run, s1);
    var s2 := Proceeds(f, s1);
    more := RunMore(f, more, s2);
  }

  lemma {:induction false} RunReaches(f: Served, n: nat) returns (run: seq<Sys>)
    requires f.Valid() && n < |f.blocks|
    ensures IsRun(f, run) && HasBlocks(f, run[|run| - 1], n)
  {
    if n == 0 {
      run := RunStarts(f);
    } else {
      run := RunReaches(f, n - 1);
      run := RunGoesOn(f, run, n - 1);
    }
  }

  /** Every file can be transferred: there is a run that ends with success and the whole file. */
  lemma {:induction false} TransferCanSucceed(f: Served) returns (run: seq<Sys>)
    requires f.Valid()
    ensures IsRun(f, run)
    ensures var s := run[|run| - 1]; s.status == Returned(1) && s.given == Expected(f, |f.blocks|)
  {
    var n := |f.blocks| - 1;
    run := RunReaches(f, n);
    var s := run[|run| - 1];
    var last := Arrives(f, s, Block(n + 1), 1);
    BlockIsAnswered(f, s, last, n + 1, 1);
    DeliverIsNext(f, s, last, Block(n + 1), 1);
    run := RunMore(f, run, last);
  }

  // ---------- the client in a run ----------

  /** What the client has seen in the first `n` steps of a run: its own events, with what `fnc`
      returned, and none of the steps of servers and network. */
  ghost predicate Saw(f: Served, run: seq<Sys>, n: nat, events: seq<Event>, rcs: seq<int>)
    requires n < |run|
  {
    && |events| == |rcs|
    && if n == 0 then events == []
       else
         || (ServerStep(f, run[n - 1], run[n]) && Saw(f, run, n - 1, events, rcs))
         || (events != []
             && var k := |events| - 1;
             ClientStep(f, run[n - 1], run[n], events[k], rcs[k]) && Saw(f, run, n - 1, events[..k], rcs[..k]))
  }

  lemma {:induction false} RunHasEvents(f: Served, run: seq<Sys>, n: nat) returns (events: seq<Event>, rcs: seq<int>)
    requires IsRun(f, run) && n < |run|
    ensures Saw(f, run, n, events, rcs)
  {
    events, rcs := [], [];
    if n > 0 {
      events, rcs := RunHasEvents(f, run, n - 1);
      var k := |events|;
      assert Next(f, run[n - 1], run[n - 1 + 1]);
      if !ServerStep(f, run[n - 1], run[n]) {
        var e, rc :| ClientStep(f, run[n - 1], run[n], e, rc);
        assert (events + [e])[..k] == events && (rcs + [rc])[..k] == rcs;
        events, rcs := events + [e], rcs + [rc];
      }
    }
  }

  /** The client's part of a state. */
  ghost function ClientPart(s: Sys): Turn {
    Turn(s.client, s.acks, s.given, s.status)
  }

  lemma {:induction false} StepSeen(f: Served, s: Sys, s': Sys, e: Event, rc: int)
    requires ClientStep(f, s, s', e, rc)
    ensures s.status == Running && s.client.block < WINDOW && s.client.prevblock < WINDOW
    ensures e.Arrival? && e.packet.Data? ==> e.packet.block < WINDOW
    ensures ClientPart(s') == After(ClientPart(s), Receive(s.client, e, rc))
  {
  }

  lemma {:induction false} WordSizedMore(events: seq<Event>)
    requires events != []
    requires var k := |events| - 1;
      WordSized(events[..k]) && (events[k].Arrival? && events[k].packet.Data? ==> events[k].packet.block < WINDOW)
    ensures WordSized(events)
  {
    var k := |events| - 1;
    assert forall i :: 0 <= i < k ==> events[..k][i] == events[i];
  }

  /** The client's variables, acknowledgements and deliveries in a run are those of its own loop
      on what it has seen. */
  lemma {:induction false} SeenIsRun(f: Served, run: seq<Sys>, n: nat, events: seq<Event>, rcs: seq<int>)
    requires IsRun(f, run) && n < |run| && Saw(f, run, n, events, rcs)
    ensures WordSized(events) && Run(events, rcs) == ClientPart(run[n])
  {
    if n > 0 {
      if ServerStep(f, run[n - 1], run[n]) && Saw(f, run, n - 1, events, rcs) {
        SeenIsRun(f, run, n - 1, events, rcs);
      } else {
        var k := |events| - 1;
        SeenIsRun(f, run, n - 1, events[..k], rcs[..k]);
        StepSeen(f, run[n - 1], run[n], events[k], rcs[k]);
        WordSizedMore(events);
      }
    }
  }

  /** The variables of `tftp`, with what it has sent and handed over. */
  class TftpClient {
    var block: nat
    var prevblock: nat
    var bcounter: nat
    var packetsize: nat
    var retry: nat
    var acks: seq<nat>
    var given: seq<Delivery>
    var status: Status

    constructor ()
      ensures State() == Turn(Initial, [], [], Running)
    {
      block, prevblock, bcounter, packetsize, retry := 0, 0, 0, TFTP_DEFAULTSIZE_PACKET, 0;
      acks, given, status := [], [], Running;
    }

    function State(): Turn
      reads this
    {
      Turn(Client(block, prevblock, bcounter, packetsize, retry), acks, given, status)
    }

    /** The second half of the loop: acknowledges, and hands over a new block. */
    method AcknowledgeBlock(payload: seq<byte>, rc: int)
      requires block < WINDOW && prevblock < WINDOW && status == Running
      modifies this
      ensures State() == After(old(State()), Acknowledge(old(State()).client, payload, rc))
    {
      if (block != 0 || bcounter != 0) && block != Low16(prevblock + 1) { block := prevblock; }
      acks := acks + [block];
      if block != Low16(prevblock + 1) {
        assert given + [] == given;
        return;
      }
      prevblock := block;
      retry := 0;
      bcounter := bcounter + 1;
      given := given + [Delivery(payload, bcounter, |payload| < packetsize)];
      if rc <= 0 {
        status := Returned(rc);
      } else if |payload| < packetsize {
        status := Returned(1);
      }
    }

    /** One turn of the loop. */
    method OneTurn(e: Event, rc: int)
      requires block < WINDOW && prevblock < WINDOW && status == Running
      requires e.Arrival? && e.packet.Data? ==> e.packet.block < WINDOW
      modifies this
      ensures State() == After(old(State()), Receive(old(State()).client, e, rc))
    {
      assert acks + [] == acks && given + [] == given;
      match e {
        case Timeout =>
          if block == 0 && retry < MAX_TFTP_RETRIES {
            retry := retry + 1;
          } else {
            status := Returned(0);
          }
        case Arrival(Oops) => status := Returned(0);
        case Arrival(Unknown) => status := Returned(0);
        case Arrival(Oack(blksize)) =>
          if prevblock != 0 { return; }
          if blksize.Bad? {
            status := Returned(0);
            return;
          }
          if blksize.Size? { packetsize := blksize.n; }
          block := 0;
          AcknowledgeBlock([], rc);
        case Arrival(Data(number, payload)) =>
          if |payload| > packetsize { return; }
          block := number;
          AcknowledgeBlock(payload, rc);
      }
    }

    /** The loop of `tftp`. */
    method Loop(events: seq<Event>, rcs: seq<int>)
      requires State() == Turn(Initial, [], [], Running) && |events| == |rcs|
      requires WordSized(events)
      modifies this
      ensures State() == Run(events, rcs) && Sound(events, State())
    {
      RunIsSound(events, rcs);
      var i := 0;
      assert events[..0] == [];
      while i < |events| && status == Running
        invariant 0 <= i <= |events|
        invariant State() == Run(events[..i], rcs[..i])
      {
        RunStep(events, rcs, i);
        OneTurn(events[i], rcs[i]);
        i := i + 1;
      }
      if status != Running {
        RunStops(events, rcs, i);
      } else {
        assert events[..i] == events && rcs[..i] == rcs;
      }
    }

    /** `tftp` in any run of the protocol: on what it sees there it ends with the variables,
        acknowledgements and deliveries the run has, and these are the file's first blocks. */
    method Transfer(events: seq<Event>, rcs: seq<int>, ghost f: Served, ghost run: seq<Sys>)
      requires State() == Turn(Initial, [], [], Running)
      requires f.Valid() && IsRun(f, run) && Saw(f, run, |run| - 1, events, rcs)
      modifies this
      ensures State() == ClientPart(run[|run| - 1])
      ensures bcounter <= |f.blocks| && given == Expected(f, bcounter)
      ensures status == Returned(1) ==> bcounter == |f.blocks|
      ensures forall k :: 0 <= k < |acks| ==> exists n :: 0 <= n <= bcounter && acks[k] == Low16(n)
    {
      SeenIsRun(f, run, |run| - 1, events, rcs);
      Loop(events, rcs);
      ghost var last := run[|run| - 1];
      RunInv(f, run, |run| - 1);
      forall k | 0 <= k < |acks| ensures exists n :: 0 <= n <= bcounter && acks[k] == Low16(n) {
        assert acks[k] == Low16(last.acked[k]) && last.acked[k] <= bcounter;
      }
    }
  }
}
