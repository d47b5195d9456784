/** Erasing and programming the boot flash: `BootFlashEraseMinimalRegion` and `BootFlashProgram`
    of drivers/flash/BootFlash.c, against a chip that is itself a command state machine. */
module Flash {
  type u8 = bv8

  const MAX_ERASE_RETRIES: int := 4

  // ---------- the chip ----------

  /** Where a chip is in a command. 29xxx parts rest in ReadArray and collect unlock cycles;
      28xxx parts switch between ReadArray and Status and have one-cycle setups. */
  datatype Mode = ReadArray | Status | EraseSetup | ProgramSetup
    | Unlock1 | Unlock2 | Erase0 | Erase1 | Erase2 | ProgramNext

  /** What a command starts. */
  datatype Action = Nothing | EraseBlock(at: nat) | EraseChip | Program(target: nat, value: u8)

  /** The mode that follows a bus write, for a chip that is not at work. */
  function NextMode(is28: bool, mode: Mode, a: nat, v: u8): Mode {
    if is28 then
      if mode.EraseSetup? || mode.ProgramSetup? then Status
      else if v == 0x20 then EraseSetup
      else if v == 0x40 then ProgramSetup
      else if v == 0xff then ReadArray
      else mode
    else if mode.ReadArray? && a == 0x5555 && v == 0xaa then Unlock1
    else if mode.Unlock1? && a == 0x2aaa && v == 0x55 then Unlock2
    else if mode.Unlock2? && a == 0x5555 && v == 0x80 then Erase0
    else if mode.Unlock2? && a == 0x5555 && v == 0xa0 then ProgramNext
    else if mode.Erase0? && a == 0x5555 && v == 0xaa then Erase1
    else if mode.Erase1? && a == 0x2aaa && v == 0x55 then Erase2
    else ReadArray
  }

  /** The action that a bus write starts. */
  function Starts(is28: bool, mode: Mode, a: nat, v: u8): Action {
    if is28 then
      if mode.EraseSetup? && v == 0xd0 then EraseBlock(a)
      else if mode.ProgramSetup? then Program(a, v)
      else Nothing
    else if mode.Erase2? && a == 0x5555 && v == 0x10 then EraseChip
    else if mode.Erase2? && (v == 0x30 || v == 0x50) then EraseBlock(a)
    else if mode.ProgramNext? then Program(a, v)
    else Nothing
  }

  // ---------- what a command is ----------

  /** A write on the bus. */
  datatype Cycle = Cycle(at: nat, value: u8)

  /** The mode of a chip that rested in ReadArray, after these writes. */
  function ModeAfter(is28: bool, ws: seq<Cycle>): Mode {
    if ws == [] then ReadArray
    else NextMode(is28, ModeAfter(is28, ws[..|ws| - 1]), ws[|ws| - 1].at, ws[|ws| - 1].value)
  }

  ghost predicate EndsIn(ws: seq<Cycle>, end: seq<Cycle>) {
    |end| <= |ws| && ws[|ws| - |end|..] == end
  }

  const UNLOCK: seq<Cycle> := [Cycle(0x5555, 0xaa), Cycle(0x2aaa, 0x55)]

  /** The writes that bring a 29xxx part into a mode. */
  function Opening(mode: Mode): seq<Cycle> {
    match mode
    case Unlock1 => [Cycle(0x5555, 0xaa)]
    case Unlock2 => UNLOCK
    case Erase0 => UNLOCK + [Cycle(0x5555, 0x80)]
    case Erase1 => UNLOCK + [Cycle(0x5555, 0x80), Cycle(0x5555, 0xaa)]
    case Erase2 => UNLOCK + [Cycle(0x5555, 0x80)] + UNLOCK
    case ProgramNext => UNLOCK + [Cycle(0x5555, 0xa0)]
    case _ => []
  }

  lemma {:induction false} EndsInMore(ws: seq<Cycle>, end: seq<Cycle>, w: Cycle)
    requires EndsIn(ws, end)
    ensures EndsIn(ws + [w], end + [w])
  {
    assert (ws + [w])[|ws| - |end|..] == ws[|ws| - |end|..] + [w];
  }

  /** It is in that mode only behind these writes, ... */
  lemma {:induction false} ModeTells(ws: seq<Cycle>)
    ensures EndsIn(ws, Opening(ModeAfter(false, ws)))
  {
    if ws != [] {
      var front, w := ws[..|ws| - 1], ws[|ws| - 1];
      var m, n := ModeAfter(false, front), ModeAfter(false, ws);
      ModeTells(front);
      EndsInMore(front, Opening(m), w);
      assert front + [w] == ws;
      OpeningNext(m, w);
      if n.Unlock1? { assert ws[|ws| - 1..] == [w]; }
    }
  }

  /** The writes for the mode behind `m` are those for `m` and one more. */
  predicate OpeningOf(m: Mode, w: Cycle) {
    var n := NextMode(false, m, w.at, w.value);
    n == ReadArray || (n == Unlock1 && Opening(n) == [w]) || Opening(n) == Opening(m) + [w]
  }

  lemma {:induction false} OpeningNext(m: Mode, w: Cycle)
    ensures OpeningOf(m, w)
  {
  }

  /** ... and so a 29xxx part erases only behind the five cycles of an erase command, and programs
      only behind the three of a program command, whatever has been written before. */
  lemma {:induction false} CommandsAreWhole29(ws: seq<Cycle>, a: nat, v: u8)
    ensures match Starts(false, ModeAfter(false, ws), a, v)
      case Nothing => true
      case EraseBlock(at) => at == a && EndsIn(ws, Opening(Erase2)) && (v == 0x30 || v == 0x50)
      case EraseChip => a == 0x5555 && v == 0x10 && EndsIn(ws, Opening(Erase2))
      case Program(target, value) => target == a && value == v && EndsIn(ws, Opening(ProgramNext))
  {
    ModeTells(ws);
  }

  /** The mode and the cycle that the mode `m` comes from. */
  function Before(m: Mode): (Mode, Cycle) {
    match m
    case Unlock1 => (ReadArray, Cycle(0x5555, 0xaa))
    case Unlock2 => (Unlock1, Cycle(0x2aaa, 0x55))
    case Erase0 => (Unlock2, Cycle(0x5555, 0x80))
    case Erase1 => (Erase0, Cycle(0x5555, 0xaa))
    case Erase2 => (Erase1, Cycle(0x2aaa, 0x55))
    case _ => (Unlock2, Cycle(0x5555, 0xa0))
  }

  lemma {:induction false} OpeningGrows(m: Mode)
    requires Opening(m) != []
    ensures Opening(m) == Opening(Before(m).0) + [Before(m).1] && NextMode(false, Before(m).0, Before(m).1.at, Before(m).1.value) == m
  {
  }

  /** From rest these writes do bring the part there, ... */
  lemma {:induction false} Heard(ws: seq<Cycle>, m: Mode)
    requires ModeAfter(false, ws) == ReadArray && (Opening(m) != [] || m == ReadArray)
    ensures ModeAfter(false, ws + Opening(m)) == m
    decreases |Opening(m)|
  {
    if m == ReadArray {
      assert ws + [] == ws;
    } else {
      OpeningGrows(m);
      var b, w := Before(m).0, Before(m).1;
      Heard(ws, b);
      HeardOneMore(ws, Opening(b), w);
    }
  }

  lemma {:induction false} HeardOneMore(ws: seq<Cycle>, more: seq<Cycle>, w: Cycle)
    ensures ModeAfter(false, ws + (more + [w])) == NextMode(false, ModeAfter(false, ws + more), w.at, w.value)
  {
    var all := ws + (more + [w]);
    assert all[..|all| - 1] == ws + more && all[|all| - 1] == w;
  }

  /** ... so that each of these commands is understood. */
  lemma {:induction false} CommandsAreHeard29(ws: seq<Cycle>, a: nat, v: u8)
    requires ModeAfter(false, ws) == ReadArray
    ensures Starts(false, ModeAfter(false, ws + Opening(ProgramNext)), a, v) == Program(a, v)
    ensures v == 0x30 || v == 0x50 ==> Starts(false, ModeAfter(false, ws + Opening(Erase2)), a, v) == EraseBlock(a)
    ensures a == 0x5555 && v == 0x10 ==> Starts(false, ModeAfter(false, ws + Opening(Erase2)), a, v) == EraseChip
  {
    Heard(ws, ProgramNext);
    Heard(ws, Erase2);
  }

  /** A 28xxx part that is not at work erases exactly on 0xd0 behind a set-up of 0x20, and programs
      on anything behind one of 0x40. */
  lemma {:induction false} CommandsAreWhole28(ws: seq<Cycle>, w: Cycle, a: nat, v: u8)
    requires var m := ModeAfter(true, ws); !m.EraseSetup? && !m.ProgramSetup?
    ensures var action := Starts(true, ModeAfter(true, ws + [w]), a, v);
      action == if w.value == 0x20 && v == 0xd0 then EraseBlock(a) else if w.value == 0x40 then Program(a, v) else Nothing
  {
    assert (ws + [w])[..|ws|] == ws;
  }

  /** Both addresses are in one 4K block. */
  predicate SameBlock(a: nat, b: nat) {
    a / 0x1000 == b / 0x1000
  }

  /** `y` is `x` with some bits cleared. */
  predicate BitsCleared(x: u8, y: u8) {
    x & y == y
  }

  lemma {:induction false} ClearedTwice(x: u8, y: u8, z: u8)
    requires BitsCleared(x, y) && BitsCleared(y, z)
    ensures BitsCleared(x, z)
  {
  }

  lemma {:induction false} ClearedTo(x: u8, v: u8)
    ensures BitsCleared(x, x)
    ensures BitsCleared(x, v) ==> x & v == v
  {
  }

  lemma {:induction false} AllOnes(v: u8)
    ensures BitsCleared(0xff, v)
  {
  }

  /** A flash chip. What a command achieves is up to the chip: an erase sets whatever cells it
      likes to 0xff, a program clears whatever bits of its target it likes, and both take as
      long as they like. A `faithful` chip does what it was told, soon and without complaint. */
  class Chip {
    const is28: bool
    const faithful: bool
    const cells: array<u8>
    var mode: Mode
    var lag: nat          // status reads before a 28xxx part notices that it is busy
    var busy: nat         // further status reads until the command is done
    var toggle: bool      // bit 6 of the last status of a 29xxx part
    var status: u8        // status register of a 28xxx part
    ghost var done: seq<Action>

    constructor (is28: bool, faithful: bool, size: nat)
      ensures this.is28 == is28 && this.faithful == faithful
      ensures cells.Length == size && fresh(cells) && Ready() && done == []
    {
      this.is28, this.faithful := is28, faithful;
      cells := new u8[size];
      mode, lag, busy, toggle, status, done := ReadArray, 0, 0, false, 0, [];
    }

    /** The chip shows its contents. */
    predicate Ready()
      reads this
    {
      mode == ReadArray && lag == 0 && busy == 0
    }

    method Read(a: nat) returns (v: u8)
      requires a < cells.Length
      modifies this`lag, this`busy, this`toggle
      ensures !(is28 && mode == Status && old(lag) > 0) ==> lag == old(lag)
      ensures is28 && mode == Status ==>
        if old(lag) > 0 then lag == old(lag) - 1 && busy == old(busy)
        else if old(busy) > 0 then busy == old(busy) - 1 && v & 0x80 == 0
        else busy == 0 && v == status | 0x80
      ensures !is28 && old(busy) > 0 ==> busy == old(busy) - 1 && toggle != old(toggle) && (v & 0x40 != 0) == toggle
      ensures mode == ReadArray && (is28 || old(busy) == 0) ==> v == cells[a] && busy == old(busy)
    {
      if is28 {
        if mode == Status {
          v := *;
          if lag > 0 {
            lag := lag - 1;
          } else if busy > 0 {
            busy := busy - 1;
            v := v & 0x7f;
          } else {
            v := status | 0x80;
          }
        } else {
          v := cells[a];
        }
      } else if busy > 0 {
        busy := busy - 1;
        toggle := !toggle;
        v := *;
        v := if toggle then v | 0x40 else v & 0xbf;
      } else {
        v := cells[a];
      }
    }

    /** What an action does to the cells, given those before. */
    ghost predicate Effect(action: Action, a: nat, before: seq<u8>)
      requires |before| == cells.Length && a < cells.Length
      reads this, cells
    {
      match action
      case Nothing => cells[..] == before
      case Program(_, v) =>
        && (forall k :: 0 <= k < cells.Length && k != a ==> cells[k] == before[k])
        && BitsCleared(before[a], cells[a])
        && (faithful ==> cells[a] == before[a] & v)
      case _ =>
        && (forall k :: 0 <= k < cells.Length ==> cells[k] == before[k] || cells[k] == 0xff)
        && (faithful ==> forall k :: 0 <= k < cells.Length && SameBlock(k, a) ==> cells[k] == 0xff)
    }

    /** How long an action takes, and how it ends. */
    ghost predicate Timing(action: Action)
      reads this
    {
      && lag < (if !is28 then 1 else if action.Program? then 2 else 0x100)
      && (action.Nothing? ==> lag == busy == 0)
      && (faithful && !action.Nothing? ==> busy < 1000 && status & 0x7e == 0)
    }

    method Write(a: nat, v: u8)
      requires a < cells.Length
      modifies this, cells
      ensures old(lag) > 0 || old(busy) > 0 ==>
        mode == old(mode) && lag == old(lag) && busy == old(busy) && done == old(done) && cells[..] == old(cells[..])
      ensures old(lag) == old(busy) == 0 ==>
        var action := Starts(is28, old(mode), a, v);
        && mode == NextMode(is28, old(mode), a, v)
        && done == old(done) + (if action.Nothing? then [] else [action])
        && Effect(action, a, old(cells[..])) && Timing(action)
    {
      if lag > 0 || busy > 0 { return; }
      var action := Starts(is28, mode, a, v);
      if is28 && v == 0x50 { status := 0; }
      mode := NextMode(is28, mode, a, v);
      Perform(action, a, v);
    }

    method Perform(action: Action, a: nat, v: u8)
      requires a < cells.Length && lag == busy == 0 && (action.Program? ==> action == Program(a, v))
      modifies this`lag, this`busy, this`status, this`done, cells
      ensures done == old(done) + (if action.Nothing? then [] else [action])
      ensures Effect(action, a, old(cells[..])) && Timing(action)
    {
      match action {
        case Nothing => return;
        case Program(_, _) => ProgramCell(a, v);
        case _ => EraseCells(a);
      }
      StartWork(if action.Program? then 2 else 0x100, action);
    }

    /** Clears some bits of a cell. */
    method ProgramCell(a: nat, v: u8)
      requires a < cells.Length
      modifies cells
      ensures forall k :: 0 <= k < cells.Length && k != a ==> cells[k] == old(cells[k])
      ensures BitsCleared(old(cells[a]), cells[a])
      ensures faithful ==> cells[a] == old(cells[a]) & v
    {
      var kept: u8 := *;
      if faithful { kept := v; }
      ClearsBits(cells[a], kept);
      cells[a] := cells[a] & kept;
    }

    /** Sets some cells to 0xff. */
    method EraseCells(a: nat)
      requires a < cells.Length
      modifies cells
      ensures forall k :: 0 <= k < cells.Length ==> cells[k] == old(cells[k]) || cells[k] == 0xff
      ensures faithful ==> forall k :: 0 <= k < cells.Length && SameBlock(k, a) ==> cells[k] == 0xff
    {
      var hit: set<nat> := *;
      forall k | 0 <= k < cells.Length && (k in hit || (faithful && SameBlock(k, a))) { cells[k] := 0xff; }
    }

    /** The command takes some time, and ends with some status. */
    method StartWork(limit: nat, ghost action: Action)
      requires limit > 0
      modifies this`lag, this`busy, this`status, this`done
      ensures lag < (if is28 then limit else 1) && done == old(done) + [action]
      ensures faithful ==> status & 0x7e == 0 && busy < 1000
    {
      var l: nat, n: nat, s: u8 := *, *, *;
      lag := if is28 && l < limit then l else 0;
      busy := if faithful && n >= 1000 then 0 else n;
      status := if faithful then 0 else s;
      done := done + [action];
    }
  }

  lemma {:induction false} ClearsBits(x: u8, y: u8)
    ensures BitsCleared(x, x & y)
  {
  }

  lemma {:induction false} Bit6(x: u8, y: u8)
    ensures x & 0x40 == y & 0x40 <==> (x & 0x40 != 0) == (y & 0x40 != 0)
    ensures (x ^ 0x40) & 0x40 != 0 <==> x & 0x40 == 0
  {
  }

  lemma {:induction false} DoneStatus(s: u8)
    ensures (s | 0x80) & 0x80 != 0
    ensures s & 0x7e == 0 ==> (s | 0x80) & 0x7e == 0
  {
  }

  /** How many of the addresses lie in 4K block number `b`. */
  function InBlock(s: seq<nat>, b: nat): nat {
    if s == [] then 0 else InBlock(s[..|s| - 1], b) + if s[|s| - 1] / 0x1000 == b then 1 else 0
  }

  lemma {:induction false} OneMore(s: seq<nat>, p: nat, b: nat)
    ensures InBlock(s + [p], b) == InBlock(s, b) + if p / 0x1000 == b then 1 else 0
  {
    assert (s + [p])[..|s|] == s;
  }

  /** How often the actions program cell `a`. */
  function Attempts(s: seq<Action>, a: nat): nat {
    if s == [] then 0
    else Attempts(s[..|s| - 1], a) + if s[|s| - 1].Program? && s[|s| - 1].target == a then 1 else 0
  }

  lemma {:induction false} OneAttempt(s: seq<Action>, x: Action, a: nat)
    ensures Attempts(s + [x], a) == Attempts(s, a) + if x.Program? && x.target == a then 1 else 0
  {
    assert (s + [x])[..|s|] == s;
  }

  // ---------- the programmer ----------

  class Programmer {
    const chip: Chip
    const startOffset: nat
    const lengthUsed: nat
    const lengthInBytes: nat

    constructor (chip: Chip, startOffset: nat, lengthUsed: nat)
      requires startOffset + lengthUsed <= chip.cells.Length
      requires 0x5555 < chip.cells.Length <= 0xffff_f000
      ensures this.chip == chip && this.startOffset == startOffset && this.lengthUsed == lengthUsed
      ensures Valid()
    {
      this.chip, this.startOffset, this.lengthUsed := chip, startOffset, lengthUsed;
      lengthInBytes := chip.cells.Length;
    }

    predicate Valid() {
      && startOffset + lengthUsed <= lengthInBytes == chip.cells.Length
      && 0x5555 < lengthInBytes <= 0xffff_f000
    }

    /** Polls a 29xxx part until bit 6 stops toggling. It stops only when the part is done. */
    method WaitToggle(dw: nat) returns (count: nat)
      requires !chip.is28 && chip.mode == ReadArray && chip.lag == 0 && dw < chip.cells.Length
      modifies chip`lag, chip`busy, chip`toggle
      ensures chip.Ready()
    {
      count := 0;
      var b := chip.Read(dw);
      ghost var shown := chip.busy == 0;
      var r := chip.Read(dw);
      Bit6(r, b);
      while r & 0x40 != b & 0x40
        invariant chip.lag == 0
        invariant shown ==> chip.busy == 0 && r == chip.cells[dw]
        invariant !shown ==> (r & 0x40 != 0) == chip.toggle != (b & 0x40 != 0)
        invariant r & 0x40 == b & 0x40 <==> (r & 0x40 != 0) == (b & 0x40 != 0)
        decreases chip.busy, !shown, r & 0x40 != b & 0x40
      {
        count := count + 1;
        Bit6(b, b);
        b := b ^ 0x40;
        shown := chip.busy == 0;
        r := chip.Read(dw);
        Bit6(r, b);
      }
    }

    /** The three bus cycles that open a 29xxx command. */
    method Command29(cmd: u8)
      requires Valid() && !chip.is28 && chip.Ready()
      modifies chip, chip.cells
      ensures chip.mode == (if cmd == 0x80 then Erase0 else if cmd == 0xa0 then ProgramNext else ReadArray)
      ensures chip.lag == chip.busy == 0 && chip.done == old(chip.done) && chip.cells[..] == old(chip.cells[..])
    {
      chip.Write(0x5555, 0xaa);
      chip.Write(0x2aaa, 0x55);
      chip.Write(0x5555, cmd);
    }

    /** Since `before`, cells have only been set to 0xff. */
    ghost predicate OnlyErased(before: seq<u8>)
      requires |before| == chip.cells.Length
      reads chip.cells
    {
      forall k :: 0 <= k < chip.cells.Length ==> chip.cells[k] == before[k] || chip.cells[k] == 0xff
    }

    /** The 4K block around `dw` is erased. */
    ghost predicate BlockErased(dw: nat)
      reads chip.cells
    {
      forall k :: 0 <= k < chip.cells.Length && SameBlock(k, dw) ==> chip.cells[k] == 0xff
    }

    /** `action` may happen in an erase pass at `dw`: the whole chip is erased only if the whole
        chip is to be reprogrammed. */
    predicate MayErase(action: Action, dw: nat) {
      action == EraseBlock(dw) || (action == EraseChip && startOffset == 0 && lengthUsed == lengthInBytes)
    }

    /** A six-cycle erase command of a 29xxx part. */
    method Erase29(dw: nat, at: nat, cmd: u8) returns (count: nat)
      requires Valid() && !chip.is28 && chip.Ready() && dw < lengthInBytes && at < lengthInBytes
      requires cmd == 0x30 || cmd == 0x50 || (cmd == 0x10 && at == 0x5555)
      modifies chip, chip.cells
      ensures chip.Ready() && OnlyErased(old(chip.cells[..]))
      ensures chip.done == old(chip.done) + [if cmd == 0x10 then EraseChip else EraseBlock(at)]
      ensures chip.faithful ==> BlockErased(at)
    {
      Command29(0x80);
      chip.Write(0x5555, 0xaa);
      chip.Write(0x2aaa, 0x55);
      chip.Write(at, cmd);
      count := WaitToggle(dw);
    }

    /** An erase pass on a 29xxx part: one or two block erases, and as a last resort the chip. */
    method Pass29(dw: nat, retries: int) returns (ghost acts: seq<Action>)
      requires Valid() && !chip.is28 && chip.Ready() && dw < lengthInBytes
      modifies chip, chip.cells
      ensures chip.Ready() && OnlyErased(old(chip.cells[..]))
      ensures chip.done == old(chip.done) + acts && 1 <= |acts| <= 3
      ensures forall x :: x in acts ==> MayErase(x, dw)
      ensures chip.faithful ==> BlockErased(dw)
    {
      var count := Erase29(dw, dw, 0x50);
      acts := [EraseBlock(dw)];
      if count < 3 {
        Command29(0xf0);
        count := Erase29(dw, dw, 0x30);
        acts := acts + [EraseBlock(dw)];
      }
      if count < 3 && retries < 2 && startOffset == 0 && lengthUsed == lengthInBytes {
        Command29(0xf0);
        count := Erase29(dw, 0x5555, 0x10);
        acts := acts + [EraseChip];
      }
    }

    /** Polls the status of a 28xxx part after an erase command. The 256 reads it makes in any
        case outlast the lag of the part, so that the last one tells the truth. */
    method PollErase(dw: nat) returns (b: u8)
      requires chip.is28 && chip.mode == Status && chip.lag < 0x100 && dw < chip.cells.Length
      modifies chip`lag, chip`busy, chip`toggle
      ensures chip.lag == chip.busy == 0 && b == chip.status | 0x80
    {
      var spin := 0x100;
      b := 0;
      while b & 0x80 == 0 || spin != 0
        invariant 0 <= spin && (chip.lag == 0 || chip.lag < spin)
        invariant spin == 0 && b & 0x80 != 0 ==> chip.busy == 0 && b == chip.status | 0x80
        decreases chip.lag + chip.busy + spin, b & 0x80 == 0
      {
        b := chip.Read(dw);
        DoneStatus(chip.status);
        if spin != 0 { spin := spin - 1; }
      }
    }

    /** An erase pass on a 28xxx part. */
    method Pass28(dw: nat) returns (b: u8)
      requires Valid() && chip.is28 && chip.Ready() && dw < lengthInBytes
      modifies chip, chip.cells
      ensures chip.Ready() && OnlyErased(old(chip.cells[..]))
      ensures chip.done == old(chip.done) + [EraseBlock(dw)]
      ensures chip.faithful ==> BlockErased(dw) && b & 0x7e == 0
    {
      chip.Write(0x5555, 0x50);
      chip.Write(dw, 0x20);
      chip.Write(dw, 0xd0);
      b := PollErase(dw);
      DoneStatus(chip.status);
      End28(0x5555);
    }

    method ErasePass(dw: nat, retries: int) returns (ok: bool, ghost acts: seq<Action>)
      requires Valid() && chip.Ready() && dw < lengthInBytes
      modifies chip, chip.cells
      ensures chip.Ready() && OnlyErased(old(chip.cells[..]))
      ensures chip.done == old(chip.done) + acts && 1 <= |acts| <= 3
      ensures forall x :: x in acts ==> MayErase(x, dw)
      ensures chip.faithful ==> ok && BlockErased(dw)
    {
      if chip.is28 {
        var b := Pass28(dw);
        acts := [EraseBlock(dw)];
        ok := b & 0x7e == 0;
      } else {
        acts := Pass29(dw, retries);
        ok := true;
      }
    }

    /** The user may break off at every progress report. */
    method Callback() returns (go: bool) {
      go := *;
    }

    /** Every action is an erase of one of the passes. */
    predicate Accounted(acts: seq<Action>, passes: seq<nat>) {
      && (forall x :: x in acts ==> exists p :: p in passes && MayErase(x, p))
      && |passes| <= |acts| <= 3 * |passes|
    }

    lemma {:induction false} AccountedMore(acts: seq<Action>, passes: seq<nat>, more: seq<Action>, p: nat)
      requires Accounted(acts, passes) && 1 <= |more| <= 3 && forall x :: x in more ==> MayErase(x, p)
      ensures Accounted(acts + more, passes + [p])
    {
      forall x | x in acts + more ensures exists q :: q in passes + [p] && MayErase(x, q) {
        if x in acts {
          var q :| q in passes && MayErase(x, q);
          assert q in passes + [p];
        } else {
          assert p in passes + [p];
        }
      }
    }

    /** The retry counter of the erase loop counts the passes made in the 4K block of the last
        pass, and no later block has had any. */
    ghost predicate Counted(passes: seq<nat>, last: nat, tries: int) {
      && 1 <= tries <= MAX_ERASE_RETRIES
      && (passes == [] ==> last == 0xffff_ffff && tries == MAX_ERASE_RETRIES)
      && (passes != [] ==> last < lengthInBytes && InBlock(passes, last / 0x1000) == 1 + MAX_ERASE_RETRIES - tries)
      && (passes != [] ==> forall b :: b > last / 0x1000 ==> InBlock(passes, b) == 0)
      && forall b: nat :: InBlock(passes, b) <= MAX_ERASE_RETRIES
    }

    lemma {:induction false} CountedMore(passes: seq<nat>, last: nat, tries: int, dw: nat)
      requires Valid() && Counted(passes, last, tries) && dw < lengthInBytes && (passes != [] ==> last <= dw)
      ensures SameBlock(last, dw) && tries > 1 ==> Counted(passes + [dw], last, tries - 1)
      ensures !SameBlock(last, dw) ==> Counted(passes + [dw], dw, MAX_ERASE_RETRIES)
      ensures passes == [] ==> !SameBlock(last, dw)
    {
      forall b: nat ensures InBlock(passes + [dw], b) == InBlock(passes, b) + if dw / 0x1000 == b then 1 else 0 {
        OneMore(passes, dw, b);
      }
    }

    /** Every pass was made at a cell of the region that needed it. */
    predicate InRegion(passes: seq<nat>, before: seq<u8>)
      requires Valid() && |before| == lengthInBytes
    {
      forall p :: p in passes ==> startOffset <= p < startOffset + lengthUsed && before[p] != 0xff
    }

    /** A cell that is not erased: another pass, unless its block has had four. */
    method AnotherPass(dw: nat, last0: nat, tries0: int, ghost passes0: seq<nat>, ghost acts0: seq<Action>,
        ghost before: seq<u8>, ghost earlier: seq<Action>)
      returns (ok: bool, last: nat, tries: int, ghost passes: seq<nat>, ghost acts: seq<Action>)
      requires Valid() && chip.Ready() && |before| == lengthInBytes && OnlyErased(before)
      requires startOffset <= dw < startOffset + lengthUsed && chip.cells[dw] != 0xff
      requires chip.done == earlier + acts0 && Accounted(acts0, passes0) && InRegion(passes0, before)
      requires Counted(passes0, last0, tries0) && (passes0 != [] ==> last0 <= dw)
      requires chip.faithful ==> !SameBlock(last0, dw)
      modifies chip, chip.cells
      ensures chip.Ready() && OnlyErased(before)
      ensures forall k :: 0 <= k < lengthInBytes ==> chip.cells[k] == old(chip.cells[k]) || chip.cells[k] == 0xff
      ensures chip.done == earlier + acts && Accounted(acts, passes) && InRegion(passes, before)
      ensures forall b: nat :: InBlock(passes, b) <= MAX_ERASE_RETRIES
      ensures chip.faithful ==> ok && BlockErased(last)
      ensures ok ==>
        && Counted(passes, last, tries) && passes != [] && last <= dw && SameBlock(last, dw)
        && (passes0 != [] && SameBlock(last0, dw) ==> tries < tries0)
    {
      CountedMore(passes0, last0, tries0, dw);
      last, tries, passes, acts := dw, MAX_ERASE_RETRIES, passes0, acts0;
      if SameBlock(last0, dw) {
        last, tries := last0, tries0 - 1;
        if tries == 0 { return false, last, tries, passes, acts; }
      }
      ghost var more;
      ok, more := ErasePass(dw, tries);
      AccountedMore(acts, passes, more, dw);
      acts, passes := acts + more, passes + [dw];
    }

    /** Erases the region. Success means that all of it reads 0xff; cells outside may have been
        erased too, but none has changed in any other way. No 4K block has had more than four
        passes, every pass was made at a cell of the region that needed it, and the whole chip
        was erased only if it is the region. With a chip that does what it is told, only the
        user can make the erase fail. */
    method EraseMinimalRegion() returns (ok: bool, ghost passes: seq<nat>, ghost acts: seq<Action>, ghost agreed: bool)
      requires Valid() && chip.Ready()
      modifies chip, chip.cells
      ensures chip.Ready() && OnlyErased(old(chip.cells[..]))
      ensures ok ==> forall k :: startOffset <= k < startOffset + lengthUsed ==> chip.cells[k] == 0xff
      ensures chip.done == old(chip.done) + acts && Accounted(acts, passes)
      ensures forall b: nat :: InBlock(passes, b) <= 4
      ensures forall p :: p in passes ==>
        startOffset <= p < startOffset + lengthUsed && old(chip.cells[p]) != 0xff
      ensures chip.faithful && agreed ==> ok
    {
      ghost var before, earlier := chip.cells[..], chip.done;
      passes, acts, ok := [], [], false;
      var dw, dwLen, last, tries := startOffset, lengthUsed, 0xffff_ffff, MAX_ERASE_RETRIES;
      var go := Callback();
      agreed := go;
      if !go { return; }
      while dwLen > 0
        invariant dw + dwLen == startOffset + lengthUsed && startOffset <= dw && dwLen >= 0
        invariant chip.Ready() && OnlyErased(before) && agreed
        invariant forall k :: startOffset <= k < dw ==> chip.cells[k] == 0xff
        invariant chip.done == earlier + acts && Accounted(acts, passes) && InRegion(passes, before)
        invariant Counted(passes, last, tries) && (passes != [] ==> last <= dw)
        invariant chip.faithful && passes != [] ==> BlockErased(last)
        decreases dwLen, if passes != [] && SameBlock(last, dw) then tries else 5
      {
        var v := chip.Read(dw);
        if v != 0xff {
          ok, last, tries, passes, acts := AnotherPass(dw, last, tries, passes, acts, before, earlier);
          if !ok { return; }
          continue;
        }
        if dw % 0x400 == 0 {
          go := Callback();
          agreed := agreed && go;
          if !go { return false, passes, acts, agreed; }
        }
        dwLen, dw := dwLen - 1, dw + 1;
      }
      go := Callback();
      agreed := go;
      return go, passes, acts, agreed;
    }

    /** Polls the status of a 28xxx part after a program command, for a limited time. */
    method PollProgram(dw: nat) returns (b: u8, timeToLive: nat)
      requires chip.is28 && chip.mode == Status && chip.lag < 2 && dw < chip.cells.Length
      modifies chip`lag, chip`busy, chip`toggle
      ensures timeToLive > 0 ==> chip.lag == chip.busy == 0 && b == chip.status | 0x80
      ensures old(chip.busy) < 1000 ==> timeToLive > 0
    {
      var spin := 2;
      b, timeToLive := 0, 0xfffff;
      ghost var work := chip.lag + chip.busy;
      while true
        invariant 0 <= spin <= 2 && (chip.lag == 0 || chip.lag < spin)
        invariant spin == 0 && b & 0x80 != 0 ==> chip.lag == chip.busy == 0 && b == chip.status | 0x80
        invariant spin > 0 ==> timeToLive >= 0xffffd + spin
        invariant timeToLive > 0
        invariant timeToLive >= 0xfffff - (work - (chip.lag + chip.busy)) - (if b & 0x80 == 0 then 0 else 1)
        decreases timeToLive + spin
      {
        var go := false;
        if b & 0x80 == 0 {
          timeToLive := timeToLive - 1;
          go := timeToLive != 0;
        }
        if !go && spin == 0 { break; }
        b := chip.Read(dw);
        DoneStatus(chip.status);
        if spin != 0 { spin := spin - 1; }
      }
    }

    /** Cell `dw` has been programmed with `v`, as well as the chip would. */
    ghost predicate Programmed(dw: nat, v: u8, before: seq<u8>)
      requires |before| == chip.cells.Length && dw < chip.cells.Length
      reads chip.cells
    {
      && (forall k :: 0 <= k < chip.cells.Length && k != dw ==> chip.cells[k] == before[k])
      && BitsCleared(before[dw], chip.cells[dw])
      && (chip.faithful ==> chip.cells[dw] == before[dw] & v)
    }

    method Start28(dw: nat, v: u8)
      requires Valid() && chip.is28 && chip.Ready() && dw < lengthInBytes
      modifies chip, chip.cells
      ensures chip.mode == Status && chip.lag < 2 && (chip.faithful ==> chip.busy < 1000 && chip.status & 0x7e == 0)
      ensures chip.done == old(chip.done) + [Program(dw, v)] && Programmed(dw, v, old(chip.cells[..]))
    {
      chip.Write(dw, 0x40);
      chip.Write(dw, v);
    }

    /** Clears the status of a 28xxx part and makes it show its contents, if it has finished. */
    method End28(at: nat)
      requires Valid() && chip.is28 && chip.mode == Status && at < lengthInBytes
      modifies chip, chip.cells
      ensures chip.done == old(chip.done) && chip.cells[..] == old(chip.cells[..])
      ensures old(chip.lag) == old(chip.busy) == 0 ==> chip.Ready()
    {
      chip.Write(at, 0x50);
      chip.Write(at, 0xff);
    }

    method Program28(dw: nat, v: u8) returns (ok: bool)
      requires Valid() && chip.is28 && chip.Ready() && dw < lengthInBytes
      modifies chip, chip.cells
      ensures ok ==> chip.Ready()
      ensures chip.done == old(chip.done) + [Program(dw, v)] && Programmed(dw, v, old(chip.cells[..]))
      ensures chip.faithful ==> ok
    {
      Start28(dw, v);
      var b, timeToLive := PollProgram(dw);
      DoneStatus(chip.status);
      End28(dw);
      ok := b & 0x7e == 0 && timeToLive != 0;
    }

    method Program29(dw: nat, v: u8)
      requires Valid() && !chip.is28 && chip.Ready() && dw < lengthInBytes
      modifies chip, chip.cells
      ensures chip.Ready()
      ensures chip.done == old(chip.done) + [Program(dw, v)] && Programmed(dw, v, old(chip.cells[..]))
    {
      Command29(0xa0);
      chip.Write(dw, v);
      var _ := WaitToggle(dw);
    }

    method ProgramByte(dw: nat, v: u8) returns (ok: bool)
      requires Valid() && chip.Ready() && dw < lengthInBytes
      modifies chip, chip.cells
      ensures ok ==> chip.Ready()
      ensures chip.done == old(chip.done) + [Program(dw, v)] && Programmed(dw, v, old(chip.cells[..]))
      ensures chip.faithful ==> ok
    {
      if chip.is28 {
        ok := Program28(dw, v);
      } else {
        Program29(dw, v);
        ok := true;
      }
    }

    /** Every action programs a byte of the region with its byte of `pba`. */
    predicate Intended(acts: seq<Action>, pba: seq<u8>)
      requires |pba| == lengthUsed
    {
      forall x :: x in acts ==>
        && x.Program? && startOffset <= x.target < startOffset + lengthUsed
        && x.value == pba[x.target - startOffset]
    }

    /** The retry counter of the program loop counts the attempts at the cell of the last one,
        and no later cell has had any. */
    ghost predicate Tried(acts: seq<Action>, dw: nat, last: nat, tries: int) {
      && 1 <= tries <= 4
      && (last == dw ==> Attempts(acts, dw) == 5 - tries)
      && (last != dw ==> Attempts(acts, dw) == 0)
      && (last < dw || last == dw || last == 0xffff_ffff)
      && (forall a: nat :: Attempts(acts, a) <= 4)
      && (forall a: nat :: a > dw ==> Attempts(acts, a) == 0)
    }

    lemma {:induction false} TriedMore(acts: seq<Action>, dw: nat, last: nat, tries: int, v: u8)
      requires Tried(acts, dw, last, tries)
      ensures last == dw && tries > 1 ==> Tried(acts + [Program(dw, v)], dw, dw, tries - 1)
      ensures last != dw ==> Tried(acts + [Program(dw, v)], dw, dw, 4)
    {
      forall a: nat ensures Attempts(acts + [Program(dw, v)], a) == Attempts(acts, a) + if a == dw then 1 else 0 {
        OneAttempt(acts, Program(dw, v), a);
      }
    }

    /** What programming has done to the cells so far: those before `dw` hold their bytes, those
        after it, and all outside the region, are as they were. */
    ghost predicate Progress(dw: nat, pba: seq<u8>, before: seq<u8>)
      requires Valid() && |pba| == lengthUsed && |before| == lengthInBytes
      requires startOffset <= dw <= startOffset + lengthUsed
      reads chip.cells
    {
      && (forall k :: startOffset <= k < dw ==> chip.cells[k] == pba[k - startOffset])
      && (forall k :: 0 <= k < lengthInBytes && !(startOffset <= k <= dw) ==> chip.cells[k] == before[k])
      && (dw == startOffset + lengthUsed && dw < lengthInBytes ==> chip.cells[dw] == before[dw])
      && (forall k :: 0 <= k < lengthInBytes ==> BitsCleared(before[k], chip.cells[k]))
    }

    /** A cell that holds its byte is behind the next one. */
    lemma {:induction false} CellDone(dw: nat, pba: seq<u8>, before: seq<u8>)
      requires Valid() && |pba| == lengthUsed && |before| == lengthInBytes
      requires startOffset <= dw < startOffset + lengthUsed && Progress(dw, pba, before)
      requires chip.cells[dw] == pba[dw - startOffset]
      ensures Progress(dw + 1, pba, before)
      ensures dw + 1 < lengthInBytes ==> chip.cells[dw + 1] == before[dw + 1]
    {
    }

    lemma {:induction false} TriedNext(acts: seq<Action>, dw: nat, last: nat, tries: int)
      requires Valid() && Tried(acts, dw, last, tries) && dw < lengthInBytes
      ensures Tried(acts, dw + 1, last, tries) && last != dw + 1
    {
    }

    /** At the end all of the region holds its bytes. */
    lemma {:induction false} RegionDone(pba: seq<u8>, before: seq<u8>)
      requires Valid() && |pba| == lengthUsed && |before| == lengthInBytes
      requires Progress(startOffset + lengthUsed, pba, before)
      ensures forall k :: 0 <= k < lengthUsed ==> chip.cells[startOffset + k] == pba[k]
      ensures forall k :: 0 <= k < lengthInBytes && !(startOffset <= k < startOffset + lengthUsed) ==>
        chip.cells[k] == before[k]
    {
      forall k | 0 <= k < lengthUsed ensures chip.cells[startOffset + k] == pba[k] {
        assert pba[k] == pba[(startOffset + k) - startOffset];
      }
    }

    /** One attempt at a cell. */
    method Attempt(dw: nat, pba: seq<u8>, ghost before: seq<u8>) returns (ok: bool)
      requires Valid() && |pba| == lengthUsed && |before| == lengthInBytes && chip.Ready()
      requires startOffset <= dw < startOffset + lengthUsed && Progress(dw, pba, before)
      modifies chip, chip.cells
      ensures ok ==> chip.Ready()
      ensures Progress(dw, pba, before)
      ensures chip.done == old(chip.done) + [Program(dw, pba[dw - startOffset])]
      ensures chip.faithful ==> ok
      ensures chip.faithful && old(chip.cells[dw]) == before[dw] && BitsCleared(before[dw], pba[dw - startOffset]) ==>
        chip.cells[dw] == pba[dw - startOffset]
    {
      ghost var was := chip.cells[..];
      ok := ProgramByte(dw, pba[dw - startOffset]);
      ClearedTwice(before[dw], was[dw], chip.cells[dw]);
    }

    /** A cell that does not hold its byte: another attempt, unless it has had four. */
    method Retry(dw: nat, last0: nat, retries0: int, pba: seq<u8>, ghost before: seq<u8>, ghost acts0: seq<Action>,
        ghost earlier: seq<Action>)
      returns (ok: bool, last: nat, retries: int, ghost acts: seq<Action>)
      requires Valid() && |pba| == lengthUsed && |before| == lengthInBytes && chip.Ready()
      requires startOffset <= dw < startOffset + lengthUsed && Progress(dw, pba, before)
      requires Tried(acts0, dw, last0, retries0) && Intended(acts0, pba) && chip.done == earlier + acts0
      requires last0 != dw ==> chip.cells[dw] == before[dw]
      requires last0 == dw ==> !(chip.faithful && Programmable(pba, before))
      modifies chip, chip.cells
      ensures Progress(dw, pba, before)
      ensures chip.done == earlier + acts && Intended(acts, pba)
      ensures forall a: nat :: Attempts(acts, a) <= 4
      ensures chip.faithful && Programmable(pba, before) ==> ok && chip.cells[dw] == pba[dw - startOffset]
      ensures ok ==>
        && chip.Ready() && last == dw && Tried(acts, dw, last, retries)
        && (last0 == dw ==> retries < retries0)
    {
      TriedMore(acts0, dw, last0, retries0, pba[dw - startOffset]);
      last, retries, acts := dw, 4, acts0;
      if last0 == dw {
        retries := retries0 - 1;
        if retries == 0 { return false, last, retries, acts; }
      }
      ok := Attempt(dw, pba, before);
      acts := acts + [Program(dw, pba[dw - startOffset])];
      assert chip.done == earlier + acts;
    }

    /** What holds between two turns of the first loop of `BootFlashProgram`. */
    ghost predicate Going(dw: nat, last: nat, retries: int, pba: seq<u8>, before: seq<u8>, acts: seq<Action>,
        earlier: seq<Action>)
      requires Valid() && |pba| == lengthUsed && |before| == lengthInBytes
      requires startOffset <= dw <= startOffset + lengthUsed
      reads chip, chip.cells
    {
      && chip.Ready() && Progress(dw, pba, before)
      && chip.done == earlier + acts && Intended(acts, pba) && Tried(acts, dw, last, retries)
      && (last != dw && dw < lengthInBytes ==> chip.cells[dw] == before[dw])
      && (last == dw && dw < startOffset + lengthUsed && chip.faithful && Programmable(pba, before) ==>
        chip.cells[dw] == pba[dw - startOffset])
    }

    /** One turn of that loop: `fits` if the cell holds its byte. */
    method ProgramTurn(dw: nat, last0: nat, retries0: int, pba: seq<u8>, ghost before: seq<u8>, ghost acts0: seq<Action>,
        ghost earlier: seq<Action>)
      returns (ok: bool, fits: bool, last: nat, retries: int, ghost acts: seq<Action>, ghost agreed: bool)
      requires Valid() && |pba| == lengthUsed && |before| == lengthInBytes
      requires startOffset <= dw < startOffset + lengthUsed
      requires Going(dw, last0, retries0, pba, before, acts0, earlier)
      modifies chip, chip.cells
      ensures ok && fits ==> Going(dw + 1, last, retries, pba, before, acts, earlier)
      ensures ok && !fits ==> Going(dw, last, retries, pba, before, acts, earlier)
      ensures ok && !fits ==> last == dw && (last0 == dw ==> retries < retries0)
      ensures Progress(dw, pba, before) && chip.done == earlier + acts && Intended(acts, pba)
      ensures forall a: nat :: Attempts(acts, a) <= 4
      ensures ok ==> agreed
      ensures chip.faithful && agreed && Programmable(pba, before) ==> ok
    {
      last, retries, acts, agreed := last0, retries0, acts0, true;
      var v := chip.Read(dw);
      fits := v == pba[dw - startOffset];
      if !fits {
        ok, last, retries, acts := Retry(dw, last, retries, pba, before, acts, earlier);
        return;
      }
      if dw % 0x400 == 0 {
        var go := Callback();
        agreed := go;
        if !go { return false, fits, last, retries, acts, agreed; }
      }
      CellDone(dw, pba, before);
      TriedNext(acts, dw, last, retries);
      ok := true;
    }

    /** The first loop of `BootFlashProgram`. */
    method ProgramCells(pba: seq<u8>) returns (ok: bool, ghost acts: seq<Action>, ghost agreed: bool)
      requires Valid() && |pba| == lengthUsed && chip.Ready()
      modifies chip, chip.cells
      ensures ok ==> chip.Ready() && agreed
      ensures ok ==> forall k :: 0 <= k < lengthUsed ==> chip.cells[startOffset + k] == pba[k]
      ensures chip.done == old(chip.done) + acts && Intended(acts, pba)
      ensures forall a: nat :: Attempts(acts, a) <= 4
      ensures forall k :: 0 <= k < lengthInBytes ==> BitsCleared(old(chip.cells[k]), chip.cells[k])
      ensures forall k :: 0 <= k < lengthInBytes && !(startOffset <= k < startOffset + lengthUsed) ==>
        chip.cells[k] == old(chip.cells[k])
      ensures chip.faithful && agreed && Programmable(pba, old(chip.cells[..])) ==> ok
    {
      ghost var before, earlier := chip.cells[..], chip.done;
      acts, agreed := [], true;
      var dw, dwLen, last: nat, retries := startOffset, lengthUsed, 0xffff_ffff, 4;
      forall k | 0 <= k < lengthInBytes ensures BitsCleared(before[k], before[k]) { ClearedTo(before[k], 0); }
      while dwLen > 0
        invariant 0 <= dwLen && dw + dwLen == startOffset + lengthUsed && startOffset <= dw
        invariant agreed && Going(dw, last, retries, pba, before, acts, earlier)
        decreases dwLen, if last == dw then retries else 5
      {
        var fits;
        ok, fits, last, retries, acts, agreed := ProgramTurn(dw, last, retries, pba, before, acts, earlier);
        if !ok { return; }
        if fits { dwLen, dw := dwLen - 1, dw + 1; }
      }
      RegionDone(pba, before);
      ok := true;
    }

    /** The bytes can be had from the cells by clearing bits. */
    predicate Programmable(pba: seq<u8>, before: seq<u8>)
      requires Valid() && |pba| == lengthUsed && |before| == lengthInBytes
    {
      forall k :: startOffset <= k < startOffset + lengthUsed ==> BitsCleared(before[k], pba[k - startOffset])
    }

    /** Programs the region with `pba` and verifies it. Success means that the region equals
        `pba`. No cell outside the region is touched, each byte is attempted at most four times
        and only with its own value, and bits are only ever cleared; so success is possible only
        where `pba` can be had by clearing bits, and there a chip that does what it is told
        succeeds unless the user breaks off. */
    method BootFlashProgram(pba: seq<u8>) returns (ok: bool, ghost acts: seq<Action>, ghost agreed: bool)
      requires Valid() && |pba| == lengthUsed && chip.Ready()
      modifies chip, chip.cells
      ensures ok ==> chip.Ready() && agreed
      ensures ok ==> chip.cells[startOffset..startOffset + lengthUsed] == pba
      ensures ok ==> Programmable(pba, old(chip.cells[..]))
      ensures chip.done == old(chip.done) + acts && Intended(acts, pba)
      ensures forall a: nat :: Attempts(acts, a) <= 4
      ensures forall k :: 0 <= k < lengthInBytes ==> BitsCleared(old(chip.cells[k]), chip.cells[k])
      ensures forall k :: 0 <= k < lengthInBytes && !(startOffset <= k < startOffset + lengthUsed) ==>
        chip.cells[k] == old(chip.cells[k])
      ensures chip.faithful && agreed && Programmable(pba, old(chip.cells[..])) ==> ok
    {
      ghost var before := chip.cells[..];
      acts, agreed := [], false;
      forall k | 0 <= k < lengthInBytes ensures BitsCleared(before[k], before[k]) { ClearedTo(before[k], 0); }
      var go := Callback();
      if !go { return false, acts, agreed; }
      ok, acts, agreed := ProgramCells(pba);
      if !ok { return; }
      forall k | startOffset <= k < startOffset + lengthUsed ensures BitsCleared(before[k], pba[k - startOffset]) {
        assert chip.cells[startOffset + (k - startOffset)] == pba[k - startOffset];
      }
      go := Callback();
      if !go { return false, acts, false; }
      go := Callback();
      if !go { return false, acts, false; }
      ok := Verify(pba);
      go := Callback();
      return ok && go, acts, go;
    }

    /** The verifying loop compares the region with `pba`. */
    method Verify(pba: seq<u8>) returns (ok: bool)
      requires Valid() && |pba| == lengthUsed && chip.Ready()
      modifies chip`lag, chip`busy, chip`toggle
      ensures chip.Ready() && (ok <==> chip.cells[startOffset..startOffset + lengthUsed] == pba)
    {
      var dw, dwLen, src := startOffset, lengthUsed, 0;
      while dwLen > 0
        invariant 0 <= dwLen && dw == startOffset + src && src + dwLen == lengthUsed
        invariant chip.Ready()
        invariant chip.cells[startOffset..dw] == pba[..src]
      {
        var v := chip.Read(dw);
        if v != pba[src] {
          assert chip.cells[startOffset..startOffset + lengthUsed][src] == v;
          return false;
        }
        dwLen, dw, src := dwLen - 1, dw + 1, src + 1;
      }
      ok := true;
    }

    /** After a successful erase anything can be programmed. */
    lemma {:induction false} ErasedIsProgrammable(pba: seq<u8>, cells: seq<u8>)
      requires Valid() && |pba| == lengthUsed && |cells| == lengthInBytes
      requires forall k :: startOffset <= k < startOffset + lengthUsed ==> cells[k] == 0xff
      ensures Programmable(pba, cells)
    {
      forall k | startOffset <= k < startOffset + lengthUsed ensures BitsCleared(cells[k], pba[k - startOffset]) {
        AllOnes(pba[k - startOffset]);
      }
    }
  }
}
