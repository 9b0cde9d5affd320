/**
  Two processes that pass messages through a shared page. Every test of a flag, every byte copied and every store to
  a flag is a step of its own, and the steps of the two sides interleave in any order.
 */
module MemSort {
  import opened Schedules

  type Byte = x: int | 0 <= x < 256

  const MEM_SIZE := 65536
  const MEM_META_SIZE := 2
  const CAP: nat := MEM_SIZE - MEM_META_SIZE

  datatype Pc =
    | Poll            // tests its flag until it is set
    | Copy(k: nat)    // k bytes of the exchange are copied
    | Clear           // about to clear its own flag
    | Raise           // about to set the flag of the other side
    | Check           // about to look whether the message is complete
    | Done

  datatype Side = Side(m: nat, at: nat, pc: Pc, rounds: nat)

  datatype State = State(
    mem: seq<Byte>, readable: bool, writable: bool,
    w: Side, r: Side,
    header: seq<Byte>, payload: seq<Byte>)   // what the reader has received

  // ----- the messages

  /** An int in memory, the least significant byte first. */
  function Encode(n: nat): (b: seq<Byte>)
    requires n < 0x8000_0000
    ensures |b| == 4
  {
    [n % 256, n / 256 % 256, n / 65536 % 256, n / 16777216]
  }

  function Decode(b: seq<Byte>): nat
    requires |b| == 4
  {
    var b0: int, b1: int, b2: int, b3: int := b[0], b[1], b[2], b[3];
    b0 + 256 * b1 + 65536 * b2 + 16777216 * b3
  }

  lemma SizeComesBack(n: nat)
    requires n < 0x8000_0000
    ensures Decode(Encode(n)) == n
  {
    assert n / 65536 == n / 256 / 256 && n / 16777216 == n / 256 / 256 / 256;
  }

  /** The two messages of the sorter: how many numbers there are, and the numbers. */
  ghost predicate Messages(ms: seq<seq<Byte>>) {
    |ms| == 2 && exists n :: 0 <= n && 4 * n < 0x8000_0000 && ms[0] == Encode(n) && |ms[1]| == 4 * n
  }

  function Min(a: nat, b: nat): nat {
    if a < b then a else b
  }

  function Init(mem: seq<Byte>): State {
    State(mem, false, true, Side(0, 0, Poll, 0), Side(0, 0, Poll, 0), [], [])
  }

  // ----- the steps

  function AfterCheck(x: Side, size: nat): Side {
    if x.at == size then Side(x.m + 1, 0, if x.m + 1 < 2 then Poll else Done, x.rounds)
    else x.(pc := Poll)
  }

  function WriterStep(ms: seq<seq<Byte>>, s: State): State
    requires |ms| == 2 && (s.w.pc.Done? || (s.w.m < 2 && s.w.at <= |ms[s.w.m]|)) && |s.mem| == CAP
  {
    match s.w.pc
    case Poll => if s.writable then s.(w := s.w.(pc := Copy(0))) else s
    case Copy(k) =>
      var toCopy := Min(CAP, |ms[s.w.m]| - s.w.at);
      if k < toCopy then s.(mem := s.mem[k := ms[s.w.m][s.w.at + k]], w := s.w.(pc := Copy(k + 1)))
      else s.(w := s.w.(at := s.w.at + toCopy, pc := Clear))
    case Clear => s.(writable := false, w := s.w.(pc := Raise))
    case Raise => s.(readable := true, w := s.w.(pc := Check, rounds := s.w.rounds + 1))
    case Check => s.(w := AfterCheck(s.w, |ms[s.w.m]|))
    case Done => s
  }

  /** The size the reader asks for: first that of an int, then what that int says. */
  function Want(s: State): nat {
    if s.r.m == 0 then 4 else if |s.header| == 4 then 4 * Decode(s.header) else 0
  }

  function Receive(s: State, b: Byte): State {
    if s.r.m == 0 then s.(header := s.header + [b]) else s.(payload := s.payload + [b])
  }

  function ReaderStep(s: State): State
    requires (s.r.pc.Done? || s.r.at <= Want(s)) && |s.mem| == CAP
  {
    match s.r.pc
    case Poll => if s.readable then s.(r := s.r.(pc := Copy(0))) else s
    case Copy(k) =>
      var toCopy := Min(CAP, Want(s) - s.r.at);
      if k < toCopy then Receive(s, s.mem[k]).(r := s.r.(pc := Copy(k + 1)))
      else s.(r := s.r.(at := s.r.at + toCopy, pc := Clear))
    case Clear => s.(readable := false, r := s.r.(pc := Raise))
    case Raise => s.(writable := true, r := s.r.(pc := Check, rounds := s.r.rounds + 1))
    case Check => s.(r := AfterCheck(s.r, Want(s)))
    case Done => s
  }

  // ----- the exchanges

  datatype Pos = Pos(m: nat, at: nat)

  predicate PosOk(ms: seq<seq<Byte>>, p: Pos)
    requires |ms| == 2
  {
    p.m <= 2 && p.at <= (if p.m < 2 then |ms[p.m]| else 0)
  }

  function Len(ms: seq<seq<Byte>>, p: Pos): nat
    requires |ms| == 2 && PosOk(ms, p)
  {
    if p.m < 2 then Min(CAP, |ms[p.m]| - p.at) else 0
  }

  /** Where the next exchange begins. */
  function Advance(ms: seq<seq<Byte>>, p: Pos): (q: Pos)
    requires |ms| == 2 && PosOk(ms, p)
    ensures PosOk(ms, q)
  {
    if p.m >= 2 then p
    else if p.at + Len(ms, p) == |ms[p.m]| then Pos(p.m + 1, 0)
    else Pos(p.m, p.at + Len(ms, p))
  }

  /** Where exchange j begins. */
  function Begin(ms: seq<seq<Byte>>, j: nat): (p: Pos)
    requires |ms| == 2
    ensures PosOk(ms, p)
  {
    if j == 0 then Pos(0, 0) else Advance(ms, Begin(ms, j - 1))
  }

  /** How many exchanges a message takes. */
  function Exchanges(size: nat): nat {
    if size <= CAP then 1 else 1 + Exchanges(size - CAP)
  }

  /** One for an empty message, otherwise as many as it takes to send it in pieces of 65534 bytes. */
  lemma {:induction false} ExchangesRoundUp(size: nat)
    ensures Exchanges(size) == if size == 0 then 1 else (size + 65533) / 65534
    decreases size
  {
    if size > CAP { ExchangesRoundUp(size - CAP); }
  }

  function ExchangesLeft(ms: seq<seq<Byte>>, p: Pos): nat
    requires |ms| == 2 && PosOk(ms, p)
  {
    if p.m == 0 then Exchanges(|ms[0]| - p.at) + Exchanges(|ms[1]|)
    else if p.m == 1 then Exchanges(|ms[1]| - p.at)
    else 0
  }

  lemma AdvanceUsesOne(ms: seq<seq<Byte>>, p: Pos)
    requires |ms| == 2 && PosOk(ms, p) && p.m < 2
    ensures ExchangesLeft(ms, Advance(ms, p)) == ExchangesLeft(ms, p) - 1
  {
  }

  // ----- the invariant

  /** How far a side has come is fixed by the number of its exchanges and by its place in the current one. */
  ghost predicate SideOk(ms: seq<seq<Byte>>, x: Side)
    requires |ms| == 2
  {
    match x.pc
    case Poll => x.m < 2 && Begin(ms, x.rounds) == Pos(x.m, x.at)
    case Copy(k) => x.m < 2 && Begin(ms, x.rounds) == Pos(x.m, x.at) && k <= Len(ms, Begin(ms, x.rounds))
    case Clear => Ends(ms, x, x.rounds)
    case Raise => Ends(ms, x, x.rounds)
    case Check => x.rounds > 0 && Ends(ms, x, x.rounds - 1)
    case Done => Begin(ms, x.rounds) == Pos(2, 0) && x.m == 2 && x.rounds > 0 && Begin(ms, x.rounds - 1).m < 2
  }

  /** The side has copied all of exchange j. */
  ghost predicate Ends(ms: seq<seq<Byte>>, x: Side, j: nat)
    requires |ms| == 2
  {
    x.m < 2 && Begin(ms, j).m == x.m && x.at == Begin(ms, j).at + Len(ms, Begin(ms, j))
  }

  predicate Resting(pc: Pc) {
    pc.Poll? || pc.Check? || pc.Done?
  }

  function Chunk(ms: seq<seq<Byte>>, p: Pos): (c: seq<Byte>)
    requires |ms| == 2 && PosOk(ms, p)
    ensures |c| == Len(ms, p) <= CAP
  {
    if p.m < 2 then ms[p.m][p.at..p.at + Len(ms, p)] else []
  }

  /** The sides take turns: an exchange belongs to the writer, then to the reader. */
  ghost predicate Turns(ms: seq<seq<Byte>>, s: State)
    requires |ms| == 2
  {
    if s.w.rounds == s.r.rounds then
      Resting(s.r.pc) && !s.readable && (s.writable <==> !s.w.pc.Raise?)
    else
      && s.w.rounds == s.r.rounds + 1 && Begin(ms, s.r.rounds).m < 2
      && Resting(s.w.pc) && !s.writable && (s.readable <==> !s.r.pc.Raise?)
  }

  /** The page holds what the writer has copied in this exchange. */
  ghost predicate Page(ms: seq<seq<Byte>>, s: State)
    requires |ms| == 2
  {
    var chunk := Chunk(ms, Begin(ms, s.r.rounds));
    && |s.mem| == CAP
    && (if s.w.rounds == s.r.rounds then
          && (s.w.pc.Copy? ==> s.w.pc.k <= |chunk| && s.mem[..s.w.pc.k] == chunk[..s.w.pc.k])
          && (s.w.pc.Clear? || s.w.pc.Raise? ==> s.mem[..|chunk|] == chunk)
        else s.mem[..|chunk|] == chunk)
  }

  /** What the reader has is a prefix of what was sent. */
  ghost predicate Received(ms: seq<seq<Byte>>, s: State)
    requires |ms| == 2
  {
    var got := s.r.at + if s.r.pc.Copy? then s.r.pc.k else 0;
    match s.r.m
    case 0 => got <= |ms[0]| && s.header == ms[0][..got] && s.payload == []
    case 1 => s.header == ms[0] && got <= |ms[1]| && s.payload == ms[1][..got]
    case _ => s.header == ms[0] && s.payload == ms[1]
  }

  ghost predicate Inv(ms: seq<seq<Byte>>, s: State) {
    && Messages(ms)
    && SideOk(ms, s.w) && SideOk(ms, s.r) && Turns(ms, s) && Page(ms, s) && Received(ms, s)
  }

  lemma InitInv(ms: seq<seq<Byte>>, mem: seq<Byte>)
    requires Messages(ms) && |mem| == CAP
    ensures Inv(ms, Init(mem))
  {
  }

  lemma WantIsRight(ms: seq<seq<Byte>>, s: State)
    requires Messages(ms) && Received(ms, s) && s.r.m < 2
    ensures Want(s) == |ms[s.r.m]|
  {
    var n :| 0 <= n && 4 * n < 0x8000_0000 && ms[0] == Encode(n) && |ms[1]| == 4 * n;
    SizeComesBack(n);
  }

  lemma Ready(ms: seq<seq<Byte>>, s: State)
    requires Inv(ms, s)
    ensures |ms| == 2 && |s.mem| == CAP && (s.w.pc.Done? || (s.w.m < 2 && s.w.at <= |ms[s.w.m]|))
    ensures s.r.pc.Done? || (s.r.m < 2 && s.r.at <= Want(s) == |ms[s.r.m]|)
  {
    if !s.r.pc.Done? { WantIsRight(ms, s); }
  }

  lemma WriterKeepsSide(ms: seq<seq<Byte>>, s: State)
    requires |ms| == 2 && |s.mem| == CAP && SideOk(ms, s.w) && (s.w.pc.Done? || (s.w.m < 2 && s.w.at <= |ms[s.w.m]|))
    ensures SideOk(ms, WriterStep(ms, s).w)
  {
    hide Begin, Advance, Chunk;
    if s.w.pc.Check? { CheckKeepsSide(ms, s.w); }
  }

  lemma CheckKeepsSide(ms: seq<seq<Byte>>, x: Side)
    requires |ms| == 2 && x.pc.Check? && SideOk(ms, x)
    ensures SideOk(ms, AfterCheck(x, |ms[x.m]|))
  {
    hide Begin, Len;
    BeginStep(ms, x.rounds);
  }

  lemma BeginStep(ms: seq<seq<Byte>>, j: nat)
    requires |ms| == 2 && j > 0
    ensures Begin(ms, j) == Advance(ms, Begin(ms, j - 1))
  {
  }

  lemma WriterKeepsTurns(ms: seq<seq<Byte>>, s: State)
    requires Inv(ms, s) && |ms| == 2 && (s.w.pc.Done? || (s.w.m < 2 && s.w.at <= |ms[s.w.m]|)) && |s.mem| == CAP
    ensures Turns(ms, WriterStep(ms, s))
  {
    hide Page, Received, Messages;
  }

  lemma WriterKeepsPage(ms: seq<seq<Byte>>, s: State)
    requires Inv(ms, s) && |ms| == 2 && (s.w.pc.Done? || (s.w.m < 2 && s.w.at <= |ms[s.w.m]|)) && |s.mem| == CAP
    ensures Page(ms, WriterStep(ms, s))
  {
    hide Received, Messages, Begin;
    var s' := WriterStep(ms, s);
    var chunk := Chunk(ms, Begin(ms, s.r.rounds));
    if s.w.pc.Copy? && s.w.rounds == s.r.rounds {
      var k := s.w.pc.k;
      if k < |chunk| {
        assert s'.mem[..k + 1] == s.mem[..k] + [chunk[k]] == chunk[..k + 1];
      } else {
        assert chunk[..k] == chunk;
      }
    }
  }

  lemma WriterKeepsInv(ms: seq<seq<Byte>>, s: State)
    requires Inv(ms, s)
    ensures |ms| == 2 && |s.mem| == CAP && (s.w.pc.Done? || (s.w.m < 2 && s.w.at <= |ms[s.w.m]|))
    ensures Inv(ms, WriterStep(ms, s))
  {
    hide SideOk, Turns, Page, Messages, Begin, Chunk, Len;
    Ready(ms, s);
    WriterKeepsSide(ms, s);
    WriterKeepsTurns(ms, s);
    WriterKeepsPage(ms, s);
  }

  lemma ReaderKeepsSide(ms: seq<seq<Byte>>, s: State)
    requires |ms| == 2 && |s.mem| == CAP && SideOk(ms, s.r) &&
             (s.r.pc.Done? || (s.r.m < 2 && s.r.at <= Want(s) == |ms[s.r.m]|))
    ensures SideOk(ms, ReaderStep(s).r)
  {
    hide Want, Begin, Advance, Chunk;
    if s.r.pc.Check? { CheckKeepsSide(ms, s.r); }
  }

  lemma ReaderKeepsTurns(ms: seq<seq<Byte>>, s: State)
    requires Inv(ms, s) && |ms| == 2 && |s.mem| == CAP &&
             (s.r.pc.Done? || (s.r.m < 2 && s.r.at <= Want(s) == |ms[s.r.m]|))
    ensures Turns(ms, ReaderStep(s))
  {
    hide Page, Received, Messages, Want;
  }

  lemma ReaderKeepsPage(ms: seq<seq<Byte>>, s: State)
    requires Inv(ms, s) && |ms| == 2 && |s.mem| == CAP &&
             (s.r.pc.Done? || (s.r.m < 2 && s.r.at <= Want(s) == |ms[s.r.m]|))
    ensures Page(ms, ReaderStep(s))
  {
    hide SideOk, Received, Messages, Want, Begin, Chunk, Len, Advance;
  }

  /** The byte the reader copies is the next one of the message. */
  lemma ReaderCopies(ms: seq<seq<Byte>>, s: State)
    requires |ms| == 2 && SideOk(ms, s.r) && Turns(ms, s) && Page(ms, s)
    requires s.r.pc.Copy? && s.r.m < 2 && s.r.at <= |ms[s.r.m]|
    ensures s.r.pc.k <= Min(CAP, |ms[s.r.m]| - s.r.at)
    ensures s.r.pc.k < Min(CAP, |ms[s.r.m]| - s.r.at) ==>
              s.r.pc.k < |s.mem| && s.mem[s.r.pc.k] == ms[s.r.m][s.r.at + s.r.pc.k]
  {
    hide Begin;
    var chunk, k := Chunk(ms, Begin(ms, s.r.rounds)), s.r.pc.k;
    if k < |chunk| {
      assert s.mem[..|chunk|][k] == chunk[k];
    }
  }

  lemma ReaderKeepsReceived(ms: seq<seq<Byte>>, s: State)
    requires Inv(ms, s) && |ms| == 2 && |s.mem| == CAP &&
             (s.r.pc.Done? || (s.r.m < 2 && s.r.at <= Want(s) == |ms[s.r.m]|))
    ensures Received(ms, ReaderStep(s))
  {
    hide Messages, Want, SideOk, Turns, Page;
    var s' := ReaderStep(s);
    if s.r.pc.Copy? {
      ReaderCopies(ms, s);
    } else if s.r.pc.Check? && s.r.at == |ms[s.r.m]| {
      assert ms[s.r.m][..s.r.at] == ms[s.r.m];
    }
  }

  lemma ReaderKeepsInv(ms: seq<seq<Byte>>, s: State)
    requires Inv(ms, s)
    ensures |s.mem| == CAP && (s.r.pc.Done? || s.r.at <= Want(s))
    ensures Inv(ms, ReaderStep(s))
  {
    hide SideOk, Turns, Page, Received, Messages, Begin, Chunk, Len, Want;
    Ready(ms, s);
    ReaderKeepsSide(ms, s);
    ReaderKeepsTurns(ms, s);
    ReaderKeepsPage(ms, s);
    ReaderKeepsReceived(ms, s);
  }

  // ----- runs

  /** The state after any interleaving: `true` is a step of the writer, `false` one of the reader. */
  ghost function Run(ms: seq<seq<Byte>>, mem: seq<Byte>, schedule: seq<bool>): (s: State)
    requires Messages(ms) && |mem| == CAP
    ensures Inv(ms, s)
    decreases |schedule|
  {
    if schedule == [] then InitInv(ms, mem); Init(mem)
    else Do(ms, Run(ms, mem, schedule[..|schedule| - 1]), schedule[|schedule| - 1])
  }

  ghost function Do(ms: seq<seq<Byte>>, s: State, writer: bool): (s': State)
    requires Inv(ms, s)
    ensures Inv(ms, s')
  {
    if writer then WriterKeepsInv(ms, s); WriterStep(ms, s) else ReaderKeepsInv(ms, s); ReaderStep(s)
  }

  /** The flags are never both set, and the two sides never copy at the same time. */
  lemma CopiesNeverOverlap(ms: seq<seq<Byte>>, mem: seq<Byte>, schedule: seq<bool>)
    requires Messages(ms) && |mem| == CAP
    ensures var s := Run(ms, mem, schedule);
            && !(s.readable && s.writable)
            && !((s.w.pc.Copy? || s.w.pc.Clear?) && (s.r.pc.Copy? || s.r.pc.Clear?))
            && (s.w.pc.Copy? ==> s.writable) && (s.r.pc.Copy? ==> s.readable)
  {
    hide Run, Page, Received, SideOk;
    assert Turns(ms, Run(ms, mem, schedule));
  }

  /** The reader always has the first bytes of what was sent, and in the end all of them. */
  lemma MessagesArrive(ms: seq<seq<Byte>>, mem: seq<Byte>, schedule: seq<bool>)
    requires Messages(ms) && |mem| == CAP
    ensures var s := Run(ms, mem, schedule);
            && s.header + s.payload <= ms[0] + ms[1]
            && (s.r.pc.Done? ==> s.header == ms[0] && s.payload == ms[1])
  {
    hide Run, Page, Turns;
    var s := Run(ms, mem, schedule);
    assert SideOk(ms, s.r) && Received(ms, s);
  }

  function AllExchanges(ms: seq<seq<Byte>>): nat
    requires |ms| == 2
  {
    Exchanges(|ms[0]|) + Exchanges(|ms[1]|)
  }

  lemma {:induction false} ExchangesAt(ms: seq<seq<Byte>>, j: nat)
    requires |ms| == 2
    ensures ExchangesLeft(ms, Begin(ms, j)) == if j <= AllExchanges(ms) then AllExchanges(ms) - j else 0
    ensures Begin(ms, j).m < 2 <==> j < AllExchanges(ms)
  {
    if j > 0 {
      ExchangesAt(ms, j - 1);
      if Begin(ms, j - 1).m < 2 { AdvanceUsesOne(ms, Begin(ms, j - 1)); }
    }
  }

  /** Both sides take part in the same exchanges: as many as the messages need, and one for an empty payload. */
  lemma SameNumberOfExchanges(ms: seq<seq<Byte>>, mem: seq<Byte>, schedule: seq<bool>)
    requires Messages(ms) && |mem| == CAP
    ensures var s := Run(ms, mem, schedule);
            && s.r.rounds <= s.w.rounds <= s.r.rounds + 1
            && s.w.rounds <= AllExchanges(ms)
            && (s.w.pc.Done? <==> s.w.rounds == AllExchanges(ms) && !s.w.pc.Check?)
            && (s.r.pc.Done? <==> s.r.rounds == AllExchanges(ms) && !s.r.pc.Check?)
  {
    hide Run, Page, Received, Begin, Advance, AllExchanges, Exchanges, ExchangesLeft;
    var s := Run(ms, mem, schedule);
    assert SideOk(ms, s.w) && SideOk(ms, s.r) && Turns(ms, s);
    RoundsBounded(ms, s.w);
    RoundsBounded(ms, s.r);
  }

  lemma RoundsBounded(ms: seq<seq<Byte>>, x: Side)
    requires |ms| == 2 && SideOk(ms, x)
    ensures x.rounds <= AllExchanges(ms)
    ensures x.pc.Done? ==> AllExchanges(ms) <= x.rounds
    ensures !x.pc.Done? && !x.pc.Check? ==> x.rounds < AllExchanges(ms)
  {
    hide Begin, Advance, AllExchanges, Exchanges, ExchangesLeft;
    ExchangesAt(ms, x.rounds);
    if x.pc.Check? || x.pc.Done? { ExchangesAt(ms, x.rounds - 1); }
  }

  // ----- progress

  function Place(pc: Pc): nat {
    match pc
    case Check => CAP + 5
    case Poll => CAP + 4
    case Copy(k) => if k <= CAP then CAP + 3 - k else 3
    case Clear => 2
    case Raise => 1
    case Done => 0
  }

  ghost function SideLeft(ms: seq<seq<Byte>>, x: Side): nat
    requires |ms| == 2
  {
    (CAP + 6) * ExchangesLeft(ms, Begin(ms, x.rounds)) + Place(x.pc)
  }

  ghost function Left(ms: seq<seq<Byte>>, s: State): nat
    requires |ms| == 2
  {
    SideLeft(ms, s.w) + SideLeft(ms, s.r)
  }

  /** A side that tests its flag in vain: the only step that changes nothing. */
  predicate Spins(s: State, writer: bool) {
    if writer then s.w.pc.Done? || (s.w.pc.Poll? && !s.writable)
    else s.r.pc.Done? || (s.r.pc.Poll? && !s.readable)
  }

  /** Every other step brings the pair closer to its end. */
  lemma StepsUseUp(ms: seq<seq<Byte>>, s: State, writer: bool)
    requires Inv(ms, s)
    ensures |ms| == 2
    ensures if Spins(s, writer) then Do(ms, s, writer) == s else Left(ms, Do(ms, s, writer)) < Left(ms, s)
  {
    hide Inv, SideOk, ExchangesLeft, Begin, Place, Want, Len, SideLeft;
    Ready(ms, s);
    if !Spins(s, writer) {
      SidesOk(ms, s);
      if writer {
        WriterFalls(ms, s);
        SideFalls(ms, s.w, WriterStep(ms, s).w);
      } else {
        ReaderFalls(ms, s);
        SideFalls(ms, s.r, ReaderStep(s).r);
      }
    }
  }

  lemma SidesOk(ms: seq<seq<Byte>>, s: State)
    requires Inv(ms, s)
    ensures |ms| == 2 && SideOk(ms, s.w) && SideOk(ms, s.r)
  {
  }

  lemma WriterFalls(ms: seq<seq<Byte>>, s: State)
    requires |ms| == 2 && |s.mem| == CAP && !Spins(s, true) && s.w.m < 2 && s.w.at <= |ms[s.w.m]|
    ensures Falls(s.w, WriterStep(ms, s).w) && WriterStep(ms, s).r == s.r
  {
  }

  lemma ReaderFalls(ms: seq<seq<Byte>>, s: State)
    requires |s.mem| == CAP && !Spins(s, false) && s.r.m < 2 && s.r.at <= Want(s)
    ensures Falls(s.r, ReaderStep(s).r) && ReaderStep(s).w == s.w
  {
    hide Want;
  }

  /** Within an exchange a side moves on; after raising the flag it is at the next one. */
  predicate Falls(x: Side, x': Side) {
    if x.pc.Raise? then x'.rounds == x.rounds + 1 && x'.pc.Check?
    else x'.rounds == x.rounds && Place(x'.pc) < Place(x.pc)
  }

  lemma SideFalls(ms: seq<seq<Byte>>, x: Side, x': Side)
    requires |ms| == 2 && SideOk(ms, x) && Falls(x, x')
    ensures SideLeft(ms, x') < SideLeft(ms, x)
  {
    hide SideOk, ExchangesLeft, Begin;
    if x.pc.Raise? { RaiseUsesOne(ms, x); }
  }

  lemma RaiseUsesOne(ms: seq<seq<Byte>>, x: Side)
    requires |ms| == 2 && SideOk(ms, x)
    ensures x.pc.Raise? ==>
              ExchangesLeft(ms, Begin(ms, x.rounds + 1)) == ExchangesLeft(ms, Begin(ms, x.rounds)) - 1
  {
    hide ExchangesLeft, Advance;
    BeginStep(ms, x.rounds + 1);
    if x.pc.Raise? { AdvanceUsesOne(ms, Begin(ms, x.rounds)); }
  }

  /** Until both are done, one of the sides does not spin. */
  lemma SomeSideProgresses(ms: seq<seq<Byte>>, s: State) returns (writer: bool)
    requires Inv(ms, s) && !(s.w.pc.Done? && s.r.pc.Done?)
    ensures !Spins(s, writer)
  {
    hide Page, Received, Begin, Messages;
    writer := !Spins(s, true);
  }

  /** The pair can always run to its end, and then everything has arrived. */
  lemma {:induction false} PairCanFinish(ms: seq<seq<Byte>>, mem: seq<Byte>, schedule: seq<bool>)
    returns (more: seq<bool>)
    requires Messages(ms) && |mem| == CAP
    ensures var s := Run(ms, mem, schedule + more);
            s.w.pc.Done? && s.r.pc.Done? && s.header == ms[0] && s.payload == ms[1]
    ensures |more| <= Left(ms, Run(ms, mem, schedule))
    decreases Left(ms, Run(ms, mem, schedule))
  {
    hide Inv, Do, Spins, Left;
    var s := Run(ms, mem, schedule);
    if s.w.pc.Done? && s.r.pc.Done? {
      more := [];
      assert schedule + more == schedule;
      MessagesArrive(ms, mem, schedule);
    } else {
      var writer := SomeSideProgresses(ms, s);
      StepsUseUp(ms, s, writer);
      assert (schedule + [writer])[..|schedule|] == schedule;
      var rest := PairCanFinish(ms, mem, schedule + [writer]);
      more := [writer] + rest;
      assert schedule + more == schedule + [writer] + rest;
    }
  }

  // ----- every fair schedule ends

  lemma OneMore(ms: seq<seq<Byte>>, mem: seq<Byte>, schedule: seq<bool>, writer: bool)
    requires Messages(ms) && |mem| == CAP
    ensures Run(ms, mem, schedule + [writer]) == Do(ms, Run(ms, mem, schedule), writer)
  {
    hide Inv, Do;
    assert (schedule + [writer])[..|schedule|] == schedule;
  }

  /** Whoever takes steps, nothing that was achieved is lost. */
  lemma {:induction false} NeverGrows(ms: seq<seq<Byte>>, mem: seq<Byte>, schedule: seq<bool>, more: seq<bool>)
    requires Messages(ms) && |mem| == CAP
    ensures |ms| == 2 && Left(ms, Run(ms, mem, schedule + more)) <= Left(ms, Run(ms, mem, schedule))
    decreases |more|
  {
    hide Inv, Do, Left, Spins, Run;
    if more == [] {
      assert schedule + more == schedule;
    } else {
      StepsUseUp(ms, Run(ms, mem, schedule), more[0]);
      OneMore(ms, mem, schedule, more[0]);
      NeverGrows(ms, mem, schedule + [more[0]], more[1..]);
      assert schedule + more == schedule + [more[0]] + more[1..];
    }
  }

  /** A side that does not spin keeps its step until its turn, unless the other side takes one that counts. */
  lemma {:induction false} TurnComes(ms: seq<seq<Byte>>, mem: seq<Byte>, schedule: seq<bool>, more: seq<bool>,
                                     writer: bool)
    requires Messages(ms) && |mem| == CAP && writer in more && !Spins(Run(ms, mem, schedule), writer)
    ensures |ms| == 2 && Left(ms, Run(ms, mem, schedule + more)) < Left(ms, Run(ms, mem, schedule))
    decreases |more|
  {
    hide Inv, Do, Left, Spins, Run;
    var s := Run(ms, mem, schedule);
    StepsUseUp(ms, s, more[0]);
    OneMore(ms, mem, schedule, more[0]);
    assert schedule + more == schedule + [more[0]] + more[1..];
    if Spins(s, more[0]) {
      TurnComes(ms, mem, schedule + [more[0]], more[1..], writer);
    } else {
      NeverGrows(ms, mem, schedule + [more[0]], more[1..]);
    }
  }

  predicate Finished(s: State) {
    s.w.pc.Done? && s.r.pc.Done?
  }

  /** Both sides get at least one step in a round. */
  predicate Fair(round: seq<bool>) {
    true in round && false in round
  }

  lemma FairRoundProgresses(ms: seq<seq<Byte>>, mem: seq<Byte>, schedule: seq<bool>, round: seq<bool>)
    requires Messages(ms) && |mem| == CAP && Fair(round)
    ensures |ms| == 2 && Left(ms, Run(ms, mem, schedule + round)) <= Left(ms, Run(ms, mem, schedule))
    ensures Finished(Run(ms, mem, schedule)) ||
            Left(ms, Run(ms, mem, schedule + round)) < Left(ms, Run(ms, mem, schedule))
  {
    hide Inv, Left, Spins, Run;
    NeverGrows(ms, mem, schedule, round);
    if !Finished(Run(ms, mem, schedule)) {
      var writer := SomeSideProgresses(ms, Run(ms, mem, schedule));
      TurnComes(ms, mem, schedule, round, writer);
    }
  }

  lemma {:induction false} FinishedStays(ms: seq<seq<Byte>>, mem: seq<Byte>, schedule: seq<bool>, more: seq<bool>)
    requires Messages(ms) && |mem| == CAP && Finished(Run(ms, mem, schedule))
    ensures Run(ms, mem, schedule + more) == Run(ms, mem, schedule)
    decreases |more|
  {
    hide Inv, Do, Left, Run;
    if more == [] {
      assert schedule + more == schedule;
    } else {
      StepsUseUp(ms, Run(ms, mem, schedule), more[0]);
      OneMore(ms, mem, schedule, more[0]);
      FinishedStays(ms, mem, schedule + [more[0]], more[1..]);
      assert schedule + more == schedule + [more[0]] + more[1..];
    }
  }

  /** Every schedule that keeps giving both sides their turns ends, with both messages delivered. */
  lemma {:induction false} FairRoundsDeliver(ms: seq<seq<Byte>>, mem: seq<Byte>, schedule: seq<bool>,
                                             rounds: seq<seq<bool>>)
    requires Messages(ms) && |mem| == CAP && forall k :: 0 <= k < |rounds| ==> Fair(rounds[k])
    requires |ms| == 2 && Left(ms, Run(ms, mem, schedule)) <= |rounds|
    ensures var s := Run(ms, mem, schedule + InRow(rounds));
            Finished(s) && s.header == ms[0] && s.payload == ms[1]
    decreases |rounds|
  {
    hide Inv, Left, Spins, Run, Fair;
    if Finished(Run(ms, mem, schedule)) {
      FinishedStays(ms, mem, schedule, InRow(rounds));
      MessagesArrive(ms, mem, schedule);
    } else {
      if rounds == [] { NothingLeft(ms, Run(ms, mem, schedule)); }
      FairRoundProgresses(ms, mem, schedule, rounds[0]);
      FairRoundsDeliver(ms, mem, schedule + rounds[0], rounds[1..]);
      assert schedule + InRow(rounds) == schedule + rounds[0] + InRow(rounds[1..]);
    }
  }

  lemma NothingLeft(ms: seq<seq<Byte>>, s: State)
    requires |ms| == 2 && Left(ms, s) == 0
    ensures Finished(s)
  {
    hide ExchangesLeft, Begin;
  }
}
