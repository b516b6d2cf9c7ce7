/**
 * The SSD1306 OLED controller driver: how commands and display data become
 * bus writes. Every payload byte goes out as its own two-byte write whose
 * first byte says whether a command or display data follows.
 */
module Ssd1306 {
  import opened Common
  import opened Bus

  // Command codes of the controller (fundamental, addressing, hardware
  // configuration and timing groups).
  const SetContrast: bv8 := 0x81
  const ResumeRam: bv8 := 0xA4
  const DisplayNormal: bv8 := 0xA6
  const DisplayOffCode: bv8 := 0xAE
  const DisplayOnCode: bv8 := 0xAF
  const SetAddressingMode: bv8 := 0x20
  const SetColumnAddresses: bv8 := 0x21
  const SetPageAddresses: bv8 := 0x22
  const SetChargePump: bv8 := 0x8D
  const SegmentRemap: bv8 := 0xA1
  const SetMultiplexRatio: bv8 := 0xA8
  const ComOutputRemap: bv8 := 0xC8
  const SetComPins: bv8 := 0xDA
  const SetClockDivide: bv8 := 0xD5
  const SetPrecharge: bv8 := 0xD9
  const SetVcomhDeselect: bv8 := 0xDB
  const HorizontalAddressing: bv8 := 0x00
  const Vcomh077: bv8 := 0x20

  /** Number of columns of every supported panel. */
  const Width: nat := 128

  datatype Geometry = Rows32 | Rows64

  /** Panel height in rows; the enumeration's value in the driver. */
  function Rows(g: Geometry): nat {
    match g
    case Rows32 => 32
    case Rows64 => 64
  }

  /** Number of 8-row pages, `geometry >> 3`. */
  function Pages(g: Geometry): (r: nat)
    ensures r * 8 == Rows(g)
  {
    Rows(g) / 8
  }

  /** Multiplex ratio operand, `height - 1` in `uint8_t`. */
  function MultiplexRatio(g: Geometry): (r: bv8)
    ensures r as int == Rows(g) - 1
  {
    match g
    case Rows32 => 31
    case Rows64 => 63
  }

  /** Last page address, `pages - 1`. */
  function LastPage(g: Geometry): (r: bv8)
    ensures r as int == Pages(g) - 1
  {
    match g
    case Rows32 => 3
    case Rows64 => 7
  }

  /** Last column address, `width - 1` for the 128 columns. */
  const LastColumn: bv8 := 0x7F

  datatype PumpSource = ExternalVcc | InternalVcc

  /** The charge-pump setting is sent as the enumeration's value. */
  function PumpCode(p: PumpSource): bv8 {
    match p
    case ExternalVcc => 0x10
    case InternalVcc => 0x14
  }

  /** Configuration of one controller; the communication driver is the `Bus` passed alongside. */
  datatype Device = Device(
    address: nat,
    geometry: Geometry,
    pump: PumpSource,
    flipHorizontal: bool,
    flipVertical: bool)

  datatype Kind = CommandKind | DataKind

  /** The leading byte of every write. */
  function KindByte(k: Kind): (r: bv8)
    ensures r == 0x00 <==> k == CommandKind
    ensures r == 0x40 <==> k == DataKind
  {
    match k
    case CommandKind => 0x00
    case DataKind => 0x40
  }

  // ---------------------------------------------------------------------
  // Commands as the controller reads them
  // ---------------------------------------------------------------------

  /** One controller command: an opcode followed by its operand bytes. */
  datatype Command = Command(opcode: bv8, operands: seq<bv8>)

  /** Operand count of every command the driver issues, from the
      controller's command table; `None` for any other byte. */
  function Arity(opcode: bv8): Option<nat> {
    if opcode in {DisplayOffCode, DisplayOnCode, ResumeRam, DisplayNormal, SegmentRemap, ComOutputRemap} then Some(0)
    else if opcode in {SetChargePump, SetMultiplexRatio, SetComPins, SetClockDivide, SetPrecharge,
                       SetVcomhDeselect, SetAddressingMode, SetContrast} then Some(1)
    else if opcode in {SetColumnAddresses, SetPageAddresses} then Some(2)
    else None
  }

  predicate WellFormed(c: Command) {
    Arity(c.opcode) == Some(|c.operands|)
  }

  /** The byte stream a list of commands occupies. */
  function Serialize(cmds: seq<Command>): (r: seq<bv8>)
    ensures |cmds| > 0 ==> |r| > 0 && r[0] == cmds[0].opcode
  {
    if |cmds| == 0 then [] else [cmds[0].opcode] + cmds[0].operands + Serialize(cmds[1..])
  }

  /** Splits a command byte stream into commands, as the controller does;
      `None` when a byte is not a known opcode or a command is cut short. */
  function Parse(s: seq<bv8>): (r: Option<seq<Command>>)
    decreases |s|
  {
    if |s| == 0 then Some([])
    else match Arity(s[0])
      case None => None
      case Some(n) =>
        if |s| < 1 + n then None
        else match Parse(s[1 + n..])
          case None => None
          case Some(rest) => Some([Command(s[0], s[1..1 + n])] + rest)
  }

  /** Well-formed commands survive serialization: the controller reads back
      exactly the commands that were written. */
  lemma {:induction false} ParseSerialize(cmds: seq<Command>)
    requires forall i :: 0 <= i < |cmds| ==> WellFormed(cmds[i])
    ensures Parse(Serialize(cmds)) == Some(cmds)
    decreases |cmds|
  {
    if |cmds| > 0 {
      var c := cmds[0];
      var s := Serialize(cmds);
      var n := |c.operands|;
      assert s == [c.opcode] + c.operands + Serialize(cmds[1..]);
      assert s[1 + n..] == Serialize(cmds[1..]);
      assert s[1..1 + n] == c.operands;
      ParseSerialize(cmds[1..]);
      assert [c] + cmds[1..] == cmds;
    }
  }

  /** Every command the controller parses out of a stream is well formed. */
  lemma {:induction false} ParseWellFormed(s: seq<bv8>)
    requires Parse(s).Some?
    ensures forall i :: 0 <= i < |Parse(s).value| ==> WellFormed(Parse(s).value[i])
    decreases |s|
  {
    if |s| > 0 {
      var n := Arity(s[0]).value;
      var rest := Parse(s[1 + n..]).value;
      var c := Command(s[0], s[1..1 + n]);
      assert Parse(s).value == [c] + rest;
      ParseWellFormed(s[1 + n..]);
      assert WellFormed(c);
    }
  }

  /** Conversely, a stream the controller accepts is the serialization of
      the commands it parses into. */
  lemma {:induction false} SerializeParse(s: seq<bv8>)
    requires Parse(s).Some?
    ensures Serialize(Parse(s).value) == s
    decreases |s|
  {
    if |s| > 0 {
      var n := ParseFirst(s);
      var c := Command(s[0], s[1..1 + n]);
      var tail := s[1 + n..];
      SerializeParse(tail);
      SerializeCons(c, Parse(tail).value);
      SplitCommand(s, n);
    }
  }

  /** A stream is its first byte, the next `n` bytes, and the rest. */
  lemma SplitCommand(s: seq<bv8>, n: nat)
    requires 1 + n <= |s|
    ensures s == [s[0]] + s[1..1 + n] + s[1 + n..]
  {
    assert s == s[..1] + s[1..1 + n] + s[1 + n..];
  }

  /** A non-empty accepted stream starts with a complete command. */
  lemma ParseFirst(s: seq<bv8>) returns (n: nat)
    requires Parse(s).Some? && |s| > 0
    ensures Arity(s[0]) == Some(n) && 1 + n <= |s| && Parse(s[1 + n..]).Some?
    ensures Parse(s).value == [Command(s[0], s[1..1 + n])] + Parse(s[1 + n..]).value
  {
    n := Arity(s[0]).value;
  }

  lemma SerializeCons(c: Command, rest: seq<Command>)
    ensures Serialize([c] + rest) == [c.opcode] + c.operands + Serialize(rest)
  {
    assert ([c] + rest)[1..] == rest;
  }

  // ---------------------------------------------------------------------
  // Sequence writes
  // ---------------------------------------------------------------------

  /** The writes that carry `bytes`, one `[kind, byte]` write each. */
  function Frames(address: nat, kind: bv8, bytes: seq<bv8>, sendStop: bool): (r: seq<Event>)
    ensures |r| == |bytes|
  {
    seq(|bytes|, (i: int) requires 0 <= i < |bytes| => Write(address, [kind, bytes[i]], sendStop))
  }

  lemma FramesAppend(address: nat, kind: bv8, a: seq<bv8>, b: seq<bv8>, sendStop: bool)
    ensures Frames(address, kind, a + b, sendStop) == Frames(address, kind, a, sendStop) + Frames(address, kind, b, sendStop)
  {
    assert forall i :: 0 <= i < |a + b| ==>
      Frames(address, kind, a + b, sendStop)[i] == (Frames(address, kind, a, sendStop) + Frames(address, kind, b, sendStop))[i];
  }

  /** What a fully successful sequence write puts on the bus: one write per
      byte with the bus held, then a stop; nothing for an empty sequence. */
  function Transmission(address: nat, kind: Kind, bytes: seq<bv8>): (r: seq<Event>)
    ensures |bytes| == 0 <==> |r| == 0
    ensures |bytes| > 0 ==> |r| == |bytes| + 1 && r[|bytes|] == Stop
  {
    if |bytes| == 0 then [] else Frames(address, KindByte(kind), bytes, false) + [Stop]
  }

  /** `after` is `before` once the first `n` writes carrying `bytes` were
      made: all but the last of them succeeded, the last one yielded
      `status`, and only a failure stops the loop early. */
  predicate WroteFirst(before: Bus, after: Bus, address: nat, kind: bv8, bytes: seq<bv8>, n: nat, status: Status) {
    && 1 <= n <= |bytes|
    && after.trace == before.trace + Frames(address, kind, bytes[..n], before.sendStop)
    && after.results == Consume(before.results, n)
    && after.sendStop == before.sendStop
    && (forall i :: 0 <= i < n - 1 ==> Outcome(before.results, i) == Ok)
    && status == Outcome(before.results, n - 1)
    && (status == Ok ==> n == |bytes|)
  }

  /** One successful write followed by `n` more writes of the remaining bytes. */
  lemma {:induction false} WroteFirstStep(bus: Bus, b: Bus, after: Bus, address: nat, kind: bv8, bytes: seq<bv8>, n: nat, status: Status)
    requires |bytes| > 1
    requires Outcome(bus.results, 0) == Ok
    requires b == WriteWait(bus, address, [kind, bytes[0]]).1
    requires WroteFirst(b, after, address, kind, bytes[1..], n, status)
    ensures WroteFirst(bus, after, address, kind, bytes, n + 1, status)
  {
    assert bytes[..n + 1] == [bytes[0]] + bytes[1..][..n];
    FramesAppend(address, kind, [bytes[0]], bytes[1..][..n], bus.sendStop);
    assert after.trace == bus.trace + Frames(address, kind, bytes[..n + 1], bus.sendStop);
    ConsumeConsume(bus.results, 1, n);
    forall i | 0 <= i < n
      ensures Outcome(bus.results, i + 1) == Outcome(b.results, i)
    {
      OutcomeConsume(bus.results, 1, i);
    }
    assert after.results == Consume(bus.results, n + 1);
    assert status == Outcome(bus.results, n);
    forall i | 0 <= i < n
      ensures Outcome(bus.results, i) == Ok
    {
      if i > 0 {
        assert Outcome(bus.results, i) == Outcome(b.results, i - 1);
      }
    }
  }

  /** The first write of the byte loop, when it is also the last. */
  lemma WroteOne(bus: Bus, address: nat, kind: bv8, bytes: seq<bv8>)
    requires |bytes| > 0
    ensures var (s, b) := WriteWait(bus, address, [kind, bytes[0]]);
      && |b.trace| == |bus.trace| + 1
      && (s != Ok || |bytes| == 1 ==> WroteFirst(bus, b, address, kind, bytes, 1, s))
  {
    assert bytes[..1] == [bytes[0]];
  }

  /** The byte loop of a sequence write: writes until one fails or all are sent. */
  function WriteEach(bus: Bus, address: nat, kind: bv8, bytes: seq<bv8>): (r: (Status, Bus))
    requires |bytes| > 0
    ensures |r.1.trace| >= |bus.trace|
    ensures WroteFirst(bus, r.1, address, kind, bytes, |r.1.trace| - |bus.trace|, r.0)
    decreases |bytes|
  {
    var (s, b) := WriteWait(bus, address, [kind, bytes[0]]);
    WroteOne(bus, address, kind, bytes);
    if s != Ok || |bytes| == 1 then
      (s, b)
    else
      var r := WriteEach(b, address, kind, bytes[1..]);
      WroteFirstStep(bus, b, r.1, address, kind, bytes, |r.1.trace| - |b.trace|, r.0);
      r
  }

  /** `after` is `before` once a sequence write of `bytes` has made `n`
      writes with the bus held and then sent a stop: all but the last write
      succeeded, the last one yielded `status`, and only a failure stops it
      early. */
  predicate SequenceSent(before: Bus, after: Bus, address: nat, kind: Kind, bytes: seq<bv8>, n: nat, status: Status) {
    && 1 <= n <= |bytes|
    && after.trace == before.trace + Frames(address, KindByte(kind), bytes[..n], false) + [Stop]
    && after.results == Consume(before.results, n)
    && after.sendStop == before.sendStop
    && (forall i :: 0 <= i < n - 1 ==> Outcome(before.results, i) == Ok)
    && status == Outcome(before.results, n - 1)
    && (status == Ok ==> n == |bytes|)
  }

  /** When no write fails, a sequence write sends every byte and succeeds. */
  lemma SequenceSentAllOk(before: Bus, after: Bus, address: nat, kind: Kind, bytes: seq<bv8>, n: nat, status: Status)
    requires SequenceSent(before, after, address, kind, bytes, n, status)
    requires AllOk(before.results)
    ensures status == Ok && n == |bytes|
    ensures after.trace == before.trace + Transmission(address, kind, bytes)
    ensures AllOk(after.results)
  {
    assert bytes[..n] == bytes;
  }

  /** A sequence write succeeds exactly when each of its writes does. */
  lemma SequenceSentOk(before: Bus, after: Bus, address: nat, kind: Kind, bytes: seq<bv8>, n: nat, status: Status)
    requires SequenceSent(before, after, address, kind, bytes, n, status)
    ensures status == Ok <==> forall i :: 0 <= i < |bytes| ==> Outcome(before.results, i) == Ok
  {
  }

  /** `ssd1306_sequence_write`: an empty sequence is accepted without touching
      the bus. Otherwise the bus is held while the bytes go out one write each,
      the loop stops at the first failed write, the entry send-stop flag is
      restored and a stop is sent, and the last write's status is returned. */
  function SequenceWrite(dev: Device, bus: Bus, kind: Kind, bytes: seq<bv8>): (r: (Status, Bus))
    ensures |bytes| == 0 ==> r == (Ok, bus)
    ensures r.1.sendStop == bus.sendStop
    ensures r.0 == Ok <==> forall i :: 0 <= i < |bytes| ==> Outcome(bus.results, i) == Ok
    ensures AllOk(bus.results) ==>
      r.0 == Ok && r.1.trace == bus.trace + Transmission(dev.address, kind, bytes) && AllOk(r.1.results)
  {
    if |bytes| == 0 then (Ok, bus)
    else
      var held := SetSendStop(bus, false);
      var (s, b) := WriteEach(held, dev.address, KindByte(kind), bytes);
      var after := SendStop(SetSendStop(b, bus.sendStop));
      var n := |b.trace| - |bus.trace|;
      assert SequenceSent(bus, after, dev.address, kind, bytes, n, s);
      SequenceSentOk(bus, after, dev.address, kind, bytes, n, s);
      assert AllOk(bus.results) ==> s == Ok && after.trace == bus.trace + Transmission(dev.address, kind, bytes) && AllOk(after.results) by {
        if AllOk(bus.results) {
          SequenceSentAllOk(bus, after, dev.address, kind, bytes, n, s);
        }
      }
      (s, after)
  }

  /** What a non-empty sequence write put on the bus, in the terms of
      `SequenceSent`: some number of writes, then a stop. */
  lemma SequenceWriteSent(dev: Device, bus: Bus, kind: Kind, bytes: seq<bv8>)
    requires |bytes| > 0
    ensures var r := SequenceWrite(dev, bus, kind, bytes);
      |r.1.trace| > |bus.trace| && SequenceSent(bus, r.1, dev.address, kind, bytes, |r.1.trace| - |bus.trace| - 1, r.0)
  {
  }

  /** A one-byte sequence: exactly one write, then a stop. */
  lemma SingleByteSent(dev: Device, bus: Bus, kind: Kind, b: bv8)
    ensures var r := SequenceWrite(dev, bus, kind, [b]);
      && r.0 == Outcome(bus.results, 0)
      && r.1.trace == bus.trace + [Write(dev.address, [KindByte(kind), b], false), Stop]
      && r.1.results == Consume(bus.results, 1)
  {
    var r := SequenceWrite(dev, bus, kind, [b]);
    assert [b][..1] == [b];
  }

  // ---------------------------------------------------------------------
  // Initialisation and simple commands
  // ---------------------------------------------------------------------

  /** COM pin hardware configuration: sequential without left/right remap
      for 32 rows, alternative for 64 rows. */
  function ComPinConfiguration(g: Geometry): bv8 {
    match g
    case Rows32 => 0x02
    case Rows64 => 0x12
  }

  function PrechargePeriod(p: PumpSource): bv8 {
    match p
    case ExternalVcc => 0x22
    case InternalVcc => 0xF1
  }

  function InitialContrast(p: PumpSource): bv8 {
    match p
    case ExternalVcc => 0x9F
    case InternalVcc => 0xCF
  }

  /** The settings `ssd1306_init` derives from the device before building
      its sequence. */
  datatype InitSettings = InitSettings(pump: bv8, multiplex: bv8, comPins: bv8, precharge: bv8, lastPage: bv8, contrast: bv8)

  function Settings(dev: Device): InitSettings {
    var g := dev.geometry;
    InitSettings(PumpCode(dev.pump), MultiplexRatio(g), ComPinConfiguration(g),
                 PrechargePeriod(dev.pump), LastPage(g), InitialContrast(dev.pump))
  }

  /** The 25-byte initialisation sequence, laid out in the driver's
      groups: display off, hardware configuration, timing and driving
      scheme, addressing, fundamentals. */
  function InitBytes(c: InitSettings): (r: seq<bv8>)
    ensures |r| == 25
  {
    [DisplayOffCode] + HardwareBytes(c) + TimingBytes(c) + AddressingBytes(c) + FundamentalBytes(c)
  }

  /** Charge pump, multiplex ratio (height - 1), COM pin configuration. */
  function HardwareBytes(c: InitSettings): (r: seq<bv8>)
    ensures |r| == 6
  {
    [SetChargePump, c.pump, SetMultiplexRatio, c.multiplex, SetComPins, c.comPins]
  }

  /** Clock divide 0x80, precharge period, VCOMH deselect level 0.77. */
  function TimingBytes(c: InitSettings): (r: seq<bv8>)
    ensures |r| == 6
  {
    [SetClockDivide, 0x80, SetPrecharge, c.precharge, SetVcomhDeselect, Vcomh077]
  }

  /** Horizontal addressing, pages 0 to the last, columns 0 to 127. */
  function AddressingBytes(c: InitSettings): (r: seq<bv8>)
    ensures |r| == 8
  {
    [SetAddressingMode, HorizontalAddressing, SetPageAddresses, 0x00, c.lastPage, SetColumnAddresses, 0x00, LastColumn]
  }

  /** Display from RAM, non-inverted, initial contrast. */
  function FundamentalBytes(c: InitSettings): (r: seq<bv8>)
    ensures |r| == 4
  {
    [ResumeRam, DisplayNormal, SetContrast, c.contrast]
  }

  function InitSequence(dev: Device): (r: seq<bv8>)
    ensures |r| == 25
  {
    InitBytes(Settings(dev))
  }

  /** What the initialisation configures, command by command, group by
      group as above. */
  function InitCommandsOf(c: InitSettings): (r: seq<Command>)
    ensures |r| == 13
    ensures forall i :: 0 <= i < |r| ==> WellFormed(r[i])
  {
    [Command(DisplayOffCode, [])] + HardwareCommands(c) + TimingCommands(c) + AddressingCommands(c) + FundamentalCommands(c)
  }

  function HardwareCommands(c: InitSettings): (r: seq<Command>)
    ensures |r| == 3
  {
    [Command(SetChargePump, [c.pump]), Command(SetMultiplexRatio, [c.multiplex]), Command(SetComPins, [c.comPins])]
  }

  function TimingCommands(c: InitSettings): (r: seq<Command>)
    ensures |r| == 3
  {
    [Command(SetClockDivide, [0x80]), Command(SetPrecharge, [c.precharge]), Command(SetVcomhDeselect, [Vcomh077])]
  }

  function AddressingCommands(c: InitSettings): (r: seq<Command>)
    ensures |r| == 3
  {
    [Command(SetAddressingMode, [HorizontalAddressing]), Command(SetPageAddresses, [0x00, c.lastPage]),
     Command(SetColumnAddresses, [0x00, LastColumn])]
  }

  function FundamentalCommands(c: InitSettings): (r: seq<Command>)
    ensures |r| == 3
  {
    [Command(ResumeRam, []), Command(DisplayNormal, []), Command(SetContrast, [c.contrast])]
  }

  function InitCommands(dev: Device): (r: seq<Command>)
    ensures |r| == 13
  {
    InitCommandsOf(Settings(dev))
  }

  /** Serialization distributes over concatenation. */
  lemma {:induction false} SerializeAppend(a: seq<Command>, b: seq<Command>)
    ensures Serialize(a + b) == Serialize(a) + Serialize(b)
    decreases |a|
  {
    if |a| > 0 {
      assert (a + b)[1..] == a[1..] + b;
      SerializeAppend(a[1..], b);
    } else {
      assert a + b == b;
    }
  }

  /** Serializing one more command appends its bytes. */
  lemma SerializeSnoc(cmds: seq<Command>, c: Command, bytes: seq<bv8>)
    requires bytes == [c.opcode] + c.operands
    ensures Serialize(cmds + [c]) == Serialize(cmds) + bytes
  {
    SerializeAppend(cmds, [c]);
    assert Serialize([c]) == [c.opcode] + c.operands + Serialize([]);
  }

  /** The 25 bytes are exactly the thirteen commands above, each complete,
      so the controller reads no command cut short and no stray operand. */
  lemma InitSequenceCommands(dev: Device)
    ensures Serialize(InitCommands(dev)) == InitSequence(dev)
    ensures Parse(InitSequence(dev)) == Some(InitCommands(dev))
  {
    InitBytesCommands(Settings(dev));
  }

  lemma InitBytesCommands(c: InitSettings)
    ensures Serialize(InitCommandsOf(c)) == InitBytes(c)
    ensures Parse(InitBytes(c)) == Some(InitCommandsOf(c))
  {
    InitBytesSerialize(c);
    ParseSerialize(InitCommandsOf(c));
  }

  lemma InitBytesSerialize(c: InitSettings)
    ensures Serialize(InitCommandsOf(c)) == InitBytes(c)
  {
    var off := [Command(DisplayOffCode, [])];
    OffSerialize();
    GroupsSerialize(c);
    var p1 := off + HardwareCommands(c);
    var p2 := p1 + TimingCommands(c);
    var p3 := p2 + AddressingCommands(c);
    SerializeAppend(off, HardwareCommands(c));
    SerializeAppend(p1, TimingCommands(c));
    SerializeAppend(p2, AddressingCommands(c));
    SerializeAppend(p3, FundamentalCommands(c));
  }

  lemma OffSerialize()
    ensures Serialize([Command(DisplayOffCode, [])]) == [DisplayOffCode]
  {
    assert [Command(DisplayOffCode, [])][1..] == [];
  }

  /** Each group of commands serializes to its group of bytes. */
  lemma GroupsSerialize(c: InitSettings)
    ensures Serialize(HardwareCommands(c)) == HardwareBytes(c)
    ensures Serialize(TimingCommands(c)) == TimingBytes(c)
    ensures Serialize(AddressingCommands(c)) == AddressingBytes(c)
    ensures Serialize(FundamentalCommands(c)) == FundamentalBytes(c)
  {
    HardwareSerialize(c);
    TimingSerialize(c);
    AddressingSerialize(c);
    FundamentalSerialize(c);
  }

  lemma HardwareSerialize(c: InitSettings)
    ensures Serialize(HardwareCommands(c)) == HardwareBytes(c)
  {
    SerializeTriple(HardwareCommands(c), HardwareBytes(c));
  }

  lemma TimingSerialize(c: InitSettings)
    ensures Serialize(TimingCommands(c)) == TimingBytes(c)
  {
    SerializeTriple(TimingCommands(c), TimingBytes(c));
  }

  lemma AddressingSerialize(c: InitSettings)
    ensures Serialize(AddressingCommands(c)) == AddressingBytes(c)
  {
    SerializeTriple(AddressingCommands(c), AddressingBytes(c));
  }

  lemma FundamentalSerialize(c: InitSettings)
    ensures Serialize(FundamentalCommands(c)) == FundamentalBytes(c)
  {
    SerializeTriple(FundamentalCommands(c), FundamentalBytes(c));
  }

  /** The bytes of three commands, one after the other. */
  lemma SerializeTriple(cmds: seq<Command>, bytes: seq<bv8>)
    requires |cmds| == 3
    requires bytes == [cmds[0].opcode] + cmds[0].operands + [cmds[1].opcode] + cmds[1].operands + [cmds[2].opcode] + cmds[2].operands
    ensures Serialize(cmds) == bytes
  {
    assert cmds[1..][1..][1..] == [];
    assert Serialize(cmds[2..]) == [cmds[2].opcode] + cmds[2].operands by {
      assert cmds[2..] == cmds[1..][1..];
    }
  }

  /** The traffic of a one-command sequence write of `code` when `on`
      holds, nothing otherwise. */
  function FlipTraffic(dev: Device, on: bool, code: bv8): seq<Event> {
    if on then Transmission(dev.address, CommandKind, [code]) else []
  }

  /** The traffic of a fully successful `ssd1306_init`: the 25-byte
      sequence, then the COM output remap `[0xC8]` when `flipHorizontal`,
      then the segment remap `[0xA1]` when `flipVertical`. */
  function InitTraffic(dev: Device): seq<Event> {
    Transmission(dev.address, CommandKind, InitSequence(dev))
    + FlipTraffic(dev, dev.flipHorizontal, ComOutputRemap)
    + FlipTraffic(dev, dev.flipVertical, SegmentRemap)
  }

  /** `ssd1306_init`: the initialisation sequence, then each selected flip,
      each a command sequence write of its own and each only after
      everything before it succeeded. A successful initialisation sends
      exactly the traffic above; a failure of its very first write ends it
      after that write and a stop, returning that write's status. */
  method Init(dev: Device, bus: Bus) returns (status: Status, b: Bus)
    ensures b.sendStop == bus.sendStop
    ensures StopsAtFirstFailure(dev, bus, InitSequence(dev), status, b)
    ensures AllOk(bus.results) ==> status == Ok && b.trace == bus.trace + InitTraffic(dev) && AllOk(b.results)
    ensures Outcome(bus.results, 0) != Ok ==> status == Outcome(bus.results, 0) && |b.trace| == |bus.trace| + 2
  {
    status, b := InitWrites(dev, bus, InitSequence(dev));
  }

  /** The three sequence writes of `ssd1306_init` (the flips empty when not
      selected), each made only after the ones before it returned OK: the
      outcome is that of the first one that failed, with nothing sent after
      it, and OK exactly when every write made returned OK. */
  ghost predicate StopsAtFirstFailure(dev: Device, bus: Bus, init: seq<bv8>, status: Status, b: Bus) {
    var (s0, b0) := SequenceWrite(dev, bus, CommandKind, init);
    var (s1, b1) := Flip(dev, b0, dev.flipHorizontal, ComOutputRemap);
    var (s2, b2) := Flip(dev, b1, dev.flipVertical, SegmentRemap);
    && (s0 != Ok ==> status == s0 && b == b0)
    && (s0 == Ok && s1 != Ok ==> status == s1 && b == b1)
    && (s0 == Ok && s1 == Ok ==> status == s2 && b == b2)
    && (status == Ok <==> s0 == Ok && s1 == Ok && s2 == Ok)
  }

  /** The writes of `ssd1306_init` for a given non-empty initialisation
      sequence `init`. */
  method InitWrites(dev: Device, bus: Bus, init: seq<bv8>) returns (status: Status, b: Bus)
    requires |init| > 0
    ensures b.sendStop == bus.sendStop
    ensures StopsAtFirstFailure(dev, bus, init, status, b)
    ensures AllOk(bus.results) ==>
      && status == Ok && AllOk(b.results)
      && b.trace == bus.trace + Transmission(dev.address, CommandKind, init)
         + FlipTraffic(dev, dev.flipHorizontal, ComOutputRemap) + FlipTraffic(dev, dev.flipVertical, SegmentRemap)
    ensures Outcome(bus.results, 0) != Ok ==> status == Outcome(bus.results, 0) && |b.trace| == |bus.trace| + 2
  {
    var r := SequenceWrite(dev, bus, CommandKind, init);
    status, b := r.0, r.1;
    if Outcome(bus.results, 0) != Ok {
      FirstWriteFails(dev, bus, CommandKind, init);
    }
    if status != Ok {
      return;
    }
    var f := Flip(dev, b, dev.flipHorizontal, ComOutputRemap);
    FlipKeeps(dev, b, dev.flipHorizontal, ComOutputRemap);
    status, b := f.0, f.1;
    if status != Ok {
      return;
    }
    f := Flip(dev, b, dev.flipVertical, SegmentRemap);
    FlipKeeps(dev, b, dev.flipVertical, SegmentRemap);
    status, b := f.0, f.1;
  }

  /** One optional flip command of `ssd1306_init`: a one-command sequence
      write of `code` when `on` holds, nothing otherwise. */
  function Flip(dev: Device, bus: Bus, on: bool, code: bv8): (r: (Status, Bus))
    ensures r.1.sendStop == bus.sendStop
    ensures !on ==> r == (Ok, bus)
    ensures on ==> r.0 == Outcome(bus.results, 0) && r.1.results == Consume(bus.results, 1)
    ensures on ==> r.1.trace == bus.trace + [Write(dev.address, [0x00, code], false), Stop]
  {
    SingleByteSent(dev, bus, CommandKind, code);
    if on then SequenceWrite(dev, bus, CommandKind, [code]) else (Ok, bus)
  }

  /** On a clean bus a flip succeeds, sends its traffic and leaves the bus clean. */
  lemma FlipKeeps(dev: Device, bus: Bus, on: bool, code: bv8)
    ensures AllOk(bus.results) ==>
      var r := Flip(dev, bus, on, code);
      r.0 == Ok && r.1.trace == bus.trace + FlipTraffic(dev, on, code) && AllOk(r.1.results)
  {
    if on && AllOk(bus.results) {
      SingleByteSent(dev, bus, CommandKind, code);
      assert Transmission(dev.address, CommandKind, [code]) == [Write(dev.address, [0x00, code], false), Stop];
    }
  }

  /** A sequence write whose first write fails makes just that write and a stop. */
  lemma FirstWriteFails(dev: Device, bus: Bus, kind: Kind, bytes: seq<bv8>)
    requires |bytes| > 0 && Outcome(bus.results, 0) != Ok
    ensures var r := SequenceWrite(dev, bus, kind, bytes);
      r.0 == Outcome(bus.results, 0) && |r.1.trace| == |bus.trace| + 2
  {
    var r := SequenceWrite(dev, bus, kind, bytes);
    var n := |r.1.trace| - |bus.trace| - 1;
    assert SequenceSent(bus, r.1, dev.address, kind, bytes, n, r.0);
    assert n == 1;
  }

  /** `ssd1306_display_on`: one command, 0xAF to switch the panel on and 0xAE to switch it off. */
  function DisplayOn(dev: Device, bus: Bus, on: bool): (r: (Status, Bus))
    ensures r.0 == Outcome(bus.results, 0)
    ensures r.1.trace == bus.trace + [Write(dev.address, [0x00, if on then 0xAF else 0xAE], false), Stop]
    ensures r.1.results == Consume(bus.results, 1)
    ensures r.1.sendStop == bus.sendStop
  {
    SingleByteSent(dev, bus, CommandKind, if on then DisplayOnCode else DisplayOffCode);
    SequenceWrite(dev, bus, CommandKind, [if on then DisplayOnCode else DisplayOffCode])
  }

  /** What a successful three-byte command puts on the bus. */
  function TripleTransmission(address: nat, opcode: bv8, first: bv8, last: bv8): (r: seq<Event>)
    ensures r == Transmission(address, CommandKind, [opcode, first, last])
  {
    [Write(address, [0x00, opcode], false), Write(address, [0x00, first], false), Write(address, [0x00, last], false), Stop]
  }

  /** A range command is read back as one complete command, and when it
      succeeds all three of its bytes went out. */
  lemma RangeCommandSent(dev: Device, bus: Bus, opcode: bv8, first: bv8, last: bv8)
    requires opcode == SetColumnAddresses || opcode == SetPageAddresses
    ensures Parse([opcode, first, last]) == Some([Command(opcode, [first, last])])
    ensures var r := SequenceWrite(dev, bus, CommandKind, [opcode, first, last]);
      r.0 == Ok ==> r.1.trace == bus.trace + TripleTransmission(dev.address, opcode, first, last)
  {
    var s := [opcode, first, last];
    assert s[3..] == [];
    assert s[1..3] == [first, last];
    assert Parse(s[3..]) == Some([]);
    assert Arity(opcode) == Some(2);
    assert Parse(s) == Some([Command(opcode, s[1..3])] + []);
    assert [Command(opcode, s[1..3])] + [] == [Command(opcode, [first, last])];
    assert Parse(s) == Some([Command(opcode, [first, last])]);
    assert s[..3] == s;
    var f := Frames(dev.address, KindByte(CommandKind), s, false);
    assert f == [Write(dev.address, [0x00, opcode], false), Write(dev.address, [0x00, first], false), Write(dev.address, [0x00, last], false)];
    var r := SequenceWrite(dev, bus, CommandKind, s);
    if r.0 == Ok {
      var n := |r.1.trace| - |bus.trace| - 1;
      assert SequenceSent(bus, r.1, dev.address, CommandKind, s, n, r.0);
      assert n == 3;
      assert r.1.trace == bus.trace + f + [Stop];
      assert bus.trace + f + [Stop] == bus.trace + (f + [Stop]);
      assert Transmission(dev.address, CommandKind, s) == f + [Stop];
      assert TripleTransmission(dev.address, opcode, first, last) == f + [Stop];
    }
  }

  /** `ssd1306_set_column_range`: the column range command 0x21 with its two operands. */
  function SetColumnRange(dev: Device, bus: Bus, first: bv8, last: bv8): (r: (Status, Bus))
    ensures r.1.sendStop == bus.sendStop
    ensures |bus.trace| + 2 <= |r.1.trace| <= |bus.trace| + 4
    ensures r.0 == Ok ==> r.1.trace == bus.trace + TripleTransmission(dev.address, SetColumnAddresses, first, last)
  {
    RangeCommandSent(dev, bus, SetColumnAddresses, first, last);
    SequenceWrite(dev, bus, CommandKind, [SetColumnAddresses, first, last])
  }

  /** `ssd1306_set_page_range`: the page range command 0x22 with its two operands. */
  function SetPageRange(dev: Device, bus: Bus, first: bv8, last: bv8): (r: (Status, Bus))
    ensures r.1.sendStop == bus.sendStop
    ensures |bus.trace| + 2 <= |r.1.trace| <= |bus.trace| + 4
    ensures r.0 == Ok ==> r.1.trace == bus.trace + TripleTransmission(dev.address, SetPageAddresses, first, last)
  {
    RangeCommandSent(dev, bus, SetPageAddresses, first, last);
    SequenceWrite(dev, bus, CommandKind, [SetPageAddresses, first, last])
  }

  /** The command bytes that select the tile at (`page`, `column`) as the next
      one to receive data: pages `page`..last, columns `column`..127. The
      arguments arrive as `uint8_t`. */
  function AddressCommands(dev: Device, page: bv8, column: bv8): (r: seq<bv8>)
    ensures |r| == 6
  {
    [SetPageAddresses, page, LastPage(dev.geometry),
     SetColumnAddresses, column, LastColumn]
  }

  /** Everything a successful `set_tile_next` puts on the bus. */
  function AddressTransmission(dev: Device, page: bv8, column: bv8): (r: seq<Event>)
    ensures |r| == 8
  {
    var a := AddressCommands(dev, page, column);
    Transmission(dev.address, CommandKind, a[..3]) + Transmission(dev.address, CommandKind, a[3..])
  }

  /** The commands `set_tile_next` issues, as the controller reads them. */
  lemma AddressCommandsParse(dev: Device, page: bv8, column: bv8)
    ensures Parse(AddressCommands(dev, page, column)) ==
      Some([Command(0x22, [page, LastPage(dev.geometry)]),
            Command(0x21, [column, LastColumn])])
  {
    var a := AddressCommands(dev, page, column);
    var pageRange := Command(0x22, [page, LastPage(dev.geometry)]);
    var columnRange := Command(0x21, [column, LastColumn]);
    var tail := a[3..];
    assert tail[3..] == [];
    assert Parse(tail[3..]) == Some([]);
    assert tail[1..3] == columnRange.operands;
    assert Arity(tail[0]) == Some(2);
    assert Parse(tail) == Some([columnRange] + []);
    assert [columnRange] + [] == [columnRange];
    assert a[1..3] == pageRange.operands;
    assert Arity(a[0]) == Some(2);
    assert a[3..] == tail;
    assert Parse(a) == Some([pageRange] + [columnRange]);
    assert [pageRange] + [columnRange] == [pageRange, columnRange];
  }

  /** `set_tile_next`: the page range, then the column range only if the page
      range went through; the two statuses are combined with `||`, so any
      failure is reported as 1. */
  function SetTileNext(dev: Device, bus: Bus, page: bv8, column: bv8): (r: (Status, Bus))
    ensures r.0 == Ok || r.0 == LogicalTrue
    ensures r.1.sendStop == bus.sendStop
    ensures r.0 == Ok <==> forall i :: 0 <= i < 6 ==> Outcome(bus.results, i) == Ok
  {
    var a := AddressCommands(dev, page, column);
    var (s1, b1) := SetPageRange(dev, bus, a[1], a[2]);
    if s1 != Ok then (LogicalTrue, b1)
    else
      var (s2, b2) := SetColumnRange(dev, b1, a[4], a[5]);
      SecondTripleOk(dev, bus, [SetPageAddresses, a[1], a[2]], [SetColumnAddresses, a[4], a[5]]);
      (LogicalOr(s1, s2), b2)
  }

  /** Two command sequences of three bytes each, the second sent after the
      first succeeded: the second succeeds exactly when all six writes do. */
  lemma SecondTripleOk(dev: Device, bus: Bus, x: seq<bv8>, y: seq<bv8>)
    requires |x| == 3 && |y| == 3
    requires SequenceWrite(dev, bus, CommandKind, x).0 == Ok
    ensures var b1 := SequenceWrite(dev, bus, CommandKind, x).1;
      SequenceWrite(dev, b1, CommandKind, y).0 == Ok <==> forall i :: 0 <= i < 6 ==> Outcome(bus.results, i) == Ok
  {
    var b1 := SequenceWrite(dev, bus, CommandKind, x).1;
    assert b1.results == Consume(bus.results, 3);
    forall i | 0 <= i < 3
      ensures Outcome(b1.results, i) == Outcome(bus.results, 3 + i)
    {
      OutcomeConsume(bus.results, 3, i);
    }
    var s2 := SequenceWrite(dev, b1, CommandKind, y).0;
    assert forall i :: 0 <= i < 3 ==> Outcome(bus.results, i) == Ok;
    assert s2 == Ok <==> forall i :: 0 <= i < 3 ==> Outcome(b1.results, i) == Ok;
    if s2 == Ok {
      forall i | 3 <= i < 6
        ensures Outcome(bus.results, i) == Ok
      {
        assert Outcome(b1.results, i - 3) == Ok;
      }
    }
  }

  /** A successful `set_tile_next` sends the page range and then the column
      range, six writes and two stops in all. */
  lemma TileNextSent(dev: Device, bus: Bus, page: bv8, column: bv8)
    ensures var r := SetTileNext(dev, bus, page, column);
      r.0 == Ok ==> r.1.trace == bus.trace + AddressTransmission(dev, page, column) && r.1.results == Consume(bus.results, 6)
    ensures AllOk(bus.results) ==> SetTileNext(dev, bus, page, column).0 == Ok
  {
    var a := AddressCommands(dev, page, column);
    var r := SetTileNext(dev, bus, page, column);
    if r.0 == Ok {
      var (s1, b1) := SetPageRange(dev, bus, a[1], a[2]);
      RangeCommandSent(dev, bus, SetPageAddresses, a[1], a[2]);
      RangeCommandSent(dev, b1, SetColumnAddresses, a[4], a[5]);
      assert a[..3] == [SetPageAddresses, a[1], a[2]];
      assert a[3..] == [SetColumnAddresses, a[4], a[5]];
      assert b1.results == Consume(bus.results, 3);
      ConsumeConsume(bus.results, 3, 3);
    }
  }

  /** A data sequence write of a single byte, spelled out: one write with
      the bus held, then a stop; one outcome used. */
  function SendByte(dev: Device, bus: Bus, b: bv8): (r: (Status, Bus))
  {
    (Outcome(bus.results, 0),
     Bus(bus.sendStop, bus.trace + [Write(dev.address, [0x40, b], false), Stop], Consume(bus.results, 1)))
  }

  /** `SendByte` is `ssd1306_data_sequence_write` of one byte. */
  lemma SendByteIsSequenceWrite(dev: Device, bus: Bus, b: bv8)
    ensures SendByte(dev, bus, b) == SequenceWrite(dev, bus, DataKind, [b])
  {
    SingleByteSent(dev, bus, DataKind, b);
  }

  /** A sequence write in closed form: the writes go out up to and
      including the first failed one, then a stop. */
  function SequenceResult(dev: Device, bus: Bus, kind: Kind, bytes: seq<bv8>): (Status, Bus)
  {
    if |bytes| == 0 then (Ok, bus)
    else
      var k := FirstFailure(bus.results, |bytes|);
      var n := if k < |bytes| then k + 1 else |bytes|;
      (Outcome(bus.results, n - 1),
       Bus(bus.sendStop, bus.trace + Frames(dev.address, KindByte(kind), bytes[..n], false) + [Stop], Consume(bus.results, n)))
  }

  /** The closed form is what `ssd1306_sequence_write` does. */
  lemma SequenceResultIsSequenceWrite(dev: Device, bus: Bus, kind: Kind, bytes: seq<bv8>)
    ensures SequenceResult(dev, bus, kind, bytes) == SequenceWrite(dev, bus, kind, bytes)
  {
    if |bytes| > 0 {
      SequenceWriteSent(dev, bus, kind, bytes);
      var r := SequenceWrite(dev, bus, kind, bytes);
      SentIsResult(dev, bus, r.1, kind, bytes, |r.1.trace| - |bus.trace| - 1, r.0);
    }
  }

  /** Whatever `SequenceSent` allows is the closed form: the count of
      writes is fixed by the first failure. */
  lemma SentIsResult(dev: Device, before: Bus, after: Bus, kind: Kind, bytes: seq<bv8>, n: nat, status: Status)
    requires SequenceSent(before, after, dev.address, kind, bytes, n, status)
    ensures SequenceResult(dev, before, kind, bytes) == (status, after)
  {
    assert OkFor(before.results, n - 1);
    if status == Ok {
      assert OkFor(before.results, |bytes|);
      FirstFailureUnique(before.results, |bytes|, |bytes|);
    } else {
      FirstFailureUnique(before.results, |bytes|, n - 1);
    }
  }

  /** `set_tile_next` in closed form, from the closed form of its two
      sequence writes. */
  function SelectTile(dev: Device, bus: Bus, page: bv8, column: bv8): (Status, Bus)
  {
    var a := AddressCommands(dev, page, column);
    var (s1, b1) := SequenceResult(dev, bus, CommandKind, a[..3]);
    if s1 != Ok then (LogicalTrue, b1)
    else
      var (s2, b2) := SequenceResult(dev, b1, CommandKind, a[3..]);
      (if s2 == Ok then Ok else LogicalTrue, b2)
  }

  /** What the update loops rely on from `set_tile_next`. */
  lemma SelectTileFacts(dev: Device, bus: Bus, page: bv8, column: bv8)
    ensures SelectTile(dev, bus, page, column) == SetTileNext(dev, bus, page, column)
    ensures var r := SelectTile(dev, bus, page, column);
      && (r.0 == Ok || r.0 == LogicalTrue)
      && r.1.sendStop == bus.sendStop
      && Extends(bus, r.1)
      && (r.0 != Ok ==> |r.1.results| < |bus.results|)
      && (r.0 == Ok <==> OkFor(bus.results, 6))
      && (r.0 == Ok ==> r.1.trace == bus.trace + AddressTransmission(dev, page, column) && r.1.results == Consume(bus.results, 6))
  {
    var a := AddressCommands(dev, page, column);
    assert a[..3] == [SetPageAddresses, a[1], a[2]];
    assert a[3..] == [SetColumnAddresses, a[4], a[5]];
    SequenceResultIsSequenceWrite(dev, bus, CommandKind, a[..3]);
    var b1 := SequenceWrite(dev, bus, CommandKind, a[..3]).1;
    SequenceResultIsSequenceWrite(dev, b1, CommandKind, a[3..]);
    TileNextConsumes(dev, bus, page, column);
    TileNextSent(dev, bus, page, column);
  }

  /** `set_tile_next` as a step of the update loops: its result is that
      of `SetTileNext`, and the contract says what the loops rely on. */
  method SelectTileNext(dev: Device, bus: Bus, page: bv8, column: bv8) returns (status: Status, b: Bus)
    ensures (status, b) == SetTileNext(dev, bus, page, column)
    ensures status == Ok || status == LogicalTrue
    ensures b.sendStop == bus.sendStop && Extends(bus, b)
    ensures status != Ok ==> |b.results| < |bus.results|
    ensures status == Ok <==> OkFor(bus.results, 6)
    ensures status == Ok ==> b.trace == bus.trace + AddressTransmission(dev, page, column) && b.results == Consume(bus.results, 6)
  {
    SelectTileFacts(dev, bus, page, column);
    var (s, after) := SelectTile(dev, bus, page, column);
    status, b := s, after;
  }

  /** A sequence write only appends to the trace and uses up outcomes; a
      failed one has used up at least the failing outcome. */
  lemma SequenceWriteConsumes(dev: Device, bus: Bus, kind: Kind, bytes: seq<bv8>)
    ensures var r := SequenceWrite(dev, bus, kind, bytes);
      Extends(bus, r.1) && (r.0 != Ok ==> |r.1.results| < |bus.results|)
  {
    var r := SequenceWrite(dev, bus, kind, bytes);
    if |bytes| > 0 {
      var n := |r.1.trace| - |bus.trace| - 1;
      assert SequenceSent(bus, r.1, dev.address, kind, bytes, n, r.0);
      assert r.1.trace[..|bus.trace|] == bus.trace;
      if r.0 != Ok {
        assert Outcome(bus.results, n - 1) != Ok;
      }
    }
  }

  /** The same for `set_tile_next`. */
  lemma TileNextConsumes(dev: Device, bus: Bus, page: bv8, column: bv8)
    ensures var r := SetTileNext(dev, bus, page, column);
      Extends(bus, r.1) && (r.0 != Ok ==> |r.1.results| < |bus.results|)
  {
    var a := AddressCommands(dev, page, column);
    var (s1, b1) := SetPageRange(dev, bus, a[1], a[2]);
    SequenceWriteConsumes(dev, bus, CommandKind, [SetPageAddresses, a[1], a[2]]);
    if s1 == Ok {
      var b2 := SetColumnRange(dev, b1, a[4], a[5]).1;
      SequenceWriteConsumes(dev, b1, CommandKind, [SetColumnAddresses, a[4], a[5]]);
      ExtendsTrans(bus, b1, b2);
    }
  }
}
