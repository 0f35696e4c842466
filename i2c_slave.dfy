/** The register-mapped I2C slave engine. The interrupt handler reacts to
    three events of the I2C peripheral (byte received, read requested, stop
    detected); the first byte of a write selects a register, later bytes are
    data for it, and reads answer from a fixed register map. */
module I2cSlave {
  import opened CircularBuffers
  import opened FlashConfig

  const REG_DEVICE_ID: bv8 := 0x00
  const REG_FW_VERSION: bv8 := 0x01
  const REG_I2C_ADDRESS: bv8 := 0x02
  const REG_CLOCK_STRETCH: bv8 := 0x03
  const REG_TX_AVAIL_LOW: bv8 := 0x10
  const REG_TX_AVAIL_HIGH: bv8 := 0x11
  const REG_RX_AVAIL: bv8 := 0x12
  const REG_DATA_START: bv8 := 0x20
  /** First register of the version string. */
  const REG_VERSION_START: bv8 := 0x04

  const DEVICE_ID: bv16 := 0x12C0
  const DEVICE_ID_HIGH: bv8 := ((DEVICE_ID >> 8) & 0xFF) as bv8
  const DEVICE_ID_LOW: bv8 := (DEVICE_ID & 0xFF) as bv8
  /** `fw_version_byte`. */
  const FW_VERSION_BYTE: bv8 := 0x01

  /** `sizeof(version_short)`: 15 characters and a terminator. */
  const VERSION_FIELD: nat := 16
  const VERSION_MAX_CHARS: nat := 15

  const ASCII_V: bv8 := 0x76
  const ASCII_DASH: bv8 := 0x2D
  const ASCII_G: bv8 := 0x67

  /** The values of a `uint32_t`. */
  newtype uint32 = x: int | 0 <= x < 0x1_0000_0000

  /** `x++` on a `uint32_t` counter: one more, wrapping from the largest
      value back to 0. */
  function Inc(x: uint32): (r: uint32)
    ensures r as int == (x as int + 1) % 0x1_0000_0000
  {
    if x == 0xFFFF_FFFF then 0 else x + 1
  }

  /** `i2c_stats_t`: 32-bit counters that wrap around. */
  datatype Stats = Stats(
    txBytes: uint32,
    rxBytes: uint32,
    txOverflow: uint32,
    rxOverflow: uint32,
    i2cErrors: uint32)

  const ZERO_STATS: Stats := Stats(0, 0, 0, 0, 0)

  // ---------------------------------------------------------------------
  // parse_version

  /** The byte at `i` of a C string whose characters are `s`: past the end it
      is the terminating NUL. */
  function At(s: seq<bv8>, i: nat): bv8
  {
    if i < |s| then s[i] else 0
  }

  /** The firmware version string with one leading 'v' dropped. */
  function SkipV(fw: seq<bv8>): seq<bv8>
  {
    if At(fw, 0) == ASCII_V then fw[1..] else fw
  }

  /** Copying stops at position `i`: the field is full, the string has ended,
      or a git-hash marker "-g" starts here. */
  predicate StopsAt(v: seq<bv8>, i: nat)
  {
    VERSION_MAX_CHARS <= i || At(v, i) == 0 || (At(v, i) == ASCII_DASH && At(v, i + 1) == ASCII_G)
  }

  /** The first position at or after `i` where copying stops. */
  function StopFrom(v: seq<bv8>, i: nat): (n: nat)
    requires i <= VERSION_MAX_CHARS
    ensures i <= n <= VERSION_MAX_CHARS
    ensures StopsAt(v, n)
    ensures forall j :: i <= j < n ==> !StopsAt(v, j)
    decreases VERSION_MAX_CHARS - i
  {
    if StopsAt(v, i) then i else StopFrom(v, i + 1)
  }

  /** The characters `parse_version` copies into `version_short`: a prefix of
      the string after the 'v', at most 15 long, without NUL and without a
      "-g" marker, cut where the field, the string or a marker ends it. */
  function ShortVersion(fw: seq<bv8>): (s: seq<bv8>)
    ensures |s| <= VERSION_MAX_CHARS
    ensures |s| <= |SkipV(fw)| && s == SkipV(fw)[..|s|]
    ensures forall k :: 0 <= k < |s| ==> s[k] != 0
    ensures forall k :: 0 <= k < |s| ==> !(s[k] == ASCII_DASH && At(SkipV(fw), k + 1) == ASCII_G)
    ensures StopsAt(SkipV(fw), |s|)
  {
    var v := SkipV(fw);
    var n := StopFrom(v, 0);
    assert n <= |v| by {
      if |v| < n {
        assert At(v, |v|) == 0;
        assert StopsAt(v, |v|);
      }
    }
    assert forall k :: 0 <= k < n ==> v[..n][k] == At(v, k) && !StopsAt(v, k);
    v[..n]
  }

  /** The whole 16-byte field after `parse_version` ran on the zeroed static:
      the short version, then NUL bytes. */
  function VersionField(fw: seq<bv8>): (r: seq<bv8>)
    ensures |r| == VERSION_FIELD
    ensures r[..|ShortVersion(fw)|] == ShortVersion(fw)
    ensures forall k :: |ShortVersion(fw)| <= k < VERSION_FIELD ==> r[k] == 0
  {
    var s := ShortVersion(fw);
    s + seq(VERSION_FIELD - |s|, _ => 0)
  }

  /** `parse_version`: copy the version string into the field and terminate
      it; bytes after the terminator are not written. */
  method ParseVersion(fw: seq<bv8>, versionShort: array<bv8>)
    requires versionShort.Length == VERSION_FIELD
    modifies versionShort
    ensures var s := ShortVersion(fw);
      && versionShort[..|s|] == s
      && versionShort[|s|] == 0
      && forall k :: |s| < k < VERSION_FIELD ==> versionShort[k] == old(versionShort[k])
  {
    var v := fw;
    if At(v, 0) == ASCII_V {
      v := v[1..];
    }
    assert v == SkipV(fw);
    var i := CopyVersion(v, versionShort);
    versionShort[i] := 0;
  }

  /** The copy loop of `parse_version` over the string after the 'v': it
      stops at the first stop position and copies every byte before it. */
  method CopyVersion(v: seq<bv8>, versionShort: array<bv8>) returns (i: nat)
    requires versionShort.Length == VERSION_FIELD
    modifies versionShort
    ensures i == StopFrom(v, 0) && i <= |v|
    ensures versionShort[..i] == v[..i]
    ensures forall k :: i <= k < VERSION_FIELD ==> versionShort[k] == old(versionShort[k])
  {
    i := 0;
    while At(v, i) != 0 && i < VERSION_MAX_CHARS
      invariant 0 <= i <= VERSION_MAX_CHARS && i <= |v|
      invariant StopFrom(v, i) == StopFrom(v, 0)
      invariant versionShort[..i] == v[..i]
      invariant forall k :: i <= k < VERSION_FIELD ==> versionShort[k] == old(versionShort[k])
      decreases VERSION_MAX_CHARS - i
    {
      if At(v, i) == ASCII_DASH && At(v, i + 1) == ASCII_G {
        break;
      }
      assert !StopsAt(v, i) && v[..i + 1] == v[..i] + [v[i]];
      versionShort[i] := v[i];
      assert versionShort[..i + 1] == versionShort[..i] + [v[i]];
      i := i + 1;
    }
  }

  // ---------------------------------------------------------------------
  // The register map

  /** What a read request answers: a byte, or the next byte of the console
      data popped from the ring that the transport fills. */
  datatype ReadAction = Reply(value: bv8) | PopData

  /** Low and high byte of a ring count truncated to `uint16_t`, and the low
      byte of a count. */
  function Avail16Low(n: nat): bv8
  {
    (n % 0x1_0000 % 0x100) as bv8
  }

  function Avail16High(n: nat): bv8
  {
    (n % 0x1_0000 / 0x100) as bv8
  }

  function LowByte(n: nat): bv8
  {
    (n % 0x100) as bv8
  }

  /** The read ladder of the interrupt handler, test for test in the order the
      handler makes them. */
  function ReadLadder(reg: bv8, version: seq<bv8>, address: bv8, stretch: bool, txAvail: nat, rxAvail: nat): ReadAction
    requires |version| == VERSION_FIELD
  {
    if reg == REG_DEVICE_ID then Reply(DEVICE_ID_HIGH)
    else if reg == REG_DEVICE_ID + 1 then Reply(DEVICE_ID_LOW)
    else if reg == REG_FW_VERSION then Reply(FW_VERSION_BYTE)
    else if REG_VERSION_START <= reg && (reg as int) < REG_VERSION_START as int + VERSION_FIELD then
      Reply(version[reg as int - REG_VERSION_START as int])
    else if reg == REG_I2C_ADDRESS then Reply(address)
    else if reg == REG_CLOCK_STRETCH then Reply(if stretch then 1 else 0)
    else if reg == REG_TX_AVAIL_LOW then Reply(Avail16Low(txAvail))
    else if reg == REG_TX_AVAIL_HIGH then Reply(Avail16High(txAvail))
    else if reg == REG_RX_AVAIL then Reply(LowByte(rxAvail))
    else if reg >= REG_DATA_START then PopData
    else Reply(0)
  }

  /** The register map as the device actually serves it, range by range:
      0x00-0x01 the device identifier big-endian, 0x02 the address, 0x03 the
      clock-stretch flag as 1 or 0, 0x04-0x13 the version field, 0x14-0x1F
      zero, 0x20 and above console data. */
  function RegisterMap(reg: bv8, version: seq<bv8>, address: bv8, stretch: bool): ReadAction
    requires |version| == VERSION_FIELD
  {
    if reg >= REG_DATA_START then PopData
    else if reg >= 0x14 then Reply(0)
    else if reg >= REG_VERSION_START then Reply(version[reg as int - 4])
    else if reg == REG_CLOCK_STRETCH then Reply(if stretch then 1 else 0)
    else if reg == REG_I2C_ADDRESS then Reply(address)
    else if reg == 0x01 then Reply(0xC0)
    else Reply(0x12)
  }

  /** The ladder serves exactly the register map: the `fw_version_byte` test
      and the three ring-count tests are shadowed by earlier ones, so neither
      the version byte nor the ring counts can ever be read. */
  lemma ReadLadderIsRegisterMap(reg: bv8, version: seq<bv8>, address: bv8, stretch: bool, txAvail: nat, rxAvail: nat)
    requires |version| == VERSION_FIELD
    ensures ReadLadder(reg, version, address, stretch, txAvail, rxAvail) == RegisterMap(reg, version, address, stretch)
  {
  }

  /** Registers 0x00 and 0x01 read as the 16-bit device identifier, high byte first. */
  lemma DeviceIdBigEndian(version: seq<bv8>, address: bv8, stretch: bool)
    requires |version| == VERSION_FIELD
    ensures RegisterMap(0x00, version, address, stretch).Reply?
    ensures RegisterMap(0x01, version, address, stretch).Reply?
    ensures ((RegisterMap(0x00, version, address, stretch).value as bv16) << 8)
          | (RegisterMap(0x01, version, address, stretch).value as bv16) == DEVICE_ID
  {
  }

  /** Through the version registers a host sees the short version string
      followed by NUL bytes; the last register, 0x13, is always NUL. */
  lemma VersionRegisters(fw: seq<bv8>, reg: bv8, address: bv8, stretch: bool)
    requires REG_VERSION_START <= reg < 0x14
    ensures var s := ShortVersion(fw);
      var k := reg as int - 4;
      RegisterMap(reg, VersionField(fw), address, stretch)
        == Reply(if k < |s| then s[k] else 0)
  {
    var s := ShortVersion(fw);
    var k := reg as int - 4;
    if k < |s| {
      assert VersionField(fw)[..|s|][k] == s[k];
    }
  }

  // ---------------------------------------------------------------------
  // The engine

  /** What a byte received in a write does, by the handler's state. */
  datatype WriteEffect = SelectRegister | SetAddress | SetClockStretch | ConsoleData | Ignored

  /** The write side of the register map: the first byte of a transaction
      selects the register; later bytes set the address (0x02), the
      clock-stretch flag (0x03) or go to the console (0x20 and above); every
      other register ignores them. */
  function WriteEffectOf(registerSet: bool, reg: bv8): WriteEffect
  {
    if !registerSet then SelectRegister
    else if reg == REG_I2C_ADDRESS then SetAddress
    else if reg == REG_CLOCK_STRETCH then SetClockStretch
    else if reg >= REG_DATA_START then ConsoleData
    else Ignored
  }

  class Engine {
    /** The ring host writes go into; the foreground drains it to the transport. */
    const tx: CircularBuffer
    /** The ring host reads come from; the foreground fills it from the transport. */
    const rx: CircularBuffer
    const config: ConfigStore
    /** `version_short`. */
    const versionShort: array<bv8>
    /** The version field parsed at initialisation, `VersionField` of the
        firmware version string. */
    ghost const versionField: seq<bv8>
    var stats: Stats
    var currentRegister: bv8
    var registerSet: bool

    ghost predicate Valid()
      reads this, tx, tx.buffer, rx, rx.buffer, versionShort
    {
      && tx.Valid() && rx.Valid() && 0 < tx.size
      && tx != rx && tx.buffer != rx.buffer
      && versionShort != tx.buffer && versionShort != rx.buffer
      && versionShort.Length == VERSION_FIELD && versionShort[..] == versionField
      && stats.txOverflow == 0 && stats.rxOverflow == 0 && stats.i2cErrors == 0
    }

    /** `i2c_slave_init` together with the static initialisers: the rings
        are attached, the version field is parsed, all counters are zero and
        no register is selected. */
    constructor (txRing: CircularBuffer, rxRing: CircularBuffer, store: ConfigStore, fw: seq<bv8>)
      requires txRing.Valid() && rxRing.Valid() && 0 < txRing.size
      requires txRing != rxRing && txRing.buffer != rxRing.buffer
      ensures Valid()
      ensures tx == txRing && rx == rxRing && config == store && versionField == VersionField(fw)
      ensures stats == ZERO_STATS && currentRegister == 0 && !registerSet
    {
      var field := new bv8[VERSION_FIELD](_ => 0);
      ParseVersion(fw, field);
      var s := ShortVersion(fw);
      assert field[..] == VersionField(fw) by {
        assert field[..][..|s|] == s;
      }
      tx := txRing;
      rx := rxRing;
      config := store;
      versionShort := field;
      versionField := field[..];
      stats := ZERO_STATS;
      currentRegister := 0;
      registerSet := false;
    }

    /** A byte arrived from the host (the RX_FULL interrupt). */
    method OnByteReceived(data: bv8)
      requires Valid()
      modifies this, tx, tx.buffer, config
      ensures Valid()
      ensures registerSet
      ensures currentRegister == if old(registerSet) then old(currentRegister) else data
      ensures rx.Contents == old(rx.Contents)
      ensures var e := WriteEffectOf(old(registerSet), old(currentRegister));
        && (e == SetAddress ==>
              config.current == old(config.current).(i2cAddress := data) && config.stored == config.current)
        && (e == SetClockStretch ==>
              config.current == old(config.current).(clockStretchEnable := data & 0x01) && config.stored == config.current)
        && (e != SetAddress && e != SetClockStretch ==>
              config.current == old(config.current) && config.stored == old(config.stored))
        && (e == ConsoleData ==>
              tx.Contents == Newest(old(tx.Contents) + [data], tx.size)
              && stats == old(stats).(txBytes := Inc(old(stats).txBytes)))
        && (e != ConsoleData ==> tx.Contents == old(tx.Contents) && stats == old(stats))
    {
      if !registerSet {
        currentRegister := data;
        registerSet := true;
      } else {
        if currentRegister == REG_I2C_ADDRESS {
          config.SetI2cAddress(data);
        } else if currentRegister == REG_CLOCK_STRETCH {
          config.SetClockStretch(data & 0x01 != 0);
        } else if currentRegister >= REG_DATA_START {
          var pushed := tx.Push(data);
          stats := if !pushed then stats.(txOverflow := Inc(stats.txOverflow))
                   else stats.(txBytes := Inc(stats.txBytes));
        }
      }
    }

    /** The host asks for a byte (the RD_REQ interrupt): the selected register
        is served from the register map; a data register pops the oldest
        console byte, or answers 0 when there is none. The selection never
        moves. */
    method OnReadRequest() returns (b: bv8)
      requires Valid()
      modifies this, rx
      ensures Valid()
      ensures currentRegister == old(currentRegister) && registerSet == old(registerSet)
      ensures tx.Contents == old(tx.Contents)
      ensures currentRegister < REG_DATA_START ==>
        && RegisterMap(currentRegister, versionField, config.current.i2cAddress,
                       config.current.clockStretchEnable != 0) == Reply(b)
        && stats == old(stats) && rx.Contents == old(rx.Contents)
      ensures currentRegister >= REG_DATA_START && old(rx.Contents) == [] ==>
        b == 0 && stats == old(stats) && rx.Contents == old(rx.Contents)
      ensures currentRegister >= REG_DATA_START && old(rx.Contents) != [] ==>
        && b == old(rx.Contents)[0] && rx.Contents == old(rx.Contents)[1..]
        && stats == old(stats).(rxBytes := Inc(old(stats).rxBytes))
    {
      var action := Lookup();
      match action
      case Reply(v) =>
        b := v;
      case PopData =>
        b := PopConsoleByte();
    }

    /** A read of a data register: the oldest console byte, counted in
        `rx_bytes`, or 0 with nothing changed when the RX ring is empty. */
    method PopConsoleByte() returns (b: bv8)
      requires Valid()
      modifies this, rx
      ensures Valid()
      ensures currentRegister == old(currentRegister) && registerSet == old(registerSet)
      ensures tx.Contents == old(tx.Contents)
      ensures old(rx.Contents) == [] ==> b == 0 && stats == old(stats) && rx.Contents == old(rx.Contents)
      ensures old(rx.Contents) != [] ==>
        && b == old(rx.Contents)[0] && rx.Contents == old(rx.Contents)[1..]
        && stats == old(stats).(rxBytes := Inc(old(stats).rxBytes))
    {
      var popped, d := rx.Pop();
      if !popped {
        b := 0x00;
      } else {
        b := d;
        stats := stats.(rxBytes := Inc(stats.rxBytes));
      }
    }

    /** The read ladder run on the current state: the reply the register
        map gives, or a pop for the data registers. */
    method Lookup() returns (action: ReadAction)
      requires Valid()
      ensures action.PopData? <==> currentRegister >= REG_DATA_START
      ensures action == RegisterMap(currentRegister, versionField, config.current.i2cAddress,
                                    config.current.clockStretchEnable != 0)
    {
      var address := config.GetI2cAddress();
      var stretch := config.GetClockStretch();
      var txAvail := tx.Available();
      var rxAvail := rx.Available();
      action := ReadLadder(currentRegister, versionShort[..], address, stretch, txAvail, rxAvail);
      ReadLadderIsRegisterMap(currentRegister, versionShort[..], address, stretch, txAvail, rxAvail);
    }

    /** The transaction ended (the STOP_DET interrupt): the next byte selects
        a register again; the old selection stays for reads until then. */
    method OnStop()
      requires Valid()
      modifies this
      ensures Valid()
      ensures !registerSet && currentRegister == old(currentRegister) && stats == old(stats)
    {
      registerSet := false;
    }

    /** `i2c_slave_get_stats`: the counters; the overflow and error counters
        are never incremented by the handler. */
    method GetStats() returns (s: Stats)
      requires Valid()
      ensures s == stats
      ensures s.txOverflow == 0 && s.rxOverflow == 0 && s.i2cErrors == 0
    {
      s := stats;
    }
  }
}
