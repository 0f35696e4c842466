/** Whole-device behaviour: the objects wired as the firmware's start-up
    sequence wires them, driven by the interrupt events a host transaction
    produces, and by the foreground loop that drains and fills the rings. */
module Scenarios {
  import opened CircularBuffers
  import opened FlashConfig
  import opened I2cSlave

  /** Capacities of the two rings. */
  const TX_BUFFER_SIZE: nat := 256
  const RX_BUFFER_SIZE: nat := 1024

  /** Stepping a register below 0x20 does not wrap. */
  lemma LowRegisterSucc(reg: bv8)
    requires reg < 0x20
    ensures (reg + 1) as int == reg as int + 1
  {
  }

  /** Start-up: the config store is initialised from flash, both rings are
      created empty, and the slave engine is attached to them. */
  method Boot(flash: Config, fw: seq<bv8>) returns (e: Engine)
    ensures e.Valid() && e.versionField == VersionField(fw)
    ensures fresh(e) && fresh(e.tx) && fresh(e.tx.buffer) && fresh(e.rx) && fresh(e.rx.buffer) && fresh(e.config)
    ensures e.tx.size == TX_BUFFER_SIZE && e.rx.size == RX_BUFFER_SIZE
    ensures e.tx.Contents == [] && e.rx.Contents == []
    ensures e.config.Synced()
    ensures flash.magic == CONFIG_MAGIC ==> e.config.current == flash
    ensures flash.magic != CONFIG_MAGIC ==>
      e.config.current.i2cAddress == DEFAULT_I2C_ADDRESS && e.config.current.clockStretchEnable == 0
    ensures e.stats == ZERO_STATS && !e.registerSet
  {
    var store := new ConfigStore(flash);
    store.Init();
    var txStorage := new bv8[TX_BUFFER_SIZE];
    var rxStorage := new bv8[RX_BUFFER_SIZE];
    var tx := new CircularBuffer(txStorage, TX_BUFFER_SIZE);
    var rx := new CircularBuffer(rxStorage, RX_BUFFER_SIZE);
    e := new Engine(tx, rx, store, fw);
  }

  /** A host transaction that writes `data` to register `reg`. */
  method WriteRegister(e: Engine, reg: bv8, data: bv8)
    requires e.Valid() && !e.registerSet
    modifies e, e.tx, e.tx.buffer, e.config
    ensures e.Valid() && !e.registerSet && e.currentRegister == reg
    ensures e.rx.Contents == old(e.rx.Contents)
    ensures reg == REG_I2C_ADDRESS ==>
      e.config.current == old(e.config.current).(i2cAddress := data) && e.config.stored == e.config.current
    ensures reg == REG_CLOCK_STRETCH ==>
      e.config.current == old(e.config.current).(clockStretchEnable := data & 0x01)
      && e.config.stored == e.config.current
    ensures reg != REG_I2C_ADDRESS && reg != REG_CLOCK_STRETCH ==>
      e.config.current == old(e.config.current) && e.config.stored == old(e.config.stored)
    ensures reg < REG_DATA_START ==> e.tx.Contents == old(e.tx.Contents) && e.stats == old(e.stats)
    ensures reg >= REG_DATA_START ==>
      && e.tx.Contents == Newest(old(e.tx.Contents) + [data], e.tx.size)
      && e.stats == old(e.stats).(txBytes := Inc(old(e.stats).txBytes))
  {
    e.OnByteReceived(reg);
    e.OnByteReceived(data);
    e.OnStop();
  }

  /** A host transaction that selects `reg` and reads one byte. */
  method ReadRegister(e: Engine, reg: bv8) returns (b: bv8)
    requires e.Valid() && !e.registerSet
    modifies e, e.tx, e.tx.buffer, e.config, e.rx
    ensures e.Valid() && !e.registerSet && e.currentRegister == reg
    ensures e.config.current == old(e.config.current) && e.config.stored == old(e.config.stored)
    ensures e.tx.Contents == old(e.tx.Contents)
    ensures reg < REG_DATA_START ==>
      RegisterMap(reg, e.versionField, e.config.current.i2cAddress,
                  e.config.current.clockStretchEnable != 0) == Reply(b)
      && e.rx.Contents == old(e.rx.Contents) && e.stats == old(e.stats)
  {
    e.OnByteReceived(reg);
    b := e.OnReadRequest();
    e.OnStop();
  }

  /** Writing an address to register 0x02 is read back from 0x02 at once and
      is still the address after a reboot from the flash record. */
  method AddressSurvivesReboot(flash: Config, fw: seq<bv8>, address: bv8) returns (readBack: bv8, afterReboot: bv8)
    ensures readBack == address && afterReboot == address
  {
    var e := Boot(flash, fw);
    WriteRegister(e, REG_I2C_ADDRESS, address);
    readBack := ReadRegister(e, REG_I2C_ADDRESS);
    var rebooted := Boot(e.config.stored, fw);
    afterReboot := rebooted.config.GetI2cAddress();
  }

  /** Register 0x03 keeps only bit 0 of the written byte and reads it back as 1 or 0. */
  method ClockStretchBitZero(flash: Config, fw: seq<bv8>, data: bv8) returns (readBack: bv8, enabled: bool)
    ensures readBack == data & 0x01
    ensures enabled <==> data & 0x01 == 1
  {
    var e := Boot(flash, fw);
    WriteRegister(e, REG_CLOCK_STRETCH, data);
    readBack := ReadRegister(e, REG_CLOCK_STRETCH);
    enabled := e.config.GetClockStretch();
  }

  /** Reading the version registers one transaction each yields the 16-byte
      version field: the short version string and NUL bytes after it. */
  method ReadVersionField(flash: Config, fw: seq<bv8>) returns (field: seq<bv8>)
    ensures field == VersionField(fw)
    ensures field[..|ShortVersion(fw)|] == ShortVersion(fw) && field[VERSION_FIELD - 1] == 0
  {
    var e := Boot(flash, fw);
    field := [];
    var reg := REG_VERSION_START;
    while reg < 0x14
      invariant REG_VERSION_START <= reg <= 0x14
      invariant e.Valid() && !e.registerSet && e.versionField == VersionField(fw)
      invariant field == VersionField(fw)[..reg as int - 4]
    {
      var b := ReadRegister(e, reg);
      assert VersionField(fw)[..reg as int - 4 + 1] == field + [b];
      field := field + [b];
      LowRegisterSucc(reg);
      reg := reg + 1;
    }
  }

  /** The register does not advance within a transaction: two reads after one
      selection of a version register return the same byte. */
  method RepeatedReadsStay(flash: Config, fw: seq<bv8>) returns (first: bv8, second: bv8)
    ensures first == second == VersionField(fw)[0]
  {
    var e := Boot(flash, fw);
    e.OnByteReceived(REG_VERSION_START);
    first := e.OnReadRequest();
    second := e.OnReadRequest();
    e.OnStop();
  }

  /** Bytes the host writes to a data register in one transaction reach the
      transport in order; the TX ring keeps only its newest 256. */
  method ConsoleWrite(flash: Config, fw: seq<bv8>, reg: bv8, bs: seq<bv8>) returns (sent: seq<bv8>)
    requires reg >= REG_DATA_START
    ensures sent == Newest(bs, TX_BUFFER_SIZE)
  {
    var e := Boot(flash, fw);
    e.OnByteReceived(reg);
    var i := 0;
    while i < |bs|
      invariant 0 <= i <= |bs|
      invariant e.Valid() && e.registerSet && e.currentRegister == reg && e.tx.size == TX_BUFFER_SIZE
      invariant e.tx.Contents == Newest(bs[..i], TX_BUFFER_SIZE)
    {
      e.OnByteReceived(bs[i]);
      NewestAppend(bs[..i], bs[i], TX_BUFFER_SIZE);
      assert bs[..i + 1] == bs[..i] + [bs[i]];
      i := i + 1;
    }
    e.OnStop();
    assert bs[..i] == bs;
    sent := PopAll(e.tx);
  }

  /** The host reads `n` bytes from the selected data register within one
      transaction: the oldest `n` queued bytes, in order. */
  method ReadData(e: Engine, n: nat) returns (got: seq<bv8>)
    requires e.Valid() && e.registerSet && e.currentRegister >= REG_DATA_START
    requires n <= |e.rx.Contents|
    modifies e, e.rx
    ensures e.Valid() && e.registerSet && e.currentRegister == old(e.currentRegister)
    ensures got == old(e.rx.Contents)[..n] && e.rx.Contents == old(e.rx.Contents)[n..]
  {
    got := [];
    var i := 0;
    while i < n
      invariant 0 <= i <= n
      invariant e.Valid() && e.registerSet && e.currentRegister == old(e.currentRegister)
      invariant got == old(e.rx.Contents)[..i] && e.rx.Contents == old(e.rx.Contents)[i..]
    {
      var b := e.OnReadRequest();
      assert old(e.rx.Contents)[..i + 1] == got + [b];
      got := got + [b];
      i := i + 1;
    }
  }

  /** Bytes the transport delivers are read by the host from a data register
      oldest first (the RX ring keeps the newest 1024); once it is empty every
      further read answers 0. */
  method ConsoleRead(flash: Config, fw: seq<bv8>, bs: seq<bv8>) returns (got: seq<bv8>, filler: bv8)
    ensures got == Newest(bs, RX_BUFFER_SIZE) && filler == 0
  {
    var e := Boot(flash, fw);
    PushAll(e.rx, bs);
    assert [] + bs == bs;
    var n := e.rx.Available();
    e.OnByteReceived(REG_DATA_START);
    got := ReadData(e, n);
    filler := e.OnReadRequest();
    e.OnStop();
  }

  /** A blank flash boots with the defaults, and they are what the next boot reads. */
  method BlankFlashHeals(flash: Config) returns (first: Config, second: Config)
    requires flash.magic != CONFIG_MAGIC
    ensures first == second
    ensures first.magic == CONFIG_MAGIC && first.i2cAddress == DEFAULT_I2C_ADDRESS && first.clockStretchEnable == 0
  {
    var store := new ConfigStore(flash);
    store.Init();
    first := store.Load();
    var rebooted := new ConfigStore(store.stored);
    rebooted.Init();
    second := rebooted.Load();
  }

  /** Saving the same record twice leaves what saving it once leaves, in
      flash and in memory. */
  method SaveTwice(flash: Config, c: Config) returns (once: Config, onceInMemory: Config, twice: Config, twiceInMemory: Config)
    ensures once == c && onceInMemory == c
    ensures twice == once && twiceInMemory == onceInMemory
  {
    var store := new ConfigStore(flash);
    store.Save(c);
    once := store.Load();
    onceInMemory := store.current;
    store.Save(c);
    twice := store.Load();
    twiceInMemory := store.current;
  }
}
