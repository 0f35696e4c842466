# I2Console core, modelled in Dafny

I2Console turns an RP2040 board into a virtual I2C peripheral: an I2C master
talks to a small register map, and bytes it writes to the data registers
reach a USB-CDC serial console, while bytes typed on the console can be read
back over I2C. This project models and proves the three pieces that carry the
device's logic:

- `circular_buffer.dfy` (module `CircularBuffers`): the drop-oldest byte ring
  buffer, a class over a caller-supplied array with `head`, `tail` and `count`
  updated in place and a ghost `Contents` sequence as its abstract value. The
  spec function `Newest(s, n)` (the newest `n` bytes of a stream) says what a
  drop-oldest queue holds; `PushAll`/`PopAll` are the foreground loop's fill
  and drain loops, and `FifoRoundTrip` composes them.
- `flash_config.dfy` (module `FlashConfig`): the configuration store, a class
  holding the in-memory record `current` and the flash record `stored`, with
  boot-time self-healing to defaults and write-through setters.
- `i2c_slave.dfy` (module `I2cSlave`): the slave engine. `ParseVersion` skips the 'v' and
  terminates the field; its copy loop `CopyVersion` is proved against the
  spec function `ShortVersion`.
  `ReadLadder` is the handler's read ladder in source order, dead tests
  included; `RegisterMap` is the register map as a plain range table, and
  `ReadLadderIsRegisterMap` proves the two agree for every input. The class
  `Engine` holds the two rings, the config store, the counters and the
  register-selection state, with one method per interrupt event.
- `scenarios.dfy` (module `Scenarios`): start-up wiring (`Boot`, as `main`
  does it) and whole-device host transactions: address write, reboot and read
  back; clock-stretch bit; reading the version field; console write and read
  paths; blank-flash self-healing; saving twice.

Widths: bytes are `bv8`, the `uint32_t` counters are the integer type
`uint32` (0 to 2^32 - 1) and every `++` on them is `Inc`, which wraps from the
largest value back to 0 as the C counters do, the 16-bit device identifier is `bv16`. Ring indices and
counts are unbounded naturals; they never exceed the capacity, so `size_t`
overflow cannot arise.

## Behaviour as written

The model follows the code as written, including where the source's own
names, types and host driver suggest otherwise:

- `circular_buffer_push` is declared to return `bool`
  (src/circular_buffer.h:17) but returns `true` even when it evicted the
  oldest byte, so the engine's `tx_overflow` branch is dead; the counters
  `tx_overflow`, `rx_overflow` and `i2c_errors` (src/i2c_slave.h:24-26) are
  never incremented, and `Engine.Valid` carries that they are zero.
- Bytes the host writes go into `tx_buffer` (drained to USB), and host reads
  pop `rx_buffer` (filled from USB).
- The register names `REG_TX_AVAIL_LOW`, `REG_TX_AVAIL_HIGH` and
  `REG_RX_AVAIL` (src/i2c_slave.h:14-16) name 0x10, 0x11 and 0x12, but the
  version range test (0x04 up to 0x13) comes before their tests, so those
  registers read version bytes, never ring counts.
- `REG_FW_VERSION` names 0x01 (src/i2c_slave.h:11), but register 0x01 is
  caught first by the `REG_DEVICE_ID + 1` test and reads 0xC0;
  `fw_version_byte` is never served.
- `current_register` never advances: repeated reads in one transaction return
  the same register's value (for data registers, successive popped bytes),
  although the host driver reads the device identifier and the version string
  as multi-byte reads from one start register
  (examples/esp-idf/components/i2console/i2console.c:71 and :183).
- STOP only clears `register_set`; the last selected register stays and a
  read without a new selection is served from it.
- Boot-time defaults keep the two reserved bytes that were read from flash.
- A write to register 0x02 changes the stored address only; the live slave
  address is programmed once, at start-up.

## Model

| member | source | states |
|---|---|---|
| CircularBuffers.NewestAppend | src/circular_buffer.c:11-21 | cutting the newest-`n` window before or after one more push gives the same queue, so a drop-oldest queue always holds the newest `n` bytes pushed |
| CircularBuffers.NewestOfShortQueue | src/circular_buffer.c:12-19 | the newest-window view of one push: append when not full, drop exactly the oldest and append when full |
| CircularBuffers.LaidDrop | src/circular_buffer.c:14-15 | moving `tail` one slot on after the oldest byte leaves keeps every remaining byte at its place in the ring |
| CircularBuffers.LaidWrite | src/circular_buffer.c:17-19 | writing the slot `count` places past `tail` appends the byte and leaves every queued byte where it was |
| CircularBuffers.CircularBuffer.Advance | src/circular_buffer.c:14-18 | the `(i + 1) % size` step gives the next slot, wrapping to 0 after the last |
| CircularBuffers.CircularBuffer.HeadFollowsTail | src/circular_buffer.c:14-18 | under the invariant the write index is `(tail + count) % size` |
| CircularBuffers.CircularBuffer.constructor | src/circular_buffer.c:3-9 | init leaves head, tail and count at 0 over the given array and capacity, with empty contents |
| CircularBuffers.CircularBuffer.Push | src/circular_buffer.c:11-21 | always returns true; the queue becomes the newest `size` bytes of the old contents followed by the new byte (so it appends when not full and drops exactly the oldest when full, by `NewestOfShortQueue`); the byte lands at the old `head` and every other cell of the storage array keeps its value; keeps `count <= size`, `head, tail < size` and the head/tail relation |
| CircularBuffers.CircularBuffer.Pop | src/circular_buffer.c:23-31 | returns false iff the queue is empty and then changes no index and no contents; otherwise returns the oldest byte and removes it |
| CircularBuffers.CircularBuffer.Available | src/circular_buffer.c:33-35 | returns the number of queued bytes |
| CircularBuffers.CircularBuffer.Free | src/circular_buffer.c:37-39 | the result plus the queued count equals the capacity |
| CircularBuffers.CircularBuffer.Clear | src/circular_buffer.c:41-45 | empties the queue without writing the backing array or changing the capacity |
| CircularBuffers.PushAll | src/main.c:58-62 | pushing a batch leaves the newest `size` bytes of old contents followed by the batch |
| CircularBuffers.PopAll | src/main.c:50-55 | popping until failure yields the old contents in FIFO order and leaves the queue empty |
| CircularBuffers.FifoRoundTrip | src/circular_buffer.c:11-31 | pushing `k <= size` bytes into an empty buffer and popping them all returns them in order; for longer streams the newest `size` |
| FlashConfig.ConfigStore.constructor | src/flash_config.c:9 | power-on: the flash record is given, the in-memory copy is zero |
| FlashConfig.ConfigStore.Init | src/flash_config.c:11-22 | a record without magic 0x12C0CAFE becomes magic, address 0x37, clock-stretch 0 and is written to flash; a valid record is adopted with no write |
| FlashConfig.ConfigStore.Load | src/flash_config.c:24-27 | returns the flash record |
| FlashConfig.ConfigStore.Save | src/flash_config.c:29-39 | afterwards both the flash record and the in-memory copy equal the saved record, whatever they were |
| FlashConfig.ConfigStore.GetI2cAddress | src/flash_config.c:41-43 | returns the in-memory address |
| FlashConfig.ConfigStore.SetI2cAddress | src/flash_config.c:45-49 | any byte is stored; only the address field changes, in memory and in flash |
| FlashConfig.ConfigStore.GetClockStretch | src/flash_config.c:51-53 | true iff the stored byte is non-zero |
| FlashConfig.ConfigStore.SetClockStretch | src/flash_config.c:55-58 | stores 1 or 0; only the clock-stretch field changes, in memory and in flash |
| I2cSlave.StopFrom | src/i2c_slave.c:22-26 | the first position where the copy loop stops: at most 15, a stop position, and no stop before it |
| I2cSlave.ShortVersion | src/i2c_slave.c:15-28 | the copied text is a prefix of the version after one leading 'v', at most 15 long, holds no NUL and no "-g" marker, and ends where the field, the string or a marker ends it |
| I2cSlave.Inc | src/i2c_slave.c:54-56 | `++` on a `uint32_t` counter is one more modulo 2^32 |
| I2cSlave.VersionField | src/i2c_slave.c:13-28 | the 16-byte field is the short version followed by NUL bytes |
| I2cSlave.ParseVersion | src/i2c_slave.c:15-28 | the loop writes exactly the short version and one terminator and leaves later bytes untouched |
| I2cSlave.CopyVersion | src/i2c_slave.c:21-26 | the copy loop stops at the first stop position (15 characters, end of string, or a "-g" marker) and has copied every byte before it, writing nothing past it |
| I2cSlave.ReadLadderIsRegisterMap | src/i2c_slave.c:66-93 | for every register and state the read ladder serves the range table: 0x00 0x12, 0x01 0xC0, 0x02 address, 0x03 1/0, 0x04-0x13 version field (0x10-0x12 included), 0x14-0x1F zero, 0x20+ pop; `fw_version_byte` and ring counts are never read |
| I2cSlave.DeviceIdBigEndian | src/i2c_slave.c:66-69 | registers 0x00 and 0x01 are the high and low byte of device id 0x12C0 |
| I2cSlave.VersionRegisters | src/i2c_slave.c:72-74 | register `0x04 + k` reads character `k` of the short version, or 0 past its end (so 0x13 always reads 0) |
| I2cSlave.Engine.constructor | src/i2c_slave.c:104-108 | attaches the rings and the store and parses the version field; with the static initialisers of src/i2c_slave.c:30-35, zero counters, register 0 and no register selected |
| I2cSlave.Engine.OnByteReceived | src/i2c_slave.c:41-60 | a first byte only selects the register; later bytes set the address (0x02), set clock-stretch to `data & 1` (0x03), push to `tx_buffer` and count `tx_bytes` (0x20+), or are ignored; nothing else changes |
| I2cSlave.Engine.Lookup | src/i2c_slave.c:66-86 | the read ladder run on the current state answers exactly as the register map does for the selected register, and asks for a pop exactly for registers 0x20 and above |
| I2cSlave.Engine.OnReadRequest | src/i2c_slave.c:62-96 | registers below 0x20 answer from the register map with no state change; data registers pop the oldest `rx_buffer` byte and count `rx_bytes`, or answer 0 and change nothing when it is empty; the register never advances |
| I2cSlave.Engine.PopConsoleByte | src/i2c_slave.c:87-93 | a data-register read pops and returns the oldest `rx_buffer` byte and counts it in `rx_bytes`; on an empty ring it answers 0 and changes nothing |
| I2cSlave.Engine.OnStop | src/i2c_slave.c:98-101 | clears the selection flag and keeps the selected register and counters |
| I2cSlave.Engine.GetStats | src/i2c_slave.c:138-140 | returns the counters; overflow and error counters are always zero |
| Scenarios.Boot | src/main.c:30-38 | start-up yields a valid engine over empty rings of 256 and 1024 bytes and a synced config store |
| Scenarios.WriteRegister | src/i2c_slave.c:41-60 | a select-and-write transaction has the per-register write effect and ends with no register selected; a write to a data register (0x20 and up) appends the byte to the console ring and adds one to `tx_bytes` (src/i2c_slave.c:52-56) |
| Scenarios.ReadRegister | src/i2c_slave.c:62-101 | a select-and-read transaction on a register below 0x20 returns the register map value and changes no state: rings, configuration and counters are left as they were |
| Scenarios.AddressSurvivesReboot | src/i2c_slave.c:47-49 | an address written to 0x02 reads back from 0x02 and is the address after a reboot from flash |
| Scenarios.ClockStretchBitZero | src/i2c_slave.c:50-51 | a byte written to 0x03 reads back as its bit 0 and is the clock-stretch getter's answer |
| Scenarios.ReadVersionField | src/i2c_slave.c:72-74 | reading 0x04-0x13 one transaction each yields the version field, NUL-terminated |
| Scenarios.RepeatedReadsStay | src/i2c_slave.c:44-46 | two reads after one selection return the same version byte |
| Scenarios.ConsoleWrite | src/i2c_slave.c:52-57 | bytes written to a data register reach the transport in order, newest 256 kept |
| Scenarios.ReadData | src/i2c_slave.c:87-93 | `n` reads of a selected data register return the `n` oldest queued bytes in order and remove exactly them |
| Scenarios.ConsoleRead | src/i2c_slave.c:87-93 | bytes from the transport are read from 0x20 oldest first, then reads answer 0 |
| Scenarios.BlankFlashHeals | src/flash_config.c:11-22 | a blank flash boots with the defaults, and the next boot loads the same record |
| Scenarios.SaveTwice | src/flash_config.c:29-39 | saving a record twice leaves the same flash and memory state as saving it once: both saves put the record in flash and in the in-memory copy |

## Left out

- Peripheral plumbing: `intr_stat`, `data_cmd` and `clr_*` register access, GPIO and `i2c_init` set-up, and programming the slave address in `i2c_slave_init`. The handler is modelled as three event methods that a caller invokes in the handler's order (byte received, read request, stop).
- Interrupt-versus-foreground concurrency and the single-producer/single-consumer argument for the rings: the model is sequential.
- Flash erase/program, interrupt masking and the execute-in-place copy: a save is an atomic replacement of the stored record; the uninitialised rest of the page buffer is not modelled.
- Logging, the LCD driver and UI, the USB-CDC wrappers and descriptors, and the watchdog/UI parts of the main loop; only its ring fill and drain loops appear, as `PushAll` and `PopAll`.
- The host-side ESP-IDF driver, which expects auto-incrementing reads the slave does not provide.
- `is_read_mode` is declared and never used; `i2c_slave_task` has an empty body.
- CircularBuffers.CircularBuffer.Pop: on an empty queue the C function leaves the caller's byte untouched; the model returns a byte it promises nothing about (the engine overwrites it with 0, as the source does).
- CircularBuffers.CircularBuffer.Push: the capacity must be non-zero, because the source divides by it.
- The firmware version string comes from a generated header; it is a parameter (`fw`) of the engine.
