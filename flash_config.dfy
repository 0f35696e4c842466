/** The persistent configuration store: an in-memory copy of the device
    configuration and the record kept in the last flash sector. Every write
    goes through to the flash record at once; a record whose magic number is
    wrong is replaced by defaults at boot. */
module FlashConfig {

  /** The sentinel that marks a flash record as initialised. */
  const CONFIG_MAGIC: bv32 := 0x12C0CAFE
  /** The slave address a freshly initialised device answers on. */
  const DEFAULT_I2C_ADDRESS: bv8 := 0x37

  /** `config_t`: the record kept in memory and in flash. */
  datatype Config = Config(
    magic: bv32,
    i2cAddress: bv8,
    clockStretchEnable: bv8,
    reserved0: bv8,
    reserved1: bv8)

  /** The zero-initialised static record before `flash_config_init` runs. */
  const BLANK: Config := Config(0, 0, 0, 0, 0)

  class ConfigStore {
    /** `current_config`, the copy every getter reads. */
    var current: Config
    /** The record in the flash sector; it survives a reboot. */
    var stored: Config

    /** Power-on: the flash holds whatever was last programmed (or garbage),
        and the in-memory copy is zero. */
    constructor (flash: Config)
      ensures stored == flash && current == BLANK
    {
      stored := flash;
      current := BLANK;
    }

    /** Both copies agree and carry the sentinel: the state `Init` and every
        setter leave behind. */
    ghost predicate Synced()
      reads this
    {
      current == stored && current.magic == CONFIG_MAGIC
    }

    /** `flash_config_init`: a record without the sentinel is replaced by the
        defaults (keeping the reserved bytes that were read) and written back;
        a valid record is adopted as it is and nothing is written. */
    method Init()
      modifies this
      ensures Synced()
      ensures old(stored).magic != CONFIG_MAGIC ==>
        && current.i2cAddress == DEFAULT_I2C_ADDRESS
        && current.clockStretchEnable == 0
        && current.reserved0 == old(stored).reserved0
        && current.reserved1 == old(stored).reserved1
      ensures old(stored).magic == CONFIG_MAGIC ==> stored == old(stored)
    {
      current := Load();
      if current.magic != CONFIG_MAGIC {
        current := current.(magic := CONFIG_MAGIC, i2cAddress := DEFAULT_I2C_ADDRESS, clockStretchEnable := 0);
        Save(current);
      }
    }

    /** `flash_config_load`: a copy of the flash record. */
    method Load() returns (c: Config)
      ensures c == stored
    {
      c := stored;
    }

    /** `flash_config_save`: the flash record is erased and reprogrammed with
        `c`, then `c` becomes the in-memory copy, whatever both were before. */
    method Save(c: Config)
      modifies this
      ensures stored == c && current == c
    {
      stored := c;
      current := c;
    }

    /** `flash_config_get_i2c_address`. */
    method GetI2cAddress() returns (address: bv8)
      ensures address == current.i2cAddress
    {
      address := current.i2cAddress;
    }

    /** `flash_config_set_i2c_address`: any byte is accepted, only the address
        field changes, and the change is in flash before the call returns. */
    method SetI2cAddress(address: bv8)
      modifies this
      ensures current == old(current).(i2cAddress := address)
      ensures stored == current
      ensures old(Synced()) ==> Synced()
    {
      current := current.(i2cAddress := address);
      Save(current);
    }

    /** `flash_config_get_clock_stretch`: any non-zero stored byte reads as enabled. */
    method GetClockStretch() returns (enabled: bool)
      ensures enabled <==> current.clockStretchEnable != 0
    {
      enabled := current.clockStretchEnable != 0;
    }

    /** `flash_config_set_clock_stretch`: stores 1 or 0, only in the
        clock-stretch field, and writes it through to flash. */
    method SetClockStretch(enable: bool)
      modifies this
      ensures current == old(current).(clockStretchEnable := if enable then 1 else 0)
      ensures stored == current
      ensures old(Synced()) ==> Synced()
    {
      current := current.(clockStretchEnable := if enable then 1 else 0);
      Save(current);
    }
  }
}
