/**
 * Persistent settings (Software/apps/spydvi/config.c, config.h): the global
 * configuration record, its compiled-in defaults, and the load/save entry
 * points, which in this firmware are still empty.
 */
module Config {

  const ConfigMagic1: bv32 := 0x1234_5678
  const ConfigMagic2: bv32 := 0xdead_f00d

  /** dvi_color_mode_t. */
  const DviRgb555: bv32 := 0
  const DviRgb565: bv32 := 1
  const DviRgb888: bv32 := 2

  const DefaultSampleRate: bv32 := 96000

  /** config_t: four 32-bit words. */
  datatype ConfigRecord = ConfigRecord(magic1: bv32, audioOutSampleRate: bv32, dviColorMode: bv32, magic2: bv32)

  /** The magic words that mark a record as valid configuration data. */
  predicate MagicValid(c: ConfigRecord)
  {
    c.magic1 == ConfigMagic1 && c.magic2 == ConfigMagic2
  }

  /** default_config. */
  function DefaultConfig(): (c: ConfigRecord)
    ensures MagicValid(c)
    ensures c.audioOutSampleRate == 96000 && c.dviColorMode == DviRgb555
  {
    ConfigRecord(ConfigMagic1, DefaultSampleRate, DviRgb555, ConfigMagic2)
  }

  /** A zeroed record does not pass the magic check. */
  lemma ZeroConfigInvalid()
    ensures !MagicValid(ConfigRecord(0, 0, 0, 0))
  {
  }

  /** The holder of g_config. */
  class ConfigStore {
    var config: ConfigRecord

    /** g_config before config_init: static storage, all zero. */
    constructor ()
      ensures config == ConfigRecord(0, 0, 0, 0)
    {
      config := ConfigRecord(0, 0, 0, 0);
    }

    /** config_init: copy the defaults over whatever was there. */
    method Init()
      modifies this
      ensures config == DefaultConfig()
      ensures MagicValid(config)
    {
      config := DefaultConfig();
    }

    /** config_load: not implemented in the firmware, so g_config is left as it was. */
    method Load()
      ensures unchanged(this)
    {
    }

    /** config_save: not implemented in the firmware; g_config is only read. */
    method Save()
      ensures unchanged(this)
    {
    }
  }
}
