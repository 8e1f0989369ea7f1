/** The plugin's saved settings, as far as the modelled code reads or writes them. */
module Config {

  /** The part of the plugin's configuration that the /jas command changes. */
  class Configuration {
    var enabled: bool

    constructor ()
      ensures enabled
    {
      enabled := true;
    }
  }
}
