/** The GUI's remembered defaults: a properties map read from
    sfide-defaults.properties (or created with three empty keys), three
    getters that fall back to "", and three setters that ignore a null or
    blank value and otherwise update one key and store the file again.
    The file is an input to the constructor, and each store is recorded as
    the snapshot it writes. */
module Configuration {
  import opened Wrappers
  import opened JavaStrings

  const CONFIG_FILE := "sfide-defaults.properties"
  const PKCS11_LIBRARY_PATH := "pkcs11.library.path"
  const PKCS11_SLOT_NUMBER := "pkcs11.slot.number"
  const PKCS12_FILE_PATH := "pkcs12.file.path"

  /** The three keys the GUI keeps. */
  const KEYS: set<string> := {PKCS11_LIBRARY_PATH, PKCS11_SLOT_NUMBER, PKCS12_FILE_PATH}

  type Properties = map<string, string>

  /** Properties.getProperty(key, defaultValue). */
  function GetProperty(props: Properties, key: string, default: string): string
  {
    if key in props then props[key] else default
  }

  /** What the configuration holds after a guarded set: the key takes the
      value when it is given and not blank, and nothing changes otherwise. */
  function Updated(props: Properties, key: string, value: Option<string>): (r: Properties)
    ensures NullOrBlank(value) ==> r == props
    ensures !NullOrBlank(value) ==> key in r && r[key] == value.value
    ensures r.Keys == if NullOrBlank(value) then props.Keys else props.Keys + {key}
  {
    if NullOrBlank(value) then props else props[key := value.value]
  }

  /** After an accepted set the getter answers the new value; the other keys
      answer what they did before. */
  lemma UpdatedThenGet(props: Properties, key: string, value: Option<string>, other: string, default: string)
    requires other != key
    ensures !NullOrBlank(value) ==> GetProperty(Updated(props, key, value), key, default) == value.value
    ensures GetProperty(Updated(props, key, value), other, default) == GetProperty(props, other, default)
  {
  }

  /** Setting the same value twice is the same as setting it once. */
  lemma UpdatedIdempotent(props: Properties, key: string, value: Option<string>)
    ensures Updated(Updated(props, key, value), key, value) == Updated(props, key, value)
  {
  }

  /** Sets of different keys commute. */
  lemma UpdatesCommute(props: Properties, k1: string, v1: Option<string>, k2: string, v2: Option<string>)
    requires k1 != k2
    ensures Updated(Updated(props, k1, v1), k2, v2) == Updated(Updated(props, k2, v2), k1, v1)
  {
  }

  /** The properties createDefaultConfiguration stores: the three keys, empty. */
  const DEFAULTS: Properties := map[PKCS11_LIBRARY_PATH := "", PKCS11_SLOT_NUMBER := "", PKCS12_FILE_PATH := ""]

  /** A configuration created from scratch answers "" for every getter. */
  lemma DefaultsAreEmpty(key: string, default: string)
    ensures DEFAULTS.Keys == KEYS
    ensures key in KEYS ==> GetProperty(DEFAULTS, key, default) == ""
    ensures key !in KEYS ==> GetProperty(DEFAULTS, key, default) == default
  {
  }

  class ConfigurationManager {
    /** The loaded properties. */
    var properties: Properties
    /** Every snapshot written to CONFIG_FILE, oldest first. */
    var stored: seq<Properties>

    /** The private constructor: an empty Properties, then loadConfiguration.
        configFile holds what the file parses to, or None when it does not
        exist. */
    constructor(configFile: Option<Properties>)
      ensures configFile.Some? ==> properties == configFile.value && stored == []
      ensures configFile.None? ==> properties == DEFAULTS && stored == [DEFAULTS]
    {
      properties := map[];
      stored := [];
      new;
      LoadConfiguration(configFile);
    }

    /** loadConfiguration: an existing file is loaded into the (empty)
        properties; a missing one is replaced by the default configuration. */
    method LoadConfiguration(configFile: Option<Properties>)
      requires properties == map[]
      modifies this
      ensures configFile.Some? ==> properties == configFile.value && stored == old(stored)
      ensures configFile.None? ==> properties == DEFAULTS && stored == old(stored) + [DEFAULTS]
    {
      if configFile.Some? {
        properties := configFile.value;
      } else {
        CreateDefaultConfiguration();
        assert properties == DEFAULTS;
      }
    }

    /** createDefaultConfiguration: the three keys set to "", then stored. */
    method CreateDefaultConfiguration()
      modifies this
      ensures properties == old(properties)[PKCS11_LIBRARY_PATH := ""][PKCS11_SLOT_NUMBER := ""][PKCS12_FILE_PATH := ""]
      ensures stored == old(stored) + [properties]
    {
      properties := properties[PKCS11_LIBRARY_PATH := ""];
      properties := properties[PKCS11_SLOT_NUMBER := ""];
      properties := properties[PKCS12_FILE_PATH := ""];
      SaveConfiguration();
    }

    /** saveConfiguration: the current properties are written to the file. */
    method SaveConfiguration()
      modifies this
      ensures properties == old(properties)
      ensures stored == old(stored) + [properties]
    {
      stored := stored + [properties];
    }

    /** The getters answer the key's value, or "" when it is missing. */
    function GetDefaultPkcs11LibPath(): string
      reads this
    {
      GetProperty(properties, PKCS11_LIBRARY_PATH, "")
    }

    function GetDefaultSlotNumber(): string
      reads this
    {
      GetProperty(properties, PKCS11_SLOT_NUMBER, "")
    }

    function GetDefaultPkcs12Path(): string
      reads this
    {
      GetProperty(properties, PKCS12_FILE_PATH, "")
    }

    /** The guard every setter shares: a value that is given and not blank
        replaces the key and the file is stored once; anything else changes
        nothing and stores nothing. */
    method SetIfGiven(key: string, value: Option<string>)
      modifies this
      ensures properties == Updated(old(properties), key, value)
      ensures NullOrBlank(value) ==> stored == old(stored)
      ensures !NullOrBlank(value) ==> stored == old(stored) + [properties]
    {
      if value.Some? && Trim(value.value) != [] {
        properties := properties[key := value.value];
        SaveConfiguration();
      }
    }

    method SetDefaultPkcs11LibPath(path: Option<string>)
      modifies this
      ensures properties == Updated(old(properties), PKCS11_LIBRARY_PATH, path)
      ensures NullOrBlank(path) ==> stored == old(stored)
      ensures !NullOrBlank(path) ==> stored == old(stored) + [properties] && GetDefaultPkcs11LibPath() == path.value
      ensures GetDefaultSlotNumber() == old(GetDefaultSlotNumber()) && GetDefaultPkcs12Path() == old(GetDefaultPkcs12Path())
    {
      SetIfGiven(PKCS11_LIBRARY_PATH, path);
    }

    method SetDefaultSlotNumber(number: Option<string>)
      modifies this
      ensures properties == Updated(old(properties), PKCS11_SLOT_NUMBER, number)
      ensures NullOrBlank(number) ==> stored == old(stored)
      ensures !NullOrBlank(number) ==> stored == old(stored) + [properties] && GetDefaultSlotNumber() == number.value
      ensures GetDefaultPkcs11LibPath() == old(GetDefaultPkcs11LibPath()) && GetDefaultPkcs12Path() == old(GetDefaultPkcs12Path())
    {
      SetIfGiven(PKCS11_SLOT_NUMBER, number);
    }

    method SetDefaultPkcs12Path(path: Option<string>)
      modifies this
      ensures properties == Updated(old(properties), PKCS12_FILE_PATH, path)
      ensures NullOrBlank(path) ==> stored == old(stored)
      ensures !NullOrBlank(path) ==> stored == old(stored) + [properties] && GetDefaultPkcs12Path() == path.value
      ensures GetDefaultPkcs11LibPath() == old(GetDefaultPkcs11LibPath()) && GetDefaultSlotNumber() == old(GetDefaultSlotNumber())
    {
      SetIfGiven(PKCS12_FILE_PATH, path);
    }
  }

  /** The class's static instance field. */
  class InstanceHolder {
    var instance: Option<ConfigurationManager>

    constructor()
      ensures instance == None
    {
      instance := None;
    }

    /** getInstance: the first call creates the manager from the file, every
        later call answers that same manager. */
    method GetInstance(configFile: Option<Properties>) returns (m: ConfigurationManager)
      modifies this
      ensures instance == Some(m)
      ensures old(instance).Some? ==> m == old(instance).value
      ensures old(instance).None? ==> fresh(m)
      ensures old(instance).None? && configFile.Some? ==> m.properties == configFile.value && m.stored == []
      ensures old(instance).None? && configFile.None? ==> m.properties == DEFAULTS && m.stored == [DEFAULTS]
    {
      if instance.None? {
        var created := new ConfigurationManager(configFile);
        instance := Some(created);
      }
      m := instance.value;
    }
  }

  /** Two calls answer one manager, whatever the file held at the second. */
  method GetInstanceTwice(holder: InstanceHolder, first: Option<Properties>, second: Option<Properties>)
      returns (a: ConfigurationManager, b: ConfigurationManager)
    modifies holder
    ensures a == b
  {
    a := holder.GetInstance(first);
    b := holder.GetInstance(second);
  }
}
