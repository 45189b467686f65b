/**
 * The extension's persistent state (`chrome.storage.local`) and the settings
 * records kept in it.
 *
 * Every stored key may be missing; readers in the source default a missing
 * `nameMapping` to `{}`, so the model keeps the mapping as a plain map and the
 * other keys as `Option`s.
 */
module Storage {
  import opened JsCore

  /** The strict-mode settings: nicknames only on pages whose URL matches a pattern. */
  datatype StrictMode = StrictMode(enabled: bool, urlPatterns: seq<string>)

  /** `{ enabled: false, urlPatterns: [] }`, used where no strict-mode setting is stored. */
  const DefaultStrictMode := StrictMode(false, [])

  datatype AutoSync = AutoSync(enabled: bool, lastCheck: Option<string>)

  /** The Gist synchronisation settings; an empty `gistId` means none is configured. */
  datatype GistSettings = GistSettings(gistId: string, lastSyncTimestamp: Option<string>, autoSync: Option<AutoSync>)

  /**
   * A parsed settings file: an exported preset (nicknames as arbitrary JSON
   * values, `V = Json`) or the payload of a Gist (`V = string`). A field that is
   * `None` is missing from the file.
   */
  datatype SettingsFile<V> = SettingsFile(
    version: Option<Json>,
    mappings: Option<map<string, V>>,
    customOrder: Option<seq<string>>,
    theme: Option<string>,
    strictMode: Option<StrictMode>,
    language: Option<string>)
  {
    /** `!settings.version || !settings.mappings` is false: both required fields are present. */
    predicate HasRequiredFields() {
      version.Some? && Truthy(version.value) && mappings.Some?
    }
  }

  /** The whole stored state, as a value. */
  datatype StoreState = StoreState(
    nameMapping: map<string, string>,
    customOrder: Option<seq<string>>,
    theme: Option<string>,
    strictMode: Option<StrictMode>,
    language: Option<string>,
    gistSettings: Option<GistSettings>)

  /** `chrome.storage.local`, holding the keys the core reads and writes. */
  class Store {
    var nameMapping: map<string, string>
    var customOrder: Option<seq<string>>
    var theme: Option<string>
    var strictMode: Option<StrictMode>
    var language: Option<string>
    var gistSettings: Option<GistSettings>

    function State(): StoreState
      reads this
    {
      StoreState(nameMapping, customOrder, theme, strictMode, language, gistSettings)
    }

    /** A freshly installed extension: nothing is stored. */
    constructor ()
      ensures State() == StoreState(map[], None, None, None, None, None)
    {
      nameMapping := map[];
      customOrder := None;
      theme := None;
      strictMode := None;
      language := None;
      gistSettings := None;
    }
  }
}
