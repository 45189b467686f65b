/**
 * The management popup (popup.js): the filtered list, the strict-mode URL
 * pattern list, the nickname table's add, edit and delete actions, and the
 * preset export and import.
 *
 * The popup's module-level `strictModeSettings` is a field of `Popup`; the
 * storage it reads and writes is the shared `Store`.
 */
module PopupPage {
  import opened JsCore
  import opened Storage
  import opened Nickname
  import opened UrlFilter

  // ---------------------------------------------------------------------------
  // filterEntries

  /** The username or the nickname contains the lower-cased filter, after lower-casing. */
  predicate EntryMatches(e: (string, string), needle: string) {
    Contains(LowerAscii(e.0), needle) || Contains(LowerAscii(e.1), needle)
  }

  /** `entries.filter(...)`: the matching entries, in their order. */
  function KeepMatching(entries: seq<(string, string)>, needle: string): (r: seq<(string, string)>)
    ensures |r| <= |entries|
    ensures forall e :: e in r <==> e in entries && EntryMatches(e, needle)
  {
    if entries == [] then []
    else (if EntryMatches(entries[0], needle) then [entries[0]] else []) + KeepMatching(entries[1..], needle)
  }

  /** Filtering distributes over concatenation: kept entries stay in their relative order. */
  lemma {:induction false} KeepMatchingAppend(a: seq<(string, string)>, b: seq<(string, string)>, needle: string)
    ensures KeepMatching(a + b, needle) == KeepMatching(a, needle) + KeepMatching(b, needle)
  {
    if a != [] {
      assert (a + b)[0] == a[0];
      assert (a + b)[1..] == a[1..] + b;
      KeepMatchingAppend(a[1..], b, needle);
    } else {
      assert a + b == b;
    }
  }

  /** `filterEntries`: every entry for an empty filter, otherwise exactly the matching ones. */
  function FilterEntries(entries: seq<(string, string)>, filter: string): (r: seq<(string, string)>)
    ensures filter == "" ==> r == entries
    ensures filter != "" ==> forall e :: e in r <==> e in entries && EntryMatches(e, LowerAscii(filter))
  {
    if filter == "" then entries else KeepMatching(entries, LowerAscii(filter))
  }

  // ---------------------------------------------------------------------------
  // validateUrlPattern

  const MaxUrlPatternLength: nat := 1000

  datatype UrlPatternError = EmptyPattern | PatternTooLong | InvalidRegex

  datatype PatternValidation = ValidPattern(sanitized: string) | InvalidPattern(error: UrlPatternError)

  /**
   * Blank patterns and patterns over 1000 UTF-16 units are refused, and so is a
   * `regex:` pattern whose source does not compile; otherwise the pattern is kept trimmed.
   */
  function ValidateUrlPattern(engine: RegexEngine, pattern: string): (r: PatternValidation)
    ensures r == InvalidPattern(EmptyPattern) <==> IsBlank(pattern)
    ensures r == InvalidPattern(PatternTooLong) <==> !IsBlank(pattern) && JsLength(pattern) > MaxUrlPatternLength
    ensures r.ValidPattern? <==>
              !IsBlank(pattern) && JsLength(pattern) <= MaxUrlPatternLength &&
              (RegexPrefix <= pattern ==> engine.compiles(pattern[|RegexPrefix|..]))
    ensures r.ValidPattern? ==> r.sanitized == Trim(pattern) && r.sanitized != ""
  {
    if IsBlank(pattern) then InvalidPattern(EmptyPattern)
    else if JsLength(pattern) > MaxUrlPatternLength then InvalidPattern(PatternTooLong)
    else if RegexPrefix <= pattern && !engine.compiles(pattern[|RegexPrefix|..]) then InvalidPattern(InvalidRegex)
    else ValidPattern(Trim(pattern))
  }

  /** The add handler trims before validating, so what it stores is exactly the trimmed input. */
  lemma TrimmedPatternStoredAsIs(engine: RegexEngine, input: string)
    requires ValidateUrlPattern(engine, Trim(input)).ValidPattern?
    ensures ValidateUrlPattern(engine, Trim(input)).sanitized == Trim(input)
  {
    TrimIdempotent(input);
  }

  // ---------------------------------------------------------------------------
  // urlPatterns.splice(index, 1)

  /** No pattern occurs twice. */
  predicate Distinct(s: seq<string>) {
    forall i, j :: 0 <= i < j < |s| ==> s[i] != s[j]
  }

  /** Where `splice` starts: a negative index counts from the end, and both ends are clamped. */
  function SpliceStart(len: nat, index: int): (k: nat)
    ensures k <= len
    ensures 0 <= index <= len ==> k == index
  {
    if index < 0 then (if len + index < 0 then 0 else len + index)
    else if index > len then len
    else index
  }

  /** `s.splice(index, 1)`: the element at the start position, if any, is removed. */
  function SpliceOne<T>(s: seq<T>, index: int): (r: seq<T>)
    ensures |r| == if SpliceStart(|s|, index) < |s| then |s| - 1 else |s|
  {
    var k := SpliceStart(|s|, index);
    if k < |s| then s[..k] + s[k + 1..] else s
  }

  /** Removing the element at `k`: the elements before it stay put, the ones after move down by one. */
  lemma SpliceAt(s: seq<string>, k: nat)
    requires k < |s|
    ensures var r := s[..k] + s[k + 1..];
            |r| == |s| - 1 && forall j :: 0 <= j < |r| ==> r[j] == s[if j < k then j else j + 1]
  {
  }

  /** Deleting at a listed index removes exactly that pattern and keeps the others in order. */
  lemma SpliceRemovesExactly(s: seq<string>, i: nat)
    requires i < |s|
    ensures var r := SpliceOne(s, i);
            |r| == |s| - 1 &&
            (forall j :: 0 <= j < i ==> r[j] == s[j]) &&
            (forall j :: i <= j < |r| ==> r[j] == s[j + 1]) &&
            multiset(r) + multiset{s[i]} == multiset(s)
  {
    SpliceAt(s, i);
    assert s == s[..i] + [s[i]] + s[i + 1..];
  }

  /** Deleting never creates a duplicate. */
  lemma SpliceKeepsDistinct(s: seq<string>, index: int)
    requires Distinct(s)
    ensures Distinct(SpliceOne(s, index))
  {
    var k := SpliceStart(|s|, index);
    if k < |s| {
      var r := s[..k] + s[k + 1..];
      SpliceAt(s, k);
      forall i, j | 0 <= i < j < |r|
        ensures r[i] != r[j]
      {
        var i', j' := if i < k then i else i + 1, if j < k then j else j + 1;
        assert r[i] == s[i'] && r[j] == s[j'] && i' < j';
      }
    }
  }

  // ---------------------------------------------------------------------------
  // Preset export

  const PresetVersion := "1.0"

  /**
   * The exported preset: every field filled, a missing (or empty) stored value
   * replaced by its default.
   */
  function ExportPreset(s: StoreState): (r: SettingsFile<string>)
    ensures r.HasRequiredFields() && r.mappings == Some(s.nameMapping)
    ensures r.customOrder == Some(s.customOrder.GetOr([]))
    ensures r.strictMode == Some(s.strictMode.GetOr(DefaultStrictMode))
    ensures PresentString(r.theme) && (PresentString(s.theme) ==> r.theme == s.theme)
    ensures PresentString(r.language) && (PresentString(s.language) ==> r.language == s.language)
  {
    SettingsFile(
      Some(Str(PresetVersion)),
      Some(s.nameMapping),
      Some(s.customOrder.GetOr([])),
      Some(if PresentString(s.theme) then s.theme.value else "light"),
      Some(s.strictMode.GetOr(DefaultStrictMode)),
      Some(if PresentString(s.language) then s.language.value else "auto"))
  }

  /** The exported file as `JSON.parse` reads it back: nicknames are strings. */
  function AsJsonFile(f: SettingsFile<string>): (r: SettingsFile<Json>)
    ensures r.HasRequiredFields() == f.HasRequiredFields()
    ensures r.mappings.Some? <==> f.mappings.Some?
    ensures r.mappings.Some? ==> r.mappings.value.Keys == f.mappings.value.Keys
  {
    SettingsFile(f.version,
      if f.mappings.Some? then Some(map u | u in f.mappings.value :: Str(f.mappings.value[u])) else None,
      f.customOrder, f.theme, f.strictMode, f.language)
  }

  // ---------------------------------------------------------------------------
  // Preset import

  /** Why one nickname of the file is refused. */
  datatype NicknameFault =
    | Invalid(reason: NicknameError)                  // `validateNickname` said no
    | NotAString                                      // `name.trim` is not a function, so it throws

  datatype ImportError =
    | NoFileSelected
    | NotParsed                                       // JSON.parse threw or gave no object
    | BadFormat                                       // `version` or `mappings` missing
    | BadNickname(username: string, fault: NicknameFault)

  /** `validateNickname(nickname)` on a parsed value: a falsy value is blank, another non-string throws. */
  function ImportNickname(j: Json): (r: Result<string, NicknameFault>)
    ensures r.Ok? ==> j.Str? && r.value == Sanitize(j.s)
  {
    if !Truthy(j) then Err(Invalid(EmptyNickname))
    else if !j.Str? then Err(NotAString)
    else match ValidateNickname(j.s)
      case Accepted(v) => Ok(v)
      case Rejected(reason) => Err(Invalid(reason))
  }

  /** A parsed nickname passes exactly when it is a string the popup's own validation accepts. */
  lemma ImportNicknameRules(j: Json)
    ensures ImportNickname(j).Ok? <==> j.Str? && ValidateNickname(j.s).Accepted?
    ensures ImportNickname(j) == Err(NotAString) <==> Truthy(j) && !j.Str?
    ensures j.Str? ==> ImportNickname(j).Err? ==> ImportNickname(j) == Err(Invalid(ValidateNickname(j.s).reason))
  {
    if j.Str? && !Truthy(j) {
      ValidateNicknameRules(j.s);
    }
  }

  /** Every value of `mappings` passes `check`. */
  predicate AllPass(mappings: map<string, Json>, check: Json -> Result<string, NicknameFault>) {
    forall u :: u in mappings ==> check(mappings[u]).Ok?
  }

  /** `out` holds, for every key of `mappings`, what `check` made of its value. */
  predicate IsCheckedCopy(mappings: map<string, Json>, check: Json -> Result<string, NicknameFault>, out: map<string, string>) {
    out.Keys == mappings.Keys &&
    forall u :: u in out ==> check(mappings[u]) == Ok(out[u])
  }

  /** Every nickname in the file passes. */
  predicate AllImportable(mappings: map<string, Json>) {
    AllPass(mappings, ImportNickname)
  }

  /**
   * `out` is the key-for-key sanitised copy of the file's mapping that replaces
   * the stored one; the two conditions pin the copy down completely.
   */
  predicate IsSanitizedCopy(mappings: map<string, Json>, out: map<string, string>) {
    IsCheckedCopy(mappings, ImportNickname, out)
  }

  /** Only importable mappings have a sanitised copy, it is unique, and it holds `sanitizeNickname` of each nickname. */
  lemma SanitizedCopyFacts(mappings: map<string, Json>, out: map<string, string>, out': map<string, string>)
    requires IsSanitizedCopy(mappings, out)
    ensures AllImportable(mappings)
    ensures forall u :: u in out ==> mappings[u].Str? && out[u] == Sanitize(mappings[u].s)
    ensures IsSanitizedCopy(mappings, out') ==> out' == out
  {
    forall u | u in out
      ensures ImportNickname(mappings[u]) == Ok(out[u])
    {
    }
    if IsSanitizedCopy(mappings, out') {
      assert forall u :: u in out ==> out'[u] == out[u];
    }
  }

  /** `order` lists the keys of `mappings`, as `Object.entries` does. */
  ghost predicate ListsKeys(mappings: map<string, Json>, order: seq<string>) {
    forall u :: u in mappings <==> u in order
  }

  /** The values at the first `n` keys of `order` all pass `check`. */
  predicate PrefixPasses(mappings: map<string, Json>, order: seq<string>, n: nat, check: Json -> Result<string, NicknameFault>)
    requires n <= |order| && ListsKeys(mappings, order)
  {
    forall k :: 0 <= k < n ==> check(mappings[order[k]]).Ok?
  }

  /**
   * The loop building `sanitizedMappings` over `Object.entries(preset.mappings)`,
   * with the check on one nickname as a parameter: the first value that fails,
   * in entry order, aborts the loop with its error.
   */
  method SanitizeMappings(mappings: map<string, Json>, order: seq<string>, check: Json -> Result<string, NicknameFault>)
    returns (r: Result<map<string, string>, ImportError>)
    requires ListsKeys(mappings, order)
    ensures r.Ok? <==> AllPass(mappings, check)
    ensures r.Ok? ==> IsCheckedCopy(mappings, check, r.value)
    ensures r.Err? ==> exists k :: 0 <= k < |order| && PrefixPasses(mappings, order, k, check) &&
                                   check(mappings[order[k]]).Err? &&
                                   r.error == BadNickname(order[k], check(mappings[order[k]]).error)
  {
    var out: map<string, string> := map[];
    var i := 0;
    while i < |order|
      invariant 0 <= i <= |order|
      invariant PrefixPasses(mappings, order, i, check)
      invariant forall u :: u in out <==> u in order[..i]
      invariant forall u :: u in out ==> check(mappings[u]) == Ok(out[u])
    {
      var u := order[i];
      var validation := check(mappings[u]);
      if validation.Err? {
        return Err(BadNickname(u, validation.error));
      }
      assert order[..i + 1] == order[..i] + [u];
      out := out[u := validation.value];
      i := i + 1;
    }
    assert order[..i] == order;
    r := Ok(out);
  }

  /**
   * The store after a successful import: the mapping replaced wholesale, each of
   * `customOrder`, `theme`, `strictMode` and `language` overwritten only when the
   * file's value is truthy.
   */
  function ImportedState(s: StoreState, f: SettingsFile<Json>, sanitized: map<string, string>): (r: StoreState)
    ensures r.nameMapping == sanitized && r.gistSettings == s.gistSettings
    ensures r.customOrder == (if f.customOrder.Some? then f.customOrder else s.customOrder)
    ensures r.theme == (if PresentString(f.theme) then f.theme else s.theme)
    ensures r.strictMode == (if f.strictMode.Some? then f.strictMode else s.strictMode)
    ensures r.language == (if PresentString(f.language) then f.language else s.language)
  {
    var afterOrder := if f.customOrder.Some? then s.(customOrder := f.customOrder) else s;
    var afterTheme := if PresentString(f.theme) then afterOrder.(theme := f.theme) else afterOrder;
    var afterStrict := if f.strictMode.Some? then afterTheme.(strictMode := f.strictMode) else afterTheme;
    var afterLanguage := if PresentString(f.language) then afterStrict.(language := f.language) else afterStrict;
    afterLanguage.(nameMapping := sanitized)
  }

  /** `mappings: {}` is a valid file and empties the stored mapping. */
  lemma EmptyMappingsEmptyTheStore(f: SettingsFile<Json>)
    requires f.HasRequiredFields() && f.mappings.value == map[]
    ensures AllImportable(f.mappings.value) && IsSanitizedCopy(f.mappings.value, map[])
    ensures forall out :: IsSanitizedCopy(f.mappings.value, out) ==> out == map[]
  {
  }

  /**
   * Importing an exported file brings back every setting the export wrote,
   * since the export fills each of them with a truthy value.
   */
  lemma ExportThenImportKeepsSettings(s: StoreState, sanitized: map<string, string>)
    ensures var r := ImportedState(s, AsJsonFile(ExportPreset(s)), sanitized);
            r.customOrder == Some(s.customOrder.GetOr([])) &&
            r.strictMode == Some(s.strictMode.GetOr(DefaultStrictMode)) &&
            r.theme == ExportPreset(s).theme && r.language == ExportPreset(s).language &&
            r.gistSettings == s.gistSettings
  {
  }

  // ---------------------------------------------------------------------------
  // The popup

  datatype AddPatternOutcome = PatternAdded | PatternRejected(error: UrlPatternError) | DuplicatePattern

  datatype AddMappingOutcome = MappingAdded | NicknameRejected(reason: NicknameError) | EmptyUsername

  datatype ImportOutcome = Imported | ImportFailed(error: ImportError)

  class Popup {
    const store: Store
    var strictModeSettings: StrictMode

    /** Start-up: `strictModeSettings` is taken from storage when it is stored. */
    constructor (store: Store)
      ensures this.store == store
      ensures strictModeSettings == store.strictMode.GetOr(DefaultStrictMode)
    {
      this.store := store;
      strictModeSettings := store.strictMode.GetOr(DefaultStrictMode);
    }

    /** `saveStrictModeSettings`: the popup's settings written to storage. */
    method SaveStrictModeSettings()
      modifies store
      ensures store.State() == old(store.State()).(strictMode := Some(strictModeSettings))
    {
      store.strictMode := Some(strictModeSettings);
    }

    /** The strict-mode toggle. */
    method ToggleStrictMode(checked: bool)
      modifies this, store
      ensures strictModeSettings == old(strictModeSettings).(enabled := checked)
      ensures store.State() == old(store.State()).(strictMode := Some(strictModeSettings))
    {
      strictModeSettings := strictModeSettings.(enabled := checked);
      SaveStrictModeSettings();
    }

    /** The add-pattern button: trim, validate, refuse a duplicate, append and save. */
    method AddUrlPattern(engine: RegexEngine, input: string) returns (outcome: AddPatternOutcome)
      modifies this, store
      ensures var v := ValidateUrlPattern(engine, Trim(input));
              var old_ := old(strictModeSettings.urlPatterns);
              (v.InvalidPattern? ==> outcome == PatternRejected(v.error)) &&
              (v.ValidPattern? && Trim(input) in old_ ==> outcome == DuplicatePattern) &&
              (v.ValidPattern? && Trim(input) !in old_ ==> outcome == PatternAdded)
      ensures outcome == PatternAdded ==>
                strictModeSettings == old(strictModeSettings).(urlPatterns := old(strictModeSettings.urlPatterns) + [Trim(input)]) &&
                store.State() == old(store.State()).(strictMode := Some(strictModeSettings))
      ensures outcome != PatternAdded ==>
                strictModeSettings == old(strictModeSettings) && store.State() == old(store.State())
      ensures Distinct(old(strictModeSettings.urlPatterns)) ==> Distinct(strictModeSettings.urlPatterns)
    {
      var pattern := Trim(input);
      var validation := ValidateUrlPattern(engine, pattern);
      if validation.InvalidPattern? {
        return PatternRejected(validation.error);
      }
      TrimmedPatternStoredAsIs(engine, input);
      if validation.sanitized in strictModeSettings.urlPatterns {
        return DuplicatePattern;
      }
      strictModeSettings := strictModeSettings.(urlPatterns := strictModeSettings.urlPatterns + [validation.sanitized]);
      SaveStrictModeSettings();
      outcome := PatternAdded;
    }

    /** A pattern's delete button: `splice(index, 1)` and save. */
    method DeleteUrlPattern(index: int)
      modifies this, store
      ensures strictModeSettings == old(strictModeSettings).(urlPatterns := SpliceOne(old(strictModeSettings.urlPatterns), index))
      ensures store.State() == old(store.State()).(strictMode := Some(strictModeSettings))
      ensures Distinct(old(strictModeSettings.urlPatterns)) ==> Distinct(strictModeSettings.urlPatterns)
    {
      if Distinct(strictModeSettings.urlPatterns) {
        SpliceKeepsDistinct(strictModeSettings.urlPatterns, index);
      }
      strictModeSettings := strictModeSettings.(urlPatterns := SpliceOne(strictModeSettings.urlPatterns, index));
      SaveStrictModeSettings();
    }

    /**
     * The add button: the nickname is validated before the username is checked;
     * only `mapping[username]` is set, to the sanitised nickname.
     */
    method AddMapping(usernameInput: string, nicknameInput: string) returns (outcome: AddMappingOutcome)
      modifies store
      ensures var v := ValidateNickname(Trim(nicknameInput));
              (v.Rejected? ==> outcome == NicknameRejected(v.reason)) &&
              (v.Accepted? && Trim(usernameInput) == "" ==> outcome == EmptyUsername) &&
              (v.Accepted? && Trim(usernameInput) != "" ==> outcome == MappingAdded)
      ensures outcome == MappingAdded ==>
                store.State() == old(store.State()).(nameMapping :=
                  old(store.nameMapping)[Trim(usernameInput) := Sanitize(Trim(nicknameInput))])
      ensures outcome != MappingAdded ==> store.State() == old(store.State())
    {
      var username := Trim(usernameInput);
      var nickname := Trim(nicknameInput);
      var validation := ValidateNickname(nickname);
      if validation.Rejected? {
        return NicknameRejected(validation.reason);
      }
      if username == "" {
        return EmptyUsername;
      }
      store.nameMapping := store.nameMapping[username := validation.sanitized];
      outcome := MappingAdded;
    }

    /** The edit button: a non-blank trimmed nickname is stored as typed, without validation. */
    method EditMapping(username: string, input: string)
      modifies store
      ensures Trim(input) != "" ==>
                store.State() == old(store.State()).(nameMapping := old(store.nameMapping)[username := Trim(input)])
      ensures Trim(input) == "" ==> store.State() == old(store.State())
    {
      var newNickname := Trim(input);
      if newNickname != "" {
        store.nameMapping := store.nameMapping[username := newNickname];
      }
    }

    /** A row's delete button, after the confirmation dialog. */
    method DeleteMapping(username: string, confirmed: bool)
      modifies store
      ensures store.State() == old(store.State()).(nameMapping :=
                if confirmed then old(store.nameMapping) - {username} else old(store.nameMapping))
    {
      if confirmed {
        store.nameMapping := store.nameMapping - {username};
      }
    }

    /** The bulk delete button: every selected username is removed, nothing else. */
    method BulkDelete(selected: seq<string>, confirmed: bool)
      modifies store
      ensures selected != [] && confirmed ==>
                store.State() == old(store.State()).(nameMapping :=
                  map u | u in old(store.nameMapping) && u !in selected :: old(store.nameMapping)[u])
      ensures !(selected != [] && confirmed) ==> store.State() == old(store.State())
    {
      if |selected| == 0 || !confirmed {
        return;
      }
      var mapping := store.nameMapping;
      var i := 0;
      while i < |selected|
        invariant 0 <= i <= |selected|
        invariant mapping == map u | u in old(store.nameMapping) && u !in selected[..i] :: old(store.nameMapping)[u]
      {
        assert selected[..i + 1] == selected[..i] + [selected[i]];
        mapping := mapping - {selected[i]};
        i := i + 1;
      }
      assert selected[..i] == selected;
      store.nameMapping := mapping;
    }

    /** The export button: the preset written to the downloaded file. */
    method ExportSettings() returns (preset: SettingsFile<string>)
      ensures preset == ExportPreset(store.State())
    {
      preset := ExportPreset(store.State());
    }

    /**
     * The load button: nothing is written unless the file is complete and every
     * nickname passes; then the mapping is replaced and the other settings overlaid.
     */
    method ImportPreset(fileSelected: bool, parsed: Option<SettingsFile<Json>>, order: seq<string>) returns (outcome: ImportOutcome)
      requires parsed.Some? && parsed.value.mappings.Some? ==> ListsKeys(parsed.value.mappings.value, order)
      modifies this, store
      ensures outcome == Imported <==>
                fileSelected && parsed.Some? && parsed.value.HasRequiredFields() &&
                AllImportable(parsed.value.mappings.value)
      ensures outcome == Imported ==>
                IsSanitizedCopy(parsed.value.mappings.value, store.nameMapping) &&
                store.State() == ImportedState(old(store.State()), parsed.value, store.nameMapping) &&
                strictModeSettings == parsed.value.strictMode.GetOr(old(strictModeSettings))
      ensures outcome != Imported ==>
                store.State() == old(store.State()) && strictModeSettings == old(strictModeSettings)
    {
      if !fileSelected {
        return ImportFailed(NoFileSelected);
      }
      if parsed.None? {
        return ImportFailed(NotParsed);
      }
      var preset := parsed.value;
      if !preset.HasRequiredFields() {
        return ImportFailed(BadFormat);
      }
      var sanitized := SanitizeMappings(preset.mappings.value, order, ImportNickname);
      if sanitized.Err? {
        return ImportFailed(sanitized.error);
      }
      store.nameMapping := sanitized.value;
      if preset.customOrder.Some? {
        store.customOrder := preset.customOrder;
      }
      if PresentString(preset.theme) {
        store.theme := preset.theme;
      }
      if preset.strictMode.Some? {
        strictModeSettings := preset.strictMode.value;
        store.strictMode := Some(strictModeSettings);
      }
      if PresentString(preset.language) {
        store.language := preset.language;
      }
      outcome := Imported;
    }
  }
}
