/**
 * The background service worker (background.js): the Gist synchronisation, the
 * auto-sync alarm, the context-menu entry and the runtime message dispatch.
 *
 * The network, `JSON.parse`, the clock and the tab and window APIs are inputs:
 * the fetched Gist, the parser, the two timestamps and the tab facts arrive as
 * parameters, and the windows the worker opens are recorded in a field.
 */
module Background {
  import opened JsCore
  import opened Storage

  // ---------------------------------------------------------------------------
  // syncWithGist: what the network gives back

  /** One file of a Gist, in `Object.keys(gistData.files)` order. */
  datatype GistFile = GistFile(name: string, content: string)

  /** The outcome of `fetch` on the Gist API. */
  datatype FetchResponse =
    | NetworkFailure(message: string)                 // `fetch` itself rejected
    | HttpError(status: nat, statusText: string)      // `!response.ok`
    | GistData(files: seq<GistFile>)

  datatype SyncError =
    | NoGistId                                        // no settings, or an empty `gistId`
    | FetchRejected(message: string)
    | FetchFailed(status: nat, statusText: string)
    | NoFiles
    | ParseFailed(cause: string)                      // rethrown from the parse/merge block

  const NoGistIdMessage := "Gist IDが設定されていません"
  const InvalidFormatMessage := "無効な設定ファイル形式です"
  const ParseFailedPrefix := "設定の解析に失敗: "
  const SyncDoneMessage := "同期が完了しました"

  function DigitChar(d: nat): (c: char)
    requires d < 10
    ensures '0' <= c <= '9'
  {
    ['0', '1', '2', '3', '4', '5', '6', '7', '8', '9'][d]
  }

  /** The decimal text of a status code, as a template literal writes it. */
  function NatToString(n: nat): (r: string)
    ensures r != []
    ensures forall i :: 0 <= i < |r| ==> '0' <= r[i] <= '9'
  {
    if n < 10 then [DigitChar(n)] else NatToString(n / 10) + [DigitChar(n % 10)]
  }

  /** The text written for a status code reads back as that code. */
  lemma {:induction false} NatToStringValue(n: nat)
    ensures DigitsValue(NatToString(n)) == n
  {
    var r := NatToString(n);
    if n >= 10 {
      NatToStringValue(n / 10);
      assert r[..|r| - 1] == NatToString(n / 10);
    }
  }

  /** The `message` of the error `syncWithGist` throws. */
  function SyncErrorMessage(e: SyncError): string {
    match e
    case NoGistId => NoGistIdMessage
    case FetchRejected(m) => m
    case FetchFailed(status, text) => "Gistの取得に失敗: " + NatToString(status) + " " + text
    case NoFiles => "Gistにファイルが見つかりません"
    case ParseFailed(cause) => ParseFailedPrefix + cause
  }

  /** A failure inside the parse/merge block reaches the caller with the fixed prefix and its own message. */
  lemma ParseErrorsArePrefixed(cause: string)
    ensures var m := SyncErrorMessage(ParseFailed(cause));
            ParseFailedPrefix <= m && m[|ParseFailedPrefix|..] == cause
  {
    var m := SyncErrorMessage(ParseFailed(cause));
    assert m == ParseFailedPrefix + cause;
  }

  // ---------------------------------------------------------------------------
  // The file taken from the Gist

  /** The index of the first file whose name ends with `.json`. */
  function FirstJsonFile(files: seq<GistFile>): (r: Option<nat>)
    ensures r.Some? ==> r.value < |files| && EndsWith(files[r.value].name, ".json")
    ensures r.Some? ==> forall k :: 0 <= k < r.value ==> !EndsWith(files[k].name, ".json")
    ensures r.None? ==> forall k :: 0 <= k < |files| ==> !EndsWith(files[k].name, ".json")
  {
    if files == [] then None
    else if EndsWith(files[0].name, ".json") then Some(0)
    else match FirstJsonFile(files[1..])
      case None => None
      case Some(k) => Some(k + 1)
  }

  /**
   * `fileNames.find(name => name.endsWith('.json')) || fileNames[0]`: the first
   * `.json` file, or else the first file; nothing when there are no files.
   */
  function SelectFile(files: seq<GistFile>): (r: Option<nat>)
    ensures r.None? <==> files == []
    ensures r.Some? ==> r.value < |files|
    ensures (exists k :: 0 <= k < |files| && EndsWith(files[k].name, ".json")) ==>
              r.Some? && EndsWith(files[r.value].name, ".json") &&
              forall k :: 0 <= k < r.value ==> !EndsWith(files[k].name, ".json")
    ensures files != [] && (forall k :: 0 <= k < |files| ==> !EndsWith(files[k].name, ".json")) ==>
              r == Some(0)
  {
    if files == [] then None
    else match FirstJsonFile(files)
      case Some(k) => Some(k)
      case None => Some(0)
  }

  // ---------------------------------------------------------------------------
  // The sync as a specification

  /** `!gistSettings || !gistSettings.gistId`. */
  predicate HasGistId(gs: Option<GistSettings>) {
    gs.Some? && gs.value.gistId != ""
  }

  /**
   * Every check the sync makes before it writes, in the source's order: the
   * stored Gist ID, the response, a file to read, a parse, and the two required
   * fields. `parse` is `JSON.parse`, failing with its error message.
   */
  function SyncPayload(gs: Option<GistSettings>, fetched: FetchResponse,
                       parse: string -> Result<SettingsFile<string>, string>): (r: Result<SettingsFile<string>, SyncError>)
    ensures !HasGistId(gs) ==> r == Err(NoGistId)
    ensures r.Ok? ==> r.value.HasRequiredFields() && HasGistId(gs) && fetched.GistData?
    ensures r.Ok? ==> fetched.GistData? && SelectFile(fetched.files).Some? &&
                      parse(fetched.files[SelectFile(fetched.files).value].content) == Ok(r.value)
  {
    if !HasGistId(gs) then Err(NoGistId)
    else match fetched
      case NetworkFailure(m) => Err(FetchRejected(m))
      case HttpError(status, text) => Err(FetchFailed(status, text))
      case GistData(files) =>
        match SelectFile(files)
        case None => Err(NoFiles)
        case Some(i) =>
          match parse(files[i].content)
          case Err(m) => Err(ParseFailed(m))
          case Ok(settings) =>
            if !settings.HasRequiredFields() then Err(ParseFailed(InvalidFormatMessage))
            else Ok(settings)
  }

  /** Without a stored Gist ID the sync fails before anything is fetched: the response plays no part. */
  lemma NoGistIdFailsFirst(gs: Option<GistSettings>, fetched: FetchResponse, fetched': FetchResponse,
                           parse: string -> Result<SettingsFile<string>, string>)
    requires !HasGistId(gs)
    ensures SyncPayload(gs, fetched, parse) == SyncPayload(gs, fetched', parse) == Err(NoGistId)
  {
  }

  /** A payload missing `version` or `mappings` fails with the prefixed format message. */
  lemma MissingFieldsRejected(gs: Option<GistSettings>, files: seq<GistFile>,
                              parse: string -> Result<SettingsFile<string>, string>)
    requires HasGistId(gs) && files != []
    requires parse(files[SelectFile(files).value].content).Ok?
    requires !parse(files[SelectFile(files).value].content).value.HasRequiredFields()
    ensures SyncPayload(gs, GistData(files), parse) == Err(ParseFailed(InvalidFormatMessage))
    ensures SyncErrorMessage(SyncPayload(gs, GistData(files), parse).error) == ParseFailedPrefix + InvalidFormatMessage
  {
  }

  /** `{ ...gistSettings.autoSync, lastCheck: now }`: a missing `autoSync` spreads as `{}`. */
  function CheckedAutoSync(a: Option<AutoSync>, checkTime: string): (r: AutoSync)
    ensures r.lastCheck == Some(checkTime)
    ensures r.enabled == (a.Some? && a.value.enabled)
  {
    a.GetOr(AutoSync(false, None)).(lastCheck := Some(checkTime))
  }

  /**
   * The single `chrome.storage.local.set` of a successful sync: the mapping
   * replaced wholesale, `customOrder`, `theme` and `strictMode` taken from the
   * payload when truthy, and the two timestamps written into the Gist settings.
   */
  function MergedState(s: StoreState, f: SettingsFile<string>, syncTime: string, checkTime: string): (r: StoreState)
    requires s.gistSettings.Some? && f.mappings.Some?
  {
    var gs := s.gistSettings.value;
    StoreState(
      f.mappings.value,
      if f.customOrder.Some? then f.customOrder else s.customOrder,
      if PresentString(f.theme) then f.theme else s.theme,
      if f.strictMode.Some? then f.strictMode else s.strictMode,
      s.language,
      Some(gs.(lastSyncTimestamp := Some(syncTime),
               autoSync := Some(CheckedAutoSync(gs.autoSync, checkTime)))))
  }

  /**
   * What the merge writes: the payload's mapping with no per-key union and no
   * nickname check, the three optional fields overlaid when truthy, the
   * language left alone.
   */
  lemma MergeFields(s: StoreState, f: SettingsFile<string>, syncTime: string, checkTime: string)
    requires s.gistSettings.Some? && f.mappings.Some?
    ensures var r := MergedState(s, f, syncTime, checkTime);
            r.nameMapping == f.mappings.value &&
            (forall u :: u in s.nameMapping && u !in f.mappings.value ==> u !in r.nameMapping) &&
            r.customOrder == (if f.customOrder.Some? then f.customOrder else s.customOrder) &&
            r.theme == (if PresentString(f.theme) then f.theme else s.theme) &&
            r.strictMode == (if f.strictMode.Some? then f.strictMode else s.strictMode) &&
            r.language == s.language
  {
  }

  /**
   * Apart from the two timestamps, the Gist settings survive the sync: the ID,
   * the auto-sync switch and every other field.
   */
  lemma MergeKeepsGistSettings(s: StoreState, f: SettingsFile<string>, syncTime: string, checkTime: string)
    requires s.gistSettings.Some? && f.mappings.Some?
    ensures var g := s.gistSettings.value;
            var g' := MergedState(s, f, syncTime, checkTime).gistSettings;
            g'.Some? && g'.value.gistId == g.gistId &&
            g'.value.lastSyncTimestamp == Some(syncTime) &&
            g'.value.autoSync == Some(CheckedAutoSync(g.autoSync, checkTime)) &&
            g'.value == g.(lastSyncTimestamp := Some(syncTime), autoSync := g'.value.autoSync) &&
            (g.autoSync.Some? ==> g'.value.autoSync.value == g.autoSync.value.(lastCheck := Some(checkTime)))
  {
  }

  /** Syncing the same payload again changes nothing but the timestamps. */
  lemma MergeTwiceIsMergeOnce(s: StoreState, f: SettingsFile<string>, t1: string, t2: string, t3: string, t4: string)
    requires s.gistSettings.Some? && f.mappings.Some?
    ensures MergedState(MergedState(s, f, t1, t2), f, t3, t4) == MergedState(s, f, t3, t4)
  {
  }

  // ---------------------------------------------------------------------------
  // setupAutoSync

  const AlarmName := "gistSyncAlarm"

  /** `delayInMinutes: 1`: a new alarm first fires one minute after it is created. */
  const FirstDelay := 1

  /** `periodInMinutes: 24 * 60`: once fired, the alarm fires again a day later. */
  const SyncPeriod := 24 * 60

  /** A registered `chrome.alarms` alarm; `scheduledTime` is the minute it next fires. */
  datatype Alarm = Alarm(name: string, periodInMinutes: nat, scheduledTime: int)

  /** `gistSettings.autoSync?.enabled && gistSettings.gistId`. */
  predicate AutoSyncArmed(gs: Option<GistSettings>) {
    HasGistId(gs) && gs.value.autoSync.Some? && gs.value.autoSync.value.enabled
  }

  /**
   * The alarm `setupAutoSync` leaves behind when it runs at minute `now`: any
   * earlier alarm is cleared, and an armed auto-sync gets a new one, first due a
   * minute later.
   */
  function ExpectedAlarm(gs: Option<GistSettings>, now: int): (r: Option<Alarm>)
    ensures r.Some? <==> AutoSyncArmed(gs)
    ensures r.Some? ==> r.value.name == AlarmName && r.value.periodInMinutes == SyncPeriod &&
                        r.value.scheduledTime == now + FirstDelay
  {
    if AutoSyncArmed(gs) then Some(Alarm(AlarmName, SyncPeriod, now + FirstDelay)) else None
  }

  /** What the browser does with a periodic alarm once it has fired: it is due again one period later. */
  function NextFiring(a: Alarm): (r: Alarm)
    ensures r.name == a.name && r.periodInMinutes == a.periodInMinutes
    ensures r.scheduledTime == a.scheduledTime + a.periodInMinutes
  {
    a.(scheduledTime := a.scheduledTime + a.periodInMinutes)
  }

  /**
   * A sync keeps the ID and the switch: auto-sync stays armed exactly when it
   * was. The write still changes `gistSettings`, and the alarm that follows is
   * the subject of `AlarmSyncRestartsDelay`.
   */
  lemma MergeKeepsArming(s: StoreState, f: SettingsFile<string>, syncTime: string, checkTime: string)
    requires s.gistSettings.Some? && f.mappings.Some?
    ensures AutoSyncArmed(MergedState(s, f, syncTime, checkTime).gistSettings) == AutoSyncArmed(s.gistSettings)
  {
  }

  /**
   * As written, every successful sync restarts the alarm's one-minute delay. The
   * sync by the alarm at minute `now` writes `gistSettings` with a new
   * `lastSyncTimestamp`, `storage.onChanged` re-runs `setupAutoSync`, and the
   * next sync is due at `now + 1` instead of a day later: armed auto-sync syncs
   * every minute or so, not daily.
   */
  lemma AlarmSyncRestartsDelay(s: StoreState, f: SettingsFile<string>, syncTime: string, checkTime: string, now: int)
    requires AutoSyncArmed(s.gistSettings) && f.mappings.Some?
    requires s.gistSettings.value.lastSyncTimestamp != Some(syncTime)
    ensures var s' := MergedState(s, f, syncTime, checkTime);
            s'.gistSettings != s.gistSettings &&
            ExpectedAlarm(s'.gistSettings, now).Some? &&
            ExpectedAlarm(s'.gistSettings, now).value.scheduledTime == now + FirstDelay
  {
    var s' := MergedState(s, f, syncTime, checkTime);
    assert s'.gistSettings.value.lastSyncTimestamp == Some(syncTime);
    MergeKeepsArming(s, f, syncTime, checkTime);
  }

  /**
   * The evident intent of `setupAutoSync`: an armed auto-sync keeps the alarm it
   * already has, and only a newly armed one gets a fresh alarm a minute later.
   */
  function KeptAlarm(gs: Option<GistSettings>, current: Option<Alarm>, now: int): (r: Option<Alarm>)
    ensures r.Some? <==> AutoSyncArmed(gs)
    ensures AutoSyncArmed(gs) && current.Some? ==> r == current
    ensures current.None? ==> r == ExpectedAlarm(gs, now)
  {
    if !AutoSyncArmed(gs) then None
    else if current.Some? then current
    else ExpectedAlarm(gs, now)
  }

  /**
   * With the intended rule, the sync by the alarm due at minute `now` leaves the
   * next sync a full period later, whatever the storage change that follows.
   */
  lemma KeptAlarmSyncsDaily(s: StoreState, f: SettingsFile<string>, syncTime: string, checkTime: string,
                            a: Alarm, now: int)
    requires AutoSyncArmed(s.gistSettings) && f.mappings.Some?
    requires a.name == AlarmName && a.periodInMinutes == SyncPeriod && a.scheduledTime == now
    ensures var s' := MergedState(s, f, syncTime, checkTime);
            KeptAlarm(s'.gistSettings, Some(NextFiring(a)), now) == Some(Alarm(AlarmName, SyncPeriod, now + SyncPeriod))
  {
    MergeKeepsArming(s, f, syncTime, checkTime);
  }

  // ---------------------------------------------------------------------------
  // The context menu

  const ContextMenuId := "addNickname"

  /** `info.selectionText.trim().replace(/^@/, '')`: the trimmed selection with one leading `@` removed. */
  function ContextMenuUsername(selection: string): (r: string)
    ensures var t := Trim(selection);
            (t != [] && t[0] == '@' ==> r == t[1..]) && (t == [] || t[0] != '@' ==> r == t)
  {
    var t := Trim(selection);
    if t != [] && t[0] == '@' then t[1..] else t
  }

  /** Only one `@` is removed, and nothing is left exactly when the trimmed selection is empty or a lone `@`. */
  lemma ContextMenuUsernameFacts(selection: string)
    ensures var t := Trim(selection);
            var r := ContextMenuUsername(selection);
            (r == "" <==> t == "" || t == "@") &&
            t == (if |r| < |t| then "@" + r else r)
  {
    var t := Trim(selection);
    var r := ContextMenuUsername(selection);
    if t != [] && t[0] == '@' {
      assert t == [t[0]] + t[1..];
    }
  }

  // ---------------------------------------------------------------------------
  // The message dispatch

  /** The query of a `quick-add.html` window: the username, and the `nickname` parameter when one is added. */
  datatype QuickAddRequest = QuickAddRequest(username: string, nickname: Option<string>)

  /** A runtime message, by its `action`. */
  datatype Message =
    | SyncRequest(gistId: Json)
    | ChangeLanguage(locale: string)
    | OpenQuickAddPopup(username: Option<string>, currentNickname: Option<string>)
    | NicknameAdded(addedUsername: string, addedNickname: string)
    | ClosePopup
    | Unknown(action: string)

  /** What the worker learns from the browser while answering a message. */
  datatype Environment = Environment(
    fetched: FetchResponse,
    parse: string -> Result<SettingsFile<string>, string>,
    syncTime: string,
    checkTime: string,
    activeTabId: Option<int>,                         // `tabs[0].id` of the active tab
    senderWindowId: Option<int>,                      // `sender.tab.windowId`
    windowRemoveFailed: bool)                         // `chrome.runtime.lastError` after `windows.remove`

  /** The object passed to `sendResponse`. */
  datatype Reply = Reply(success: bool, message: Option<string>, error: Option<string>)

  const UnknownActionReply := Reply(false, Some("不明なアクション"), None)

  /** The `quick-add.html` query for a user-card button: `nickname` only when non-empty. */
  function QuickAddFromMessage(username: string, currentNickname: Option<string>): (r: QuickAddRequest)
    ensures r.username == username
    ensures r.nickname.Some? <==> PresentString(currentNickname)
    ensures r.nickname.Some? ==> r.nickname == currentNickname
  {
    QuickAddRequest(username, if PresentString(currentNickname) then currentNickname else None)
  }

  // ---------------------------------------------------------------------------
  // The worker

  class Worker {
    const store: Store
    /** `chrome.i18n.getMessage`, for the one localised reply. */
    const localize: string -> string
    /** The module-level `currentLanguage`. */
    var currentLanguage: string
    /** The `gistSyncAlarm`, when one is registered. */
    var alarm: Option<Alarm>
    /** The quick-add windows opened so far, in order. */
    var windows: seq<QuickAddRequest>

    constructor (store: Store, localize: string -> string, alarm: Option<Alarm>)
      ensures this.store == store && this.localize == localize && this.alarm == alarm
      ensures currentLanguage == "auto" && windows == []
    {
      this.store := store;
      this.localize := localize;
      this.alarm := alarm;
      currentLanguage := "auto";
      windows := [];
    }

    /** `syncWithGist`: every check first; one write of the merged state only on success. */
    method SyncWithGist(fetched: FetchResponse, parse: string -> Result<SettingsFile<string>, string>,
                        syncTime: string, checkTime: string) returns (r: Result<string, SyncError>)
      modifies store
      ensures var p := SyncPayload(old(store.gistSettings), fetched, parse);
              (r.Ok? <==> p.Ok?) &&
              (p.Ok? ==> r.value == SyncDoneMessage &&
                         store.State() == MergedState(old(store.State()), p.value, syncTime, checkTime)) &&
              (p.Err? ==> r.error == p.error && store.State() == old(store.State()))
    {
      var gistSettings := store.gistSettings;
      if gistSettings.None? || gistSettings.value.gistId == "" {
        return Err(NoGistId);
      }
      if fetched.NetworkFailure? {
        return Err(FetchRejected(fetched.message));
      }
      if fetched.HttpError? {
        return Err(FetchFailed(fetched.status, fetched.statusText));
      }
      var fileNames := fetched.files;
      if |fileNames| == 0 {
        return Err(NoFiles);
      }
      var fileName := SelectFile(fileNames).value;
      var parsed := parse(fileNames[fileName].content);
      if parsed.Err? {
        return Err(ParseFailed(parsed.error));
      }
      var settings := parsed.value;
      if !settings.HasRequiredFields() {
        return Err(ParseFailed(InvalidFormatMessage));
      }
      var gs := gistSettings.value;
      store.nameMapping := settings.mappings.value;
      if settings.customOrder.Some? {
        store.customOrder := settings.customOrder;
      }
      if PresentString(settings.theme) {
        store.theme := settings.theme;
      }
      if settings.strictMode.Some? {
        store.strictMode := settings.strictMode;
      }
      store.gistSettings := Some(gs.(lastSyncTimestamp := Some(syncTime),
                                     autoSync := Some(CheckedAutoSync(gs.autoSync, checkTime))));
      r := Ok(SyncDoneMessage);
    }

    /** `setupAutoSync` at minute `now`: the alarm is cleared, then created again exactly when auto-sync is armed. */
    method SetupAutoSync(now: int)
      modifies this`alarm
      ensures alarm == ExpectedAlarm(store.gistSettings, now)
    {
      alarm := None;
      var gs := store.gistSettings;
      if gs.Some? && gs.value.autoSync.Some? && gs.value.autoSync.value.enabled && gs.value.gistId != "" {
        alarm := Some(Alarm(AlarmName, SyncPeriod, now + FirstDelay));
      }
    }

    /** `chrome.storage.onChanged`: a change to `gistSettings` in local storage re-runs `setupAutoSync`. */
    method OnStorageChanged(areaName: string, gistSettingsChanged: bool, now: int)
      modifies this`alarm
      ensures alarm == if areaName == "local" && gistSettingsChanged then ExpectedAlarm(store.gistSettings, now)
                       else old(alarm)
    {
      if areaName == "local" && gistSettingsChanged {
        SetupAutoSync(now);
      }
    }

    /** `getCurrentLanguage`: the stored language, or `'auto'` when none is stored. */
    method RefreshCurrentLanguage()
      modifies this`currentLanguage
      ensures currentLanguage == if PresentString(store.language) then store.language.value else "auto"
    {
      currentLanguage := if PresentString(store.language) then store.language.value else "auto";
    }

    /**
     * The second `onStartup` listener: `setupAutoSync`, then an immediate
     * `syncWithGist` when auto-sync is armed. `synced` is that sync's result
     * when it ran.
     */
    method SetupAndSync(env: Environment, now: int) returns (synced: Option<Result<string, SyncError>>)
      modifies this`alarm, store
      ensures alarm == ExpectedAlarm(old(store.gistSettings), now)
      ensures synced.Some? <==> AutoSyncArmed(old(store.gistSettings))
      ensures synced.None? ==> store.State() == old(store.State())
      ensures synced.Some? ==>
                var p := SyncPayload(old(store.gistSettings), env.fetched, env.parse);
                (synced.value.Ok? <==> p.Ok?) &&
                store.State() == if p.Ok? then MergedState(old(store.State()), p.value, env.syncTime, env.checkTime)
                                 else old(store.State())
    {
      SetupAutoSync(now);
      synced := None;
      var gs := store.gistSettings;
      if gs.Some? && gs.value.autoSync.Some? && gs.value.autoSync.value.enabled && gs.value.gistId != "" {
        var result := SyncWithGist(env.fetched, env.parse, env.syncTime, env.checkTime);
        synced := Some(result);
      }
    }

    /**
     * `chrome.runtime.onStartup`, both listeners: the stored language is read,
     * the alarm is set up, and an armed auto-sync also syncs at once.
     */
    method OnStartup(env: Environment, now: int) returns (synced: Option<Result<string, SyncError>>)
      modifies this`alarm, this`currentLanguage, store
      ensures alarm == ExpectedAlarm(old(store.gistSettings), now)
      ensures currentLanguage == if PresentString(old(store.language)) then old(store.language).value else "auto"
      ensures synced.Some? <==> AutoSyncArmed(old(store.gistSettings))
      ensures synced.None? ==> store.State() == old(store.State())
      ensures synced.Some? ==>
                var p := SyncPayload(old(store.gistSettings), env.fetched, env.parse);
                (synced.value.Ok? <==> p.Ok?) &&
                store.State() == if p.Ok? then MergedState(old(store.State()), p.value, env.syncTime, env.checkTime)
                                 else old(store.State())
    {
      RefreshCurrentLanguage();
      synced := SetupAndSync(env, now);
    }

    /**
     * `chrome.runtime.onInstalled`, both listeners: an install or an update reads
     * the stored language, and nothing else changes. The other listener only
     * creates the context-menu item, which is not modelled; neither sets up the
     * alarm or syncs.
     */
    method OnInstalled(reason: string)
      modifies this`currentLanguage
      ensures currentLanguage == if reason == "install" || reason == "update" then
                                   (if PresentString(store.language) then store.language.value else "auto")
                                 else old(currentLanguage)
      ensures alarm == old(alarm)
      ensures store.State() == old(store.State())
    {
      if reason == "install" || reason == "update" {
        RefreshCurrentLanguage();
      }
    }

    /** `chrome.alarms.onAlarm`: only the `gistSyncAlarm` starts a sync; `synced` is its result when it ran. */
    method OnAlarm(name: string, env: Environment) returns (synced: Option<Result<string, SyncError>>)
      modifies store
      ensures synced.Some? <==> name == AlarmName
      ensures synced.None? ==> store.State() == old(store.State())
      ensures synced.Some? ==>
                var p := SyncPayload(old(store.gistSettings), env.fetched, env.parse);
                (synced.value.Ok? <==> p.Ok?) &&
                store.State() == if p.Ok? then MergedState(old(store.State()), p.value, env.syncTime, env.checkTime)
                                 else old(store.State())
    {
      synced := None;
      if name == AlarmName {
        var result := SyncWithGist(env.fetched, env.parse, env.syncTime, env.checkTime);
        synced := Some(result);
      }
    }

    /** The context-menu click: a non-empty cleaned username opens quick-add with its current nickname, even an empty one. */
    method OnContextMenuClicked(menuItemId: string, selectionText: string)
      modifies this`windows
      ensures var u := ContextMenuUsername(selectionText);
              windows == if menuItemId == ContextMenuId && u != ""
                         then old(windows) + [QuickAddRequest(u, Some(if u in store.nameMapping then store.nameMapping[u] else ""))]
                         else old(windows)
    {
      if menuItemId == ContextMenuId {
        var username := ContextMenuUsername(selectionText);
        if username != "" {
          var mapping := store.nameMapping;
          var currentNickname := if username in mapping then mapping[username] else "";
          windows := windows + [QuickAddRequest(username, Some(currentNickname))];
        }
      }
    }

    /** `chrome.runtime.onMessage`: every action gets a reply; an unknown one gets `success: false`. */
    method OnMessage(message: Message, env: Environment) returns (reply: Reply)
      modifies this`windows, this`currentLanguage, store
      ensures message.SyncRequest? && !Truthy(message.gistId) ==>
                reply == Reply(false, None, Some("Gist IDが指定されていません")) && store.State() == old(store.State())
      ensures message.SyncRequest? && Truthy(message.gistId) ==>
                var p := SyncPayload(old(store.gistSettings), env.fetched, env.parse);
                reply.success == p.Ok? &&
                (p.Ok? ==> reply.message == Some(SyncDoneMessage) &&
                           store.State() == MergedState(old(store.State()), p.value, env.syncTime, env.checkTime)) &&
                (p.Err? ==> reply.error == Some(SyncErrorMessage(p.error)) && store.State() == old(store.State()))
      ensures message.ChangeLanguage? ==>
                reply.success && currentLanguage == message.locale &&
                store.State() == old(store.State()).(language := Some(message.locale))
      ensures message.OpenQuickAddPopup? ==>
                reply.success == PresentString(message.username) &&
                windows == if PresentString(message.username)
                           then old(windows) + [QuickAddFromMessage(message.username.value, message.currentNickname)]
                           else old(windows)
      ensures message.OpenQuickAddPopup? && !PresentString(message.username) ==>
                reply == Reply(false, Some(localize("missing_username")), None)
      ensures message.NicknameAdded? ==>
                reply.success == (env.activeTabId.Some? && env.activeTabId.value != 0)
      ensures message.ClosePopup? ==>
                reply.success == (env.senderWindowId.Some? && !env.windowRemoveFailed)
      ensures message.Unknown? ==> reply == UnknownActionReply
      ensures !message.OpenQuickAddPopup? ==> windows == old(windows)
      ensures !message.ChangeLanguage? ==> currentLanguage == old(currentLanguage)
      ensures !message.SyncRequest? && !message.ChangeLanguage? ==> store.State() == old(store.State())
    {
      match message
      case SyncRequest(gistId) =>
        if !Truthy(gistId) {
          return Reply(false, None, Some("Gist IDが指定されていません"));
        }
        var result := SyncWithGist(env.fetched, env.parse, env.syncTime, env.checkTime);
        if result.Ok? {
          reply := Reply(true, Some(result.value), None);
        } else {
          reply := Reply(false, None, Some(SyncErrorMessage(result.error)));
        }
      case ChangeLanguage(locale) =>
        store.language := Some(locale);
        currentLanguage := locale;
        reply := Reply(true, Some("言語が変更されました"), None);
      case OpenQuickAddPopup(username, currentNickname) =>
        if PresentString(username) {
          windows := windows + [QuickAddFromMessage(username.value, currentNickname)];
          reply := Reply(true, None, None);
        } else {
          reply := Reply(false, Some(localize("missing_username")), None);
        }
      case NicknameAdded(_, _) =>
        if env.activeTabId.Some? && env.activeTabId.value != 0 {
          reply := Reply(true, Some("ニックネームが更新されました"), None);
        } else {
          reply := Reply(false, Some("アクティブなタブが見つかりませんでした"), None);
        }
      case ClosePopup =>
        if env.senderWindowId.None? {
          reply := Reply(false, Some("No sender.tab.windowId found."), None);
        } else if env.windowRemoveFailed {
          reply := Reply(false, Some("Error closing window."), None);
        } else {
          reply := Reply(true, None, None);
        }
      case Unknown(_) =>
        reply := UnknownActionReply;
    }

  }
}
