# GitHub Nickname Wizard, modelled in Dafny

GitHub Nickname Wizard is a browser extension. It shows a personal nickname next to GitHub usernames. Its parts are:

- **The popup** (`popup.js`) edits the username → nickname mapping. It also edits the "strict mode" URL patterns and exports and imports the settings as a JSON preset.
- **The content script** (`content.js`) decorates user links on GitHub pages as `username ( nickname ) `. Strict mode restricts this to the URLs that match a pattern.
- **The background worker** (`background.js`) does the following:
  - pulls settings from a Gist;
  - schedules the auto-sync alarm, meant to fire daily (see Findings);
  - opens the quick-add window from the context menu or a user card;
  - answers runtime messages.
- **The quick-add window** (`quick-add.js`) stores one nickname for one user.
- **The localisation helper** (`js/i18n.js`) picks the locale, loads custom messages and fills `$n` placeholders.

The model is a set of Dafny modules that follow these files:

| module | file | models |
|---|---|---|
| `JsCore` | `js_core.dfy` | the JavaScript built-ins the extension relies on: truthiness, `String.prototype.trim` with ECMAScript's white-space set, ASCII `\w` and `/i`, `includes`, single-character `replace(/c/g, …)`, UTF-16 `length` |
| `Storage` | `storage.dfy` | `chrome.storage.local` as a `Store` object whose fields the handlers overwrite, and the settings-file record |
| `Nickname` | `nickname.dfy` | the popup's `sanitizeNickname` and `validateNickname` |
| `UrlFilter` | `url_filter.dfy` | `isUrlMatched`, `shouldApplyNicknames` and `isOrgMemberListPage` |
| `Decoration` | `decoration.dfy` | the general-link and hovercard passes of `injectNicknames` |
| `OrgMembers` | `org_members.dfy` | `processOrgMemberLinks` |
| `ContentPage` | `content_script.dfy` | the content script's state: its settings and its links; the initial run and the `strictModeUpdated` re-run |
| `PopupPage` | `popup.dfy` | the popup's list filter, pattern validation, mapping and pattern edits, export and import |
| `Background` | `background.dfy` | `syncWithGist`, `setupAutoSync`, the context menu and the message handler |
| `I18n` | `i18n.dfy` | `applySubstitutions`, `getMessage`, `getCurrentLocale`, `initializeI18n` and the language selector |
| `QuickAdd` | `quick_add.dfy` | the quick-add window and its own, shorter `sanitizeNickname` |

**How state is modelled.** Browser storage is a `Store` object. A handler that writes storage is a method that `modifies` the store. Its postcondition states the whole new store state as an update of the old one.

**Parameters stand for the outside world.** Each is a parameter of the handler that needs it:

- the `fetch` response;
- `JSON.parse`;
- the two clock readings of a sync, and the minute at which the alarm is set up;
- the regular-expression engine used for `regex:` patterns;
- the browser's message catalogue;
- the order in which `Object.entries` lists a map.

Where the extension changes the page, the model keeps the observable result as a field:

- the text of a link and its `data-nickname-injected` mark;
- the list of quick-add windows opened;
- the alerts shown;
- the messages sent.

## Model

| member | source | states |
|---|---|---|
| Nickname.StripTags | popup.js:473 | the result contains no `<…>` tag, only characters of the input, and equals the input when it has no `<` |
| Nickname.Sanitize | popup.js:471-484 | a sanitized nickname contains none of `<`, `>`, `"`, `'` |
| Nickname.EscapeHtmlNoLt | popup.js:476-481 | after the five chained replacements no `<` is left |
| Nickname.EscapeHtmlNoGt | popup.js:476-481 | after the five chained replacements no `>` is left |
| Nickname.EscapeHtmlNoQuotes | popup.js:476-481 | after the five chained replacements no `"` or `'` is left |
| Nickname.EscapeHtmlAppend | popup.js:476-481 | the escape chain distributes over concatenation |
| Nickname.EscapeHtmlIsSinglePass | popup.js:476-481 | the five successive global replacements equal escaping each character once (the `&amp;` step runs first, so no entity is escaped twice) |
| Nickname.UnescapeEscapeEach | popup.js:476-481 | per-character escaping is inverted by entity decoding |
| Nickname.SanitizeRoundTrip | popup.js:471-484 | decoding a sanitized nickname gives back exactly the tag-stripped input |
| Nickname.SanitizePlain | popup.js:471-484 | a name without `&<>"'` is stored unchanged |
| Nickname.EscapeEachGrows | popup.js:476-481 | escaping never shortens, and strictly lengthens a name containing `&` |
| Nickname.SanitizeIsNotIdempotent | popup.js:471-484 | sanitizing an already sanitized nickname that contains `&` changes it again |
| Nickname.EscapeHtml | popup.js:476-481 | the five chained global replacements, `&` first; its meaning is stated by the escape lemmas above |
| Nickname.WordRun | popup.js:509 | the `\w+` run at the start of a string: all word characters, followed by a non-word character or the end |
| Nickname.SpaceRun | popup.js:510-515 | the `\s*` run at the start of a string: all white space, followed by a non-space or the end |
| Nickname.MatchesAt | popup.js:504-525 | one pattern matches the lower-cased name at an index: a literal text, `on` + the longest `\w` run (at least one) + `=`, or a function name + the longest `\s` run + `(` |
| Nickname.PatternMatches | popup.js:504-525 | `pattern.test(name)` with `/i`: the pattern matches at some index of the lower-cased name |
| Nickname.IsDangerous | popup.js:504-525 | `dangerousPatterns.some(...)`: one of the eleven patterns matches |
| Nickname.WordRunExact | popup.js:509 | a run of `n` word characters followed by a non-word character is the longest `\w` run |
| Nickname.SpaceRunExact | popup.js:510-515 | a run of `n` white-space characters followed by another character is the longest `\s` run |
| Nickname.DangerIgnoresCase | popup.js:504-525 | the dangerous-pattern test (all `/i`) gives the same answer for names equal up to ASCII case |
| Nickname.LiteralAnywhereIsDangerous | popup.js:504-525 | a case-insensitive occurrence of any literal pattern (`<script>`, `javascript:`, `data:`, …) at any position makes a name dangerous |
| Nickname.EventHandlerAnywhereIsDangerous | popup.js:509 | for every name: `on` in any case, one or more word characters, then `=`, at any index, makes it dangerous |
| Nickname.CallAnywhereIsDangerous | popup.js:510-515 | for every name: `eval` or `fetch` in any case, any white space, then `(`, at any index, makes it dangerous |
| Nickname.CallMatchesAt | popup.js:510-515 | a function name, white space and `(` in any letter case match the call pattern at that index of the lower-cased text |
| Nickname.ValidateNickname | popup.js:486-531 | an accepted nickname's sanitized value is `sanitizeNickname` of the input |
| Nickname.ValidateNicknameRules | popup.js:486-531 | rejected as empty iff blank; too long iff non-blank and over 100 UTF-16 units; unsafe iff neither and dangerous; accepted iff none of these, checked in this order |
| Nickname.AcceptedNicknameIsInert | popup.js:527-530 | an accepted nickname holds no `<>"'` and decodes to the tag-stripped input |
| Nickname.LengthLimitIsOnRawInput | popup.js:495-501 | the 100-unit limit is checked on the raw input, before escaping lengthens it |
| Nickname.LiteralRejected | popup.js:518-525 | a non-blank, short-enough name containing a literal pattern is rejected as unsafe |
| Nickname.TagOnlyNameIsStoredEmpty | popup.js:486-531 | `<b>` passes validation and is stored as the empty string |
| UrlFilter.WildcardMatch | content.js:35-40 | the anchored regex built from the pattern, each `*` as `.*` and every other character literal; its meaning is stated by the next three lemmas |
| UrlFilter.WildcardMatchSound | content.js:35-40 | a wildcard match implies the glob reading (each `*` any run without line terminators, the rest literal) |
| UrlFilter.WildcardMatchComplete | content.js:35-40 | the glob reading implies a wildcard match |
| UrlFilter.WildcardMatchCorrect | content.js:35-40 | the anchored `.*` regex matches iff the glob reading holds |
| UrlFilter.WildcardWithoutStarIsEquality | content.js:35-43 | without `*` the wildcard matcher is plain equality |
| UrlFilter.StarMatchesEverything | content.js:35-40 | the pattern `*` matches every URL without line terminators |
| UrlFilter.LiteralThenStar | content.js:35-40 | `lit*` matches exactly the URLs that start with `lit` and have no line terminator after it |
| UrlFilter.IsUrlMatched | content.js:21-44 | a `regex:` pattern matches iff its source compiles and tests true; otherwise a pattern with `*` matches by the glob reading, and a pattern without one by equality |
| UrlFilter.RegexBeforeWildcard | content.js:23-32 | a `regex:` prefix takes precedence over any `*` in the source |
| UrlFilter.BrokenRegexMatchesNothing | content.js:24-31 | a `regex:` pattern that does not compile matches no URL |
| UrlFilter.OrgWildcardExample | content.js:35-40 | `https://github.com/orgs/*` matches an org people page on github.com and not one on gitlab.com |
| UrlFilter.AnyPatternMatches | content.js:62 | `some` over the patterns: true iff one of them matches |
| UrlFilter.ShouldApplyNicknames | content.js:47-63 | strict mode off: always apply; on with no patterns: never; on: apply iff some pattern matches the URL |
| UrlFilter.MorePatternsAdmitMore | content.js:47-63 | adding a pattern never removes a page from the decorated set |
| UrlFilter.IsOrgMemberListPage | content.js:194-198 | `/orgs/`, one org segment, `/`, then a team or people tail; its meaning is stated by the lemmas below |
| UrlFilter.OrgPagePath | content.js:194-198 | `/orgs/ORG/T` is an org member-list page iff the tail `T` is a team or people tail |
| UrlFilter.SegmentTailOfName | content.js:197 | one segment, optionally followed by `/`, ends a path; a second segment does not |
| UrlFilter.OrgPeoplePages | content.js:194-198 | `people`, `people/` and `people/NAME` under an org are member-list pages |
| UrlFilter.OrgTeamPages | content.js:194-198 | `teams/NAME` and `teams/NAME/` are member-list pages |
| UrlFilter.NotOrgMemberPages | content.js:194-198 | `teams` alone and `people/NAME/x` are not |
| Decoration.Decorated | content.js:217 | the decorated text starts with the username and contains the ` ( nickname ) ` marker |
| Decoration.HrefUsername | content.js:209 | `href.split('/')[1]` exists iff the href has a `/`, and holds no `/` |
| Decoration.SingleSegmentPathUsername | content.js:209-213 | an href of the form `/NAME` or `/NAME/` yields `NAME` as its username |
| Decoration.SegmentPathIsSingle | content.js:209-213 | `/NAME` and `/NAME/` are single-segment paths whose username is `NAME` |
| Decoration.Inserted | content.js:219-222 | what one match receives: a replacement string expanded by `GetSubstitution` (`$$`, `$&`, `` $` ``, `$'`), or a replacement function's text as it stands |
| Decoration.ReplaceWordFromUnchanged | content.js:218-222 | the whole-word global replacement leaves a text without a word-bounded match of the username unchanged |
| Decoration.ReplaceWordFromChanged | content.js:218-222 | when the replacement text is inserted as it stands, a text the replacement changed contains that text |
| JsCore.GetSubstitutionDollar | content.js:221 | in the replacement string, `$$` inserts a single `$` |
| JsCore.GetSubstitutionPlain | content.js:221 | a replacement string without `$` is inserted as it stands |
| Decoration.TemplateWithoutDollar | content.js:219-222 | a replacement string without `$` inserts exactly what a replacement function would |
| Decoration.GeneralTextBy | content.js:210-223 | a general link's text changes only when the guard holds; a text that trims to the username becomes its decoration; with the nickname inserted verbatim a changed text contains the marker |
| Decoration.GeneralText | content.js:210-223 | the rule as written: the decoration reaches `replace` as a replacement string |
| Decoration.GeneralTextIntended | content.js:210-223 | the intended rule: the decoration is inserted as it stands |
| Decoration.GeneralTextWithoutDollar | content.js:210-223 | when no mapped username or nickname holds `$`, the rule as written equals the intended one |
| Decoration.GeneralPass | content.js:206-226 | the link keeps its href, its text becomes the general rule's text, and it is marked iff it was marked or the guard held |
| Decoration.GeneralTextIntendedIdempotent | content.js:210-224 | the intended rule applied twice gives the same text as once |
| Decoration.GeneralTextIdempotent | content.js:210-224 | the rule as written applied twice gives the same text as once, for a mapping without `$` |
| Decoration.DoubleDollarExpands | content.js:219-222 | a decoration whose nickname starts with `$$` is inserted with one `$` there |
| Decoration.MentionReplaced | content.js:219-222 | in `@NAME` followed by a text without NAME's first letter, NAME matches once, at index 1 |
| Decoration.OneDollarNoMarker | content.js:214 | `@NAME ( $X ) ` does not contain the marker ` ( $$X ) ` |
| Decoration.MentionDecorated | content.js:210-223 | a mention `@NAME…` passes the guard and is rewritten at its one match |
| Decoration.GeneralTemplateRedecorates | content.js:214-222 | as written, a mention `@NAME` with nickname `$$X` becomes `@NAME ( $X ) `, and a second run appends ` ( $X ) ` again |
| Decoration.GeneralVerbatimDecorates | content.js:214-222 | the intended rule decorates the same mention with `$$X` as stored |
| Decoration.CardText | content.js:243-248 | a hovercard link's text changes only when its trimmed text is a mapped username, and then becomes that user's decoration |
| Decoration.CardPass | content.js:238-251 | an already marked link is untouched; otherwise its text follows the hovercard rule |
| Decoration.CardTextIdempotent | content.js:243-250 | applying the hovercard rule twice gives the same text as once, when no username contains `(` |
| OrgMembers.OrgPeopleUsername | content.js:272-273 | the first `/orgs/X/people/NAME` match yields one non-empty path segment |
| OrgMembers.OrgPeopleUsernameOf | content.js:272-273 | `/orgs/ORG/people/USER…` yields exactly `USER` |
| OrgMembers.OrgNodeTextAsWritten | content.js:280-286 | the rule as written: a node changes only when its trimmed text is not blank, and becomes the decoration of that trimmed text |
| OrgMembers.TrimDecorated | content.js:281-284 | trimming a decorated node drops the marker's trailing space |
| OrgMembers.CutDecorationNoMarker | content.js:281-283 | that trimmed decoration no longer contains the full ` ( nickname ) ` marker |
| OrgMembers.OrgGuardMissesOwnDecoration | content.js:280-286 | as written, re-running the rule on its own output appends the nickname a second time |
| OrgMembers.OrgNodeText | content.js:280-286 | corrected rule: a node changes only when its text is not blank, and becomes the decoration of its trimmed text |
| OrgMembers.OrgNodeTextIdempotent | content.js:280-286 | the corrected rule applied twice equals once |
| OrgMembers.AsWrittenAgrees | content.js:280-286 | the two rules agree on every text where trimming neither gains nor loses a marker |
| OrgMembers.OrgNodeChanges | content.js:280-286 | the branch is taken for a non-blank text node whose trimmed text lacks the marker; when it is not taken, the node is unchanged |
| OrgMembers.DecorateOrgNode | content.js:280-286 | the per-node step returns the node under the rule as written, and whether its branch was taken |
| OrgMembers.DecorateOrgChildren | content.js:277-288 | the child-node loop maps the rule as written over all children, and reports whether any of them took the branch |
| OrgMembers.OrgLinkPass | content.js:266-294 | a member link keeps its href and child count, and is either unchanged or marked |
| ContentPage.GeneralStep | content.js:206-226 | a marked link is skipped; otherwise the link is unchanged or becomes marked |
| ContentPage.CardStep | content.js:238-251 | the same for the hovercard pass |
| ContentPage.OrgStep | content.js:264-295 | the same for the org-member pass |
| ContentPage.LinkRun | content.js:299-303 | one full run leaves a link unchanged or marked, and never touches a marked link |
| ContentPage.LinkRunIdempotent | content.js:299-303 | a second run over the same links changes nothing |
| ContentPage.Unmark | content.js:366-370 | removing the mark keeps the link's nodes and href |
| ContentPage.PageRun | content.js:299-303 | the general pass, the hovercard pass, then on org member-list pages the org pass, each over every link, keeping the number of links |
| ContentPage.PageRunPerLink | content.js:299-303 | a page run is the per-link run mapped over every link |
| ContentPage.PageRunIdempotent | content.js:299-303 | running the page passes twice equals once |
| ContentPage.ContentScript.constructor | content.js:5-18 | the mapping and the strict-mode settings are read from storage, with the defaults for absent values |
| ContentPage.ContentScript.Start | content.js:299-303 | the initial run decorates the page iff the URL passes the strict-mode filter |
| ContentPage.ContentScript.InjectNicknames | content.js:201-252 | the general pass, then the hovercard pass, applied to every link when the filter passes |
| ContentPage.ContentScript.DecorateOrgLink | content.js:266-294 | one member link gets the org-member pass |
| ContentPage.ContentScript.ProcessOrgMemberLinks | content.js:255-296 | member links are decorated only on org member-list pages that pass the filter |
| ContentPage.ContentScript.OnStrictModeUpdated | content.js:360-378 | the new settings replace the old ones; when they apply, all marks are cleared and the page run is repeated with the rules as written, so an org member node and a `$` nickname are decorated again |
| PopupPage.KeepMatching | popup.js:73-81 | the kept entries are exactly those whose username or nickname contains the needle |
| PopupPage.KeepMatchingAppend | popup.js:73-81 | filtering distributes over concatenation: it keeps entries in order |
| PopupPage.FilterEntries | popup.js:73-81 | an empty filter keeps every entry; otherwise exactly those matching the lower-cased filter |
| PopupPage.ValidateUrlPattern | popup.js:363-397 | empty iff blank; too long iff over 1000 UTF-16 units; valid iff neither and a `regex:` pattern compiles; the stored pattern is the trimmed input |
| PopupPage.TrimmedPatternStoredAsIs | popup.js:447-468 | a pattern typed with surrounding white space is stored trimmed |
| PopupPage.SpliceStart | popup.js:337-343 | `splice`'s start clamps into the list and equals an in-range index |
| PopupPage.SpliceOne | popup.js:337-343 | `splice(i, 1)` removes one element exactly when the clamped start is inside the list |
| PopupPage.SpliceRemovesExactly | popup.js:337-343 | deleting pattern `i` shifts the later ones down by one and removes exactly that element (as a multiset) |
| PopupPage.SpliceKeepsDistinct | popup.js:337-343 | deleting a pattern keeps the list duplicate-free |
| PopupPage.ExportPreset | popup.js:594-601 | the exported preset has a version and all mappings, and uses the defaults for absent order, strict mode, theme and language |
| PopupPage.ImportNickname | popup.js:638-643 | an imported nickname is accepted only as a string, and is then stored sanitized |
| PopupPage.ImportNicknameRules | popup.js:637-644 | an entry imports iff it is a string that passes `validateNickname`; a truthy non-string aborts; a rejected string reports validation's reason |
| PopupPage.SanitizedCopyFacts | popup.js:637-644 | a completed import loop means every entry was importable, each stored value is the sanitized original, and the copy is unique |
| PopupPage.SanitizeMappings | popup.js:637-644 | the loop succeeds iff every entry passes; it then returns the checked copy, and otherwise the error of the first failing entry in iteration order |
| PopupPage.ImportedState | popup.js:647-681 | import replaces the mapping and overwrites order, theme, strict mode and language only with truthy file values; the Gist settings are kept |
| PopupPage.EmptyMappingsEmptyTheStore | popup.js:632-648 | a preset with `"mappings": {}` imports and empties the stored mapping |
| PopupPage.ExportThenImportKeepsSettings | popup.js:588-681 | exporting and re-importing preserves order, strict mode, theme, language and the Gist settings |
| PopupPage.Popup.constructor | popup.js:808-812 | the popup starts from the stored strict-mode settings, or the disabled default |
| PopupPage.Popup.SaveStrictModeSettings | popup.js:348-360 | the store's strict mode becomes the popup's settings and nothing else changes |
| PopupPage.Popup.ToggleStrictMode | popup.js:441-444 | only `enabled` changes, and it is saved |
| PopupPage.Popup.AddUrlPattern | popup.js:447-468 | a rejected pattern reports its reason, a duplicate is refused, and a new one is appended and saved; the list stays duplicate-free |
| PopupPage.Popup.DeleteUrlPattern | popup.js:337-343 | the pattern at the index is spliced out and saved; the list stays duplicate-free |
| PopupPage.Popup.AddMapping | popup.js:534-561 | the validation outcome is reported; with a non-empty username the sanitized nickname is stored under it; otherwise nothing changes |
| PopupPage.Popup.EditMapping | popup.js:243-258 | a non-blank edit stores the trimmed text unvalidated; a blank one changes nothing |
| PopupPage.Popup.DeleteMapping | popup.js:268-276 | on confirmation the username's entry is removed |
| PopupPage.Popup.BulkDelete | popup.js:197-213 | on confirmation with a non-empty selection exactly the selected entries are removed |
| PopupPage.Popup.ExportSettings | popup.js:588-615 | the exported file is the export preset of the current store |
| PopupPage.Popup.ImportPreset | popup.js:618-689 | the import succeeds iff a file was chosen, parses, has version and mappings, and all nicknames pass; then the store becomes the imported state; otherwise nothing changes |
| Background.NatToString | background.js:21 | the status code is printed as a non-empty run of decimal digits |
| Background.NatToStringValue | background.js:21 | the printed digits read back as the status code |
| Background.SyncErrorMessage | background.js:13-79 | the `message` of each error `syncWithGist` throws, with the status code printed in decimal |
| Background.ParseErrorsArePrefixed | background.js:77-79 | a failure in the parse/merge block is reported with the fixed prefix followed by its own message |
| Background.FirstJsonFile | background.js:32 | the first file whose name ends in `.json`, or none when no file does |
| Background.SelectFile | background.js:27-33 | no file is chosen iff the Gist has no files; a `.json` file is preferred and is the first one; otherwise the first file is chosen |
| Background.SyncPayload | background.js:13-41 | a missing Gist id fails first; a successful payload has version and mappings and is the parse of the selected file |
| Background.NoGistIdFailsFirst | background.js:13-15 | without a Gist id the sync fails the same way whatever the network would return |
| Background.MissingFieldsRejected | background.js:39-41 | a file without version or mappings fails with the prefixed invalid-format message |
| Background.CheckedAutoSync | background.js:58-61 | the merged auto-sync keeps `enabled` and records the check time |
| Background.MergedState | background.js:49-63 | the store written by a successful sync; its fields are stated by the next three lemmas |
| Background.MergeFields | background.js:49-63 | the mapping is replaced wholesale, so local-only users disappear; order, theme and strict mode are taken from the file only when truthy; the language is kept |
| Background.MergeKeepsGistSettings | background.js:55-62 | the Gist settings keep their id and other fields, gain the sync time, and the auto-sync gains the check time |
| Background.MergeTwiceIsMergeOnce | background.js:49-63 | syncing the same file twice equals syncing it once at the later times |
| Background.ExpectedAlarm | background.js:83-101 | after `setupAutoSync` at minute `now` an alarm exists iff auto-sync is enabled and a Gist id is set; it is a new `gistSyncAlarm`, due at `now + 1`, with a 1440-minute period |
| Background.NextFiring | background.js:92-93 | once fired, a periodic alarm is due again one period later |
| Background.MergeKeepsArming | background.js:49-63 | a sync does not change whether auto-sync is armed |
| Background.AlarmSyncRestartsDelay | background.js:83-101 | as written, a sync by the alarm changes `gistSettings`, and the `setupAutoSync` it triggers makes the next sync due one minute later |
| Background.KeptAlarm | background.js:83-101 | intended rule: an armed auto-sync keeps its existing alarm; only a newly armed one gets a new alarm; none when not armed |
| Background.KeptAlarmSyncsDaily | background.js:83-101 | with the intended rule, the sync by the alarm due at `now` leaves the next sync due at `now + 1440` |
| Background.ContextMenuUsername | background.js:117-120 | the trimmed selection, with one leading `@` removed |
| Background.ContextMenuUsernameFacts | background.js:117-120 | the username is the trimmed selection without one leading `@`; it is empty iff the selection is blank or just `@` |
| Background.QuickAddFromMessage | background.js:284-291 | the window carries the username, and the nickname parameter only when the current nickname is truthy |
| Background.Worker.constructor | background.js:139 | the worker starts with language `auto` and no windows |
| Background.Worker.SyncWithGist | background.js:8-80 | the sync succeeds iff the payload is valid; the store then becomes the merged state; on failure the store is untouched and the error is the payload's |
| Background.Worker.SetupAutoSync | background.js:83-101 | the alarm is cleared, and created anew, due a minute later, iff auto-sync is armed |
| Background.Worker.OnStorageChanged | background.js:198-202 | only a local change of the Gist settings re-runs `setupAutoSync`, which restarts the alarm |
| Background.Worker.SetupAndSync | background.js:184-195 | `setupAutoSync`, then a sync iff auto-sync is armed; the store becomes the merged state exactly when that sync succeeds |
| Background.Worker.RefreshCurrentLanguage | background.js:142-149 | the current language is the stored one, or `auto` |
| Background.Worker.OnStartup | background.js:165-195 | start-up reads the language, restarts the alarm, and syncs iff auto-sync is armed |
| Background.Worker.OnInstalled | background.js:157-162 | an install or an update reads the stored language, or `auto` when none is stored; any other reason changes nothing; the alarm and the store are left as they are |
| Background.Worker.OnAlarm | background.js:171-181 | only the `gistSyncAlarm` starts a sync |
| Background.Worker.OnContextMenuClicked | background.js:114-136 | the menu opens a quick-add window for a non-empty username, with the stored nickname or an empty one |
| Background.Worker.OnMessage | background.js:241-349 | each action's reply and effect: sync only with a truthy id, language change stored, quick-add window only with a username, tab and window outcomes, and a fixed reply for unknown actions |
| I18n.DigitRun | js/i18n.js:27 | the `\d+` run at the start of a string ends at a non-digit or the end |
| I18n.DigitRunIsDigits | js/i18n.js:27 | every character of that run is a digit |
| I18n.ApplySubstitutions | js/i18n.js:26-30 | `message.replace(/\$(\d+)/g, …)`: each `$` and digit run is replaced by its substitution, left to right; its meaning is stated by the lemmas below |
| I18n.NoPlaceholderUnchanged | js/i18n.js:26-30 | a message without `$` followed by a digit is returned unchanged |
| I18n.Placeholder | js/i18n.js:26-30 | `$DIGITS` becomes the substitution numbered DIGITS when it exists, and stays as written otherwise |
| I18n.InsertedTextNotRescanned | js/i18n.js:26-30 | text inserted for a placeholder is not itself scanned again |
| I18n.ApplySubstitutionsAppend | js/i18n.js:26-30 | substitution distributes over concatenation at a non-digit boundary |
| I18n.GetMessage | js/i18n.js:64-69 | a custom message, with its placeholders filled, wins; otherwise the browser's message when non-empty, else the key |
| I18n.GetMessageFallback | js/i18n.js:64-69 | the result is empty only for an empty key or a custom message; a custom message without placeholders is returned as written |
| I18n.CurrentLocale | js/i18n.js:45-59 | a stored locale other than `auto` wins; otherwise the UI language, or `en` when that is empty |
| I18n.LocaleOption | js/i18n.js:198-212 | each locale's option carries its code, and the native name for `en` and `ja` |
| I18n.SelectorShowsStoredChoice | js/i18n.js:218 | the selector shows `auto` when following the browser, and the stored locale unless it equals the UI language |
| I18n.LanguageOptions | js/i18n.js:191-215 | the options are `auto` followed by one option per locale, in order |
| I18n.Localizer.constructor | js/i18n.js:11-12 | no language and no custom messages before initialisation |
| I18n.Localizer.Initialize | js/i18n.js:14-40 | the language becomes the current locale and its messages are loaded, or none when loading fails |
| QuickAdd.QuickSanitize | quick-add.js:29-35 | the four chained global replacements of `<>"'`; `&` is kept |
| QuickAdd.QuickSanitizeAppend | quick-add.js:29-35 | the quick-add escape chain distributes over concatenation |
| QuickAdd.QuickSanitizeIsSinglePass | quick-add.js:29-35 | the four successive replacements equal escaping each of `<>"'` once and keeping `&` |
| QuickAdd.QuickEscapeEachWithoutAmp | quick-add.js:29-35 | without `&`, quick-add escaping equals the popup's per-character escaping |
| QuickAdd.QuickSanitizeMatchesPopup | quick-add.js:29-37 | for names without `&` or `<`, quick-add stores what the popup would store |
| QuickAdd.QuickSanitizeRoundTrip | quick-add.js:29-37 | decoding a quick-add nickname without `&` gives back the input |
| QuickAdd.QuickEscapeEachClean | quick-add.js:29-35 | per-character quick-add escaping leaves none of `<>"'` |
| QuickAdd.QuickSanitizeEscapesAll | quick-add.js:29-37 | a quick-add nickname contains none of `<>"'` |
| QuickAdd.QuickEscapeEachPlain | quick-add.js:29-35 | a string without `<>"'` is unchanged |
| QuickAdd.QuickSanitizeIdempotent | quick-add.js:29-37 | quick-add sanitizing twice equals once (unlike the popup's, it never touches `&`) |
| QuickAdd.QuickAddPage.constructor | quick-add.js:2-20 | the display shows `@username` for a truthy username, and the input is prefilled with a truthy initial nickname |
| QuickAdd.QuickAddPage.SuggestNickname | quick-add.js:96-113 | the real name fills the input only with a username, no initial nickname and a truthy real name |
| QuickAdd.QuickAddPage.Save | quick-add.js:23-81 | saved iff username and trimmed nickname are non-empty and the write succeeds; then the sanitized nickname is stored, the worker told, a confirmation shown and the window closed; each failure path shows its alert and changes nothing else |
| QuickAdd.QuickAddPage.Cancel | quick-add.js:84-86 | the window is closed |

## Left out

- The DOM is kept only as each link's text, child text nodes, href and injected mark. Element lookup by CSS selector, and which links each selector finds, are not modelled: links are given as a list with a user-card flag.
- The MutationObserver callback (content.js:306-344) only re-runs the passes already modelled, so it is not modelled separately.
- Avatar tooltips, assignee hover handling and the pull-request list reload in content.js are left out. They decorate attributes, not link text.
- Several popup parts are left out: the Gist settings UI, theme switching, custom sort and drag-and-drop ordering, `userCardButtonSettings`, and list rendering. They only display or reorder data.
- Tab broadcasts (`refreshNicknames`, `languageChanged`, reload) are left out. They are fire-and-forget sends to other tabs, and their errors are ignored.
- `encodeURIComponent` and `URLSearchParams` are left out. A quick-add window is modelled by its decoded query (`QuickAddRequest`, or the `Option` parameters of `QuickAddPage`).
- Case folding is ASCII only. All patterns that `/i` and `toLowerCase` are compared with are ASCII, but the list filter's `toLowerCase` of non-ASCII names is not modelled.
- A Gist file's mapping values are modelled as strings. The Gist sync stores them unchecked, and non-string values are left out.
- `JSON.parse`, `fetch`, `file.text()` and the clock are parameters. The two `new Date()` calls of a sync are two separate parameters.
- The iteration order of `Object.entries` is a parameter of the import loop (`order`).
- `localizeDocument` and `setupDynamicLocalization` in js/i18n.js are left out. They write translated strings into the DOM.
- Regular expressions from `regex:` patterns are an uninterpreted engine: one function says whether a source compiles and one tests it.
- I18n.ApplySubstitutions: the substitutions are a sequence of strings. A single string passed as substitutions, and holes in the array, are not modelled.
- I18n.SelectorShowsStoredChoice: a stored locale that is not among the selector's options is not modelled. The browser would then show no selection.
- Asynchronous interleaving of callbacks is not modelled. Each handler runs to completion against the store state it reads.
- Console logging is left out.
- The `onInstalled` listener at background.js:104-111 is left out. It only creates the context-menu item, and browser menus are not modelled. The other `onInstalled` listener, background.js:157-162, is Background.Worker.OnInstalled.
- Background.Worker.OnMessage: for `nicknameAdded` and `closePopup` the contract states only the success flag. The reply texts are fixed strings in the body.
- QuickAdd.QuickAddPage.Save: the `catch` branch (quick-add.js:74-77) for a synchronous exception from the storage API is not modelled. The write outcome is the `writeError` parameter.
- Export followed by import is not the identity on nicknames containing `&`, because the import sanitizes again (Nickname.SanitizeIsNotIdempotent). The model follows the code.
- Decoration.HasNickname: `mapping[username]` is a lookup on a plain object. A name such as `constructor` or `toString` then finds an inherited `Object.prototype` function, which is truthy, and the passes would decorate with its source text. The model's mapping holds only the stored names.
- Background.Worker.OnContextMenuClicked: for the same reason, a selection such as `constructor` would prefill quick-add with a function's text; the model prefills the empty string.
- PopupPage.Popup.AddMapping: storing under the username `__proto__` invokes the prototype setter, which ignores a string, so no entry is created although success is reported. The model stores the entry.
- PopupPage.Popup.EditMapping: the same `__proto__` case is not modelled.
- QuickAdd.QuickAddPage.Save: the same `__proto__` case is not modelled.
- Decoration.ReplaceWord: the username is spliced into `new RegExp(...)` unescaped. A `.` in it would match any character, and a `(` would throw a `SyntaxError` that ends the `forEach` and leaves the later links of the pass undecorated. The model matches the username literally. GitHub usernames hold only letters, digits and `-`, and for those both readings agree.
- Background.Worker.SyncWithGist: the `syncWithGist` message carries a `gistId` that is only tested for truthiness (background.js:246-250). The sync itself uses the stored id, and so does the model.

## Findings

| source | as written | input that shows it | evidently intended | confidence | as-written member | corrected member |
|---|---|---|---|---|---|---|
| content.js:218-222 | `replace` receives the decoration as a replacement string, so `$$`, `$&`, `` $` `` and `$'` in a nickname are expanded, and the decorated text then lacks the marker the guard at content.js:214 looks for | a mention link `@alice` to `/alice` with nickname `$$bob`, which `validateNickname` stores unchanged: the first run writes `@alice ( $bob ) `; after the mark-clearing of a `strictModeUpdated` message the next run writes `@alice ( $bob )  ( $bob ) ` | the nickname is inserted as stored (a replacement function), so the text carries the marker and a second run leaves it alone | not executed | Decoration.GeneralTemplateRedecorates | Decoration.GeneralTextIntendedIdempotent |
| background.js:83-101 | `setupAutoSync` clears the alarm and creates it again with `delayInMinutes: 1` on every local change of `gistSettings`, and every successful sync writes `gistSettings` with a new `lastSyncTimestamp` (background.js:55-62) | auto-sync enabled with a Gist id: the alarm's sync at minute t succeeds, `storage.onChanged` re-runs `setupAutoSync`, and the next sync is due at t + 1, so the daily sync repeats about every minute | a first sync a minute after auto-sync is armed, then one every 24 hours | not executed | Background.AlarmSyncRestartsDelay | Background.KeptAlarmSyncsDaily |
| content.js:281-286 | the org-member guard searches the trimmed node text for ` ( nickname ) ` with its trailing space, but trimming has already removed that space from a decorated node | a text node `bob` with nickname `Bobby`: after the mark-clearing of a `strictModeUpdated` message the pass runs again and yields `bob ( Bobby ) ( Bobby ) ` | a node that already carries its nickname is left alone, so the pass is idempotent | not executed | OrgMembers.OrgGuardMissesOwnDecoration | OrgMembers.OrgNodeTextIdempotent |

The rest of the model follows the code as written: the page passes use `Decoration.GeneralText` and `OrgMembers.OrgNodeTextAsWritten`, and the worker uses `Background.ExpectedAlarm`. The corrected members stand beside them with their properties proved.
