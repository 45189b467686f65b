/**
 * The message lookup shared by the extension's pages (js/i18n.js): `$n`
 * placeholders, the custom-then-browser-then-key fallback, the locale in force
 * and the options of the language selector.
 *
 * The browser's `chrome.i18n.getMessage` and `getUILanguage`, and the fetch of
 * a locale's `messages.json`, are parameters.
 */
module I18n {
  import opened JsCore

  // ---------------------------------------------------------------------------
  // applySubstitutions

  /** Length of the longest prefix of ASCII digits (`\d+` matches exactly that run). */
  function DigitRun(s: string): (n: nat)
    ensures n <= |s|
    ensures n < |s| ==> !IsDigit(s[n])
  {
    if s != [] && IsDigit(s[0]) then 1 + DigitRun(s[1..]) else 0
  }

  /** Everything in the run is a digit. */
  lemma {:induction false} DigitRunIsDigits(s: string)
    ensures forall i :: 0 <= i < DigitRun(s) ==> IsDigit(s[i])
  {
    if s != [] && IsDigit(s[0]) {
      DigitRunIsDigits(s[1..]);
      assert forall i :: 1 <= i < DigitRun(s) ==> s[i] == s[1..][i - 1];
    }
  }

  /** A text of digits only is one whole run. */
  lemma {:induction false} DigitRunOfDigits(d: string)
    requires forall i :: 0 <= i < |d| ==> IsDigit(d[i])
    ensures DigitRun(d) == |d|
  {
    if d != [] {
      assert forall i :: 0 <= i < |d[1..]| ==> d[1..][i] == d[i + 1];
      DigitRunOfDigits(d[1..]);
    }
  }

  /** A run of digits stops where the text after it starts with a non-digit. */
  lemma {:induction false} DigitRunAppend(x: string, y: string)
    requires y == [] || !IsDigit(y[0])
    ensures DigitRun(x + y) == DigitRun(x)
  {
    if x != [] {
      assert (x + y)[0] == x[0];
      assert (x + y)[1..] == x[1..] + y;
      DigitRunAppend(x[1..], y);
    } else {
      assert x + y == y;
    }
  }

  /** Length of the digit run after a `$` at the head of `s`, or 0 when no placeholder starts there. */
  function PlaceholderDigits(s: string): (n: nat)
    ensures n > 0 ==> 1 + n <= |s| && s[0] == '$'
  {
    if s != [] && s[0] == '$' then DigitRun(s[1..]) else 0
  }

  /**
   * What replaces one matched `$digits`: `substitutions[n - 1]` when there is
   * one, the match itself otherwise (`$0`, or an index past the end).
   */
  function Replacement(digits: string, substitutions: seq<string>): string {
    var k := DigitsValue(digits);
    if 1 <= k <= |substitutions| then substitutions[k - 1] else "$" + digits
  }

  /**
   * `message.replace(/\$(\d+)/g, ...)`: left to right, each `$` followed by a run
   * of digits is replaced by its `Replacement`; the inserted text is not scanned again.
   */
  function ApplySubstitutions(message: string, substitutions: seq<string>): string
    decreases |message|
  {
    if message == [] then []
    else
      var n := PlaceholderDigits(message);
      if n > 0 then Replacement(message[1..1 + n], substitutions) + ApplySubstitutions(message[1 + n..], substitutions)
      else [message[0]] + ApplySubstitutions(message[1..], substitutions)
  }

  /** No `$` in the text is followed by a digit. */
  predicate NoPlaceholder(s: string) {
    forall i :: 0 <= i < |s| - 1 ==> !(s[i] == '$' && IsDigit(s[i + 1]))
  }

  /** A message without placeholders comes back unchanged. */
  lemma {:induction false} NoPlaceholderUnchanged(message: string, substitutions: seq<string>)
    requires NoPlaceholder(message)
    ensures ApplySubstitutions(message, substitutions) == message
  {
    if message != [] {
      if message[0] == '$' && |message| > 1 {
        assert !IsDigit(message[1]);
      }
      assert PlaceholderDigits(message) == 0;
      assert NoPlaceholder(message[1..]) by {
        forall i | 0 <= i < |message[1..]| - 1
          ensures !(message[1..][i] == '$' && IsDigit(message[1..][i + 1]))
        {
          assert message[1..][i] == message[i + 1] && message[1..][i + 1] == message[i + 2];
        }
      }
      NoPlaceholderUnchanged(message[1..], substitutions);
      assert message == [message[0]] + message[1..];
    }
  }

  /**
   * One placeholder, `$` then its whole digit run: it becomes its `Replacement`
   * verbatim, and scanning resumes after it.
   */
  lemma Placeholder(digits: string, rest: string, substitutions: seq<string>)
    requires digits != [] && forall i :: 0 <= i < |digits| ==> IsDigit(digits[i])
    requires rest == [] || !IsDigit(rest[0])
    ensures ApplySubstitutions("$" + digits + rest, substitutions) ==
            Replacement(digits, substitutions) + ApplySubstitutions(rest, substitutions)
  {
    var m := "$" + digits + rest;
    assert m[0] == '$' && m[1..] == digits + rest;
    DigitRunAppend(digits, rest);
    DigitRunOfDigits(digits);
    assert PlaceholderDigits(m) == |digits|;
    assert m[1..1 + |digits|] == digits && m[1 + |digits|..] == rest;
  }

  /** A substitution that itself reads `$1` is inserted as it is, not substituted again. */
  lemma InsertedTextNotRescanned(x: string)
    ensures ApplySubstitutions("$1", [x]) == x
  {
    Placeholder("1", "", [x]);
    assert "$" + "1" + "" == "$1";
  }

  /**
   * The pass is compositional: substituting in two pieces is substituting in the
   * whole, as long as the cut does not split a digit run.
   */
  lemma {:induction false} ApplySubstitutionsAppend(a: string, b: string, substitutions: seq<string>)
    requires b == [] || !IsDigit(b[0])
    ensures ApplySubstitutions(a + b, substitutions) ==
            ApplySubstitutions(a, substitutions) + ApplySubstitutions(b, substitutions)
    decreases |a|
  {
    if a == [] {
      assert a + b == b;
    } else {
      var m := a + b;
      var n := PlaceholderDigits(a);
      assert PlaceholderDigits(m) == n by {
        assert m[0] == a[0] && m[1..] == a[1..] + b;
        DigitRunAppend(a[1..], b);
      }
      if n > 0 {
        var r := Replacement(a[1..1 + n], substitutions);
        assert ApplySubstitutions(m, substitutions) == r + ApplySubstitutions(a[1 + n..] + b, substitutions) by {
          assert m[1..1 + n] == a[1..1 + n] && m[1 + n..] == a[1 + n..] + b;
        }
        ApplySubstitutionsAppend(a[1 + n..], b, substitutions);
      } else {
        assert ApplySubstitutions(m, substitutions) == [a[0]] + ApplySubstitutions(a[1..] + b, substitutions) by {
          assert m[0] == a[0] && m[1..] == a[1..] + b;
        }
        ApplySubstitutionsAppend(a[1..], b, substitutions);
      }
    }
  }

  // ---------------------------------------------------------------------------
  // getMessage

  /** `customMessages && customMessages[key] && customMessages[key].message`. */
  predicate HasCustomMessage(custom: Option<map<string, string>>, key: string) {
    custom.Some? && key in custom.value && custom.value[key] != ""
  }

  /**
   * The loaded `messages.json` first, with substitutions applied; then the
   * browser's own catalogue; then the key itself.
   */
  function GetMessage(custom: Option<map<string, string>>, browser: (string, seq<string>) -> string,
                      key: string, substitutions: seq<string>): (r: string)
    ensures HasCustomMessage(custom, key) ==> r == ApplySubstitutions(custom.value[key], substitutions)
    ensures !HasCustomMessage(custom, key) ==> r == (if browser(key, substitutions) != "" then browser(key, substitutions) else key)
  {
    if HasCustomMessage(custom, key) then ApplySubstitutions(custom.value[key], substitutions)
    else
      var fromBrowser := browser(key, substitutions);
      if fromBrowser != "" then fromBrowser else key
  }

  /**
   * A lookup comes back empty only for an empty key or a custom message that
   * its substitutions emptied; a custom message without placeholders comes back verbatim.
   */
  lemma GetMessageFallback(custom: Option<map<string, string>>, browser: (string, seq<string>) -> string,
                           key: string, substitutions: seq<string>)
    ensures GetMessage(custom, browser, key, substitutions) == "" ==> key == "" || HasCustomMessage(custom, key)
    ensures HasCustomMessage(custom, key) && NoPlaceholder(custom.value[key]) ==>
              GetMessage(custom, browser, key, substitutions) == custom.value[key]
  {
    if HasCustomMessage(custom, key) && NoPlaceholder(custom.value[key]) {
      NoPlaceholderUnchanged(custom.value[key], substitutions);
    }
  }

  // ---------------------------------------------------------------------------
  // getCurrentLocale

  const DefaultLocale := "en"

  /** A missing or `'auto'` language means the browser's UI language, or `'en'` when that is empty. */
  function CurrentLocale(stored: Option<string>, uiLanguage: string): (r: string)
    ensures r != ""
    ensures PresentString(stored) && stored.value != "auto" ==> r == stored.value
    ensures !PresentString(stored) || stored.value == "auto" ==> r == uiLanguage || (uiLanguage == "" && r == DefaultLocale)
  {
    if !PresentString(stored) || stored.value == "auto" then
      (if uiLanguage != "" then uiLanguage else DefaultLocale)
    else stored.value
  }

  // ---------------------------------------------------------------------------
  // createLanguageSelector

  /** One `<option>` of the selector. */
  datatype LanguageOption = LanguageOption(value: string, text: string)

  /** A locale's option, labelled with the language's own name when the selector knows it. */
  function LocaleOption(locale: string): (o: LanguageOption)
    ensures o.value == locale
    ensures o.text == (if locale == "en" then "English" else if locale == "ja" then "日本語" else locale)
  {
    match locale
    case "en" => LanguageOption(locale, "English")
    case "ja" => LanguageOption(locale, "日本語")
    case _ => LanguageOption(locale, locale)
  }

  /** `select.value = currentLocale === chrome.i18n.getUILanguage() ? 'auto' : currentLocale`. */
  function SelectedValue(currentLocale: string, uiLanguage: string): string {
    if currentLocale == uiLanguage then "auto" else currentLocale
  }

  /**
   * The selector shows `'auto'` for a stored `'auto'` (when the browser reports
   * a UI language), and for a stored language that happens to be the UI
   * language; any other stored language shows as itself.
   */
  lemma SelectorShowsStoredChoice(stored: Option<string>, uiLanguage: string)
    ensures (!PresentString(stored) || stored.value == "auto") && uiLanguage != "" ==>
              SelectedValue(CurrentLocale(stored, uiLanguage), uiLanguage) == "auto"
    ensures PresentString(stored) && stored.value != "auto" ==>
              SelectedValue(CurrentLocale(stored, uiLanguage), uiLanguage) ==
              (if stored.value == uiLanguage then "auto" else stored.value)
  {
  }

  /**
   * The options of `createLanguageSelector`: `'auto'` with its label first, then
   * one option per locale in the given order.
   */
  method LanguageOptions(locales: seq<string>, autoLabel: string) returns (options: seq<LanguageOption>)
    ensures |options| == |locales| + 1
    ensures options[0] == LanguageOption("auto", autoLabel)
    ensures forall k :: 0 <= k < |locales| ==> options[k + 1] == LocaleOption(locales[k])
  {
    options := [LanguageOption("auto", autoLabel)];
    var i := 0;
    while i < |locales|
      invariant 0 <= i <= |locales|
      invariant |options| == i + 1
      invariant options[0] == LanguageOption("auto", autoLabel)
      invariant forall k :: 0 <= k < i ==> options[k + 1] == LocaleOption(locales[k])
    {
      options := options + [LocaleOption(locales[i])];
      i := i + 1;
    }
  }

  // ---------------------------------------------------------------------------
  // The module's state

  /** The module-level `currentLanguage` and `customMessages` of js/i18n.js. */
  class Localizer {
    var currentLanguage: Option<string>
    var customMessages: Option<map<string, string>>

    constructor ()
      ensures currentLanguage.None? && customMessages.None?
    {
      currentLanguage := None;
      customMessages := None;
    }

    /**
     * `initializeI18n`: the locale in force, then its `messages.json`; `load`
     * gives `None` when the fetch or the parse fails, which clears the messages.
     */
    method Initialize(stored: Option<string>, uiLanguage: string, load: string -> Option<map<string, string>>)
      modifies this
      ensures currentLanguage == Some(CurrentLocale(stored, uiLanguage))
      ensures customMessages == load(CurrentLocale(stored, uiLanguage))
    {
      var locale := CurrentLocale(stored, uiLanguage);
      currentLanguage := Some(locale);
      customMessages := load(locale);
    }

    /** `getMessage` against the messages loaded so far. */
    function Message(browser: (string, seq<string>) -> string, key: string, substitutions: seq<string>): string
      reads this
    {
      GetMessage(customMessages, browser, key, substitutions)
    }
  }
}
