/**
 * The quick-add window (quick-add.js): a small page opened with `username` and
 * `nickname` URL parameters that stores one nickname.
 *
 * Its escaper is a weaker copy of the popup's: it escapes `<`, `>`, `"` and
 * `'`, but leaves `&` alone and does not strip tags. Saving checks only that a
 * username exists and the trimmed nickname is not empty; there is no length or
 * dangerous-pattern check.
 */
module QuickAdd {
  import opened JsCore
  import opened Storage
  import opened Nickname
  import opened Background

  // ---------------------------------------------------------------------------
  // sanitizeNickname (the inner copy in the save handler)

  /** The four characters quick-add escapes. */
  predicate IsQuickSpecial(c: char) {
    c == '<' || c == '>' || c == '"' || c == '\''
  }

  /** None of the four characters quick-add escapes. */
  predicate NoQuickSpecial(s: string) {
    forall i :: 0 <= i < |s| ==> !IsQuickSpecial(s[i])
  }

  /** The chain of four global replacements: `<`, `>`, `"`, then `'`. */
  function QuickSanitize(name: string): string {
    var lt := ReplaceAllChar(name, '<', "&lt;");
    var gt := ReplaceAllChar(lt, '>', "&gt;");
    var quot := ReplaceAllChar(gt, '"', "&quot;");
    ReplaceAllChar(quot, '\'', "&#039;")
  }

  /** What the quick-add escaper turns one character into: the popup's entity, except for `&`. */
  function QuickEscapeChar(c: char): string {
    if c == '&' then [c] else EscapeChar(c)
  }

  /** Reference escaper: each character is looked at once. */
  function QuickEscapeEach(s: string): string {
    if s == [] then [] else QuickEscapeChar(s[0]) + QuickEscapeEach(s[1..])
  }

  lemma QuickSanitizeAppend(a: string, b: string)
    ensures QuickSanitize(a + b) == QuickSanitize(a) + QuickSanitize(b)
  {
    var lt, lt' := ReplaceAllChar(a, '<', "&lt;"), ReplaceAllChar(b, '<', "&lt;");
    ReplaceAllCharAppend(a, b, '<', "&lt;");
    var gt, gt' := ReplaceAllChar(lt, '>', "&gt;"), ReplaceAllChar(lt', '>', "&gt;");
    ReplaceAllCharAppend(lt, lt', '>', "&gt;");
    var quot, quot' := ReplaceAllChar(gt, '"', "&quot;"), ReplaceAllChar(gt', '"', "&quot;");
    ReplaceAllCharAppend(gt, gt', '"', "&quot;");
    ReplaceAllCharAppend(quot, quot', '\'', "&#039;");
  }

  /** The four stages of the chain, one at a time. */
  lemma QuickSanitizeSteps(s0: string, s1: string, s2: string, s3: string, s4: string)
    requires s1 == ReplaceAllChar(s0, '<', "&lt;")
    requires s2 == ReplaceAllChar(s1, '>', "&gt;")
    requires s3 == ReplaceAllChar(s2, '"', "&quot;")
    requires s4 == ReplaceAllChar(s3, '\'', "&#039;")
    ensures QuickSanitize(s0) == s4
  {
  }

  lemma QuickSanitizeCharLt(c: char, e: string)
    requires c == '<' && e == QuickEscapeChar(c)
    ensures QuickSanitize([c]) == e
  {
    ReplaceSingle(c, '<', e);
    ReplaceAbsent(e, '>', "&gt;");
    ReplaceAbsent(e, '"', "&quot;");
    ReplaceAbsent(e, '\'', "&#039;");
    QuickSanitizeSteps([c], e, e, e, e);
  }

  lemma QuickSanitizeCharGt(c: char, e: string)
    requires c == '>' && e == QuickEscapeChar(c)
    ensures QuickSanitize([c]) == e
  {
    ReplaceSingle(c, '<', "&lt;");
    ReplaceSingle(c, '>', e);
    ReplaceAbsent(e, '"', "&quot;");
    ReplaceAbsent(e, '\'', "&#039;");
    QuickSanitizeSteps([c], [c], e, e, e);
  }

  lemma QuickSanitizeCharQuot(c: char, e: string)
    requires c == '"' && e == QuickEscapeChar(c)
    ensures QuickSanitize([c]) == e
  {
    ReplaceSingle(c, '<', "&lt;");
    ReplaceSingle(c, '>', "&gt;");
    ReplaceSingle(c, '"', e);
    ReplaceAbsent(e, '\'', "&#039;");
    QuickSanitizeSteps([c], [c], [c], e, e);
  }

  /** `'` and every character quick-add does not escape: only the last stage can act. */
  lemma QuickSanitizeCharLast(c: char, e: string)
    requires c != '<' && c != '>' && c != '"' && e == QuickEscapeChar(c)
    ensures QuickSanitize([c]) == e
  {
    ReplaceSingle(c, '<', "&lt;");
    ReplaceSingle(c, '>', "&gt;");
    ReplaceSingle(c, '"', "&quot;");
    ReplaceSingle(c, '\'', "&#039;");
    QuickSanitizeSteps([c], [c], [c], [c], e);
  }

  /** The four stages on a one-character text: only the stage for that character acts. */
  lemma QuickSanitizeChar(c: char)
    ensures QuickSanitize([c]) == QuickEscapeChar(c)
  {
    var e := QuickEscapeChar(c);
    if c == '<' {
      QuickSanitizeCharLt(c, e);
    } else if c == '>' {
      QuickSanitizeCharGt(c, e);
    } else if c == '"' {
      QuickSanitizeCharQuot(c, e);
    } else {
      QuickSanitizeCharLast(c, e);
    }
  }

  /**
   * The chained replacements escape each of `<`, `>`, `"` and `'` exactly once
   * and copy every other character, `&` included, as it is.
   */
  lemma {:induction false} QuickSanitizeIsSinglePass(s: string)
    ensures QuickSanitize(s) == QuickEscapeEach(s)
  {
    if s != [] {
      assert s == [s[0]] + s[1..];
      QuickSanitizeAppend([s[0]], s[1..]);
      QuickSanitizeChar(s[0]);
      QuickSanitizeIsSinglePass(s[1..]);
    }
  }

  /** Without `&`, the two escapers agree character by character. */
  lemma {:induction false} QuickEscapeEachWithoutAmp(s: string)
    requires '&' !in s
    ensures QuickEscapeEach(s) == EscapeEach(s)
  {
    if s != [] {
      QuickEscapeEachWithoutAmp(s[1..]);
    }
  }

  /**
   * On a name with neither `&` nor `<` (so with no tag to strip), quick-add stores
   * what the popup's `sanitizeNickname` would have stored.
   */
  lemma QuickSanitizeMatchesPopup(name: string)
    requires '&' !in name && '<' !in name
    ensures QuickSanitize(name) == Sanitize(name)
  {
    QuickSanitizeIsSinglePass(name);
    QuickEscapeEachWithoutAmp(name);
    EscapeHtmlIsSinglePass(name);
  }

  /** Without `&` in the name, one decoding pass gives the name back, tags included. */
  lemma QuickSanitizeRoundTrip(name: string)
    requires '&' !in name
    ensures Unescape(QuickSanitize(name)) == name
  {
    QuickSanitizeIsSinglePass(name);
    QuickEscapeEachWithoutAmp(name);
    UnescapeEscapeEach(name);
  }

  /** No entity the escaper inserts holds one of the four characters it escapes. */
  lemma {:induction false} QuickEscapeEachClean(s: string)
    ensures NoQuickSpecial(QuickEscapeEach(s))
  {
    if s != [] {
      QuickEscapeEachClean(s[1..]);
      var e, t := QuickEscapeChar(s[0]), QuickEscapeEach(s[1..]);
      assert NoQuickSpecial(e);
      assert forall i :: 0 <= i < |e + t| ==> (e + t)[i] == if i < |e| then e[i] else t[i - |e|];
    }
  }

  /** No raw `<`, `>`, `"` or `'` survives quick-add's escaper. */
  lemma QuickSanitizeEscapesAll(name: string)
    ensures NoQuickSpecial(QuickSanitize(name))
  {
    QuickSanitizeIsSinglePass(name);
    QuickEscapeEachClean(name);
  }

  /** A text with none of the four escaped characters passes through unchanged. */
  lemma {:induction false} QuickEscapeEachPlain(s: string)
    requires NoQuickSpecial(s)
    ensures QuickEscapeEach(s) == s
  {
    if s != [] {
      assert !IsQuickSpecial(s[0]);
      assert NoQuickSpecial(s[1..]) by {
        assert forall i :: 0 <= i < |s[1..]| ==> s[1..][i] == s[i + 1];
      }
      QuickEscapeEachPlain(s[1..]);
      assert [s[0]] + s[1..] == s;
    }
  }

  /** Quick-add does not double-escape: sanitising an already sanitised name changes nothing. */
  lemma QuickSanitizeIdempotent(name: string)
    ensures QuickSanitize(QuickSanitize(name)) == QuickSanitize(name)
  {
    var once := QuickSanitize(name);
    QuickSanitizeEscapesAll(name);
    QuickSanitizeIsSinglePass(once);
    QuickEscapeEachPlain(once);
  }

  // ---------------------------------------------------------------------------
  // The page

  const EmptyNicknameAlert := "ニックネームを入力してください"
  const SaveErrorPrefix := "保存エラー: "

  /** The alert shown once the nickname is stored and the worker has answered. */
  function SavedAlert(username: string, sanitized: string): string {
    "ニックネームを保存しました: @" + username + " → " + sanitized
  }

  /** The quick-add window: its URL parameters, its input field and what it has shown and sent. */
  class QuickAddPage {
    const store: Store
    /** `urlParams.get('username')` and `urlParams.get('nickname')`; `None` for a missing parameter. */
    const username: Option<string>
    const initialNickname: Option<string>
    var usernameDisplay: string
    var nicknameInput: string
    var alerts: seq<string>
    /** The runtime messages sent to the worker. */
    var sent: seq<Message>
    var closed: bool

    /** `DOMContentLoaded`: the username is shown and a non-empty initial nickname fills the input. */
    constructor (store: Store, username: Option<string>, initialNickname: Option<string>)
      ensures this.store == store && this.username == username && this.initialNickname == initialNickname
      ensures usernameDisplay == if PresentString(username) then "@" + username.value else ""
      ensures nicknameInput == if PresentString(initialNickname) then initialNickname.value else ""
      ensures alerts == [] && sent == [] && !closed
    {
      this.store := store;
      this.username := username;
      this.initialNickname := initialNickname;
      usernameDisplay := if PresentString(username) then "@" + username.value else "";
      nicknameInput := if PresentString(initialNickname) then initialNickname.value else "";
      alerts := [];
      sent := [];
      closed := false;
    }

    /** The real name is looked up only for a username that has no nickname yet. */
    predicate SuggestsRealName()
    {
      PresentString(username) && !PresentString(initialNickname)
    }

    /**
     * `suggestNickname`: `realName` is the `name` of the GitHub user record, or
     * `None` when the fetch failed or the response was not ok. A non-empty name
     * replaces the input's value.
     */
    method SuggestNickname(realName: Option<string>)
      modifies this`nicknameInput
      ensures nicknameInput == if SuggestsRealName() && PresentString(realName) then realName.value
                               else old(nicknameInput)
    {
      if SuggestsRealName() && PresentString(realName) {
        nicknameInput := realName.value;
      }
    }

    /**
     * The save button (or Enter). With a username and a non-blank nickname,
     * `mapping[username]` is set to the escaped, trimmed nickname and nothing else
     * changes; `writeError` is the `chrome.runtime.lastError` of the write, which
     * leaves the store as it was. An empty nickname only raises an alert.
     */
    method Save(writeError: Option<string>) returns (saved: bool)
      modifies store`nameMapping, this`alerts, this`sent, this`closed
      ensures saved <==> PresentString(username) && Trim(nicknameInput) != "" && writeError.None?
      ensures saved ==>
                store.State() == old(store.State()).(nameMapping :=
                  old(store.nameMapping)[username.value := QuickSanitize(Trim(nicknameInput))])
      ensures !saved ==> store.State() == old(store.State())
      ensures saved ==>
                sent == old(sent) + [NicknameAdded(username.value, QuickSanitize(Trim(nicknameInput)))] &&
                alerts == old(alerts) + [SavedAlert(username.value, QuickSanitize(Trim(nicknameInput)))] &&
                closed
      ensures PresentString(username) && Trim(nicknameInput) != "" && writeError.Some? ==>
                alerts == old(alerts) + [SaveErrorPrefix + writeError.value] &&
                sent == old(sent) && closed == old(closed)
      ensures Trim(nicknameInput) == "" ==>
                alerts == old(alerts) + [EmptyNicknameAlert] && sent == old(sent) && closed == old(closed)
      ensures !PresentString(username) && Trim(nicknameInput) != "" ==>
                alerts == old(alerts) && sent == old(sent) && closed == old(closed)
    {
      saved := false;
      var nickname := Trim(nicknameInput);
      if PresentString(username) && nickname != "" {
        var sanitized := QuickSanitize(nickname);
        var mapping := store.nameMapping;
        mapping := mapping[username.value := sanitized];
        if writeError.Some? {
          alerts := alerts + [SaveErrorPrefix + writeError.value];
          return;
        }
        store.nameMapping := mapping;
        sent := sent + [NicknameAdded(username.value, sanitized)];
        alerts := alerts + [SavedAlert(username.value, sanitized)];
        closed := true;
        saved := true;
      } else if nickname == "" {
        alerts := alerts + [EmptyNicknameAlert];
      }
    }

    /** The cancel button. */
    method Cancel()
      modifies this`closed
      ensures closed
    {
      closed := true;
    }
  }
}
