/** The modal controller's values: the mounted dialog, the entries of
    `_modalCallbacks`, the key mapping of the keydown handler, the argument a
    callback receives, and the text a prompt's input field starts with. */
module Modals {
  import opened JsValues

  datatype ModalKind = ConfirmDialog | PromptDialog

  /** The dialog element mounted in the modal container; `input` is the
      current text of a prompt's input field (unused for a confirm). */
  datatype Modal = Modal(id: string, kind: ModalKind, input: string)

  /** A value of `_modalCallbacks`: under a modal's id the callback that was
      passed to `confirm`/`prompt` (possibly a falsy value), under the key
      `HandlerKey(owner)` that modal's keydown handler. */
  datatype Slot = Callback(fn: JsValue) | KeyHandler(owner: string)

  const KeydownSuffix: string := "_keydown"

  /** `modalId + '_keydown'` */
  function HandlerKey(id: string): string {
    id + KeydownSuffix
  }

  predicate KeydownAt(k: string, i: int) {
    0 <= i && i + |KeydownSuffix| <= |k| && k[i..i + |KeydownSuffix|] == KeydownSuffix
  }

  /** `callbackId.indexOf('_keydown') !== -1` */
  predicate ContainsKeydown(k: string) {
    exists i :: 0 <= i <= |k| && KeydownAt(k, i)
  }

  /** A handler key always holds an underscore, so it never equals an id
      without one. */
  lemma HandlerKeyHasUnderscore(id: string)
    ensures '_' in HandlerKey(id)
    ensures ContainsKeydown(HandlerKey(id))
  {
    assert HandlerKey(id)[|id|] == '_';
    assert KeydownAt(HandlerKey(id), |id|);
  }

  /** Different modals have different handler keys. */
  lemma HandlerKeyInjective(a: string, b: string)
    requires HandlerKey(a) == HandlerKey(b)
    ensures a == b
  {
    assert |a| == |b|;
    assert a == HandlerKey(a)[..|a|];
    assert b == HandlerKey(b)[..|b|];
  }

  /** A key without an underscore is never taken for a handler key by the
      `indexOf('_keydown')` test of `closeAllModals`. */
  lemma NoUnderscoreNoKeydown(k: string)
    requires '_' !in k
    ensures !ContainsKeydown(k)
  {
    forall i | 0 <= i <= |k|
      ensures !KeydownAt(k, i)
    {
      if i + |KeydownSuffix| <= |k| {
        assert k[i] in k;
        assert k[i..i + |KeydownSuffix|][0] == k[i];
      }
    }
  }

  /** One call of a user callback by a close timer: which modal, which
      callback value, and the argument passed. */
  datatype Delivery = Delivery(modal: string, callback: JsValue, argument: JsValue)

  /** The keydown handler: Enter (13) confirms, Escape (27) cancels, every
      other key is ignored. */
  function KeyAction(keyCode: int): (r: Option<bool>)
    ensures r == Some(true) <==> keyCode == 13
    ensures r == Some(false) <==> keyCode == 27
    ensures r == None <==> keyCode != 13 && keyCode != 27
  {
    if keyCode == 13 then Some(true)
    else if keyCode == 27 then Some(false)
    else None
  }

  /** The argument the close timer passes to the callback.  A prompt (a modal
      whose input field was found at close time) receives the text captured
      at close time when `confirmed` is truthy, and `null` otherwise; a
      confirm receives `confirmed` itself, whatever value it is. */
  function CallbackArgument(kind: ModalKind, confirmed: JsValue, input: string): (arg: JsValue)
    ensures kind == ConfirmDialog ==> arg == confirmed
    ensures kind == PromptDialog ==> arg.Str? || arg.Null?
    ensures kind == PromptDialog ==> (arg.Str? <==> Truthy(confirmed))
    ensures arg.Str? && kind == PromptDialog ==> arg.s == input
  {
    match kind
    case PromptDialog => if Truthy(confirmed) then Str(input) else Null
    case ConfirmDialog => confirmed
  }

  /** What a key press delivers: Enter gives a prompt its text (an empty text
      stays an empty string) and a confirm `true`; Escape gives a prompt
      `null` and a confirm `false`. */
  lemma KeyDelivers(kind: ModalKind, keyCode: int, input: string)
    requires KeyAction(keyCode).Some?
    ensures var arg := CallbackArgument(kind, Bool(KeyAction(keyCode).value), input);
      (kind == PromptDialog && keyCode == 13 ==> arg == Str(input))
      && (kind == PromptDialog && keyCode == 27 ==> arg == Null)
      && (kind == ConfirmDialog ==> arg == Bool(keyCode == 13))
  {
  }

  /** A character the input field keeps as it is. */
  predicate KeptAsIs(c: char) {
    c != '\n' && c != '\r' && c != '\0'
  }

  /** The text an `<input type="text">` holds when its `value` attribute,
      parsed from markup, is `s`: the HTML parser turns U+0000 into U+FFFD,
      and the value sanitization of the Text state strips line feeds and
      carriage returns. */
  function Sanitize(s: string): (r: string)
    ensures |r| <= |s|
    ensures forall c :: c in r ==> KeptAsIs(c)
    ensures forall c :: c in r ==> c in s || c == '\U{FFFD}'
    ensures forall c :: c in s && KeptAsIs(c) ==> c in r
    ensures (forall c :: c in s ==> KeptAsIs(c)) ==> r == s
  {
    if s == [] then ""
    else
      var head := if s[0] == '\n' || s[0] == '\r' then "" else if s[0] == '\0' then "\U{FFFD}" else [s[0]];
      assert s == [s[0]] + s[1..];
      assert forall c :: c in s[1..] ==> c in s;
      assert (forall c :: c in s ==> KeptAsIs(c)) ==> KeptAsIs(s[0]) && head == [s[0]];
      head + Sanitize(s[1..])
  }

  /** The part of a double-quoted attribute value the parser keeps: the
      longest prefix without a double quote. */
  function UpToQuote(s: string): (r: string)
    ensures r <= s
    ensures '"' !in r
    ensures |r| < |s| ==> s[|r|] == '"'
    ensures '"' !in s ==> r == s
  {
    if s == [] || s[0] == '"' then ""
    else [s[0]] + UpToQuote(s[1..])
  }

  /** The input text a prompt starts with, as written: `defaultValue` goes
      through an escape that leaves '"' alone and is placed inside
      `value="..."`, so the attribute ends at the first double quote. */
  function InitialInputAsWritten(defaultValue: string): (r: string)
    ensures '"' !in r && |r| <= |defaultValue|
  {
    Sanitize(UpToQuote(defaultValue))
  }

  /** The attribute text the parser keeps for the default value `say "hi"`. */
  lemma UpToQuoteExample()
    ensures UpToQuote("say \"hi\"") == "say "
  {
    var dv := "say \"hi\"";
    assert UpToQuote(dv[4..]) == "";
    assert UpToQuote(dv[3..]) == " ";
    assert UpToQuote(dv[2..]) == "y ";
    assert UpToQuote(dv[1..]) == "ay ";
  }

  /** `prompt(m, cb, {defaultValue: 'say "hi"'})` starts with the text "say ". */
  lemma QuotedDefaultExample()
    ensures InitialInputAsWritten("say \"hi\"") == "say "
    ensures InitialInput("say \"hi\"") == "say \"hi\""
  {
    UpToQuoteExample();
    var dv := "say \"hi\"";
    forall i | 0 <= i < |dv| ensures KeptAsIs(dv[i]) {
      assert dv[i] == 's' || dv[i] == 'a' || dv[i] == 'y' || dv[i] == ' ' || dv[i] == '"' || dv[i] == 'h' || dv[i] == 'i';
    }
    assert forall c :: c in dv ==> KeptAsIs(c);
    assert forall c :: c in dv[..4] ==> c in dv;
  }

  /** The input text a prompt evidently should start with: the whole
      `defaultValue`, subject only to the input field's own sanitization. */
  function InitialInput(defaultValue: string): (r: string)
    ensures (forall c :: c in defaultValue ==> KeptAsIs(c)) ==> r == defaultValue
  {
    Sanitize(defaultValue)
  }

  /** A default value with a double quote loses its tail as written: the two
      definitions differ exactly when the default value holds a '"'. */
  lemma QuoteTruncatesDefault(defaultValue: string)
    ensures '"' in defaultValue <==> InitialInputAsWritten(defaultValue) != InitialInput(defaultValue)
  {
    if '"' in defaultValue {
      assert '"' in InitialInput(defaultValue);
      assert '"' !in InitialInputAsWritten(defaultValue);
    }
  }
}
