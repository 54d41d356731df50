/** The search input: every value it hands to its owner is built from
    ASCII letters and whitespace only. Each handler is a pure function from
    the event (and the current value) to what the handler does. */
module SearchBar {
  import opened Wrappers
  import Seqs
  import Text

  /** The JavaScript `\s` class: the ECMAScript WhiteSpace and
      LineTerminator code points. */
  predicate IsWhitespace(c: char) {
    || c == '\t' || c == '\n' || c == '\U{000B}' || c == '\U{000C}' || c == '\r'
    || c == ' ' || c == '\U{00A0}' || c == '\U{1680}'
    || ('\U{2000}' <= c <= '\U{200A}')
    || c == '\U{2028}' || c == '\U{2029}' || c == '\U{202F}' || c == '\U{205F}'
    || c == '\U{3000}' || c == '\U{FEFF}'
  }

  predicate IsAsciiLetter(c: char) {
    ('A' <= c <= 'Z') || ('a' <= c <= 'z')
  }

  /** Membership in the character class `[A-Za-z\s]`. */
  predicate IsAllowed(c: char) {
    IsAsciiLetter(c) || IsWhitespace(c)
  }

  /** A search term that needs no sanitizing. */
  predicate IsClean(s: string) {
    forall i :: 0 <= i < |s| ==> IsAllowed(s[i])
  }

  /** `CHAR_OK.test(s)` for the anchored pattern `^[A-Za-z\s]$`. */
  predicate CharOk(s: string): (ok: bool)
    ensures ok <==> |s| == 1 && IsClean(s)
  {
    |s| == 1 && IsAllowed(s[0])
  }

  /** `s.replace(STR_SANITIZE, "")`: every character outside `[A-Za-z\s]`
      is removed; what remains is exactly the allowed characters of `s`,
      each as often as in `s` and in the same order. */
  function Sanitize(s: string): (r: string)
    ensures IsClean(r)
    ensures forall c :: multiset(r)[c] == if IsAllowed(c) then multiset(s)[c] else 0
    ensures Seqs.IsSubsequence(r, s)
  {
    Seqs.Filter(s, IsAllowed)
  }

  /** A string is left alone by the sanitizer exactly when it is clean. */
  lemma SanitizeFixesExactlyClean(s: string)
    ensures Sanitize(s) == s <==> IsClean(s)
  {
    if IsClean(s) {
      Seqs.FilterKeepsAll(s, IsAllowed);
    }
  }

  lemma SanitizeIdempotent(s: string)
    ensures Sanitize(Sanitize(s)) == Sanitize(s)
  {
    Seqs.FilterIdempotent(s, IsAllowed);
  }

  /** Sanitizing distributes over concatenation. */
  lemma SanitizeConcat(a: string, b: string)
    ensures Sanitize(a + b) == Sanitize(a) + Sanitize(b)
  {
    Seqs.FilterConcat(a, b, IsAllowed);
  }

  /** `handleKeyDown`: whether `preventDefault` is called for a key press.
      Chords are never intercepted; otherwise only a one-character key
      outside the class is, so named keys such as "Backspace" pass. */
  function KeyDownPrevented(key: string, ctrlKey: bool, metaKey: bool, altKey: bool): (prevent: bool)
    ensures ctrlKey || metaKey || altKey ==> !prevent
    ensures |key| != 1 ==> !prevent
    ensures !(ctrlKey || metaKey || altKey) && |key| == 1 ==> (prevent <==> !IsAllowed(key[0]))
  {
    if ctrlKey || metaKey || altKey then false
    else |key| == 1 && !CharOk(key)
  }

  /** The keystroke guard and the sanitizer agree: an unmodified one-character
      key is blocked exactly when the sanitizer would delete it, and a key that
      is let through survives sanitizing unchanged. */
  lemma KeyGuardAgreesWithSanitize(key: string)
    requires |key| == 1
    ensures KeyDownPrevented(key, false, false, false) <==> Sanitize(key) == ""
    ensures !KeyDownPrevented(key, false, false, false) ==> Sanitize(key) == key
  {
  }

  /** Where a selection bound lands: `selectionStart ?? value.length`. */
  function Caret(value: string, bound: Option<nat>): (pos: nat)
    ensures bound.Some? ==> pos == bound.value
    ensures bound.None? ==> pos == |value|
  {
    bound.GetOr(|value|)
  }

  /** `handlePaste`: `None` when the clipboard text is already clean (the
      browser's own paste goes ahead and nothing is emitted); otherwise the
      default is prevented and the value emitted is the current value with
      the selection replaced by the cleaned text. */
  function HandlePaste(value: string, selectionStart: Option<nat>, selectionEnd: Option<nat>, pasted: string)
    : (next: Option<string>)
    ensures next.None? <==> IsClean(pasted)
    ensures next.Some? && IsClean(value) ==> IsClean(next.value)
    ensures next.Some? ==>
      var start, end := Caret(value, selectionStart), Caret(value, selectionEnd);
      start <= end <= |value| ==>
        && next.value == value[..start] + Sanitize(pasted) + value[end..]
        && |next.value| == |value| - (end - start) + |Sanitize(pasted)|
  {
    var cleaned := Sanitize(pasted);
    SanitizeFixesExactlyClean(pasted);
    if cleaned == pasted then None
    else
      var start := Caret(value, selectionStart);
      var end := Caret(value, selectionEnd);
      Some(Text.SliceTo(value, start) + cleaned + Text.SliceFrom(value, end))
  }

  /** With no selection reported, the cleaned text is appended. */
  lemma PasteWithoutSelectionAppends(value: string, pasted: string)
    requires !IsClean(pasted)
    ensures HandlePaste(value, None, None, pasted) == Some(value + Sanitize(pasted))
  {
    SanitizeFixesExactlyClean(pasted);
    assert Caret(value, None) == |value|;
    assert Text.SliceTo(value, |value|) == value;
    assert Text.SliceFrom(value, |value|) == "";
    assert Text.SliceTo(value, |value|) + Sanitize(pasted) + Text.SliceFrom(value, |value|) == value + Sanitize(pasted);
  }

  /** The manual splice yields what a native paste followed by the change
      handler's sanitizing would have yielded, whenever the current value is
      clean and the selection is a real range of it. */
  lemma PasteIsSanitizedNativePaste(value: string, start: nat, end: nat, pasted: string)
    requires IsClean(value) && !IsClean(pasted)
    requires start <= end <= |value|
    ensures HandlePaste(value, Some(start), Some(end), pasted)
         == Some(Sanitize(value[..start] + pasted + value[end..]))
  {
    var pre, post := value[..start], value[end..];
    assert IsClean(pre) && IsClean(post);
    SanitizeConcat(pre + pasted, post);
    SanitizeConcat(pre, pasted);
    SanitizeFixesExactlyClean(pre);
    SanitizeFixesExactlyClean(post);
  }

  /** The events the input reacts to. */
  datatype InputEvent =
    | Change(raw: string)
    | KeyDown(key: string, ctrlKey: bool, metaKey: bool, altKey: bool)
    | Paste(selectionStart: Option<nat>, selectionEnd: Option<nat>, pasted: string)

  /** What a handler does: whether it cancels the browser's default action,
      and the value it passes to `onChange`, if any. */
  datatype Reaction = Reaction(preventDefault: bool, emitted: Option<string>)

  /** The input as an event filter over its current (controlled) `value`. */
  function Handle(value: string, ev: InputEvent): (r: Reaction)
    ensures IsClean(value) && r.emitted.Some? ==> IsClean(r.emitted.value)
    ensures ev.Change? ==> r.emitted.Some? && !r.preventDefault
    ensures ev.KeyDown? ==> r.emitted.None?
    ensures ev.Paste? ==> (r.preventDefault <==> r.emitted.Some?)
    ensures ev.Change? ==> r == Reaction(false, Some(Sanitize(ev.raw)))
    ensures ev.KeyDown? ==> r == Reaction(KeyDownPrevented(ev.key, ev.ctrlKey, ev.metaKey, ev.altKey), None)
    ensures ev.Paste? ==> r.emitted == HandlePaste(value, ev.selectionStart, ev.selectionEnd, ev.pasted)
  {
    match ev
    case Change(raw) => Reaction(false, Some(Sanitize(raw)))
    case KeyDown(key, ctrl, meta, alt) => Reaction(KeyDownPrevented(key, ctrl, meta, alt), None)
    case Paste(selStart, selEnd, pasted) =>
      var next := HandlePaste(value, selStart, selEnd, pasted);
      Reaction(next.Some?, next)
  }

  /** `"a1"` pasted into an empty input becomes `"a"`, with the default
      paste suppressed. */
  lemma PasteExample()
    ensures Handle("", Paste(None, None, "a1")) == Reaction(true, Some("a"))
  {
    assert "a1" == ['a'] + ['1'];
    assert !IsAllowed("a1"[1]);
    SanitizeConcat(['a'], ['1']);
    SanitizeFixesExactlyClean(['a']);
    assert Sanitize(['1']) == [] by {
      assert multiset(Sanitize(['1']))['1'] == 0;
    }
    assert Sanitize("a1") == "a";
    SanitizeFixesExactlyClean("a1");
    PasteWithoutSelectionAppends("", "a1");
    assert "" + "a" == "a";
  }

  /** `handlePaste` as the component wires it. `onPaste` is handed to the
      text field itself rather than to its inner `<input>`, so the handler
      runs on the field's wrapper element, where `e.currentTarget` has no
      `selectionStart` and no `value`. Reading `value.length` then throws,
      after the default paste was already cancelled: a paste that needs
      cleaning inserts nothing and emits nothing. */
  function HandlePasteOnWrapper(pasted: string): (r: Reaction)
    ensures r.emitted.None?
    ensures r.preventDefault <==> !IsClean(pasted)
  {
    SanitizeFixesExactlyClean(pasted);
    Reaction(Sanitize(pasted) != pasted, None)
  }

  /** Wired to the wrapper, every paste that needs cleaning is lost, even
      when its cleaned text is non-empty, whereas the handler on the input
      would have spliced the cleaned text in. */
  lemma WrapperPasteLosesCleanedText(value: string, pasted: string)
    requires !IsClean(pasted)
    ensures HandlePasteOnWrapper(pasted) == Reaction(true, None)
    ensures Handle(value, Paste(None, None, pasted)) == Reaction(true, Some(value + Sanitize(pasted)))
  {
    PasteWithoutSelectionAppends(value, pasted);
  }

  /** The concrete case: `"a1"` pasted into an empty field is cancelled and
      nothing reaches the owner, instead of the search becoming `"a"`. */
  lemma WrapperPasteExample()
    ensures HandlePasteOnWrapper("a1") == Reaction(true, None)
    ensures Handle("", Paste(None, None, "a1")).emitted == Some("a")
  {
    PasteExample();
    assert !IsClean("a1") by {
      assert !IsAllowed("a1"[1]);
    }
    var r := HandlePasteOnWrapper("a1");
    assert r.preventDefault && r.emitted.None?;
  }
}
