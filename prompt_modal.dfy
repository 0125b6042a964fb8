/** Model of `PromptModal` from src/modals.ts: a dialog that collects one string
    (single- or multi-line) and hands it to the plugin's archive operation when
    the user confirms with Enter or with the Submit button.

    The host's `Modal` base class, the DOM and the text widgets are left out; only
    their effect on the dialog's fields is kept. Everything the dialog does to the
    outside world is appended to an effect log, in order: a call to
    `preventDefault` on the triggering event, a call to
    `archiveVaultWithRetryAsync`, a close of the dialog. */
module PromptModals {

  const Enter: string := "Enter"

  /** The legacy `keyCode` browsers report for a key press that an input method
      editor is processing. */
  const ImeProcessKeyCode: int := 229

  /** A value that may be `null` or `undefined`. */
  datatype Option<T> = None | Some(value: T)
  {
    /** The `??` operator. */
    function GetOr(default: T): T
    {
      if Some? then value else default
    }
  }

  /** The fields of a `KeyboardEvent` the key handler reads. */
  datatype KeyEvent = KeyEvent(key: string, shiftKey: bool, isComposing: bool, keyCode: int)

  /** A key press that belongs to an input method composition. */
  predicate IsComposition(ev: KeyEvent)
  {
    ev.isComposing || ev.keyCode == ImeProcessKeyCode
  }

  /** What the key handler does with one key press. */
  datatype KeyAction =
    | Pass             // nothing: the browser's default action runs
    | SuppressDefault  // only `preventDefault`
    | Confirm          // `resolveAndClose`

  /** The branches of `enterCallback`, with `Platform.isDesktop` as a parameter. */
  function ClassifyKey(ev: KeyEvent, multiLine: bool, isDesktop: bool): (action: KeyAction)
    ensures action == Confirm <==>
      !IsComposition(ev) && ev.key == Enter && (!multiLine || (isDesktop && !ev.shiftKey))
    ensures action == SuppressDefault <==>
      !IsComposition(ev) && ev.key == Enter && multiLine && !isDesktop
  {
    if IsComposition(ev) then Pass
    else if multiLine then
      if isDesktop then
        if ev.shiftKey && ev.key == Enter then Pass
        else if ev.key == Enter then Confirm
        else Pass
      else if ev.key == Enter then SuppressDefault
      else Pass
    else if ev.key == Enter then Confirm
    else Pass
  }

  /** The caller's `resolve` continuation, held as an opaque handle. */
  datatype Continuation = Continuation(id: nat)

  /** Something the dialog does to the outside world. `Resolve` stands for a call
      of the stored continuation; no operation of the dialog performs one. */
  datatype Effect =
    | PreventDefault
    | ArchiveVault(value: string)
    | CloseModal
    | Resolve(value: string)

  /** The arguments of the calls to `archiveVaultWithRetryAsync`, in order. */
  function ConsumerCalls(effects: seq<Effect>): (calls: seq<string>)
    ensures |calls| <= |effects|
    ensures forall v :: v in calls <==> ArchiveVault(v) in effects
  {
    if effects == [] then []
    else
      var rest := ConsumerCalls(effects[1..]);
      assert effects == [effects[0]] + effects[1..];
      if effects[0].ArchiveVault? then [effects[0].value] + rest else rest
  }

  lemma {:induction false} ConsumerCallsAppend(a: seq<Effect>, b: seq<Effect>)
    ensures ConsumerCalls(a + b) == ConsumerCalls(a) + ConsumerCalls(b)
  {
    if a != [] {
      assert (a + b)[1..] == a[1..] + b;
      ConsumerCallsAppend(a[1..], b);
    } else {
      assert a + b == b;
    }
  }

  class PromptModal {
    const promptText: string
    const defaultValue: Option<string>
    const multiLine: bool
    /** `Platform.isDesktop`, fixed when the dialog is created. */
    const isDesktop: bool

    var resolve: Option<Continuation>
    var submitted: bool
    /** The edit buffer. It is `undefined` until the form is built; no handler
        can read it before then, since the form registers them. */
    var value: string
    /** The form has been built and its handlers registered. */
    var formBuilt: bool
    var isOpen: bool
    var effects: seq<Effect>

    /** `submitted` is set exactly when the archive operation has been called,
        and the stored continuation is never called. */
    ghost predicate Valid()
      reads this
    {
      (submitted <==> ConsumerCalls(effects) != []) &&
      forall i | 0 <= i < |effects| :: !effects[i].Resolve?
    }

    constructor (promptText: string, defaultValue: Option<string>, multiLine: bool, isDesktop: bool)
      ensures Valid()
      ensures this.promptText == promptText && this.defaultValue == defaultValue
      ensures this.multiLine == multiLine && this.isDesktop == isDesktop
      ensures resolve == None && !submitted && !formBuilt && !isOpen && effects == []
    {
      this.promptText := promptText;
      this.defaultValue := defaultValue;
      this.multiLine := multiLine;
      this.isDesktop := isDesktop;
      resolve := None;
      submitted := false;
      value := "";
      formBuilt := false;
      isOpen := false;
      effects := [];
    }

    /** `openAndGetValue`: store the continuation and open the dialog. */
    method OpenAndGetValue(resolve: Continuation)
      requires Valid()
      modifies this
      ensures Valid()
      ensures this.resolve == Some(resolve) && isOpen && formBuilt
      ensures value == defaultValue.GetOr("")
      ensures submitted == old(submitted) && effects == old(effects)
    {
      this.resolve := Some(resolve);
      Open();
    }

    /** The host's `open`, which runs `onOpen`. */
    method Open()
      requires Valid()
      modifies this
      ensures Valid()
      ensures isOpen && formBuilt && value == defaultValue.GetOr("")
      ensures resolve == old(resolve) && submitted == old(submitted) && effects == old(effects)
    {
      isOpen := true;
      OnOpen();
    }

    /** `onOpen`: set the title (left out) and build the form. */
    method OnOpen()
      requires Valid()
      modifies this
      ensures Valid()
      ensures formBuilt && value == defaultValue.GetOr("")
      ensures resolve == old(resolve) && submitted == old(submitted)
      ensures isOpen == old(isOpen) && effects == old(effects)
    {
      CreateForm();
    }

    /** `createForm`: the edit buffer starts at the default value, or "" when
        that is null or undefined; the change, key and (multi-line only) Submit
        handlers are registered. */
    method CreateForm()
      requires Valid()
      modifies this
      ensures Valid()
      ensures formBuilt && value == defaultValue.GetOr("")
      ensures resolve == old(resolve) && submitted == old(submitted)
      ensures isOpen == old(isOpen) && effects == old(effects)
    {
      value := defaultValue.GetOr("");
      formBuilt := true;
    }

    /** The change handler: the buffer takes the latest text. */
    method OnChange(text: string)
      requires Valid() && formBuilt
      modifies this
      ensures Valid()
      ensures value == text
      ensures resolve == old(resolve) && submitted == old(submitted) && formBuilt
      ensures isOpen == old(isOpen) && effects == old(effects)
    {
      value := text;
    }

    /** `enterCallback`: classify the key press, then apply the result. */
    method EnterCallback(ev: KeyEvent)
      requires Valid() && formBuilt
      modifies this
      ensures Valid()
      ensures value == old(value) && resolve == old(resolve) && formBuilt
      ensures match ClassifyKey(ev, multiLine, isDesktop)
        case Pass =>
          submitted == old(submitted) && isOpen == old(isOpen) && effects == old(effects)
        case SuppressDefault =>
          submitted == old(submitted) && isOpen == old(isOpen) &&
          effects == old(effects) + [PreventDefault] &&
          ConsumerCalls(effects) == ConsumerCalls(old(effects))
        case Confirm =>
          submitted && !isOpen &&
          effects == old(effects) + [PreventDefault, ArchiveVault(old(value)), CloseModal] &&
          ConsumerCalls(effects) == ConsumerCalls(old(effects)) + [old(value)]
    {
      match ClassifyKey(ev, multiLine, isDesktop)
      case Pass =>
      case SuppressDefault =>
        ConsumerCallsAppend(effects, [PreventDefault]);
        effects := effects + [PreventDefault];
      case Confirm =>
        ResolveAndClose();
    }

    /** The Submit button's click handler; the button exists only in
        multi-line mode. */
    method ClickSubmit()
      requires Valid() && formBuilt && multiLine
      modifies this
      ensures Valid()
      ensures value == old(value) && resolve == old(resolve) && formBuilt
      ensures submitted && !isOpen
      ensures effects == old(effects) + [PreventDefault, ArchiveVault(old(value)), CloseModal]
      ensures ConsumerCalls(effects) == ConsumerCalls(old(effects)) + [old(value)]
    {
      ResolveAndClose();
    }

    /** `resolveAndClose`: mark submitted, suppress the event's default, call the
        archive operation with the buffer, close. Nothing checks an earlier
        submission, and the stored continuation is not called. */
    method ResolveAndClose()
      requires Valid() && formBuilt
      modifies this
      ensures Valid()
      ensures value == old(value) && resolve == old(resolve) && formBuilt
      ensures submitted && !isOpen
      ensures effects == old(effects) + [PreventDefault, ArchiveVault(old(value)), CloseModal]
      ensures ConsumerCalls(effects) == ConsumerCalls(old(effects)) + [old(value)]
    {
      ConsumerCallsAppend(effects, [PreventDefault, ArchiveVault(value)]);
      submitted := true;
      effects := effects + [PreventDefault, ArchiveVault(value)];
      Close();
      assert ConsumerCalls([CloseModal]) == [];
    }

    /** The host's `close`, which runs `onClose`. It does not touch `submitted`
        and calls no one. */
    method Close()
      requires Valid()
      modifies this
      ensures Valid()
      ensures !isOpen && effects == old(effects) + [CloseModal]
      ensures ConsumerCalls(effects) == ConsumerCalls(old(effects))
      ensures value == old(value) && resolve == old(resolve)
      ensures submitted == old(submitted) && formBuilt == old(formBuilt)
    {
      ConsumerCallsAppend(effects, [CloseModal]);
      assert ConsumerCalls([CloseModal]) == [];
      isOpen := false;
      effects := effects + [CloseModal];
      OnClose();
    }

    /** `onClose`: empties the content (left out); its branch for a dialog that
        was not submitted is empty, so a dismissed dialog never delivers. */
    method OnClose()
      requires Valid()
      ensures !submitted ==> ConsumerCalls(effects) == []
    {
      if !submitted {
      }
    }
  }

  /** A single-line prompt confirmed with Enter before any edit delivers the
      default value, or "" when there is none. */
  method ConfirmDefault(defaultValue: Option<string>, isDesktop: bool, k: Continuation)
    returns (calls: seq<string>)
    ensures calls == [defaultValue.GetOr("")]
  {
    var m := new PromptModal("", defaultValue, false, isDesktop);
    m.OpenAndGetValue(k);
    m.EnterCallback(KeyEvent(Enter, false, false, 13));
    calls := ConsumerCalls(m.effects);
  }

  /** After any sequence of edits, confirming delivers the text of the last
      edit (the default when there were none), in every mode and on every
      platform: a single-line prompt confirms with Enter, a multi-line prompt
      with its Submit button. */
  method EditsThenConfirm(defaultValue: Option<string>, multiLine: bool, isDesktop: bool,
                          edits: seq<string>, k: Continuation)
    returns (calls: seq<string>)
    ensures calls == [if edits == [] then defaultValue.GetOr("") else edits[|edits| - 1]]
  {
    var m := new PromptModal("", defaultValue, multiLine, isDesktop);
    m.OpenAndGetValue(k);
    for i := 0 to |edits|
      invariant m.Valid() && m.formBuilt && m.effects == []
      invariant m.multiLine == multiLine && m.isDesktop == isDesktop
      invariant m.value == if i == 0 then defaultValue.GetOr("") else edits[i - 1]
    {
      m.OnChange(edits[i]);
    }
    if multiLine {
      m.ClickSubmit();
    } else {
      m.EnterCallback(KeyEvent(Enter, false, false, 13));
    }
    calls := ConsumerCalls(m.effects);
  }

  /** Nothing guards a second confirmation: two Enter presses on a single-line
      prompt call the archive operation twice. */
  method ConfirmTwice(text: string, k: Continuation) returns (calls: seq<string>)
    ensures calls == [text, text]
  {
    var m := new PromptModal("", None, false, true);
    m.OpenAndGetValue(k);
    m.OnChange(text);
    m.EnterCallback(KeyEvent(Enter, false, false, 13));
    m.EnterCallback(KeyEvent(Enter, false, false, 13));
    calls := ConsumerCalls(m.effects);
  }

  /** Multi-line on a touch device: Enter only suppresses the newline; the
      Submit button delivers the buffer. */
  method MobileEnterThenSubmit(text: string, k: Continuation)
    returns (submittedAfterEnter: bool, effectsAfterEnter: seq<Effect>, calls: seq<string>)
    ensures !submittedAfterEnter && effectsAfterEnter == [PreventDefault]
    ensures calls == [text]
  {
    var m := new PromptModal("", None, true, false);
    m.OpenAndGetValue(k);
    m.OnChange(text);
    m.EnterCallback(KeyEvent(Enter, false, false, 13));
    submittedAfterEnter, effectsAfterEnter := m.submitted, m.effects;
    m.ClickSubmit();
    calls := ConsumerCalls(m.effects);
  }

  /** Multi-line on a desktop: Shift+Enter is left to the browser (a newline),
      plain Enter delivers the buffer. */
  method DesktopShiftEnterThenEnter(text: string, k: Continuation)
    returns (effectsAfterShiftEnter: seq<Effect>, calls: seq<string>)
    ensures effectsAfterShiftEnter == []
    ensures calls == [text]
  {
    var m := new PromptModal("", None, true, true);
    m.OpenAndGetValue(k);
    m.OnChange(text);
    m.EnterCallback(KeyEvent(Enter, true, false, 13));
    effectsAfterShiftEnter := m.effects;
    m.EnterCallback(KeyEvent(Enter, false, false, 13));
    calls := ConsumerCalls(m.effects);
  }

  /** Enter pressed while an input method is composing does nothing, in any mode
      and on any platform. */
  method ComposingEnterIgnored(multiLine: bool, isDesktop: bool, legacyCode: bool, k: Continuation)
    returns (submitted: bool, effects: seq<Effect>)
    ensures !submitted && effects == []
  {
    var m := new PromptModal("", None, multiLine, isDesktop);
    m.OpenAndGetValue(k);
    var ev := if legacyCode then KeyEvent(Enter, false, false, ImeProcessKeyCode)
              else KeyEvent(Enter, false, true, 13);
    m.EnterCallback(ev);
    submitted, effects := m.submitted, m.effects;
  }

  /** A dialog closed without confirming never calls the archive operation and
      never calls the stored continuation. */
  method DismissWithoutSubmit(multiLine: bool, isDesktop: bool, text: string, k: Continuation)
    returns (submitted: bool, effects: seq<Effect>)
    ensures !submitted && effects == [CloseModal]
    ensures ConsumerCalls(effects) == []
  {
    var m := new PromptModal("", None, multiLine, isDesktop);
    m.OpenAndGetValue(k);
    m.OnChange(text);
    m.Close();
    submitted, effects := m.submitted, m.effects;
  }
}
