# Local Backup prompt dialog and heading rewriter, in Dafny

This project models the logic of `src/modals.ts` in the Obsidian plugin
Local Backup:

- `addExtraHashToHeadings` (module `MarkdownHeadings`): Markdown text is split
  on line feeds, every line that starts with `#` gets `numHashes` more `#`
  characters in front (default 1), and the lines are joined back. The source
  rewrites `lines[i]` in place inside an index loop; the method
  `AddExtraHashToHeadings` keeps that loop over an array and is proved equal to
  the specification function `WithExtraHashes`, about which the line-by-line
  properties are proved. JavaScript's `split("\n")` and `join("\n")` are
  `Split` and `Join`; both round trips between them are proved.
  `"#".repeat(n)` is modelled as ECMAScript defines it for an integer count:
  it throws a RangeError for a negative `n`. Since it is only evaluated on
  heading lines, the model throws exactly when the count is negative and some
  line is a heading. The JavaScript engine's own limit on string length is not
  modelled (see "Left out").
- `PromptModal` (module `PromptModals`): the dialog that asks for one string
  and passes it to the plugin's `archiveVaultWithRetryAsync`. It is a class with
  the source's fields `submitted`, `value` and the stored `resolve`
  continuation, plus an open flag, a flag for "the form has been built" and a
  log of the dialog's effects on the outside world (`preventDefault` on the
  triggering event, a call of the archive operation, a close). The key handler's
  branches are the pure function `ClassifyKey`, which `EnterCallback` applies to
  the object. `Platform.isDesktop` is a constructor argument, so both platform
  branches are covered. The object invariant `Valid` says that `submitted` is
  true exactly when the archive operation has been called, and that the stored
  continuation has never been called.

The code is modelled as written. `resolveAndClose` does not look at
`submitted`, so confirming twice calls the archive operation twice
(`ConfirmTwice`). This is a fact about the handlers' code: in the running
plugin, `onClose` empties the dialog's content (src/modals.ts:107), which
removes the text input and the Submit button, so a second confirm needs an
event on an element that has been removed. The `resolve` continuation is stored by `openAndGetValue` but
nothing calls it; the branch of `onClose` for a dialog that was not submitted
is empty. A reading of the dialog as "delivers exactly once, through the
continuation" is therefore not what the code does, and the model does not
add such a guard or call.

The small methods at the end of `PromptModals` (`ConfirmDefault`,
`EditsThenConfirm`, …) build a fresh dialog, drive it through a sequence of
events and state what was delivered; they are the dialog's promised behaviour
proved from the class's contracts.

## Model

| member | source | states |
|---|---|---|
| MarkdownHeadings.Split | src/modals.ts:70 | `split("\n")` gives one more piece than there are line feeds, and no piece holds a line feed |
| MarkdownHeadings.Join | src/modals.ts:81 | `lines.join("\n")`: the result starts with the first line and has at least one more character (the line feed) for each further line |
| MarkdownHeadings.JoinSeparators | src/modals.ts:81 | a join of k lines that hold no line feed holds exactly k − 1 line feeds (where they sit follows from `SplitJoin`) |
| MarkdownHeadings.JoinSplit | src/modals.ts:70-81 | joining the pieces of a split with line feeds gives back the text |
| MarkdownHeadings.SplitJoin | src/modals.ts:70-81 | splitting a join of one or more lines without line feeds gives back those lines |
| MarkdownHeadings.IsHeading | src/modals.ts:74 | `line.startsWith("#")`: the line is not empty and its first character is `#` |
| MarkdownHeadings.RepeatHash | src/modals.ts:76 | `"#".repeat(n)` as ECMAScript defines it for an integer count: a RangeError exactly when `n` is negative, otherwise `n` `#` characters |
| MarkdownHeadings.WithExtraHashes | src/modals.ts:68-82 | the result of the whole function: it throws exactly when the count is negative and some line is a heading, and a negative count with no heading line returns the text unchanged; its line-by-line content is given by `HeadingsGainHashes` |
| MarkdownHeadings.AddExtraHashToHeadings | src/modals.ts:68-82 | the in-place loop over the split lines returns (or throws) exactly what `WithExtraHashes` specifies |
| MarkdownHeadings.LineCountPreserved | src/modals.ts:70-81 | the call throws exactly when the count is negative and some line is a heading; otherwise the output splits into as many lines as the input |
| MarkdownHeadings.HeadingsGainHashes | src/modals.ts:73-78 | line by line: a line starting with `#` becomes `numHashes` `#` characters followed by the original line, every other line is unchanged |
| MarkdownHeadings.ZeroHashesIdentity | src/modals.ts:68-82 | with `numHashes = 0` the output is the input |
| PromptModals.ClassifyKey | src/modals.ts:141-162 | a key press confirms exactly when it is not part of a composition (`isComposing` or key code 229), its key is `Enter`, and the prompt is single-line or a desktop multi-line prompt without Shift; it only suppresses the default exactly for a non-composing `Enter` in a multi-line prompt on mobile; everything else does nothing |
| PromptModals.PromptModal.constructor | src/modals.ts:84-99 | a new dialog keeps its configuration, is not submitted, not open, has no form, no stored continuation and no effects |
| PromptModals.PromptModal.OpenAndGetValue | src/modals.ts:171-174 | the continuation is stored, the dialog opens and its form is built; `submitted` and the effect log are unchanged (the continuation is not called) |
| PromptModals.PromptModal.Open | src/modals.ts:101-104 | opening runs `onOpen`: the dialog is open, its form built, the buffer at the default value |
| PromptModals.PromptModal.OnOpen | src/modals.ts:101-104 | `onOpen` builds the form and changes nothing else |
| PromptModals.PromptModal.CreateForm | src/modals.ts:112-139 | after the form is built the buffer is the default value, or `""` when it is null or undefined; nothing else changes |
| PromptModals.PromptModal.OnChange | src/modals.ts:135 | each change event sets the buffer to the latest text and changes nothing else |
| PromptModals.PromptModal.EnterCallback | src/modals.ts:141-162 | per `ClassifyKey`: an ignored key changes nothing; a mobile multi-line `Enter` only appends `preventDefault`; a confirming key sets `submitted`, closes, appends `preventDefault`, one archive call with the current buffer and the close, in that order |
| PromptModals.PromptModal.ClickSubmit | src/modals.ts:124-126 | the Submit button (multi-line only) confirms whatever the platform, with the same effects as a confirming key |
| PromptModals.PromptModal.ResolveAndClose | src/modals.ts:164-169 | sets `submitted`, then `preventDefault`, one archive call with the current buffer, then close; no check of an earlier submission, and the stored continuation is not called |
| PromptModals.PromptModal.Close | src/modals.ts:106-110 | closing appends only the close: `submitted`, the buffer and the archive calls are unchanged |
| PromptModals.PromptModal.OnClose | src/modals.ts:106-110 | `onClose` changes nothing; a dialog that was not submitted has made no archive call |
| PromptModals.ConfirmDefault | src/modals.ts:131 | Enter on a single-line prompt with no edits delivers the default value, or `""` when there is none |
| PromptModals.EditsThenConfirm | src/modals.ts:124-135 | in every mode and on every platform, after any sequence of edits, confirming (Enter on a single-line prompt, the Submit button on a multi-line one) delivers the text of the last edit, or the default when there were none |
| PromptModals.ConfirmTwice | src/modals.ts:164-169 | two confirming key presses deliver the buffer twice: nothing guards a second submission |
| PromptModals.MobileEnterThenSubmit | src/modals.ts:151-156 | on mobile, multi-line `Enter` leaves the dialog unsubmitted with only a `preventDefault`; Submit then delivers the buffer once |
| PromptModals.DesktopShiftEnterThenEnter | src/modals.ts:145-150 | on desktop, multi-line Shift+Enter has no effect at all (no `preventDefault`); plain Enter delivers the buffer |
| PromptModals.ComposingEnterIgnored | src/modals.ts:142 | `Enter` during a composition (flag or key code 229) has no effect in any mode on any platform |
| PromptModals.DismissWithoutSubmit | src/modals.ts:106-110 | closing without confirming records only the close: not submitted, no archive call, no continuation call |

## Left out

- `NewVersionNotifyModal` (src/modals.ts:14-66): static presentation (Markdown rendering, DOM elements, inline styles), with no state transitions.
- The host `Modal` base class, `titleEl`/`contentEl`, CSS classes, the placeholder and the text, text-area and button widgets: foreign UI calls. Only their effect on the buffer, the open flag and the effect log is modelled; the prompt text is kept as a field but the title is not.
- The internals of `archiveVaultWithRetryAsync` (retry logic and file I/O in another file): each call is an entry in the effect log. The call is assumed to return, as an `async` function does even when its work fails, so `close` always follows it; its definition is not part of this model.
- The `async`/Promise wrapper of `openAndGetValue` and the event loop: only the stored continuation remains, as a field.
- What the host does with events that reach a closed dialog: the model lets every handler run once the form is built, as the handlers' code does.
- PromptModals.PromptModal.CreateForm: the buffer before the form is built is JavaScript's `undefined`; the model gives it a placeholder and every handler requires the form to be built, since the form is what registers them.
- MarkdownHeadings.AddExtraHashToHeadings: `numHashes` is an integer; JavaScript's truncation of a fractional count, `Infinity` and `NaN` are not modelled. Neither is the engine's maximum string length (about 2^29 characters in V8): there `"#".repeat(n)`, the concatenation with the line, and `join` also throw a RangeError for a large enough count or text, while the model returns a result for every non-negative count.
