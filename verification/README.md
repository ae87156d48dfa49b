# 196bot register store, in Dafny

196bot is a Telegram bot that lets a small set of allowed users edit files on
its host through chat commands. Its only stateful part is the per-user
register store, the "rom". It is a map `user_id -> [active_label, {label: text}]`.

- `/in <label>` opens a register.
- Plain text messages are appended to the open register, separated from earlier text by one newline.
- `/ni` releases the open register and saves the store.
- `/regs`, `/print <label>`, `/clear <label>` and `/clear_all` inspect or remove registers.

While a register is open, a guard refuses almost every other command with
"Release register X.". The file commands read and edit files; `/inject` and `/overwrite` write register text into them:

- `/read` prints numbered lines.
- `/inject` inserts or appends.
- `/overwrite` replaces a range.
- `/trim` deletes a range.

This project models that core as pure functions over an immutable store. It
proves what each command changes and what it leaves alone.

Modules, one file each:

- `Wrappers` (`wrappers.dfy`): `Option` and `Result`.
- `PyText` (`pytext.dfy`): the Python string builtins the bot uses. These are
  `str.split`, `str.strip(chars)`, `str(int)` and `int(str)`, with `sep.join`
  as the inverse of `split`, and their round trips.
- `Replies` (`replies.dfy`): the chat replies and the text each one produces.
- `Rom` (`rom.dfy`): the store and the helpers of utils.py. These are
  `must_release_rom`, `writing_to_rom`, `register_is_empty`,
  `create_registry_if_inexistent` and `count_lines_in_file`.
- `Registers` (`registers.dfy`): the handlers `register_request`,
  `register_insert`, `register_release`, `registry_show`, `register_print`,
  `register_clear` and `rom_clear`. Each one is a transition
  `(store, allow-list, user, args) -> (store', reply, saved snapshot)`.
- `Session` (`session.dfy`): the dispatcher, command sequences, and the
  properties that span several commands. These are the release guard, lazy
  label creation, the append format, per-user isolation and the
  well-formedness of the key order.
- `FileCommands` (`file_commands.dfy`): argument defaulting for `/read`,
  `/inject`, `/overwrite` and `/trim`, `/read`'s line numbering, and the
  choice between append and insert. These commands return the edits they
  would perform and never change the store.

The store entry `Registry(active, labels, regs)` keeps `labels`, the key
order of the Python dict, next to the `regs` map, because `/regs` prints
labels in that order. `ValidRegistry` ties the two together: no duplicates,
same keys. Every command preserves it (`Session.RunKeepsValid`). Python
truthiness of the active slot is explicit: `None` and `""` both mean no
register is open (`Rom.Truthy`).

Behaviour of the code that is easy to misread:

- Opening a register does not create the label. The label appears with the
  first message, so `/in x` followed by `/ni` leaves no `x`.
- A second `/in` while a register is open is refused. It never replaces the
  open label, so "last writer wins" cannot happen.
- Plain text messages are not checked against the allow-list. The source
  only asks whether the sender has an open register.
- `/read` with a non-numeric line number returns without any message. It
  does not send a usage line.
- `/inject` and `/overwrite` need the register to be present. A present register
  that holds `""` passes the check.
- `/regs` creates an empty entry for a caller who has none.
- `/clear_all` saves the store even when the caller had no entry.

## Model

| member | source | states |
|---|---|---|
| `PyText.Split` | bot.py:317 | `split('\n')` yields at least one piece, and no piece contains the separator |
| `PyText.SplitThenJoin` | bot.py:317 | joining the pieces of a split with the separator gives back the original string |
| `PyText.JoinThenSplit` | bot.py:317 | splitting a join of separator-free pieces gives back exactly those pieces |
| `PyText.SplitAtFirst` | bot.py:317 | the first separator ends the first piece, and the rest splits independently |
| `PyText.StripLeft` | bot.py:175 | `lstrip` removes the longest prefix of stripped characters: the result is a suffix that does not start with one |
| `PyText.StripRight` | bot.py:175 | `rstrip` removes the longest suffix of stripped characters: the result is a prefix that does not end with one |
| `PyText.StripRightIgnoresStrippable` | bot.py:175 | a tail made only of stripped characters has no effect on `rstrip` |
| `PyText.ParseIntToString` | bot.py:327 | `int(str(i)) == i` for every integer, as used when numbers are printed and parsed |
| `PyText.ParseIntAccepts` | bot.py:302 | `int()` accepts a string exactly when it is a non-empty run of ASCII digits, optionally after one `+` or `-`; any stray character is rejected |
| `PyText.ParseIntRejects` | bot.py:302 | `int()` rejects the empty string, a lone `+` or `-`, and any run of digits with a non-digit after it, or before it when that character is not a sign |
| `Replies.Render` | bot.py:84-88 | an unauthorised call and a silent return produce no chat text; the guard, empty-register and failure replies have their fixed wording |
| `Rom.MustReleaseRom` | utils.py:27-34 | a label blocks exactly when the user has an entry whose active label is non-empty; `None` and `""` do not block |
| `Rom.WritingToRom` | utils.py:36-42 | is true exactly when `must_release_rom` would block, so the two predicates always agree |
| `Rom.RegisterIsEmpty` | utils.py:44-53 | is false exactly when the user holds the label; a held register with text `""` is not empty |
| `Rom.CreateRegistryIfInexistent` | utils.py:55-58 | adds `[None, {}]` only for an absent user and leaves every existing entry unchanged, including its active label and registers |
| `Rom.CreateRegistryIdempotent` | utils.py:55-58 | creating the entry twice is the same as creating it once |
| `Rom.CreateRegistryKeepsValid` | utils.py:55-58 | adding an empty entry keeps every entry's key order consistent with its registers |
| `Rom.CountLines` | utils.py:13-20 | a failing `wc` gives -1, and so does output whose first space-separated field `int()` rejects |
| `Rom.CountLinesOfWcOutput` | utils.py:13-20 | for `wc -l` output of the form `<n> <file>` the count is `n` |
| `Registers.Refusal` | bot.py:102-106 | unauthorised callers are refused first; an allowed caller is refused exactly when a register is open, with that register's label |
| `Registers.RemoveLabel` | bot.py:230 | the key order after deleting a label holds exactly the other labels, still without duplicates; deleting an absent label changes nothing |
| `Registers.RemoveLabelKeepsOrder` | bot.py:230 | `del` keeps the other labels in their order: the deleted label's position is cut out and nothing else moves |
| `Registers.RegisterRequest` | bot.py:100-119 | `/in`: refused or wrong arity leaves the store unchanged; otherwise only the active label changes, no register is created, and other users are untouched |
| `Registers.RegisterInsert` | bot.py:122-136 | with no open register the store is unchanged; otherwise the open register gets the text, preceded by a newline only if it already held text; nothing else changes |
| `Registers.RegisterRelease` | bot.py:139-156 | `/ni` with nothing open answers "No register to release." and changes nothing; otherwise it clears the active label, keeps all texts, and saves exactly the new store |
| `Registers.RegistryShow` | bot.py:161-180 | `/regs` lists the caller's labels in key order and creates an empty entry if the caller had none |
| `Registers.RegisterPrint` | bot.py:183-205 | `/print` never changes the store; it sends the register's text, or "Register X is empty." if the label is absent |
| `Registers.RegisterClear` | bot.py:210-232 | `/clear` on an absent label changes nothing; on a present label it removes exactly that label, keeps the other texts, the other labels' order and the active label, and saves |
| `Registers.InsertFillsRegister` | bot.py:122-136 | after a message, the open register is no longer empty in the sense of `register_is_empty` |
| `Registers.ClearEmptiesRegister` | bot.py:210-232 | after a successful `/clear`, the register is empty, and a second `/clear` of it answers "Register X is empty." |
| `Registers.RomClear` | bot.py:235-247 | `/clear_all` removes the caller's entry and no other, is a no-op without one, and saves |
| `Registers.RegsMessageNoRegisters` | bot.py:172-176 | with no registers the `/regs` reply is exactly `Registers:.` |
| `Registers.RegsMessageListsLabels` | bot.py:172-176 | if the last label does not end in a comma or space, the reply is `Registers: ` + labels joined by `, ` + `.` |
| `Registers.RegsMessageHidesCommaLabel` | bot.py:175 | the strip also removes commas that belong to a label: a register named `,` is not listed at all |
| `Session.Handle` | bot.py:598-635 | every register command changes only the sender's entry, and every save writes exactly the resulting store |
| `Session.GuardBlocks` | bot.py:95-106 | while a register is open, every register command except a message and `/ni` answers "Release register X." and changes nothing |
| `Session.SecondOpenRefused` | bot.py:105-119 | after an accepted `/in a`, a following `/in b` is refused and `a` stays active |
| `Session.ActiveChangesOnlyByInOrNi` | bot.py:116-153 | whether a register is open changes only through `/in` and `/ni`, and an open register's label never changes |
| `Session.OpenThenReleaseCreatesNothing` | bot.py:116-153 | `/in x` then `/ni` restores the entry with no active label, and does not create `x` |
| `Session.AppendAllJoins` | bot.py:133-136 | successive messages are joined by single newlines with no leading separator, unless the first message is empty and meets an empty register |
| `Session.RunSays` | bot.py:122-136 | while a register is open, messages accumulate only in it; the active label and all other registers are unchanged |
| `Session.RoundTrip` | bot.py:100-205 | `/in x`, messages, `/ni`, then `/print x` returns the prior text and the messages, newline-joined |
| `Session.RoundTripExample` | bot.py:122-136 | `/in x`, "a", "b", `/ni`, `/print x` answers `a\nb` |
| `Session.HandleIsLocal` | bot.py:100-247 | a command's reply and its effect on the sender depend only on the sender's own entry |
| `Session.RunOthersUntouched` | bot.py:100-247 | no sequence of other users' commands changes a user's entry |
| `Session.RunSeesOnlyOwnEvents` | bot.py:100-247 | a user's entry after an interleaved session equals the result of that user's own commands alone |
| `Session.HandleKeepsValid` | bot.py:127-232 | every command keeps each entry's key order free of duplicates and equal to its set of registers |
| `Session.RunKeepsValid` | bot.py:127-232 | the key-order invariant holds after any command sequence |
| `FileCommands.ParseAll` | bot.py:300-304 | parsing succeeds exactly when every argument parses, and yields each argument's value in order |
| `FileCommands.ReadArgs` | bot.py:295-313 | `/read f` reads lines 1..6, `/read f s` reads s..s+5, and `/read f s e` reads s..e; a bad number ends silently; other arities get the usage line |
| `FileCommands.NumberLinesLoop` | bot.py:325-327 | the source's loop builds the numbered reply line by line |
| `FileCommands.NumberLinesSplit` | bot.py:324-327 | output line i appears as `i + line_start`, a space, then the line; one empty line follows |
| `FileCommands.ReadLines` | bot.py:287-331 | `/read` is refused under the guard, answers `-1` when `sed` fails, and otherwise numbers every output line from `line_start`, with one newline after each line and nothing after the last |
| `FileCommands.PlaceText` | bot.py:408 | register text is appended exactly when the requested line exceeds the line count; otherwise it is inserted at that line |
| `FileCommands.FailedCountAppends` | bot.py:408 | when the line count fails (-1), every line from 0 up takes the append path |
| `FileCommands.InjectArgs` | bot.py:381-400 | `/inject` with no line uses line 1; a bad line or arity gets the usage line |
| `FileCommands.Inject` | bot.py:373-440 | `/inject` needs the register to be held, and then performs one edit with the register's text: an append if the line exceeds the file's count, otherwise an insert at that line |
| `FileCommands.OverwriteArgs` | bot.py:451-470 | `/overwrite` with one line number uses it as both start and end |
| `FileCommands.Overwrite` | bot.py:443-524 | `/overwrite` deletes the range first, then appends or inserts at the start line, judged by the shortened file's count |
| `FileCommands.TrimArgs` | bot.py:535-553 | `/trim` with one line number uses it as both start and end; a bad number gets the second usage wording |
| `FileCommands.Trim` | bot.py:527-569 | `/trim` deletes exactly the requested range and needs no register |
| `FileCommands.SingleLineRanges` | bot.py:456-457 | a single printed line number `n` becomes the range n..n for `/trim` and `/overwrite`, the insertion line n for `/inject`, and n..n+5 for `/read` |
| `FileCommands.FileCommandsGuarded` | bot.py:291-292 | with a register open, every file command answers "Release register X." and edits nothing |

## Left out

- Telegram transport is not modelled: `Updater`, polling, `send_message` and handler registration. Replies are modelled as the `Reply` tag and `Render`'s text.
- Session.Handle: only the handler group 0 reply to a plain text message is modelled (`Silent`). bot.py:639-640 also registers `custom_functions` in group 1 for every text message. For a sender with an open register, its guard (bot.py:579-580, utils.py:28-33) answers each appended message with "Release register X.". An unknown sender gets `UnauthorizedExecution`, which is never shown. That second reply and `custom.core` are not modelled.
- Plain text messages are modelled only as the `Say` command. Whether the framework's text filter would also route unknown `/commands` to `register_insert` is not modelled.
- `/ping`, `/help`, `/restart` (`stop_process`), `/ls`, `/new` and the `custom.core` handler are left out. They call the shell or the process, or only send fixed or file-read text. `/ping` and `/help` check neither the allow-list nor the open register; the others use the same checks as `Refusal`.
- Loading `rom.pickle` and the `allowed_users` file is I/O. The store is a parameter, and the allow-list is a given `set<UserId>`. `save_rom` is modelled as the snapshot in `Step.saved`.
- File contents and the external tools are not modelled: `sed -i`, `sed -n`, `wc -l`, `open(..., "a")`, `ensure_trailing_newline` and `git_commit`. So is the `repr(...)[1:-1]` escaping of register text before `sed` sees it. The file commands return the edits they would perform, with the raw register text.
- `sed -n` output for `/read` is a function parameter, and `wc -l` output is a function parameter of `/inject` and `/overwrite`.
- FileCommands.Inject: the reply is `Silent` for a planned edit. The `-1` sent when `sed`, `open` or `ensure_trailing_newline` fails is not modelled, because those outcomes are external. Neither is the error text echoed when `git_commit` fails.
- FileCommands.Overwrite: the same as Inject. A failure of the delete step, which stops the command before the insert, is not modelled either.
- FileCommands.Trim: the same as Inject. The `-1` on an external failure is not modelled.
- PyText.ParseInt: only an optional sign followed by ASCII digits is accepted. Python's `int()` also accepts underscores between digits, non-ASCII digits and surrounding whitespace. Chat arguments are already split on whitespace, so only the first two differ.
- `/print` of a register that holds `""` is modelled as sending `""`. Telegram refuses an empty message, and the error callback then echoes that error. That path is not modelled.
- The `repr` text the error callback (bot.py:84-88) echoes for any other exception is not modelled. Only the rule that `UnauthorizedExecution` is never shown is modelled, as `Render`'s `Unauthorized` case.
