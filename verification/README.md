# To-do list: a verified model of the task-list controller

The application is a single page with a text field, an add button and a
list. Each list item shows a task text and a "Remove" button. The list
persists across reloads in the browser's `localStorage`, under the key
`'tasks'`, as a JSON array of strings. All of the behaviour lives in
`script.js`.

This project models the page as a state with three parts:

- the `'tasks'` slot: absent, or holding a list of strings;
- the texts of the rendered `<li>` items, in order;
- the contents of the text field.

The controller functions are pure transitions on that state:
`getStoredTasks`, `setStoredTasks`, `saveTask`, `removeTaskFromStorage`, the
remove button's click handler, `addTask` and `loadTasks`. A session is a
startup load followed by user events: typing, submitting with the button or
Enter, clicking a remove button, and reloading the page.

Modules, one per file:

- `Wrappers` (`wrappers.dfy`): `Option`.
- `Text` (`text.dfy`): `String.prototype.trim` over the ECMAScript whitespace and line-terminator code points, and the predicate for a *task text*: non-empty, with no whitespace at either end.
- `Sequences` (`sequences.dfy`): `indexOf` and a one-element `splice`. Also an independent recursive definition of first-occurrence removal, which they are proved equal to.
- `Storage` (`storage.dfy`): the four storage helpers.
- `TaskList` (`task_list.dfy`): `addTask`, the remove handler and `loadTasks`.
- `Session` (`session.dfy`): event sequences, and the relation between the two copies of the list (screen and storage).

The central fact concerns those two copies. A remove click takes the clicked
item off the screen. It then takes the *first* stored entry with the same
text out of storage. So, from a start whose storage holds only task texts,
screen and storage hold the same multiset of texts after any sequence of
events. They stay equal as sequences exactly when every item from the first
occurrence of the clicked text up to the clicked item carries that text.

Clicking the second `a` of `[a, b, a]` shows why the condition matters. The
screen keeps `[a, b]` while storage keeps `[b, a]`, and a reload then shows
`[b, a]`. The comment on `removeTaskFromStorage` (script.js:29) names this
first-match behaviour, so the model keeps it as written rather than
correcting it.

The qualification matters too. A stored entry with surrounding whitespace,
such as `" a"`, renders trimmed as `"a"`. A click on that item finds no
stored `"a"` and removes nothing from storage, so a reload brings the item
back.

The page's markup is not part of this model. The model assumes that at load
the field is empty and the list has no items.

## Model

| member | source | states |
|---|---|---|
| Text.IsWs | script.js:72 | the characters `trim` strips are the ECMAScript WhiteSpace and LineTerminator code points, all in the Basic Multilingual Plane |
| Text.Trim | script.js:72 | `raw.trim()`: the result is no longer than the input. It has no whitespace at either end. It is empty exactly when the input is all whitespace. |
| Text.TrimSplits | script.js:72 | trim removes only whitespace: the input is a whitespace prefix, then the trimmed text, then a whitespace suffix |
| Text.TrimUnique | script.js:72 | reference characterisation: a whitespace prefix, a middle with no whitespace at its ends, and a whitespace suffix trim to exactly that middle |
| Text.TrimOfTrimmed | script.js:72 | a text with no whitespace at either end trims to itself |
| Text.TrimIdempotent | script.js:72 | trimming twice is trimming once |
| Text.TrimGivesTask | script.js:72-78 | an input that is not all whitespace passes the `taskText === ''` check, and what it trims to is a task text |
| Sequences.IndexOf | script.js:32 | `indexOf` returns -1 exactly when the text is absent; otherwise it returns an index holding the text, with no earlier index holding it |
| Sequences.Splice | script.js:34 | `splice(i, 1)` shortens the list by one; elements before `i` stay put and later ones shift down by one |
| Sequences.SpliceMultiset | script.js:34 | the splice takes exactly one copy of the removed element out of the multiset |
| Sequences.RemoveFirstMultiset | script.js:29-37 | removing the first occurrence of a present text takes exactly one copy of it out of the multiset |
| Sequences.SpliceIndexOfIsRemoveFirst | script.js:32-34 | splicing at the index `indexOf` finds equals the independent first-occurrence removal |
| Sequences.RemoveFirstAtLeastIndex | script.js:29-37 | first-occurrence removal deletes exactly the element at the least index holding the text, keeping the order of the rest |
| Sequences.SpliceSameIff | script.js:53-56 | deleting at `j` or at `k >= j` gives the same list if and only if every element from `j` to `k` is equal |
| Storage.GetStoredTasks | script.js:13-15 | an absent slot reads as the empty list, and a present one as the list it holds |
| Storage.SetStoredTasks | script.js:18-20 | the slot afterwards is present and holds exactly the given list |
| Storage.StoredRoundTrip | script.js:13-20 | reading back what `setStoredTasks` wrote gives the same list |
| Storage.SaveTask | script.js:23-27 | the slot ends up present and one entry longer. The old list is an unchanged prefix and the text is the last entry. |
| Storage.RemoveTaskFromStorage | script.js:30-37 | an absent text causes no write, so the slot is unchanged and an absent slot stays absent. A present text leaves the stored list with its first occurrence removed. |
| Storage.RemoveDeletesFirstOccurrence | script.js:30-37 | removal keeps the entries before the least matching index, drops that entry, and keeps the entries after it |
| TaskList.AddTask | script.js:70-92 | the text is the parameter if given, else the field, trimmed. A blank text raises exactly one alert and changes nothing. Otherwise there is no alert, the text is a task text and is rendered last, and the field is cleared. It is stored last when `save` is set; the slot is untouched when it is not. |
| TaskList.ClickRemove | script.js:53-56 | the clicked item leaves the screen and every other item keeps its order. Storage loses the first entry equal to the clicked text, and is untouched when no entry is equal. The field is unchanged. |
| TaskList.ClickRemoveMultisets | script.js:53-56 | a click takes one copy of the clicked text out of the screen's multiset, and out of storage's when storage holds it |
| TaskList.Rendering | script.js:71-78 | `addTask(raw, false)` renders at most one item, and none exactly when `raw` is blank |
| TaskList.TasksOf | script.js:99 | what a replay renders is never longer than the stored list, and holds only task texts |
| TaskList.LoadStep | script.js:99 | one `addTask(text, false)` call never writes storage. It appends the text's rendering, alerts exactly when nothing is rendered, and clears the field otherwise. |
| TaskList.Replay | script.js:97-100 | the `forEach` replay never writes storage. It raises one alert per blank entry, and clears the field exactly when it renders something. |
| TaskList.ReplayRenders | script.js:97-100 | the replay appends each stored entry trimmed, skipping blank ones, in stored order |
| TaskList.TasksOfTasks | script.js:99 | stored entries that are already task texts render as themselves |
| TaskList.LoadTasks | script.js:97-100 | `loadTasks` never writes storage. When every stored entry is a task text it renders exactly the stored list, in order, with no alert. |
| Session.Start | script.js:114-115 | startup leaves storage as it was. With a stored list of task texts, the screen shows exactly that list and no alert is raised. |
| Session.StartEmpty | script.js:13-15 | starting with no `'tasks'` key shows nothing, raises no alert, and writes nothing (the key stays absent) |
| Session.SubmitKeepsCopiesAligned | script.js:105-112 | a blank submission alerts and changes nothing. A valid submission keeps screen and storage holding the same multiset of task texts, and keeps them equal when they were equal. |
| Session.TypeAndSubmit | script.js:105-112 | typing a task text and submitting appends it to both screen and storage and clears the field |
| Session.ClickRemoveKeepsConsistent | script.js:53-56 | a remove click keeps screen and storage holding the same multiset of task texts |
| Session.ClickRemoveKeepsMultisets | script.js:53-56 | a remove click alone keeps screen and storage holding the same multiset, whatever storage holds |
| Session.ClickRemoveInSyncIff | script.js:53-56 | starting from equal screen and storage, a click keeps them equal if and only if every item from the first occurrence of the clicked text up to the clicked item carries that text |
| Session.ClickFirstOccurrenceKeepsInSync | script.js:53-56 | clicking the first item with a given text keeps screen and storage equal |
| Session.DuplicateClickReorders | script.js:53-56 | clicking the second `a` of `[a, b, a]` leaves `[a, b]` on screen and `[b, a]` in storage: the same multiset in a different order |
| Session.FirstDuplicateClick | script.js:53-56 | clicking the first `a` of `[a, b, a]` leaves `[b, a]` in both copies |
| Session.Step | script.js:105-115 | one event. The add button and Enter both submit (see `TypeAndSubmit`, `SubmitKeepsCopiesAligned`), a click runs the remove handler (`TaskList.ClickRemove`), and a reload reruns startup (`ReloadShowsStorage`). Typing and reloading never write storage, and a remove position past the end changes nothing. |
| Session.StepKeepsConsistent | script.js:53-115 | every user event keeps screen and storage holding the same multiset of task texts |
| Session.RunKeepsConsistent | script.js:105-115 | so does any sequence of events |
| Session.RunWithoutRemoveKeepsInSync | script.js:105-112 | with no remove click, screen and storage stay equal as sequences |
| Session.ReloadShowsStorage | script.js:97-100 | reloading a page whose storage holds task texts shows exactly the stored list and writes nothing |
| Session.ReloadAfterSession | script.js:114-115 | after any session that began from stored task texts, a reload shows exactly the stored list. It writes nothing, and shows the same multiset of texts as before the reload. |
| Session.ReloadAfterAddsRestoresScreen | script.js:97-115 | the reload round trip: after a session without remove clicks that began with screen and storage equal, a reload shows the same ordered list as before it and writes nothing |
| Session.UntrimmedEntryOutlivesClick | script.js:53-56 | a stored entry `" " + a` loads as `a`. A click on it empties the screen but leaves storage as it was, so a reload brings the item back. |
| Session.AddTwo | script.js:105-112 | from an empty page, adding two task texts shows and stores both, in order |
| Session.RemoveFirstThenReload | script.js:53-56 | with two different texts shown and stored, removing the first and reloading leaves only the second |
| Session.AddAddRemoveReload | script.js:105-115 | starting with no stored key: add `a`, add a different `b`, remove the first item, reload. The page then shows and stores just `b`. |

## Left out

- DOM mechanics: creating the `<li>` and its button (script.js:44-60), `appendChild` and `removeChild`, and `focus()` (script.js:91). The screen is modelled by the texts of its items, in order.
- Event wiring (script.js:105-112) is modelled by the `Session.Event` datatype. Keypresses other than Enter do nothing, so they are not events. Typing is a single `Edit` event that replaces the field's contents.
- `alert` text: each alert is counted in `Effect.alerts`, and its message is not modelled.
- JSON encoding and `localStorage` (script.js:14, 19) are foreign calls. The slot is modelled by the list it holds. A stored empty string is treated like an absent key by `|| '[]'`; that case, and any value that is not a JSON array of strings, are outside the model. The code has no guard around `JSON.parse`, so a malformed stored value would throw at startup rather than read as empty. The model does not claim that such values degrade to an empty list.
- Stored entries that are not strings: the `typeof` check at script.js:71 would fall back to the field's contents for them. Stored lists are `seq<string>` here, so that branch is reached only by the no-argument call. The parameter is an `Option<string>`.
- Strings are sequences of Unicode scalar values rather than UTF-16 code units. Two operations look at strings. `trim` removes whole whitespace code points, all in the Basic Multilingual Plane (`Text.IsWs`). The `===` inside `indexOf` (script.js:32) compares code units. For well-formed strings that comparison agrees with Dafny's equality on scalar values. Strings holding lone surrogates are outside the model.
- Stored entries that are not task texts: `Session.Consistent`, `RunKeepsConsistent` and `ReloadAfterSession` assume that storage starts out holding only trimmed, non-empty texts. Without that, the copies differ from the first load on. A click on such an item removes nothing from storage, and a reload brings the item back (`UntrimmedEntryOutlivesClick`).
- Session.Step: a `Remove` position past the end of the list names no button, so it is modelled as doing nothing.
- Session.Step: a reload starts from an empty field and an empty list. This is an assumption about the page's markup, which is not part of this model. Browsers that restore form contents across reloads are not modelled.
- Other tabs: `localStorage` is shared by every page of the origin, and each helper re-reads it (script.js:14, 24, 31). The model assumes this page is the only writer. A write from a second tab between events can break the same-multiset property, and is not modelled.
- Within one page, every handler runs to completion on the one UI thread, so each is one atomic transition.
- Failing writes: `localStorage.setItem` can throw, for example when the quota is exceeded or storage is disabled. The model's writes always succeed. In the source, a throwing `saveTask` (script.js:86) leaves the new item already on screen (script.js:82), the field not cleared, and storage without the text.
