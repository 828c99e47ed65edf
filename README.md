# A Dafny model of the mention autocomplete for Thunderbird compose windows

The extension lets a user type a trigger character (`@` by default) in a
message body. It then offers, in a dropdown, the people the user is writing
to, the people in their address books and their own custom contacts. Picking
one replaces the trigger and the typed query with a token (a link whose text
is the trigger followed by the contact's name). The newer generation also
adds the contact to the To field. A backspace next to a token first drops
the name's last word and then the whole token. An options page keeps the
settings: trigger, result limit, sources, auto-add, custom contacts and a
blocklist.

The repository holds two generations of each script. Each has its own module
here:

- `Dom` (`dom.dfy`) is the trigger detector both compose scripts share
  (`findAtTrigger` with `findPreviousTextNode` and `getLastTextNode`). It
  works on a small node tree, with step-by-step methods proved equal to
  specification functions.
- `Document` (`document.dfy`) is the child list of the element holding the
  caret, and the DOM edits a commit performs on it: `deleteContents`,
  `insertNode`, `insertBefore`. It also covers what a child's removal does to
  the live trigger range.
- `Dropdown` (`dropdown.dfy`): the autocomplete session both editors keep in
  module variables, and the transitions they share.
- `Compose` (`compose.dfy`) is `src/compose-script.js`: a configurable
  trigger, a zero-width-space anchor, the recipient message, and removal that
  puts the caret back. `LegacyCompose` (`legacy_compose.dfy`) is
  `compose/compose-script.js`: a literal `@` and a no-break-space anchor.
  Each has a `MentionEditor` class whose methods are proved to perform the
  module's transition functions.
- `Recipients` (`recipients.dfy`): `parseRecipient` (as written and
  corrected), `parseVCard`, `matchesQuery` and `ensureRecipientInTo`.
- `Contacts` (`contacts.dfy`):
  - the candidate table, an insertion-ordered `Map` keyed by the lowercased
    address;
  - the three gathering stages and the blocklist;
  - the comparator and the sort, and the final slice.
- `Config` (`config.dfy`):
  - the stored settings and their defaults;
  - storage change records;
  - `parseInt` on the result-limit input and `isValidEmail`.
- `Background` (`background.dfy`) is `background.js`, with a
  `BackgroundScript` class holding `settings`. `LegacyBackground`
  (`legacy_background.dfy`) is `background/background.js`: no settings,
  recipients first, at most ten results.
- `Form` (`form.dfy`): the options form as data. This covers rendering the
  two lists and reading them back, the add validators, `splice`, and loading
  and saving the form.
- `Options` (`options.dfy`) covers both options pages. Its `OptionsPage`
  class has an `autoSave` flag:
  - `true` is `src/options.js`, where every list edit is written to storage
    at once;
  - `false` is `options.js`, where list edits wait for the Save button.

Host calls (`storage.local`, `compose.getComposeDetails`,
`addressBooks.contacts.query`, `runtime.sendMessage`) become parameters:
`None` stands for a call that threw, and `ok` says whether a write
succeeded.

## Model

| member | source | states |
|---|---|---|
| Dom.LastText | src/compose-script.js:150-161 | The last text node of a subtree in document order: a text node's own content, nothing for a non-element, a token's link text (its caption, nothing when empty), the last child that has text for an element |
| Dom.LastTextOf | src/compose-script.js:150-161 | The reverse walk over the children: the last text of the last child that has one; its facts are stated by `Dom.LastTextOfFinds` |
| Dom.LastTextOfFinds | src/compose-script.js:150-161 | Some child k's last text, with no text after it in later children; or no child has any text |
| Dom.GetLastTextNode | src/compose-script.js:150-161 | The recursive reverse walk returns exactly `LastText` |
| Dom.PrevText | src/compose-script.js:131-145 | The nearest child before the offset whose subtree holds text, with no text in the children between |
| Dom.FindPreviousTextNode | src/compose-script.js:131-145 | The backward loop over children returns exactly `PrevText` |
| Dom.LastOccurrence | src/compose-script.js:103-113 | The index of the last trigger character, with none after it, or none at all |
| Dom.LastOccurrenceAt | src/compose-script.js:103-113 | A trigger character with none after it is the last occurrence |
| Dom.ScanForTrigger | src/compose-script.js:103-113 | The backward scan returns the nearest trigger's index when it starts a word, else -1 |
| Dom.Resolve | src/compose-script.js:88-101 | The text read and the offset read up to, which stays within that text |
| Dom.Detect | src/compose-script.js:81-126 | No range or a non-collapsed one gives nothing. A report's text, end and site are exactly what `Resolve` reads at the caret, so its span is `[atIndex, offset)` of the caret's own text. The span holds the trigger plus the query and starts a word. The query has no trigger character and at most the maximum length. At compose/compose-script.js:70-122: the same detector with the trigger fixed to "@" |
| Dom.FindAtTrigger | src/compose-script.js:81-126 | The step-by-step detector returns exactly `Detect` |
| Dom.DetectExactly | src/compose-script.js:103-123 | Both directions: position i is reported exactly when it is the trigger, starts a word, has no trigger between it and the caret, and the query fits |
| Dom.Reportable | src/compose-script.js:103-123 | Defines when the span starting at i is reported: the trigger at i, the start of a word, no trigger up to the caret, a query that fits. `DetectExactly` and `DetectsNothing` state it |
| Dom.DetectsNothing | src/compose-script.js:81-126 | Both directions: with a collapsed caret whose text resolves, nothing is reported exactly when no index before the caret is reportable |
| Dom.DetectsLastTrigger | src/compose-script.js:101-116 | A trigger character with none after it before the caret is the last occurrence the detector finds, and the query is the text after it |
| Dom.DetectedIsLastTrigger | src/compose-script.js:103-123 | A reported span starts at a trigger character and no trigger character lies between it and the caret |
| Dom.MultiCharTriggerNeverFires | src/compose-script.js:104 | A trigger string of length other than one never matches a single character, so nothing is reported |
| Dom.NearestGluedStops | src/compose-script.js:103-113 | When the nearest trigger is glued to a word, nothing is reported; earlier triggers are not tried |
| Dom.LastTextOfStep | src/compose-script.js:150-161 | A proof step of `GetLastTextNode`: one step of the reverse child walk |
| Document.ToCursor | src/compose-script.js:82-86 | The selection as the detector sees it: a well-placed cursor, no range exactly when there is no selection, collapsed exactly for a caret |
| Document.ContainerAt | src/compose-script.js:88-101 | The container at a valid position is at least as long as the offset |
| Document.DetectedSpan | src/compose-script.js:121-123 | A reported span is a valid stored range, and in a text node it covers exactly the trigger and the query |
| Document.SpanOf | src/compose-script.js:88-123 | Defines the trigger range built from a report: inside the caret's text node or the text child the previous text was found in, else a gap or a nested child. `DetectedSpan` states it |
| Document.Token | src/compose-script.js:360-374 | The token carries data-email, data-name = name or email, and link text trigger + that name |
| Document.DisplayName | src/compose-script.js:361 | Defines `contact.name \|\| contact.email`. `Token` states what the token carries |
| Document.DeleteContents | src/compose-script.js:376 | `deleteContents` keeps the child count and leaves a valid collapsed range |
| Document.InsertNode | src/compose-script.js:377 | `insertNode` returns a child index that exists in the new list |
| Document.CommitSteps | src/compose-script.js:376-381 | `deleteContents`, `insertNode` and `insertBefore(anchor, token.nextSibling)` build the committed list, with the anchor right after the token |
| Document.InsertAfter | src/compose-script.js:381 | Defines `insertBefore(n, child.nextSibling)`: `n` goes right after child t. `CommitSteps` states it |
| Document.AnchorIndex | src/compose-script.js:376-381 | Defines the index of the anchor text node after a commit. `CommitSteps` and `CommitShape` state it |
| Document.CommitShape | src/compose-script.js:376-381 | A commit keeps every child outside the range, splits the text node around it, and puts the token right before a lone anchor text node |
| Document.CommitDoc | src/compose-script.js:376-381 | Defines the child list after a commit: inside one text node, the text before the range, the token, the anchor and the text after it; a nested range leaves the list. Its properties are `CommitSteps`, `CommitShape` and `CommitReplacesSpan` |
| Document.CommitReplacesSpan | src/compose-script.js:376-381 | The visible text changes only in the range: trigger and query become the token's text and the anchor |
| Document.PlainAppend | src/compose-script.js:376-381 | The visible text of two child lists is their concatenation |
| Document.PlainAt | src/compose-script.js:376-381 | The visible text splits around any child |
| Document.RemoveAt | src/compose-script.js:472-504 | Removing child x shifts the later children down by one and keeps the earlier ones |
| Document.RemovalKeepsRange | src/compose-script.js:472-504 | After a removal, the live trigger range still names a valid range |
| Document.RangeAfterRemoval | src/compose-script.js:476-485 | Defines how the live trigger range moves when a child is removed: later positions shift down, a boundary inside the removed child moves to the gap it leaves. `RemovalKeepsRange` states it |
| Document.ShrinkDropsLastWord | src/compose-script.js:459-471 | A multi-word name loses exactly its last whitespace-separated word and gets strictly shorter |
| Document.ShrunkName | src/compose-script.js:459-465 | Defines the shrunk name: `split(/\s+/)`, the last word popped, the rest joined by single spaces. `ShrinkDropsLastWord` states it |
| Dropdown.Start | src/compose-script.js:9-15 | The initial session is idle: hidden, with no contacts and no selection |
| Dropdown.Hidden | src/compose-script.js:283-289 | `hideDropdown` leaves an idle session with the document and caret untouched |
| Dropdown.Input | src/compose-script.js:66-76 | Defines `handleInput`: the new document and caret, then the stored query and range when the detector reports, else the session hidden. Its properties are in `InputInv` |
| Dropdown.Receive | src/compose-script.js:166-230 | Defines the reply handling: a failed call hides; a reply's list (an absent one read as empty) is shown, and an empty list hides. Its properties are in `ReceiveShows` |
| Dropdown.Shown | src/compose-script.js:184-231 | Defines `showDropdown`: an empty list hides, any other list is shown with its first item selected. `ReceiveShows` states it |
| Dropdown.Down | src/compose-script.js:315-320 | Defines ArrowDown: the index moves up by one, at most to the last item. Stated in `ArrowsClamp` |
| Dropdown.Up | src/compose-script.js:322-327 | Defines ArrowUp: the index moves down by one, at least to 0. Stated in `ArrowsClamp` |
| Dropdown.Clicked | src/compose-script.js:512-516 | Defines the document click: inside the dropdown nothing changes, outside it the session is hidden |
| Dropdown.Hovered | src/compose-script.js:218-221 | Defines the `mouseenter` handler: the hovered item becomes the selected one while the list is shown. `HoveredInv` states it |
| Dropdown.HiddenInv | src/compose-script.js:283-289 | Hiding gives a session satisfying the invariant |
| Dropdown.InputInv | src/compose-script.js:66-76 | Input keeps the invariant. A query is fetched exactly when the detector reports one, and it is the stored query. Without a report the session becomes idle |
| Dropdown.ReceiveShows | src/compose-script.js:166-230 | The dropdown is shown exactly when the reply holds contacts, and then the first is selected. A thrown call or an empty reply ends the session |
| Dropdown.ArrowsClamp | src/compose-script.js:314-326 | ArrowDown adds one up to the last item; ArrowUp subtracts one down to 0 |
| Dropdown.HoveredInv | src/compose-script.js:218-221 | Hovering keeps the invariant and selects the hovered item while shown |
| Compose.LoadedTrigger | src/compose-script.js:31-40 | The trigger is never empty. It is "@" exactly when the reply is missing, empty or "@" |
| Compose.Target | src/compose-script.js:421-457 | The child a backspace acts on is always a token |
| Compose.Selected | src/compose-script.js:357-404 | Defines `selectContact`: no contact at the index or no stored range changes nothing; otherwise the commit with its recipient message. Its properties are in `SelectedCommits` |
| Compose.Backspaced | src/compose-script.js:409-507 | Defines the backspace by a token: shrink a multi-word name, else remove the token and its anchor and place the caret. Its properties are in `BackspacedEffect` |
| Compose.KeyDown | src/compose-script.js:304-342 | Defines `handleKeyDown`: the backspace by a token first, then the dropdown keys while shown. Its properties are in `KeyDownInv`, `HiddenIgnoresKeys` and `EnterCommitsSelected` |
| Compose.SelectedCommits | src/compose-script.js:357-404 | A commit with a contact and a stored range ends the session, places token and zero-width anchor, puts the caret after the anchor and replaces exactly trigger + query. It sends `ensureRecipientInTo` with the email and name or email. Otherwise nothing changes and nothing is sent |
| Compose.CommitInText | src/compose-script.js:376-393 | A range inside a text child becomes text before, token, zero-width space, text after, with the caret after the space, and the visible text changes only in the range |
| Compose.BackspaceAfterCommit | src/compose-script.js:380-393 | Right after a commit, the next backspace acts on the new token |
| Compose.BackspacedEffect | src/compose-script.js:409-507 | A backspace by a token keeps the dropdown. A multi-word name loses its last word, and nothing else changes. A one-word token goes, with its anchor when one follows, and the caret is placed where the token was |
| Compose.ShrinkEffect | src/compose-script.js:459-471 | Shrinking changes only that token's name and caption |
| Compose.RemovalEffect | src/compose-script.js:472-504 | Removal drops the token and a following anchor and sets the caret, changing nothing else in the session |
| Compose.AnchorFollows | src/compose-script.js:476-483 | Defines when a removed token takes its anchor along: the next sibling is the zero-width space text node. `RemovalEffect` states it |
| Compose.CaretAfterRemoval | src/compose-script.js:486-500 | Defines where the caret goes after a removal: the end of a previous text node, after a previous other node, or offset 0 of the parent. `RemovalEffect` states it |
| Compose.KeyDownInv | src/compose-script.js:304-342 | Every key keeps the session invariant |
| Compose.HiddenIgnoresKeys | src/compose-script.js:304-311 | While hidden, only a backspace by a token does anything; other keys change nothing and prevent nothing |
| Compose.EnterCommitsSelected | src/compose-script.js:328-334 | Enter or Tab on a shown dropdown prevents the default and commits the selected contact |
| Compose.MentionEditor.constructor | src/compose-script.js:20-40 | The editor starts idle, with the trigger `LoadedTrigger` of the settings reply |
| Compose.MentionEditor.HideDropdown | src/compose-script.js:283-289 | The new state is `Hidden` of the old |
| Compose.MentionEditor.ShowDropdown | src/compose-script.js:184-230 | The new state is `Shown` of the old |
| Compose.MentionEditor.HandleInput | src/compose-script.js:66-76 | State and fetched query are `Input` of the old state, and the invariant is kept |
| Compose.MentionEditor.ReceiveContacts | src/compose-script.js:166-179 | The new state is `Receive` of the old |
| Compose.MentionEditor.MouseEnter | src/compose-script.js:218-221 | The new state is `Hovered` of the old |
| Compose.MentionEditor.HandleDocumentClick | src/compose-script.js:512-516 | The new state is `Clicked` of the old |
| Compose.MentionEditor.CaretMoved | src/compose-script.js:9-15 | Only the caret changes |
| Compose.MentionEditor.SelectContact | src/compose-script.js:357-404 | State and message are `Selected` of the old state |
| Compose.MentionEditor.InsertMention | src/compose-script.js:376-381 | The document becomes the range's text replaced by the token and its anchor; nothing else changes |
| Compose.MentionEditor.FindMention | src/compose-script.js:421-457 | The token index is `Target`, or -1 |
| Compose.MentionEditor.HandleMentionBackspace | src/compose-script.js:409-507 | Handled exactly when `Target` finds a token, and the state is then `Backspaced` of the old |
| Compose.MentionEditor.ShrinkMention | src/compose-script.js:459-471 | On a multi-word token the new state is `Backspaced` of the old, with the invariant kept |
| Compose.MentionEditor.RemoveMention | src/compose-script.js:472-504 | On a one-word token the new state is `Backspaced` of the old: token and anchor removed, caret placed, invariant kept |
| Compose.MentionEditor.HandleKeyDown | src/compose-script.js:304-342 | State, prevention and message are `KeyDown` of the old state |
| LegacyCompose.Target | compose/compose-script.js:419-457 | The child a backspace acts on is a token. Stripping applies only to a caret in the text right after it |
| LegacyCompose.Selected | compose/compose-script.js:374-413 | Defines `selectContact` of the older script: the commit with a no-break-space anchor and no message. Its properties are in `SelectedCommits` |
| LegacyCompose.Backspaced | compose/compose-script.js:419-482 | Defines the older backspace by a token: strip the no-break space first when the caret is right after it, then shrink or remove. Its properties are in `StripAfterToken`, `ShrunkEffect` and `BackspacedInv` |
| LegacyCompose.KeyDown | compose/compose-script.js:319-359 | Defines the older `handleKeyDown`. Its properties are in `KeyDownInv` and `HiddenIgnoresKeys` |
| LegacyCompose.SelectedCommits | compose/compose-script.js:374-413 | A commit places "@" + name-or-email token and a no-break-space anchor, puts the caret between children after the anchor, replaces exactly "@" + query and ends the session. Otherwise nothing changes |
| LegacyCompose.CommitInText | compose/compose-script.js:395-410 | A range inside a text child becomes text before, token, no-break space, text after, with the caret after the space, and the visible text changes only in the range |
| LegacyCompose.NoTokenRightAfterCommit | compose/compose-script.js:405-410 | After a commit the caret is past the anchor, so the next backspace is left to the browser |
| LegacyCompose.StripAfterToken | compose/compose-script.js:440-447 | A backspace at offset 1 of the no-break-space text after a token first cuts the space off and moves the caret to offset 0. Every other child and the dropdown stay; a live range in that text node collapses to offset 0, any other range stays |
| LegacyCompose.RangeAfterRewrite | compose/compose-script.js:446 | Defines what rewriting a text node's content does to the live trigger range: a boundary inside that node falls to offset 0, any other range stays. `StripAfterToken` states it |
| LegacyCompose.Stripped | compose/compose-script.js:440-447 | Defines the no-break-space strip: the text node loses its first character, the caret goes to its offset 0 and the live range follows `RangeAfterRewrite`. `StripAfterToken` states it |
| LegacyCompose.CaretAfterRemoval | compose/compose-script.js:478 | Defines how a live caret moves when the token is removed: a position after the removed child shifts down by one. `RemovedAlone` states it |
| LegacyCompose.Shrunk | compose/compose-script.js:462-479 | Defines the rest of the older backspace: a multi-word token loses its last word and its link text becomes "@" + the new name; a one-word token is removed alone. `ShrunkEffect`, `LastWordDropped` and `RemovedAlone` state it |
| LegacyCompose.ShrunkEffect | compose/compose-script.js:462-479 | A multi-word name loses its last word, with nothing else changed. A one-word token is removed alone, keeping the text after it; the caret is not moved, so a text caret stays in the same text node at the same offset and a caret right after the token ends up where the token was; the live range follows the removal |
| LegacyCompose.LastWordDropped | compose/compose-script.js:464-475 | A multi-word token keeps its address, loses exactly its last word, and its link text becomes "@" + the new name; the caret, the range and every other child stay |
| LegacyCompose.RemovedAlone | compose/compose-script.js:476-479 | A one-word token is removed alone: the children after it shift down, a text caret stays in its node at its offset, a caret right after the token moves to the token's place, and the live range follows the removal |
| LegacyCompose.BackspacedInv | compose/compose-script.js:419-482 | A backspace by a token keeps the invariant |
| LegacyCompose.KeyDownInv | compose/compose-script.js:319-359 | Every key keeps the invariant |
| LegacyCompose.HiddenIgnoresKeys | compose/compose-script.js:319-326 | While hidden, only a backspace by a token does anything |
| LegacyCompose.MentionEditor.constructor | compose/compose-script.js:9-13 | The editor starts idle |
| LegacyCompose.MentionEditor.HideDropdown | compose/compose-script.js:298-304 | The new state is `Hidden` of the old |
| LegacyCompose.MentionEditor.ShowDropdown | compose/compose-script.js:189-238 | The new state is `Shown` of the old |
| LegacyCompose.MentionEditor.HandleInput | compose/compose-script.js:54-64 | State and query are `Input` of the old state with trigger "@" |
| LegacyCompose.MentionEditor.ReceiveContacts | compose/compose-script.js:170-184 | The new state is `Receive` of the old |
| LegacyCompose.MentionEditor.MouseEnter | compose/compose-script.js:225-228 | The new state is `Hovered` of the old |
| LegacyCompose.MentionEditor.HandleDocumentClick | compose/compose-script.js:487-491 | The new state is `Clicked` of the old |
| LegacyCompose.MentionEditor.CaretMoved | compose/compose-script.js:9-13 | Only the caret changes |
| LegacyCompose.MentionEditor.SelectContact | compose/compose-script.js:374-413 | The new state is `Selected` of the old |
| LegacyCompose.MentionEditor.InsertMention | compose/compose-script.js:395-410 | The document becomes the range's text replaced by the token and a no-break space, and the caret goes after the space; nothing else changes |
| LegacyCompose.MentionEditor.FindMention | compose/compose-script.js:419-457 | The token index and the strip flag are `Target`, or -1 |
| LegacyCompose.MentionEditor.HandleMentionBackspace | compose/compose-script.js:419-482 | Handled exactly when `Target` finds a token, and the state is then `Backspaced` of the old |
| LegacyCompose.MentionEditor.ShrinkMention | compose/compose-script.js:462-479 | The new state is `Shrunk` of the old: the token named loses its last word or is removed, and the invariant is kept |
| LegacyCompose.MentionEditor.HandleKeyDown | compose/compose-script.js:319-359 | State and prevention are `KeyDown` of the old state |
| Recipients.ParseRecipientAsWritten | background.js:235-254 | The regular expression as written, with its backtracking. A parsed string contains '@' |
| Recipients.AsWrittenSplitsBareAddress | background.js:245 | As written, the bare address "ab@c" parses to name "a" and email "b@c" |
| Recipients.AsWrittenSplitsNamed | background.js:245 | As written, "J jo@x" parses to name "J j" and email "o@x": an unbracketed address after a name loses its first characters too |
| Recipients.AsWrittenTail | background.js:245 | A proof step of `AsWrittenSplitsBareAddress`: in "ab@c", a name group that ends after "a" leaves "b@c", which the address group accepts |
| Recipients.ParseRecipient | background.js:235-254 | An object gives its own name and email. A parsed string contains '@'. A string is matched as the regular expression does, except that the name group is taken only when a blank or a '<' separates it from the address. `BareAddress`, `NamedAddress` and `AngleForm` state what it gives |
| Recipients.BareAddress | background.js:245 | A string with no blank, no angle brackets and an '@' inside parses to no name and the whole string as the address |
| Recipients.NamedAddress | background.js:245 | A name, a blank and an unbracketed address parse to the trimmed name and the whole address, e.g. "J jo@x" to "J" and "jo@x" |
| Recipients.AngleForm | background.js:245-251 | `name <email>` parses to trimmed name and trimmed email |
| Recipients.AngleName | background.js:245 | In `name <email>` the name group runs up to the `<` and no quote opens it |
| Recipients.AngleAddress | background.js:245 | In `name <email>` the bracketed part after the name matches as the address |
| Recipients.ParseText | background/background.js:184-190 | A parsed string is non-empty and contains '@' |
| Recipients.Match | background.js:245 | A found address has an '@' with text on both sides and no '>', and the input holds an '@'; a taken name group gives name and address, otherwise the address alone with an empty name. `BareAddress`, `NamedAddress` and `AngleForm` state what it reads |
| Recipients.MatchesNarrow | background.js:288-296 | A contact matching a query also matches every prefix of it, since typing more only narrows |
| Recipients.MatchesOwnAddress | background.js:288-296 | Every contact matches its own address as a query |
| Recipients.SplitLines | background.js:264 | Splitting on `\r?\n` gives at least one line and no line holds a newline |
| Recipients.EmailLine | background.js:272-280 | An address taken from an EMAIL line is non-empty and trimmed |
| Recipients.NameLine | background.js:267-269 | Defines the name an `FN:` line sets: the trimmed text after the prefix. `CardNameLast` states it |
| Recipients.CardName | background.js:266-283 | Defines the name a card's lines give: the last `FN:` line's, or "". `CardNameAbsent` and `CardNameLast` state it |
| Recipients.CardEmails | background.js:266-283 | Defines the addresses a card's lines give, in order. `CardEmailsHas`, `CardEmailsFrom` and `CardEmailsAppend` state it |
| Recipients.CardNameAbsent | background.js:266-270 | Without an `FN:` line the name is "" |
| Recipients.CardNameLast | background.js:266-270 | The name is that of the last `FN:` line |
| Recipients.CardEmailsHas | background.js:272-280 | Every address an EMAIL line gives is collected |
| Recipients.CardEmailsFrom | background.js:272-280 | Every collected address comes from some EMAIL line |
| Recipients.CardEmailsAppend | background.js:266-280 | The addresses of two runs of lines are concatenated in order |
| Recipients.ParseVCard | background.js:259-283 | Returns exactly `VCard`: nothing for an empty card, else the line loop's name and addresses, which are non-empty and trimmed. At background/background.js:200-226: the same parser in the older script |
| Recipients.ScanCard | background.js:266-280 | The loop over the lines returns the last `FN:` name and every EMAIL line's address in order |
| Recipients.NameStep | background.js:267-269 | An `FN:` line sets the name to its trimmed rest; any other line keeps it |
| Recipients.EmailStep | background.js:271-279 | An EMAIL line with a colon and a non-blank rest adds that trimmed rest; any other line adds nothing |
| Recipients.ParseWith | background.js:235-254 | The parser a caller chooses: the regular expression as written or the corrected one; both give an object's own name and email |
| Recipients.MatchesQuery | background.js:288-296 | Defines `matchesQuery`: an empty query matches everything, otherwise the lowercased query is a substring of the lowercased name or address. Its properties are `MatchesNarrow` and `MatchesOwnAddress` |
| Recipients.VCard | background.js:259-283 | Defines `parseVCard`: "" gives no name and no addresses, otherwise the last `FN:` name and the EMAIL addresses of the lines. Its properties are the `Card*` lemmas |
| Recipients.Format | background.js:99 | Defines the formatted recipient: `name <email>` with a name, the bare address without one |
| Recipients.Without | background.js:110-118 | The Cc/Bcc filter keeps no more entries than it was given. What it keeps is stated by `WithoutMembers` |
| Recipients.SameAddress | background.js:101-104 | Defines the test `parsed && parsed.email.toLowerCase() === emailLower` under the chosen parser. `WithoutMembers` and `EnsureRecipientInTo` state what uses it |
| Recipients.WithoutMembers | background.js:110-118 | Under either parser, the Cc and Bcc filters keep exactly the entries that do not parse to the address |
| Recipients.WithoutIdempotent | background.js:110-118 | Under either parser, filtering twice is filtering once |
| Recipients.EnsureRecipientInTo | background.js:94-130 | Under either parser: no update exactly when some To entry parses to the address, ignoring case. Otherwise To gets exactly one entry appended. At background/background.js:43-86: the same operation in the older script |
| Recipients.FormatParses | background.js:99-104 | The formatted recipient parses back to its address: always under the corrected parser, and under the parser as written whenever there is a name. Without a name the address must hold no blank |
| Recipients.EnsurePlacesAddress | background.js:94-130 | Under the corrected parser, and under the one as written when there is a name: the appended entry is the formatted recipient. Cc and Bcc lose exactly the matching entries. A second call changes nothing |
| Recipients.AsWrittenAppendsAgain | background.js:101-123 | As written, with To = ["ab@c"] and Cc = ["ab@c"], a call for "ab@c" without a name appends "ab@c" to To again and keeps it in Cc; the corrected parser sends no update |
| Recipients.AsWrittenMisses | background.js:101-104 | As written, the entry "ab@c" does not name the address "ab@c" |
| Recipients.IntendedSees | background.js:101-104 | Under the corrected parser the entry "ab@c" names the address "ab@c" |
| Contacts.BlockedBy | background.js:224-227 | Defines one blocklist entry's test: the lowercased entry occurs in the lowercased name or address |
| Contacts.Blocked | background.js:219-230 | Defines `isBlocked`: some entry blocks the contact. `EmptyEntryBlocksAll` and `IsBlocked` state it |
| Contacts.Admitted | background.js:147-203 | Defines the test every stage applies before `set`: the contact matches the query and is not blocked |
| Contacts.OfferRecipient | background.js:145-153 | Defines one recipient entry: parsed (with the corrected parser), then set as a recipient, overwriting a present key. `RecipientLastWins` states it |
| Contacts.AddRecipients | background.js:139-159 | Defines the recipient stage over To, Cc and Bcc in order. `AddRecipientsAppend` and `AddRecipientsGood` state it |
| Contacts.AddEmails | background.js:174-186 | Defines one card's addresses, each set under its lowercased address unless present. `AddCardsKeeps` states it |
| Contacts.AddCards | background.js:162-191 | Defines the address-book stage over the cards in order. `AddCardsGood` and `AddCardsKeeps` state it |
| Contacts.AddCustom | background.js:194-204 | Defines the custom-contact stage, never replacing a present key. `AddCustomGood` and `AddCustomKeeps` state it |
| Contacts.SortKey | background.js:209 | Defines the compared key `name \|\| email`, lowercased in place of `localeCompare` |
| Contacts.Before | background.js:208-210 | Defines the comparator's strict order. At background/background.js:158-163: recipients first, then by key. `BeforeIrreflexive` and `BeforeTransitive` state it |
| Contacts.Offer | background.js:149-152 | Defines one `contacts.set`: an admitted candidate under its lowercased address, replacing a present key only when the stage allows it. Its properties are in `AddCardsKeeps`, `AddCustomKeeps` and `RecipientLastWins` |
| Contacts.Gather | background.js:135-204 | Defines the table: recipients, then cards, then custom contacts. Its properties are in `GatherGood`, `RecipientsNotReplaced` and `NothingGathered` |
| Contacts.SortBy | background.js:206-211 | Defines the sort as insertion with the comparator. Its properties are in `SortBySorted` and `SortByDistinct` |
| Contacts.Results | background.js:206-213 | Defines the final list: the table's values sorted, then sliced. Its properties are in `ResultsFacts` |
| Contacts.Put | background.js:149-152 | `Map.set`: an existing key keeps its place with the new value; a new key goes last |
| Contacts.PutValid | background.js:149-152 | Setting a candidate under its own key keeps keys distinct, and the key then looks up to it |
| Contacts.Values | background.js:206 | `Map.values()` in insertion order |
| Contacts.EmptyEntryBlocksAll | background.js:219-230 | An empty blocklist entry blocks every contact, since every string includes "" |
| Contacts.AddRecipientsAppend | background.js:139-159 | Gathering two runs of recipients is gathering the first, then the second |
| Contacts.AddRecipientsGood | background.js:139-159 | The recipient stage keeps keys distinct and admits only unblocked candidates that match the query |
| Contacts.AddCardsGood | background.js:162-191 | The address-book stage keeps the same table invariant |
| Contacts.AddCustomGood | background.js:194-204 | The custom-contact stage keeps the same table invariant |
| Contacts.GatherGood | background.js:135-204 | The gathered table has distinct keys and every candidate is admitted |
| Contacts.AddCardsKeeps | background.js:174-186 | An address-book card never replaces a present key |
| Contacts.AddCustomKeeps | background.js:197-202 | A custom contact never replaces a present key |
| Contacts.RecipientsNotReplaced | background.js:135-204 | A recipient's entry survives the later stages unchanged |
| Contacts.RecipientLastWins | background.js:145-153 | Among recipients the last entry for an address wins |
| Contacts.NoRecipientsGathered | background.js:162-204 | Without recipient entries no candidate is marked as a recipient |
| Contacts.NothingGathered | background.js:135-214 | With every source empty the table is empty |
| Contacts.LessTransitive | background.js:206-211 | The name order is transitive |
| Contacts.BeforeIrreflexive | background.js:206-211 | The comparator never puts a candidate before itself |
| Contacts.BeforeTransitive | background.js:206-211 | The comparator is transitive |
| Contacts.InsertSorted | background.js:206-211 | Inserting into a sorted list keeps it sorted and adds exactly that candidate |
| Contacts.SortBySorted | background.js:206-211 | The sort yields a sorted permutation |
| Contacts.SortByDistinct | background.js:206-211 | The sort keeps keys distinct |
| Contacts.SliceTo | background.js:213 | `slice(0, end)`: a prefix whose length follows JavaScript's rules for non-negative and negative ends |
| Contacts.ResultsFacts | background.js:206-213 | The results are sorted, distinct by key, admitted, drawn from the table and at most the limit. Under a large enough limit they are a permutation of the whole table |
| Config.Apply | background.js:20-28 | Defines one storage change: the named setting takes the new value, an unknown key changes nothing. Stated in `UnknownKeysIgnored` |
| Config.ApplyAll | background.js:20-28 | Defines the changes applied in order. Its properties are in `ApplyAllAppend` and `TriggerAfterChanges` |
| Config.ParseInt | src/options.js:115 | Defines `parseInt(s, 10)`: leading whitespace skipped, an optional sign, the leading decimal digits, and NaN without a digit. Its properties are in `ParseIntRoundTrip` and `MaxResultsOf` |
| Config.IsValidEmail | src/options.js:373-375 | Defines the address pattern: a word, '@', a word, '.', a word, with no whitespace or second '@'. Its properties are in `ValidEmailParts` and `ValidEmailShape` |
| Config.ApplyAllAppend | background.js:20-28 | Applying two batches of storage changes is applying them in turn |
| Config.TriggerAfterChanges | background.js:20-28 | The trigger is kept when no change touches it, and is the last value set otherwise |
| Config.TriggerUntouched | background.js:20-28 | Changes that do not touch the trigger leave it as it was |
| Config.LastTriggerWins | background.js:20-28 | The last change that sets the trigger wins |
| Config.UnknownKeysIgnored | background.js:22-26 | Keys that are not settings change nothing |
| Config.ParseIntRoundTrip | src/options.js:115 | `parseInt` of an integer's decimal text gives it back |
| Config.IntToDecimal | src/options.js:91 | Defines how the number input shows an integer: its decimal digits, with "-" before a negative one. `ParseIntRoundTrip` states it |
| Config.MaxResultsOf | src/options.js:115 | `parseInt(input) \|\| 10` is never 0, and is the parsed number when that is not 0 |
| Config.MaxResultsRoundTrip | src/options.js:91-115 | The displayed limit reads back as itself, or as 10 for 0 |
| Config.TriggerOf | src/options.js:114 | `input \|\| "@"` is never empty and keeps a non-empty input |
| Config.ValidEmailParts | src/options.js:373-375 | A valid address has no whitespace and exactly one '@', which is not last |
| Config.ValidEmailShape | src/options.js:373-375 | A valid address is trimmed and has a word before its '@'. With a name free of quotes and '<' it can be formatted as `name <email>` |
| Background.ContactsFor | background.js:135-214 | Defines `getContactsForCompose`: the toggled sources gathered, sorted by name, cut to `maxResults`. Its properties are in `ContactsForFacts` |
| Background.RecipientSource | background.js:139-158 | Defines the recipient entries searched: To, Cc and Bcc when recipients are searched and the details were read, else none. `ContactsForFacts` states the result |
| Background.CardSource | background.js:162-190 | Defines the address-book cards searched: the query's cards when the toggle is on and the call succeeded, else none |
| Background.CustomSource | background.js:193-204 | Defines the custom contacts searched: the stored ones when the toggle is on, else none |
| Background.Collected | background.js:135-204 | Defines the table `getContactsForCompose` builds from the three sources. `ContactsForFacts` states the result |
| Background.Respond | background.js:56-86 | Defines the message listener's answer and write. Its properties are in `RespondGates` |
| Background.ContactsForFacts | background.js:135-214 | The list is sorted by name, distinct by lowercased address, matching the query, unblocked and within `maxResults`. With recipients off none is a recipient; with every source off it is empty |
| Background.RespondGates | background.js:56-86 | Only `ensureRecipientInTo` from a tab, with auto-add on and readable details, writes to a compose window, and only when To lacks the address. `getSettings` answers with the trigger. Contacts without a tab are [] |
| Background.BackgroundScript.constructor | background.js:14 | Settings start as the defaults |
| Background.BackgroundScript.LoadSettings | background.js:33-40 | Settings become the defaults overlaid with the stored values; a failed read keeps them |
| Background.BackgroundScript.OnStorageChanged | background.js:20-28 | Changes to the local area are applied in order; other areas are ignored |
| Background.BackgroundScript.IsBlocked | background.js:219-230 | The loop answers exactly `Blocked` |
| Background.BackgroundScript.AddField | background.js:145-154 | One recipient field's loop equals the recipient fold |
| Background.BackgroundScript.AddRecipientFields | background.js:139-159 | The loop over To, Cc and Bcc equals the fold over their concatenation |
| Background.BackgroundScript.AddCardEmails | background.js:174-186 | One card's loop equals the address fold, with no replacement |
| Background.BackgroundScript.AddAddressBook | background.js:162-191 | The loop over cards equals the card fold |
| Background.BackgroundScript.AddCustomContacts | background.js:194-204 | The loop over custom contacts equals the custom fold |
| Background.BackgroundScript.GetContactsForCompose | background.js:135-214 | The method returns exactly `ContactsFor` |
| Background.BackgroundScript.HandleMessage | background.js:56-86 | The listener answers and writes exactly as `Respond` |
| LegacyBackground.ContactsFor | background/background.js:94-166 | Defines the older `getContactsForCompose`: recipients and cards, recipients first, the first ten. Its properties are in `ContactsForFacts` |
| LegacyBackground.RecipientSource | background/background.js:98-116 | Defines the older recipient entries: To, Cc and Bcc, or none when the details cannot be read |
| LegacyBackground.CardSource | background/background.js:118-153 | Defines the older address-book cards: the query's cards, or none when the call fails |
| LegacyBackground.Collected | background/background.js:94-153 | Defines the older table: recipients, then cards, with no blocklist and no custom contacts. `ContactsForFacts` states the result |
| LegacyBackground.Respond | background/background.js:14-32 | Defines the older listener's answer and write. Its properties are in `RespondGates` |
| LegacyBackground.ContactsForFacts | background/background.js:94-166 | At most ten, distinct, matching, every recipient before every other contact and each group in name order. Without details none is a recipient |
| LegacyBackground.RespondGates | background/background.js:14-32 | Only `ensureRecipientInTo` from a tab with readable details writes, appending the formatted recipient to To when To lacks it. Contacts without a tab are [] and no other message gets an answer |
| LegacyBackground.AddField | background/background.js:103-113 | One field's loop equals the recipient fold |
| LegacyBackground.AddRecipientFields | background/background.js:98-116 | The three field loops equal the fold over To + Cc + Bcc |
| LegacyBackground.AddCardEmails | background/background.js:137-149 | One card's loop equals the address fold |
| LegacyBackground.AddAddressBook | background/background.js:119-153 | The card loop equals the card fold |
| LegacyBackground.GetContactsForCompose | background/background.js:94-166 | The method returns exactly `ContactsFor` |
| LegacyBackground.HandleMessage | background/background.js:14-32 | The listener answers and writes exactly as `Respond` |
| Form.ContactsOfRows | src/options.js:135-146 | Reading the rows gives at most one contact per row, each with non-empty name and email taken from a row |
| Form.EntriesOfItems | src/options.js:151-161 | Reading the items gives non-empty entries taken from the items |
| Form.ReadContacts | src/options.js:135-146 | The row loop returns exactly `ContactsOf` |
| Form.ContactsOf | src/options.js:135-146 | Defines `getCustomContactsFromUI`: a contact for each row with both attributes non-empty, in order. `ContactsOfRows` and `ReadRenderedContacts` state it |
| Form.ReadBlocklist | src/options.js:151-161 | The item loop returns exactly `EntriesOf` |
| Form.EntriesOf | src/options.js:151-161 | Defines `getBlocklistFromUI`: each non-empty entry, in order. `EntriesOfItems` and `ReadRenderedBlocklist` state it |
| Form.ReadRenderedContacts | src/options.js:166-206 | Rendering contacts (or the placeholder) and reading them back gives the same list |
| Form.RenderContacts | src/options.js:166-206 | Defines `renderCustomContacts`: one row per contact, or the placeholder row alone. `ReadRenderedContacts` states it |
| Form.ReadRenderedBlocklist | src/options.js:211-242 | Rendering the blocklist and reading it back gives the same list |
| Form.RenderBlocklist | src/options.js:211-242 | Defines `renderBlocklist`: one item per entry, or the placeholder item alone. `ReadRenderedBlocklist` states it |
| Form.ContactVerdict | src/options.js:247-270 | Defines `addCustomContact`'s checks in the handler's order, with their messages. Its properties are in `ContactVerdictFacts` |
| Form.HasEmail | src/options.js:264 | Defines the duplicate test: some contact's address equals the new one ignoring case. `ContactVerdictFacts` states it |
| Form.EntryVerdict | src/options.js:307-324 | Defines `addBlocklistEntry`'s checks, with their messages. Its properties are in `EntryVerdictFacts` |
| Form.Splice | src/options.js:289-302 | Defines `splice(index, 1)`. Its properties are in `SpliceRemoves` and `SpliceLast` |
| Form.Shown | src/options.js:89-101 | Defines a successful load: each control shows its setting and both lists are rendered. Its properties are in `SaveAfterLoad` |
| Form.ContactVerdictFacts | src/options.js:247-270 | Both directions: accepted exactly when the trimmed name and email are non-empty, the email is valid and new ignoring case. Acceptance appends the trimmed contact and keeps the list well formed |
| Form.EntryVerdictFacts | src/options.js:307-324 | Both directions: accepted exactly when the trimmed entry is non-empty and new. Acceptance appends it and keeps entries distinct |
| Form.SpliceRemoves | src/options.js:289-302 | `splice(index, 1)` removes exactly that element and shifts the rest, and past the end changes nothing |
| Form.SpliceLast | src/options.js:289-302 | Removing what was just appended restores the list |
| Form.SpliceKeepsWellFormed | src/options.js:289-302 | Removing a contact keeps the list well formed |
| Form.SpliceKeepsEntries | src/options.js:341-354 | Removing an entry keeps entries distinct |
| Form.Saved | src/options.js:111-130 | The saved trigger is never empty ("@" for an empty input), and the saved limit is never 0 (10 for an unparsable or zero input) |
| Form.SaveAfterLoad | src/options.js:85-130 | Saving a freshly loaded form stores the settings back, with a 0 limit read as 10 and an empty trigger as "@" |
| Options.Load | src/options.js:85-106 | Defines `loadSettings`: the stored values shown, or the error status. Its properties are in `LoadFacts` |
| Options.Save | src/options.js:111-130 | Defines `saveSettings`'s status: success or error. Its properties are in `SaveFacts` |
| Options.Saving | src/options.js:272-279 | Defines the status after a list edit: unchanged without auto-save, else the write's success or error message. `AddContactFacts`, `RemoveContactFacts`, `AddEntryFacts` and `RemoveEntryFacts` state it |
| Options.AddContact | src/options.js:247-284 | Defines `addCustomContact`: the verdict's message, or the list re-rendered, the inputs cleared and the write under auto-save. Its properties are in `AddContactFacts` |
| Options.RemoveContact | src/options.js:289-302 | Defines `removeCustomContact`. Its properties are in `RemoveContactFacts` |
| Options.AddEntry | src/options.js:307-336 | Defines `addBlocklistEntry`. Its properties are in `AddEntryFacts` |
| Options.RemoveEntry | src/options.js:341-354 | Defines `removeBlocklistEntry`. Its properties are in `RemoveEntryFacts` |
| Options.LoadFacts | src/options.js:85-106 | A successful load shows the stored settings; a failed load only reports "Error loading settings" |
| Options.SaveFacts | src/options.js:111-130 | Saving writes what the form shows, changes only the status, and reports an error exactly on failure |
| Options.AddContactFacts | src/options.js:247-284 | A rejection shows its message and changes nothing else. An acceptance appends the contact and clears the inputs. With auto-save it writes the new list, and a stored state that matched still matches. At options.js:207-235: without auto-save an accepted contact is shown but nothing is written |
| Options.AddContactAccepted | src/options.js:269-282 | An accepted contact keeps the list well formed and is appended, and the inputs are cleared. With auto-save the new list is written, and the status reports the write |
| Options.RemoveContactFacts | src/options.js:289-302 | The shown list is the spliced one; auto-save writes it and keeps storage in step. At options.js:240-244: without auto-save the removal is only shown |
| Options.AddEntryFacts | src/options.js:307-336 | As for contacts, for the blocklist. At options.js:249-269: without auto-save an accepted entry is shown but nothing is written |
| Options.AddEntryAccepted | src/options.js:322-334 | An accepted entry keeps the list well formed and is appended, and the input is cleared. With auto-save the new list is written, and the status reports the write |
| Options.RemoveEntryFacts | src/options.js:341-354 | The shown blocklist is the spliced one; auto-save writes it and keeps storage in step. At options.js:274-278: without auto-save the removal is only shown |
| Options.OptionsPage.constructor | src/options.js:24-31 | The page starts from the given form and mode |
| Options.OptionsPage.ShowStatus | src/options.js:359-368 | Only the status changes |
| Options.OptionsPage.LoadSettings | src/options.js:85-106 | The new form is `Load` of the old. At options.js:73-94: the same load in the older page |
| Options.OptionsPage.ShowSettings | src/options.js:89-101 | Each control shows its stored setting and both lists are rendered; the inputs and the status stay |
| Options.OptionsPage.SaveSettings | src/options.js:111-130 | The new form is `Save` of the old, and the written settings are `Saved` of the old form. At options.js:99-118: the same save in the older page |
| Options.OptionsPage.ReportSave | src/options.js:272-279 | The status is the success or error message of an auto-save, or unchanged without one |
| Options.OptionsPage.AddCustomContact | src/options.js:247-284 | Form and write are `AddContact` of the old form. At options.js:207-235: the same handler without auto-save |
| Options.OptionsPage.ShowAddedContacts | src/options.js:269-283 | The list is re-rendered, the inputs are cleared, the status is reported, and the write happens only under auto-save |
| Options.OptionsPage.RemoveCustomContact | src/options.js:289-302 | Form and write are `RemoveContact` of the old form |
| Options.OptionsPage.AddBlocklistEntry | src/options.js:307-336 | Form and write are `AddEntry` of the old form |
| Options.OptionsPage.ShowAddedEntries | src/options.js:323-336 | The blocklist is re-rendered, the input is cleared, the status is reported, and the write happens only under auto-save |
| Options.OptionsPage.RemoveBlocklistEntry | src/options.js:341-354 | Form and write are `RemoveEntry` of the old form |

## Left out

- DOM events, focus, `requestAnimationFrame` and timers are left out:
  - the caret placement deferred by `requestAnimationFrame` happens at once;
  - the 3-second clearing of the status line is not modelled.
- Async host calls are left out. Every promise is its resolved value, and
  handlers do not interleave.
- The document is the child list of one element. A trigger found inside a
  nested element is detected, but its commit leaves the document unchanged,
  because the model cannot rewrite a deeper subtree.
- Dropdown presentation is left out: creating it (`createDropdown`),
  positioning it (`positionDropdown`), marking the selected item
  (`updateSelectedItem`, `scrollSelectedIntoView`) and `innerHTML`
  rendering.
- `escapeHtml` is left out. Labels and names are treated as plain text.
- `localeCompare` is approximated by lowercase code-point order.
  `toLowerCase` covers ASCII only. `\s` is the fixed JavaScript whitespace
  set, without Unicode categories.
- Contacts.SortBy: the sort's stability is not stated. The source relies on
  `Array.prototype.sort`, which is stable, and the model proves only a
  sorted permutation.
- Config.ParseIntRoundTrip: integers are unbounded. In JavaScript a digit
  string beyond 2^53 loses precision and a number of 1e21 or more prints in
  exponent form, so the round trip describes the program only below those
  sizes.
- Config.MaxResultsRoundTrip: the same size limit as `ParseIntRoundTrip`.
- Dom.Detect: strings are sequences of Unicode scalar values, while
  JavaScript strings, `text[i]`, `length` and DOM offsets count UTF-16 code
  units. A character outside the Basic Multilingual Plane is one element here
  and two in the program. So a query of such characters can have 26 to 50
  of them and fail the program's 50-unit bound while the model still
  reports it.
- Dom.MultiCharTriggerNeverFires: for the same reason a trigger that is one
  character outside the Basic Multilingual Plane (an emoji) has length 1
  here and fires. In the program its length is 2, so `text[i]` never equals
  it and it never fires.
- Contacts.OfferRecipient: parses with the corrected parser. It differs
  from the program on string entries without '<' whose name group, as
  written, ends inside the address (see Findings). The program sets the bare
  entry "ab@c" under "b@c" with the name "a", and "J jo@x" under "o@x" with
  the name "J j". The model sets them under "ab@c" and "jo@x". Entries in
  `name <email>` form are read alike (`Recipients.AngleForm`).
- Contacts.AddRecipients: the recipient stage, with the difference stated
  for `Contacts.OfferRecipient`.
- Contacts.Gather: its recipient stage has the difference stated for
  `Contacts.OfferRecipient`.
- Background.ContactsFor: the table it sorts has the difference stated for
  `Contacts.OfferRecipient`.
- Background.BackgroundScript.AddField: one field's loop, with the difference
  stated for `Contacts.OfferRecipient`.
- Background.BackgroundScript.AddRecipientFields: the three field loops,
  with the difference stated for `Contacts.OfferRecipient`.
- Background.BackgroundScript.GetContactsForCompose: equal to
  `Background.ContactsFor`, with the same difference.
- LegacyBackground.ContactsFor: the older table, with the difference stated
  for `Contacts.OfferRecipient`.
- LegacyBackground.AddField: the same as in the newer script.
- LegacyBackground.AddRecipientFields: the same as in the newer script.
- LegacyBackground.GetContactsForCompose: equal to
  `LegacyBackground.ContactsFor`, with the same difference.
- Background.Respond: `ensureRecipientInTo` is answered with the corrected
  parser. On the entries stated for `Contacts.OfferRecipient` the program
  does not see an address already in To and appends it again, and keeps a
  Cc or Bcc entry naming it. `Recipients.AsWrittenAppendsAgain` shows this.
- Background.BackgroundScript.HandleMessage: equal to `Background.Respond`,
  with the same difference.
- LegacyBackground.Respond: the same as in the newer script.
- LegacyBackground.HandleMessage: equal to `LegacyBackground.Respond`, with
  the same difference.
- Recipients.FormatParses: without a name, an address with a blank inside
  is not covered. `Format("", "a b@c")` is the string "a b@c", which parses
  to the name "a" and the address "b@c" (`Recipients.NamedAddress`).
- Recipients.EnsurePlacesAddress: the same condition as
  `Recipients.FormatParses`.
- Removing a storage key (a change whose `newValue` is undefined) is not
  modelled. Each storage change sets a value.
- A storage write is all or nothing. A failed write leaves storage as it
  was.
- The address-book search filtering (`searchString`) is done by the host.
  The model receives the cards the query returned.
- `registerScripts`, console logging, `displayVersion`, `init`,
  `cacheElements` and `attachEventListeners` are left out. The options
  page's initial form is a constructor parameter.
- The remove handlers take their index as a non-negative number, since the
  buttons only carry list positions.

## Findings

| source | as written | input that shows it | evidently intended | confidence | as-written member | corrected member |
|---|---|---|---|---|---|---|
| background.js:245 | The optional name group `"?([^"<]*)"?\s*` may match part of a bare address, and backtracking can leave as little as one character before the '@' for the email group | the To entry `"ab@c"` parses to name `"a"` and email `"b@c"`, so `ensureRecipientInTo` does not recognise the address already in To and appends it again | the name group is taken only when a blank or a '<' separates it from the address, so a bare address parses to an empty name and the whole address | not executed | Recipients.AsWrittenSplitsBareAddress | Recipients.BareAddress |
| background.js:245 | The same backtracking after a blank-separated name: the name group runs past the blank into the address and leaves it one character before the '@' | "J jo@x" parses to name "J j" and email "o@x", so the entry is listed and matched under "o@x" | the name ends at the blank: "J jo@x" parses to "J" and "jo@x" | not executed | Recipients.AsWrittenSplitsNamed | Recipients.NamedAddress |
| background/background.js:184 | The same regular expression in the older background script | the To entry `"ab@c"` parses to name `"a"` and email `"b@c"` | the name group is taken only when a blank or a '<' separates it from the address | not executed | Recipients.ParseRecipientAsWritten | Recipients.ParseRecipient |
| background.js:101-123 | The "already in To" test and the Cc/Bcc filters compare the address the regular expression extracts | To = `["ab@c"]`, Cc = `["ab@c"]`, email `"ab@c"`, no name: To becomes `["ab@c", "ab@c"]` and Cc keeps `"ab@c"` | an address already in To is left alone, and a call places it once in To and removes it from Cc and Bcc | not executed | Recipients.AsWrittenAppendsAgain | Recipients.EnsurePlacesAddress |
