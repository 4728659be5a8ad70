# Previous River, modelled in Dafny

Previous River is an Obsidian plugin. It turns notes into chains: each note
names the note before it in a `previous` field. The field is read from the
frontmatter, or else from a `previous: [[name]]` line in the body. The
plugin's commands walk these chains:

- go to the previous note;
- go to the next note, asking the user to choose when several notes name
  the current one as their previous;
- go to the first note of the chain (the head walk);
- go to the last note of the chain (the tail walk, which asks at every
  branch point);
- detach a note;
- insert a note at the end of another chain.

This project models the following and proves properties of the model:

- the text handling: `extractLinkText` and `getPreviousNoteName`;
- the suggestion modal's filter;
- the two walks;
- the six commands, both as methods of the plugin class in `main.ts` and as
  the free functions in `lib/commands.ts`.

Modules:

| file | module | models |
|---|---|---|
| `wrappers.dfy` | `Wrappers` | `Option` |
| `text.dfy` | `Text` | JavaScript `trim` and its white-space set, ASCII `toLowerCase`, `includes` |
| `linktext.dfy` | `LinkText` | `extractLinkText` and the lazy group scan of `(.+?)\]\]` |
| `previousname.dfy` | `PreviousName` | `getPreviousNoteName` and the multiline body pattern |
| `notes.dfy` | `Notes` | notes (`TFile`) and the snapshot of `previous`/successor links a command sees |
| `suggest.dfy` | `Suggest` | `NextNoteSuggestModal` |
| `walker.dfy` | `Walker` | the head walk, the tail walk `findLastNote`, and the next-note dispatch |
| `host.dfy` | `Host` | the Obsidian app as state: the active file, the markdown files, the user's answers, and what was opened, prompted and written |
| `plugin.dfy` | `Plugin` | the class `PreviousRiverPlugin` in `main.ts` |
| `commands.dfy` | `Commands` | the six commands in `lib/commands.ts` |
| `examples.dfy` | `Examples` | the chain the test vault's `generate_notes.rb` writes, plus small chains |

Design choices:

**Regular expressions.** They are modelled as the backtracking engine runs
them:

- the greedy `\s*` is `SkipSpace`;
- the lazy `(.+?)` is `LazyGroupEnd`, the shortest group first;
- the multiline `^` is `LineStart`;
- `String.prototype.match` without the `g` flag is the leftmost search
  `SearchFrom`.

Lemmas then state the results in closed form. `.` excludes the four
ECMAScript line terminators, and `\s` and `trim` use the ECMAScript
white-space set.

**The walks.** Both walks loop `while (true)`. Each is specified by a
function that performs the same walk under a step bound called `fuel`. A
method's loop does not use the fuel: the bound appears only in its
precondition, which requires the walk to stop within the bound.

**The user.** The user's answers to prompts are a script of
`Option<Pick>`, one per prompt. A `Pick(query, index)` types `query` into
the suggestion modal and chooses the suggestion at `index` of the list
`getSuggestions(query)` shows; None closes the modal without a choice, and
so does a pick beyond the list shown. `Suggest.Chosen` resolves a pick
against the modal's options, and `Suggest.ChosenByModal` proves that this is
`onChooseSuggestion` on the picked item of `getSuggestions`. A chosen note
is therefore always one of the options the modal was given.

**Aliases and `ROOT`.** `extractLinkText` removes only the surrounding
`[[` and `]]`: an `|alias` suffix stays in the result, as its documentation
says (`lib/utils.ts:3-7`), and the model keeps it too (`LinkText.AliasKept`).
No code of the modelled core gives the value `ROOT` a meaning of its own.

## Model

| member | source | states |
|---|---|---|
| Text.Trim | lib/utils.ts:10 | the trimmed text is no longer than the input and neither starts nor ends with white space or a line terminator |
| Text.TrimSlice | lib/utils.ts:10 | `trim` removes exactly a white-space prefix and a white-space suffix: the result is a contiguous slice of the input surrounded only by white space |
| Text.TrimPadded | lib/utils.ts:10 | white space on both sides of a text that starts and ends with a non-space is removed, and nothing else is |
| Text.TrimNoop | lib/utils.ts:10 | a text with non-space ends is its own trim |
| Text.Lower | lib/NextNoteSuggestModal.ts:10 | `toLowerCase` keeps the length and maps each character on its own (ASCII only) |
| Text.Contains | lib/NextNoteSuggestModal.ts:10 | `includes` holds only for a needle no longer than the text, and always for the empty needle |
| Text.ContainsAt | lib/NextNoteSuggestModal.ts:10 | `includes` holds whenever the needle occurs at some position |
| Text.ContainsOffset | lib/NextNoteSuggestModal.ts:10 | conversely, when `includes` holds the needle occurs at some position, which the lemma returns |
| Text.ContainsIff | lib/NextNoteSuggestModal.ts:10 | `includes` holds exactly when the needle occurs at some position |
| LinkText.LazyGroupEnd | lib/utils.ts:11 | the lazy scan returns only an end where `]]` closes the group, never before the position it starts from |
| LinkText.LazyGroupEndSpec | lib/utils.ts:11 | the lazy `(.+?)\]\]` picks the shortest non-empty group free of line terminators, and fails only when no closable group exists |
| LinkText.ExtractLinkText | lib/utils.ts:9-13 | the result is never longer than the raw value |
| LinkText.ExtractLinkTextClosedForm | lib/utils.ts:9-13 | the result is the trimmed value without its first two and last two characters exactly when the trimmed value is a whole `[[x]]` with a non-empty `x` free of line terminators; otherwise it is the trimmed value |
| LinkText.UnwrapRoundTrip | lib/utils.ts:9-13 | wrapping any non-empty text without line terminators in `[[`…`]]` and extracting gives the text back, even when it holds `]]` or `\|` |
| LinkText.NoUnwrapAcrossLines | lib/utils.ts:11-12 | a link whose inner text has a line terminator is returned as it is |
| LinkText.AliasKept | lib/utils.ts:3-12 | `[[note\|alias]]` gives `note\|alias`: the alias is not stripped |
| LinkText.EmptyLinkKept | lib/utils.ts:11-12 | `[[]]` does not match `(.+?)` and is returned as it is |
| LinkText.ShortValueKept | lib/utils.ts:10-12 | a trimmed value shorter than five characters is returned as it is |
| LinkText.InnerSpaceKept | lib/utils.ts:10-12 | white space around the link is trimmed and white space inside it is kept |
| PreviousName.SkipSpace | lib/obsidian.ts:25 | greedy `\s*` stops at the first character that is not white space |
| PreviousName.MatchAt | lib/obsidian.ts:25 | a match tried at `i` starts at `i`; its `[[` opens at least as many characters later as `previous:` is long, its group is non-empty, and its closing `]]` ends inside the text (the text itself is pinned down by `MatchAtSound`) |
| PreviousName.MatchAtSound | lib/obsidian.ts:25 | a match found at `i` is an instance of `^previous:\s*\[\[(.+?)\]\]` whose group ends at the first `]]` |
| PreviousName.MatchAtComplete | lib/obsidian.ts:25 | whenever the pattern can match at `i` in any way, a match is found there |
| PreviousName.SearchFrom | lib/obsidian.ts:25 | the returned hit starts at or after `i` and has the offsets of a match: `previous:` fits before `[[`, the group is non-empty, and `]]` ends inside the text |
| PreviousName.SearchFromSpec | lib/obsidian.ts:25-26 | the search returns the leftmost matching position, and returns nothing exactly when no position matches |
| PreviousName.BodyPreviousName | lib/obsidian.ts:24-26 | the body yields a name exactly when the search finds a match; the name is non-empty and fits, with `previous:[[` and `]]`, inside the body |
| PreviousName.BodyPreviousNameSpec | lib/obsidian.ts:25-26 | a body name is returned exactly when the pattern matches somewhere; it is the group of the leftmost match, is non-empty, has no line terminator and stops at the first `]]`; null means that no position matches |
| PreviousName.BodyNameFound | lib/obsidian.ts:25-26 | when the search finds a match, the returned name is its group, that match is an instance of the pattern with the shortest group, and no earlier position matches |
| PreviousName.GetPreviousNoteName | lib/obsidian.ts:16-27 | a present, non-empty frontmatter value is returned as it is; otherwise the result is the body fallback |
| PreviousName.FrontmatterShadowsBody | lib/obsidian.ts:19-21 | with a non-empty frontmatter value the body has no influence |
| PreviousName.IndentedNotMatched | lib/obsidian.ts:25 | the pattern never matches at a position that does not start a line |
| PreviousName.FirstBracketPairWins | lib/obsidian.ts:25-26 | `previous: [[a]] [[b]]` yields `a` |
| PreviousName.LinkAfterWhiteSpace | lib/obsidian.ts:25-26 | for any run of white space, line breaks included, and any non-empty one-line name without `]`, `previous:`, the run and `[[name]]` yield `name`: `\s*` spans the run and the lazy group stops at the closing `]]` |
| PreviousName.BareNameNotMatched | lib/obsidian.ts:25-26 | `previous: name` without brackets yields null |
| Suggest.Filter | lib/NextNoteSuggestModal.ts:8-11 | the filtered files are exactly the options whose lowercased basename contains the lowercased query, and there are no more of them than options |
| Suggest.FilterKeepsOrder | lib/NextNoteSuggestModal.ts:10 | the filtered files keep the order they have among the options |
| Suggest.FilterCounts | lib/NextNoteSuggestModal.ts:10 | each matching option is kept as often as it occurs among the options, and no other file is kept |
| Suggest.NextNoteSuggestModal.GetSuggestions | lib/NextNoteSuggestModal.ts:8-11 | the same, for the modal's own options |
| Suggest.NextNoteSuggestModal.OnChooseSuggestion | lib/NextNoteSuggestModal.ts:17-19 | choosing a file hands that very file to the `onSelect` callback given at construction |
| Suggest.FilterEmptyQuery | lib/NextNoteSuggestModal.ts:8-11 | the empty query keeps every option, in order |
| Suggest.EmptyQuerySuggestsAll | lib/NextNoteSuggestModal.ts:8-11 | an empty query suggests all of the modal's options |
| Suggest.FilterByLowerQuery | lib/NextNoteSuggestModal.ts:10 | the filter depends on the query only through its lowercase form |
| Suggest.CaseInsensitiveQuery | lib/NextNoteSuggestModal.ts:10 | queries differing only in letter case give the same suggestions |
| Suggest.PickedSuggestionIsOption | lib/NextNoteSuggestModal.ts:8-19 | a picked suggestion is one of the options, matches the query, and is what `onSelect` receives |
| Suggest.PickAmong | lib/NextNoteSuggestModal.ts:8-19 | the `k`-th matching option, when there is one, is one of the options and matches the query |
| Suggest.PickAmongIsSuggestion | lib/NextNoteSuggestModal.ts:8-19 | the `k`-th matching option is the item at `k` of `getSuggestions(query)`, and there is none exactly when that list is shorter |
| Suggest.Chosen | main.ts:115-117 | the note an answer chooses in a modal over `options` is one of the options and matches the typed query; closing the modal chooses nothing |
| Suggest.ChosenByModal | lib/NextNoteSuggestModal.ts:8-19 | a pick chooses what `onChooseSuggestion`, given the picked item of `getSuggestions(query)`, passes on to a callback that hands the file on, as `resolve` and `openFile` do; a pick beyond that list chooses nothing |
| Suggest.EveryOptionChoosable | lib/NextNoteSuggestModal.ts:8-19 | every option can be chosen: with the empty query, the pick at `k` is the `k`-th option |
| Walker.HeadFrom | main.ts:87-95 | the head walk, under a step bound, stops only at a note with no previous note or whose previous note is the start |
| Walker.HeadReached | main.ts:87-95 | the head walk moves only along `previous` links, never re-enters the start, and takes at most `fuel` steps |
| Walker.HeadOfPath | main.ts:87-95 | conversely, a `previous` path that avoids the start and ends where the loop stops is the head walk's result |
| Walker.HeadFuelMonotone | main.ts:89-95 | a walk that stopped keeps its result under a larger step bound |
| Walker.OtherCycleNeverStops | main.ts:89-95 | the loop detects only a cycle back to the start: a cycle between two other notes makes it run forever |
| Walker.TailCycleNeverStops | main.ts:104-126 | the tail loop, too, detects only a cycle back to the start: a single-successor cycle between two other notes makes it run forever, whatever the answers |
| Walker.FindFirstNote | main.ts:87-95 | the loop returns the head walk's result, a note with no previous note or whose previous note is the start |
| Walker.TailFrom | main.ts:102-128 | the tail walk, under a step bound, moves at most that many times; a found note has no successors or lists the start among them; a null result comes after at least one prompt |
| Walker.TailRunSpec | main.ts:102-128 | every move of the tail walk follows the loop's rule; the user is asked exactly at the branch points passed, with their successor lists, in order; the walk ends at a note with no successors or one listing the start, or at a cancelled prompt |
| Walker.NullOnlyOnCancel | main.ts:115-122 | `findLastNote` returns null only right after a prompt closed without a choice, and every earlier prompt got a choice among its candidates |
| Walker.TailFollowsSuccessors | main.ts:104-125 | the walk moves only along successor links and never re-enters the start, because a chosen note is one of the candidates shown |
| Walker.FindLastNote | main.ts:102-128 | the loop returns the tail walk's note (or None when cancelled) and the candidate lists it prompted with |
| Walker.NextNoteStep | main.ts:64-78 | no successors: nothing happens; exactly one: it is opened directly; two or more: the user is asked among all of them |
| Host.Drop | main.ts:115-117 | after `n` prompts, the answer to prompt `j` is the original answer `n + j` |
| Host.App.OpenFile | main.ts:55 | opening a file records it and changes nothing else |
| Host.App.DetachNote | main.ts:149 | detaching writes the note's `previous` field and records the write |
| Host.App.SetPreviousProperty | main.ts:174 | setting the property writes that name into the note's `previous` field and records the write |
| Host.App.AwaitChoice | main.ts:161-163 | an awaited modal records the prompt, consumes the user's next answer and yields the note it chooses, which is always one of the options |
| Host.App.AnswerPrompts | main.ts:115-117 | a walk's prompts are recorded in order, one answer consumed per prompt |
| Plugin.PreviousRiverPlugin.GoToPreviousNote | main.ts:44-56 | without an active file, or without a previous note, nothing happens; otherwise the previous note is opened |
| Plugin.PreviousRiverPlugin.GoToNextNote | main.ts:58-79 | no successors: nothing; one: it is opened; several: a prompt over all of them, and the chosen note is opened unless the prompt is cancelled |
| Plugin.PreviousRiverPlugin.GoToFirstNote | main.ts:81-100 | the head of the chain is opened exactly when it differs from the active file |
| Plugin.PreviousRiverPlugin.FindLastNote | main.ts:102-128 | the tail walk's result, with its prompts shown in order and one answer consumed by each |
| Plugin.PreviousRiverPlugin.GoToLastNote | main.ts:130-140 | the walk's prompts are shown, and the tail is opened exactly when the walk was not cancelled and the tail differs from the active file |
| Plugin.PreviousRiverPlugin.DetachNote | main.ts:142-150 | the active file, if any, is detached |
| Plugin.PreviousRiverPlugin.LinkAfterTail | main.ts:169-174 | after the tail walk from the chosen note, the file's `previous` is set to the tail's basename, unless the walk was cancelled |
| Plugin.PreviousRiverPlugin.InsertNoteToLastCommand | main.ts:152-175 | detach, then prompt over all markdown files; a cancelled choice or walk leaves only the detach; otherwise the active file's `previous` becomes the basename of the tail of the chosen note's chain |
| Commands.GoToPreviousNoteCommand | lib/commands.ts:5-17 | as `GoToPreviousNote` |
| Commands.GoToNextNoteCommand | lib/commands.ts:19-40 | as `GoToNextNote` |
| Commands.GoToFirstNoteCommand | lib/commands.ts:42-61 | the same head walk as in `main.ts`: the head is opened exactly when it differs from the active file |
| Commands.GoToLastNoteCommand | lib/commands.ts:63-73 | what `findLastNote` resolves to is opened exactly when it is a note other than the active file |
| Commands.DetachNoteCommand | lib/commands.ts:75-83 | the active file, if any, is detached |
| Commands.InsertNoteToLastCommand | lib/commands.ts:85-108 | detach, then prompt over all markdown files; a cancelled choice or a null tail leaves only the detach; otherwise `previous` is set to the tail's basename |
| Examples.GeneratedChain | tests/vault/previous-river-test/04_many_previous/generate_notes.rb:9-14 | in the generated vault, note 0 has no previous note, every later note has the one before it, and each note but the last is followed by the next one |
| Examples.GeneratedChainHead | tests/vault/previous-river-test/04_many_previous/generate_notes.rb:9-14 | from any generated note, the head walk reaches note 0 in as many steps as its index |
| Examples.LinearTail | main.ts:104-112 | on a chain of single successors that avoids the start, the tail walk follows every link without a prompt and stops at the end |
| Examples.GeneratedChainTail | tests/vault/previous-river-test/04_many_previous/generate_notes.rb:9-14 | from any generated note, the tail walk reaches the last note without a prompt, passing every later note in order |
| Examples.ThreeNoteChainHead | main.ts:87-95 | on the chain `A` ← `B` ← `C`, where `A` has no previous note, the head walk from `C` ends at `A` |
| Examples.TwoNoteRingHead | main.ts:87-95 | on a ring of two notes the head walk from `A` stops at `B`, because `B`'s previous note is the start |
| Examples.BranchAtStart | main.ts:102-128 | at a note with two successors the tail walk prompts once with both; choosing the first suggestion of the empty query, `B`, ends at `B`; closing the modal, or a script that has run out, yields null |

## Left out

- Command registration and the plugin lifecycle (`main.ts:1-42`) are UI wiring with no logic to model.
- `renderSuggestion` only draws the basename in the modal; it has no effect on what is returned.
- Opening a file is recorded as an event. Workspace leaves and editor state are not modelled.
- The metadata cache, `vault.read` and `getMarkdownFiles` are inputs: the frontmatter value and body text of `getPreviousNoteName`, the snapshot, and the list of markdown files.
- The bodies of `getPreviousNote`, `getNextNotes`, `detachNote`, `setPreviousProperty`, the library `findLastNote` and `extractLinkTarget` in `lib/obsidian.ts` and `lib/utils.ts` are not part of this model. The first two become the snapshot. The third is a write of the mark `DetachedMark`, and the fourth a write of the given name. The library `findLastNote` is a parameter of the `lib/commands.ts` commands. Resolving `"ROOT"` therefore appears only as "no previous note" in the generated chain.
- Promises and modal suspension are not modelled: an awaited choice is the next scripted answer. In the source, a modal that is dismissed without a choice never calls `resolve`, so the awaiting command never returns. The model treats a dismissal as the answer `null`, the case the code tests for.
- Commands.GoToLastNoteCommand, Commands.InsertNoteToLastCommand: the library `findLastNote` they await is a pure function of the start note. Whatever prompts it shows and whatever answers it consumes are not modelled, so these two contracts list no prompt of that walk, and they consume no answer for it. Its body is not part of this model. The `main.ts` twins, `Plugin.PreviousRiverPlugin.GoToLastNote` and `Plugin.PreviousRiverPlugin.InsertNoteToLastCommand`, do model the prompts of the walk they run.
- Host.App.DetachNote, Host.App.SetPreviousProperty: they state only the field written and the event. The position of the written value in the frontmatter is not modelled.
- Text.Lower: folds ASCII letters only, where `toLowerCase` maps all of Unicode.
- PreviousName.GetPreviousNoteName: the frontmatter value is taken to be a string. A non-string truthy YAML value (a number or a list) is returned by the source as it is, and the model does not cover that case.
- Walker.FindFirstNote, Walker.FindLastNote and the commands that use them require the walk to stop within a step bound. No general termination is claimed: `Walker.OtherCycleNeverStops` shows a chain on which the head walk never stops, and `Walker.TailCycleNeverStops` one on which the tail walk never stops.
- The snapshot is fixed for the length of a command. The writes of `insertNoteToLastCommand` are not fed back into the links that its later walk reads. In the source, the metadata cache refresh those writes would trigger is asynchronous.
- `TFile` identity (`===`) is modelled as equality of path and basename.
