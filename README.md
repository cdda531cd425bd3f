# New Zettel: note IDs and the sibling/child note commands

This project models the core of an Obsidian plugin for a Zettelkasten. In
this note-taking scheme every note file is named after an ID followed by
`.md`. An ID is a non-empty string over `[0-9a-z]`. It reads as alternating
maximal runs of digits and lowercase letters: `1a2b` is the runs `1`, `a`,
`2`, `b`. The ID of a note's parent is every run but the last.

The plugin has two commands, both working from the active file:

- **New sibling note.** Increment the last run of the active note's ID. A digit
  run counts up in decimal (`9` to `10`). A letter run replaces its last
  letter by its successor from a fixed table, where `z` becomes `aa`.
- **New child note.** Append a run of the other kind to the active note's ID:
  `a` after a digit run, `1` after a letter run.

Either way the candidate is incremented until no markdown file of the vault
has it as its basename. The note `<folder>/<id>.md` is then created, and
`[[id]]` goes to the clipboard.

The model has four modules:

- `IdRuns` (`id_runs.dfy`): the character classes and the run
  decomposition. `Runs` splits an ID into its maximal runs from the right,
  and `RunsOfJoin` proves the decomposition unique. `Runs` is therefore the
  global match of `([0-9]+|[a-z]+)` that the source uses.
- `Components` (`components.dfy`): the successor of one run. This covers
  the letter table, decimal parsing and printing without leading zeros, and
  the dispatch on `isNumber`.
- `IdAlgebra` (`id_algebra.dfy`): the next sibling and the first child of
  an ID, and the chain of candidates the collision search walks.
- `Zettelkasten` (`zettelkasten.dfy`): the vault as a class holding the
  file list, which the note commands extend, and the clipboard text. It also
  holds the basename/extension split of file names, the zettel-file test,
  the collision search (a recursive function, and the source's `while` loop
  proved to compute it), and the two note commands with their dispatcher.

Below 2^53, every increment of an ID keeps its parent and raises the rank of its last
run by exactly one. The rank is the decimal value of a digit run; for a
letter run it is 26 times (length − 1) plus the position of its last letter.
So, as long as its digit runs stay below 2^53, the candidates of the
search are pairwise distinct, every candidate passed is a taken basename,
and the search stops after at most as many steps as there are files. The ID it returns is free, is the first free
candidate, and becomes taken once the note is created.

A letter run advances only its last letter through the table, so `az`
steps to `aaa` and `zz` to `zaa`, with no carry into the earlier letters
(`Components.IncrementComponentExampleKeepsPrefix`).
A digit run is printed back without its leading zeros, so `09` steps to
`10` (`Components.IncrementComponentExampleLeadingZero`).

## Model

| member | source | states |
|---|---|---|
| IdRuns.LastRunStart | src/main.ts:68 | the result is where the last maximal run begins: every character from it to the end has the kind of the last character, and the character before it (if any) has the other kind |
| IdRuns.LastRunKind | src/main.ts:68 | the last maximal run is a run (all digits or all letters), and it is all digits exactly when the last character is a digit |
| IdRuns.Runs | src/main.ts:68 | the match of `([0-9]+\|[a-z]+)` over an ID is a non-empty sequence of alternating runs that joins back to the ID, ending in the last maximal run |
| IdRuns.ParentIdRuns | src/main.ts:68-70 | the parent of an ID, the text before its last run, is the join of every run but the last |
| IdRuns.LastRunStartOfAppend | src/main.ts:68 | appending a run to text ending in the other kind makes the seam the start of the last run |
| IdRuns.AppendRun | src/main.ts:67-71 | a parent (possibly empty) followed by a run of the other kind is a well-formed ID whose parent and last run are exactly those two parts |
| IdRuns.RunsOfJoin | src/main.ts:68-70 | splitting is the inverse of joining: any alternating runs are recovered from their concatenation, so the split is the unique maximal-run decomposition |
| IdRuns.JoinIsId | src/main.ts:70 | joining alternating runs always yields a well-formed ID |
| IdRuns.IdIffRuns | src/main.ts:119 | a string is a well-formed ID exactly when it is the concatenation of some non-empty alternating sequence of runs, the stem of the zettel file name pattern |
| Components.LetterSuccessorsDomain | src/main.ts:5-32 | the successor table has an entry for exactly the 26 lowercase letters |
| Components.LetterSuccessorsTable | src/main.ts:5-32 | each letter other than `z` maps to the next letter, and `z` maps to `aa` |
| Components.IncrementLetters | src/main.ts:46-50 | every character but the last is kept; a last letter other than `z` becomes the next letter at the same length; a last `z` becomes `aa`, one longer; an all-letter run stays all letters; the letter rank goes up by exactly one |
| Components.IncrementLettersLooksUp | src/main.ts:46-50 | the successor of a letter run is the run without its last letter followed by that letter's entry in the successor table |
| Components.Decimal | src/main.ts:53 | the printed form of a number is a non-empty digit string that parses back to the number and has no leading zero unless it is `0` |
| Components.DecimalOfValue | src/main.ts:53 | a digit string without leading zeros is the printed form of its own value (printing inverts parsing on canonical strings) |
| Components.IncrementDigits | src/main.ts:52-54 | the successor of a digit run is a digit run without leading zero whose value is one more |
| Components.Ulp | src/main.ts:53 | the spacing of doubles around a number is at least 1, and exactly 1 below 2^53 |
| Components.RoundToDouble | src/main.ts:53 | rounding to the nearest double (ties to even) leaves every integer below 2^53 unchanged |
| Components.IncrementDigitsAsWritten | src/main.ts:52-54 | the source's increment in doubles, for runs below 10^16: it prints a digit string, and below 2^53 it equals the exact successor `IncrementDigits` |
| Components.DoubleIncrementAt2p53 | src/main.ts:53 | in doubles, 2^53 + 1 rounds back to 2^53 |
| Components.IncrementDigitsAsWrittenRepeats | src/main.ts:52-54 | the run `9007199254740992` (2^53) steps to itself in the source's arithmetic, while its exact successor differs from it |
| Components.DoubleReadAt2p53Plus1 | src/main.ts:53 | in doubles, 2^53 + 1 is read as 2^53 |
| Components.IncrementDigitsAsWrittenGoesDown | src/main.ts:52-54 | the run `9007199254740993` (2^53 + 1) steps down to `9007199254740992` in the source's arithmetic, while its exact successor is `9007199254740994` |
| Components.IsNumber | src/main.ts:56-58 | a string passing the `^\d+$` test is a run, and a run passes it exactly when its last character is a digit |
| Components.IncrementComponent | src/main.ts:56-65 | the successor of a run is a run of the same kind whose rank is exactly one higher |
| Components.IncrementComponentExampleCarry | src/main.ts:52-54 | `9` steps to `10` |
| Components.IncrementComponentExampleLeadingZero | src/main.ts:52-54 | `09` steps to `10`: leading zeros are dropped |
| Components.IncrementComponentExampleWrap | src/main.ts:31 | `z` steps to `aa` |
| Components.IncrementComponentExampleKeepsPrefix | src/main.ts:46-50 | `az` steps to `aaa`: only the last letter moves |
| IdAlgebra.IncrementId | src/main.ts:67-71 | the next sibling of an ID is a well-formed ID with the same parent and a last run of the same kind, whose rank is exactly one higher |
| IdAlgebra.IncrementIdRuns | src/main.ts:67-71 | splitting an ID into its runs, replacing the last run by its successor and joining gives the next sibling, and the runs of the next sibling are exactly those: every run but the last is unchanged |
| IdAlgebra.IncrementIdOfAppend | src/main.ts:67-71 | for an ID made of some text and a last run `r`, the next sibling is that text followed by the successor of `r` |
| IdAlgebra.NextComponentOf | src/main.ts:73-81 | the first run of a child is a run of the other kind than the parent's last run, of rank 0 or 1: exactly `a` after a digit run and `1` after a letter run |
| IdAlgebra.FirstChildOf | src/main.ts:82-84 | the first child of an ID is a well-formed ID |
| IdAlgebra.FirstChildRuns | src/main.ts:73-84 | the runs of the first child are the parent's runs plus one run of the other kind, so its parent is the given ID; it is the ID followed by `a` after digits and by `1` after letters |
| IdAlgebra.FirstChildParent | src/main.ts:82-84 | the parent of the first child is the given ID |
| IdAlgebra.Steps | src/main.ts:92 | the candidate after `k` increments keeps the start's parent and last-run kind, and its rank is `k` above the start's |
| IdAlgebra.StepsDistinct | src/main.ts:92 | the candidates the loop walks through are pairwise distinct |
| IdAlgebra.IncrementIdWrapsZ | src/main.ts:67-71 | an ID whose last run is the single letter `z` steps to the same text followed by `aa` (`1z` to `1aa`): the letter wraps to a longer run and nothing before it changes |
| IdAlgebra.IncrementIdExampleCarry | src/main.ts:67-71 | `9` steps to `10` |
| IdAlgebra.IncrementIdExampleNested | src/main.ts:67-71 | `1a9` steps to `1a10`, keeping the runs `1` and `a` |
| IdAlgebra.FirstChildExampleDigit | src/main.ts:73-84 | the first child of `3` is `3a` |
| IdAlgebra.FirstChildExampleLetter | src/main.ts:73-84 | the first child of `3a` is `3a1` |
| Zettelkasten.LastDot | src/main.ts:87 | the result is the index of the last `.` of the name, or -1 when there is none |
| Zettelkasten.NoteFileOfId | src/main.ts:98 | the file `<id>.md` has basename `id` and extension `md`, and its name is a zettel file name |
| Zettelkasten.IsZettelFile | src/main.ts:118-120 | a name passing the zettel test is at least four characters long and its last dot is the one before `md`, so its basename is the part the pattern captures |
| Zettelkasten.ZettelFileIff | src/main.ts:118-120 | a file name passes the zettel test exactly when the file is a markdown file whose basename is a well-formed ID |
| Zettelkasten.MatchingFiles | src/main.ts:87 | the filtered list holds exactly the markdown files of the vault whose basename is the ID |
| Zettelkasten.MarkdownBasenames | src/main.ts:87 | a name is a taken basename exactly when some markdown file of the vault has it as basename; there are no more such names than files |
| Zettelkasten.FirstAvailableUnique | src/main.ts:90-94 | the first available ID from a start is determined by the taken names and the start |
| Zettelkasten.FirstAvailable | src/main.ts:90-94 | the value `firstAvailableID` returns: a well-formed ID with the start's parent and a rank no lower, equal to the start unless the start is taken |
| Zettelkasten.VisitBelow | src/main.ts:92 | a candidate of the next rank was not visited before, and all visited candidates then lie below the next bound |
| Zettelkasten.SearchStep | src/main.ts:92 | passing a taken candidate keeps the loop invariant: the current candidate is the `k`-th, and the `k` earlier, distinct candidates are all taken |
| Zettelkasten.SearchDone | src/main.ts:90-94 | when the loop stops, the candidate is the first available one, at most as many steps were taken as there are taken names, the parent is kept, the rank did not drop, and the result is the start exactly when no step was taken |
| Zettelkasten.FirstAvailableFrom | src/main.ts:90-94 | the search as a recursive function: its result is a well-formed ID, and it moves past a candidate only when that candidate is taken |
| Zettelkasten.FirstAvailableFromKeepsParent | src/main.ts:92 | the search result has the parent of the candidate it starts from and a rank no lower |
| Zettelkasten.SearchReachesFree | src/main.ts:90-94 | from the `k`-th candidate, with as many steps left as there are taken names not yet passed, the search reaches a free name, and it is the first available one from the start |
| Zettelkasten.FirstAvailableIsFirst | src/main.ts:90-94 | one step per taken name is always enough: the search function returns a name that is not taken and is the first free candidate from the start |
| Zettelkasten.SearchFinds | src/main.ts:92-93 | the candidate at which the loop stops is the search function's value, and it is the start itself when the start is free |
| Zettelkasten.NextNoteId | src/main.ts:96-109 | the ID a command picks is well-formed and not taken; the sibling command's keeps the note's parent with a higher rank, and the child command's has the note as its parent |
| Zettelkasten.Vault.IdExists | src/main.ts:86-88 | an ID exists exactly when it is the basename of some markdown file of the vault |
| Zettelkasten.Vault.FirstAvailableId | src/main.ts:90-94 | the loop returns the search function's value for the vault's taken basenames, so the first free candidate from the start; the result is a well-formed ID that does not exist; a free start is returned unchanged |
| Zettelkasten.Vault.MakeNote | src/main.ts:111-116 | the vault gains exactly the file `basename.md` in the folder, at path `folder/basename.md`, and nothing else changes |
| Zettelkasten.NewFileTakesId | src/main.ts:113 | after adding `id.md`, the taken basenames are the previous ones plus `id` |
| Zettelkasten.Vault.MakeNoteForNextSiblingOf | src/main.ts:96-102 | the new ID is the first free candidate from the sibling's successor and was free before; it has the sibling's parent and a higher rank; the vault gains exactly `folder/<id>.md`, and the ID is then taken |
| Zettelkasten.Vault.MakeNoteForNextChildOf | src/main.ts:104-109 | the new ID is the first free candidate from the first child and was free before; its parent is the given note's ID; the vault gains exactly `folder/<id>.md`, and the ID is then taken |
| Zettelkasten.Vault.CopyToClipboard | src/main.ts:36-44 | the clipboard holds the given text afterwards, and the vault's files are untouched |
| Zettelkasten.Vault.GenerateId | src/main.ts:126 | the chosen command's ID is the first free candidate from the next sibling or the first child of the note, was free before, names a zettel file, and exactly `folder/<id>.md` is added |
| Zettelkasten.Vault.MakeNoteFunction | src/main.ts:122-129 | without an active file, or when its name is not a zettel name, neither the vault nor the clipboard changes; otherwise exactly one file `folder/<id>.md` is added for the fresh `id` the chosen command picks, and the clipboard holds `[[id]]` |

## Findings

| source | as written | input that shows it | evidently intended | confidence | as-written member | corrected member |
|---|---|---|---|---|---|---|
| src/main.ts:53 | `(parseInt(id) + 1).toString()` adds one in doubles | the digit run `9007199254740992` (2^53): 2^53 + 1 rounds to 2^53, so the first sibling candidate of the note `9007199254740992.md` is that note's own, taken, ID, and the loop at src/main.ts:92 never ends | the next integer, `9007199254740993` | not executed | Components.IncrementDigitsAsWrittenRepeats | Components.IncrementDigits |
| src/main.ts:53 | `(parseInt(id) + 1).toString()` reads the run as a double | the digit run `9007199254740993` (2^53 + 1): `parseInt` reads it as 2^53, and adding one rounds back to 2^53, so the sibling command on `9007199254740993.md` picks `9007199254740992`, a lower rank, or hangs when that note exists | the next integer, `9007199254740994` | not executed | Components.IncrementDigitsAsWrittenGoesDown | Components.IncrementDigits |

## Left out

- The DOM mechanics of `copyToClipboard` (src/main.ts:36-44): the copy event listener and `execCommand`. The model keeps only the effect, the clipboard's new text, as a field of the vault.
- The promise returned by `vault.create`, the note content `# `, and opening the new file in the active leaf (src/main.ts:112-115). The model records only the file that is added; a failure of `create` is not modelled.
- `getNewFileParent`: the host decides the folder of a new note. It becomes the `folder` parameter of the note commands.
- `getActiveFile`: the active file becomes the `active` parameter of `Zettelkasten.Vault.MakeNoteFunction`. The `idGenerator` callback becomes the `NoteKind` choice between the two commands, applied by `Zettelkasten.Vault.GenerateId`.
- `onload`/`onunload` and command registration: host wiring with no logic of its own.
- The unused regular expression at src/main.ts:4: nothing reads it.
- The repository's root `main.ts` and language files are not part of this model.
- Components.IncrementDigits: `parseInt` and `toString` work on IEEE doubles and are exact only below 2^53. The rest of the model uses unbounded naturals. From 2^53 up the source's increment can return the candidate it was given, and `firstAvailableID` then loops forever when that candidate is taken. It can also go down: `9007199254740993` steps to `9007199254740992`, so the sibling command on `9007199254740993.md` creates a note of lower rank when that name is free, and hangs when it is taken (see "## Findings"). From 10^21 up `toString` prints exponent form such as `1e+21`, which is not an ID.
- Components.IncrementDigitsAsWritten: models the source's rounding only for runs below 10^16, where `toString` prints every double in full. Above that, `toString` prints the shortest digits that read back to the double, which the model does not capture.
- IdAlgebra.IncrementId: the source's regular expression skips characters outside `[0-9a-z]`, and `nextComponentOf` asserts with `!` that the match is not null (src/main.ts:74). `IdAlgebra.NextComponentOf` and `IdAlgebra.FirstChildOf` carry the same `IsId` requirement as `IdAlgebra.IncrementId`. The model requires a well-formed ID, which is all the source ever passes, because candidates start from a basename that passed the zettel test or from an earlier candidate.
- Zettelkasten.Vault.MakeNoteForNextSiblingOf: requires the sibling's basename to be a well-formed ID, which the dispatcher guarantees through the zettel test. The same holds for `Zettelkasten.Vault.MakeNoteForNextChildOf`.
