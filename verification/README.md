# Vault Transfer, modelled in Dafny

Vault Transfer is an Obsidian plug-in that moves a note into another vault. This project models its transfer engine (`src/transfer.ts`) and the parts of its settings (`src/settings.ts`) that hold logic.

The transfer engine covers:

- `cleanPath`, which normalises a path setting;
- `showErrorIfSettingsInvalid`, which checks that a target vault is set;
- `createVaultFileLink`, which builds the `obsidian://vault/...` markdown link to the copied note;
- `transferNote`, which copies the open note into the other vault's output folder and replaces the note's text with that link;
- `insertLinkToOtherVault`, which inserts the same link at the cursor.

The settings part covers:

- the settings record and `DEFAULT_SETTINGS`;
- the callback that parses the "Remove folders from path" text area into a list;
- the "Add Path" and delete buttons of the override-path list.

The project has five modules:

- `Text` (`text.dfy`): the ECMAScript string built-ins the code relies on, namely `trim`, `replaceAll`, `split` on a character or a character class, and `join`.
- `Uri` (`uri.dfy`): ECMAScript `encodeURI`, covering the set of characters it keeps and UTF-8 percent-encoding with upper-case hex digits.
- `Host` (`host.dfy`): the host capabilities the engine calls, each as state it can observe and change.
  - Node's `existsSync` and `copyFileSync` act on a file system of files and directories.
  - The editor's `setValue` and `replaceSelection` act on a text buffer with a selection.
  - `showNotice` appends to a log of notices.
- `Settings` (`settings.dfy`): the settings record, its defaults, and the settings tab's callbacks.
  - The tab is a class over `plugin.settings`.
  - Override entries are objects that the tab deletes by identity.
- `Transfer` (`transfer.dfy`): the engine.
  - Each command is a method over the host objects.
  - Each method is proved equal to a function (`TransferNoteEffect`, `InsertLinkEffect`) that describes the whole effect on the session: the file system, the editor and the notices.
  - Lemmas beside those functions (`TransferNoteEffectSpec`, and `InsertLinkEffect`'s own contract) state what the effect promises.

Main properties proved:

- A transfer never overwrites or removes a file (nothing else writes to the file system while the command runs). It adds at most one file: at `<vault>/<folder>/<file name>`, holding the note's bytes.
- A transfer succeeds only into a real directory. `existsSync` is also true for a regular file, so a file at the output folder's path passes the folder check, and the copy then fails with `ENOTDIR`.
- A failed check changes nothing but the notices and shows exactly one notice, naming the first check that failed.
- A successful transfer leaves the note holding only the link.
- Inserting a link never involves the file system.
- The link reads back: the URI after `obsidian://vault/` splits into the encoded vault name and the encoded note name.
  - The vault name is the longest slash-free suffix of the cleaned path.
  - Percent-encoding decodes back to the UTF-8 bytes.
- The remove-path text the tab shows parses back to the list it shows, for lists whose entries are non-empty, have no white space at either end, hold no comma or line break, and are already in `normalizePath`'s normal form. The parse loop computes exactly the filter-map of trim and normalise over the split pieces.
- Deleting an override removes exactly that object.

The settings record also has fields that this version of `src/transfer.ts` never reads: folder creation, link creation (`createLink`), date variables, deleting the original, overwriting, tree recreation, and the override and remove-path lists. They are modelled as data only.

Two behaviours of the code are made explicit:

- `cleanPath` removes at most one leading and one trailing slash, so `//a` cleans to `/a`, and cleaning again gives `a`. The source documents `cleanPath` only as improving the consistency of slashes (`src/transfer.ts:110`), so the model states exactly what the code removes.
- `insertLinkToOtherVault` passes the raw vault setting to `createVaultFileLink`, while `transferNote` passes the cleaned one.
  - The two links agree whenever the cleaned setting is stable under a second cleaning.
  - For a setting `/<dir>/<name>//` with plain (alphanumeric) names they differ. The inserted link has an empty vault name, while the transfer's link names `<name>`. For example, `/Vaults/Second//` and the note `MyNote` give `[MyNote](obsidian://vault//MyNote)` against `[MyNote](obsidian://vault/Second/MyNote)`.

## Model

| member | source | states |
|---|---|---|
| Text.TrimStart | src/transfer.ts:113 | the leading white space of `trim` is a prefix of white-space characters, and what is left is a suffix of the input starting with a non-white-space character |
| Text.TrimEnd | src/transfer.ts:113 | the trailing white space of `trim` is a suffix of white-space characters, and what is left is a prefix ending with a non-white-space character |
| Text.Trim | src/transfer.ts:96 | `trim` is no longer than its input, has no white space at either end, and is empty exactly when the input is all white space (the settings check at line 96) |
| Text.TrimOfTrimmed | src/transfer.ts:113 | `trim` leaves a string with no white space at its ends unchanged |
| Text.TrimStartAppend | src/transfer.ts:113 | text appended after a non-white-space character does not change what the leading trim removes |
| Text.ReplaceBackslashes | src/transfer.ts:115 | `replaceAll("\\", "/")` keeps the length, puts a slash at every position that held a backslash, and changes no other character |
| Text.ReplaceBackslashesAppend | src/transfer.ts:115 | the replacement works character by character, so it distributes over concatenation |
| Text.ReplaceBackslashesIdentity | src/transfer.ts:115 | a string without backslashes is unchanged |
| Text.TrimStartReplace | src/transfer.ts:113-115 | the leading trim and the backslash replacement commute |
| Text.TrimEndReplace | src/transfer.ts:113-115 | the trailing trim and the backslash replacement commute |
| Text.TrimReplace | src/transfer.ts:113-115 | `trim` and the backslash replacement commute |
| Text.Split | src/transfer.ts:80 | `split` gives at least one piece, and no piece holds a separator |
| Text.SplitFree | src/settings.ts:122 | a string without separators splits into itself alone |
| Text.SplitAt | src/settings.ts:122 | splitting at the first separator gives the piece before it, then the split of the rest |
| Text.SplitLast | src/transfer.ts:80-81 | the last piece of a split is the longest separator-free suffix, and it is the whole string exactly when there is one piece |
| Text.Join | src/settings.ts:120 | `join` of a one-element list is that element |
| Text.SplitJoin | src/settings.ts:120-122 | joining separator-free pieces with one separator character and splitting again gives the pieces back |
| Uri.Utf8 | src/transfer.ts:82-83 | the UTF-8 encoding of a code point is 1 to 4 bytes; it is one byte, equal to the code point, exactly below 0x80; later bytes are continuation bytes |
| Uri.HexDigit | src/transfer.ts:82-83 | the digit `encodeURI` writes for a value below 16 is an upper-case hex digit that reads back as that value |
| Uri.PercentEncode | src/transfer.ts:82-83 | each byte becomes three characters, `%` and two hex digits |
| Uri.PercentRoundTrip | src/transfer.ts:82-83 | decoding the percent-encoding gives the bytes back |
| Uri.EncodeChar | src/transfer.ts:82-83 | a character `encodeURI` keeps is copied unchanged; any other becomes at least three `%`/hex characters |
| Uri.EncodeURI | src/transfer.ts:82-83 | `encodeURI` never shortens its input, and its output holds only kept characters and `%` |
| Uri.EncodeURIAppend | src/transfer.ts:82-83 | `encodeURI` works character by character, so it distributes over concatenation |
| Uri.EncodeURIIdentity | src/transfer.ts:82-83 | `encodeURI` leaves a string unchanged exactly when every character is one it keeps (both directions) |
| Uri.EncodeURIKeepsPunctuation | src/transfer.ts:82-85 | a kept punctuation character such as `/` occurs in the encoding exactly when it occurs in the input, so encoded names cannot add a slash to the link |
| Host.Exists | src/transfer.ts:29 | `existsSync` holds for a file and for a directory alike (no contract of its own; used by `ExistsSync`) |
| Host.DirName | src/transfer.ts:43 | the folder `copyFileSync` writes into is a prefix of the destination: empty when the destination has no slash, otherwise everything before its last slash |
| Host.DirNameJoin | src/transfer.ts:26 | the folder of `<folder>/<name>`, for a name without a slash, is `<folder>` |
| Host.CopyError | src/transfer.ts:43 | `copyFileSync` raises exactly when the source is missing, the destination's folder is not a directory, the destination is a directory, or the write is refused; a destination folder that is a file gives `ENOTDIR` |
| Host.AfterCopy | src/transfer.ts:43 | a copy adds or replaces only the destination, with the source's bytes; directories are unchanged |
| Host.FileSystem.ExistsSync | src/transfer.ts:29 | `existsSync` is true for a file or a directory at the path, and it changes nothing |
| Host.FileSystem.CopyFileSync | src/transfer.ts:43 | returns the error `CopyError` gives (including `ENOTDIR` for a destination folder that is a file) and then changes nothing; otherwise the file system becomes `AfterCopy` |
| Host.ReplacedSelection | src/transfer.ts:72 | after `replaceSelection`, the text before the selection is kept, the inserted string follows, then the text after the selection; the cursor (both ends of the new selection) sits right after the insertion |
| Host.Editor.SetValue | src/transfer.ts:47 | `setValue` makes the given string the whole text of the note |
| Host.Editor.ReplaceSelection | src/transfer.ts:72 | the editor becomes `ReplacedSelection` of its old state |
| Host.NoticeLog.Show | src/transfer.ts:31 | a notice is appended to those already shown |
| Settings.OverridePath.constructor | src/settings.ts:143 | a new override entry holds the given source path and replacement |
| Settings.DefaultSettingsValues | src/settings.ts:33-48 | the defaults: no target vault or folder, no overwriting, keep the original, create a link, and empty remove-path and override lists |
| Settings.KeptPath | src/settings.ts:126-130 | one raw piece contributes at most one entry |
| Settings.RemovePaths | src/settings.ts:122-131 | the list a text stands for: the clean paths of its pieces split on comma and line break (no contract of its own; `ParseRemovePaths` computes it) |
| Settings.RemovePathsOfOne | src/settings.ts:122-131 | a text without a comma or line break gives one entry, or none when it is blank |
| Settings.RemovePathText | src/settings.ts:120 | the empty list is shown as the empty text, and a one-entry list as that entry |
| Settings.CleanPaths | src/settings.ts:125-131 | parsing never yields more paths than there are raw pieces |
| Settings.CleanPathsStep | src/settings.ts:125-131 | one more loop iteration appends exactly what the next piece contributes |
| Settings.ParseRemovePaths | src/settings.ts:122-131 | the loop's list is the filter-map of the split pieces: each blank piece is dropped, and each other piece becomes the normalised form of its trim, in order |
| Settings.CleanPathsAppend | src/settings.ts:125-131 | the loop handles pieces one at a time: the pieces of a concatenation parse to the concatenation of their parses |
| Settings.CleanPathsAllBlank | src/settings.ts:127-129 | blank pieces contribute nothing |
| Settings.CleanPathsNoneBlank | src/settings.ts:125-131 | when no piece is blank, each piece is kept, in order, as the normalised form of its trim |
| Settings.SplitCommaSpace | src/settings.ts:120-122 | splitting the `", "`-joined list on comma and new line gives each entry, every one after the first preceded by a space |
| Settings.TrimSpaced | src/settings.ts:126 | the space the join puts before an entry is removed by the trim |
| Settings.ShownTextPieces | src/settings.ts:120-122 | the text shown for a list splits into the first entry and every later entry after a space |
| Settings.ShownPiece | src/settings.ts:120 | the first shown piece is the first entry; each later piece is its entry after one space |
| Settings.ShownPiecesTrim | src/settings.ts:120-126 | there are as many shown pieces as entries, and each trims back to its entry |
| Settings.CleanPathsOfSettled | src/settings.ts:125-131 | pieces that each trim to a settled entry parse to exactly those entries |
| Settings.RemovePathRoundTrip | src/settings.ts:120-133 | the shown text of a list of non-empty, trimmed, separator-free, normalised entries parses back to that list |
| Settings.Without | src/settings.ts:172 | `filter(o => o != override)` never lengthens the list and removes every occurrence of `override` |
| Settings.WithoutMembers | src/settings.ts:172 | the filter keeps nothing that was not in the list, and keeps every entry other than `override` |
| Settings.WithoutOnce | src/settings.ts:172 | deleting an entry that occurs once removes exactly its position and keeps the order of the rest |
| Settings.WithoutAbsent | src/settings.ts:172 | deleting an entry that is not in the list changes nothing |
| Settings.SettingTab.constructor | src/settings.ts:53-56 | the tab holds the plug-in's settings |
| Settings.SettingTab.OnRemovePathChange | src/settings.ts:121-133 | the remove-path list becomes the parse of the new text; every other setting is unchanged |
| Settings.SettingTab.OnAddPath | src/settings.ts:140-145 | one fresh, empty override is appended; earlier entries and every other setting are unchanged |
| Settings.SettingTab.OnDeleteOverride | src/settings.ts:168-174 | the override list becomes the list without that object; every other setting is unchanged |
| Transfer.StripSlashes | src/transfer.ts:116-119 | the result is the input with at most one character removed at each end, and only a slash: the first character goes exactly when it is a slash, and the last goes only when it is a slash; a slash left at an end was doubled in the input |
| Transfer.CleanPath | src/transfer.ts:112-120 | a cleaned path holds no backslash, is no longer than the input, and is empty for a blank input |
| Transfer.CleanPathOfTrimmed | src/transfer.ts:112-120 | on a trimmed path without backslashes, cleaning only drops the slashes |
| Transfer.StripSlashesNone | src/transfer.ts:116-119 | a string with no slash at either end is unchanged |
| Transfer.StripSlashesLeading | src/transfer.ts:116-117 | with only a leading slash, that slash alone is removed |
| Transfer.StripSlashesBoth | src/transfer.ts:116-119 | with a slash at each end, both are removed |
| Transfer.StripSlashesTrailingOnly | src/transfer.ts:118-119 | with only a trailing slash, that slash alone is removed |
| Transfer.CleanPathFixedPoint | src/transfer.ts:112-120 | a trimmed, backslash-free path with no slash at either end is unchanged by cleaning |
| Transfer.CleanPathLeading | src/transfer.ts:116-117 | one leading slash before a clean path is removed |
| Transfer.CleanPathTrailing | src/transfer.ts:118-119 | one trailing slash after a clean path is removed |
| Transfer.CleanPathDoubledTrailing | src/transfer.ts:116-119 | of a leading slash and two trailing slashes around a clean path, one trailing slash is left |
| Transfer.CleanPathNotIdempotent | src/transfer.ts:116-119 | only one slash is removed at each end: for any clean `a`, `//a` cleans to `/a`, which cleans to `a` |
| Transfer.CleanPathIgnoresBackslashes | src/transfer.ts:113-115 | replacing backslashes before cleaning makes no difference |
| Transfer.TrimAppendChar | src/transfer.ts:113 | a non-white-space character after a non-white-space end survives the trim |
| Transfer.StripSlashesTrailing | src/transfer.ts:119 | a single slash added after a string not ending in one is the one removed |
| Transfer.CleanPathOfSeparator | src/transfer.ts:112-120 | a lone `/` or `\` cleans to the empty path |
| Transfer.ReplaceSeparatorAppend | src/transfer.ts:115 | a `/` or `\` added to a string becomes a slash after its replacement |
| Transfer.StripSlashesDropsAddedSeparator | src/transfer.ts:115-119 | after a string ending in a character other than a separator, an added `/` or `\` becomes the trailing slash that is dropped |
| Transfer.TrimDropsAddedSeparator | src/transfer.ts:113-119 | after a path whose last character is neither white space nor a separator, an added separator survives the trim and is then dropped |
| Transfer.CleanPathDropsAddedSeparator | src/transfer.ts:112-120 | after a non-empty path whose last character is neither white space nor a separator, an added separator is the trailing slash that cleaning removes |
| Transfer.CleanPathIgnoresTrailingSeparator | src/transfer.ts:112-120 | one separator, `/` or `\`, added after a path that is empty or whose last character is neither white space nor a separator, is removed by cleaning (the condition is needed: `a /` cleans to `a ` while `a ` cleans to `a`) |
| Transfer.SettingsInvalid | src/transfer.ts:96 | the check on the trimmed vault setting (no contract of its own; see `SettingsInvalidIffBlank`) |
| Transfer.DefaultSettingsInvalid | src/transfer.ts:96 | the default settings fail the check, because the target vault is empty |
| Transfer.SettingsInvalidIffBlank | src/transfer.ts:96 | the settings check fails exactly when the vault setting is empty or all white space |
| Transfer.ShowErrorIfSettingsInvalid | src/transfer.ts:92-107 | it answers true, and shows `Error: Target vault has not been set.`, exactly when the settings check fails; otherwise it shows nothing |
| Transfer.LastSegment | src/transfer.ts:80-81 | the last `/`-piece is the longest slash-free suffix |
| Transfer.VaultName | src/transfer.ts:80-81 | the vault name holds no slash and no backslash |
| Transfer.VaultNameIgnoresTrailingSeparator | src/transfer.ts:80 | a single `/` or `\` added after a setting that is empty or whose last character is neither white space nor a separator does not change the vault name |
| Transfer.VaultNameIgnoresBackslashes | src/transfer.ts:80 | Windows separators in the setting do not change the vault name |
| Transfer.CreateVaultFileLink | src/transfer.ts:78-86 | the link template (no contract of its own; its shape is proved by `LinkTarget` and `LinkOfVaultName`) |
| Transfer.LinkTarget | src/transfer.ts:78-86 | the link starts with `[name](obsidian://vault/` and ends with `)`; for a name without a slash, the URI between splits on `/` into exactly the encoded vault name and the encoded note name |
| Transfer.PlainFacts | src/transfer.ts:82-83 | a plain (alphanumeric) name has no white space at its ends, no separator, and is not changed by `encodeURI` |
| Transfer.PlainJoin | src/transfer.ts:80-81 | two plain names joined by a slash form a path that cleaning leaves alone, and its last piece is the second name |
| Transfer.PlainVaultPath | src/transfer.ts:80-81 | the setting `/<dir>/<name>` cleans to `<dir>/<name>` and names the vault `<name>` |
| Transfer.LinkOfVaultName | src/transfer.ts:78-86 | when neither the vault name nor the note name is changed by `encodeURI`, the link is `[note](obsidian://vault/<vault name>/note)` |
| Transfer.PlainVaultLink | src/transfer.ts:78-86 | with plain names, note `<note>` and setting `/<dir>/<name>` give `[<note>](obsidian://vault/<name>/<note>)`, e.g. `[MyNote](obsidian://vault/Second/MyNote)` for `/Vaults/Second` |
| Transfer.OutputFolderPath | src/transfer.ts:17-25 | `<cleaned vault>/<cleaned folder>` (no contract of its own) |
| Transfer.OutputPath | src/transfer.ts:26 | the output folder, a slash, and the note's file name (no contract of its own) |
| Transfer.SourcePath | src/transfer.ts:43 | the vault's base path, a slash, and the note's path in its vault (no contract of its own) |
| Transfer.TransferLink | src/transfer.ts:46 | the link built from the note's name and the cleaned vault (no contract of its own) |
| Transfer.FailureNotice | src/transfer.ts:13-50 | the one notice of a transfer that does not succeed: the settings notice, the missing-folder notice, the file-exists notice, or the copy's error after `Error copying file: ` (no contract of its own; `TransferNoteEffectSpec` ties it to the effect) |
| Transfer.TransferNoteEffect | src/transfer.ts:9-52 | the session after the command, check by check (no contract of its own; `TransferNoteEffectSpec` states what it promises) |
| Transfer.TransferNoteEffectSpec | src/transfer.ts:9-52 | a transfer keeps directories, never removes or overwrites a file, and adds at most the file at `<vault>/<folder>/<file name>`, with the note's bytes (the note's folder plays no part). If the vault is blank, nothing exists at the folder's path, something exists at the file's path or the copy fails (a missing source, a folder that is not a directory, a refused write), it changes nothing and shows that one notice. Otherwise the copy is added, and the note holds only the link built from the cleaned vault |
| Transfer.TransferNeedsDirectory | src/transfer.ts:29-43 | for a file name without a slash, a successful transfer writes into a folder that is a directory, not merely something that exists |
| Transfer.TransferIntoFileFails | src/transfer.ts:29-50 | a file standing at the output folder's path passes both existence checks, and the transfer fails with `Error copying file: Error: ENOTDIR: not a directory, copyfile '<source>' -> '<output>'` |
| Transfer.TransferNote | src/transfer.ts:9-52 | the command's file system, editor and notices end as `TransferNoteEffect` describes |
| Transfer.InsertLinkEffect | src/transfer.ts:57-73 | inserting never changes the file system. If the vault is blank, it only shows the notice. Otherwise the selection is replaced by the link built from the raw vault setting, with the cursor after it |
| Transfer.InsertLinkToOtherVault | src/transfer.ts:57-73 | the command's editor and notices end as `InsertLinkEffect` describes, whatever the file system |
| Transfer.InsertLinkMatchesTransferLink | src/transfer.ts:46 | the link inserted from the raw setting equals the one a transfer leaves whenever cleaning the cleaned setting changes nothing |
| Transfer.LastSegmentAfterSlash | src/transfer.ts:81 | a path ending in a slash has an empty last piece |
| Transfer.DoubledSlashVaultNames | src/transfer.ts:80-81 | with plain names, `/<dir>/<name>//` cleans to `<dir>/<name>/` and so gives an empty vault name; its cleaned form gives `<name>` |
| Transfer.LinkOfEmptyVaultName | src/transfer.ts:78-86 | with an empty vault name the link is `[note](obsidian://vault//note)` |
| Transfer.InsertLinkDiffersFromTransferLink | src/transfer.ts:68-71 | with plain names and the setting `/<dir>/<name>//`, the inserted link has an empty vault name (`[MyNote](obsidian://vault//MyNote)` for `/Vaults/Second//`), and the transfer's link names `<name>` (`[MyNote](obsidian://vault/Second/MyNote)`) |

## Left out

- UI rendering of the settings tab (headings, toggles, text fields and `display()` re-rendering): no logic beyond the callbacks modelled here.
- The field edits of an override entry (`src/settings.ts:156` and `:164`) are plain assignments of the typed value and are not modelled. The same holds for the toggles and the vault/folder fields, which normalise the typed value with the host's `normalizePath`.
- `saveSettings` (persisting to disk) is host I/O and is left out.
- Obsidian's `normalizePath` is host code. It is a parameter (any function on strings), and the remove-path round trip assumes entries already in its normal form.
- `src/main.ts`, `src/commands.ts` and `src/modals.ts` are not part of this model. They hold plug-in wiring, menus and dialogs. `main.ts` also has an older copy of the defaults without `overridedPath`.
- `src/utils.ts` is not part of this model: `showNotice` is modelled as appending its message to a log.
- Transfer.TransferNote: the vault's base path (`getBasePath()`) and the note (`view.file`) are parameters.
  - The `catch` is modelled for the one call that raises, `copyFileSync`. Its errors are a missing source (ENOENT), a destination folder that is a file (ENOTDIR) or is missing (ENOENT), a destination that is a directory (EISDIR), and a set of `locked` paths standing for every other I/O fault (EACCES).
  - The file system is assumed not to change between the existence checks and the copy. `copyFileSync` is called without `COPYFILE_EXCL`, so a file that another process creates at the output path in between would be overwritten; "never overwrites" holds only under this assumption.
  - Relative paths and the operating system's path resolution are not modelled: paths are compared as strings, and only the destination's immediate folder is checked, not every folder above it.
- Transfer.InsertLinkToOtherVault: the selection is modelled as one range `[from, to)`; multiple cursors are not modelled.
- Host.Editor.SetValue: where the host puts the cursor after `setValue` is not specified; the model puts it at 0.
- Uri.EncodeURI: strings are sequences of Unicode scalar values, so the `URIError` that `encodeURI` raises for a lone surrogate cannot arise and is not modelled.
- Should the plug-in ever load its settings by copying `DEFAULT_SETTINGS` from `src/settings.ts` (as `src/main.ts:35` does with its own, array-free defaults), the copy would share the default arrays (JavaScript aliasing). This is not modelled: the lists are values.
