# touch-code editor core, modelled in Dafny

This project models the deterministic core of the touch-code mobile code
editor. It covers five pieces:

- **File-type registry and name rules** (`file_utils.dfy`): the extension of
  a file name, the eleven-entry file-type table with its plain-text
  fallback, the template a new file starts from, and the validation of a
  typed file name.
- **File-creation dialog** (`file_explorer.dfy`): the decision `createFile`
  takes for a typed name and a selected type, and the dialog state it resets.
- **Preview composer** (`preview_panel.dfy`): how the files of a project
  become one html document, a markdown page or nothing.
- **Local project store** (`project_storage.dfy`): the projects list and the
  parallel metadata list, with save (upsert by id), lookup and delete.
- **Editing session** (`mobile_code_editor.dfy`): the open project, the
  active file and the panel flags, and every handler that changes them.

Two shared modules support them:

- `types.dfy` holds the records `File`, `Project` and `ProjectMetadata`.
- `lists.dfy` and `text.dfy` hold the array and string builtins the code
  relies on:
  - `find`, `findIndex`, `filter` and `map` by a key (an id or an extension);
  - `trim`, `toLowerCase`, `split('.').pop()`, `includes`, `indexOf` and
    `join`;
  - `replace` with a string pattern, including the `$` patterns it expands.

The form of each module follows the source:

- The registry, the decision and the composer are pure functions.
- The store, the dialog, the preview panel and the session are classes
  whose methods update their fields.

Lemmas state the properties the code promises. The methods' postconditions
tie each new state to those functions.

Two facts about the code shape the model:

- The local store lists metadata unsorted, in insertion order: a re-saved
  id keeps its place, and a project deleted and saved again moves to the
  end. Only the hosted store sorts, by `updated_at`
  (src/utils/supabaseProjectStorage.ts:110), and the hosted store is not
  part of this model.
- Nothing in the session makes file ids unique: `handleCreateFile` appends
  whatever file it is given. A file list is therefore a list, so an edit
  replaces every file with the active id and a delete removes every one.

## Model

| member | source | states |
|---|---|---|
| Lists.IndexOf | src/utils/projectStorage.ts:10 | `findIndex` by key gives the first position holding the key, and -1 exactly when no element has it |
| Lists.Find | src/utils/projectStorage.ts:24 | `find` by key returns an element exactly when the key is present, and that element is in the list and has the key |
| Lists.Keep | src/components/PreviewPanel.tsx:32-33 | `filter` on a key keeps exactly the elements with that key and never lengthens the list |
| Lists.Remove | src/utils/projectStorage.ts:33-36 | `filter` on a differing key keeps exactly the elements without that key and never lengthens the list |
| Lists.ReplaceWhere | src/components/MobileCodeEditor.tsx:134-136 | the keyed `map` keeps the length, and every element of the result is either the replacement or an original element with another key; `ReplaceWhereAt` and `ReplaceWhereKeys` pin it down position by position and by keys |
| Lists.Upsert | src/utils/projectStorage.ts:10-16 | the find-then-replace-or-push upsert always holds the element, keeps the length when the key is present and grows it by one when it is absent; `UpsertInPlace`, `UpsertAppends` and `UpsertThenFind` state where it goes |
| Lists.FindAtIndexOf | src/utils/projectStorage.ts:10-24 | `find` returns the element at the position `findIndex` reports, and nothing when it reports -1 |
| Lists.FindFirst | src/components/PreviewPanel.tsx:31 | when position i holds the first element with the key, `findIndex` gives i and `find` gives that element |
| Lists.FindIsFirstKept | src/components/PreviewPanel.tsx:31-33 | `find` returns the first element `filter` keeps, or nothing when it keeps none |
| Lists.KeepAppend | src/components/PreviewPanel.tsx:32-33 | filtering a concatenation is concatenating the filtered parts, so order is kept |
| Lists.RemoveAppend | src/utils/projectStorage.ts:33-36 | filtering out a key distributes over concatenation, so the remaining elements keep their order |
| Lists.FindSkips | src/components/PreviewPanel.tsx:31 | inserting an element with another key anywhere does not change what `find` returns |
| Lists.KeepSkips | src/components/PreviewPanel.tsx:32-33 | inserting an element with another key anywhere does not change what `filter` keeps |
| Lists.FindIgnoresLater | src/components/PreviewPanel.tsx:31 | once some element has the key, elements appended later do not change what `find` returns |
| Lists.KeepAbsent | src/components/PreviewPanel.tsx:32-33 | filtering on an absent key keeps nothing |
| Lists.RemoveAbsent | src/utils/projectStorage.ts:32-38 | filtering out an absent key returns the list unchanged |
| Lists.RemoveKeys | src/utils/projectStorage.ts:32-38 | after filtering out a key, the remaining keys are exactly the old keys without it |
| Lists.UpsertThenFind | src/utils/projectStorage.ts:8-25 | after the find-then-replace-or-push upsert, `find` on the element's key returns that element |
| Lists.UpsertInPlace | src/utils/projectStorage.ts:10-13 | an upsert of a present key overwrites the first element with it in place: same length, every other position unchanged |
| Lists.UpsertAppends | src/utils/projectStorage.ts:14-16 | an upsert of an absent key appends the element at the end |
| Lists.UpsertIdempotent | src/utils/projectStorage.ts:8-19 | upserting the same element twice gives the same list as upserting it once |
| Lists.UpsertKeys | src/utils/projectStorage.ts:8-19 | an upsert adds the element's key to the set of keys and removes none |
| Lists.ReplaceWhereKeys | src/components/MobileCodeEditor.tsx:134-136 | replacing the elements with a key by an element with the same key keeps the set of keys |
| Lists.ReplaceWhereAt | src/components/MobileCodeEditor.tsx:134-136 | the keyed `map` keeps the length, puts the replacement wherever the key matched and keeps every other element |
| Text.TrimStart | src/utils/fileUtils.ts:128 | the result is a suffix of the input, everything dropped is whitespace, and the result starts with a non-whitespace character or is empty |
| Text.TrimEnd | src/utils/fileUtils.ts:128 | the result is a prefix of the input, everything dropped is whitespace, and the result ends with a non-whitespace character or is empty |
| Text.Lower | src/utils/fileUtils.ts:19 | lower-casing keeps the length, leaves no capital A-Z, and keeps every other character; `Text.LowerCapitals` states which small letter each capital becomes |
| Text.LowerCapitals | src/utils/fileUtils.ts:19 | each capital A-Z becomes the small letter a-z in the same place of the alphabet |
| Text.Trim | src/utils/fileUtils.ts:128 | `trim` never lengthens the name, and its result is empty or begins and ends with a non-whitespace character; `Text.TrimIsSpan` and `Text.TrimDropsWhitespace` state which stretch of the name it is |
| Text.TrimIsSpan | src/utils/fileUtils.ts:128 | the result of `trim` is the stretch of the name that starts where the leading whitespace ends |
| Text.TrimDropsWhitespace | src/utils/fileUtils.ts:128 | everything `trim` drops, before and after the stretch it keeps, is whitespace |
| Text.TrimEmptyIffBlank | src/utils/fileUtils.ts:128 | `trim` yields the empty string exactly when every character of the name is whitespace |
| Text.NotBlankExtended | src/components/FileExplorer.tsx:53 | appending text to a name that is not blank leaves it not blank |
| Text.AfterLast | src/utils/fileUtils.ts:19 | `split('.').pop()` is a suffix of the name that has no dot and is preceded by a dot whenever it is shorter than the name |
| Text.LowerAfterLast | src/utils/fileUtils.ts:19 | lower-casing commutes with taking the text after the last dot |
| Text.LowerIdempotent | src/utils/fileUtils.ts:19 | lower-casing twice is lower-casing once |
| Text.IndexFrom | src/components/PreviewPanel.tsx:43-44 | the search from a position returns the first occurrence at or after it, or -1 when there is none |
| Text.IndexOf | src/components/PreviewPanel.tsx:43-44 | `indexOf` returns the first position where the pattern occurs, or -1 when it does not occur |
| Text.Includes | src/utils/fileUtils.ts:129 | `includes` holds exactly when the pattern occurs at some position |
| Text.SplitAtOccurrence | src/components/PreviewPanel.tsx:44 | at an occurrence, the rest of the text is the pattern followed by what comes after it |
| Text.IncludesChar | src/utils/fileUtils.ts:129 | `includes` of a one-character string is membership of that character |
| Text.JoinAvoids | src/components/PreviewPanel.tsx:40 | a join holds no character that neither the parts nor the separator hold |
| Text.Join | src/components/PreviewPanel.tsx:40 | `join`: the parts with the separator between consecutive ones; `JoinAvoids` states that it adds no character beyond theirs |
| Text.Substitution | src/components/PreviewPanel.tsx:44 | the ECMAScript GetSubstitution of a replacement text with no capture groups (`$$`, `$&`, `` $` ``, `$'`); `SubstitutionLiteral` states that a `$`-free text passes through unchanged |
| Text.SubstitutionLiteral | src/components/PreviewPanel.tsx:44 | a replacement text without `$` is inserted literally by `replace` |
| Text.ReplaceFirst | src/components/PreviewPanel.tsx:44 | `replace` with a string pattern returns the text unchanged when the pattern does not occur, and otherwise keeps everything before its first occurrence at the start; `Text.ReplaceFirstKeepsRest` states the end |
| Text.ReplaceFirstKeepsRest | src/components/PreviewPanel.tsx:44 | whatever the replacement text, `replace` keeps everything after the first occurrence of the pattern as the end of the result |
| Text.ReplaceFirstSplices | src/components/PreviewPanel.tsx:44 | `replace` with a string pattern that occurs and a `$`-free replacement splices the replacement in place of the first occurrence only |
| FileUtils.GetFileExtension | src/utils/fileUtils.ts:18-20 | the extension is never empty, has no dot and has no upper-case letter |
| FileUtils.GetFileType | src/utils/fileUtils.ts:22-25 | the file type is always an entry of the registry |
| FileUtils.CreateNewFile | src/utils/fileUtils.ts:27-125 | the name, type, id and clock reading are copied verbatim; the content is the type's template for html, css, js, jsx, ts, tsx, py and md, and empty for every other type |
| FileUtils.ValidateFileName | src/utils/fileUtils.ts:127-132 | no message exactly when the name is not blank, has no slash or backslash and has at most 100 characters; otherwise the message of the first failed check, in the order blank, slash, length |
| FileUtils.ExtensionAfterLastDot | src/utils/fileUtils.ts:18-20 | with a last dot at position i, the extension is the lower-cased text after it, or txt when the dot ends the name |
| FileUtils.ExtensionWithoutDot | src/utils/fileUtils.ts:18-20 | without a dot the extension is the whole name lower-cased, or txt for the empty name |
| FileUtils.ExtensionOfJoinedName | src/utils/fileUtils.ts:18-20 | the extension of base + "." + ext is ext lower-cased, whatever the base holds |
| FileUtils.ExtensionIgnoresCase | src/utils/fileUtils.ts:19 | names equal up to case have the same extension |
| FileUtils.FileTypeIgnoresCase | src/utils/fileUtils.ts:22-25 | names equal up to case have the same file type |
| FileUtils.RegistryExtensions | src/utils/fileUtils.ts:4-16 | the registry has exactly the eleven extensions html, css, js, jsx, ts, tsx, py, md, json, xml and txt |
| FileUtils.UnknownExtensionIsText | src/utils/fileUtils.ts:22-25 | a name with an extension outside the registry gets the plain-text entry |
| FileUtils.KnownExtensionLooksUp | src/utils/fileUtils.ts:22-25 | a name with a registered extension gets that extension's entry |
| FileUtils.ExtensionExamples | src/utils/fileUtils.ts:19 | style.css gives css |
| FileUtils.CapitalExtensionExample | src/utils/fileUtils.ts:18-21 | the extension of `Style.CSS` is `css`: capitals in the extension are lower-cased |
| FileUtils.LastDotExample | src/utils/fileUtils.ts:19 | archive.tar.gz gives gz: only the text after the last dot counts |
| FileUtils.FallbackExtensionExamples | src/utils/fileUtils.ts:19 | both "a." and the empty name give txt |
| FileUtils.PaddedNameIsTooLong | src/utils/fileUtils.ts:128-130 | the length limit counts the untrimmed name: "a" followed by 100 spaces is too long |
| FileUtils.ExtendedValidNameKeepsRules | src/utils/fileUtils.ts:127-132 | a valid name extended by a dot and a slash-free extension is still not blank and slash-free, and is longer by the extension plus one |
| FileUtils.LongNameWithSlash | src/utils/fileUtils.ts:128-130 | slashes are checked before length: 150 slashes get the slash message |
| FileExplorer.FullFileName | src/components/FileExplorer.tsx:53 | the final name is the typed name when it has a dot, otherwise the typed name, a dot and the selected type |
| FileExplorer.NameTaken | src/components/FileExplorer.tsx:43 | some existing file's name equals the typed name ignoring case; `Decide` rejects such a name as a duplicate |
| FileExplorer.Decide | src/components/FileExplorer.tsx:31-55 | an invalid name is rejected with the validator's message; then a name equal ignoring case to an existing file's name is rejected as a duplicate; otherwise the file is created with the final name and the selected type |
| FileExplorer.DuplicateCheckUsesTypedName | src/components/FileExplorer.tsx:43-53 | a dotless name that differs from every existing name is accepted even when its final name is an existing file's name, so the file list then holds that name twice |
| FileExplorer.TypeFollowsSelection | src/components/FileExplorer.tsx:52-55 | for a typed name with a dot, an accepted file takes its type (and so its template) from the selection but keeps the extension of the typed name, so "style.css" created as html is an html file named with extension css |
| FileExplorer.DotlessNameGetsSelectedExtension | src/components/FileExplorer.tsx:52-53 | a dotless name gets the selected type, lower-cased, as its extension |
| FileExplorer.FinalNameCanExceedLimit | src/components/FileExplorer.tsx:32-53 | only the typed name is validated: an accepted dotless 100-character name, with any selected type free of slashes, yields a final name the validator rejects as too long |
| FileExplorer.CreateFileDialog.constructor | src/components/FileExplorer.tsx:27-29 | the dialog starts closed with an empty name and type html |
| FileExplorer.CreateFileDialog.SetOpen | src/components/FileExplorer.tsx:82 | opening or dismissing the dialog sets only its visibility, keeping the typed name and type |
| FileExplorer.CreateFileDialog.EditName | src/components/FileExplorer.tsx:100 | typing sets the name and nothing else |
| FileExplorer.CreateFileDialog.SelectType | src/components/FileExplorer.tsx:106 | choosing a type sets the type and nothing else |
| FileExplorer.CreateFileDialog.CreateFile | src/components/FileExplorer.tsx:31-65 | a rejection hands over no file and leaves the dialog as it was; an acceptance hands over exactly the file built from the decided name and type, resets the name to "" and the type to html, and closes the dialog |
| PreviewPanel.Compose | src/components/PreviewPanel.tsx:29-92 | the preview is html exactly when some file has extension html, markdown exactly when none has but some has md, and otherwise none with empty content, whatever css and js files exist |
| PreviewPanel.InjectStyles | src/components/PreviewPanel.tsx:39-48 | the css step; `StylesBeforeHeadClose` and `StylesWithoutHead` state where the style block goes |
| PreviewPanel.InjectScripts | src/components/PreviewPanel.tsx:51-60 | the js step; `ScriptsBeforeBodyClose` and `ScriptsWithoutBody` state where the script block goes |
| PreviewPanel.HtmlPage | src/components/PreviewPanel.tsx:35-63 | the css step and then the js step applied to the html document; `HtmlFromFirstHtmlFile` and `HtmlAloneUnchanged` state its use |
| PreviewPanel.MarkdownPage | src/components/PreviewPanel.tsx:64-86 | the raw markdown text between the fixed prefix and suffix; `MarkdownWrapsRawText` states its use |
| PreviewPanel.StylesBeforeHeadClose | src/components/PreviewPanel.tsx:39-44 | the css contents joined by newlines, wrapped in a style element and followed by a newline, are inserted right before the first `</head>`, and nothing else changes |
| PreviewPanel.StylesWithoutHead | src/components/PreviewPanel.tsx:45-47 | without a `</head>`, a head element holding the style block is put in front of the document |
| PreviewPanel.ScriptsBeforeBodyClose | src/components/PreviewPanel.tsx:50-56 | the js contents joined by newlines, wrapped in a script element and followed by a newline, are inserted right before the first `</body>`, and nothing else changes |
| PreviewPanel.ScriptsWithoutBody | src/components/PreviewPanel.tsx:57-59 | without a `</body>`, the script block is appended after a newline |
| PreviewPanel.HtmlFromFirstHtmlFile | src/components/PreviewPanel.tsx:31-63 | the html preview is the first html file's content with the css and then the js injected |
| PreviewPanel.HtmlAloneUnchanged | src/components/PreviewPanel.tsx:35-63 | with no css and no js file, the html preview is the first html file's content unchanged |
| PreviewPanel.MarkdownWrapsRawText | src/components/PreviewPanel.tsx:64-86 | without an html file, the markdown preview is the fixed prefix, the first md file's raw text and the fixed suffix |
| PreviewPanel.ComposeBySelection | src/components/PreviewPanel.tsx:29-92 | the preview depends only on the first html file, the css files, the js files and, when there is no html file, the first md file |
| PreviewPanel.LaterHtmlFileIgnored | src/components/PreviewPanel.tsx:31 | once there is an html file, another html file appended does not change the preview |
| PreviewPanel.OtherFilesIgnored | src/components/PreviewPanel.tsx:31-33 | a file whose extension is not html, css, js or md never changes the preview, wherever it is inserted |
| PreviewPanel.Panel.constructor | src/components/PreviewPanel.tsx:21-22 | the panel starts with empty content and type none |
| PreviewPanel.Panel.GeneratePreview | src/components/PreviewPanel.tsx:29-92 | the stored type and content are the composed preview of the files |
| ProjectStorage.AlignedSameIds | src/utils/projectStorage.ts:45-65 | lists that agree position by position hold the same ids |
| ProjectStorage.AlignedIndexOf | src/utils/projectStorage.ts:10-47 | in aligned lists the two `findIndex` calls of a save find the same position |
| ProjectStorage.SaveKeepsAligned | src/utils/projectStorage.ts:8-65 | a save keeps the metadata list aligned with the projects list |
| ProjectStorage.DeleteKeepsAligned | src/utils/projectStorage.ts:32-38 | a delete keeps the metadata list aligned with the projects list |
| ProjectStorage.SaveKeepsIds | src/utils/projectStorage.ts:8-65 | a save keeps the ids of the metadata list equal to the ids of the projects list |
| ProjectStorage.DeleteKeepsIds | src/utils/projectStorage.ts:32-38 | a delete keeps the ids of the metadata list equal to the ids of the projects list |
| ProjectStorage.SaveIdempotent | src/utils/projectStorage.ts:8-65 | saving the same project twice leaves both lists as one save does |
| ProjectStorage.ResaveAfterDeleteMovesToEnd | src/utils/projectStorage.ts:8-38 | a project deleted and then saved again is pushed at the end of the projects list, after every remaining project |
| ProjectStorage.SavedMetadata | src/utils/projectStorage.ts:45-65 | after a save, the metadata entry for the project's id has its id, name, description, timestamps and its number of files |
| ProjectStorage.MetadataOf | src/utils/projectStorage.ts:49-56 | the metadata entry of a project: its id, name, description and timestamps and its number of files; `SavedMetadata` states what a save stores |
| ProjectStorage.ProjectStore.constructor | src/utils/projectStorage.ts:27-43 | with nothing stored, both lists are empty |
| ProjectStorage.ProjectStore.GetProject | src/utils/projectStorage.ts:22-25 | `getProject` returns a project exactly when the id is stored, and then the first stored project with that id |
| ProjectStorage.ProjectStore.GetAllMetadata | src/utils/projectStorage.ts:40-43 | when the lists agree on ids, the listing holds exactly the stored projects' ids; when they are aligned, each entry's file count is its project's |
| ProjectStorage.ProjectStore.UpdateMetadata | src/utils/projectStorage.ts:45-65 | the metadata list is upserted with the project's metadata entry and the projects list is untouched |
| ProjectStorage.ProjectStore.SaveProject | src/utils/projectStorage.ts:8-20 | both lists are upserted by id, `getProject` then returns the saved project, and alignment and equal id sets are kept |
| ProjectStorage.ProjectStore.DeleteProject | src/utils/projectStorage.ts:32-38 | every entry with the id is dropped from both lists, `getProject` then returns nothing, an absent id changes nothing, and alignment and equal id sets are kept |
| MobileCodeEditor.EditorSession.constructor | src/components/MobileCodeEditor.tsx:32-40 | the session starts with no project, no active file and every flag off |
| MobileCodeEditor.EditorSession.HandleFileContentChange | src/components/MobileCodeEditor.tsx:125-146 | without an active file or a project nothing changes; otherwise the files with the active id are replaced by the updated file, the rest, the order, the count and the ids are kept, and the updated file becomes active |
| MobileCodeEditor.EditorSession.HandleCreateFile | src/components/MobileCodeEditor.tsx:148-159 | without a project nothing changes; otherwise the file is appended and made active, and the active file stays within the project |
| MobileCodeEditor.EditorSession.HandleDeleteFile | src/components/MobileCodeEditor.tsx:161-175 | every file with the id is removed; the active file falls back to the first remaining file or none only when it was the deleted one |
| MobileCodeEditor.EditorSession.HandleSelectProject | src/components/MobileCodeEditor.tsx:177-181 | the project is opened with its first file active, or none, and the project manager closes |
| MobileCodeEditor.EditorSession.HandleCreateProject | src/components/MobileCodeEditor.tsx:183-187 | the project is opened with no active file, and the project manager closes |
| MobileCodeEditor.EditorSession.SelectFile | src/components/MobileCodeEditor.tsx:394 | the chosen file becomes active and nothing else changes |
| MobileCodeEditor.EditorSession.SelectFileFromSheet | src/components/MobileCodeEditor.tsx:239-242 | the chosen file becomes active and the file sheet closes |
| MobileCodeEditor.EditorSession.Save | src/components/MobileCodeEditor.tsx:89-115 | without a project nothing is sent; otherwise the stamped project is sent, it replaces the current one only on success, and the saving indicator ends off |
| MobileCodeEditor.EditorSession.Refresh | src/components/MobileCodeEditor.tsx:67-80 | a fetched project replaces the current one wholesale; the active file is refreshed only when its id is still present, and is otherwise left stale, outside the open project |
| MobileCodeEditor.EditorSession.Back | src/components/MobileCodeEditor.tsx:363 | back closes the project and keeps the active file, which then belongs to no open project |
| MobileCodeEditor.EditorSession.SetProjectManagerOpen | src/components/MobileCodeEditor.tsx:214 | opening or closing the project manager sets only that flag |
| MobileCodeEditor.EditorSession.SetFileExplorerOpen | src/components/MobileCodeEditor.tsx:229 | opening or closing the file sheet sets only that flag |
| MobileCodeEditor.EditorSession.TogglePreview | src/components/MobileCodeEditor.tsx:284 | the preview's visibility flips and nothing else changes, so two toggles restore it |
| MobileCodeEditor.EditorSession.ClosePreview | src/components/MobileCodeEditor.tsx:330 | the preview is hidden and nothing else changes |

## Left out

- Time and identity: `Date.now()`, `new Date()` and `crypto.randomUUID()` are
  not modelled. Clock readings are natural-number parameters and ids are
  string parameters.
- MobileCodeEditor.EditorSession.HandleFileContentChange: the source reads
  the clock twice, once for the file and once for the project. The model
  uses one reading for both.
- Browser storage is not modelled. JSON serialisation, and what happens
  when the stored text does not parse, are left out. `exportProject` and
  `importProject` are thin wrappers over JSON and are left out too.
- The hosted store is not modelled. The backend client, authentication,
  the realtime channel's setup and teardown, and interleavings around
  `await` are all left out.
  - A save and a refresh are each one atomic step.
  - The backend's answer is a parameter.
  - Edits made while a save is pending are not modelled.
- Text.Lower: only the Latin capitals A-Z are lower-cased; `toLowerCase`
  maps all of Unicode.
- FileUtils.ValidateFileName: the 100-character limit counts Unicode
  characters, where the source's `length` counts UTF-16 code units, so a
  name with characters outside the Basic Multilingual Plane is shorter in
  the model than in the source.
- Text.ReplaceFirstSplices, PreviewPanel.StylesBeforeHeadClose and
  PreviewPanel.ScriptsBeforeBodyClose assume the injected contents hold no
  `$`. `Text.ReplaceFirst` itself does model the `$$`, `$&`, `` $` `` and
  `$'` patterns, so `Compose` is exact for any content. The numbered-group
  patterns do not apply to a string pattern.
- The file-type table and the templates are finite maps. A type or
  extension that names an `Object.prototype` member, such as
  `constructor`, is treated as absent.
- The preview's iframe is browser I/O and is left out: blob URLs,
  `refreshPreview` with its timer, and opening in a new window. The
  theme, the responsive layout switch, the toasts and sign-out are left
  out as well.
- The file explorer's delete button asks `confirm` before calling
  `onDeleteFile`. That dialog is left out; the session's `HandleDeleteFile`
  is the deletion.
- The project manager and file sheet openers are modelled as plain setters;
  that the file sheet's trigger is shown only while a project is open
  (src/components/MobileCodeEditor.tsx:228) is a rendering condition and
  is left out.
