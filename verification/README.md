# uSync: orphan-file reconciler and dictionary serializer, modelled in Dafny

This project models two pieces of the uSync back office and proves properties about them.

**The orphan-file reconciler (`NameChecker`).** uSync saves every item to disk as a `*.config` file with a readable name. Renaming an item writes a new file, and the file under the old name still carries the same key. `ManageOrphanFiles` walks the folder of the item type and finds every other `*.config` file that has that key. For each such orphan it does four things:

- moves the subfolders of the orphan's folder next to the new file;
- records a rename, when asked to;
- archives the orphan and deletes a sibling `redirect.config`;
- removes the orphan's folder if it is now empty.

The model has these parts:

- The file system is a map from path to a directory or a file. A file holds its parsed XML document, or nothing when the file is not well-formed XML.
- The calls to the archiver and to the rename tracker are appended to a log.
- `Workspace` is the class that holds the tree and the log. It also keeps, as ghost state, the destination of every successful `Directory.Move` in order (`moves`).
- `Workspace` also keeps, as ghost state, every collaborator call that threw (`faults`). Only three primitives record a fault, each exactly where the .NET call throws: `Directory.Move`, `XElement.Load` and `Path.GetDirectoryName` of an empty path.
- *FailsOnFault* says a call reports failure exactly when one fault was recorded, and that fault was the last thing that happened. The fault is a refused move of a folder into newFile's folder under its own name, a failed load of newFile with addRename, or an empty newFile. So the walk never gives up without one of these calls having thrown.
- A file is *Carried* when it lies strictly inside one of the moves recorded since a given point. The walk's "no orphan left" and "files kept" promises exempt only such files, and only for the moves the call itself made.
- *Carries(p, q, target)* relates a file's old path p to a path q inside target that keeps p's tail. *FilesAccounted* says every old file is still present at a carried place, was archived, or is a deleted `redirect.config`. So no file is lost without a logged archive call.
- The walk, the file pass, the subfolder moves and the cleanup are methods over a `Workspace`. Each one is proved against predicates on the tree before and after it.

**The dictionary serializer (`DictionarySerializer`).** It converts a tree of localized dictionary items to a nested `<DictionaryItem>` element and back.

- The localization store is a class, `LocalizationService`. It holds the rows in storage order, the site's languages and the stream of values `Guid.NewGuid()` returns.
- `UpdateDictionaryValues` is a recursive method. It is proved to leave the store exactly as the function `Import` describes.
- `Import` is then proved to keep the store's unique indexes and to delete no row.
- Export (`GetDictionaryElement`) is a function. It is proved to write sorted values and sorted children, and to write `guid` on the top element only.
- Importing an exported item again finds the same item and keeps its values.
- An exported document is never reported as an update against the store it came from.

Supporting modules:

| module | contents |
|---|---|
| `Optional` | the option type |
| `Text` | ordinal case-insensitive equality, decimal formatting (`{0:D12}`), ordinal string order and a sort by key (`OrderBy`) |
| `Guids` | 32-nibble guids and their `D` text form |
| `Xml` | the element datatype |
| `FileSystem` | the path map, `Directory.Move` and `Workspace` |

## Model

| member | source | states |
|---|---|---|
| NameChecker.WidenKeyDefined | Jumoo.uSync.BackOffice/Helpers/NameChecker.cs:28-35 | the text `00000000-0000-0000-0000-{id:D12}` parses as a guid exactly when the id is not negative, so a negative id reconciles nothing |
| NameChecker.WidenKeyDigits | Jumoo.uSync.BackOffice/Helpers/NameChecker.cs:31 | a non-negative id becomes the guid whose first twenty nibbles are zero and whose last twelve are the id's decimal digits |
| NameChecker.WidenKeyInjective | Jumoo.uSync.BackOffice/Helpers/NameChecker.cs:31 | distinct ids widen to distinct guids |
| NameChecker.WidenKeyEmpty | Jumoo.uSync.BackOffice/Helpers/NameChecker.cs:31-33 | id 0, and only id 0, widens to Guid.Empty |
| NameChecker.ManageOrphanFilesForId | Jumoo.uSync.BackOffice/Helpers/NameChecker.cs:28-35 | an id of at most 0 changes nothing: a negative id's text does not parse and id 0 widens to Guid.Empty. Any other id runs the walk for the widened key without rename records. The walk's guarantees (WalkStep, as for ManageOrphanFiles) hold, every logged call is an archive, and a completed walk leaves no orphan below the folder except inside folders created by this call's moves. On failure exactly one fault was recorded (FailsOnFault), and on success none. |
| NameChecker.ManageOrphanFilesForKey | Jumoo.uSync.BackOffice/Helpers/NameChecker.cs:37-40 | the walk with addRename false: the walk's guarantees hold and every logged call is an archive. An Empty key changes nothing. A completed walk leaves no orphan below the folder except inside folders created by this call's moves, and no orphan at all when it moved none. On failure exactly one fault was recorded (FailsOnFault), and on success none. |
| NameChecker.ManageOrphanFiles | Jumoo.uSync.BackOffice/Helpers/NameChecker.cs:42-48 | walks mappedFolder/typeFolder. WalkStep holds from start to end. The log only gains archive calls for *.config files (not newFile) whose document has this key, plus rename calls, which are allowed only when addRename holds. A rename call's key is read from newFile, not checked against the walked key. Each recorded move goes directly into newFile's folder. Every file afterwards is an old file, unchanged at its old place, or lies inside a folder one of this call's moves created. Every old file is still present (possibly carried by moves), was archived, or is a deleted redirect.config. The tree never grows. A missing folder, an Empty key, or no orphan below the folder: nothing changes, nothing is logged, nothing moves. A completed walk leaves no orphan below the folder, except inside folders this call moved; when it moved none, no orphan at all. On failure exactly one fault was recorded (FailsOnFault), and on success none. |
| NameChecker.KeyOf | Jumoo.uSync.BackOffice/Helpers/NameChecker.cs:94-105 | the key is the first non-Empty of: element Key, Info/Key, attribute Key, attribute guid. It is Empty only when all four are Empty |
| NameChecker.GetKey | Jumoo.uSync.BackOffice/Helpers/NameChecker.cs:82-111 | a missing file, or one that is not well-formed XML, reads as Guid.Empty; otherwise the document's KeyOf |
| NameChecker.EmptyKeyHasNoOrphan | Jumoo.uSync.BackOffice/Helpers/NameChecker.cs:62 | an Empty target key matches no file anywhere |
| NameChecker.MissingFolderHasNoOrphan | Jumoo.uSync.BackOffice/Helpers/NameChecker.cs:54-55 | a folder that does not exist has no orphan below it |
| NameChecker.CheckFolder | Jumoo.uSync.BackOffice/Helpers/NameChecker.cs:50-79 | a missing folder, or one with no orphan below it, is left unchanged: nothing is logged and nothing moves. Otherwise WalkStep holds: the log gains only archive calls for this key's orphans and, with addRename, rename calls; files are kept, carried by this call's moves, archived or deleted redirects, and the tree does not grow. A completed walk leaves no orphan below the folder, except inside folders created by the moves this call made. On failure exactly one fault was recorded (FailsOnFault), and on success none. |
| NameChecker.CheckFiles | Jumoo.uSync.BackOffice/Helpers/NameChecker.cs:57-67 | the file pass, under WalkStep. On completion every orphan directly in the folder is gone, except one lying inside a folder this pass moved. With no orphan there to begin with, nothing changes, nothing is logged and nothing moves. On failure exactly one fault was recorded (FailsOnFault), and on success none. |
| NameChecker.CheckFile | Jumoo.uSync.BackOffice/Helpers/NameChecker.cs:59-65 | one turn of the file pass. newFile and files with another key are skipped; an orphan goes to ManageOrphan. On success the visited file is no longer pending. A folder with no orphan never fails. On failure WalkStep still holds from the start of the pass. On failure exactly one fault was recorded (FailsOnFault), and on success none. |
| NameChecker.CheckSubfolders | Jumoo.uSync.BackOffice/Helpers/NameChecker.cs:72-78 | each subfolder, as listed after the file pass, is walked in turn. WalkStep holds. On completion no orphan is left below the folder, except inside folders moved by moves recorded since the enclosing CheckFolder started. With no orphan below, nothing changes. On failure exactly one fault was recorded (FailsOnFault), and on success none. |
| NameChecker.PendingStep | Jumoo.uSync.BackOffice/Helpers/NameChecker.cs:74-77 | walking one subfolder discharges it: every orphan still below the folder is inside a moved folder or below a subfolder still to be walked |
| NameChecker.WalkStepTransitive | Jumoo.uSync.BackOffice/Helpers/NameChecker.cs:50-79 | the walk's guarantees for two consecutive stretches compose into the guarantees for the whole |
| NameChecker.FilesAccountedTransitive | Jumoo.uSync.BackOffice/Helpers/NameChecker.cs:57-78 | a fate in the first stretch followed by a fate in the second gives a fate for the whole: a file that survived and was carried on keeps its Carries link, and archive records stay in the log |
| NameChecker.MoveChildFolder | Jumoo.uSync.BackOffice/Helpers/NameChecker.cs:130-137 | one Directory.Move(sub, target/<name of sub>). It fails, leaving the tree and the recorded moves unchanged, exactly when Directory.Move would throw. On success the tree is exactly the old tree with sub's subtree moved to the destination, and the destination is appended to the recorded moves. A refusal is recorded as a MoveRefused fault |
| NameChecker.MoveChildFolders | Jumoo.uSync.BackOffice/Helpers/NameChecker.cs:124-138 | the log is untouched and the tree keeps its size. Every old file is still present and unchanged, at its old place or at target/<subfolder name>/<its path below the subfolder>. Entries outside the subfolders stay. With no subfolder nothing changes. When the orphan and target folders coincide and there are subfolders, the call fails. On success no subfolder is left, and the whole content of each subfolder lies unchanged under target/<its name>. Every recorded move went directly into target. It fails only where one Directory.Move of a subfolder to target/<its name> threw, and that refusal is the single fault recorded |
| NameChecker.MoveStepRelocates | Jumoo.uSync.BackOffice/Helpers/NameChecker.cs:130-137 | moving one more subfolder keeps everything earlier moves relocated in place and relocates the new subfolder's whole content |
| NameChecker.NewFileStays | Jumoo.uSync.BackOffice/Helpers/NameChecker.cs:124-138 | the subfolder moves never touch the new file |
| NameChecker.MovesKeepOrphan | Jumoo.uSync.BackOffice/Helpers/NameChecker.cs:124-138 | after the moves, the orphan and the new file are where and as they were |
| NameChecker.RenameRecord | Jumoo.uSync.BackOffice/Helpers/NameChecker.cs:141-156 | without addRename, no record. With addRename, one record exactly when GetTypeFromElement of newFile gives a type. The record carries that type, GetKey(newFile) and NameFromNode(newFile) |
| NameChecker.RecordRename | Jumoo.uSync.BackOffice/Helpers/NameChecker.cs:141-156 | leaves the tree alone; fails (loading newFile throws) exactly when addRename holds and newFile is not loadable; otherwise appends RenameRecord; a failure records the LoadFailed fault |
| NameChecker.Cleanup | Jumoo.uSync.BackOffice/Helpers/NameChecker.cs:158-175 | archives the orphan (logged with its contents), deletes redirect.config and removes the folder if it is empty; the recorded moves are unchanged |
| NameChecker.CleanupKeeps | Jumoo.uSync.BackOffice/Helpers/NameChecker.cs:158-175 | only the orphan, the redirect file and the orphan's folder can disappear; everything else is kept unchanged, and the redirect file is gone |
| NameChecker.CleanupOutcome | Jumoo.uSync.BackOffice/Helpers/NameChecker.cs:158-175 | after the moves and the cleanup the orphan is gone, the tree is smaller and no redirect.config remains. Every file is an old file at its old place or lies inside a folder those moves created |
| NameChecker.CleanupAccounted | Jumoo.uSync.BackOffice/Helpers/NameChecker.cs:158-164 | every file present before the moves is still present (at its old place or carried), or is the archived orphan, or is the deleted redirect.config beside it |
| NameChecker.CleanupKeepsRelocated | Jumoo.uSync.BackOffice/Helpers/NameChecker.cs:128-175 | the cleanup leaves the relocated subfolders alone: their whole content is still under target/<name> |
| NameChecker.CleanupKeepsOutside | Jumoo.uSync.BackOffice/Helpers/NameChecker.cs:124-175 | nothing outside the orphan's folder changes |
| NameChecker.CleanupKeepsSiblings | Jumoo.uSync.BackOffice/Helpers/NameChecker.cs:158-164 | no other file directly in the orphan's folder is touched, except redirect.config |
| NameChecker.CleanupEmptiesFolder | Jumoo.uSync.BackOffice/Helpers/NameChecker.cs:124-175 | when both folders existed no subfolder is left; the orphan's folder survives exactly when it still has entries |
| NameChecker.CleanupFolder | Jumoo.uSync.BackOffice/Helpers/NameChecker.cs:166-175 | the folder is removed exactly when it has no entries left |
| NameChecker.ArchiveOrphan | Jumoo.uSync.BackOffice/Helpers/NameChecker.cs:141-175 | the rename record, the archive and the cleanup, after the moves. It fails exactly when addRename holds and newFile cannot be loaded, and then nothing is logged. On success the log gains RenameRecord and then the archive call, and OrphanRemoved holds. Every file present before the moves is accounted for. A failure records the LoadFailed fault, and a success records none |
| NameChecker.MoveAndArchive | Jumoo.uSync.BackOffice/Helpers/NameChecker.cs:124-175 | ManageOrphan once newFile's folder is known. It has the same guarantees as ManageOrphan for a non-empty newFile: the moves, the rename record, the archive and the cleanup, and failure exactly on a recorded fault |
| NameChecker.ManageOrphan | Jumoo.uSync.BackOffice/Helpers/NameChecker.cs:120-176 | an empty newFile fails and changes nothing. On failure nothing is logged. Recorded moves go directly into newFile's folder. Every file afterwards is old and unmoved, or lies inside a folder those moves created. Every old file is present, carried, archived, or is the deleted redirect.config. On success the log gains the rename record and then the archive call. OrphanRemoved then holds: the orphan and redirect.config are gone and the tree is smaller. Nothing outside the folder changes, nor does any sibling file. When both folders exist, no subfolder is left and their content lies under the target. The folder survives exactly when it still has entries. Coinciding folders with subfolders fail. When there is no subfolder to move, it succeeds exactly when addRename does not demand loading a newFile that cannot be loaded. On failure exactly one fault was recorded (FailsOnFault), and on success none. |
| NameChecker.HandleOrphan | Jumoo.uSync.BackOffice/Helpers/NameChecker.cs:64 | ManageOrphan as the file pass needs it. Moves go into the target, and files are kept or carried by those moves. Every old file is accounted for and the tree does not grow. A failure logs nothing. A success removes the orphan and shrinks the tree. The rename record and archive call are appended. On failure exactly one fault was recorded (FailsOnFault), and on success none. |
| NameChecker.OrphansWereThere | Jumoo.uSync.BackOffice/Helpers/NameChecker.cs:57-66 | a file that is an orphan afterwards and does not lie inside a folder moved in this stretch was the same orphan before: handling orphans creates none elsewhere |
| FileSystem.Workspace.MoveDirectory | Jumoo.uSync.BackOffice/Helpers/NameChecker.cs:136 | Directory.Move succeeds exactly when it is allowed: the source is a directory, and the destination is absent, has an existing parent and is not inside the source. Then the subtree moves and the destination is appended to the recorded moves; otherwise nothing changes. A refusal is recorded as a MoveRefused fault |
| FileSystem.Workspace.Load | Jumoo.uSync.BackOffice/Helpers/NameChecker.cs:143 | XElement.Load gives the file's document exactly when the file exists and is well-formed; otherwise it records a LoadFailed fault. The tree, log and moves are unchanged |
| FileSystem.Workspace.DirectoryName | Jumoo.uSync.BackOffice/Helpers/NameChecker.cs:124-125 | Path.GetDirectoryName gives the parent folder of a non-empty path; an empty path records a NoDirectoryName fault. The tree, log and moves are unchanged |
| FileSystem.MoveIntoTarget | Jumoo.uSync.BackOffice/Helpers/NameChecker.cs:132-136 | after a move to dst, every file is an old file unchanged at its old place, or lies strictly inside dst, the move just recorded |
| FileSystem.MoveCarries | Jumoo.uSync.BackOffice/Helpers/NameChecker.cs:132-136 | a file below a moved subfolder lands at target/<subfolder name>/<its path below the subfolder>, which Carries relates to its old path |
| FileSystem.CarriesTransitive | Jumoo.uSync.BackOffice/Helpers/NameChecker.cs:130-137 | a file carried twice is carried: its tail below the moved folder is kept and it stays inside target |
| FileSystem.FilesKeptOrCarriedTransitive | Jumoo.uSync.BackOffice/Helpers/NameChecker.cs:57-78 | kept-or-carried composes over consecutive stretches, with the later moves added to the exemption |
| FileSystem.MoveWellFormed | Jumoo.uSync.BackOffice/Helpers/NameChecker.cs:136 | an allowed move keeps every entry's parent a directory |
| FileSystem.MoveKeepsSize | Jumoo.uSync.BackOffice/Helpers/NameChecker.cs:136 | a move neither creates nor loses entries |
| FileSystem.Workspace.ArchiveFile | Jumoo.uSync.BackOffice/Helpers/NameChecker.cs:158 | the orphan leaves the tree and the archive call is logged with its contents |
| FileSystem.Workspace.DeleteFile | Jumoo.uSync.BackOffice/Helpers/NameChecker.cs:163-164 | an existing file is removed |
| FileSystem.Workspace.DeleteEmptyDirectory | Jumoo.uSync.BackOffice/Helpers/NameChecker.cs:169-174 | an empty directory is removed and the tree stays well-formed |
| FileSystem.Workspace.AddRename | Jumoo.uSync.BackOffice/Helpers/NameChecker.cs:154 | the rename action is appended to the log |
| Text.FormatD | Jumoo.uSync.BackOffice/Helpers/NameChecker.cs:31 | `{0:Dn}`: a non-negative value gives decimal digits that read back as the value, exactly n of them when it fits; a negative one starts with '-' |
| Guids.TryParse | Jumoo.uSync.BackOffice/Helpers/NameChecker.cs:31 | parses exactly the 36-character hyphenated form |
| Guids.ValueOrEmpty | Jumoo.uSync.BackOffice/Helpers/NameChecker.cs:94-103 | a missing node yields Guid.Empty; text that parses yields exactly the parsed guid; any non-Empty result is the guid the text parses to |
| Guids.ParseFormat | Jumoo.uSync.Core/Serializers/DictionarySerializer.cs:200 | a guid written with ToString reads back as the same guid |
| Xml.FirstElement | Jumoo.uSync.BackOffice/Helpers/NameChecker.cs:94-97 | the first child with that name, or none when no child has it |
| Text.SortBy | Jumoo.uSync.Core/Serializers/DictionarySerializer.cs:202 | `OrderBy`: the result is a permutation of the input, sorted by the key |
| Text.DecimalRoundTrip | Jumoo.uSync.BackOffice/Helpers/NameChecker.cs:31 | a number written in decimal reads back as itself, which makes the widened key carry the id |
| Guids.FormatInjective | Jumoo.uSync.Core/Serializers/DictionarySerializer.cs:200 | distinct guids are written as distinct text |
| Xml.Elements | Jumoo.uSync.Core/Serializers/DictionarySerializer.cs:121 | exactly the children with that name, each as many times as it occurs among the children, and nothing else |
| Xml.NamedAppend | Jumoo.uSync.Core/Serializers/DictionarySerializer.cs:121 | filtering by name distributes over concatenation, so the named children keep their document order |
| DictionarySerializer.DeserializeCore | Jumoo.uSync.Core/Serializers/DictionarySerializer.cs:41-53 | succeeds exactly when the element has a Key attribute. It reports under that Key (the item's ItemKey) or under NameFromNode. The store ends as Import says, keeps its unique indexes and loses no row. The item is stored |
| DictionarySerializer.UpdateDictionaryValues | Jumoo.uSync.Core/Serializers/DictionarySerializer.cs:55-159 | the store and the result are exactly those of Import on the old store |
| DictionarySerializer.ImportNested | Jumoo.uSync.Core/Serializers/DictionarySerializer.cs:137-145 | the loop over the nested DictionaryItem elements leaves the store as ImportChildren says and reports failure exactly when a nested save threw |
| DictionarySerializer.Import | Jumoo.uSync.Core/Serializers/DictionarySerializer.cs:55-159 | a missing Key attribute gives null before any store access, with the store unchanged; an imported item's ItemKey is the Key attribute |
| DictionarySerializer.ImportKeepsRows | Jumoo.uSync.Core/Serializers/DictionarySerializer.cs:55-159 | an import keeps the store's unique indexes and deletes no row, even when a nested save throws |
| DictionarySerializer.ChildrenKeepRows | Jumoo.uSync.Core/Serializers/DictionarySerializer.cs:137-145 | importing the children keeps the unique indexes and deletes no row |
| DictionarySerializer.ImportedIsStored | Jumoo.uSync.Core/Serializers/DictionarySerializer.cs:134-158 | the returned item's Key is in the store afterwards |
| DictionarySerializer.ImportedValues | Jumoo.uSync.Core/Serializers/DictionarySerializer.cs:121-134 | an imported item's value in a language is the text of the last Value element in that language, else the value it had |
| DictionarySerializer.Resolve | Jumoo.uSync.Core/Serializers/DictionarySerializer.cs:82-119 | resolves by a non-Empty guid first, then by Key, else creates. A found item keeps its own Key even when the guid differs, and takes the new ItemKey. A created item has the given parent. Only a created root takes the document's non-Empty guid; a created child gets a new guid |
| DictionarySerializer.ResolveItem | Jumoo.uSync.Core/Serializers/DictionarySerializer.cs:82-119 | finds or creates the item as Resolve says, drawing Guid.NewGuid only where Resolve does |
| DictionarySerializer.SaveStepKeepsRows | Jumoo.uSync.Core/Serializers/DictionarySerializer.cs:82-134 | a save that goes through keeps the unique indexes, removes no row and stores the item; a failed save leaves the rows |
| DictionarySerializer.FindById | Jumoo.uSync.Core/Serializers/DictionarySerializer.cs:85 | the row with that Key, none when no row has it |
| DictionarySerializer.FindByItemKey | Jumoo.uSync.Core/Serializers/DictionarySerializer.cs:88-91 | the row with that ItemKey, none when it does not exist |
| DictionarySerializer.FindsOwnRow | Jumoo.uSync.Core/Serializers/DictionarySerializer.cs:82-91 | with unique indexes, a stored item is found by its own Key and by its own ItemKey |
| DictionarySerializer.FindLanguage | Jumoo.uSync.Core/Serializers/DictionarySerializer.cs:126 | a known language with that IsoCode, none when there is none |
| DictionarySerializer.ValueLanguage | Jumoo.uSync.Core/Serializers/DictionarySerializer.cs:123-127 | a Value element counts exactly when its LanguageCultureAlias is non-empty and is the IsoCode of a known language, and then it is that language |
| DictionarySerializer.Upsert | Jumoo.uSync.Core/Serializers/DictionarySerializer.cs:129 | the language takes the new text and every other language keeps its value |
| DictionarySerializer.LastValueWins | Jumoo.uSync.Core/Serializers/DictionarySerializer.cs:121-132 | after the loop each language holds the text of its last Value element; unknown or empty languages change nothing |
| DictionarySerializer.UpdateValues | Jumoo.uSync.Core/Serializers/DictionarySerializer.cs:121-132 | the loop over the Value elements yields ApplyValues of them, in document order |
| DictionarySerializer.SaveRows | Jumoo.uSync.Core/Serializers/DictionarySerializer.cs:134 | the save fails exactly when it would break a unique index |
| DictionarySerializer.SaveKeepsRows | Jumoo.uSync.Core/Serializers/DictionarySerializer.cs:134 | a save keeps the unique indexes, removes no row and leaves the item stored |
| DictionarySerializer.LocalizationService.Save | Jumoo.uSync.Core/Serializers/DictionarySerializer.cs:134 | the rows become SaveRows', or stay when it refuses |
| DictionarySerializer.LocalizationService.NewKey | Jumoo.uSync.Core/Serializers/DictionarySerializer.cs:98-101 | draws the next value of Guid.NewGuid |
| DictionarySerializer.LocalizationService.Delete | Jumoo.uSync.Core/Serializers/DictionarySerializer.cs:174 | removes the item's row and keeps the store's unique indexes |
| DictionarySerializer.CleanChildren | Jumoo.uSync.Core/Serializers/DictionarySerializer.cs:161-177 | deletes, in turn, each child whose ItemKey is not among the names ignoring case; with no children nothing changes. The store's unique indexes hold throughout |
| DictionarySerializer.RemoveKeyKeepsUnique | Jumoo.uSync.Core/Serializers/DictionarySerializer.cs:174 | removing an item's row keeps every other row's Key and ItemKey distinct |
| DictionarySerializer.Missing | Jumoo.uSync.Core/Serializers/DictionarySerializer.cs:166 | exactly the children whose ItemKey is not case-insensitively in names |
| DictionarySerializer.CleanChildrenKeeps | Jumoo.uSync.Core/Serializers/DictionarySerializer.cs:161-177 | a row survives exactly when every child with its Key is named |
| DictionarySerializer.DeletedRows | Jumoo.uSync.Core/Serializers/DictionarySerializer.cs:171-175 | a row survives the deletions exactly when no deleted item has its Key |
| DictionarySerializer.SerializeCore | Jumoo.uSync.Core/Serializers/DictionarySerializer.cs:179-192 | always succeeds, reported under the item's ItemKey |
| DictionarySerializer.GetDictionaryElement | Jumoo.uSync.Core/Serializers/DictionarySerializer.cs:194-221 | writes a DictionaryItem element with no text of its own |
| DictionarySerializer.ChildElements | Jumoo.uSync.Core/Serializers/DictionarySerializer.cs:210-217 | every nested element is a DictionaryItem |
| DictionarySerializer.ChildrenOf | Jumoo.uSync.Core/Serializers/DictionarySerializer.cs:210-212 | exactly the rows whose parent is that Key |
| DictionarySerializer.ElementAttributes | Jumoo.uSync.Core/Serializers/DictionarySerializer.cs:196-200 | Key is always the ItemKey; guid is present exactly on the top element and reads back as the item's Key |
| DictionarySerializer.ElementParts | Jumoo.uSync.Core/Serializers/DictionarySerializer.cs:202-217 | the Value elements are the sorted translations and the nested items are the child elements, in that order |
| DictionarySerializer.ElementValues | Jumoo.uSync.Core/Serializers/DictionarySerializer.cs:202-208 | one Value per translation (a permutation), ordered by IsoCode |
| DictionarySerializer.ElementChildren | Jumoo.uSync.Core/Serializers/DictionarySerializer.cs:210-217 | one nested element per stored child (a permutation), ordered by ItemKey, written with top=false |
| DictionarySerializer.ValueElementReads | Jumoo.uSync.Core/Serializers/DictionarySerializer.cs:204-207 | a written Value element reads back in its language with its text |
| DictionarySerializer.ValuesRoundTrip | Jumoo.uSync.Core/Serializers/DictionarySerializer.cs:121-132 | applying an item's exported Values to it leaves every language's value unchanged |
| DictionarySerializer.ExportResolvesToItself | Jumoo.uSync.Core/Serializers/DictionarySerializer.cs:82-91 | an exported top element resolves to the stored item it came from, creating nothing |
| DictionarySerializer.ExportReimports | Jumoo.uSync.Core/Serializers/DictionarySerializer.cs:55-134 | re-importing an exported item finds it. The save succeeds without drawing a new guid. Key, ItemKey, parent and every value are kept |
| DictionarySerializer.IsUpdate | Jumoo.uSync.Core/Serializers/DictionarySerializer.cs:223-247 | an archive is never an update. Otherwise an empty hash, a missing Key or an unknown ItemKey always is. For a known ItemKey it is an update exactly when the document's hash differs from the hash of SerializeCore of the stored item |
| DictionarySerializer.GetChanges | Jumoo.uSync.Core/Serializers/DictionarySerializer.cs:250-273 | null exactly for an empty hash or a missing Key. NewItem, under the Key, exactly when no item has that ItemKey. Otherwise a comparison of the document with SerializeCore of the stored item. It never reports an error. Null and NewItem imply IsUpdate for a non-archive. A comparison means IsUpdate holds exactly when the hashes differ |
| DictionarySerializer.ExportIsNotUpdate | Jumoo.uSync.Core/Serializers/DictionarySerializer.cs:223-247 | a document exported from the store is not an update against that store |

## Left out

- File-system APIs are an abstract map from path (a sequence of names) to entry. Separators, drive roots and case folding of real paths are not modelled. `Path.Combine` with a rooted typeFolder is modelled as plain concatenation.
- The root path `[]` is not an entry of the tree, so walking it does nothing.
- `Path.GetDirectoryName("")` throws (as .NET Framework's does), so ManageOrphan with an empty newFile records a fault, changes nothing else and reports failure.
- An IOException thrown by `Directory.Move` or `XElement.Load(newFile)` is not caught by the code. In the model it ends the whole walk with ok = false, and the steps already done stay done. When the orphan and target folders coincide, `Directory.Move(sub, sub)` throws, and so does the model's move.
- `uSyncIOHelper.ArchiveFile`, `File.Delete`, `DirectoryInfo.Delete`, `Directory.GetFiles`, `Directory.GetDirectories` and `GetFileSystemInfos` are modelled as always succeeding. Their IO exceptions (a locked file, a permission failure, a folder that fills again between the check and the delete) are not modelled.
- The order in which `Directory.GetFiles` and `GetDirectories` list entries is not fixed by the model. The loops pick any remaining entry, and the contracts hold for every order.
- XML parsing and CDATA escaping: a file holds its parsed element, or nothing when it is not well-formed. An element has a single text field; mixed content (text interleaved with child elements) is not modelled.
- HandleOrphan: states only what the file pass needs of ManageOrphan. OrphanRemoved's frame (siblings kept, subfolders relocated, folder removed when empty) is stated on ManageOrphan and not repeated here.
- `GetSyncHash`, `IsArchiveFile`, `NameFromNode` and `GetTypeFromElement` are uninterpreted function parameters.
- `ValueOrDefault(Guid.Empty)` is modelled as a parse of the hyphenated `D` form, with Empty otherwise. Other guid text forms are not modelled.
- Guids.TryParse: accepts only the `D` form, not the braces, parentheses or 32-digit forms that `Guid.TryParse` also accepts.
- Text.EqualsIgnoreCase folds ASCII letters only. Ordinal case-insensitive comparison of other scripts is not modelled, and neither is the culture-aware comparison behind `InvariantContains`, which CleanChildren uses.
- Text.SortBy: `OrderBy` is stable, and the model's sort is not proved stable. Only the sorted keys and the multiset of elements are stated. Elements with equal keys could come out in another order. The serializer sorts children by ItemKey, which the store's unique index keeps distinct. It also sorts an item's values by IsoCode. Those are distinct only when the item has one translation per language and the site's languages have distinct IsoCodes. The model's store does not state either as an invariant, so values that share an IsoCode may come out in another order than the source's.
- `OrderBy` on strings uses the culture's comparer. The model sorts by ordinal order with an insertion sort, so the order differs from the source's for strings where culture and ordinal order disagree.
- The Umbraco localization service is modelled by what the serializer relies on:
  - rows in storage order, with unique Key and ItemKey indexes;
  - a save that would break an index throws;
  - lookups return the first match;
  - `AddOrUpdateDictionaryValue` changes the item in memory;
  - the database collation is taken to be exact.
- `Guid.NewGuid()` is an injected stream. A created item's Key is drawn lazily, so a created root that takes the document's guid draws none.
- DictionarySerializer.LocalizationService.Delete: removes only the item's row, not its descendants.
- CleanChildren is modelled, but UpdateDictionaryValues never calls it (its call is commented out in the source). The `childNames` list is built and never read, so it is not modelled.
- The base-class `Serialize` that `IsUpdate` and `GetChanges` call is not part of this model. It is taken to be SerializeCore, which always succeeds, so their failure branches and `ChangeError` are unreachable in the model.
- The `xml.NameFromNode()` branch of SerializeCore (reached only if the element were null) is not modelled; the element is never null.
- DictionarySerializer.GetDictionaryElement: a pool of Keys cuts a cycle of parent links, which would make the source recurse without end. The model does not prove that the cut never applies to a store whose parent links form a forest.
- DictionarySerializer.ExportReimports: proved only for items whose translations are all in known languages with at most one value per language. Otherwise the source itself drops or merges values on import.
- The diff that `uSyncChangeTracker.GetChanges` computes is not modelled; only which report is chosen is.
- Logging (`LogHelper`, `ILogger`), `ApplicationContext` service location and the mapped-folder configuration are not modelled. The mapped folder is a parameter.
