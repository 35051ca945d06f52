# java-utils file utilities in Dafny

This project models `FileUtility`, the file-manipulation helper class of the java-utils
library. It also models the `FileUtilityReturnCode` enum and the three `FileFilter`
classes that the helper uses to list directories:
- `FileOnlyListFilter`;
- `FileStartsWithListFilter`;
- `FileExtensionListFilter`.

The disk is an in-memory tree (`FileTree`).
- **Paths.** A path is the sequence of names from the root (`Paths`); the root is the empty path.
- **Entries.** A map sends each existing path to a file, which has a `lastModified` stamp, or to a directory, which has its listing in platform order.
- **Well-formedness.** The root is a directory, and every other entry is listed by its parent directory. Listings have no repeats and name only existing entries.

The operating-system calls the helper relies on are the `Platform` functions:
- `File.renameTo`;
- `File.mkdirs`;
- `File.delete`;
- `Files.move`.

Each call can fail for a structural reason (missing source, occupied target, non-empty directory), and the model decides those failures. Whether the operating system permits an otherwise possible call is left to an `Oracle` value, so that every failure branch of the helper stays reachable. Every call is appended, with its outcome, to a log of platform calls. That log is how the model states orderings:
- "rename first, `Files.move` only when it failed";
- "children before their directory";
- "stop at the first failure".

An exception escaping a Java method is the `Thrown` case of `Completion`.

Each Java operation exists twice:
- as a function over the tree (`CopyOps`, `MoveOps`, `DeleteOps`, `Listing`, `FileNames`, `ListFilters`, `ReturnCodes`), which returns the outcome, the new tree and the calls made;
- as a method of `FileUtility` that works on a mutable `FileSystemModel.FileSystem` object, with the loops of the Java code.

Each method is proved to produce exactly the run its function describes. The properties the Java code promises are proved about the functions in `CopyProperties`, `MoveProperties` and `DeleteProperties`, and in the lemmas next to each function.

## Model

All source paths below are under `src/main/java/com/wheezy/utils/file/`.

| member | source | states |
|---|---|---|
| FileSystemModel.FileSystem.Exists | src/main/java/com/wheezy/utils/file/FileUtility.java:60 | `exists()` holds exactly for paths present in the tree |
| FileSystemModel.FileSystem.IsDirectory | src/main/java/com/wheezy/utils/file/FileUtility.java:66 | `isDirectory()` holds exactly for directory entries |
| FileSystemModel.FileSystem.List | src/main/java/com/wheezy/utils/file/FileUtility.java:82 | `list()` of a directory names each child once, and every name is an existing entry |
| FileSystemModel.FileSystem.LastModifiedOf | src/main/java/com/wheezy/utils/file/FileUtility.java:355 | `lastModified()` is the file's stamp, and 0 for a path that is not a file |
| FileSystemModel.FileSystem.RenameTo | src/main/java/com/wheezy/utils/file/FileUtility.java:113 | the object's tree and log become exactly those of `Platform.RenameTo` |
| FileSystemModel.FileSystem.Mkdirs | src/main/java/com/wheezy/utils/file/FileUtility.java:75 | the object's tree and log become exactly those of `Platform.Mkdirs` |
| FileSystemModel.FileSystem.Delete | src/main/java/com/wheezy/utils/file/FileUtility.java:329 | the object's tree and log become exactly those of `Platform.Delete` |
| FileSystemModel.FileSystem.Move | src/main/java/com/wheezy/utils/file/FileUtility.java:98 | the object's tree and log become exactly those of `Platform.FilesMove` |
| Platform.RenameTo | src/main/java/com/wheezy/utils/file/FileUtility.java:113 | returns true iff the OS allows it and a file or empty directory can take a free place under an existing directory; on true the entry moves with its content, on false nothing changes; exactly one call is logged |
| Platform.Mkdirs | src/main/java/com/wheezy/utils/file/FileUtility.java:145 | returns true iff the OS allows it, the path is absent and no file lies on the way; on true the path is a directory and only directories on the way to it are added; on false nothing changes |
| Platform.Delete | src/main/java/com/wheezy/utils/file/FileUtility.java:329 | removes exactly the entry when it is a file or an empty directory and the OS allows it; throws the security fault exactly when the OS denies it; otherwise returns false and changes nothing |
| Platform.FilesMove | src/main/java/com/wheezy/utils/file/FileUtility.java:98 | moving an existing entry onto itself succeeds with no change; otherwise it succeeds iff the entry can be relocated, and throws an IOException fault with no change when it cannot |
| FileTree.Relocate | src/main/java/com/wheezy/utils/file/FileUtility.java:113 | the tree after a successful rename is well formed, lacks the source, has the target with the source's node, and leaves other entries alone apart from the two parents' listings |
| FileTree.MakeDirs | src/main/java/com/wheezy/utils/file/FileUtility.java:75 | `mkdirs` adds only directories on the way to the path, keeps every entry, and ends with the path a directory |
| CopyOps.MoveFileWithoutCopy | src/main/java/com/wheezy/utils/file/FileUtility.java:111-120 | makes exactly one rename call and returns SUCCESS iff that rename succeeded, otherwise FILE_MOVE_ERROR with the tree unchanged |
| CopyOps.CopyTarget | src/main/java/com/wheezy/utils/file/FileUtility.java:68-71 | with contents only (or for the root) the target is dest itself; otherwise it is the child of dest named after the source directory |
| CopyOps.CopyFiles | src/main/java/com/wheezy/utils/file/FileUtility.java:57-103 | FILE_DOES_NOT_EXIST iff the source is missing, and then no change and no call; DIRECTORY_CREATION_ERROR exactly when the source is a directory whose copy target is missing and cannot be created, with nothing copied; otherwise SUCCESS or an IOException fault; only files below the source disappear and only entries around the target appear |
| CopyOps.CopyFile | src/main/java/com/wheezy/utils/file/FileUtility.java:89-100 | a file is renamed, and `Files.move` runs only after a failed rename; on return the file sits at dest with its content and the source is gone; a thrown move changes nothing |
| CopyOps.CopyDirectory | src/main/java/com/wheezy/utils/file/FileUtility.java:66-88 | DIRECTORY_CREATION_ERROR exactly when the target is missing and its mkdirs fails, and then with that one call and no change; a child's result never changes SUCCESS; on SUCCESS the target exists |
| CopyOps.CopyChildren | src/main/java/com/wheezy/utils/file/FileUtility.java:82-88 | the children loop keeps the tree well formed and the source a directory, and only lets an IOException escape |
| CopyOps.CopyChildrenStep | src/main/java/com/wheezy/utils/file/FileUtility.java:83-88 | one more child is copied from the source's child into the target's child of the same name, with contentsOnly true, after the children before it |
| CopyOps.CopyChildrenStops | src/main/java/com/wheezy/utils/file/FileUtility.java:83-88 | once a child's copy throws, the later children are not attempted |
| CopyProperties.CopyFilesEmptiesSource | src/main/java/com/wheezy/utils/file/FileUtility.java:57-103 | after a copy that returns normally with every mkdirs successful, no file is left at or below the source: a copy is a move |
| CopyProperties.FileCopyEmptiesSource | src/main/java/com/wheezy/utils/file/FileUtility.java:89-100 | after a file copy that returns, the source path holds nothing |
| CopyProperties.DirectoryCopyEmptiesSource | src/main/java/com/wheezy/utils/file/FileUtility.java:66-88 | after a directory copy that returns with every mkdirs successful, only directories remain below the source |
| CopyProperties.ChildrenCopyEmptiesSource | src/main/java/com/wheezy/utils/file/FileUtility.java:83-88 | the same for the subtrees of the listed children |
| CopyProperties.CopyFilesMirrors | src/main/java/com/wheezy/utils/file/FileUtility.java:57-103 | after such a copy, every file of the source is at the corresponding path under the target, unchanged, and every directory of the source, empty ones included, has an entry at the corresponding path |
| CopyProperties.DirectoryCopyMirrors | src/main/java/com/wheezy/utils/file/FileUtility.java:66-88 | the same for a directory source and its copy target |
| CopyProperties.CopyFilesRecreatesDirs | src/main/java/com/wheezy/utils/file/FileUtility.java:57-88 | after such a copy, every directory of the source has an entry at the corresponding path under the target |
| CopyProperties.DirectoryCopyRecreatesDirs | src/main/java/com/wheezy/utils/file/FileUtility.java:66-88 | the same for a directory source: the target itself exists and each directory below the source is recreated |
| CopyProperties.ChildrenCopyRecreatesDirs | src/main/java/com/wheezy/utils/file/FileUtility.java:83-88 | the children loop recreates the directories of each child's subtree under the target |
| CopyProperties.OneMoreChildDirs | src/main/java/com/wheezy/utils/file/FileUtility.java:83-88 | one more child: its directories arrive and those already recreated stay, a copy removing only files below its own source |
| CopyProperties.ChildrenCopyMirrors | src/main/java/com/wheezy/utils/file/FileUtility.java:83-88 | the children loop removes only entries below listed children and mirrors each child's files under the target |
| FileUtility.MoveFileWithoutCopy | src/main/java/com/wheezy/utils/file/FileUtility.java:111-120 | the method's result, tree and log are those of `CopyOps.MoveFileWithoutCopy` |
| FileUtility.CopyFiles | src/main/java/com/wheezy/utils/file/FileUtility.java:57-103 | the recursive method's result, tree and log are those of `CopyOps.CopyFiles` |
| FileUtility.CopyFile | src/main/java/com/wheezy/utils/file/FileUtility.java:89-100 | the file branch's result, tree and log are those of `CopyOps.CopyFile` |
| FileUtility.CopyDirectory | src/main/java/com/wheezy/utils/file/FileUtility.java:66-88 | the directory branch's result, tree and log are those of `CopyOps.CopyDirectory` |
| FileUtility.CopyEntries | src/main/java/com/wheezy/utils/file/FileUtility.java:82-88 | the for-loop over the listing does what `CopyOps.CopyChildren` describes |
| FileUtility.CopyFilesDefault | src/main/java/com/wheezy/utils/file/FileUtility.java:43-46 | the two-argument overload is the copy with contentsOnly false |
| MoveOps.Renamed | src/main/java/com/wheezy/utils/file/FileUtility.java:166-172 | a non-empty new name gives a path with the same parent as the old one whose last name is the new name; an empty one gives the parent itself |
| MoveOps.MoveFiles | src/main/java/com/wheezy/utils/file/FileUtility.java:141-175 | INVALID_COPY_LOCATION keeps every entry and calls at most a successful mkdirs of destDir; DIRECTORY_CREATION_ERROR only for a directory source after a failed mkdirs; a null parent throws exactly for a renamed directory moved to the root; only IOException or NullPointer faults escape; a failed mkdirs returns DIRECTORY_CREATION_ERROR with nothing else done; after the mkdirs step, INVALID_COPY_LOCATION is returned exactly when destDir is not a directory, the substring check fires, or the final copy target overlaps the source directory; once the mkdirs step, both checks and the null-parent check pass, the outcome and the new tree are those of `copyFiles(src, dest, false)` for the computed destination, and the log is the mkdirs calls followed by the copy's |
| MoveProperties.MoveFileLands | src/main/java/com/wheezy/utils/file/FileUtility.java:161-174 | a moved file ends at destDir/srcName, or at destDir/newName with a new name, with its content, and the source is gone |
| MoveProperties.MoveDirectoryLands | src/main/java/com/wheezy/utils/file/FileUtility.java:166-174 | a moved directory ends at destDir/srcName, but with a new name at parent(destDir)/newName/srcName |
| MoveProperties.MoveDirectoryMirrors | src/main/java/com/wheezy/utils/file/FileUtility.java:141-174 | a directory move that returns SUCCESS after every mkdirs succeeded puts every file of the source, unchanged, at the matching path under destDir/srcName (or parent(destDir)/newName/srcName), recreates every directory there, and leaves no file at or below the source |
| MoveProperties.MoveMissingSource | src/main/java/com/wheezy/utils/file/FileUtility.java:141-174 | a missing source makes no call and changes nothing; the result is FILE_DOES_NOT_EXIST exactly when destDir is a directory, and INVALID_COPY_LOCATION otherwise |
| MoveProperties.MoveRefusesNonDirectory | src/main/java/com/wheezy/utils/file/FileUtility.java:155-159 | a destDir that exists but is not a directory, or that is missing when a file is moved, is refused with INVALID_COPY_LOCATION, no call and no change |
| MoveProperties.GuardRejectsDescendants | src/main/java/com/wheezy/utils/file/FileUtility.java:155-159 | the substring guard refuses a destination at or below a source directory |
| MoveProperties.RootIsNeverMoved | src/main/java/com/wheezy/utils/file/FileUtility.java:143-159 | moving the root returns INVALID_COPY_LOCATION or DIRECTORY_CREATION_ERROR and removes nothing |
| MoveProperties.GuardRefusesPrefixSibling | src/main/java/com/wheezy/utils/file/FileUtility.java:156 | the substring test also refuses /a/b moved into its sibling /a/bc, a move the copy allows |
| MoveProperties.GuardAdmitsNestedTarget | src/main/java/com/wheezy/utils/file/FileUtility.java:155-174 | the guard as written lets the directory /a/x be moved into /a/y with new name "x", whose copy target /a/x/x lies inside the source |
| MoveProperties.MoveRefusesNestedTargets | src/main/java/com/wheezy/utils/file/FileUtility.java:151-159 | with the corrected guard, any move whose copy target lies at or below the source directory is refused before any copy, with at most one mkdirs call |
| MoveProperties.NestedMoveRefused | src/main/java/com/wheezy/utils/file/FileUtility.java:151-159 | the /a/x into /a/y as "x" move returns INVALID_COPY_LOCATION with no call and no change |
| FileUtility.MoveFiles | src/main/java/com/wheezy/utils/file/FileUtility.java:141-175 | the method's result, tree and log are those of `MoveOps.MoveFiles` |
| FileUtility.MoveFilesDefault | src/main/java/com/wheezy/utils/file/FileUtility.java:129-132 | the two-argument overload is the move without a new name |
| DeleteOps.DeleteDirectory | src/main/java/com/wheezy/utils/file/FileUtility.java:316-330 | only entries at or below the path disappear, each of them the target of a delete call that returned true; every call deletes at or below it; all but the last call succeeded; true iff the last call, which then deletes the path itself, succeeded, and the path is then gone; a failure leaves the path; only a SecurityException escapes |
| DeleteOps.DeleteChildren | src/main/java/com/wheezy/utils/file/FileUtility.java:320-327 | the children loop removes only entries strictly below the directory, each the target of a delete call that returned true, and keeps the directory; on true every call succeeded; otherwise it stopped at the first failed call |
| DeleteOps.DeleteChildrenStep | src/main/java/com/wheezy/utils/file/FileUtility.java:321-327 | a child is deleted recursively only after every earlier child was deleted |
| DeleteOps.DeleteChildrenStops | src/main/java/com/wheezy/utils/file/FileUtility.java:323-326 | after the first child that is not deleted, no later sibling is attempted |
| DeleteOps.NotDeletedCount | src/main/java/com/wheezy/utils/file/FileUtility.java:267-270 | the count of calls that returned false is at most the number of calls |
| DeleteOps.DeleteEachStep | src/main/java/com/wheezy/utils/file/FileUtility.java:263-275 | the best-effort loop continues after every entry, adding one to the count exactly when delete returned false |
| DeleteOps.DeleteEachCalls | src/main/java/com/wheezy/utils/file/FileUtility.java:263-275 | the i-th call deletes the i-th listed entry, so every entry is attempted |
| DeleteOps.DeleteEachCount | src/main/java/com/wheezy/utils/file/FileUtility.java:263-276 | the result is the number of calls that returned false; a SecurityException is not counted |
| DeleteOps.DeleteEachFrame | src/main/java/com/wheezy/utils/file/FileUtility.java:263-275 | only listed entries disappear, and no surviving entry changes |
| DeleteOps.DeleteEachRemoves | src/main/java/com/wheezy/utils/file/FileUtility.java:263-275 | every entry whose delete succeeded is gone |
| DeleteOps.DeleteFilesFromDirectory | src/main/java/com/wheezy/utils/file/FileUtility.java:253-277 | a path that is not a directory throws a NullPointer fault with no change; otherwise delete is called once on each file of the listing, in order and whatever the earlier calls returned, only files directly in the directory are deleted, and the result counts the failed deletes |
| DeleteOps.DeleteFilesWithExtension | src/main/java/com/wheezy/utils/file/FileUtility.java:285-309 | a path that is not a directory returns 0 with no call; otherwise delete is called once on each entry of the filtered listing, in order and whatever the earlier calls returned; only entries directly in the directory whose upper-cased name ends with the filter's extension can disappear; the result counts the failed deletes |
| DeleteProperties.DeleteDirectoryRemovesSubtree | src/main/java/com/wheezy/utils/file/FileUtility.java:311-330 | when deleteDirectory returns true, nothing is left at or below the path |
| DeleteProperties.DeleteDirectoryPostOrder | src/main/java/com/wheezy/utils/file/FileUtility.java:316-330 | the log is post-order: no entry is deleted before any entry below it |
| DeleteProperties.DeleteChildrenPostOrder | src/main/java/com/wheezy/utils/file/FileUtility.java:320-327 | the children loop's log is post-order and deletes only below listed children |
| DeleteProperties.NextChildPostOrder | src/main/java/com/wheezy/utils/file/FileUtility.java:321-327 | one more child keeps the log post-order |
| DeleteProperties.LaterSiblingsRemain | src/main/java/com/wheezy/utils/file/FileUtility.java:320-327 | once a child is not deleted, every entry at or below a later sibling is still there: the loop returns at its first failure |
| DeleteProperties.AllowedDirectoryDeleted | src/main/java/com/wheezy/utils/file/FileUtility.java:316-330 | when every delete at or below an existing path other than the root is allowed, deleteDirectory returns true and nothing is left at or below the path |
| DeleteProperties.AllowedChildrenDeleted | src/main/java/com/wheezy/utils/file/FileUtility.java:320-327 | when every delete is allowed, the children loop returns true and every listed child is gone |
| DeleteProperties.EveryFileAttempted | src/main/java/com/wheezy/utils/file/FileUtility.java:257-276 | every file directly in the directory is passed to delete, a failure never ending the loop |
| DeleteProperties.EveryMatchAttempted | src/main/java/com/wheezy/utils/file/FileUtility.java:288-307 | every entry directly in the directory whose name matches the extension is passed to delete, a failure never ending the loop |
| DeleteProperties.ExtensionDeleteAttemptsDirectories | src/main/java/com/wheezy/utils/file/FileUtility.java:288-298 | a directory whose name matches the extension is passed to delete, since the filter does not exclude directories |
| FileUtility.DeleteDirectory | src/main/java/com/wheezy/utils/file/FileUtility.java:316-330 | the recursive method's result, tree and log are those of `DeleteOps.DeleteDirectory` |
| FileUtility.DeleteEntries | src/main/java/com/wheezy/utils/file/FileUtility.java:320-327 | the for-loop over the children does what `DeleteOps.DeleteChildren` describes |
| FileUtility.DeleteListed | src/main/java/com/wheezy/utils/file/FileUtility.java:263-275 | the counting loop does what `DeleteOps.DeleteEach` describes |
| FileUtility.DeleteFilesFromDirectory | src/main/java/com/wheezy/utils/file/FileUtility.java:253-277 | the method's result, tree and log are those of `DeleteOps.DeleteFilesFromDirectory` |
| FileUtility.DeleteFilesWithExtension | src/main/java/com/wheezy/utils/file/FileUtility.java:285-309 | the method's result, tree and log are those of `DeleteOps.DeleteFilesWithExtension` |
| Listing.Accepted | src/main/java/com/wheezy/utils/file/FileUtility.java:257 | `listFiles(filter)` keeps a child iff the filter accepts its name and kind, and only children |
| Listing.ListFiles | src/main/java/com/wheezy/utils/file/FileUtility.java:346 | `listFiles` is null iff the path is not a directory |
| Listing.ListFilesMembers | src/main/java/com/wheezy/utils/file/FileUtility.java:346 | the listing is exactly the entries directly in the directory that the filter accepts |
| Listing.SearchDir | src/main/java/com/wheezy/utils/file/FileUtility.java:372-376 | a path that is not a directory is replaced by its parent |
| Listing.ListOfFilesInDirectory | src/main/java/com/wheezy/utils/file/FileUtility.java:370-385 | null iff the searched directory is not a directory; otherwise exactly its files, restricted to names with the prefix when one is given |
| FileUtility.FindNewestFileInDirectory | src/main/java/com/wheezy/utils/file/FileUtility.java:338-362 | a NullPointer fault iff the searched directory is not a directory; null iff it holds no file; otherwise the first file, in listing order, with the greatest lastModified |
| FileUtility.Newest | src/main/java/com/wheezy/utils/file/FileUtility.java:351-359 | the strict `>` loop returns a file that is at least as new as every file and strictly newer than every file before it |
| FileNames.LastIndexOf | src/main/java/com/wheezy/utils/file/FileUtility.java:397 | `lastIndexOf` is -1 iff the character is absent, and otherwise the index of an occurrence with none after it |
| FileNames.GetFilename | src/main/java/com/wheezy/utils/file/FileUtility.java:393-403 | the result is a prefix of the entry's name |
| FileNames.GetFileExtension | src/main/java/com/wheezy/utils/file/FileUtility.java:414-426 | the result is a suffix of the entry's name |
| FileNames.SplitRoundTrip | src/main/java/com/wheezy/utils/file/FileUtility.java:393-426 | the name without extension followed by the extension with its period is the whole name; with includeExtension the name is returned unchanged |
| FileNames.ExtensionForms | src/main/java/com/wheezy/utils/file/FileUtility.java:414-426 | with a period, the two extension forms differ by exactly the period; without one, both are empty and the name is returned whole |
| FileNames.ExtensionHasNoPeriod | src/main/java/com/wheezy/utils/file/FileUtility.java:419-422 | the extension without its period contains no period: the split is at the last one |
| FileNames.SplitAtLastPeriod | src/main/java/com/wheezy/utils/file/FileUtility.java:397-422 | "archive.tar.gz" splits into "archive.tar" and "gz" |
| FileNames.SplitHiddenFile | src/main/java/com/wheezy/utils/file/FileUtility.java:397-422 | a name starting with its only period is all extension and has an empty name part |
| FileNames.SplitRoot | src/main/java/com/wheezy/utils/file/FileUtility.java:395-425 | the root's name is empty and has no extension |
| FileNames.Sanitize | src/main/java/com/wheezy/utils/file/FileUtility.java:435-438 | each character outside letters, digits, '-', '_' and '.' becomes '_' and every other one is kept, position by position |
| FileNames.SanitizeOnlyAllowed | src/main/java/com/wheezy/utils/file/FileUtility.java:437 | a sanitised string contains only allowed characters |
| FileNames.SanitizeFixedPoints | src/main/java/com/wheezy/utils/file/FileUtility.java:437 | a string is unchanged iff all its characters are allowed, and sanitising is idempotent |
| FileNames.SanitizeIsOneName | src/main/java/com/wheezy/utils/file/FileUtility.java:437 | a sanitised string has no separator or space, and its periods stay in place |
| ReturnCodes.AllCodesComplete | src/main/java/com/wheezy/utils/file/FileUtilityReturnCode.java:8-14 | there are exactly seven codes, each listed once |
| ReturnCodes.Message | src/main/java/com/wheezy/utils/file/FileUtilityReturnCode.java:23-26 | every code has a non-empty message |
| ReturnCodes.MessageInjective | src/main/java/com/wheezy/utils/file/FileUtilityReturnCode.java:8-21 | no two codes share a message |
| ListFilters.Upper | src/main/java/com/wheezy/utils/file/filter/list/FileExtensionListFilter.java:14 | upper-casing keeps the length and upper-cases each character in place |
| ListFilters.UpperIdempotent | src/main/java/com/wheezy/utils/file/filter/list/FileExtensionListFilter.java:25 | upper-casing twice is upper-casing once |
| ListFilters.ExtensionFilter | src/main/java/com/wheezy/utils/file/filter/list/FileExtensionListFilter.java:10-20 | the stored extension starts with a period and is upper case; an extension with a period is upper-cased, and one without gets a period |
| ListFilters.ExtensionFilterNormalises | src/main/java/com/wheezy/utils/file/filter/list/FileExtensionListFilter.java:12-19 | "txt", ".txt", "TXT" and ".Txt" give the same filter: a leading period and letter case do not matter |
| ListFilters.FileOnlyAcceptsEveryFile | src/main/java/com/wheezy/utils/file/filter/list/FileOnlyListFilter.java:9-12 | every file is accepted whatever its name, and no directory |
| ListFilters.StartsWithAcceptsPrefixed | src/main/java/com/wheezy/utils/file/filter/list/FileStartsWithListFilter.java:17-20 | a file is accepted exactly when its name is the prefix followed by anything, the prefix itself included |
| ListFilters.ExtensionAcceptsMatchingEnd | src/main/java/com/wheezy/utils/file/filter/list/FileExtensionListFilter.java:22-26 | an entry, file or directory, is accepted exactly when its last characters, upper-cased, are the normalised extension with its period |
| ListFilters.ExtensionMatchIgnoresCase | src/main/java/com/wheezy/utils/file/filter/list/FileExtensionListFilter.java:25 | names that differ only in letter case get the same answer |
| ListFilters.ExtensionAcceptsDirectories | src/main/java/com/wheezy/utils/file/filter/list/FileExtensionListFilter.java:23-26 | the extension filter gives a directory the same answer as a file of that name |
| ListFilters.ExtensionNeedsPeriod | src/main/java/com/wheezy/utils/file/filter/list/FileExtensionListFilter.java:12-14 | every name ending in ".txt" in any case is accepted for "txt", including the dotfile ".txt" |
| ListFilters.ExtensionRefusesMissingPeriod | src/main/java/com/wheezy/utils/file/filter/list/FileExtensionListFilter.java:25 | "atxt" is refused for "txt": the period is part of the match |
| ListFilters.EmptyPrefixIsFileOnly | src/main/java/com/wheezy/utils/file/filter/list/FileStartsWithListFilter.java:19 | the empty prefix accepts exactly what the file-only filter accepts |
| ListFilters.StartsWithIsCaseSensitive | src/main/java/com/wheezy/utils/file/filter/list/FileStartsWithListFilter.java:19 | prefix "Log" refuses "log1.txt" and accepts "Log1.txt" |
| ListFilters.FileFiltersRefuseDirectories | src/main/java/com/wheezy/utils/file/filter/list/FileOnlyListFilter.java:11 | the file-only and starts-with filters refuse every directory |
| Paths.BaseName | src/main/java/com/wheezy/utils/file/FileUtility.java:395 | definition: `getName()` is the last name of the path, and "" for the root |
| Paths.CanonicalOfDescendant | src/main/java/com/wheezy/utils/file/FileUtility.java:156 | a descendant's canonical path string contains its ancestor's |
| Paths.JoinedAppend | src/main/java/com/wheezy/utils/file/FileUtility.java:163 | joining the names of a concatenated path concatenates the joined strings |

## Left out

- The operating system's own decisions are inputs. An `Oracle` says whether a possible rename, mkdirs, delete or move is permitted (permissions, volumes), so the model does not predict those.
- Real paths: symbolic links, relative paths and `getCanonicalPath`'s resolution. Paths are already canonical sequences of names. The separator is fixed to "/" in place of the `file.separator` property (`FileUtility.java:21-22`).
- A rename or `Files.move` relocates only a file or an empty directory, and never replaces an existing target. Moving a non-empty directory by rename, which some platforms allow, is not modelled.
- `mkdirs` either creates every missing directory or changes nothing. A partial creation followed by a failure is not modelled.
- Null arguments are not modelled. A null `File` given to any operation, or a null extension given to `deleteFilesWithExtension` (whose filter calls `ext.startsWith`, `FileExtensionListFilter.java:12`), raises a NullPointerException in the source. The model's paths and strings are never null; only the null results and parents the source produces itself are modelled.
- `toUpperCase` is ASCII-only. Locale rules and non-ASCII letters are not modelled.
- A directory's `lastModified` is 0. Only files carry a stamp, and the clock is not modelled.
- A new name in `moveFiles` is a single path component. A name containing the separator, which would reach a deeper path, is not modelled.
- `list()` and `listFiles()` return null only when the path is not a directory. I/O errors that make them return null for an existing directory are not modelled.
- The `println` in the SecurityException handlers of the flat deletes is not modelled. The exception is caught and not counted.
- `readFileAsString`, `writeStringToFile`, `browseForDirectory` and `main` are not part of this model: they are stream I/O, a JavaFX dialog and a no-op. `BashRunner`, `PropertiesUtility` and `AlertDialog` are not part of this model either.
- The doc comment of `sanitizeStringForFilename` (`FileUtility.java:429-431`) says that only letters, digits and '_' are kept. The code's regular expression also keeps '-' and '.', and the model follows the code.
- The message of a return code is fixed once it is built (`FileUtilityReturnCode.java:16-21`). In the model this holds by construction: `ReturnCodes.Message` is a function of the constant, and there is no state to change.
- CopyOps.CopyFiles: requires that a directory source and its copy target do not overlap (`CopyAllowed`). This is the doc comment's "Source and destination must be mutually exclusive" (`FileUtility.java:25-26`). When a directory is copied into itself, the source recurses without end, and that run is not modelled.
- FileUtility.CopyFiles: carries the same demand, for the same reason.
- MoveOps.MoveFiles: refuses with INVALID_COPY_LOCATION every directory move whose final copy target overlaps the source (see Findings). That check also refuses targets that are ancestors of the source, for example moving the directory /a/x into its own parent /a, whose copy target is /a/x itself. The source lets that move through and copies the directory's children onto themselves.
- CopyProperties.CopyFilesEmptiesSource: holds only when every mkdirs in the run succeeded. The source ignores a failed child copy, so a failed nested mkdirs leaves files behind, and the contract is conditioned on it. For a file source it also requires a destination different from the source: a file copied onto itself stays where it is.
- CopyProperties.CopyFilesMirrors: holds under the same all-mkdirs-succeeded condition.
- MoveProperties.MoveDirectoryMirrors: holds under the same all-mkdirs-succeeded condition, because it rests on the two copy lemmas above.
- FileUtility.MoveFiles: carries the ancestor-target refusal of MoveOps.MoveFiles described above, since it is proved equal to that function.
- ReturnCodes.Message: its contract only states that a message is non-empty. The message texts appear in the function itself, and `ReturnCodes.MessageInjective` proves them pairwise distinct.

## Findings

| source | as written | input that shows it | evidently intended | confidence | as-written member | corrected member |
|---|---|---|---|---|---|---|
| src/main/java/com/wheezy/utils/file/FileUtility.java:155-174 | The self-nesting check tests `destDir` before a new name is applied. A renamed destination is a sibling of `destDir`, so the final copy target is never checked. | The directory /a/x is moved into the existing directory /a/y with destFilename "x". The guard passes, because "/a/y" does not contain "/a/x". copyFiles is then called with /a/x → /a/x, whose target /a/x/x lies inside the source, so the copy recurses into its own output. | A move whose copy target lies inside the source is refused with INVALID_COPY_LOCATION, like a destDir below the source. | not executed | MoveProperties.GuardAdmitsNestedTarget | MoveProperties.MoveRefusesNestedTargets |
