# Verified model of the lumalink platform layer

The platform layer is a header-only C++ library.  This project models the four parts of
it that carry state and invariants, and proves what they keep over every run.

**The in-memory file system** (`PathUtility`, `Positions`, `TreeModel`, `Links`,
`MemoryFileAdapter`, `Runs`, `MixedRuns`, `CanonicalNames`, `ChildlessFiles`, `Session`,
`EnsureDirectory`, `Listing`, `DirectoryWalk`).
A path string is read as a *position*, a sequence of names; empty names, as in `a//b`,
are names like any other.  `TreeModel` is the file system as a value: a prefix-closed
map from positions to file identities, and a store from identities to kind and bytes.
`MemoryFileAdapter` is the heap of shared nodes with mutable child maps and cached paths;
each method is proved to change the value exactly as the operation of the same name does,
for every string.  `Runs` adds any number of handles and `Session` drives the real
objects: whole runs agree with the state machine, reply by reply.  `MixedRuns` shows that
every run, handle reads and writes included, agrees reply by reply with the plain map from
positions to contents, the place of each handle's file on it, and the bytes of the removed
files that handles still hold.  `CanonicalNames` and `ChildlessFiles` show which runs keep
cached paths true and listings complete.

**Scoped views** (`ScopePaths`, `ScopeIsolation`, `ScopedFileSystem`, `ScopedListing`,
`ScopedSession`): the translation between a scope and the file system below it, round trips, flattening of
nested scopes, and isolation over every run, handles included, for every root, on the
real objects.

**Byte sources** (`Availability`, `ByteStreamModel`, `ByteStream`): a source amounts to
one stream (`Drain`); spans, byte-wise devices and concatenations of any nesting deliver
exactly its next bytes.  One class with three kinds stands for the three source classes.

**Datagram peer and socket ownership** (`Sockets`, `SocketPeerModel`, `SocketPeer`,
`SocketProcess`): the operating system is an object whose calls may fail at any time and
which may only be called with handles that are open.  Each method of the peer appends one
event to its history; the theorems speak of every history.

Each heap class is tied to its value model by its methods' `ensures`; the lemmas about the
value model then say what the operations mean.

## What the code does and does not keep

- `remove` and `rename` act on `EntryOf(path)`, directory name plus file name, while
  `exists` and `open` walk the names of the whole path.  The two agree exactly when the
  file name is empty if and only if the directory name ends with a separator
  (`EntryIsWhatLookupFinds`); so on every canonical path, but not on "/a/", which
  `exists` finds and `remove` does not (`TrailingSeparatorExample`).
- `rename` does not guard against a move below itself: once the target's parent is made,
  the link edits close a cycle (`RenameIntoItselfClosesCycle`; the shortest call is
  `rename("/a", "/a/b")`, `RenameBelowItselfExample`) and the recursive path rewrite would
  not return.  It is excluded by a precondition, which is the only one on any path
  operation.
- A node's cached path leads back to it exactly when no name on the way is empty
  (`CachedPathLeadsBack`).  Canonical paths alone do not keep it so: after `mkdir("/a")`,
  `rename("/a", "/")` hangs the node at the empty name, where it caches the root's path
  (`RenameOntoRootMakesEmptyName`).  `StepKeepsNamesExactly` says which calls keep it; runs
  of canonical commands that rename nothing onto "/" do (`CanonicalRunKeepsNames`,
  `Session.ExecuteAll`).
- Creation hangs nodes below files without looking at kinds, and so does `rename` when it
  makes or uses its target's parent: after `open("/f")` for writing, `mkdir("/f/x")` gives
  the file a child that no listing shows (`MkdirBelowFile`).  What keeps files childless is
  exact for each call, by the kinds of the nodes on its way (`StepKeepsFilesChildlessExactly`,
  `CreationKeepsFilesChildless`, `RenamingKeepsFilesChildless`), and for each run
  (`RunKeepsFilesChildlessExactly`).
- A recursive listing of `/` visits every existing position exactly when files are childless
  (`WholeTreeListedExactly`).  The path strings it shows are just the existing canonical
  ones when, besides, no name is empty: `ShowsWhatExistsGivenNames` and
  `ShowsWhatExistsGivenChildlessFiles` are exact in each of the two conditions.  A run of
  canonical commands that rename nothing onto "/" and meet no file on their way leaves it so
  (`CanonicalRunShowsWhatExists`, `Session.ExecuteAll`).
- A scope with root "/a//b" or "/a//" can cut entries outside itself: `remove("/")` through
  the first cuts "/a/b" (`DoubledRootExample`).  `CutsOutsideExactly` names those entries,
  and every run leaves all else outside alone (`ScopedRunIsolates`).  So isolation of all
  that is outside holds for every run exactly when the directory name of the root does not
  end with a separator (`IsolationExactly`).  One effect on a kind remains even then: a
  scoped `rename` onto `/` turns the parent of the scope into a directory;
  `KindsKeptExactly` says, for every root, from which trees no run changes a kind outside.
- `isRoot` accepts every path on a drive letter: `isRoot("C:/root")` is true
  (src/lumalink/platform/filesystem/PathUtility.h:25-33), where
  test/test_native/test_path_utility.cpp:29 expects false.  The model follows the code;
  `SuccessMeansPresentExactly` says what that does to `ensureDirectory`.
- `join` is associative exactly when the middle segment is non-empty or the last one does
  not start with two separators (`JoinAssociative`): join("a", "", "//b") is "a//b" one way
  and "a/b" the other (`JoinAssociativeExample`).
- `ensureDirectory` succeeds on a relative path exactly when the path's first name exists or
  counts as a root (`AnchoredExactly`).
- `open` for writing does not truncate, `close` does not disable a handle, `read` ignores
  the mode, and opening an absent path that ends with a separator makes a directory and
  returns no handle.  The model does the same.

## Model

| member | source | states |
|---|---|---|
| PathUtility.Join | src/lumalink/platform/filesystem/PathUtility.h:57-93 | The two-pass n-ary join is the left fold of the binary one and never exceeds the capacity its first pass reserves |
| PathUtility.JoinAssociative | src/lumalink/platform/filesystem/PathUtility.h:57-93 | Join is associative if and only if the middle segment is non-empty or the last does not start with two separators |
| PathUtility.JoinAssociativeExample | src/lumalink/platform/filesystem/PathUtility.h:57-93 | The shortest segments for which it is not |
| PathUtility.JoinExamples | src/lumalink/platform/filesystem/PathUtility.h:57-93 | What joining gives on segments with a separator at their end, at their start, at both, or only a separator |
| PathUtility.MakeRelativeUndoesJoin | src/lumalink/platform/filesystem/PathUtility.h:142-161 | Relativising a joined path gives the remainder back, with or without its leading separator, for every non-empty base |
| PathUtility.DirAndFileName | src/lumalink/platform/filesystem/PathUtility.h:37-56 | A path is its directory name, a separator and its file name, and the file name has no separator |
| PathUtility.DirAndFileNameOf | src/lumalink/platform/filesystem/PathUtility.h:37-56 | That split is the only one whose file part has no separator |
| PathUtility.MakeRelativeExactly | src/lumalink/platform/filesystem/PathUtility.h:142-161 | The whole path for an empty base or a path beside it, nothing for the base itself, and what follows the base's separator for a path below it |
| PathUtility.IsRootExactly | src/lumalink/platform/filesystem/PathUtility.h:18-36 | By the length of the path: "/" and "." alone, a drive letter with its colon, and anything after that and a slash of either kind |
| PathUtility.IsRootExamples | src/lumalink/platform/filesystem/PathUtility.h:18-36 | "/", ".", "C:", "C:/", "C:\\" and "C:/root" count as roots; "/root" and others do not |
| Positions.SplitAppend | src/lumalink/platform/memory/MemoryFileAdapter.h:229-254 | The splitting loop is a homomorphism at every separator |
| Positions.ComponentsBelow | src/lumalink/platform/memory/MemoryFileAdapter.h:216-256 | Appending a remainder below any prefix appends its names, whatever slashes the prefix carries |
| Positions.EntryIsWhatLookupFinds | src/lumalink/platform/memory/MemoryFileAdapter.h:63-87 | The entry that removal and renaming cut is the node lookup finds, if and only if file name and directory name end alike |
| Positions.PathOfIsFoundExactly | src/lumalink/platform/memory/MemoryFileAdapter.h:216-256 | A printed position is read back as itself if and only if it has no empty name |
| Positions.PrintInvertsSplitExactly | src/lumalink/platform/memory/MemoryFileAdapter.h:258-313 | Printing inverts splitting if and only if the path is canonical |
| Positions.DirAndFileOfPosition | src/lumalink/platform/filesystem/PathUtility.h:37-56 | On canonical paths directory name and file name are the printed parent and the last name |
| TreeModel.CreateAlongCorrect | src/lumalink/platform/memory/MemoryFileAdapter.h:258-313 | Creation adds exactly the missing ancestors and the target, moves and changes nothing that was there but the target's kind, and gives each new node its kind and no bytes |
| TreeModel.TrailingSeparatorExactly | src/lumalink/platform/memory/MemoryFileAdapter.h:258-313 | A path ends with a separator that makes its node a directory exactly when it is longer than "/"; "" and "/" alone name the root |
| TreeModel.CreatePathOnView | src/lumalink/platform/memory/MemoryFileAdapter.h:258-313 | The same on the plain map from positions to contents, for every path string |
| TreeModel.CreatePathExactly | src/lumalink/platform/memory/MemoryFileAdapter.h:258-313 | Position by position: missing ancestors become empty directories, a new target is a directory exactly when asked for or when the path ends with a separator, and an existing one is made a directory exactly when asked for and the path does not |
| TreeModel.CreatePathTwice | src/lumalink/platform/memory/MemoryFileAdapter.h:258-313 | A second creation of the same path adds and changes nothing, whatever its slashes |
| TreeModel.RemoveCorrect | src/lumalink/platform/memory/MemoryFileAdapter.h:63-87 | Removal succeeds exactly for a present entry of a path other than "" and "/"; it takes just the entry and everything below it off the map and leaves all files in the store; a refused one changes nothing |
| TreeModel.RemoveExactly | src/lumalink/platform/memory/MemoryFileAdapter.h:63-87 | Position by position: exactly those at or below the entry go, and only when removal succeeds |
| TreeModel.TrailingSeparatorExample | src/lumalink/platform/memory/MemoryFileAdapter.h:63-87 | After mkdir("/a"), "/a/" is found by lookup and refused by removal |
| TreeModel.RenameCorrect | src/lumalink/platform/memory/MemoryFileAdapter.h:89-142 | Renaming succeeds exactly when both the source's path and its entry are present; it moves the subtree on the map after the missing ancestors of the target were made, keeps the tree well formed, and changes nothing when it is refused |
| TreeModel.RenameRelocates | src/lumalink/platform/memory/MemoryFileAdapter.h:89-142 | For every suffix s, target/s names afterwards the very file that source/s named, with the same contents, and nothing else is below the target |
| TreeModel.RenameKeepsTheRest | src/lumalink/platform/memory/MemoryFileAdapter.h:89-142 | Positions outside the target keep file and bytes, those under the source are gone, and new ones are exactly the missing ancestors of the target |
| TreeModel.OpenCorrect | src/lumalink/platform/memory/MemoryFileAdapter.h:434-455 | A handle is obtained exactly for a file; only an absent path opened for writing changes the map, by creation and without truncation |
| TreeModel.WrittenAt | src/lumalink/platform/memory/MemoryFileAdapter.h:396-414 | A write changes exactly the bytes from its position for its length; the size never shrinks |
| TreeModel.SliceAt | src/lumalink/platform/memory/MemoryFileAdapter.h:369-394 | A read of so many bytes takes as many as are wanted or left, whichever is less, each from its place after the position, and none at the end |
| Links.AttachNewLinked | src/lumalink/platform/memory/MemoryFileAdapter.h:292-303 | Adding one child link spells out the tree with one more position |
| Links.DetachLinked | src/lumalink/platform/memory/MemoryFileAdapter.h:80-86 | Erasing one child link spells out the tree without that subtree |
| Links.RelinkLinked | src/lumalink/platform/memory/MemoryFileAdapter.h:123-138 | The two link edits of a rename spell out the moved tree |
| Links.MoveIntoItselfClosesCycle | src/lumalink/platform/memory/MemoryFileAdapter.h:112-140 | The link edits of a move below itself would make the node its own descendant |
| Links.RenameIntoItselfClosesCycle | src/lumalink/platform/memory/MemoryFileAdapter.h:89-142 | So every rename of an entry below itself, once the target's parent is made, leaves a walk from the moved node back to itself |
| Links.RenameBelowItselfExample | src/lumalink/platform/memory/MemoryFileAdapter.h:89-142 | After mkdir("/a"), rename("/a", "/a/b") makes the node its own child |
| MemoryFileAdapter.MemoryFileSystem.constructor | src/lumalink/platform/memory/MemoryFileAdapter.h:36-43 | A new file system holds an empty root directory and satisfies the invariant |
| MemoryFileAdapter.MemoryFileSystem.FindNode | src/lumalink/platform/memory/MemoryFileAdapter.h:216-256 | The lookup loop returns the node at the path's position, null exactly when there is none |
| MemoryFileAdapter.MemoryFileSystem.CreatePath | src/lumalink/platform/memory/MemoryFileAdapter.h:258-313 | The creation loop leaves the state of the value operation, keeps the invariant, and returns the node that lookup of the same path finds |
| MemoryFileAdapter.TakeName | src/lumalink/platform/memory/MemoryFileAdapter.h:271-291 | One turn of the splitting loop takes the next name, tells whether it is the last one without a separator after it, and leaves the other names |
| MemoryFileAdapter.MemoryFileSystem.Exists | src/lumalink/platform/memory/MemoryFileAdapter.h:50-53 | True exactly when the path's position is in the tree |
| MemoryFileAdapter.MemoryFileSystem.Mkdir | src/lumalink/platform/memory/MemoryFileAdapter.h:55-59 | Always succeeds and is creation as a directory |
| MemoryFileAdapter.MemoryFileSystem.FindEntry | src/lumalink/platform/memory/MemoryFileAdapter.h:70-83 | The parent node holding the path's entry, null exactly when there is no such entry |
| MemoryFileAdapter.MemoryFileSystem.Remove | src/lumalink/platform/memory/MemoryFileAdapter.h:63-87 | State and result are those of removal on the value, and the invariant is kept |
| MemoryFileAdapter.MemoryFileSystem.Rehang | src/lumalink/platform/memory/MemoryFileAdapter.h:123-138 | The in-place link edits move the subtree and leave every file's kind and bytes |
| MemoryFileAdapter.MemoryFileSystem.UpdatePaths | src/lumalink/platform/memory/MemoryFileAdapter.h:127-139 | The recursive rewrite terminates, gives every node of the subtree the path its position prints as, and touches no other right path |
| MemoryFileAdapter.MemoryFileSystem.Rename | src/lumalink/platform/memory/MemoryFileAdapter.h:89-142 | State and result are those of renaming on the value, and every cached path is right again |
| MemoryFileAdapter.MemoryFileSystem.Open | src/lumalink/platform/memory/MemoryFileAdapter.h:434-455 | State and outcome are those of opening on the value; the handle holds the node at the path, at position 0 |
| MemoryFileAdapter.MemoryFileSystem.FindOrMake | src/lumalink/platform/memory/MemoryFileAdapter.h:436-446 | Finds the node, or makes it unless only reading, and returns the node of the path |
| MemoryFileAdapter.MemoryFileSystem.NodeAt | src/lumalink/platform/memory/MemoryFileAdapter.h:258-313 | Each node's name is its key in its parent and no node is at two positions |
| MemoryFileAdapter.MemoryFileSystem.CachedPathLeadsBack | src/lumalink/platform/memory/MemoryFileAdapter.h:123-140 | Lookup of the path a node caches finds that node if and only if no name on the way to it is empty |
| MemoryFileAdapter.MemoryFileSystem.AllLeadBackExactly | src/lumalink/platform/memory/MemoryFileAdapter.h:216-313 | Every cached path leads back to its node if and only if no name in the tree is empty |
| MemoryFileAdapter.MemoryFile.Size | src/lumalink/platform/memory/MemoryFileAdapter.h:339-342 | The number of bytes in the file |
| CanonicalNames.CreationKeepsNamesExactly | src/lumalink/platform/memory/MemoryFileAdapter.h:258-313 | Creation keeps all names non-empty if and only if it adds nothing or its path has no empty name |
| CanonicalNames.RenamingKeepsNamesExactly | src/lumalink/platform/memory/MemoryFileAdapter.h:89-142 | A rename past its guards keeps them so if and only if its target entry has no empty name |
| CanonicalNames.StepKeepsNamesExactly | src/lumalink/platform/memory/MemoryFileAdapter.h:55-142 | Each command keeps them so if and only if a condition on its strings and the present tree holds |
| CanonicalNames.CanonicalCommandKeepsNames | src/lumalink/platform/memory/MemoryFileAdapter.h:55-142 | The condition holds of every canonical command that renames nothing onto the root |
| CanonicalNames.CanonicalRunKeepsNames | src/lumalink/platform/memory/MemoryFileAdapter.h:55-142 | Over any run of such commands no name becomes empty |
| CanonicalNames.RenameOntoRootMakesEmptyName | src/lumalink/platform/memory/MemoryFileAdapter.h:89-142 | A legal run of two commands with canonical paths that hangs a node at the empty name |
| MemoryFileAdapter.MemoryFile.Available | src/lumalink/platform/memory/MemoryFileAdapter.h:359-367 | The rest of the file, or exhausted |
| MemoryFileAdapter.MemoryFile.Peek | src/lumalink/platform/memory/MemoryFileAdapter.h:383-394 | Copies min(buffer length, rest of the file) bytes, each from its place after the position, into the front of the buffer, none at the end, and changes nothing else |
| MemoryFileAdapter.MemoryFile.Read | src/lumalink/platform/memory/MemoryFileAdapter.h:369-381 | Delivers the same bytes in the same number and moves the position by it |
| MemoryFileAdapter.MemoryFile.Write | src/lumalink/platform/memory/MemoryFileAdapter.h:396-414 | Extends and overwrites in place exactly as the value operation, or refuses on a read-only handle |
| Runs.StepCorrect | src/lumalink/platform/memory/MemoryFileAdapter.h:321-455 | Each step keeps the tree well formed and every position within its file, shrinks no file, and changes bytes only by writing through a handle on that file |
| Runs.PathCommandOnMap | src/lumalink/platform/memory/MemoryFileAdapter.h:55-142 | Each path operation changes the plain map, and succeeds, as can be told from the map alone |
| Runs.PathRunOnMap | src/lumalink/platform/memory/MemoryFileAdapter.h:55-142 | Any run of path operations agrees with the plain map, outcome by outcome |
| Runs.WriteOnMap | src/lumalink/platform/memory/MemoryFileAdapter.h:396-414 | A handle's write changes the map at the one position naming its file, and nowhere once the file was removed |
| MixedRuns.RemovalCarries | src/lumalink/platform/memory/MemoryFileAdapter.h:63-87 | Removal leaves every file somewhere but those at or below the entry, and no bytes change |
| MixedRuns.RenamingCarries | src/lumalink/platform/memory/MemoryFileAdapter.h:89-142 | A rename takes the files below its source along and leaves nowhere just those it replaces |
| MixedRuns.CarriedDesk | src/lumalink/platform/memory/MemoryFileAdapter.h:55-142 | So the handles' places follow, and handles on files that are nowhere any more share their bytes by the first of them |
| MixedRuns.BytesExactly | src/lumalink/platform/memory/MemoryFileAdapter.h:321-428 | A handle sees there the bytes of its file, removed or not |
| MixedRuns.DeskStepCorrect | src/lumalink/platform/memory/MemoryFileAdapter.h:55-142 | Every command acts on the plain map, the places of the handles and the bytes of removed files alone, and replies exactly as these tell |
| MixedRuns.RunOnDesk | src/lumalink/platform/memory/MemoryFileAdapter.h:55-455 | Any mixed run leaves the map, and gives exactly the replies, that the map, the places of the handles and the bytes of removed files tell |
| Runs.RunKeeps | src/lumalink/platform/memory/MemoryFileAdapter.h:321-428 | Over any run handles stay with their file and within it, files never shrink, and bytes change only by writes through handles on that file |
| Runs.ReadDelivers | src/lumalink/platform/memory/MemoryFileAdapter.h:369-381 | A read delivers as many bytes as it asks for or are left, those at its position, and none only when it asks for none or stands at the end |
| Runs.ReadsDeliverFile | src/lumalink/platform/memory/MemoryFileAdapter.h:369-381 | Consecutive reads of any sizes deliver the file from where the handle stands, up to the sum of the sizes or to the end, whichever comes first, and move nothing but that handle |
| Runs.WriteIsSeenThroughOtherHandles | src/lumalink/platform/memory/MemoryFileAdapter.h:321-428 | What one handle writes another one on the same file reads back, from any position and in any amount, after any renames, removals and other operations in between |
| Session.Session.Read | src/lumalink/platform/memory/MemoryFileAdapter.h:369-381 | Reading through one of many handles is the step of the state machine |
| Session.Session.Write | src/lumalink/platform/memory/MemoryFileAdapter.h:396-414 | Writing through one of many handles is the step of the state machine |
| Session.Session.Open | src/lumalink/platform/memory/MemoryFileAdapter.h:434-455 | Opening adds one handle, as the step of the state machine does |
| Session.Session.Execute | src/lumalink/platform/memory/MemoryFileAdapter.h:46-142 | Each command on the real objects has the reply and the state of the state machine |
| Session.Session.ExecuteAll | src/lumalink/platform/memory/MemoryFileAdapter.h:46-142 | So does each run; a run of canonical commands that renames nothing onto the root leaves every cached path leading back to its node and, if it meets no file on its way, a listing of the root that shows exactly what exists |
| EnsureDirectory.Ensure | src/lumalink/platform/filesystem/FileSystem.h:61-87 | Terminates on every string, succeeds exactly when some directory name on the way up exists or counts as a root, and leaves at most what one mkdir would |
| EnsureDirectory.EnsureAbsolute | src/lumalink/platform/filesystem/FileSystem.h:61-87 | On every path with a leading separator it succeeds and is mkdir when the path is absent and nothing when it is present |
| EnsureDirectory.AnchoredExactly | src/lumalink/platform/filesystem/FileSystem.h:61-87 | It succeeds if and only if the path is absolute, or its first name exists or counts as a root |
| EnsureDirectory.ParentFirst | src/lumalink/platform/filesystem/FileSystem.h:75-84 | Making an absent parent first leaves the same tree as making the path at once |
| EnsureDirectory.EnsuredThroughParent | src/lumalink/platform/filesystem/FileSystem.h:75-84 | The recursion through the parent reaches what the specification says |
| EnsureDirectory.SuccessMeansPresentExactly | src/lumalink/platform/filesystem/FileSystem.h:67-74 | A reported success means the path exists afterwards if and only if it did before or does not count as a root |
| EnsureDirectory.DrivePathIsReportedButNotMade | src/lumalink/platform/filesystem/PathUtility.h:18-36 | "C:/root" counts as a root, so success is reported and nothing is made |
| Listing.ListAllExact | src/lumalink/platform/memory/MemoryFileAdapter.h:162-182 | The walk visits exactly the descendants reachable through directories |
| Listing.ListAllInOrder | src/lumalink/platform/memory/MemoryFileAdapter.h:162-182 | Each once, parents before children and siblings in key order |
| Listing.NameLessExactly | src/lumalink/platform/memory/MemoryFileAdapter.h:162-182 | Key order: one name is less if and only if the two agree up to some place where it ends or has the smaller character |
| Listing.PrecedesExactly | src/lumalink/platform/memory/MemoryFileAdapter.h:162-182 | Listing order: a position comes first if and only if the two agree up to some place where it ends or has the lesser name |
| Listing.ListedInKeyOrder | src/lumalink/platform/memory/MemoryFileAdapter.h:162-182 | Of any two entries shown, the earlier one is an ancestor or has the lesser name where the two first differ |
| Listing.KeyOrderExample | src/lumalink/platform/memory/MemoryFileAdapter.h:162-182 | "a" comes before "b" and before "ab", and "B" before "a" |
| Listing.WholeTreeListedExactly | src/lumalink/platform/memory/MemoryFileAdapter.h:144-183 | A recursive listing of the root visits exactly the existing positions but the root if and only if no file has children |
| Listing.ShowsWhatExistsGivenNames | src/lumalink/platform/memory/MemoryFileAdapter.h:144-183 | With no empty name, the path strings it shows are exactly the canonical ones that exist if and only if no file has children |
| Listing.ShowsWhatExistsGivenChildlessFiles | src/lumalink/platform/memory/MemoryFileAdapter.h:144-183 | With files childless they are if and only if no name is empty |
| ChildlessFiles.CreationKeepsFilesChildless | src/lumalink/platform/memory/MemoryFileAdapter.h:258-313 | Creation keeps files childless if and only if it adds nothing or meets no file above the new node |
| ChildlessFiles.RenamingKeepsFilesChildless | src/lumalink/platform/memory/MemoryFileAdapter.h:89-142 | A rename past its guards keeps them so if and only if its target's parent is a directory, is made one, or is made below directories only |
| ChildlessFiles.StepKeepsFilesChildlessExactly | src/lumalink/platform/memory/MemoryFileAdapter.h:55-142 | Each of the eight commands keeps them so if and only if a condition on its strings and the kinds of the nodes on its way holds |
| ChildlessFiles.RunKeepsFilesChildlessExactly | src/lumalink/platform/memory/MemoryFileAdapter.h:55-142 | A run leaves them so all the way if and only if each command meets its condition when its turn comes |
| ChildlessFiles.CanonicalRunShowsWhatExists | src/lumalink/platform/memory/MemoryFileAdapter.h:144-183 | After a run of canonical commands that rename nothing onto the root and meet no file, listing the root shows exactly the canonical paths that exist |
| ChildlessFiles.MkdirBelowFile | src/lumalink/platform/memory/MemoryFileAdapter.h:55-59 | A legal run of two commands with canonical paths that gives a file a child, which the listing of the root does not show |
| Listing.DeliverStopsAtFirstFalse | src/lumalink/platform/memory/MemoryFileAdapter.h:162-182 | The callback hears a prefix of the entries that ends with its first false answer, and the result is false exactly when there is one |
| Listing.DeliverConcat | src/lumalink/platform/memory/MemoryFileAdapter.h:162-182 | Delivering two listings one after the other is delivering their concatenation |
| DirectoryWalk.FirstKey | src/lumalink/platform/memory/MemoryFileAdapter.h:163-163 | The ordered child map yields the key first that agrees with each other one up to some place where it ends or has the smaller character |
| DirectoryWalk.Walk | src/lumalink/platform/memory/MemoryFileAdapter.h:162-182 | The recursive walk over the nodes terminates and hands the callback the listing of the subtree, names, paths and kinds included |
| DirectoryWalk.List | src/lumalink/platform/memory/MemoryFileAdapter.h:144-183 | False for a missing path, one entry for a file, the listing for a directory |
| DirectoryWalk.ListedCases | src/lumalink/platform/memory/MemoryFileAdapter.h:144-183 | Nothing is heard and false returned for a missing path; a file is heard as one entry, with its name, path and kind, and the callback's answer returned; a directory's listing is delivered |
| ScopePaths.ToInner | src/lumalink/platform/filesystem/ScopedFileSystem.h:172-191 | The stripping loop computes the scope translation for every root and path |
| ScopePaths.ScopePathExactly | src/lumalink/platform/filesystem/ScopedFileSystem.h:172-191 | Character by character: what follows the leading separators of a path is put below the root with one separator between, or none when the root ends with one; with nothing after them it is the root |
| ScopePaths.ExposeUndoesScope | src/lumalink/platform/filesystem/ScopedFileSystem.h:172-214 | Exposing a scoped path gives a separator and the path without its leading ones, for every non-empty root |
| ScopePaths.ExposePathExactly | src/lumalink/platform/filesystem/ScopedFileSystem.h:193-214 | The root is shown as "/", a path below it as the rest after a separator, and a path beside it as it is |
| ScopePaths.ScopeUndoesExpose | src/lumalink/platform/filesystem/ScopedFileSystem.h:172-214 | Scoping an exposed path gives it back, for the root and everything properly below it |
| ScopePaths.NestedScopesFlatten | src/lumalink/platform/filesystem/ScopedFileSystem.h:155-191 | Dropping the middle layer of two nested scopes changes no path |
| ScopePaths.ScopedComponents | src/lumalink/platform/filesystem/ScopedFileSystem.h:172-191 | Every scoped path is read at or below the root's position |
| ScopePaths.ScopedEntriesContained | src/lumalink/platform/filesystem/ScopedFileSystem.h:123-131 | All entries a scope can cut lie in it if and only if the root's directory name does not end with a separator |
| ScopePaths.ScopedEntryEscapes | src/lumalink/platform/filesystem/ScopedFileSystem.h:123-131 | Otherwise a concrete path cuts a link outside the scope |
| ScopePaths.CutsOutsideExactly | src/lumalink/platform/filesystem/ScopedFileSystem.h:123-131 | The entries outside the scope that some local path cuts are those of an explicit condition on the root's last names |
| ScopePaths.DoubledRootExample | src/lumalink/platform/filesystem/ScopedFileSystem.h:123-126 | Through the root "/a//b" removing "/" cuts "/a/b", which is outside |
| ScopePaths.CanonicalScopeIsSubtree | src/lumalink/platform/filesystem/ScopedFileSystem.h:172-214 | Through a canonical root the translations append and drop the root's position |
| ScopeIsolation.RenamingOutside | src/lumalink/platform/filesystem/ScopedFileSystem.h:128-131 | A rename between entries not above a position leaves its file and bytes alone, and its kind unless it is the parent of the target |
| ScopeIsolation.MarkedOutside | src/lumalink/platform/filesystem/ScopedFileSystem.h:128-131 | A scoped rename marks a position outside only as the parent of the scope, and for no root with a trailing or doubled separator at its end |
| ScopeIsolation.ScopedStep | src/lumalink/platform/filesystem/ScopedFileSystem.h:97-131 | For every root, one scoped command, or one through a handle, keeps everything the scope does not reach and opens no handle there |
| ScopeIsolation.ScopedRunIsolates | src/lumalink/platform/filesystem/ScopedFileSystem.h:97-154 | For every root and over any run, handles included, what the scope does not reach keeps file and bytes, and nothing appears there but missing ancestors of the root |
| ScopeIsolation.IsolationExactly | src/lumalink/platform/filesystem/ScopedFileSystem.h:97-154 | Every run of every client leaves alone all that is outside the scope if and only if the root's directory name does not end with a separator |
| ScopeIsolation.RemovalEscapes | src/lumalink/platform/filesystem/ScopedFileSystem.h:123-126 | For every other root, a world and a legal one-command run after which an entry outside is gone |
| ScopeIsolation.ParentCanBeMarked | src/lumalink/platform/filesystem/ScopedFileSystem.h:128-131 | A two-command run that turns the file above the scope into a directory |
| ScopeIsolation.KindCanBeFlipped | src/lumalink/platform/filesystem/ScopedFileSystem.h:97-131 | A legal three-command run that replaces an entry the scope can cut outside by one of the other kind |
| ScopeIsolation.KindsKeptExactly | src/lumalink/platform/filesystem/ScopedFileSystem.h:97-154 | For every root, every run keeps every kind outside if and only if no entry exists outside that the scope can cut, and its parent is no file or its root ends with a trailing or doubled separator |
| ScopedFileSystem.ScopedFileSystem.Exists | src/lumalink/platform/filesystem/ScopedFileSystem.h:97-100 | True exactly for a non-empty path whose names below the root are in the tree |
| ScopedFileSystem.ScopedFileSystem.Mkdir | src/lumalink/platform/filesystem/ScopedFileSystem.h:102-105 | Refuses the empty path, otherwise creates the translated one |
| ScopedFileSystem.ScopedFileSystem.Open | src/lumalink/platform/filesystem/ScopedFileSystem.h:107-121 | Opens the translated path and shows the handle, at position 0 and in the mode asked for, under the path of the scope |
| ScopedFileSystem.ScopedFile.Peek | src/lumalink/platform/filesystem/ScopedFileSystem.h:63-66 | Shows the inner handle's next bytes |
| ScopedFileSystem.ScopedFile.Read | src/lumalink/platform/filesystem/ScopedFileSystem.h:58-61 | Delivers the inner handle's next bytes and moves it on |
| ScopedFileSystem.ScopedFile.Write | src/lumalink/platform/filesystem/ScopedFileSystem.h:68-71 | Writes through the inner handle, which may refuse |
| ScopedFileSystem.ScopedFileSystem.Remove | src/lumalink/platform/filesystem/ScopedFileSystem.h:123-126 | Refuses the empty path, otherwise removes the translated one |
| ScopedFileSystem.ScopedFileSystem.Rename | src/lumalink/platform/filesystem/ScopedFileSystem.h:128-131 | Refuses empty paths, otherwise renames between the translated ones |
| ScopedFileSystem.ScopedFileSystem.List | src/lumalink/platform/filesystem/ScopedFileSystem.h:133-154 | The callback hears the inner listing entry by entry as the scope shows it, up to its first false answer |
| ScopedFileSystem.ScopedFileSystem.GetScoped | src/lumalink/platform/filesystem/ScopedFileSystem.h:155-169 | A scope in a scope exists exactly for an existing path and translates as both layers do |
| ScopedFileSystem.ExposedEntryIsLocal | src/lumalink/platform/filesystem/ScopedFileSystem.h:133-154 | Through a canonical scope entries have the name, path and kind they would have in a tree of their own |
| ScopedListing.ScopeShowsWhatExistsExactly | src/lumalink/platform/filesystem/ScopedFileSystem.h:133-154 | Through a canonical root, with files childless and no empty name, listing the scope shows exactly the canonical local paths its exists accepts, if and only if the scope is not on a file |
| ScopedListing.WillingCallbackHearsAll | src/lumalink/platform/filesystem/ScopedFileSystem.h:133-154 | A callback that never declines hears the whole listing |
| ScopedFileSystem.DeliverExposed | src/lumalink/platform/filesystem/ScopedFileSystem.h:133-154 | Translating inside the callback is translating the list |
| ScopedSession.ScopedSession.Open | src/lumalink/platform/filesystem/ScopedFileSystem.h:107-121 | Opening through the scope is the scoped step of the state machine |
| ScopedSession.ScopedSession.Execute | src/lumalink/platform/filesystem/ScopedFileSystem.h:97-131 | Each command on the real scope and its files has the reply and the state of the scoped step |
| ScopedSession.ScopedSession.ExecuteAll | src/lumalink/platform/filesystem/ScopedFileSystem.h:97-154 | So does each run, which leaves alone what the scope does not reach |
| Availability.ResultClasses | src/lumalink/platform/buffers/Availability.h:21-76 | A positive count, exhausted, temporarily unavailable and an error are four different reports; a count of zero bytes is exhausted |
| ByteStreamModel.ConsumeTakesPrefix | src/lumalink/platform/buffers/ByteStream.h:252-320 | Taking k bytes of any nesting takes exactly the first k off its one stream and keeps how it ends |
| ByteStreamModel.ConsumeTwice | src/lumalink/platform/buffers/ByteStream.h:252-320 | Reading in two steps is reading at once |
| ByteStreamModel.FrontIsPrefix | src/lumalink/platform/buffers/ByteStream.h:252-320 | What is counted and shown is a prefix of the stream, empty only with the stream; the number reported is the length of that prefix, and exhausted is reported exactly when nothing remains or can come |
| ByteStreamModel.ReportOfLeaf | src/lumalink/platform/buffers/ByteStream.h:176-222 | A span or a device reports the number of all the bytes it holds, or its idle report when it holds none |
| ByteStreamModel.ReportOfParts | src/lumalink/platform/buffers/ByteStream.h:252-320 | A concatenation reports and shows what its first part does that is not exhausted, be it a count, temporarily unavailable or an error, and reports exhausted when all are |
| ByteStreamModel.StreamOfParts | src/lumalink/platform/buffers/ByteStream.h:252-320 | The stream of a concatenation is that of its parts one after the other, up to the first that ends otherwise than exhausted |
| ByteStreamModel.ShownIsPrefix | src/lumalink/platform/buffers/ByteStream.h:157-169 | What a peek shows is a prefix of the stream that fits, empty only when nothing fits or nothing is there |
| ByteStreamModel.FlatteningIsInvisible | src/lumalink/platform/buffers/ByteStream.h:252-320 | A nested concatenation and the flat one over its leaves have the same stream, the same reports and the same bytes in front |
| ByteStreamModel.FlatteningShowsTheSame | src/lumalink/platform/buffers/ByteStream.h:252-320 | And every peek shows the same |
| ByteStreamModel.FlatteningSurvivesReads | src/lumalink/platform/buffers/ByteStream.h:252-320 | And stay so after any read |
| ByteStreamModel.ReadSizesDoNotMatter | src/lumalink/platform/buffers/ByteStream.h:97-126 | Any sequence of read sizes delivers the same bytes as one read of their sum |
| ByteStream.ByteSource.CurrentAvailability | src/lumalink/platform/buffers/ByteStream.h:252-320 | Skipping exhausted parts changes no part and reports the first other one |
| ByteStream.ByteSource.Concatenation | src/lumalink/platform/buffers/ByteStream.h:255-258 | A new concatenation owns exactly its parts, each as it was |
| ByteStream.ByteSource.Available | src/lumalink/platform/buffers/ByteStream.h:176-320 | A span or a device with bytes left reports exactly their number, without any its idle report; a concatenation passes on its first report that is not exhausted; nothing is consumed |
| ByteStream.ByteSource.Peek | src/lumalink/platform/buffers/ByteStream.h:134-320 | Fills the buffer with exactly what the source shows, as many bytes as a span has, one of a device, what its current part shows for a concatenation, and consumes nothing |
| ByteStream.ByteSource.Read | src/lumalink/platform/buffers/ByteStream.h:134-320 | Delivers exactly the first min(length, remaining) bytes of the stream in place, touches no other cell, and consumes just those |
| ByteStream.ByteSource.ReadByBytes | src/lumalink/platform/buffers/ByteStream.h:137-151 | The byte-wise loop delivers what the device holds, up to the length |
| ByteStream.ByteSource.ReadParts | src/lumalink/platform/buffers/ByteStream.h:252-320 | The loop over parts delivers the first bytes of the concatenated stream |
| ByteStream.ReadAsVector | src/lumalink/platform/buffers/ByteStream.h:97-126 | The chunked drain returns exactly the first min(maxLength, remaining) bytes and leaves the source there |
| Sockets.ClosedExactlyOnce | src/lumalink/platform/posix/PosixSocketTransport.h:225-266 | In a well-formed history each hand-out of a handle is matched by exactly one close, but for one of each handle still open |
| Sockets.SocketHandleOwner.Release | src/lumalink/platform/posix/PosixSocketTransport.h:250-254 | Gives the handle away without closing it |
| Sockets.SocketHandleOwner.Reset | src/lumalink/platform/posix/PosixSocketTransport.h:256-262 | Closes what was held, once, and nothing else, and holds the given handle, whatever it is |
| Sockets.SocketHandleOwner.MoveFrom | src/lumalink/platform/posix/PosixSocketTransport.h:237-242 | Takes the other's handle over, closes its own exactly once, leaves the other empty; moving to itself does nothing |
| Sockets.SocketHandleOwner.Destroy | src/lumalink/platform/posix/PosixSocketTransport.h:244-244 | Leaves nothing of the owner open |
| SocketPeerModel.InboundOverRuns | src/lumalink/platform/posix/PosixSocketTransport.h:530-642 | After any history the bytes delivered plus the unread rest are the datagrams taken, in order, and the sender shown is that of the last one with bytes |
| SocketPeerModel.ReadsStayWithinDatagrams | src/lumalink/platform/posix/PosixSocketTransport.h:570-642 | No read crosses a datagram boundary, and none is fetched while one is unread |
| SocketPeerModel.ParseAnswers | src/lumalink/platform/posix/PosixSocketTransport.h:570-607 | After every history parsePacket answers exhausted exactly when the peer is not open, with bytes unread the number taken less the number delivered, otherwise all bytes of the datagram taken, temporarily unavailable for nothing pending and a refusal worth retrying, or the error |
| SocketPeerModel.ReportAnswers | src/lumalink/platform/posix/PosixSocketTransport.h:609-615 | After every history available answers the number of bytes taken less those delivered or, with none unread, temporarily unavailable while open and exhausted otherwise |
| SocketPeerModel.OutboundExact | src/lumalink/platform/posix/PosixSocketTransport.h:540-568 | After any history a packet is open exactly when the last control event was a successful beginPacket, and it holds precisely the writes since |
| SocketPeerModel.SentExactly | src/lumalink/platform/posix/PosixSocketTransport.h:552-563 | What endPacket hands over is those writes, cut at INT_MAX, and nothing after a failed, missing or ended beginPacket |
| SocketPeerModel.OnePacketPerBegin | src/lumalink/platform/posix/PosixSocketTransport.h:540-563 | Over any history at most one packet is sent for each successful beginPacket |
| SocketPeer.PosixSocketPeer.Stop | src/lumalink/platform/posix/PosixSocketTransport.h:530-538 | Clears the peer and closes its handle, and no other |
| SocketPeer.PosixSocketPeer.OpenSocket | src/lumalink/platform/posix/PosixSocketTransport.h:645-675 | Succeeds exactly when the kernel refused no call, but possibly SO_REUSEADDR; then the one new handle held is bound to the port and non-blocking; otherwise none is left open |
| SocketPeer.PosixSocketPeer.BoundTo | src/lumalink/platform/posix/PosixSocketTransport.h:645-675 | The owner of one new handle, bound to the address and non-blocking, with no call refused, or null with the one that was made closed again |
| SocketPeer.PosixSocketPeer.BindTo | src/lumalink/platform/posix/PosixSocketTransport.h:645-675 | Asks for address reuse, whose refusal is ignored, for the address and for non-blocking, in this order; succeeds exactly when the last two are granted |
| SocketPeer.PosixSocketPeer.Begin | src/lumalink/platform/posix/PosixSocketTransport.h:508-508 | Is the begin event of the state machine, and succeeds exactly when the kernel refused no call, with a socket bound to the port and non-blocking |
| SocketPeer.PosixSocketPeer.BeginMulticast | src/lumalink/platform/posix/PosixSocketTransport.h:510-528 | Is the begin event too; succeeds exactly when the kernel refused no call, with the socket set up and the group joined; failing to join leaves the socket open and owned |
| SocketPeer.PosixSocketPeer.BeginPacket | src/lumalink/platform/posix/PosixSocketTransport.h:540-550 | Succeeds exactly with an open socket and a resolved address, and drops any unsent bytes |
| SocketPeer.PosixSocketPeer.Write | src/lumalink/platform/posix/PosixSocketTransport.h:565-568 | Accepts every byte and is the write event |
| SocketPeer.PosixSocketPeer.EndPacket | src/lumalink/platform/posix/PosixSocketTransport.h:552-563 | What reaches the kernel is what the history's trace gains, and an open packet is not sent only when the kernel refused it |
| SocketPeer.PosixSocketPeer.ParsePacket | src/lumalink/platform/posix/PosixSocketTransport.h:570-607 | Takes the datagram at the head of the queue whole, only with nothing unread; answers what the kernel's true answer amounts to, temporarily unavailable for EAGAIN, ETIMEDOUT and EINTR alone, and finds nothing only when no datagram with bytes is at the head or a call was refused |
| SocketPeer.PosixSocketPeer.Take | src/lumalink/platform/posix/PosixSocketTransport.h:586-607 | Receiving takes the datagram at the head whole with its sender, or nothing when the kernel refuses |
| SocketPeer.PosixSocketPeer.Available | src/lumalink/platform/posix/PosixSocketTransport.h:609-615 | The unread bytes, or whether more may come |
| SocketPeer.PosixSocketPeer.Peek | src/lumalink/platform/posix/PosixSocketTransport.h:628-636 | Fills the buffer with the first unread bytes and takes none |
| SocketPeer.PosixSocketPeer.Read | src/lumalink/platform/posix/PosixSocketTransport.h:617-626 | Delivers the first unread bytes and is the read event |
| SocketProcess.PosixSocketServer.Begin | src/lumalink/platform/posix/PosixSocketTransport.h:441-476 | Keeps a listening socket as it is; otherwise takes a new one, bound, listening and non-blocking with no call refused, or, only when the kernel refused a call, leaves none open |
| SocketProcess.PosixSocketServer.ListeningOn | src/lumalink/platform/posix/PosixSocketTransport.h:441-476 | The owner of one new handle, bound to the address, listening and non-blocking, or null with the one that was made closed again |
| SocketProcess.PosixSocketServer.Listen | src/lumalink/platform/posix/PosixSocketTransport.h:441-476 | Asks for address reuse, whose refusal is ignored, for the address, for listening and for non-blocking, in this order; succeeds exactly when the last three are granted |
| SocketProcess.PosixSocketServer.Accept | src/lumalink/platform/posix/PosixSocketTransport.h:425-439 | A client owning the one handle that was accepted, with no call refused, or null with none opened, which a listening server answers only when the kernel refused the call |
| SocketProcess.PosixSocketServer.End | src/lumalink/platform/posix/PosixSocketTransport.h:482-482 | Closes the listener's handle and no other |
| SocketProcess.CreateClient | src/lumalink/platform/posix/PosixSocketTransport.h:693-717 | A client owning the one handle that was opened, connected to the resolved address with no call refused, or, only when the kernel refused a call, null with none left open |
| SocketProcess.ConnectedTo | src/lumalink/platform/posix/PosixSocketTransport.h:706-714 | The owner of one new handle that was granted the connection, and asked nothing else, or null with the handle that was made closed again |
| SocketProcess.SocketProcess.OneOwnerEach | src/lumalink/platform/posix/PosixSocketTransport.h:225-266 | A handle is open exactly when the server, the peer or a client holds it, and no two hold the same |
| SocketProcess.SocketProcess.MoveClient | src/lumalink/platform/posix/PosixSocketTransport.h:237-242 | Between two owners of the process a move closes at most the target's handle, once, and keeps exactly one owner for each |
| SocketProcess.SocketProcess.HandOver | src/lumalink/platform/posix/PosixSocketTransport.h:234-235 | A release into a new owner opens and closes nothing and keeps exactly one owner for each |
| SocketProcess.SocketProcess.Exchange | src/lumalink/platform/posix/PosixSocketTransport.h:540-642 | Each packet call keeps the owners, adds its own event to the peer's history, and the kernel sends and gives just what the history's trace gains |
| SocketProcess.SocketProcess.BeginPeer | src/lumalink/platform/posix/PosixSocketTransport.h:508-508 | The peer's trace starts anew, what was sent stays, and a new socket has nothing queued |
| SocketProcess.SocketProcess.Deliver | src/lumalink/platform/posix/PosixSocketTransport.h:570-607 | A datagram for an open peer goes to the end of its queue and nowhere else |
| SocketProcess.SocketProcess.LedgerStep | src/lumalink/platform/posix/PosixSocketTransport.h:506-685 | No command loses or invents a sent packet or an arrived datagram |
| SocketProcess.SocketProcess.Execute | src/lumalink/platform/posix/PosixSocketTransport.h:427-717 | Every operation that opens, moves or closes handles, and every packet call, keeps that, whatever the kernel answers, does its work unless the kernel refused a call, and puts its one entry on the tape |
| SocketProcess.SocketProcess.ExecuteAll | src/lumalink/platform/posix/PosixSocketTransport.h:427-717 | So does every run: what was sent is what the calls on the peer amount to, and what arrived for the open peer is delivered, unread or still queued, in order |
| SocketProcess.SocketProcess.Shutdown | src/lumalink/platform/posix/PosixSocketTransport.h:225-266 | Stopping and destroying every object leaves nothing open and every handle ever handed out closed exactly once |

## Left out

- `lastWrite` timestamps, which come from the system clock.
- `size_t` overflow: sizes and positions are unbounded; a read length of SIZE_MAX is any number not smaller than the stream.
- The directory check of `MemoryFileSystem::getScoped`: a constructor call behind two tests; the scope it returns is modelled.
- Callbacks that change the file system while it is being listed; a callback here answers from what it has heard.
- A `SpanByteSource` over a null pointer with a non-zero size, and the capacity `ReadAsVector` reserves.
- Bytes that reach a byte-wise device between two calls: what it can deliver and how it ends is fixed when it is made, so `temporarily unavailable` is the end of what can be read now.
- Sources that own their bytes (`StdStringByteSource`, `VectorByteSource`): spans over their own storage. Foreign implementations of the interface: one class with three kinds stands for it.
- The kernel's side beyond the assumptions written into `Sockets.Kernel`: `FIONREAD` reports at least the size of the datagram at the head, `recvfrom` takes that datagram or fails, and `sendto` hands over all bytes or fails.
- Non-IPv4 group addresses in `beginMulticast` and an uninitialised socket runtime: both are early failures like an address that does not resolve.
- The TCP client's reading, writing, timeouts and end-point strings: thin wrappers over system calls; only who owns its handle is modelled.
- Extension helpers in `PathUtility`: their round trips hold only with several side conditions.
- Windows, Arduino and POSIX file systems and the Windows transport: foreign enumeration and system calls, or the same logic again.
- Clocks, factories, synchronisers and the transport traits.
