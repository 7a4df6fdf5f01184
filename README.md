# Filename romanizer, modelled in Dafny

The program scans a directory tree whose file names are written in Arabic script
and gives every visible entry a Latin transliteration of its name. It then renames
in place the entries its scan reached, starting from the entries of the scanned
directory. It skips an entry whose new name clashes with the new name of a sibling
in the same `children` list. That check sees only scanned, visible siblings, and
the entries of the scanned directory itself are nobody's children, so they are
never checked. The rename does not reach:

- the contents of a macOS package;
- entries under a listing that failed.

A root directory whose listing failed stops the rename with a `KeyError`. This
project models the program's core, `main.py`, in four parts:

- **The transliteration.** The model covers `letter_map`, `vowels`, `long_vowels`,
  `long_vowel_to_short` and `romanize`. `romanize` is a left-to-right transducer
  with one symbol of look-behind for AYN.
  - It is written twice. `Romanizer.Romanize` is a fold of `Step` over the text.
  - `Romanizer.RomanizeWith` is the loop as the source writes it, and is proved
    equal to the fold.
- **The visibility filter.** `fileVisible` becomes `Visibility.FileVisible`.
- **`traverse_files`.** The file system is a finite tree of entries
  (`FileSystem.FsEntry`). Every listing in it says which entries it yields and
  whether it raises. The macOS package test becomes a probe outcome per entry.
  - The Python dictionaries are shared by reference. They become records in an
    arena (`seq<FileRecord>`) addressed by index.
  - Pass 1 is the breadth-first queue: `Scan.CollectRoots`, `Scan.ListInto` and
    `Scan.Drain`.
  - Pass 2 is the depth-first stack that stores children and flags duplicate
    romanized names: `Assemble.AssembleTree`, `Assemble.Visit`,
    `Assemble.FlagDuplicates`, `Assemble.FindDuplicates` and
    `Assemble.MarkConflicts`.
  - `Traverse.TraverseFiles` runs both passes.
- **`doRename` and the "Rename All" action.** `doRename` is the recursive walk
  `Rename.Walk`, written as the method `Rename.DoRename`. It produces the log of
  `os.renames` calls it would make. It also records why it stopped early, if it
  did: a record without a `children` key (a `KeyError`), or a romanized name that
  `with_name` refuses (a `ValueError`).

The main results:

- The scan records the visible entries whose probe answers, in breadth-first
  order. A raising probe ends that listing.
- Pass 2 visits in depth-first preorder and flags exactly the children whose
  romanized name occurs twice among their siblings.
- The rename walk never renames an entry after its directory.
- The rename walk renames only unflagged entries. Each target is the source path with its last segment replaced by the romanized name (a textual fact; see `RenameFacts.WalkSources` under Left out for the name "..").
- If the walk does not stop early, it renames every unflagged entry it reaches. Entries inside a macOS package and entries listed under a failed listing are never reached.
- `RenameFacts.WalkTargetsApart`: when every stored children list is unclashed and so is the list the walk starts from, no two renames of the whole walk share a target. Pass 2 guarantees the first condition (`Traverse.AssembledClashFree`). The code as written does not guarantee the second for the root files.
- At the root the program has no such check. The model shows the resulting
  collision in a concrete case (see Findings) and proves the corrected
  "Rename All" collision-free.

## Model

| member | source | states |
|---|---|---|
| Romanizer.TableEntries | main.py:94-166 | every `letter_map` key lies in the Arabic block and maps to at most two printable ASCII symbols, none of them '/' |
| Romanizer.VowelEntries | main.py:95-126 | ALF and FATHA map to "a", DHAMMA to "u", KASRA to "i", AYN to "a" |
| Romanizer.LettersWellFormed | main.py:86-166 | every replacement is at most two symbols (at most one for those emitted after AYN); no replacement contains a key of the table or '/'; AYN and the vowels emitted for it have non-empty entries |
| Romanizer.RomanizeWith | main.py:170-196 | the loop with `previous_ayn` computes the fold of one step per symbol, followed by the end-of-input rule for a pending AYN |
| Romanizer.RomanizeName | main.py:170-196 | `romanize` over `letter_map` equals `Romanize` |
| Romanizer.FeedConcat | main.py:173-190 | feeding `s + u` is feeding `s` and then `u` from the state reached |
| Romanizer.PendingAfterOddAyns | main.py:175-188 | an AYN is pending after `s` exactly when `s` ends in an odd number of AYNs |
| Romanizer.NoAynIsLookup | main.py:190 | text without AYN romanizes to the concatenation of `letter_map.get(c, c)` over its symbols |
| Romanizer.UnmappedUnchanged | main.py:190 | text whose symbols are all outside `letter_map` is returned unchanged |
| Romanizer.SingleSymbol | main.py:170-196 | a lone AYN gives "a"; any other single symbol gives its lookup |
| Romanizer.AynThen | main.py:180-190 | AYN then `c`: before a long vowel it gives that vowel's short mark; before a short vowel it gives nothing; otherwise it gives "a"; `c` is then looked up |
| Romanizer.AynBeforeShortVowel | main.py:184-186 | AYN before FATHA gives "a", not "aa" |
| Romanizer.AynBeforeLongVowels | main.py:182-183 | AYN before WAW, ALF or YAA gives "uw", "aa" or "iy" |
| Romanizer.AynBeforeConsonant | main.py:185-186 | AYN before BAA gives "ab"; AYN before AYN gives "aa" |
| Romanizer.AynSurfacesWith | main.py:192-194 | text containing AYN never romanizes to "" |
| Romanizer.RomanizeConcat | main.py:170-196 | when no AYN is pending after `s`, `romanize(s + u) == romanize(s) + romanize(u)` |
| Romanizer.LengthBound | main.py:170-196 | the output is at most twice as long as the input |
| Romanizer.OutputSymbols | main.py:170-196 | no output symbol is a key of `letter_map`; a name without '/' romanizes to one without '/' |
| Romanizer.Idempotent | main.py:170-196 | romanizing twice gives the same as romanizing once |
| Romanizer.EmptyExactlyWhenSilent | main.py:170-196 | the result is "" exactly when every symbol has the empty replacement |
| Romanizer.SilentExample | main.py:170-196 | HAMZA, SUKOON, TATWEEL romanizes to "" |
| Paths.RFind | main.py:213 | `str.rfind`: -1 exactly when the symbol is absent; otherwise the index of its last occurrence |
| Paths.WithNameJoin | main.py:477 | `with_name` on `dir/name` keeps `dir` and replaces `name` |
| Visibility.FileVisible | main.py:208-215 | an entry is hidden exactly when it is `.DS_Store` on macOS, or, on POSIX, its only '.' is its first symbol |
| Visibility.DotNames | main.py:212-214 | on POSIX `.a.b` and `a.b` stay visible and `.a` is hidden; on macOS `.DS_Store` is hidden |
| Scan.OffMacNothingSkipped | main.py:203-205 | off macOS the package test never raises: every visible root entry gets a record that is not a package, and a listing completes exactly when it does not raise, with a non-package record for every visible entry |
| Scan.RootRecordsFacts | main.py:229-244 | each root record stands for a visible entry of the directory whose probe answered, and every such entry has its record |
| Scan.CollectRoots | main.py:227-244 | `None` exactly when iterating the directory raises; otherwise the root records of the visible entries whose probe answered, in listing order |
| Scan.ListingMembers | main.py:256-269 | each record a listing appends stands for a visible entry of the listing whose probe answered, with the lister as its parent |
| Scan.ListingCompletes | main.py:256-275 | a listing runs to its end exactly when no visible entry's probe raises, and then every such entry has its record |
| Scan.ExpandFacts | main.py:253-275 | only a directory that is not a symbolic link appends records; they stand for visible entries with distinct names; the record goes into `all_files` exactly when its listing and every probe succeed |
| Scan.PackagesStillListed | main.py:255 | the first pass lists a package directory exactly as any other directory |
| Scan.StoppedStaysStopped | main.py:253-278 | once a probe raises, the rest of that listing appends nothing |
| Scan.Completed | main.py:271 | `all_files` holds exactly the records whose listing completed, each once, in the order they were dequeued |
| Scan.AddedSound | main.py:260-267 | every record a listing appends is sound, and its `parent` is the lister's `parent + '/' + name` |
| Scan.ListInto | main.py:255-269 | one listing appends the records of `Expand` to the arena and their indices to the back of the queue |
| Scan.Drain | main.py:247-278 | the final arena is the roots followed by everything the listings produce; `all_files` holds exactly the completed records, in queue order; every record is sound and keys are unique |
| Scan.ExpandShaped | main.py:260-269 | listing a record keeps every record sound and every key unique |
| Scan.ExpandWeight | main.py:250-278 | a listing appends strictly less than the tree it lists, so the queue drains |
| Assemble.Select | main.py:293-294 | exactly the records of `all_files` whose `parent` equals the key |
| Assemble.ReverseReverse | main.py:292 | reversing a children list twice restores it |
| Assemble.ReverseMembers | main.py:292 | reversing keeps exactly the same members |
| Assemble.FindDuplicates | main.py:303-310 | `duplicate_set` holds exactly the romanized names occurring at least twice among the children |
| Assemble.Flagged | main.py:312 | the children whose romanized name is in the duplicate set, and no others |
| Assemble.MarkConflicts | main.py:313-314 | every listed record gets its flag set; nothing else changes |
| Assemble.FlagDuplicates | main.py:302-314 | after one visit, the flags and the `conflicts` list cover exactly the duplicated children of the records visited |
| Assemble.Visit | main.py:285-314 | one turn pops the last record, stores its children (none for a package), pushes them and flags duplicates |
| Assemble.AssembleTree | main.py:283-314 | records are visited in depth-first preorder from the root records of `all_files`; each visited record stores its children; exactly the duplicated children are flagged; nothing else changes |
| AssembleFacts.StoredLists | main.py:288-297 | a visited package stores no children; any other visited record stores, in reverse discovery order, exactly the completed records whose parent is its key |
| AssembleFacts.ConflictsExact | main.py:302-314 | a child's flag is set exactly when it shares its romanized name with a sibling |
| AssembleFacts.RootsNeverFlagged | main.py:283-314 | pass 2 never changes the flag of a root record |
| AssembleFacts.CountTwice | main.py:305-310 | two positions with the same romanized name make that name a duplicate |
| Traverse.AssembledTree | main.py:283-300 | the stored children lists form a tree whose children are entries of their lister's directory with distinct names |
| Traverse.AssembledClashFree | main.py:302-314 | in every stored children list, no two unflagged children share a romanized name |
| Traverse.AssembledPlaced | main.py:241-266 | every record's path is its directory joined with its name; its romanized name has no '/' |
| Traverse.Walkable | main.py:219-313 | the records `traverse_files` leaves form a tree the rename walk can work on; the root files are the entries of the scanned directory |
| Traverse.TraverseFiles | main.py:219-335 | `None` exactly when iterating the scanned directory raises; otherwise both passes ran and their records satisfy everything above |
| Rename.DoRename | main.py:472-479 | the recursive loop makes exactly the renames of `Walk`, in the same order, and stops where `Walk` stops |
| RenameFacts.WalkPrefix | main.py:472-479 | the log is a prefix of the post-order renames of the unflagged records; it is all of them when the walk does not stop |
| RenameFacts.WalkOrdered | main.py:473-479 | no path is renamed after a rename of that path or of a directory holding it |
| RenameFacts.WalkSources | main.py:476-479 | every rename is of an unflagged record the walk reached, to its romanized name under the same directory part of the path text |
| RenameFacts.WalkSkipsFlagged | main.py:478 | no flagged record is ever renamed |
| RenameFacts.WalkComplete | main.py:472-479 | a walk that does not stop renames every unflagged record it reaches |
| RenameFacts.WalkSafe | main.py:472-479 | on a family of entries, the walk is ordered, stays within each directory, skips flagged records and is complete unless it stops |
| RenameFacts.RenameBeside | main.py:476-477 | as text, a rename target is the source's directory part joined with the romanized name |
| RenameFacts.LandsApart | main.py:302-314 | two siblings with different names, not both unflagged with the same romanized name, never land on the same target |
| RenameFacts.PostTargets | main.py:472-479 | on a family with no unflagged clash at any level, the post-order renames have distinct targets, each belonging to one member |
| RenameFacts.WalkTargetsApart | main.py:472-479 | if the top-level records are unclashed too, no two renames of the walk share a target |
| Traverse.FlagRootDuplicates | main.py:303-314 | the duplicate check of pass 2, run on the root files: exactly the root files that share a romanized name are flagged, and no two unflagged root files clash |
| Traverse.MarkedWalk | main.py:472-479 | after the root check, the walk is safe and no two renames share a target |
| Traverse.RenameAll | main.py:461-470 | "Rename All": scan, flag colliding root files, then `doRename` on the root files; the walk is safe and its targets are distinct |
| Collision.OnlyRoots | main.py:247-278 | when no root is a directory, the scan makes the root records and nothing else |
| Collision.CollidingWalk | main.py:472-479 | two unflagged leaves whose names romanize alike are renamed to the same target |
| Collision.SameTarget | main.py:283-314 | as written, a directory with two files whose names romanize alike gets two renames to one target |
| Collision.AlikeNames | main.py:99-102 | HAA and HHA are different letters that both romanize to "h" |
| Collision.HaaHhaCollide | main.py:283-314 | as written, files named HAA and HHA in `d` are both renamed to `d/h` |
| Collision.HiddenSiblingTarget | main.py:476-479 | a name of HAMZA followed by ".a" is visible on POSIX but romanizes to the hidden name ".a", which is not refused; its target is `d/.a`, a sibling the scan never recorded and so never compared |
| Collision.DotDotTarget | main.py:476-477 | a name of HAMZA followed by ".." is visible on POSIX, romanizes to "..", is not refused, and its target is `d/..` |

## Left out

- The Qt window, its tree widget, the labels and `fileToTreeItem` are not modelled. They only display the records. The confirmation dialog of `startRename` is reduced to its "Yes" branch.
- The watchdog observer and the tick timer are not modelled. They only schedule `traverse_files` again: a tick rescans when a change was seen and no scan is running.
- Real file system I/O is not modelled: `os.scandir`, `os.renames`, `pathlib`, `DirEntry.is_dir` and `DirEntry.is_symlink`. The file system is an immutable value. `is_dir` and `is_symlink` are stored flags that never raise. `os.renames` is recorded in a log and always succeeds, and so does the creation of missing parent directories.
- `fileIsMacosPackage` is not called: the extended-attribute lookup is replaced by a per-entry probe outcome (answer or `OSError`).
- The file-tree printing is not modelled: it is switched off in the source and does no work.
- The default root path (the script's own directory) is not modelled. The root path is a parameter.
- The result of `traverse_files` reaches `rootFiles` through the GUI code. That hand-over is not modelled; `Traverse.RenameAll` connects the two directly.
- `PurePath.with_name` refusal is modelled only for the names `""` and `"."`. Those are the only refused names `romanize` can produce from a name without '/'.
- Traverse.TraverseFiles: requires that every listing yields distinct names that are path segments (`WellFormedListing`), as a real file system does. The model does not handle listings that break this.
- Traverse.RenameAll: includes the root-level duplicate check described under Findings, so it models the evidently intended "Rename All" rather than the code as written. The as-written behaviour is `Traverse.TraverseFiles` followed by `Rename.DoRename` on the root files; `Collision.SameTarget` covers it.
- A directory record is appended to `all_files` only after its listing runs to its end (main.py:271). So a record whose listing raises is missing from `all_files` and gets no place in pass 2. The records already listed under it stay queued, but pass 2 never reaches them.
- A root file whose listing failed gets no `children` key. `doRename` then raises `KeyError` on it, which the model records as `MissingChildren`.
- RenameFacts.WalkSources and RenameFacts.RenameBeside: targets are path text. A romanized name ".." is not refused by `with_name`, so such a target names the parent of the entry's directory, not an entry beside it. `Collision.DotDotTarget` shows such a name. What `os.renames` then does is not modelled.
- Names holding bytes that do not decode are not modelled. On POSIX, Python turns such bytes into lone surrogates (U+DC80 to U+DCFF), which a Dafny `char` cannot hold. `romanize` would pass them through unchanged, and no proof depends on them.
- A trailing '/' in the root path is not modelled: paths are built with a single '/' between the root path and each name.
- Path text always uses '/' as its separator, on every `Platform`. On a system that is not POSIX, `DirEntry.path` and `with_name` use `\` instead; that path text is not modelled.

## Findings

| source | as written | input that shows it | evidently intended | confidence | as-written member | corrected member |
|---|---|---|---|---|---|---|
| main.py:283-314 | pass 2 looks for duplicate romanized names only among each record's children, and the root files are nobody's children, so root files that romanize alike are never flagged and `doRename` moves them all to one path, the last rename replacing the files moved before it | a directory holding two plain files named HAA (U+0647) and HHA (U+062D); both romanize to "h" and both are renamed to `<dir>/h` | root files that romanize alike are flagged like any other colliding siblings, so no two renames share a target | not executed | Collision.HaaHhaCollide | Traverse.FlagRootDuplicates |
