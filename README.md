# FileServerBot, modelled in Dafny

FileServerBot is a Telegram bot that lets its allowed users explore the
machine it runs on. Users can list, walk, search and download files, and
remove files or stop processes after confirming. It is a single Python class
in `server.py`. Its handlers share one session state: the current directory
and a table of bookmarked directories.

This project models the sequential core of those handlers. The filesystem is
replaced by an abstract tree (`FileTree.Node`: directories with their
entries in listing order, regular files with their size and text lines, and
other entries such as FIFOs).

Each handler becomes one of these, and the model proves what the handler
promises:
- a function from its inputs (the tree, the current directory, the command
  arguments) to a reply value, or
- a method over the session object.

Modules:

- `Text`, `Numbers`: Python's `split`, `join`, `lower`, `strip` and `in`, plus `int()` and `str()`.
- `Paths`: POSIX paths as lists of components, with `os.path.abspath` and `os.path.join`.
- `FileTree`: the tree and path lookup.
- `Traversal`: `os.walk`.
- `Sorting`: a stable insertion sort, used for `sorted`/`list.sort`.
- `Listing`: `/ls`.
- `Messages`: Markdown escaping, 4000-character chunking, and the `tail`/`cat` slices.
- `TreeView`: `/tree`.
- `Search`: `/find`, `/search` and `/getzip`.
- `Viewing`: `/cat` and `/tail`.
- `Confirm`: the `/rm` and `/kill` confirmation buttons.
- `Session`: `/cd`, `/up`, `/bookmark` and `/pwd` as state transitions.
- `Bot`: the class `FileServerBot`. Its fields `currentDir` and `bookmarks` are changed by its methods. Every command passes the `check_auth` gate.

In these places the code does something a reader may not expect; the model
follows the code:
- `/up` at `/` reports success and stays at `/`.
- `/tree` sorts entries by name only; directories are not placed first.
- `/getzip` names archive entries relative to the folder itself.
- `/getzip <arg>` writes the archive to `<arg>.zip` joined onto the current directory: `/getzip /x` writes `/x.zip`, and `/getzip name/` writes `name/.zip` inside the folder itself.
- `/bookmark go` checks only that the saved path exists, not that it is a directory.
- The confirmation buttons carry the pending action in their callback data. No registry of requests is kept.
- The `rm` path is resolved again against the current directory at the moment the button is pressed.
- `/cat`, `/tail`, `/rm` and `/getzip` test the joined text without `abspath`, so a name followed by `/` is found only when it is a directory.

## Model

| member | source | states |
|---|---|---|
| Text.Split | server.py:735 | `str.split(sep)` always gives at least one part |
| Text.SplitAround | server.py:735 | splitting `a + sep + b` where `a` lacks `sep` gives `[a]` followed by the parts of `b` |
| Text.JoinSplit | server.py:735 | `d.join(s.split(c))` replaces every `c` of `s` with `d` |
| Text.SplitJoin | server.py:735 | splitting a join of parts free of the separator gives the parts back |
| Text.Lower | server.py:892 | `lower()` keeps the length and lowers each character |
| Text.Strip | server.py:939 | `strip()` gives the slice of the line between its leading and its trailing whitespace, whitespace being what `str.isspace` accepts; the result neither begins nor ends with whitespace |
| Text.LexLeTotal | server.py:172 | Python's string `<=` is total |
| Text.LexLeTransitive | server.py:172 | Python's string `<=` is transitive |
| Numbers.IntRoundTrip | server.py:591 | `int(str(pid)) == pid` for every integer, negative ones included |
| Numbers.IntToStringHasNoUnderscore | server.py:591 | the text of an integer contains no `_`, so it survives `split('_')` |
| Paths.Parent | server.py:227 | `Path(p).parent` drops the last component; the root is its own parent |
| Paths.AbsPathIsNormal | server.py:318 | `abspath` never leaves an empty, `.` or `..` component |
| Paths.AbsPathRender | server.py:318 | `abspath` of the text of a normal path gives that path back |
| Paths.AbsPathIdempotent | server.py:318 | `abspath` is idempotent |
| Paths.AbsPathOfJoin | server.py:316-318 | `abspath(join(dir, token))` is the token's components applied one by one to `dir` |
| Paths.Joined | server.py:736 | joining an absolute token onto any directory gives `abspath` of the token alone |
| Paths.JoinedName | server.py:736 | joining a plain name onto a directory gives that directory's child |
| Paths.SlashedArchive | server.py:481-482 | the archive of `/getzip name/` is `name/.zip`, a child of the folder being archived |
| Paths.SlashedName | server.py:613-615 | a name followed by `/` is joined onto the same child as the name, but names a directory only |
| FileTree.Child | server.py:141 | an entry is found by name exactly when the directory lists that name, and it is that listed entry |
| FileTree.LookupWellFormed | server.py:140 | every node of a well-formed tree is well formed |
| FileTree.SlashedExists | server.py:615 | `exists` on `<dir>/<name>/` holds exactly for a directory called name; without the slash, for any entry called name |
| Traversal.Partitioned | server.py:930 | `os.walk` puts every directory entry in `dirs` and every other entry in `files` |
| Traversal.PartitionSizes | server.py:337-338 | `dirs` and `files` together count every entry once |
| Traversal.WalkSound | server.py:895 | every triple of the walk is a directory reached through listable directories, with exactly its `dirs` and `files` |
| Traversal.WalkComplete | server.py:895 | every directory reached through listable directories gets its triple |
| Traversal.WalkExact | server.py:895 | a triple is in the walk iff it is one of those directories and lists it exactly |
| Traversal.ListedEntry | server.py:896-899 | an entry is listed in a walked directory iff looking up its path finds that node |
| Sorting.SortSorts | server.py:172 | the sort orders its result for a total, transitive `<=` |
| Sorting.SortPermutes | server.py:172 | the sort is a permutation of its input |
| Listing.Inspect | server.py:144-170 | the item keeps the entry's name, and it is a directory item exactly when the entry is not a regular file |
| Listing.ListDirectory | server.py:140-172 | the loop's items and total are the per-entry items sorted by the key, and the counted sizes |
| Listing.InspectAll | server.py:140-170 | the loop over the directory gives one item per entry, in listing order, and the total of the sizes it could read |
| Listing.ListingOrder | server.py:172 | directories come before everything else, and each group is ordered by lower-cased name |
| Listing.ListingNames | server.py:140-172 | the listing has every listed name as often as the directory has it |
| Listing.ListingNamesOnce | server.py:140-172 | in a well-formed tree every name of the directory appears exactly once, and no other name appears |
| Listing.TotalIsFileSizes | server.py:144-170 | the total is the sum of the sizes of the file items, whatever the order, plus the sizes of the files shown as errors because `getmtime` failed after `getsize` succeeded |
| Listing.TimeFailureStillCounted | server.py:144-170 | in any directory, a file whose `getmtime` fails is shown as an error item, yet its size is in the total on top of the shown file sizes |
| Messages.EscapeLength | server.py:193-195 | escaping adds one backslash per `_`, `*`, `` ` `` or `\|` |
| Messages.UnescapeEscape | server.py:193-195 | text without backslashes is recovered from its escaped form |
| Messages.EscapedSpecialsArePreceded | server.py:193-195 | every special character of the escaped text follows a backslash |
| Messages.PiecesSplit | server.py:180-182 | the chunks concatenate to the message; each has 1 to 4000 characters; all but the last have 4000; there are ⌈n/4000⌉ of them |
| Messages.RepliesSplit | server.py:180-184 | nothing is lost; no chunk exceeds 4000 characters; a short message is sent as it is |
| Messages.SendChunks | server.py:285-289 | the sending loop sends exactly the chunks |
| Messages.LastLines | server.py:659 | `lines[-10:]` has min(10, n) lines and is the end of the list |
| Messages.TailIsSuffix | server.py:655-659 | the tail text is the end of the file's text |
| Messages.CatText | server.py:624 | `read(1000)` gives the first min(1000, n) characters of the text |
| TreeView.Children | server.py:274 | a directory's children are drawn only from its own entries |
| TreeView.ChildrenSorted | server.py:274 | the children are the globbed entries, sorted by name |
| TreeView.AddTree | server.py:270-280 | the recursive `add_tree` appends exactly the rendered rows of the tree |
| TreeView.AddChild | server.py:275-280 | one loop iteration appends the child's line, then its subtree when it is a directory |
| TreeView.Tree | server.py:260-289 | a non-integer depth is rejected; otherwise the header and rows are joined and sent in chunks |
| TreeView.TreeLines | server.py:268 | the first line is the header with the current directory |
| TreeView.OnlyHeader | server.py:271-272 | a depth of at most 0 gives only the header |
| TreeView.RowsShaped | server.py:270-280 | no row is deeper than the maximum, and a row's prefix extends its caller's by 4 characters per level |
| TreeView.TreeRowsShaped | server.py:270-282 | every row has depth 1 to max, with a prefix of 4·(depth−1) characters |
| TreeView.TopLevelRows | server.py:274-278 | the lines of one level are the sorted children in order; only the last gets `└── `, the others `├── ` |
| TreeView.SubtreeFollowsChild | server.py:279-280 | a directory's subtree follows its line; its prefix is extended by `"    "` after the last child, `"│   "` otherwise |
| Search.FindExact | server.py:895-899 | `/find` reports exactly the entries below the directory whose lower-cased name contains the term, marked as directories exactly when they are |
| Search.FindByName | server.py:895-899 | the nested walk loops collect exactly those hits, in walk order |
| Search.FindInEntries | server.py:896-899 | the inner loop over `dirs + files` of one directory keeps exactly the matching names, with their relative paths |
| Search.Find | server.py:887-905 | no arguments gives the usage reply; no hits gives the not-found reply; otherwise one line per hit |
| Search.SplitExt | server.py:932 | `splitext` gives the suffix from the last dot, which is non-empty exactly when some non-dot character comes before some dot |
| Search.LineMatchesExact | server.py:936-939 | a reported line is exactly a line containing the text, numbered from 1 |
| Search.LineMatchesAscend | server.py:936-939 | the line numbers of one file increase |
| Search.SearchSound | server.py:930-941 | every reported line is from a readable text file with an allowed extension, below the directory |
| Search.SearchComplete | server.py:930-941 | every such line is reported |
| Search.SearchExact | server.py:928-941 | `/search` reports exactly the expected lines; unreadable or undecodable files count for nothing |
| Search.ScanLines | server.py:936-939 | the loop over one file's lines collects exactly its matches |
| Search.ScanFiles | server.py:931-941 | the loop over one directory's files collects exactly their matches |
| Search.SearchContent | server.py:930-941 | the walk loop collects exactly the matches of every file of the walk |
| Search.Shown | server.py:945 | at most 20 results are shown, and they are the first ones |
| Search.SearchText | server.py:920-955 | no arguments gives the usage reply; otherwise the message is built from all matches and sent in chunks |
| Search.ZipExact | server.py:488-491 | the archive names exactly the non-directories below the folder, by their paths relative to it |
| Search.WriteArchive | server.py:487-491 | the write loop stores every file's relative name, or fails at the first file it cannot read |
| Search.WriteFiles | server.py:489-491 | the inner loop over one directory's files writes each relative name in order, or fails when a file cannot be read |
| Search.GetZip | server.py:469-491 | usage and missing-folder replies, the folder found on the joined text; the archive is `<arg>.zip` joined onto the current directory, with the relative names |
| Viewing.Open | server.py:607-621 | usage exactly without arguments; not-found exactly when the joined text does not exist; not-a-file, unreadable and readable exactly as the target is a regular file that opens and decodes; a readable file gives its lines |
| Viewing.Cat | server.py:603-628 | `/cat` shows exactly the readable text files; what it shows is a prefix of the file's text of min(1000, n) characters; other cases get their refusal |
| Viewing.Tail | server.py:635-662 | `/tail` shows exactly the readable text files; what it shows is the end of the file's text, its last 10 lines; other cases get their refusal |
| Viewing.ShortFilesWhole | server.py:624-659 | a short file is shown whole |
| Viewing.SlashedFileMissing | server.py:613-617 | `/cat name/` and `/tail name/` on a regular file report that it does not exist |
| Confirm.RemoveRequest | server.py:695-711 | usage exactly without arguments; not-found exactly when the joined text does not exist; otherwise the question for the joined path, marked as a directory exactly when it is one, with data `rm_yes_<path>` and `rm_no` |
| Confirm.RemoveCallback | server.py:730-741 | `rm_no` and only it cancels; otherwise the path decoded from the data and joined onto the current directory when pressed gets `rmtree` when it is a directory, `remove` when it exists otherwise, and fails when it does not exist |
| Confirm.RmTargetOfButton | server.py:735 | decoding `rm_yes_<path>` gives the path with every `_` turned into a space |
| Confirm.RmRoundTrip | server.py:735 | the decoded path is the offered one iff it contains no `_` |
| Confirm.RmResolvedAtCallback | server.py:735-736 | a name is resolved against the directory current at callback time, which differs from request time if `/cd` ran in between |
| Confirm.RmBareTargetsCurrent | server.py:735-736 | data `rm_yes` with nothing after it targets the current directory itself |
| Confirm.RmSlashedFile | server.py:700-704 | `/rm name/` on a regular file reports that it does not exist, and a button carrying `name/` fails |
| Confirm.KillRequest | server.py:549-576 | usage exactly without arguments; the bad-PID reply exactly when `int()` fails or the PID is negative; not-found exactly for a PID that is not alive; otherwise the button for that live PID, with data `kill_yes_<pid>` and `kill_no` |
| Confirm.KillCallback | server.py:586-595 | `kill_no` and only it cancels; a live, non-negative PID decoded from the data is terminated, and nothing else is |
| Confirm.KillRoundTrip | server.py:591 | `kill_yes_<pid>` decodes back to the same integer |
| Confirm.KillConfirmed | server.py:586-595 | pressing Yes terminates the offered process if it is still alive; pressing No cancels |
| Session.Resolve | server.py:309-318 | `..` gives the parent, `~`/`$HOME` the home directory, and anything else the token's components from the current directory; the result is always normal |
| Session.ResolveAbsolute | server.py:312-318 | an absolute token does not depend on the current directory |
| Session.ResolveName | server.py:316-318 | a plain name gives that child of the current directory |
| Session.Cd | server.py:303-340 | usage without arguments; distinct missing, not-directory and no-permission replies; a change exactly to a listable target; the counts of directories and other entries |
| Session.AfterCd | server.py:334 | the directory changes only on success |
| Session.Up | server.py:227-231 | moves to the parent exactly when it exists and is readable; one level up; stays at `/` when at `/` |
| Session.AfterUp | server.py:230-231 | the directory changes only when `/up` moves |
| Session.UpLandsListable | server.py:227-231 | from an existing directory, `/up` only reaches a listable directory |
| Session.UpAtRoot | server.py:227-231 | at `/`, `/up` succeeds and stays at `/` |
| Session.UpAgreesWithCdParent | server.py:227-231 | where `/cd ..` succeeds, `/up` reaches the same directory |
| Session.Bookmark | server.py:355-407 | `add` overwrites the name with the current directory; `del` removes exactly that key or reports not-found; `go` moves only to a saved path that exists and never edits the table; only `go` moves and only `add`/`del` edit |
| Session.BookmarkKeepsNormal | server.py:362-393 | the directory and the saved paths stay normal paths |
| Session.AddThenGo | server.py:362-393 | `add` then `go` with the same name returns to the directory of the `add` |
| Session.DelKeepsOthers | server.py:395-401 | `del` preserves every other bookmark |
| Session.Pwd | server.py:202-208 | the path and its parent are absolute texts that `abspath` reads back as the current directory and its parent; the base name is the last component, empty at `/` |
| Session.PwdJoins | server.py:202-208 | below `/`, joining the parent and the base name gives the path |
| Bot.FileServerBot.constructor | server.py:20-27 | no allow-list means an empty one; the bookmarks are the saved ones, or none |
| Bot.FileServerBot.AuthorizedExactly | server.py:77-83 | `check_auth`: an empty allow-list admits every user; otherwise exactly the listed users |
| Bot.FileServerBot.ChangeDirectory | server.py:298-340 | access check, then the `/cd` transition on `currentDir`; bookmarks unchanged |
| Bot.FileServerBot.UpDirectory | server.py:223-248 | access check, then the `/up` transition; bookmarks unchanged |
| Bot.FileServerBot.BookmarkHandler | server.py:351-407 | access check, then the bookmark transition on both fields |
| Bot.FileServerBot.PrintWorkingDirectory | server.py:197-208 | access check, then the `/pwd` reply |
| Bot.FileServerBot.ListDirectory | server.py:132-172 | access check, then the listing of the current directory |
| Bot.FileServerBot.Tree | server.py:255-289 | access check, then the tree of the current directory |
| Bot.FileServerBot.SearchFiles | server.py:883-905 | access check, then `/find` below the current directory |
| Bot.FileServerBot.SearchContent | server.py:916-955 | access check, then `/search` below the current directory |
| Bot.FileServerBot.GetZip | server.py:465-491 | access check, then `/getzip` relative to the current directory |
| Bot.FileServerBot.CatFile | server.py:603-628 | access check, then `/cat` |
| Bot.FileServerBot.TailFile | server.py:635-662 | access check, then `/tail` |
| Bot.FileServerBot.RemoveItem | server.py:691-719 | access check, then the `/rm` confirmation |
| Bot.FileServerBot.RemoveItemCallback | server.py:726-741 | no access check; decoded against the directory current now |
| Bot.FileServerBot.KillProcess | server.py:545-576 | access check, then the `/kill` confirmation |
| Bot.FileServerBot.KillProcessCallback | server.py:582-595 | no access check; decoded from the data alone |

## Left out

- Telegram transport is not modelled: `reply_text`, `edit_message_text`, `reply_document`, keyboards and `async`. Handlers return reply values; only the chunking and the texts that matter (the `/tree` lines, the `/find`/`/search` messages) are built.
- The exact Portuguese wording of the fixed replies is not modelled. Each reply is a constructor.
- Markdown parse failures of Telegram (which turn into the handlers' error replies) are not modelled.
- Logging, `setup_logging`, and the JSON reading and writing of `bookmarks.json` are file I/O. The loaded table is a constructor parameter, and saved paths are assumed to be normal absolute paths.
- `os.getcwd()` and `Path.home()` are parameters, assumed to be normal absolute paths.
- `/start`, `/get`, `/mkdir`, `/cp`, `/mv`, `/disk`, `/sys`, `/processes`, `/logs` and `/hash` are outside the modelled core. They are I/O, `psutil` queries, or `shutil`/`hashlib` effects with no decision logic of their own. The 8192-byte hashing loop is left out with them.
- `format_size` uses floating-point division and formatting. File sizes stay integers.
- Times are not modelled: `getmtime`, `datetime` formatting and the elapsed time of `/getzip`. In `/ls`, failures of `getsize`/`getmtime` are an input map of outcomes.
- The effects of `rmtree`, `remove` and `Process.terminate` are not modelled. The model stops at deciding which call is made, on which path or PID. The live processes are an input map.
- Zip compression and the archive file itself are not modelled.
- Search.ZipExact: the archive `<arg>.zip` is created before the folder is walked, so whenever it lies inside the folder (`/getzip .`, `/getzip name/`) the source's walk also meets the half-written archive and may store it; the model's walk is of the tree as it was before the command.
- Search.GetZip: for the same reason, its entries leave out the half-written archive whenever `<arg>.zip` lies inside the folder (`/getzip .`, `/getzip name/`, see Paths.SlashedArchive).
- `/getzip` leaves a partial or final archive behind on error. That leftover file is not modelled.
- Windows drive-letter paths (`server.py:313`) are not modelled; POSIX only.
- Symlinks are not modelled. `.` and `..` inside a path are taken lexically, as `abspath` does, also where the source hands an unnormalised path to the OS: `<file>/..` is found although the OS would refuse it. Only the last component of a joined token is checked to name a directory.
- The leading `//` that POSIX `abspath` keeps is not modelled.
- Search permission on directories is assumed wherever read permission is checked.
- Text.Lower: lowers ASCII letters only, not the full Unicode case mapping of `str.lower`.
- Numbers.ParseInt: accepts an optional sign and ASCII digits only. It does not accept the surrounding whitespace, `_` separators or non-ASCII digits that `int()` allows, so such PIDs and depths are rejected in the model.
- Session.Bookmark: the `list` reply carries the table itself; the insertion order of the JSON dictionary is not modelled.
- Search.SearchText: a file that fails to decode part-way is treated as contributing no lines. The source would keep the matches read before the error.
- Search.SearchText: entries that are neither directories nor regular files (FIFOs, sockets) never match. The source would try to open them.
- Search.GetZip: any entry below the folder that is neither a directory nor a regular file makes the model reply that the archive failed. The source's `zipf.write` opens such entries: a FIFO blocks the handler until a writer appears, a readable device is copied into the archive, and only a socket raises.
- FileTree.Node: one `text` flag says whether a file decodes. `/search` decodes as UTF-8, while `/cat` and `/tail` use the locale's default encoding, which is assumed to be UTF-8.
- Listing.ListingOrder: the sort is stable in the source and in the model's insertion sort, so items with equal keys (`README` and `readme`) keep their `os.listdir` order; this stability is not stated as a lemma, so the listing is fixed only up to such ties.
- Viewing.Cat: a file that is not valid UTF-8 is refused as a whole, even when the invalid bytes come after its first 1000 characters.
- Confirm.RemoveRequest: Telegram's 64-byte limit on callback data is not modelled.
- Search.Find: the reply is one message; like the source, it is not chunked, and the size limit Telegram imposes is not modelled.
