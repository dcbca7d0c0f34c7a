# GitGrab, modelled in Dafny

GitGrab is a desktop tool. It clones one or more Git repositories into a target folder and shows each one as a tree, keeping only the files whose names carry one of the configured extensions. The user collects files from that tree into a selection. The tool then writes every selected file into a single Markdown document, `scraped_repos.md`, and deletes the clones.

This project models the logic behind those steps. The widgets, the threads, GitPython and the filesystem are replaced by plain inputs.

- `basics.dfy` (`Basics`): `Option` and `Result`.
- `text.dfy` (`Text`): the Python string operations the program relies on, written out over `seq<char>`:
  - `str.strip()`, with exactly the `str.isspace` character set;
  - `str.split(',')`, proved to be undone by `','.join`;
  - `str.split('/')[-1]`, proved equal to the last `/`-segment;
  - `str.replace('.git', '')`, as Python's left-to-right, non-overlapping scan;
  - `startswith` and `endswith`;
  - the code-point order that `sorted` uses, proved irreflexive, transitive and total.
- `paths.dfy` (`Paths`): POSIX `os.path.join`, and the fact that `os.path.basename` (the last `/`-segment, `Text.LastSegment`) undoes it for a `/`-free name.
- `fetch.dfy` (`Fetch`): the entry validation of `fetch_repo_structure`, the directory-name derivation and the clone loop of `clone_and_display_structure`.
  - A clone raises when the remote cannot be cloned (a given set `unreachable`) or when its target directory is already non-empty. The model counts a directory as non-empty when it was there before (a given set `occupied`) or when an earlier URL of the same batch has the same target path. Paths are compared as strings; see "## Left out" for the names that alias the target folder.
- `tree.dfy` (`Tree`): `populate_tree` as a function from a listing (`Entry`) to tree items, and the extension test.
- `selection.dfy` (`Selection`): the class `GrabApp`.
  - Its fields are `toScrape` (`files_to_scrape`) and `listbox`, the contents of the selection listbox.
  - Its methods are the handlers that change them.
  - `os.path.isfile`, `os.path.isdir` and `os.walk` are a given `FileSystem` value.
- `aggregate.dfy` (`Aggregate`): `scrape_and_cleanup`.
  - The document is written by a loop, proved against a `Document` function.
  - The file contents are a given map from path to text. A path missing from the map cannot be opened.
  - The deletion targets follow the tree's roots.

The directory name is taken from the URL with `str.replace`. So every `.git` in the last segment is removed, not only a trailing one: `u/u.github.io.git` is cloned into `uhub.io`. The model follows the code here, and `Fetch.RepoNameMangledPagesRepo` states the consequence. The check for a missing extension can never fire, because a split always yields at least one piece. `Fetch.ParseRequest` refuses exactly the URL texts that are empty or start with `,`.

## Model

| member | source | states |
|---|---|---|
| Text.TrimLeft | GitGrab.py:185 | the result is a suffix of the input; everything dropped is whitespace; the result does not start with whitespace |
| Text.TrimRight | GitGrab.py:185 | the result is a prefix of the input; everything dropped is whitespace; the result does not end with whitespace |
| Text.Strip | GitGrab.py:185 | `str.strip()` is a slice of the input; everything before and after it is whitespace; it neither starts nor ends with whitespace |
| Text.Split | GitGrab.py:164-166 | `str.split(sep)` never yields an empty list |
| Text.JoinSplit | GitGrab.py:164-166 | joining the pieces of a split with the separator gives the text back |
| Text.SplitPiecesFree | GitGrab.py:164-166 | no piece of a split holds the separator |
| Text.SplitSingle | GitGrab.py:164-166 | a text splits into a single piece exactly when it holds no separator |
| Text.SplitPlain | GitGrab.py:164-166 | a text without the separator splits into itself alone |
| Text.SplitJoin | GitGrab.py:164-166 | splitting a joined list of separator-free pieces gives the pieces back |
| Text.SplitFirstEmpty | GitGrab.py:168 | the first piece is empty exactly when the text is empty or starts with the separator |
| Text.LastSegment | GitGrab.py:186 | the last `/`-segment holds no `/` |
| Text.LastSegmentSuffix | GitGrab.py:186 | the last segment is a suffix of the text, preceded by `/` unless it is the whole text |
| Text.LastSegmentPlain | GitGrab.py:186 | a text without `/` is its own last segment |
| Text.LastSegmentAfterSlash | GitGrab.py:186 | the segment after the last `/` is the last segment |
| Text.LastSegmentFrom | GitGrab.py:186 | the last segment of a text is the last segment of whatever follows any of its `/` |
| Text.LastSegmentIsLastPiece | GitGrab.py:186 | `s.split('/')[-1]` equals the last segment |
| Text.ReplaceAll | GitGrab.py:186 | every character of the result comes from the text or from the replacement |
| Text.ReplaceAllAbsent | GitGrab.py:186 | replacing a pattern that does not occur leaves the text unchanged |
| Text.ReplaceGitSuffix | GitGrab.py:186 | removing `.git` from `base + ".git"`, when `base` holds no other `.git`, gives `base` |
| Text.ReplaceAllAroundGit | GitGrab.py:186 | for all texts `a` and `b`, removing `.git` from `a + ".git" + b` drops that occurrence and removes `.git` from `a` and from `b` separately, so every occurrence goes |
| Text.LessIrreflexive | GitGrab.py:246 | no string sorts before itself |
| Text.LessTransitive | GitGrab.py:246 | the string order is transitive |
| Text.LessTotal | GitGrab.py:246 | any two distinct strings are ordered one way or the other |
| Paths.BasenameOfJoin | GitGrab.py:187 | the basename of a directory joined with a `/`-free name is that name |
| Fetch.ParseRequest | GitGrab.py:164-174 | refused, with the missing-URL error, exactly when the URL text is empty or starts with `,`; otherwise the URL and extension lists are non-empty, free of `,`, join back to the entered texts, and the target is the folder entry or else the working directory |
| Fetch.RepoName | GitGrab.py:186 | the derived directory name holds no `/` and is no longer than the URL |
| Text.ReplaceAllShrinks | GitGrab.py:186 | deleting a pattern never lengthens a text |
| Fetch.RepoNameOfGitUrl | GitGrab.py:186 | `prefix/base.git` with no other `.git` in `base` gives `base` |
| Fetch.RepoNameWithoutGit | GitGrab.py:186 | `prefix/base` with no `.git` in `base` gives `base` |
| Fetch.RepoNameRemovesEveryGit | GitGrab.py:186 | `a/foo.git.gitx` gives `foox` |
| Fetch.RepoNameMangledPagesRepo | GitGrab.py:186 | `u/u.github.io.git` gives `uhub.io` |
| Fetch.RepoNameOfTrailingSlash | GitGrab.py:185-187 | any URL ending in `/`, whatever precedes it, gives the empty name once stripped, so its target path is the target folder followed by `/` |
| Fetch.ClonePathsInTarget | GitGrab.py:183-190 | every clone path starts with the target folder and its basename is the name derived from the stripped URL |
| Fetch.ClonePathsDistinct | GitGrab.py:190 | when no clone fails, the target paths are pairwise distinct and none was occupied before |
| Fetch.CloneBatch | GitGrab.py:184-191 | over derived remotes and paths: succeeds exactly when no clone fails, returning every path in order; otherwise fails at the first failing index, naming its remote |
| Fetch.CloneAll | GitGrab.py:182-191 | succeeds exactly when no clone fails, returning every target path in order, all distinct and none occupied before; otherwise fails at the first failing index, naming its stripped URL |
| Fetch.FetchRepoStructure | GitGrab.py:163-207 | bad input is refused before any clone; a successful fetch happens exactly when no clone fails and shows one root per cloned path, in clone order; a failed fetch builds no tree and reports the first clone that raised, with its index and stripped URL |
| Tree.HasListedExtension | GitGrab.py:220 | true exactly when the name ends with `"." + ext.strip()` for some listed extension |
| Tree.ShownEntriesMembers | GitGrab.py:214-221 | an entry is shown exactly when it is listed and it is a directory or has a listed extension |
| Tree.PopulateMirrorsShown | GitGrab.py:212-223 | the inserted items correspond one for one, in order, to the shown entries: same name, the joined path as value, a folder exactly for a directory, a readable directory's children populated from its own listing |
| Tree.PopulateFileItemsMatch | GitGrab.py:216-221 | no file item at any depth lacks a listed extension |
| Tree.BuildRootsMirrorsListings | GitGrab.py:195-199 | root `i` is a folder titled with the basename of path `i`, with no value; its children are, one for one and in listing order, the shown entries of that path's listing, with their names and joined paths; a path whose listing raises has no children |
| Fetch.FetchedRootsNamed | GitGrab.py:183-199 | after a fetch the roots are titled, in URL order, with the names derived from the stripped URLs |
| Tree.BuildRootsFileItemsMatch | GitGrab.py:197-199 | the whole tree shown after a fetch holds only files with a listed extension |
| Selection.StepPathsMembers | GitGrab.py:344-345 | within one walk step, the added paths are exactly the step's root joined with each of its files |
| Selection.WalkedFilesMembers | GitGrab.py:343-346 | the paths a walk adds are exactly each step's root joined with each of its files |
| Selection.RemoveFolderIsNotSegmentAware | GitGrab.py:340 | removing folder `/a/b` also removes `/a/bc/x` |
| Selection.AddItemsMembers | GitGrab.py:225-235 | after adding a selection, a path is selected exactly when it was before, or it is a selected file, or it is walked under a selected folder |
| Selection.RemoveItemsMembers | GitGrab.py:327-337 | after removing a selection, a path is selected exactly when it was before and no selected file equals it and no selected folder is a string prefix of it |
| Selection.AddItemsIdempotent | GitGrab.py:232 | adding the same selection a second time changes nothing |
| Selection.Smallest | GitGrab.py:246 | the returned element is in the set and sorts before every other element |
| Selection.SortedSnapshot | GitGrab.py:246 | `sorted(set)` is strictly ascending and has exactly the set's elements |
| Selection.AscendingUnique | GitGrab.py:246-247 | two strictly ascending lists with the same elements are equal, so the listbox is determined by the set |
| Selection.Enumerate | GitGrab.py:256 | `list(set)` holds each element of the set exactly once |
| Selection.GrabApp.constructor | GitGrab.py:150 | the selection starts empty, with an empty listbox |
| Selection.GrabApp.AddFile | GitGrab.py:232 | the selection becomes the old selection together with the path |
| Selection.GrabApp.Discard | GitGrab.py:241 | the selection loses exactly the path, and nothing changes when it is absent |
| Selection.GrabApp.AddFilesFromFolder | GitGrab.py:342-346 | the selection gains exactly the walked files, whatever their extension |
| Selection.GrabApp.RemoveFilesFromFolder | GitGrab.py:339-340 | a path stays exactly when it was selected and does not start with the folder path |
| Selection.GrabApp.UpdateSelectionListbox | GitGrab.py:244-247 | the listbox shows the selection strictly ascending, each path once; the selection is unchanged |
| Selection.GrabApp.AddSelectedFiles | GitGrab.py:225-235 | the selection becomes the fold of the per-item additions over the selected items, keeps every prior path, and the listbox is refreshed |
| Selection.GrabApp.RemoveSelectedFiles | GitGrab.py:237-242 | the selection loses exactly the listbox entries at the chosen indices, and the listbox is refreshed |
| Selection.GrabApp.RemoveSelectedFilesFromTree | GitGrab.py:327-337 | the selection becomes the fold of the per-item removals over the selected items, gains nothing, and the listbox is refreshed |
| Selection.GrabApp.StartScraping | GitGrab.py:249-256 | an empty selection is refused; otherwise every selected path is handed on exactly once |
| Aggregate.DocumentConcat | GitGrab.py:263-268 | the document for two lists in a row is the first document followed by the second |
| Aggregate.DocumentSingle | GitGrab.py:264-268 | the document for one file is its heading, opening fence, content and closing fence |
| Aggregate.DocumentBlockAt | GitGrab.py:263-268 | each file's full section sits between the sections of the files before it and those after it |
| Aggregate.DocumentExample | GitGrab.py:264-268 | file `a.py` holding `x = 1` is written as `"\n## File: a.py\n```\nx = 1\n```\n"` |
| Aggregate.CleanupRemovesClones | GitGrab.py:273-275 | with the same target folder, the cleanup deletes exactly the directories the fetch cloned into |
| Aggregate.CleanupOfEmptyNameRemovesOutput | GitGrab.py:260-275 | a root titled `""` (from a URL ending in `/`) makes the cleanup delete the target folder itself, whose path is a prefix of the output file's |
| Aggregate.ScrapeAndCleanup | GitGrab.py:258-282 | writes into `scraped_repos.md` in the target folder; the output error is reported exactly when the output cannot be opened, and then nothing is written; with every file readable, the written text is the document and the clones are deleted and the tree cleared; with the output open and some file unreadable, the error names the first unreadable file and its index, the written text is the full sections before it followed by its heading and fence, and nothing is deleted |

## Left out

- The Tk widgets, menus, progress bar, message boxes, expand, collapse and select-all. They are user-interface state. Message boxes become error values.
- The threads that run cloning and scraping, and the button disabling that keeps them apart. These are concurrency.
- `Repo.clone_from` is a foreign call over the network. It is reduced to when it raises. The reasons are the given `unreachable` and `occupied` sets, plus a target cloned earlier in the same batch. Clones that succeed before a failure stay on disk, and the model does not track that.
- `Fetch.CloneFails`: target paths are compared as strings. A derived name `""`, `.` or `..` makes a path that names the target folder or its parent, which may already hold an earlier clone of the batch. For example, `h/b,h/a/` into an empty folder `t` gives `t/b` and `t/`, and git refuses the second clone. The model does not see that aliasing and lets the batch succeed.
- `Fetch.CloneAll`: the failure condition is an abstraction. Other causes of a raised clone, such as authentication, lack of disk space or an interrupted transfer, are covered only through `unreachable`.
- The real filesystem. `os.listdir` is an `Entry` listing, and `os.path.isfile`, `os.path.isdir` and `os.walk` are a `FileSystem` value. A file's contents are a map entry, already decoded. UTF-8 decoding with `errors="ignore"` is not modelled.
- `Tree.Populate` builds item values; it does not insert into a widget. The `open` flag of tree items is not modelled. Tk's conversion of numeric-looking `values` to numbers is not modelled.
- In `scrape_and_cleanup`, `shutil.rmtree` and the chmod retry in `handle_remove_error` are OS-permission plumbing. The model keeps the list of directories to delete and assumes each deletion succeeds.
- `Aggregate.ScrapeAndCleanup`: `written` is the text written to the output file, not what is left on disk afterwards. A root titled `""`, `.` or `..` makes the cleanup delete the target folder or its parent, output file included (`Aggregate.CleanupOfEmptyNameRemovesOutput`), and the model does not track that. Also not modelled: a selected path equal to the output file, write errors partway through the document, and the target-folder entry being read again between fetch and scrape. The method takes the target folder as a parameter.
- Windows path handling (`ntpath`) is not modelled: `Paths.Join` and `Text.LastSegment` are POSIX `os.path.join` and `os.path.basename`. On Windows `os.path.join` inserts `\` and `os.path.basename` splits on both `/` and `\`, so derived names and clone paths there differ from the model's.
- Logging, the Paste menu and the folder browser dialog.
