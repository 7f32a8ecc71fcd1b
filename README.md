# File server of the code-server workspace, modelled in Dafny

`code-server/file-server.js` is a small Express service. It lets a browser
client work inside one fixed workspace directory, `/home/coder/projects`. It
can:

- list a directory (GET /api/files);
- read a file (GET /api/file);
- write a file (POST /api/file);
- delete a file or a directory (DELETE /api/file);
- create a directory (POST /api/mkdir);
- run a shell command in a directory (POST /api/terminal).

Every client path goes through `safePath`, which resolves it against the
workspace root and throws `Access denied` unless the result starts with the
root string.

The model has these modules:

- `Paths`: POSIX path handling, purely lexical.
  - `Split` splits a string on '/'.
  - `Fold` drops empty and "." segments, and ".." pops a segment but stays at the root.
  - `Render` turns a segment list back into an absolute string.
  - `Resolve` is `path.resolve(base, s)`.
  - `Dirname` is `path.dirname`.
- `SafePaths`: the root `BASE` and `safePath`, together with what its prefix test accepts and rejects.
- `Listing`: the filter / map / sort pipeline of GET /api/files.
  - `localeCompare` is a parameter `lc`, assumed only to be a total preorder.
- `Terminal`: which text POST /api/terminal sends back.
  - It is always status 200.
  - On a throw it sends `stderr || stdout || message`.
- `Http`: the four response shapes and their status codes.
- `FileSystem`: the store the handlers act on.
  - It is a map from normalized segment lists to `File(content)` or `Dir`.
  - It holds the `fs.promises` calls the handlers make: recursive `mkdir` and `rm`, `writeFile`, `readFile`, `stat`, `unlink` and `readdir`.
  - These are assumptions about POSIX behaviour, not code of the server.
- `FileServer`: class `Store`, whose field `tree` is the filesystem.
  - There is one method per handler. Each runs the handler's awaited calls in order and replaces `tree` after each step that changes it.
  - A rejected path is answered with status 400 before the store is touched.

The test in `safePath` compares strings: the resolved path must begin with the
characters of the root. It does not compare whole segments, and it does not
resolve symbolic links, so it is weaker than keeping every path inside the
root directory. The model follows the code:

- `SafePaths.AcceptedExactly` gives the exact set of paths the test lets through.
- `SafePaths.SiblingAccepted` shows a sibling directory, `/home/coder/projects-evil`, passing it.

## Model

| member | source | states |
|---|---|---|
| Paths.Split | code-server/file-server.js:13 | splitting on '/' gives at least one piece; SplitPieces and JoinSplit state that no piece holds a '/' and that joining gives the string back |
| Paths.Fold | code-server/file-server.js:13 | folding slash-free pieces onto a normal list (dropping "" and ".", popping on ".." but never above the root) gives a normal list; FoldNormal, FoldUp and FoldAppend state how it composes |
| Paths.Components | code-server/file-server.js:13 | lexical normalization always yields a normal segment list (no empty, "." or ".." segment, no '/' inside one) |
| Paths.Render | code-server/file-server.js:13 | a resolved path is absolute; the root renders as "/" |
| Paths.SplitPieces | code-server/file-server.js:13 | no piece of a split on '/' contains a '/' |
| Paths.JoinSplit | code-server/file-server.js:13 | joining the pieces of a split with '/' gives back the string (split and join are inverse) |
| Paths.SplitJoin | code-server/file-server.js:13 | splitting `a + "/" + b` is splitting `a` and then `b`, as joining the base with the argument requires |
| Paths.FoldAppend | code-server/file-server.js:13 | normalizing a concatenation is normalizing the second part onto the normalized first part |
| Paths.FoldNormal | code-server/file-server.js:13 | segments that are already normal are appended unchanged |
| Paths.ComponentsRender | code-server/file-server.js:13 | normalizing a rendered normal path gives back its segments (round trip) |
| Paths.RenderInjective | code-server/file-server.js:13 | distinct normal segment lists render to distinct strings |
| Paths.ResolveRendered | code-server/file-server.js:13 | resolving an already resolved absolute path against any base returns it unchanged |
| Paths.Resolve | code-server/file-server.js:13 | `path.resolve(base, s)`: an absolute `s` ignores the base, a relative one is joined to it, then the result is normalized; ResolveRendered states that resolving is idempotent on resolved paths |
| Paths.Dirname | code-server/file-server.js:43 | `path.dirname`; DirnameRender and DirnameChars state what it returns on the strings the handlers pass it |
| Paths.DirnameChars | code-server/file-server.js:43 | every character of `path.dirname(s)` other than '.' is a character of `s`, so a NUL in the directory part is a NUL in the path |
| Paths.LastSlash | code-server/file-server.js:43 | the index of the last '/' of a string, or -1 when there is no slash, with nothing but non-slashes after it |
| Paths.DirnameRender | code-server/file-server.js:43 | `path.dirname` of a rendered path is the rendering of its parent |
| Paths.SlashedPrefix | code-server/file-server.js:14 | one rendered path starts another exactly when all segments but the last agree and the last segment is a string prefix of the corresponding one |
| SafePaths.Resolved | code-server/file-server.js:13 | the segments `path.resolve(BASE, s)` arrives at; ResolvedEmpty, ResolvedPieces, EscapeResolved and SiblingResolved compute it on the cases that matter |
| SafePaths.OrEmpty | code-server/file-server.js:13 | `p \|\| ''`: a missing parameter becomes the empty string; a string or a non-string value is passed on as it is |
| SafePaths.SafePath | code-server/file-server.js:12-16 | an accepted path is absolute and normalized and starts with BASE; a non-string parameter is always refused with the TypeError; a rejected string is `Access denied` |
| SafePaths.AcceptedExactly | code-server/file-server.js:14 | the prefix test accepts exactly the paths under /home/coder whose third segment starts with "projects" |
| SafePaths.SafePathExactly | code-server/file-server.js:12-16 | `safePath(s)` succeeds if and only if the resolved segments pass that test, and then returns their rendering |
| SafePaths.DescendantAccepted | code-server/file-server.js:13-14 | every path resolving to BASE or a segment-descendant of BASE is accepted unchanged |
| SafePaths.RelativeAccepted | code-server/file-server.js:13-14 | a relative path with no ".." segment resolves to BASE followed by its own segments and is accepted |
| SafePaths.ResolvedEmpty | code-server/file-server.js:13 | the empty path resolves to the segments of BASE |
| SafePaths.EmptyIsBase | code-server/file-server.js:13 | an absent or empty path yields exactly BASE |
| SafePaths.EscapeRejected | code-server/file-server.js:13-14 | "../../etc/passwd" resolves to "/home/etc/passwd" and is rejected with `Access denied` |
| SafePaths.SiblingAccepted | code-server/file-server.js:13-14 | "../projects-evil" resolves to "/home/coder/projects-evil", which is not a segment-descendant of BASE, and is accepted |
| SafePaths.Idempotent | code-server/file-server.js:13-15 | feeding an accepted result back in returns it unchanged |
| Listing.Hidden | code-server/file-server.js:24 | a name is hidden when it starts with '.'; Visible and ListContents state that exactly those entries are dropped |
| Listing.Visible | code-server/file-server.js:24 | an entry whose name starts with '.' is dropped, and every other entry is kept as many times as it occurs in the input |
| Listing.ToItem | code-server/file-server.js:25 | one entry's item; Items and ItemsMembers state that every entry maps to its own name and type |
| Listing.Items | code-server/file-server.js:25 | one item per entry, in order, with the entry's name and type "dir" for a directory and "file" otherwise |
| Listing.ItemsMembers | code-server/file-server.js:25 | an item is in the mapped list if and only if some entry maps to it |
| Listing.Compare | code-server/file-server.js:26 | the comparator: "dir" before "file", `localeCompare` within one type; BeforeOrder and ListOrder state the order it induces |
| Listing.BeforeOrder | code-server/file-server.js:26 | the comparator is total and transitive when `localeCompare` is a total preorder |
| Listing.Insert | code-server/file-server.js:26 | inserting into a sorted list gives a sorted list holding one more copy of the item |
| Listing.Sort | code-server/file-server.js:26 | the result is sorted under the comparator and is a permutation of the input |
| Listing.ListContents | code-server/file-server.js:24-25 | the listing is a permutation of the mapped items of the visible entries; it holds no hidden name; it has one item per visible entry; an item is listed if and only if a visible entry maps to it |
| Listing.ListOrder | code-server/file-server.js:26 | every "dir" item precedes every "file" item, and names within one type are in non-decreasing `localeCompare` order |
| Listing.List | code-server/file-server.js:23-26 | the response body of GET /api/files; its contents, order and distinctness are stated by ListContents, ListOrder and ListDistinct |
| Listing.VisibleDistinct | code-server/file-server.js:24 | filtering entries with distinct names keeps the names distinct |
| Listing.PermutationDistinct | code-server/file-server.js:26 | sorting items with distinct names keeps them distinct: a permutation repeats no name |
| Listing.ListDistinct | code-server/file-server.js:22-26 | when `readdir` reports each name once, every name appears at most once in the listing |
| Terminal.ErrorText | code-server/file-server.js:75 | `e.stderr \|\| e.stdout \|\| e.message`; ErrorTextFirstNonEmpty states which one is chosen |
| Terminal.Run | code-server/file-server.js:71-72 | `safePath(cwd \|\| '')` and then the command in that directory; RejectedCwd, AbsentCwdRunsInBase and EscapingCwdDenied state where it runs |
| Terminal.Respond | code-server/file-server.js:73-75 | the terminal response is text with status 200 whatever the outcome |
| Terminal.Handle | code-server/file-server.js:69-77 | POST /api/terminal always answers 200 with text |
| Terminal.ErrorTextFirstNonEmpty | code-server/file-server.js:75 | the error text is stderr if non-empty, else stdout if non-empty, else the message; it is empty only when all three are |
| Terminal.SuccessIsStdout | code-server/file-server.js:71-73 | a command that finishes answers with its captured stdout |
| Terminal.RejectedCwd | code-server/file-server.js:71-75 | a rejected `cwd` answers "Access denied" with status 200, whatever the command would do |
| Terminal.AbsentCwdRunsInBase | code-server/file-server.js:71-72 | without `cwd` the command runs in BASE |
| Terminal.EscapingCwdDenied | code-server/file-server.js:71-75 | a `cwd` climbing out of the workspace never reaches `execSync` and answers "Access denied" |
| FileSystem.ChildNames | code-server/file-server.js:22 | the names of a directory's entries; ChildNamesExactly states which names they are |
| FileSystem.MakeDirs | code-server/file-server.js:63 | recursive `mkdir`; MakeDirsOutcome and MakeDirsEffect state when it fails and what it creates |
| FileSystem.WriteAt | code-server/file-server.js:44 | `writeFile`; WriteAtSpec and WriteSequence state when it succeeds and what it leaves |
| FileSystem.ReadAt | code-server/file-server.js:34 | `readFile`; ReadAtSpec states what it returns |
| FileSystem.Stat | code-server/file-server.js:53 | `stat`: the node at the path, or the missing-path error; Store.DeleteFile states how its answer chooses the next call |
| FileSystem.RemoveTree | code-server/file-server.js:54 | recursive `rm`; RemoveTreeSpec states what it removes |
| FileSystem.Unlink | code-server/file-server.js:55 | `unlink`; UnlinkSpec states what it removes |
| FileSystem.MissingCode | code-server/file-server.js:34 | a missing path fails with ENOENT or ENOTDIR: ENOENT under a directory, ENOTDIR under a file |
| FileSystem.ChildNamesExactly | code-server/file-server.js:22 | a name is listed under a directory exactly when the directory followed by that name is in the store |
| FileSystem.MakeDirsOutcome | code-server/file-server.js:63 | recursive `mkdir` succeeds if and only if no ancestor of the path, nor the path, is a file; EEXIST when the path is a file, ENOTDIR when an ancestor is; an existing directory is left unchanged |
| FileSystem.MakeDirsEffect | code-server/file-server.js:63 | after recursive `mkdir` the store is well formed; the path and all its ancestors are directories; existing entries are kept; the new entries are the path and its ancestors |
| FileSystem.WriteAtSpec | code-server/file-server.js:44 | `writeFile` succeeds if and only if the parent is a directory and the target is not; then reading back returns the body and no other entry changes |
| FileSystem.WriteSequence | code-server/file-server.js:43-44 | `mkdir(dirname)` then `writeFile` succeeds if and only if no ancestor is a file and the target is not a directory; then the ancestors are directories and the target holds the body |
| FileSystem.RemoveTreeSpec | code-server/file-server.js:54 | recursive `rm` removes the path and everything beneath it and nothing else; the store stays well formed; the name leaves its parent's listing |
| FileSystem.UnlinkSpec | code-server/file-server.js:55 | `unlink` of a file removes only that entry; the store stays well formed; the name leaves its parent's listing |
| FileSystem.ReadAtSpec | code-server/file-server.js:34 | `readFile` succeeds exactly on files and returns their content; a directory gives EISDIR; a missing path gives ENOENT or ENOTDIR |
| FileServer.SafeKey | code-server/file-server.js:42-43 | an accepted path is the rendering of a key at least three segments deep, and its `dirname` is the key's parent |
| FileServer.ListedChildren | code-server/file-server.js:22-26 | listing what `readdir` reports yields the visible children, each exactly once, "dir" exactly for directories, in the comparator's order |
| FileServer.AbsentIsBase | code-server/file-server.js:13 | a missing path reaches the filesystem as the workspace root itself |
| FileServer.Store.ReadDir | code-server/file-server.js:22 | `readdir` reports each child of a directory once, with its kind; ENOTDIR for a file; the missing-path error otherwise |
| FileServer.Store.ListFiles | code-server/file-server.js:19-29 | GET /api/files: a rejected path is a 400 `Access denied`; a path holding a NUL is a 400 with Node's argument error; a non-directory is a 400 with the fs error; a directory yields its visible children, each exactly once, tagged by kind, sorted dirs first and then by `localeCompare` |
| FileServer.Store.ReadFile | code-server/file-server.js:32-37 | GET /api/file: the content of a file; a directory or a missing path is a 400 with the fs error; a path holding a NUL is a 400 with Node's argument error; a rejected path is a 400 `Access denied` |
| FileServer.Store.WriteFile | code-server/file-server.js:40-47 | POST /api/file: a rejected path changes nothing; a NUL in the directory part fails `mkdir` and changes nothing, a NUL in the last segment fails `writeFile` after `mkdir`; `{ok: true}` exactly when the path holds no NUL, no ancestor is a file and the target is not a directory; then the ancestors are directories and the file reads back as the body; gives the full new store |
| FileServer.Store.DeleteFile | code-server/file-server.js:50-58 | DELETE /api/file: a path holding a NUL or a missing path is a 400 and changes nothing; a directory goes with everything beneath it; a file goes alone; with no path the whole workspace goes |
| FileServer.Store.Mkdir | code-server/file-server.js:61-66 | POST /api/mkdir: a path holding a NUL is a 400 and changes nothing; otherwise `{ok: true}` exactly when no ancestor, nor the target, is a file; then all are directories; an existing directory leaves the store unchanged; a failure leaves it unchanged |

## Left out

- Express plumbing is not modelled: routing, JSON and text body parsing, response encoding and `app.listen` (lines 1-8 and 79). A handler's result is a `Response` value.
- `execSync` is not modelled: running the command, its 10-second timeout and the process kill. The outcome of running a command is the parameter `exec` of `Terminal.Handle`.
- Real `fs.promises` I/O is not modelled: permissions, UTF-8 decoding, symbolic links (which `stat` and `readdir` would follow) and interleaving between concurrent requests. The store is sequential, and each handler runs to completion.
- Locale collation is not modelled. `localeCompare` is an uninterpreted comparator assumed to be a total preorder.
- Node's other checks on a path argument are not modelled. Names longer than the system allows (ENAMETOOLONG) and too many symbolic links (ELOOP) are system limits outside the store. The NUL refusal is modelled.
- FileSystem.NulMessage: Node prints the path through `util.inspect`, which escapes the NUL and may choose other quotes. The model shows the path as given.
- Terminal.Run: a `cwd` holding a NUL is refused inside `execSync`. That refusal is one of the outcomes the parameter `exec` may return.
- Windows path semantics are not modelled; the model is POSIX only.
- Segment-wise and symlink-aware confinement are not modelled, because the code does neither.
- SafePaths.ErrorMessage: the TypeError for a non-string path omits the "Received ..." suffix Node appends.
- FileSystem.Message: Node's error messages are written as code, description, system call and path. The exact wording libuv produces is an assumption. For example, Node's EISDIR from `readFile` carries no path.
- Paths.Dirname: it agrees with `path.dirname` only on strings without a trailing or doubled slash. The handlers apply it only to strings `safePath` returned, which have neither.
- Listing.Sort: it is proved sorted and a permutation. It is not proved to keep items the comparator ties in their input order (stability).
- FileServer.Store.ReadDir: the order of the entries is left open. The listing is therefore determined only up to items the comparator ties.
- FileServer.Store.WriteFile: the body is a string. A JSON object body parsed by `express.json` would make `writeFile` throw, and that case is not modelled.
- Terminal.Handle: the command is a string, for the same reason.
