# File-server browser: path and listing logic in Dafny

The plugin in `main.py` starts three file services: HTTP, FTP and WebDAV.
The part of it that decides things is the web file browser, together with
the root the FTP and WebDAV services share. This project models that part
and proves its properties:

- **System roots** (`Roots`). `get_system_roots` maps a label to a root
  directory. On Windows the labels come from the NUL-separated drive
  string. Without `win32api` the map is the fixed `C:\`. On every other
  platform it is `/`. The result is a Python `dict`, modelled as an
  insertion-ordered list of (key, value) pairs, because the browser uses
  the *first* value as its fallback.
- **Paths** (`Paths`). The browser uses `os.path.isabs`, `os.path.splitdrive`,
  `os.path.dirname` and `os.sep`. These are modelled for both flavours Python
  picks by platform: posixpath, and ntpath as in CPython 3.12, including UNC
  drives. From them comes the page's "go up" (parent) link.
- **Listing** (`Listing`). Each `os.scandir` entry is collected in scan order.
  The list is then sorted in place, stably, by `(not is_dir, name.lower())`.
  A permission error gives the single "no access" item instead. Python's
  `list.sort` is Timsort; the model sorts by insertion. The two make
  different comparisons, but `Listing.StableSortUnique` shows that any stable
  sort by this key yields the same list.
- **Service** (`Service`). This covers the plugin settings and their
  defaults, the FTP/WebDAV root (`default_root or` the first system root),
  and how a browse request picks its current directory. It also covers the
  page a browse request produces.
- **Strings** (`Strings`). These are the Python string operations the above
  rely on: `split`, `rstrip`, `find`, `lower` and the ordering of `str`.

The filesystem is not modelled; its results are parameters. `os.path.exists`
becomes a set of existing paths, `os.scandir` becomes a function from a path
to a `Scan` result, `GetLogicalDriveStrings` becomes the drive string, and
`unquote` becomes an uninterpreted `decode` function.

Three behaviours of the code that the model keeps:

- A requested path is accepted when it is absolute and *exists*; it need not
  be a directory. Browsing an existing regular file makes `os.scandir` raise
  an `OSError` that is not a `PermissionError`. The view does not catch it,
  so the request fails; `Browse` returns `ServerError` for it.
- The root registry can be empty: a Windows drive string with no NUL yields
  an empty dict, and taking its first value then raises `StopIteration`. The
  model returns `None` for that case.
- `main.py` has no upload or download handlers. Besides the settings, it
  keeps only the thread objects and the FTP server object (main.py:39-40,
  219), and it records no per-service status.

## Model

| member | source | states |
|---|---|---|
| `Strings.SplitOn` | main.py:94 | `str.split` on one character. There is always at least one piece, and no piece contains the separator. There is exactly one piece iff the separator does not occur. |
| `Strings.JoinSplit` | main.py:94 | Joining the split pieces with the separator gives back the original string. |
| `Strings.SplitJoin` | main.py:94 | Splitting a join of separator-free pieces gives back exactly those pieces. This is the other direction of the round trip. |
| `Strings.Lower` | main.py:188 | `name.lower()` on ASCII letters: the result has the same length, and each character is lower-cased on its own. |
| `Roots.DrivesOfTerminated` | main.py:94 | `split('\000')[:-1]` applied to a NUL-terminated drive list recovers exactly that list. |
| `Roots.DrivesThenRest` | main.py:94 | The drive string equals the kept drives, each followed by NUL, then the discarded last piece. No kept drive contains NUL. |
| `Roots.Drives` | main.py:94 | `split('\000')[:-1]` keeps every piece of the split except the last, in order, and no kept drive contains NUL. |
| `Roots.Put` | main.py:95 | Dict assignment keeps keys distinct. The assigned key maps to the new value and every other key is unchanged. Existing keys keep their position, and the size grows by at most one. |
| `Roots.FromDrives` | main.py:95 | The comprehension gives distinct keys and at most one entry per drive. It is empty iff there are no drives. |
| `Roots.FromDrivesLookup` | main.py:95 | Each label `drive[:2]` maps to the last drive carrying that label. A key is present iff some drive carries it. |
| `Roots.FirstKeyIsFirstLabel` | main.py:95 | The first key of the dict is the label of the first drive, even when labels repeat, because reassigning a key keeps its position. |
| `Roots.FromDistinctDrives` | main.py:95 | When the drive labels are pairwise distinct, the dict lists every drive, in order, under its label. |
| `Roots.FromDrivesValues` | main.py:95 | Every value in the dict is one of the drives. |
| `Roots.SystemRoots` | main.py:89-99 | The keys are distinct. Off Windows the registry is exactly `{"/": "/"}`, and on Windows without `win32api` exactly `{"C:\\": "C:\\"}`. It is empty exactly on Windows, with `win32api` loaded, when the drive string has no NUL. |
| `Roots.SystemRootsLookup` | main.py:94-95 | With `win32api` loaded, each label maps to the last drive carrying it, and no other key is present. |
| `Roots.FirstRoot` | main.py:171 | `next(iter(values()))` yields a root iff the registry is non-empty, and that root is the value of the first entry. |
| `Paths.NtSplitRoot` | main.py:177 | ntpath's drive, root and tail concatenate back to the path. The root is either empty or a single separator (`\` or `/`). |
| `Paths.IsAbs` | main.py:174 | `os.path.isabs` for both flavours. It is a definition without a contract; `Paths.DirnameKeepsAbsolute`, `Paths.AncestorsAbsolute` and `Service.ResolvedIsAbsolute` state properties of it. |
| `Paths.Drive` | main.py:177 | `splitdrive(p)[0]` is a prefix of `p`. It is empty under posixpath. |
| `Paths.Dirname` | main.py:177 | `os.path.dirname` for both flavours. It is a definition without a contract; `Paths.DirnameIsPrefix` and `Paths.DirnameKeepsAbsolute` state its properties. |
| `Paths.DirnameIsPrefix` | main.py:177 | `dirname(p)` is a prefix of `p` for both flavours. |
| `Paths.DirnameKeepsAbsolute` | main.py:177 | The directory name of an absolute path is absolute, for both flavours. |
| `Paths.Parent` | main.py:177 | The parent link as written is None iff the path equals its drive followed by `os.sep`. Otherwise it is `dirname(p)`, which is a prefix of `p`. |
| `Paths.DriveRootHasNoParent` | main.py:177 | A Windows drive root `X:\` gets no parent link. |
| `Paths.DoubleSlashIsItsOwnParent` | main.py:177 | As written, the absolute POSIX path `//` gets a parent link to itself. |
| `Paths.UncShareIsItsOwnParent` | main.py:177 | As written, the absolute Windows path `\\srv\share` gets a parent link to itself. |
| `Paths.NtSlashIsItsOwnParent` | main.py:177 | As written, the path `/` on Windows is absolute and gets a parent link to itself. |
| `Paths.UpLink` | main.py:177 | Corrected parent link: whenever present it is a strict prefix of the path. When present, it equals the link as written; it agrees with it whenever `dirname(p) != p`. |
| `Paths.ParentIsUpLinkOrSelf` | main.py:177 | The link as written equals the corrected one, or else it leads back to the path itself. The two differ only when `dirname(p) == p`. |
| `Paths.Ancestors` | main.py:177 | Following the corrected up link from any path: each element is the `UpLink` of the one before, and so a strict prefix of it. The chain stops after at most as many steps as `p` has characters, at a directory with no up link. |
| `Paths.AncestorsAbsolute` | main.py:177 | Going up from an absolute path only reaches absolute paths. |
| `Listing.ToItem` | main.py:182-187 | The dict built for one entry: name, `is_dir`, path, and a size that is the byte count for a regular file and "-" otherwise. It is a definition without a contract; `Listing.ListDirectory` states how the items are collected. |
| `Listing.KeyOf` | main.py:188 | The sort key `(not is_dir, name.lower())`. It is a definition without a contract; `Listing.KeyLess` orders it. |
| `Listing.KeyLess` | main.py:188 | Python's `<` on the key tuples. It is a definition without a contract; `Listing.KeyLessTotal` and `Listing.NotLessTransitive` state that it is a strict total order. |
| `Listing.KeyLessTotal` | main.py:188 | Two different sort keys are always ordered one way or the other. |
| `Listing.NotLessTransitive` | main.py:188 | "Not less than" on sort keys is transitive, so neighbour-by-neighbour order gives a fully sorted list. |
| `Listing.AdjacentSortedIsSorted` | main.py:188 | A list whose neighbours are in key order is sorted. |
| `Listing.InsertionSortSorted` | main.py:188 | Inserting each item in turn, after the last item whose key is not greater, yields a list sorted by `(not is_dir, name.lower())`. |
| `Listing.InsertionSortStable` | main.py:188 | That insertion keeps, for every key, the items carrying it in their original order, as Python's stable `list.sort` does. |
| `Listing.InsertionSortPermutes` | main.py:188 | That insertion loses and duplicates no item: the result is a permutation of the input. |
| `Listing.SortItems` | main.py:188 | The in-place sort leaves the array holding exactly the insertion result of its old contents. It is therefore sorted by `(not is_dir, name.lower())`, stable and a permutation of the old contents. |
| `Listing.ListDirectory` | main.py:179-190 | On a permission error the listing is exactly the one "no access" item, with `is_dir` false and no path or size. Any other OS error propagates. Otherwise the listing holds the scanned items, sorted, stable and a permutation of the scan. |
| `Listing.SortedMeaning` | main.py:188 | In a sorted listing every directory precedes every non-directory. Within each group the lower-cased names never decrease. |
| `Listing.StableSortUnique` | main.py:188 | Two sorted lists that agree on every key's order are equal. The listing is therefore exactly what Python's stable sort returns. |
| `Service.LoadSettings` | main.py:33-36 | Configured settings are taken as given. A missing port defaults to 8080, 2121 or 8081, and a missing `default_root` is `None`. |
| `Service.ServiceRoot` | main.py:211 | The FTP root is `default_root` when that is truthy. Otherwise it is the first system root. It is missing only when both are absent. WebDAV uses the same expression at main.py:224. |
| `Service.DefaultServiceRoot` | main.py:224 | With no `default_root` configured, FTP and WebDAV are rooted at `/` on non-Windows hosts and at `C:\` on Windows without `win32api`. |
| `Service.RootsAreVolumeRoots` | main.py:177 | When the drive API reports only `X:\` roots, every registered root is absolute and gets no parent link. |
| `Service.Resolve` | main.py:170-175 | An absolute, existing decoded path is used unchanged. A missing, relative or non-existent one is replaced by the first system root. No error is raised except for an empty registry. |
| `Service.ResolveIdempotent` | main.py:170-175 | Following a link to the current directory lands on it again: any raw path that decodes to the current directory, such as its quoted form, resolves to that same directory. |
| `Service.ResolvedIsAbsolute` | main.py:170-175 | When the drive API reports `X:\` roots, the current directory is absolute. It is missing only when the registry is empty and the request was not accepted. |
| `Service.Browse` | main.py:164-199 | The page renders iff a current directory exists and scanning it raises nothing but a `PermissionError`. The page holds the resolved directory, its parent link as written (`Paths.Parent`), the listing described by `ListDirectory`, and the system roots. |

## Left out

- The `/img` command (main.py:50-86). It is a network client for a third-party image API and does not serve files.
- The POST form field `custom_dir` and its redirect (main.py:165-168). The rest of the view is modelled.
- HTML template rendering, Flask routing, `url_for` and `quote` (main.py:101-160, 192-199). The page is modelled as the values handed to the template.
- `run_http_server`, the serving bodies of `run_ftp_server` and `run_webdav_server`, and `start_servers` (main.py:203-251). They are thread orchestration over waitress, pyftpdlib, WsgiDAV and cheroot, which are not part of this model. Only the root expression at main.py:211 and main.py:224 is modelled.
- Filesystem and OS calls: `os.scandir`, `os.path.exists`, `stat`, `is_dir`, `is_file` and `win32api.GetLogicalDriveStrings`. They are inputs to the model.
- `unquote`: an uninterpreted function; percent-decoding is not modelled.
- `Strings.Lower`: only ASCII letters are lower-cased, whereas Python's `str.lower` maps all of Unicode. The sort order is therefore Python's only for names whose cased letters are ASCII.
- Names holding lone surrogates. A Dafny `char` is a Unicode scalar value, whereas `entry.name` (main.py:183) is a Python `str`. Such a `str` can hold lone surrogates: undecodable POSIX bytes under surrogateescape, or unpaired UTF-16 on Windows. The model cannot represent those names, or where Python sorts them by code point.
- A failing drive API. main.py:96 catches only `ImportError`, so an error raised by `GetLogicalDriveStrings()` makes `get_system_roots`, and with it the request, fail. `DriveApi` has no case for such an error.
- `Paths.NtSplitRoot`: the test for the `\\?\UNC\` prefix upper-cases ASCII letters only.
- `Paths.IsAbs`: ntpath follows CPython 3.12. There, one leading separator counts as absolute; later versions changed this. Lib/posixpath.py and Lib/ntpath.py are not part of this model; `Paths` restates their behaviour for the operations used.
- The view calls `get_system_roots()` twice per request (main.py:171 or 175, and main.py:197). The model takes one snapshot of the host, so it cannot show a drive appearing or vanishing between the two calls.
- Integer widths do not matter here. Sizes are unbounded naturals, and configured ports are passed through unchanged.

## Findings

| source | as written | input that shows it | evidently intended | confidence | as-written member | corrected member |
|---|---|---|---|---|---|---|
| main.py:177 | The "go up" link is omitted only when the path is exactly its drive followed by `os.sep`. Any other path links to `dirname(path)`, and for some absolute paths that is the path itself. | `\\srv\share` on Windows, an existing UNC share without a trailing backslash, links to `\\srv\share`. `/` on Windows links to `/`. `//` on POSIX links to `//`. | A volume root shows no "go up" link, and every link leads strictly upward. | medium; not executed | `Paths.Parent` (with `Paths.UncShareIsItsOwnParent`, `Paths.NtSlashIsItsOwnParent`, `Paths.DoubleSlashIsItsOwnParent`) | `Paths.UpLink` (with `Paths.Ancestors`, `Paths.ParentIsUpLinkOrSelf`) |

`Service.Browse` builds the page with the link as written. By
`Paths.ParentIsUpLinkOrSelf`, it differs from the corrected `UpLink` only
where it leads back to the current directory itself.
