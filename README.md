# File-path helpers of `portable_code`, modelled in Dafny

This project models `path.py`, the file-path helpers of the repository:

- `find` lists a directory and keeps the names that contain `pattern`,
  end with `ext` and do not contain `antipattern` (an empty antipattern
  excludes nothing). It can join each kept name to the directory, and it can
  sort the result.
- `sort` sorts a caller's list of paths in place and returns that same list.
- `split` breaks a path into its directory, base name and extension. It uses
  the POSIX rules of `os.path.split` and `os.path.splitext`.

The model has three modules, each in its own file:

- `Strings` (`strings.dfy`) holds the string operations these helpers use.
  These are Python's `sub in s`, suffix tests, `str.rfind` and `str.rstrip`
  for one character.
- `Order` (`order.dfy`) holds Python's `<=` on `str`, which `list.sort()`
  uses. It compares code points from the left, and a proper prefix comes
  first. The module proves that this is a total order, and that two sorted
  sequences holding the same strings are equal.
- `Path` (`path.dfy`) models `find`, `sort` and `split`.

How each part of the source is modelled:

- The list comprehension of `find` is modelled as the pure functions `Keep`
  and `Filter`. The extension test is modelled as the source writes it,
  `ext in p[-len(ext):]`, with Python's slice rules. It is then proved equal
  to "ends with `ext`".
- `find` and `sort` change lists in place, so they are methods. `Find` copies
  its result into an array and sorts it with `SortInPlace`. `SortInPlace`
  models `list.sort()` on an `array<string>`. It is an insertion sort proved
  to give an ascending permutation of its input. Python's own sort is stable,
  but two equal strings cannot be told apart, so the result is the same.
- `os.listdir(path)` is an input sequence `listing`. Its order is whatever the
  file system gives. The lemmas `FindListingOrder` and
  `SortedFindDeterministic` show that with `sort` set, that order does not
  affect the result.
- `os.path.join`, `os.path.split` and `os.path.splitext` come from Python's
  `posixpath` and `genericpath` modules. Those modules are not part of this
  model. Their POSIX behaviour is written out in `Join`, `PosixSplit` and
  `SplitExt`.

Joining the parts of `split` with `os.path.join` does not always give the
input back. Call the part of the input up to and including its last `/` the
head. When the head holds something other than slashes, `os.path.split`
removes all of its trailing slashes, and `os.path.join` puts back only one.
So the round trip holds exactly when the head consists only of slashes or ends
in a single `/`. It fails when two or more slashes come right before the last
component and something other than a slash comes before them. `SplitJoinIff`
proves this condition in both directions. `SplitJoinRoundTrip` proves the
simpler sufficient condition of no doubled `/`. `DoubledSlashNotKept` shows
that `a//b` comes back as `a/b`. By `SplitJoinIff`, `a//b/c` and `//a` come
back unchanged.

The docstring of `find` speaks of files. The code keeps every directory entry
whose name passes the filter, including subdirectories. The model does the
same, because the listing is only a sequence of names.

## Model

| member | source | states |
|---|---|---|
| `Path.ExtMatchesIffEndsWith` | path.py:28 | `ext in p[-len(ext):]` holds exactly when the name ends with `ext`. So an empty `ext` accepts every name, and an `ext` longer than the name rejects it. |
| `Path.KeepIff` | path.py:27-29 | `Keep`, the comprehension's condition: a name passes exactly when it contains `pattern`, ends with `ext`, and either the antipattern is empty or the name does not contain it. |
| `Path.EmptyFiltersKeep` | path.py:14-16 | An empty pattern, extension and antipattern reject no name. |
| `Path.AntipatternExcludes` | path.py:29 | A non-empty antipattern that occurs in a name excludes that name, even when the name matches the pattern and extension. |
| `Path.Filter` | path.py:24-30 | The comprehension's result is no longer than the listing. Every entry comes from the listing and passes the filter. |
| `Path.FilterIsSubsequence` | path.py:24-30 | The filtered names are a subsequence of the listing, in listing order. Nothing is added and nothing is reordered. |
| `Path.FilterCount` | path.py:24-30 | A name occurs in the result as often as in the listing when it passes the filter, and not at all when it fails. Nothing is dropped or duplicated. |
| `Path.FilterEmptyFilters` | path.py:24-30 | With empty pattern, extension and antipattern, the result is the whole listing, unchanged. |
| `Path.FilterPermutation` | path.py:26-30 | Two listings with the same names, in any order, give filtered results with the same names. |
| `Path.JoinShape` | path.py:32 | `Join`, that is `os.path.join(dir, name)`, ends with `name`. When `name` does not start with `/`, the result starts with `dir` and adds at most one character between them. |
| `Path.JoinAll` | path.py:31-32 | Joining every name keeps the length of the list. |
| `Path.JoinAllAt` | path.py:31-32 | Entry `i` of the joined list is the directory joined to name `i`. |
| `Path.JoinAllPermutation` | path.py:31-32 | Two lists with the same names, in any order, give joined lists with the same paths. |
| `Path.JoinLastComponent` | path.py:32 | For a name without `/`, splitting the joined path gives that name back as name plus extension. |
| `Path.FindUnsortedEntries` | path.py:24-32 | Before sorting, entry `i` of `find`'s result corresponds to kept name `i`. With `include_path` it is the directory joined to that name, and when the name holds no `/` its last component is the name. Without `include_path` it is the bare name. |
| `Path.FindListingOrder` | path.py:24-32 | The names `find` collects before sorting do not depend on the listing's order. |
| `Path.SortedFindDeterministic` | path.py:35-36 | With `sort` set, two listings with the same names give exactly the same result. |
| `Path.Find` | path.py:6-37 | Without `sort`, the result is the filtered listing, in listing order, joined to the directory when `include_path` is set. With `sort`, the result is in ascending order and is a permutation of that list. |
| `Path.SortInPlace` | path.py:36 | `list.sort()` puts the array in ascending order and keeps the same multiset of strings. |
| `Path.Sort` | path.py:40-51 | `sort` returns the same list object it was given. That list is now in ascending order and holds the same strings as before. |
| `Order.LessEqIffFirstDifference` | path.py:36 | The order used by sorting: `a <= b` exactly when `a` is a prefix of `b`, or `a` has the smaller code point where the two first differ. |
| `Order.Reflexive` | path.py:36 | Every string is `<=` itself. |
| `Order.Total` | path.py:36 | Any two strings are comparable. |
| `Order.Transitive` | path.py:36 | The order is transitive. |
| `Order.Antisymmetric` | path.py:36 | Two strings that are each `<=` the other are equal. |
| `Order.SortedUnique` | path.py:35-36 | Two ascending sequences holding the same strings are equal. So the sorted result is fully determined by which strings are in it. |
| `Strings.ContainsIffOccurs` | path.py:27 | Python's `sub in s` holds exactly when `sub` occurs in `s` at some position. |
| `Strings.LastIndexOf` | path.py:66 | `rfind` of one character gives -1 or an index holding that character, and no later index holds it. |
| `Strings.RStrip` | path.py:66 | Stripping trailing slashes leaves a prefix of the input. Only slashes were removed, and the result is empty or does not end in one. |
| `Path.LastComponent` | path.py:66 | The tail of `os.path.split` contains no `/` and is a suffix of the input. It is the whole input, or it comes right after a `/`. |
| `Path.SplitNameExt` | path.py:66-68 | For `Split`, `name + ext` is the part of the input after its last `/`. Neither `name` nor `ext` contains a `/`. |
| `Path.SplitBareName` | path.py:62 | A path without `/` gets an empty directory part, and `name + ext` is the whole path. |
| `Path.SplitPath` | path.py:62-66 | `Split`'s directory part, the head of `PosixSplit`, is a prefix of the input that ends before the last component, and only slashes lie between it and the last component. It is empty exactly when the input has no `/`. It ends in `/` only when it consists only of slashes. When everything before the last component is slashes, the directory part is all of it, unchanged. |
| `Path.StripHeadShape` | path.py:66 | What `os.path.split` keeps of the part before the last component: a prefix of it, followed in it only by slashes. It is empty only when that part is, ends in `/` only when it is only slashes, and is kept whole when it is only slashes. |
| `Path.SplitExtOfName` | path.py:67 | For a name without `/`, `SplitExt` (`os.path.splitext`) gives two parts that concatenate back to the name. Neither part contains `/`. The extension is empty, or a dot followed by no other dot. |
| `Path.SplitExtShape` | path.py:63-67 | `split`'s extension is empty, or starts with `.` and contains no other `.`. |
| `Path.SplitExtPresentInName` | path.py:67 | For a name without `/`, `SplitExt` gives a non-empty extension exactly when a dot comes after some character that is not a dot. |
| `Path.SplitExtPresent` | path.py:67 | The extension is non-empty exactly when the last component has a dot after some character that is not a dot. So `.bashrc` and `..` have no extension. |
| `Path.JoinStripHead` | path.py:66 | Joining a relative tail to the head `os.path.split` keeps gives back head and tail exactly when the head is only slashes or ends in a single `/`. |
| `Path.PosixSplitDoubled` | path.py:66 | `os.path.split("a//b")` is `("a", "b")`: both slashes are removed. |
| `Path.PosixSplitJoinIff` | path.py:66 | `os.path.join` of `PosixSplit`'s head and tail gives back the path exactly when the part up to the last `/` is only slashes or ends in a single `/`. |
| `Path.PosixSplitJoin` | path.py:66 | For a path with no doubled `/`, `os.path.join` of `os.path.split`'s head and tail gives back the path. |
| `Path.SplitJoinIff` | path.py:54-68 | Joining `Split`'s directory part with `name + ext` gives back the path exactly when the part up to the last `/` is only slashes or ends in a single `/`. |
| `Path.SplitJoinRoundTrip` | path.py:54-68 | For a path with no doubled `/`, joining `split`'s directory part with `name + ext` gives back the path. |
| `Path.DoubledSlashNotKept` | path.py:66 | Splitting `a//b` and joining the parts gives `a/b`. Two slashes after a name come back as one. |
| `Path.PosixSplitExample` | path.py:66 | `os.path.split("/a/b/c.txt")` is `("/a/b", "c.txt")`. |
| `Path.SplitExtExample` | path.py:67 | `os.path.splitext("c.txt")` is `("c", ".txt")`. |
| `Path.SplitExample` | path.py:54-68 | `Split("/a/b/c.txt")` is path `/a/b`, name `c` and extension `.txt`. |

## Left out

- `os.listdir` is file-system I/O. The listing is an input sequence with no order assumed. Errors for a missing or unreadable directory are not modelled; in the source they propagate as exceptions.
- `absolute=True` and `os.path.abspath` are left out. Their result depends on the process's current directory and on path normalisation that is not part of this model. `Find` has no `absolute` parameter and behaves as `absolute=False`.
- Strings are sequences of Dafny `char`, which are Unicode scalar values. Python `str` can also hold lone surrogates, such as the U+DC80–U+DCFF escapes `os.listdir` uses for undecodable bytes. Names holding those are not represented.
- Python's keyword defaults (`path='.'`, empty filters, `include_path=True`, `sort=True`) are left out, because Dafny has no keyword defaults. Every caller of `Find` passes all arguments.
- Windows path rules (`ntpath`: the `\` separator and drive letters) are left out. Only POSIX `/` is modelled.
- `Find` returns a sequence, not a Python list object. The source's stage-by-stage rebinding of `paths` is modelled as local assignments, and its in-place sort as `SortInPlace` on a fresh array.
- `df.py` (`optimize_floats`, `optimize_ints`, `rename_columns`) is left out. These are thin wrappers over dataframe-library calls, and that library is not part of this model.
- `meta.py` (`load_meta`) is left out. It is file I/O plus the standard JSON parser.
