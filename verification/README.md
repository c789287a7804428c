# fiche — a verified model of its deduplication and comparison engine

fiche walks one or two directory trees and computes a content hash (MD5) for every
file. It then reports the duplicate files inside each tree, and the files of one
tree whose content occurs nowhere in the other. The results are saved as named
tables (`left`, `left_duplicates`, `right`, `right_duplicates`, `left_only`,
`right_only`), one CSV file per table and optionally one workbook.

This project models the engine in Dafny, one module per component:

- `records.dfy` (`Records`): the two record shapes of the hash lists, and the run
  configuration. The configuration holds the `-d` and `-i` flags and the two library
  routines the engine uses, the digest and `fnmatch`, as abstract functions. The
  module also holds the view of the file system: the `os.walk` order of every
  directory, and the bytes of every readable file.
- `hashing.dfy` (`Hashing`): `md5sum`'s block-by-block read loop. It is proved to feed
  the digest the whole file, or nothing when the file cannot be opened.
- `scanner.dfy` (`Scanner`): `is_file_ignored`, the path join, `handle_file` and
  `handle_directory`. The two caller-owned lists that `handle_file` appends to are
  the fields of the class `TreeScan`. Specification functions describe the visit
  order (`VisitOrder`), the hash list (`HashList`) and the duplicates list
  (`DuplicatesOf`). Lemmas relate these functions to one another.
- `comparator.dfy` (`Comparator`): `cmp_hashlist` as a loop, proved equal to the
  order-preserving filter `OnlyIn`, and the properties of that filter.
- `assembler.dfy` (`Assembler`): `main` up to the call to `save` (`Run`). It also
  covers which tables `save` turns into artifacts, and the workbook file name.

A root that is not a directory abandons the whole run. `handle_directory` raises
`IOError` for it (fiche.py:147-149), and `main` catches that error around
everything, `save` included (fiche.py:203-234). The failing side does not yield
empty results, and no table is saved, not even the tables of a left tree that was
already scanned. `Run` returns an error and no tables in that case.

## Model

| member | source | states |
|---|---|---|
| `Hashing.ReadBlock` | fiche.py:36 | `file.read(size)` returns the next at most `size` bytes from the current offset, or all remaining bytes when the size is negative |
| `Hashing.Md5Sum` | fiche.py:21-42 | an unreadable file hashes as empty input; a readable one hashes its full content, whatever the nonzero block size; a block size of 0 feeds nothing |
| `Hashing.SameContentSameHash` | fiche.py:21-42 | two files with identical bytes get identical digests, whatever their paths |
| `Scanner.IsFileIgnored` | fiche.py:102-114 | false when no ignore list is given or the list is empty; otherwise true exactly when some pattern matches the name |
| `Scanner.JoinPath` | fiche.py:137-144 | the path starts with the root and ends with the file name, with a separator right before the name; `/` is added, right after the root, exactly when the root does not already end with `/` or `\` |
| `Scanner.KeptInMember` | fiche.py:135-146 | a path comes from one walk entry exactly when it joins the entry's root with a listed name that is not ignored |
| `Scanner.VisitOrderMember` | fiche.py:129-146 | the paths handed to `handle_file` are exactly the joined paths of the non-ignored files of the walk; no ignored file reaches it |
| `Scanner.KeptInCount` | fiche.py:135-146 | one walk entry contributes exactly one path per listed file that is not ignored |
| `Scanner.VisitOrderCount` | fiche.py:129-146 | the visit order holds exactly one path per (directory, file) position of the walk whose file is not ignored |
| `Scanner.MatchesOfCount` | fiche.py:166-175 | one duplicate record per earlier record with the same hash, and none when the hash is new |
| `Scanner.MatchesOfMember` | fiche.py:169-175 | every duplicate record is `(newpath, h, oldpath, h)`, where `(oldpath, h)` is an earlier record; every such earlier record yields one |
| `Scanner.MatchesOfAppend` | fiche.py:170-175 | the duplicate records follow the order of the hash list |
| `Scanner.DuplicatesOfMember` | fiche.py:152-177 | a tree's duplicates list holds exactly the pairs (later file j, earlier file i) with i < j and equal hashes |
| `Scanner.FirstSeenIsOriginal` | fiche.py:163-177 | a file whose hash does not occur earlier in the visit order is never the new path of a duplicate record: first seen is the original |
| `Scanner.ThreeFileScenario` | fiche.py:166-177 | for A, B, C visited in order, with A and C equal and B different, the only duplicate record is `(C, h, A, h)` |
| `Scanner.TreeScan.constructor` | fiche.py:123-127 | the hash list starts empty; the duplicates list exists (empty) exactly when `-d` was given |
| `Scanner.TreeScan.HandleFile` | fiche.py:152-177 | appends exactly `(path, hash)` to the hash list and keeps every earlier entry; without `-d` there is no duplicates list to change; with it, appends exactly the matches against the earlier hash list; preserves "duplicates list = duplicates of the hash list" |
| `Scanner.TreeScan.HandleEntry` | fiche.py:135-146 | one directory of the walk: appends the records of its non-ignored files, in listing order |
| `Scanner.HandleDirectory` | fiche.py:116-150 | fails exactly when the root is not a directory; otherwise the hash list is the visit order with its hashes, and the duplicates list exists only with `-d` and equals the duplicates of that hash list |
| `Scanner.ScanOfCount` | fiche.py:116-150 | the hash list `handle_directory` returns has exactly one record per (directory, file) position of the walk whose file is not ignored |
| `Scanner.CollidingJoinScenario` | fiche.py:137-146 | a file `d\f` in `t` and a file `f` in its subdirectory `d\` both join to `t/d\f`: the hash list holds that path twice and the file is reported as a duplicate of itself |
| `Comparator.CmpHashlist` | fiche.py:179-195 | returns exactly `OnlyIn(left, right)` |
| `Comparator.OnlyInMember` | fiche.py:189-195 | a record is reported exactly when it is in the left list and its hash is absent from the right list |
| `Comparator.OnlyInAppend` | fiche.py:192-194 | the result keeps the left list's order |
| `Comparator.OnlyInLength` | fiche.py:189-195 | the result is never longer than the left list |
| `Comparator.OnlyInEmptyRight` | fiche.py:190-194 | comparing with an empty list returns the left list unchanged |
| `Comparator.OnlyInSelf` | fiche.py:190-194 | a list compared with itself gives nothing |
| `Comparator.TwoTreeScenario` | fiche.py:216-221 | left {a: "hello", b: "world"} against right {a: "hello"} gives left_only = [b] and right_only = [] |
| `Assembler.Run` | fiche.py:197-234 | the tables are `left, left_duplicates`, then `right, right_duplicates, left_only, right_only` only with a right directory; the duplicates tables are None without `-d`; a non-directory root (left first) abandons the run with no tables; together with `ExportedDuplicates`, a one-tree run saves `left`, plus `left_duplicates` exactly with `-d` |
| `Assembler.ExportedMember` | fiche.py:68-69 | a table produces an artifact exactly when it is in the list and is not None |
| `Assembler.ExportedDuplicates` | fiche.py:94-95 | for tables shaped as a one-tree `Run` returns them, only `left` is saved without `-d`; with it, `left_duplicates` is saved as well, even when empty |
| `Assembler.WorkbookName` | fiche.py:89-90 | the workbook name ends with `.xlsx`; it starts with the given name; it is unchanged exactly when the given name already ends with `.xlsx`, and otherwise exactly the five characters `.xlsx` are appended |
| `Assembler.WorkbookNameIdempotent` | fiche.py:89-90 | naming an already named workbook changes nothing |

## Left out

- The MD5 algorithm itself: the digest is an abstract function of the bytes fed. MD5's incremental update is modelled as the digest of the concatenated blocks.
- A read error in the middle of a file: `md5sum` would then return the digest of the blocks read so far. The model knows only readable and unreadable files.
- `os.walk` and `os.path.isdir`: the walk order of each directory is an input (`Disk.trees`). A path is a directory exactly when it has a walk.
- `fnmatch` glob semantics: an abstract predicate `matches(name, pattern)`.
- Writing the CSV files and the workbook (`save`, `save_as_csv`, `save_as_excel`), and their `IOError` handling, since these are I/O. Only the skipping of None tables and the workbook name are modelled.
- Argument parsing, the banner and every diagnostic `print`, including the per-directory counts and the final duplicate counts. The flags are explicit parameters (`Config`, `right`), not a global.
- Scanner.FirstSeenIsOriginal: assumes that the joined paths of one walk are distinct. They need not be: on POSIX a backslash is an ordinary name character, yet the join (fiche.py:137-144) treats a root ending in `\` as already separated, so a file `d\f` in `t` and a file `f` in the subdirectory `d\` both become `t/d\f`. The file is then reported as a duplicate of itself, and `t/d\/f` is never hashed (`Scanner.CollidingJoinScenario`).
- Scanner.TreeScan.HandleFile: collects the new duplicate records in a local sequence and stores it once at the end, instead of appending to the list in place record by record. Nothing else can observe the list in between.
