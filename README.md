# chimera-list: root resolution, parent-path cache and dump condensation

`chimera-list.py` dumps a dCache Chimera namespace. It writes one line per stored file replica and then condenses the listing. This project models the parts of that script that carry logic, and proves properties of the model:

- **Root resolution (`get_root`).** The configured root path loses its outer slashes. Then it is resolved one segment at a time with the stored function `path2inumber`. The run aborts with the name of the first segment that cannot be found. The model shows that `get_root` is a left fold of single lookups over the non-empty segments of the path. Outer slashes are ignored and empty segments collapse. Every failure names the first segment that is missing.
- **Parent-path cache (`search_parent` and `dirs`).** Parent inumbers are turned into absolute paths through `inumber2path`. Every answer is remembered in `dirs`, including a failure, which `setdefault` records as `None`. The cache is transparent: it always answers what the store says, and the configured path for the root. The store is asked at most once per inumber. A cached value never changes.
- **Raw dump (`write_dump_raw`, per row).** Each row of the join becomes one tab-separated line. The line is written unless the parent path is falsy, or a pattern is set and the line does not contain it. The written lines are exactly the lines of the rows that pass, in row order.
- **Condensed dump (`write_dump_condensed`, `write_entry`, `short_loc`).** Each line of the sorted dump is stripped and split at its last tab into a key and a location.
  - Consecutive lines with the same key form a group. A group is written as one record carrying all its locations, each simplified by `short_loc`.
  - Each record is preceded by its directory, written only when it differs from the directory written last.
  - The model proves several things about this pass:
    - The groups are the unique maximal runs of equal keys, and they lose and reorder nothing.
    - The output is a pure function of the entries: one header where the directory changes, then one record per entry.
    - When no directory holds a tab, the tab-free lines are exactly the headers, and the other lines are exactly the records.
    - A malformed line, or a key without `/`, aborts with an error value: the index of the first line without a tab, or a key that has no `/`.
  - The streaming loop, with its `last_entry`, `location_list` and `write_entry.last_dn` state, is proved to compute exactly that function.

Database access becomes maps passed as parameters:
- `DirStore` stands for `path2inumber`.
- `PathStore` stands for `inumber2path`.
- A sequence of `Row` values stands for the result set of the raw-dump query.
- A sequence of strings stands for the lines of the sorted file.

Files written by the script become returned sequences of lines.

Three behaviours of the code are easy to misread, and the model follows the code in each:
- `search_parent` caches a failed lookup as `None` (`setdefault`) and never retries it: the store is not asked about that inumber again.
- `write_entry` writes everything after the last `/` of the key. The key is the whole line up to its last tab, so this is the base name followed by the pnfsid, checksum, size and access-time fields, not only the base name.
- `short_loc` keeps the text after the first `group=` up to the first `&`, the next `group=`, or the end of the location, whichever comes first: `split('group=')` also stops at a second `group=`.

Modules:
- `Base`: `Option` and `Result`.
- `PyStr`: the Python 2 string operations the script uses: `in`, `split`, `rsplit(c, 1)`, `strip`, `join`. The first-occurrence search `IndexOf` is how `in` and `split` are modelled; the script itself never calls `find`. Splitting at one character has a second form, `SplitChar`, in which the read-back lemmas are proved; `SplitCharIsSplitOn` shows it agrees with `SplitOn`.
- `RootResolution`: `get_root`.
- `ParentCache`: `search_parent` and `dirs`.
- `RawDump`: `write_dump_raw`.
- `Runs`: grouping into maximal runs of equal keys, generic in the key type.
- `Condense`: `write_dump_condensed`, `write_entry` and `short_loc`.

## Model

| member | source | states |
|---|---|---|
| RootResolution.GetRoot | chimera-list.py:110-120 | a failure names one path segment, which never holds a '/'; the empty name fails only for a path made of slashes alone |
| RootResolution.PathHead | chimera-list.py:111-112 | after stripping the outer slashes and cutting at the first '/', the head is a non-empty name without '/' and the rest is a shorter non-empty path that does not end with '/'; with no '/' left, the stripped path is empty only when the path held slashes alone |
| RootResolution.GetRootIsFold | chimera-list.py:110-120 | `get_root` equals the left fold of `path2inumber` lookups over the non-empty '/'-separated segments of the path, with the empty name when there are none |
| RootResolution.ResolveFailsAt | chimera-list.py:113-119 | when the first k segments resolve and the k-th is not found, resolution fails naming the k-th segment |
| RootResolution.ResolveFailureNamesSegment | chimera-list.py:113-119 | every failure is of that form: it names a segment whose lookup failed after all earlier segments resolved |
| RootResolution.GetRootIgnoresOuterSlashes | chimera-list.py:111 | a leading or trailing '/' does not change the result |
| RootResolution.GetRootCollapsesEmptySegments | chimera-list.py:111-119 | "a//b" resolves exactly like "a/b" |
| RootResolution.GetRootFindsNested | chimera-list.py:110-120 | in a store with directory nb inside na, the path "na/nb" resolves to nb's inumber |
| RootResolution.GetRootNamesMissing | chimera-list.py:113-117 | in that store, "na/nx" with nx missing fails naming nx |
| ParentCache.Search | chimera-list.py:129-139 | one call returns the cached value for the inumber afterwards; it adds only that key and changes no existing entry; it asks the store exactly on a miss, and then returns the store's answer |
| ParentCache.SearchFaithful | chimera-list.py:126-139 | a cache holding the root path and store answers returns the store's answer (the configured path for the root) and keeps that property |
| ParentCache.SearchFailureCached | chimera-list.py:132-139 | a failed query is stored as None; the next call for that inumber is a hit returning None without asking the store |
| ParentCache.SearchAllFaithful | chimera-list.py:126-139 | over any sequence of calls, every result is exactly the path the store (or the configured root) gives |
| ParentCache.SearchAllQueriesOnce | chimera-list.py:130-137 | over any sequence of calls, the store is asked at most once per inumber, never about one already cached, and the inumbers asked about are exactly the new keys |
| ParentCache.SearchAllStable | chimera-list.py:130-139 | a key once in `dirs` keeps its value for the rest of the run |
| ParentCache.SearchAll | chimera-list.py:129-139 | a run of `search_parent` calls answers every call and never forgets a key of `dirs` |
| ParentCache.ParentPathCache.constructor | chimera-list.py:126 | `dirs` starts as the root inumber mapped to the configured root path, with no query asked |
| ParentCache.ParentPathCache.SearchParent | chimera-list.py:129-139 | returns the store's path for the inumber (the configured path for the root); the new `dirs` and query log are those of one Search step; the cache stays faithful and free of repeated queries |
| RawDump.Decimal | chimera-list.py:153 | `'%d' % n` is non-empty, starts with '-' exactly when n is negative, and holds only digits after that |
| RawDump.DigitsRoundTrip | chimera-list.py:153 | the digits of a natural number read back, most significant first, as that number, and start with '0' only for zero |
| RawDump.DecimalRoundTrip | chimera-list.py:153 | `'%d' % n` reads back as n, and has no leading zero unless n is zero |
| RawDump.DecimalNoTab | chimera-list.py:153 | a formatted number never holds a tab |
| RawDump.LineJoin | chimera-list.py:153 | a line is its six fields joined by tabs, followed by a newline |
| RawDump.LineFields | chimera-list.py:153 | when no text field holds a tab, a line ends in a newline and splitting the rest at tabs gives back path/name, pnfsid, checksum, size, atime and location |
| RawDump.RawLinesAppend | chimera-list.py:149-156 | rows are handled independently: the lines of a concatenation of rows are the concatenated lines |
| RawDump.RawLinesMembers | chimera-list.py:149-156 | RawLines, the lines written for a sequence of rows: a line is among them if and only if it is the line of a row whose parent path is truthy and whose line holds the pattern when one is set |
| RawDump.RawLinesBounded | chimera-list.py:149-156 | at most one line is written per row |
| RawDump.PatternInLocationKeeps | chimera-list.py:153-155 | a pattern that occurs in the location keeps the row |
| RawDump.PatternInPathKeeps | chimera-list.py:153-155 | a pattern that occurs in the parent path keeps the row |
| RawDump.DumpRow | chimera-list.py:149-156 | one row: the line is written exactly when the parent path is truthy and holds the pattern if one is set; the cache takes exactly one `search_parent` step for the row's parent |
| RawDump.WriteDumpRaw | chimera-list.py:149-156 | the loop writes exactly the lines of the rows that pass, in order, with the paths the cache stands for; afterwards `dirs` is what the `search_parent` calls for the rows' parents, in order, leave behind, and the query log grows by exactly the queries those calls make |
| Condense.ParseLine | chimera-list.py:209 | unpacking fails exactly when the stripped line has no tab; otherwise the stripped line is key, tab, location, the location holds no tab, and both parts are non-empty |
| Condense.ShortLoc | chimera-list.py:196-200 | a location without "group=" is kept unchanged |
| Condense.ShortLocCuts | chimera-list.py:196-200 | with "group=" first at index i, the result is the prefix of what follows it, up to the first '&', the next "group=", or the end; it holds no '&' and no "group=" |
| Condense.ShortLocPool | chimera-list.py:196-200 | "group=" followed by a pool name free of '&' and of "group=", then '&', gives back exactly the pool name |
| Condense.ShortLocs | chimera-list.py:201 | `map(short_loc, location_list)` keeps the number and order of the locations and simplifies each with `short_loc` |
| Condense.RecordLine | chimera-list.py:201 | the record starts with the text taken from the key and a tab, ends in a newline, and holds no other newline when its parts hold none |
| Condense.RecordLineReadBack | chimera-list.py:201 | the record ends in a newline; cutting it at its last tab gives back the text taken from the key and the joined locations, and splitting those at ',' gives back the simplified locations, as long as none holds ',' or a tab |
| Condense.SplitKey | chimera-list.py:191 | `rsplit('/', 1)` fails exactly when the key has no '/'; otherwise key is directory, '/', rest, and the rest holds no '/' |
| Condense.Flush | chimera-list.py:190-191 | `write_entry` fails exactly when the key has no '/', and the failure names that key |
| Condense.FlushAppends | chimera-list.py:191-201 | a successful `write_entry` keeps what was written, adds the directory line exactly when the directory differs from `last_dn`, then the record, and sets `last_dn` to the directory |
| Condense.FlushAll | chimera-list.py:190-202 | flushing the groups in order succeeds exactly when every key holds a '/', then only appends to the output; a failure names a key without '/' |
| Condense.FlushAllNoDirectory | chimera-list.py:191 | flushing aborts at the first key without '/', naming that key |
| Condense.FlushAllListing | chimera-list.py:190-202 | successive `write_entry` calls from a fresh writer produce the Listing of the entries, and `last_dn` ends as the last entry's directory |
| Condense.SameDirectoryOneHeader | chimera-list.py:192-194 | entries of one directory produce one directory line, then their records in order |
| Condense.ListingSplits | chimera-list.py:192-201 | when no directory holds a tab, the tab-free lines of the output are exactly the directory headers where the directory changes, and the other lines are exactly the records, each in order |
| Condense.FlushTwoFilesOneDirectory | chimera-list.py:185-216 | three sorted (key, location) pairs for two files of one directory, the first file stored twice, give one directory line and two records, the first carrying both locations in order |
| Runs.GroupsSound | chimera-list.py:204-216 | grouping yields non-empty runs with different neighbouring keys, and expanding them gives back the input pairs in order |
| Runs.GroupsUnique | chimera-list.py:204-216 | any other grouping with those properties is the same grouping |
| Runs.ClosedGroupsGrow | chimera-list.py:210-212 | reading more lines never changes a group already closed |
| Runs.GroupsAdvance | chimera-list.py:210-214 | one loop turn: a changed key closes the pending group and opens a new one, an equal key appends the location to it |
| Runs.GroupsTwoRuns | chimera-list.py:208-214 | two pairs with one key followed by one with another key give two runs, the first holding both values in order |
| Condense.CondenseEmpty | chimera-list.py:205-218 | an empty sorted file gives an empty output |
| Condense.CondenseParsed | chimera-list.py:204-216 | a bad-line error names the first line that does not unpack, a directory error names a key without '/', and success means every line unpacked |
| Condense.Condense | chimera-list.py:205-216 | a bad-line error names a line without a tab after the stripped lines that all have one, a directory error names a key without '/', and success means every stripped line holds a tab |
| Condense.CondenseListing | chimera-list.py:205-216 | with all lines well formed and all keys holding '/', the output is the Listing of the maximal runs, which lose and reorder nothing |
| Condense.CondenseBadLineAborts | chimera-list.py:208-211 | a line without a tab aborts the merge naming its index, whatever follows it, when the groups closed before it all have a directory |
| Condense.CondenseFlushFails | chimera-list.py:210-211 | a group closed by line i that cannot be flushed aborts the merge with that failure |
| Condense.FlushAllFailurePrefix | chimera-list.py:210-216 | once a flush fails, later groups do not change the outcome |
| Condense.EntryWriter.constructor | chimera-list.py:202 | the writer starts with nothing written and `last_dn` None |
| Condense.EntryWriter.WriteEntry | chimera-list.py:190-201 | `write_entry` succeeds exactly when the key holds '/', and then appends the lines Flush gives and updates `last_dn`; otherwise it changes nothing |
| Condense.MergeLine | chimera-list.py:210-214 | one loop turn keeps the merge state (pending key, its locations, flushed groups, output) in step with the groups of the lines read; on failure it reports the closed group that could not be flushed |
| Condense.WriteDumpCondensed | chimera-list.py:185-218 | the streaming loop returns exactly Condense of the lines: the listing of the maximal runs, or the first error |
| PyStr.RSplitOnceAt | chimera-list.py:191 | `rsplit(c, 1)` of a + c + b with no c in b is (a, b) |
| PyStr.SplitOnSecond | chimera-list.py:198 | the piece at index 1 of `split(sep)` is what lies between the first occurrence and the next |
| PyStr.SplitJoin | chimera-list.py:201 | `split(c)` of `c.join(xs)` gives back xs when no element holds c |
| PyStr.IsIn | chimera-list.py:154 | `p in s` is true exactly when p occurs in s at some index |
| PyStr.SplitOn | chimera-list.py:198 | `split(sep)` gives at least one piece, and more than one exactly when sep occurs |
| PyStr.RSplitOnce | chimera-list.py:209 | `rsplit(c, 1)` fails exactly when there is no c; otherwise the string is the first part, c, then the second part, which holds no c |
| PyStr.Strip | chimera-list.py:111 | `strip(chars)` is no longer than its input and neither starts nor ends with a character of `chars` |
| PyStr.StripCuts | chimera-list.py:111 | `strip(chars)` keeps one contiguous slice of the input, and everything cut off on either side is made of `chars` |
| PyStr.JoinNoChar | chimera-list.py:201 | `sep.join(xs)` holds no character that is in neither sep nor any element |
| PyStr.JoinSnoc | chimera-list.py:201 | joining one more element appends the separator and the element |

## Left out

- Command-line parsing, logging and timestamps (chimera-list.py:5-35) and configuration and credential loading (38-55): only I/O.
- `connect_db` and `get_rows` batching (66-99): the database is modelled by maps, and a query that raises is a missing key. A SQL NULL answer is not told apart from a failed query.
- The stored functions `path2inumber` and `inumber2path`, and the join query of `write_dump_raw`: their answers are parameters. `root_inumber_magic` is the caller's `parent` argument.
- The external `sort` (line 175): the merge takes the already sorted lines as input. Sortedness is not assumed; the merge is proved for any input order.
- Raw mode (168-170), `unlink_safe`, `os.rename`, and the clean-up on failure (160-164, 176-182, 220-225): file-system effects.
- RawDump.Line: the access time comes from `date_part('epoch', …)`, a float that `%d` truncates. The model takes the already truncated integer.
- Condense.WriteDumpCondensed: on an abort the script leaves the lines written so far in the output file. The model returns only the error, not that partial file.
- RootResolution.GetRoot: `sys.exit` on a failed lookup becomes a Failure carrying the segment's name; the exit message and status are not modelled. A lookup that answers SQL NULL is modelled as a failed lookup of that segment, while the script (lines 115-119) carries on with `None` as the parent: it then fails at the next segment, or returns `None` when the segment was the last one.
- Condense: the script's abort (lines 221-225) prints a fixed message naming neither the line nor the key; the model's error value (the index of the bad line, or the key without `/`) says more than the script does.
