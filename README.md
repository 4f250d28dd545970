# sessions: environment cache, key matching and path splitting

This project models the core of the `sessions` library. The library gives a
C++ program a container-like view of its environment variables and of its
command-line arguments. The model covers:

- **Key matching.** An entry `KEY=value` matches a key when it is longer than
  the key, has `=` right after it, and starts with the key. On Windows the
  comparison is case-insensitive (`ci_char_traits`, upper-casing in the "C"
  locale); elsewhere it is exact.
- **Entries.** Lines are built as `key + "=" + value`, in a fresh buffer with
  a terminating NUL. They are split back at the first `=` into key and value
  projections.
- **The OS environment.** It is an abstract table from keys to values, stored
  case-insensitively on Windows. As on Windows, putting an empty value removes
  the variable. The accessors refuse an empty name or a name holding '='
  (`EINVAL`), and then the table stays as it was.
- **`environ_table`.** This is the Windows cache: a vector of entry pointers
  closed by a null pointer, and the state of a class. Its operations are
  proved against spec functions on the list of entries (`Sync`, `SetEntries`,
  `RmEntries`). The lemmas tie these functions to the OS table: after a sync
  the mirror agrees with the OS about the key, and other keys are never
  touched. Every operation with a '='-free key keeps the mirror's keys unique
  (`UniqueKeys`). On such a mirror, a sync or removal of a well-formed name,
  done twice, changes nothing more than done once.
- **Null-terminated pointer arrays.** This covers the `envsize` scan and the
  cursors over `environ`: the plain pointer cursor, the memoising one and the
  eager one.
- **Path lists.** This covers `pathsep_iterator`, a class stepping through
  separator-delimited segments, and `join_paths`.
- **Façades and arguments.** This covers the `environment` façades with their
  `variable` handles, and `arguments`.

The files, one module each: `wrappers.dfy`, `case_traits.dfy`,
`std_string.dfy`, `env_entry.dfy`, `os_table.dfy`, `ptr_array.dfy`,
`path_split.dfy`, `env_cache.dfy`, `session.dfy`, `arguments.dfy`. In three
places the code and its interfaces point different ways, and the model
follows the code:

- **Path iteration.** `next_sep` visits every segment, empty ones included.
  But iterators compare by their current segment only, so a loop up to the
  default `pathsep_iterator` stops at the first empty segment. See Findings.
- **`contains`.** The interface comment of the locking cache
  (include/red/session_envcache.hpp:41-43) calls `contains` cache-only and
  gives no body. The other interface (include/red/session_impl.hpp:84-85)
  and the implementation in src/session.cpp:352-356 ask the OS. The model
  asks the OS.
- **`find` and external changes.** `find` of the locking cache is a
  mirror-only lookup (include/red/session_envcache.hpp:59-63,
  `EnvCache.EnvironCache.Find`), so it does not see changes made to the OS
  behind the cache's back. The body of `find` of the cache behind the
  `environment` façade of include/ixm/session.hpp is not part of this model.
  The Windows implementation layer answers `env_find` with the synchronised
  `find_pos` (src/windows.cxx:319-321), and the test at test/test.cpp:71-78
  expects a synchronised answer. So the model's façade `find`
  (`Session.Environment.Find`) is the synchronised lookup.

## Model

| member | source | states |
|---|---|---|
| CaseTraits.PolicyFor | src/session.cpp:127-129 | keys match case-insensitively exactly on Windows |
| CaseTraits.PathSep | include/red/sys_layer.hpp:44-49 | the path separator is ';' on Windows and ':' elsewhere |
| CaseTraits.ToUpper | src/session.cpp:59-64 | only 'a'..'z' change, each to its upper-case letter; '=' maps to itself and nothing else does |
| CaseTraits.CiEq | src/session.cpp:66-68 | `eq` holds iff the characters are equal or one is the lower-case partner of the other, an upper-case letter |
| CaseTraits.CiLt | src/session.cpp:69-71 | `lt` is code-point order among non-letters and among lower-case letters, and it never holds of two `eq` characters |
| CaseTraits.CiEqIsEquivalence | include/ixm/session_impl.hpp:155-160 | `eq` is reflexive, symmetric and transitive; `lt` is irreflexive and asymmetric; `eq` holds iff neither `lt` does |
| CaseTraits.CanonEqIffPrefixEq | src/session.cpp:66-68 | two keys of one length share a table slot iff they are equal character by character under the policy |
| CaseTraits.CiCompare | src/session.cpp:72-79 | returns -1, 0 or 1; 0 iff the first n characters agree after upper-casing; otherwise there is a first position where the upper-cased characters differ, and the result is -1 iff there the first string's is smaller |
| CaseTraits.CiFind | src/session.cpp:80-89 | the first of the n positions whose character equals `a` case-insensitively, or none when no position does |
| StdString.Find | src/session.cpp:372-381 | `find(c, from)`: the first position at or after `from` holding `c`, or npos when no such position exists |
| StdString.Substr | src/session.cpp:372-381 | `substr(pos, count)`: out of range iff pos > size(); otherwise at most `count` characters from pos, the rest of the string under npos |
| EnvEntry.Matches | src/session.cpp:113-119 | an entry matches iff it is longer than the key, has '=' right after it, and its first characters have the key's representative under the policy; a matching entry holds '=' |
| EnvEntry.MakeEntry | src/session.cpp:47-53 | the entry is the key, then '=', then the value |
| EnvEntry.NewEnvStr | src/impl.hpp:62-73 | the buffer holds two characters more than key and value together: the key, '=', the value, then NUL; its text is the entry |
| EnvEntry.KeyOf | include/red/sessions/ranges.hpp:66-77 | the part before the first '=' (a '='-free prefix followed by '='); the whole line when there is no '=' |
| EnvEntry.ValueOf | include/red/sessions/session.hpp:88-101 | the part after the first '='; the whole line when there is no '=' (npos + 1 wraps to 0) |
| EnvEntry.EntryRoundTrip | include/ranges.hpp:14-26 | for a line with '=', key + "=" + value rebuilds the line, and the key has no '=' |
| EnvEntry.ProjectMakeEntry | include/red/sessions/ranges.hpp:79-90 | projecting a built entry gives back its key and its value when the key has no '=' |
| EnvEntry.MatchesIffSameKey | src/session.cpp:113-119 | for a '='-free key: an entry matches iff it has '=' and its key projection is the same key under the policy |
| EnvEntry.MakeEntryMatchesKey | src/windows.cxx:275-286 | an entry built from a key matches that key under either policy |
| EnvEntry.MatchedValue | src/windows.cxx:164-168 | in a matching entry the value starts right after key and '=' |
| EnvEntry.ShorterKeyDoesNotMatch | src/windows.cxx:209-218 | a key never matches an entry for a longer '='-free key |
| EnvEntry.FooAndFoobar | src/windows.cxx:212-216 | "FOO" does not match "FOOBAR=2"; it matches "FOO=1" under both policies and "foo=1" only case-insensitively |
| EnvEntry.LineElemValue | include/red/session.hpp:102-105 | as written: defined exactly for lines holding '=' |
| EnvEntry.LineElemValueKeepsSeparator | include/red/session.hpp:99-106 | as written the value projection is "=" + value, never the value |
| EnvEntry.FirstMatch | src/session.cpp:339-350 | the first matching position, or the end when none matches |
| EnvEntry.FirstMatchUnique | src/windows.cxx:210-217 | any position with the first-match property is the one `find_if` returns |
| EnvEntry.Keys | include/session.hpp:90-95 | one key projection per entry, in order |
| EnvEntry.Values | include/session.hpp:84-89 | one value projection per entry, in order |
| EnvEntry.KeysValuesRebuild | include/red/ranges.hpp:14-26 | position by position, key + "=" + value rebuilds each entry |
| OsTable.Get | src/session.cpp:232-235 | the value stored under the key's slot, or none when the key is unset |
| OsTable.ValidName | src/session.cpp:236-243 | a name the accessors accept is non-empty and holds no '=' |
| OsTable.Set | src/session.cpp:202-208 | for an accepted name, afterwards the key reads as the value (unset on Windows for ""); a refused name leaves the table unchanged; every other slot is unchanged |
| OsTable.Remove | src/session.cpp:210-213 | for an accepted name, afterwards the key is unset; a refused name leaves the table unchanged; every other slot is unchanged |
| OsTable.WindowsSetEmptyRemoves | src/windows.cxx:188-199 | on Windows, setting "" is removing |
| OsTable.RemoveIdempotent | src/session.cpp:240-243 | removing twice is removing once |
| OsTable.PutEntry | src/windows.cxx:184-185 | for a line with '=' whose name is accepted, the name reads as the value (unset for "") and no other key changes; a line without '=' or with an empty name changes nothing |
| OsTable.PutEntryOfMakeEntry | src/windows.cxx:170-186 | putting `key=value` is setting key to value when the key has no '=' |
| OsTable.SysGetenvAsWritten | src/session.cpp:188-200 | as written: Windows always answers; POSIX has no defined answer exactly when the key is unset |
| OsTable.WindowsGetenvKeepsTerminator | src/session.cpp:196-199 | as written, a set Windows variable comes back one character too long |
| OsTable.PosixGetenvOfUnsetIsUndefined | src/session.cpp:232-235 | as written, an unset POSIX variable has no defined result |
| OsTable.SysGetenv | src/session.cpp:323-326 | the current value, or "" when unset |
| OsTable.GetAfterSet | test/test.cpp:38-41 | reading after setting an accepted name gives the value set, on both platforms; after a refused set the read is what it was |
| PtrArray.FirstNull | src/sys.hpp:21-26 | the index holds null and every earlier slot is non-null |
| PtrArray.HasNull | src/sys.hpp:21-26 | the array holds a null pointer somewhere, so the scan for it stops |
| PtrArray.EnvSize | src/impl.hpp:55-60 | the count stops at the first null: that slot is null, all before are not, and the array is only read |
| PtrArray.Entries | include/red/sessions/ranges.hpp:97-105 | the strings before the first null, in order |
| PtrArray.PtrCursor.constructor | include/ranges.hpp:49-52 | the cursor points at the given slot of a non-null array |
| PtrArray.PtrCursor.Next | include/red/sessions/session.hpp:56 | moves one slot forward |
| PtrArray.PtrCursor.Prev | include/red/sessions/session.hpp:57 | moves one slot back |
| PtrArray.PtrCursor.Advance | include/ixm/session_impl.hpp:55-64 | moves n slots |
| PtrArray.PtrCursor.Read | include/red/sessions/session.hpp:58 | returns the pointer in the current slot |
| PtrArray.PtrCursor.At | include/ixm/session_impl.hpp:50-53 | returns the pointer n slots on |
| PtrArray.PtrCursor.Plus | include/ixm/session_impl.hpp:66-71 | a new cursor on the same array, n slots on |
| PtrArray.PtrCursor.DistanceTo | include/red/sessions/session.hpp:59-61 | this slot plus the distance is the other cursor's slot |
| PtrArray.PtrCursor.AtSentinel | include/red/sessions/session.hpp:65-67 | the current slot is null; for a cursor not past the first null, exactly when it is at that first null |
| PtrArray.PtrCursor.Equal | include/ixm/session_impl.hpp:82-84 | the same array and a distance of zero |
| PtrArray.PtrCursor.Less | include/ixm/session_impl.hpp:88-90 | `<` holds iff the other cursor is a positive distance on |
| PtrArray.PtrCursor.Greater | include/ixm/session_impl.hpp:91-93 | `>` holds iff the other cursor is a negative distance on |
| PtrArray.PtrCursor.GreaterEq | include/ixm/session_impl.hpp:94-96 | `>=`, written as `!(<)`, holds iff this slot is not before the other's |
| PtrArray.PtrCursor.LessEq | include/ixm/session_impl.hpp:97-99 | `<=`, written as `!(>)`, holds iff this slot is not after the other's |
| PtrArray.CursorLaws | include/ixm/session_impl.hpp:26-80 | (it + n) - it == n; it[n] == *(it + n); ++ then -- restores the position |
| PtrArray.MemoCursor.constructor | include/red/sessions/ranges.hpp:56-59 | starts at the slot with its narrowing already memoised |
| PtrArray.MemoCursor.Read | include/red/sessions/ranges.hpp:25-33 | narrows again only when the position moved; afterwards the memo is for the current slot; with a valid memo the result is the current slot narrowed |
| PtrArray.MemoCursor.Advance | include/red/sessions/ranges.hpp:41-43 | moves n slots and leaves the memo alone |
| PtrArray.MemoCursor.Next | include/red/sessions/ranges.hpp:35-37 | moves one slot forward and leaves the memo alone |
| PtrArray.MemoCursor.Prev | include/red/sessions/ranges.hpp:38-40 | moves one slot back and leaves the memo alone |
| PtrArray.MemoCursor.DistanceTo | include/red/ranges.hpp:61-63 | this slot plus the distance is the other cursor's slot |
| PtrArray.MemoCursor.Equal | include/red/sessions/ranges.hpp:45-47 | the same block and a distance of zero |
| PtrArray.MemoCursor.AtSentinel | include/red/sessions/ranges.hpp:48-50 | the current slot is null; for a cursor not past the first null, exactly when it is at that first null |
| PtrArray.NarrowAll | include/red/sessions/session.hpp:81-84 | every entry before the null, narrowed, in order |
| PtrArray.EnumerateMemo | include/red/sessions/ranges.hpp:92-106 | iterating to the sentinel with the memoising cursor yields every entry before the first null, narrowed |
| PtrArray.EagerCursor.constructor | include/ranges.hpp:87-89 | the current string is the first slot narrowed |
| PtrArray.EagerCursor.Read | include/ranges.hpp:62 | returns the stored string, which is the current slot narrowed |
| PtrArray.EagerCursor.Advance | include/ranges.hpp:74-78 | moves n slots, then narrows the new slot, which must exist |
| PtrArray.EagerCursor.Next | include/ranges.hpp:64-68 | moves one slot forward, then narrows it |
| PtrArray.EagerCursor.Prev | include/ranges.hpp:69-73 | moves one slot back, then narrows it |
| PtrArray.EagerCursor.AtSentinel | include/ranges.hpp:83 | the base cursor's test: the current slot is null; for a cursor not past the first null, exactly when it is at that first null |
| PtrArray.EnumerateEager | include/ranges.hpp:55-92 | iterating with the eager cursor yields the same narrowed entries |
| PathSplit.Segments | src/session.cpp:365-382 | at least one segment, none holding the separator |
| PathSplit.JoinWith | include/red/sessions/session.hpp:266-270 | a single segment joins to itself; otherwise the first segment, the separator, then the join of the rest |
| PathSplit.JoinSegments | include/red/sessions/session.hpp:184-201 | joining the segments of a value gives the value back |
| PathSplit.SegmentsOfJoin | include/red/sessions/session.hpp:266-276 | splitting a join of separator-free segments gives the segments back |
| PathSplit.TakeWhileNonEmpty | include/ixm/session_impl.hpp:133-135 | the longest prefix of non-empty segments: what follows it, if anything, is empty |
| PathSplit.PathSepIterator.Default | include/session_impl.hpp:23 | empty text, empty view and offset 0 |
| PathSplit.PathSepIterator.constructor | include/ixm/session_impl.hpp:119-121 | the view is the first segment at once, and the rest are still to come |
| PathSplit.PathSepIterator.Copy | include/ixm/session_impl.hpp:128 | a copy with the same text, view and offset |
| PathSplit.PathSepIterator.Increment | src/session.cpp:365-382 | `next_sep`: the three offset cases as in the code; in segment terms, the next segment becomes current, and past the last one the view is empty |
| PathSplit.PathSepIterator.PostIncrement | include/ixm/session_impl.hpp:127-131 | returns a fresh iterator in the old state and advances this one by one segment |
| PathSplit.PathSepIterator.Equals | include/ixm/session_impl.hpp:133-135 | equal iff the current segments are equal, whatever the texts and offsets; any two iterators on an empty segment are equal |
| PathSplit.CollectSegments | include/ixm/session_impl.hpp:133-138 | as written: looping to the default iterator yields the segments before the first empty one |
| PathSplit.EmptySegmentEndsIteration | include/red/session_impl.hpp:44-49 | "a::b" has segments a, "", b but the loop yields only a; "" yields nothing |
| PathSplit.CollectAllSegments | src/session.cpp:365-382 | a loop that ends when the offset reaches npos yields every segment |
| PathSplit.DropTrailingSep | include/red/sessions/session.hpp:272-273 | one trailing separator is removed, and nothing else changes |
| PathSplit.JoinPaths | include/red/sessions/session.hpp:266-276 | the join of the segments with one trailing separator dropped; the join must not be empty |
| PathSplit.SplitJoinPaths | include/red/sessions/session.hpp:266-276 | splitting what `join_paths` built from non-empty separator-free segments gives them back |
| PathSplit.TrailingEmptyDropped | include/red/sessions/session.hpp:270-273 | a trailing empty segment leaves no trace in the joined path |
| EnvCache.OsLine | src/windows.cxx:252-273 | present iff the OS holds the key; then it matches the key and its value is the OS's whole value |
| EnvCache.CStr | src/windows.cxx:276-285 | the bytes of a buffer before its first NUL: a NUL-free prefix, followed in the buffer by a NUL when shorter |
| EnvCache.CStrOfTerminated | src/windows.cxx:70-79 | a NUL-free string with its terminator reads back as the string |
| EnvCache.OsValueAsWritten | src/windows.cxx:268-269 | the copy sized by the UTF-16 count: the whole value when each character is one byte, otherwise only its first count+1 bytes |
| EnvCache.WideCountTruncates | src/windows.cxx:268-269 | a value whose UTF-8 form is two or more bytes longer than its UTF-16 count loses its tail |
| EnvCache.EuroIsCut | src/windows.cxx:268-269 | the value "€" (bytes E2 82 AC, one UTF-16 unit) is copied as E2 82 |
| EnvCache.OsValue | src/windows.cxx:268-269 | sized by the UTF-8 length, the copy is the whole value |
| EnvCache.Sync | src/windows.cxx:220-250 | the reconciled mirror and the position found, never past its end; what it means is stated by SyncAgreesWithOs, SyncKeepsOthers and SyncCases |
| EnvCache.SyncAgreesWithOs | src/windows.cxx:220-250 | after a sync the position is an entry iff the OS holds the key; then it is the first match and carries the OS's value |
| EnvCache.SyncKeepsOthers | src/windows.cxx:225-246 | a sync leaves the entries of every other key as they were, in order |
| EnvCache.SyncCases | src/windows.cxx:225-246 | insert before the sentinel (size + 1); replace in place (size and other positions kept; no change for equal values); erase (size - 1, end returned); or no change |
| EnvCache.SyncIdempotent | src/windows.cxx:229-238 | for a well-formed name on a mirror with unique keys, a second sync changes nothing |
| EnvCache.UniqueAtMostOne | src/windows.cxx:209-218 | in a mirror with unique keys, a well-formed name matches at most one entry |
| EnvCache.SyncKeepsUnique | src/windows.cxx:225-246 | a sync for a '='-free key keeps the keys unique |
| EnvCache.SetEntries | src/windows.cxx:170-186 | the mirror after `setvar`: same size (replaced) or one longer (appended); what it means is stated by SetEntriesPlaces |
| EnvCache.SetEntriesKeepsUnique | src/windows.cxx:172-182 | `setvar` with a '='-free key keeps the keys unique |
| EnvCache.SetEntriesPlaces | src/windows.cxx:172-182 | the new entry sits where the old one was (or at the end), size grows only when appended, and other keys' entries are kept |
| EnvCache.GetAfterSetVar | test/test.cpp:43-52 | for an accepted name: after `setvar` a sync finds the value written and changes nothing; for "" it reports the key unset |
| EnvCache.RmEntries | src/windows.cxx:188-199 | the mirror after `rmvar`: same size, or one shorter when an entry was erased; what it means is stated by RmEntriesRemoves |
| EnvCache.RmEntriesKeepsUnique | src/windows.cxx:190-196 | `rmvar` keeps the keys unique |
| EnvCache.RmEntriesRemoves | src/windows.cxx:188-199 | other keys' entries are kept; for an accepted name, the next sync reports the key unset |
| EnvCache.RmEntriesTwice | src/windows.cxx:188-199 | for a well-formed name, a second `rmvar` changes neither the OS nor a mirror with unique keys |
| EnvCache.EnvironCache.constructor | src/windows.cxx:123-147 | the mirror holds the block's entries up to its null, then the sentinel |
| EnvCache.EnvironCache.Take | src/impl.hpp:26-28 | takes over the other vector unchanged and leaves the other empty |
| EnvCache.EnvironCache.Size | src/windows.cxx:159-161 | one less than the vector's length: the number of entries before the sentinel |
| EnvCache.EnvironCache.GetVarLine | src/windows.cxx:209-218 | the first matching entry of the mirror, or the end |
| EnvCache.EnvironCache.GetVarLineSync | src/windows.cxx:220-250 | the new mirror and position are those of `Sync`; the sentinel stays last; the OS is untouched; unique keys stay unique for a '='-free key |
| EnvCache.EnvironCache.GetVar | src/windows.cxx:164-168 | returns the OS's value for the key, or none |
| EnvCache.EnvironCache.SetVar | src/windows.cxx:170-186 | the mirror becomes `SetEntries`, the OS gets `key=value`; unique keys stay unique for a '='-free key |
| EnvCache.EnvironCache.RmVar | src/windows.cxx:188-199 | the mirror becomes `RmEntries`, the key is removed from the OS, and unique keys stay unique |
| EnvCache.EnvironCache.FindPos | src/windows.cxx:201-205 | the synchronised first-match index, which is >= 0 iff the OS holds the key, or -1 |
| EnvCache.EnvironCache.Find | include/red/session_envcache.hpp:59-63 | the mirror-only first match; nothing changes |
| EnvCache.EnvironCache.Contains | include/red/session_impl.hpp:84-85 | asks the OS only, and agrees with what a sync would find |
| Session.Environment.Index | include/ixm/session.hpp:47-54 | a fresh handle holding exactly the given key |
| Session.Environment.Find | include/ixm/session.hpp:56-60 | the synchronised lookup: a real entry iff the OS holds the key, then the first match with the OS's value; otherwise the end |
| Session.Environment.Contains | include/red/session.hpp:69-71 | true iff the OS holds the key |
| Session.Environment.Erase | include/ixm/session.hpp:76-80 | the mirror becomes `RmEntries`, the OS becomes `Remove`, and for an accepted name the OS no longer holds the key |
| Session.Environment.Size | include/red/session.hpp:80 | the number of entries in the mirror |
| Session.Environment.Empty | include/ixm/session.hpp:71 | true iff there is no entry |
| Session.Environment.KeyRange | include/red/session.hpp:91-93 | one key per entry, and with the value range it rebuilds each entry holding '=' |
| Session.Environment.ValueRange | include/session.hpp:84-89 | one value per entry: the text after the entry's first '=' (the `find('=')+1` projection; the `substr(eq)` of include/red/session.hpp:102-105 is in Findings) |
| Session.Variable.Assign | include/red/session.hpp:21-24 | the cache's `setvar` of the handle's key |
| Session.Variable.Value | include/red/session.hpp:26 | re-reads through the cache and returns the OS's current value |
| Session.Variable.Split | include/red/session.hpp:27-30 | a path iterator on the first segment of the current value, and the default iterator |
| Session.AssignThenRead | test/test.cpp:38-52 | for an accepted name, writing through a handle and reading back gives the value, or unset for "" |
| Session.ExternalChangesVisible | src/windows.cxx:220-250 | for an accepted name, a key removed from the OS behind the cache reads unset; a key set there is found with its value |
| Session.StayInSync | test/test.cpp:71-78 | after one key is removed and another set behind the cache, the façade's `find` of the first gives the end and reading the second gives its new value |
| Session.FindInBlock | src/session.cpp:339-350 | the first entry of the native block matching under the platform's policy |
| Session.Contains | src/session.cpp:352-356 | true iff `getenv` finds the key |
| Session.ContainsAfterSetAndErase | test/test.cpp:79-87 | for an accepted name: after a set the key is contained (unless Windows removed it for ""), after erase it is not; a refused name is contained exactly as before |
| Session.OsVariable.Assign | src/session.cpp:311-316 | writes through to the OS and remembers the value |
| Session.OsVariable.Query | src/session.cpp:323-326 | built on the corrected `sys_getenv` of Findings (OsTable.SysGetenv): the OS's current value, "" when unset |
| Session.OsVariable.Split | src/session.cpp:318-321 | iterators over the remembered value, not the OS's |
| Session.AssignThenQuery | src/session.cpp:311-326 | with the corrected `sys_getenv`: querying after assigning an accepted name gives the value assigned; after a refused one, what it gave before |
| Session.RangeSize | include/red/sessions/session.hpp:160-165 | the distance from begin to the sentinel is the index of the first null |
| Session.SplitPath.constructor | include/red/sessions/session.hpp:191-193 | keeps its own copy of the value |
| Session.SplitPath.Parts | include/red/sessions/session.hpp:195-200 | no segment iff the copied value is empty; otherwise separator-free segments whose join is the value |
| Arguments.Terminated | src/windows.cxx:91-109 | the shape `initialize_args` builds: the last slot is null and every earlier one is not, so the first null is the last slot |
| Arguments.Argc | src/windows.cxx:313 | `argc()`, one less than the vector's size: for a terminated vector, the number of arguments before the null |
| Arguments.Size | src/session.cpp:285-288 | `argc()`, which for a terminated vector is the number of arguments |
| Arguments.Get | src/session.cpp:269-273 | the unchecked read agrees with `at` on every valid index, and reads the argument there |
| Arguments.At | src/session.cpp:275-283 | out_of_range iff i >= size(), otherwise the slot `argv()[i]`, which for a terminated vector is the i-th argument |
| Arguments.Empty | include/red/sessions/session.hpp:226 | for a terminated vector, true iff there is no argument |
| Arguments.CBegin | src/session.cpp:290-293 | at or before cend, equal to it iff there is no argument; for a terminated vector with arguments, the slot of the first |
| Arguments.CEnd | src/session.cpp:295-298 | inside the vector, and for a terminated vector cend is the null slot |
| Arguments.Reversed | include/red/sessions/session.hpp:242-246 | size() elements, the i-th being the slot size()-1-i, which for a terminated vector is that argument |
| Arguments.RevFrom | include/red/sessions/session.hpp:242-246 | the reverse iterators yield element it-1-i at step i |
| Arguments.ReverseOfReverse | include/red/sessions/session.hpp:242-246 | for a terminated vector, cend - cbegin == size() and the forward range holds exactly the arguments; the reverse range has size() elements, and reversing it again gives the forward range |

## Left out

- Encoding conversion (`to_utf8`, `to_utf16`, `narrow`, `wide`) relies on foreign Win32 calls. The cache treats it as the identity, and the cursors take narrowing as a function parameter.
- EnvCache.OsLine: `varline_from_os` sizes the copy by the UTF-16 count `_wdupenv_s` returns, terminator included. For a value whose UTF-8 form is that count or one byte longer the entry is right; a longer one is cut short (see Findings, EnvCache.OsValueAsWritten). The model's table holds values as characters and uses the corrected copy, EnvCache.OsValue, so OsLine carries the whole value.
- The native accessors (`_wdupenv_s`, `_wputenv`, `getenv`, `setenv`, `unsetenv`, `_dupenv_s`, `_putenv_s`) are foreign. They are replaced by their effect on the abstract table. The `ENOMEM` error of `_wdupenv_s` is not modelled.
- Windows `sys_setenv` writes a NUL into the built line to split it into key and value. The model sets the key to the value directly.
- The mutex of the locking caches is not modelled, and neither are other threads.
- Memory ownership (`new[]`, `delete[]`, `free_env`, `unique_ptr`) is not modelled. The mirror holds entries as values, so aliasing between entry pointers is not modelled either.
- The first call of `_wgetenv("initpls")` and the nested exception on a failed conversion in the `environ_table` constructor are not modelled.
- EnvCache.EnvironCache.Size: on a moved-from cache, `size()` in the source wraps to the largest `size_t`. The model gives -1 there.
- Argument capture (`CommandLineToArgvW`, the conversion loop of `initialize_args`, the `.init_array` hook) happens at process start and is left out; `Arguments.Terminated` states the shape it leaves. So is `init_args` (src/session.cpp:258-261), which assigns the count to the vector pointer and the pointer to the count.
- Range-v3 internals are left out (`split_view`, `views::join`, `transform_view`, `basic_iterator`).
- Session.SplitPath.Parts: yields nothing for "" and `Segments` otherwise. Whether `split_view` yields a trailing empty segment for a value ending in the separator is not modelled; `Parts` yields it.
- Default-constructed cursors, which hold a null block, are not modelled: every model cursor has an array. Postfix `++`/`--` and `-=` of `ptrarray_iterator` are the prefix forms and `Advance(-n)`.
- CaseTraits.CiLt: the order among non-letters is stated by code point. The source compares `char`, which is signed, so bytes above 0x7F sort before every ASCII character there.
- CaseTraits.CiCompare: orders by `char` code points. The source compares `char`, which is signed for bytes above 0x7F, and upper-cases in the "C" locale only.
- CaseTraits.CiFind: requires a non-negative count. A negative `int` count in the source runs until it wraps.
- PtrArray.EagerCursor.Next: a move onto the sentinel narrows the null pointer. The model passes it to `narrow` as `None` and says nothing about the result.
- Session.Environment.Size: the cache in include/red/session.hpp holds `std::string`s without a sentinel, and its `size()` is the vector's size. The model uses the Windows cache's entry count.
- The POSIX cache (`std::vector<std::string>`) is not modelled separately. The cache model is the Windows, case-insensitive one, and the sensitive policy appears in the cache-free `find`.
- EnvCache.SyncIdempotent: not promised for the empty key or a key holding '='. The Windows block holds several entries that start with '=' (the drives' working directories), and all of them match the empty key. `setvar` of a key holding '=' can put a second entry for a variable (`A=B=v` beside `A=1`).
- EnvCache.EnvironCache.constructor: the native block and the OS table are taken as independent inputs. Nothing requires the block's entries to agree with the table or to have unique keys, so the invariant lemmas about unique keys apply only when the snapshot has them.
- EnvCache.RmEntriesTwice: not promised for the empty key or a key holding '=', for the same reason as EnvCache.SyncIdempotent.
- Session.OsVariable.Query: models the corrected `sys_getenv` (OsTable.SysGetenv). As written, the query returns the value with its NUL on Windows and is undefined for an unset POSIX variable; see Findings.
- Session.AssignThenQuery: holds of the corrected `sys_getenv` only, for the same reason as Session.OsVariable.Query.

## Findings

| source | as written | input that shows it | evidently intended | confidence | as-written member | corrected member |
|---|---|---|---|---|---|---|
| include/red/session.hpp:102-105 | the value projection is `line.substr(eq)`, which keeps the '='; without '=' it throws inside a `noexcept` operator | the entry `A=1` gives `=1` | the text after the '=' (`1`), as every other projection computes | high, not executed | EnvEntry.LineElemValueKeepsSeparator | EnvEntry.EntryRoundTrip, Session.Environment.ValueRange |
| src/session.cpp:188-200 | returns `{val, len}`, where `_dupenv_s`'s length counts the terminating NUL | `A=1` is read back as `"1\0"`, two characters | the value without its terminator | high, not executed | OsTable.WindowsGetenvKeepsTerminator | OsTable.GetAfterSet, Session.AssignThenQuery |
| src/session.cpp:232-235 | builds a `std::string` from `getenv`'s result, which is null for an unset variable | querying an unset variable `X` | "" for an unset variable | high, not executed | OsTable.PosixGetenvOfUnsetIsUndefined | OsTable.SysGetenv, Session.OsVariable.Query |
| src/windows.cxx:268-269 | the value is copied with `wvalue_l`, the UTF-16 count with its terminator, as its length in UTF-8 bytes | "€" (one UTF-16 unit, UTF-8 E2 82 AC) is stored as E2 82, and `getvarline_sync` replaces the mirror's correct entry with it | the value's full UTF-8 length | high, not executed | EnvCache.OsValueAsWritten, EnvCache.EuroIsCut | EnvCache.OsValue, EnvCache.OsLine |
| include/ixm/session_impl.hpp:133-135 | iterators compare by current segment only, so a loop up to the default iterator ends at the first empty segment | `"a::b"` yields only `a` | every segment: `a`, `""`, `b` | medium, not executed | PathSplit.EmptySegmentEndsIteration | PathSplit.CollectAllSegments |
