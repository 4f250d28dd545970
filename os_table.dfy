/**
 * The process's OS environment table, seen through the accessors the core
 * calls.  The native functions themselves are foreign; the model keeps only
 * their effect on an abstract table from keys to values.  A key is stored
 * under its representative for the platform's case policy, so on Windows
 * "Path" and "PATH" name the same variable.
 */
module OsTable {
  import opened Wrappers
  import opened CaseTraits
  import opened EnvEntry

  /** Values by representative key. */
  type Table = map<string, string>

  /** The key a variable is stored under in the table. */
  function OsKey(p: Platform, key: string): string {
    Canon(PolicyFor(p), key)
  }

  /** `getenv`, `_dupenv_s`, `_wdupenv_s`: the current value, or `None` for
      the null pointer of an unset variable. */
  function Get(p: Platform, os: Table, key: string): (r: Option<string>)
    ensures r.Some? <==> OsKey(p, key) in os
    ensures r.Some? ==> r.value == os[OsKey(p, key)]
  {
    if OsKey(p, key) in os then Some(os[OsKey(p, key)]) else None
  }

  /** A name the accessors accept: `setenv`, `unsetenv` and `_putenv_s`
      refuse an empty name or one holding '=' with `EINVAL`. */
  predicate ValidName(key: string)
    ensures ValidName(key) ==> |key| > 0 && !HasEq(key)
  {
    key != "" && NoEq(key)
  }

  /** `setenv(k, v, 1)` on POSIX and `_putenv_s(k, v)` / `_wputenv(L"k=v")` on
      Windows, where an empty value removes the variable instead.  A refused
      name leaves the table as it was; `sys_setenv` ignores the error. */
  function Set(p: Platform, os: Table, key: string, value: string): (r: Table)
    ensures ValidName(key) ==> Get(p, r, key) == if p == Windows && value == "" then None else Some(value)
    ensures !ValidName(key) ==> r == os
    ensures forall k :: k != OsKey(p, key) ==> (k in r <==> k in os) && (k in r ==> r[k] == os[k])
  {
    if !ValidName(key) then os
    else if p == Windows && value == "" then os - {OsKey(p, key)}
    else os[OsKey(p, key) := value]
  }

  /** `unsetenv(k)`, and `_putenv_s(k, "")` on Windows; a refused name leaves
      the table as it was. */
  function Remove(p: Platform, os: Table, key: string): (r: Table)
    ensures ValidName(key) ==> Get(p, r, key) == None
    ensures !ValidName(key) ==> r == os
    ensures forall k :: k != OsKey(p, key) ==> (k in r <==> k in os) && (k in r ==> r[k] == os[k])
  {
    if !ValidName(key) then os else os - {OsKey(p, key)}
  }

  /** On Windows, setting the empty value is how `rmvar` and `sys_rmenv`
      remove a variable. */
  lemma WindowsSetEmptyRemoves(os: Table, key: string)
    ensures Set(Windows, os, key, "") == Remove(Windows, os, key)
  {
  }

  /** Removing twice is removing once. */
  lemma RemoveIdempotent(p: Platform, os: Table, key: string)
    ensures Remove(p, Remove(p, os, key), key) == Remove(p, os, key)
  {
  }

  /** `_wputenv(line)`: Windows splits the line at its first '=' into the
      variable's name and value, and refuses (EINVAL) a line without '=' or
      with an empty name. */
  function PutEntry(os: Table, line: string): (r: Table)
    ensures HasEq(line) && ValidName(KeyOf(line)) ==>
      Get(Windows, r, KeyOf(line)) == (if ValueOf(line) == "" then None else Some(ValueOf(line)))
    ensures HasEq(line) && ValidName(KeyOf(line)) ==>
      forall k :: k != OsKey(Windows, KeyOf(line)) ==> (k in r <==> k in os) && (k in r ==> r[k] == os[k])
    ensures !HasEq(line) || !ValidName(KeyOf(line)) ==> r == os
  {
    if !HasEq(line) then os else Set(Windows, os, KeyOf(line), ValueOf(line))
  }

  /** Putting the line `key=value` sets `key` to `value` when the key holds
      no '='. */
  lemma PutEntryOfMakeEntry(os: Table, key: string, value: string)
    requires NoEq(key)
    ensures PutEntry(os, MakeEntry(key, value)) == Set(Windows, os, key, value)
  {
    ProjectMakeEntry(key, value);
  }

  /** Why a call of `sys_getenv` as written has no defined result. */
  datatype GetenvError = NullToString

  /**
   * `sys_getenv` as written.  The Windows branch builds the string from the
   * buffer and the length `_dupenv_s` reports, and that length counts the
   * terminating NUL; the POSIX branch builds a `std::string` from what
   * `getenv` returns, which is a null pointer for an unset variable.
   */
  function SysGetenvAsWritten(p: Platform, os: Table, key: string): (r: Result<string, GetenvError>)
    ensures p == Windows ==> r.Success?
    ensures r.Failure? <==> p == Posix && Get(p, os, key).None?
  {
    match Get(p, os, key)
    case Some(v) => Success(if p == Windows then v + [NUL] else v)
    case None => if p == Windows then Success("") else Failure(NullToString)
  }

  /** For a set variable, the Windows branch returns one character too many. */
  lemma WindowsGetenvKeepsTerminator(os: Table, key: string)
    requires Get(Windows, os, key).Some?
    ensures SysGetenvAsWritten(Windows, os, key).value != Get(Windows, os, key).value
    ensures |SysGetenvAsWritten(Windows, os, key).value| == |Get(Windows, os, key).value| + 1
  {
  }

  /** For an unset variable, the POSIX branch has no defined result. */
  lemma PosixGetenvOfUnsetIsUndefined(os: Table, key: string)
    requires OsKey(Posix, key) !in os
    ensures SysGetenvAsWritten(Posix, os, key).Failure?
  {
  }

  /** `sys_getenv` as evidently intended: the value, or the empty string for an
      unset variable ("missing means empty"). */
  function SysGetenv(p: Platform, os: Table, key: string): (r: string)
    ensures Get(p, os, key).Some? ==> r == Get(p, os, key).value
    ensures Get(p, os, key).None? ==> r == ""
  {
    match Get(p, os, key)
    case Some(v) => v
    case None => ""
  }

  /** Reading after writing through the accessors gives the written value, on
      every platform (the Windows empty value reads back as ""); after a
      refused write the read gives what it gave before. */
  lemma GetAfterSet(p: Platform, os: Table, key: string, value: string)
    ensures ValidName(key) ==> SysGetenv(p, Set(p, os, key, value), key) == value
    ensures !ValidName(key) ==> SysGetenv(p, Set(p, os, key, value), key) == SysGetenv(p, os, key)
  {
  }
}
