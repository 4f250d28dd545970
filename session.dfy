/**
 * The public façades: `environment` over the cache and its `variable`
 * handles, the `environment` that reads the OS directly (with a variable
 * that remembers its value), and the range-based `environment` over the
 * native block with `splitpath`.
 */
module Session {
  import opened Wrappers
  import opened CaseTraits
  import opened EnvEntry
  import opened OsTable
  import opened PtrArray
  import opened PathSplit
  import opened EnvCache

  /** `environment` over the cache: every member delegates to it. */
  class Environment {
    const cache: EnvironCache

    constructor (cache: EnvironCache)
      ensures this.cache == cache
    {
      this.cache := cache;
    }

    /** `operator[]`: a handle holding its own copy of the key; nothing is
        looked up yet. */
    method Index(key: string) returns (v: Variable)
      ensures fresh(v) && v.key == key && v.cache == cache
    {
      v := new Variable(key, cache);
    }

    /** `find`: the Windows cache answers it with `find_pos`, the
        synchronised lookup, and `end()` stands for its -1.  So an entry is
        found exactly when the OS holds the key, and it carries the OS's
        value. */
    method Find(key: string) returns (it: nat)
      requires cache.Valid()
      modifies cache
      ensures cache.Valid() && cache.os == old(cache.os)
      ensures cache.lines == Sync(old(cache.lines), cache.os, key).lines
      ensures it <= cache.Size()
      ensures it < cache.Size() <==> Get(Windows, cache.os, key).Some?
      ensures it < cache.Size() ==>
        it == FirstMatch(Policy, cache.lines, key) &&
        cache.lines[it][|key| + 1..] == Get(Windows, cache.os, key).value
    {
      var r := cache.FindPos(key);
      it := if r >= 0 then r else cache.Size();
    }

    /** `contains`: the cache's OS-only query. */
    predicate Contains(key: string)
      reads cache
      ensures Contains(key) <==> Get(Windows, cache.os, key).Some?
    {
      cache.Contains(key)
    }

    /** `erase`: the cache's `rmvar`. */
    method Erase(key: string)
      requires cache.Valid()
      modifies cache
      ensures cache.Valid()
      ensures cache.lines == RmEntries(old(cache.lines), key)
      ensures cache.os == Remove(Windows, old(cache.os), key)
      ensures ValidName(key) ==> Get(Windows, cache.os, key).None?
    {
      cache.RmVar(key);
    }

    /** `size()` and `empty()` read the mirror directly. */
    function Size(): (n: int)
      reads this, cache
      requires cache.Valid()
      ensures n == |cache.lines|
    {
      cache.Size()
    }

    predicate Empty()
      reads this, cache
      requires cache.Valid()
      ensures Empty() <==> cache.lines == []
    {
      Size() == 0
    }

    /** `keys()` and `values()`: every entry projected at its first '='. */
    function KeyRange(): (r: seq<string>)
      reads this, cache
      requires cache.Valid()
      ensures |r| == |cache.lines|
      ensures forall i :: 0 <= i < |r| && HasEq(cache.lines[i]) ==>
        MakeEntry(r[i], ValueRange()[i]) == cache.lines[i]
    {
      var lines := cache.Lines();
      forall i | 0 <= i < |lines| && HasEq(lines[i])
        ensures MakeEntry(Keys(lines)[i], Values(lines)[i]) == lines[i]
      {
        EntryRoundTrip(lines[i]);
      }
      Keys(lines)
    }

    function ValueRange(): (r: seq<string>)
      reads this, cache
      requires cache.Valid()
      ensures |r| == |cache.lines|
      ensures forall i :: 0 <= i < |r| && HasEq(cache.lines[i]) ==>
        r[i] == cache.lines[i][|KeyOf(cache.lines[i])| + 1..]
    {
      Values(cache.Lines())
    }
  }

  /** `environment::variable` over the cache: only the key is stored; every
      read and write goes to the cache. */
  class Variable {
    const key: string
    const cache: EnvironCache

    constructor (key: string, cache: EnvironCache)
      ensures this.key == key && this.cache == cache
    {
      this.key := key;
      this.cache := cache;
    }

    /** `variable = value`: the cache's `setvar`. */
    method Assign(value: string)
      requires cache.Valid()
      modifies cache
      ensures cache.Valid()
      ensures cache.lines == SetEntries(old(cache.lines), key, value)
      ensures cache.os == PutEntry(old(cache.os), MakeEntry(key, value))
    {
      cache.SetVar(key, value);
    }

    /** `value()`: the cache's `getvar`, which answers with the OS's value. */
    method Value() returns (r: Option<string>)
      requires cache.Valid()
      modifies cache
      ensures cache.Valid() && cache.os == old(cache.os)
      ensures cache.lines == Sync(old(cache.lines), cache.os, key).lines
      ensures r == Get(Windows, cache.os, key)
    {
      r := cache.GetVar(key);
    }

    /** `split()`: a path iterator over the current value (empty when unset)
        and the default iterator as its end. */
    method Split() returns (first: PathSepIterator, last: PathSepIterator)
      requires cache.Valid()
      modifies cache
      ensures cache.Valid() && cache.os == old(cache.os)
      ensures fresh(first) && fresh(last) && first.Valid()
      ensures var text := match Get(Windows, cache.os, key) case None => "" case Some(v) => v;
        first.text == text && first.view == Segments(text, PathSep(Windows))[0]
      ensures last.view == ""
    {
      var v := Value();
      var text := match v case None => "" case Some(s) => s;
      first := new PathSepIterator(text, PathSep(Windows));
      last := new PathSepIterator.Default(PathSep(Windows));
    }
  }

  /** Writing a variable through its handle and reading it back gives the
      value written; an empty value removes the variable on Windows, so it
      reads back as unset. */
  method AssignThenRead(env: Environment, key: string, value: string) returns (r: Option<string>)
    requires env.cache.Valid() && ValidName(key)
    modifies env.cache
    ensures env.cache.Valid()
    ensures r == if value == "" then None else Some(value)
  {
    var v := env.Index(key);
    v.Assign(value);
    PutEntryOfMakeEntry(old(env.cache.os), key, value);
    r := v.Value();
  }

  /** Changes made to the OS behind the cache's back are seen by the next
      synchronised lookup, whatever the mirror holds: a removed key is
      reported unset and a newly set key is found with its value. */
  lemma ExternalChangesVisible(lines: seq<string>, os: Table, key: string, value: string)
    requires ValidName(key)
    ensures var r := Sync(lines, Remove(Windows, os, key), key); r.pos == |r.lines|
    ensures value != "" ==>
      var r := Sync(lines, Set(Windows, os, key, value), key);
      r.pos < |r.lines| && r.lines[r.pos][|key| + 1..] == value
  {
    SyncAgreesWithOs(lines, Remove(Windows, os, key), key);
    SyncAgreesWithOs(lines, Set(Windows, os, key, value), key);
  }

  /** One variable removed and another set behind the cache's back, as a
      foreign `unsetenv` and `setenv` would: `find` of the removed one gives
      `end()`, and reading the other through a handle gives its new value. */
  method StayInSync(env: Environment, gone: string, added: string, value: string)
      returns (atEnd: bool, r: Option<string>)
    requires env.cache.Valid() && ValidName(gone) && ValidName(added) && value != ""
    requires OsKey(Windows, gone) != OsKey(Windows, added)
    modifies env.cache
    ensures env.cache.Valid()
    ensures atEnd && r == Some(value)
  {
    env.cache.os := Remove(Windows, env.cache.os, gone);
    env.cache.os := Set(Windows, env.cache.os, added, value);
    var it := env.Find(gone);
    atEnd := it == env.cache.Size();
    var v := env.Index(added);
    r := v.Value();
  }

  /** The process's OS environment, for the façade that has no cache. */
  class Process {
    const platform: Platform
    var os: Table

    constructor (platform: Platform, os: Table)
      ensures this.platform == platform && this.os == os
    {
      this.platform := platform;
      this.os := os;
    }
  }

  /** `environment::find` without a cache: `find_if` over the native block
      with the platform's case policy. */
  method FindInBlock(p: Platform, envp: array<Slot>, key: string) returns (it: nat)
    requires HasNull(envp[..])
    ensures it == FirstMatch(PolicyFor(p), Entries(envp[..]), key)
  {
    var entries := Entries(envp[..]);
    it := 0;
    while envp[it].Some? && !Matches(PolicyFor(p), envp[it].value, key)
      invariant it <= |entries|
      invariant forall j :: 0 <= j < it ==> !Matches(PolicyFor(p), entries[j], key)
      decreases |entries| - it
    {
      it := it + 1;
    }
    FirstMatchUnique(PolicyFor(p), entries, key, it);
  }

  /** `environment::contains` without a cache: `getenv` returned a non-null
      pointer. */
  predicate Contains(p: Platform, os: Table, key: string)
    ensures Contains(p, os, key) <==> OsKey(p, key) in os
  {
    Get(p, os, key).Some?
  }

  /** After setting a well-formed name it is there (unless Windows removed it
      for an empty value); after erasing it, it is not.  A refused name is
      left as it was. */
  lemma ContainsAfterSetAndErase(p: Platform, os: Table, key: string, value: string)
    ensures ValidName(key) ==>
      (Contains(p, Set(p, os, key, value), key) <==> !(p == Windows && value == ""))
    ensures ValidName(key) ==> !Contains(p, Remove(p, os, key), key)
    ensures !ValidName(key) ==>
      (Contains(p, Set(p, os, key, value), key) <==> Contains(p, os, key)) &&
      (Contains(p, Remove(p, os, key), key) <==> Contains(p, os, key))
  {
  }

  /** `environment::variable` without a cache: it keeps the value it was
      given (`m_value`), writes through to the OS and can query it again. */
  class OsVariable {
    const key: string
    const process: Process
    var value: string

    constructor (key: string, value: string, process: Process)
      ensures this.key == key && this.value == value && this.process == process
    {
      this.key := key;
      this.value := value;
      this.process := process;
    }

    /** `variable = value`: `sys_setenv`, then the remembered value. */
    method Assign(v: string)
      modifies this, process
      ensures process.os == Set(process.platform, old(process.os), key, v)
      ensures value == v
    {
      process.os := Set(process.platform, process.os, key, v);
      value := v;
    }

    /** `query()`: `sys_getenv` as corrected, the OS's current value ("" when
        unset). */
    method Query() returns (r: string)
      ensures Get(process.platform, process.os, key).Some? ==> r == Get(process.platform, process.os, key).value
      ensures Get(process.platform, process.os, key).None? ==> r == ""
    {
      r := SysGetenv(process.platform, process.os, key);
    }

    /** `split()`: iterators over the remembered value, not the OS's. */
    method Split() returns (first: PathSepIterator, last: PathSepIterator)
      ensures fresh(first) && fresh(last) && first.Valid()
      ensures first.text == value && first.view == Segments(value, PathSep(process.platform))[0]
      ensures last.view == ""
    {
      first := new PathSepIterator(value, PathSep(process.platform));
      last := new PathSepIterator.Default(PathSep(process.platform));
    }
  }

  /** Assigning then querying gives back the value assigned, for a name the
      OS accepts; after a refused assignment the query gives what it gave
      before, while the variable remembers the value. */
  method AssignThenQuery(v: OsVariable, value: string) returns (r: string)
    modifies v, v.process
    ensures ValidName(v.key) ==> r == value
    ensures !ValidName(v.key) ==> r == SysGetenv(v.process.platform, old(v.process.os), v.key)
    ensures v.value == value
  {
    v.Assign(value);
    GetAfterSet(v.process.platform, old(v.process.os), v.key, value);
    r := v.Query();
  }

  /** `environment::size()` of the range-based façade: the distance from
      `begin()` to the null sentinel, walked with the pointer cursor the
      narrowing cursor is built on.  `empty()` is a size of zero. */
  method RangeSize(envp: array<Slot>) returns (n: nat)
    requires HasNull(envp[..])
    ensures n == FirstNull(envp[..]) && n == |Entries(envp[..])|
  {
    var c := new PtrCursor(envp, 0);
    n := 0;
    while !c.AtSentinel()
      invariant c.block == envp && c.slot == n && n <= FirstNull(envp[..])
      decreases FirstNull(envp[..]) - n
    {
      c.Next();
      n := n + 1;
    }
  }

  /** `splitpath`: keeps its own copy of the value, whose segments it yields;
      joining them gives the copied value back. */
  class SplitPath {
    const value: string
    const sep: char

    constructor (val: string, sep: char)
      ensures value == val && this.sep == sep
    {
      value := val;
      this.sep := sep;
    }

    /** `split_view` yields no segment at all for the empty value. */
    function Parts(): (r: seq<string>)
      ensures r == [] <==> value == ""
      ensures JoinWith(r, sep) == value
      ensures forall i :: 0 <= i < |r| ==> sep !in r[i]
    {
      JoinSegments(value, sep);
      if value == "" then [] else Segments(value, sep)
    }
  }
}
