/**
 * `environ_table`, the Windows environment cache: a mirror of the process
 * environment as a vector of entry pointers closed by a null pointer, kept in
 * step with the OS table one key at a time.  Keys are matched
 * case-insensitively.  The spec functions say what each lookup and update
 * does to the list of entries; the class does it to the pointer vector.
 */
module EnvCache {
  import opened Wrappers
  import opened CaseTraits
  import opened EnvEntry
  import opened OsTable
  import opened PtrArray

  /** The cache is Windows': keys match case-insensitively. */
  const Policy: CasePolicy := Insensitive

  /** The mirror vector for a list of entries: one pointer per entry, then the
      terminating null. */
  function Slots(lines: seq<string>): (r: seq<Slot>)
    ensures |r| == |lines| + 1 && r[|lines|] == None
    ensures forall i :: 0 <= i < |lines| ==> r[i] == Some(lines[i])
  {
    seq(|lines| + 1, i requires 0 <= i <= |lines| => if i < |lines| then Some(lines[i]) else None)
  }

  /** The entries that do not match `key`, in order. */
  function Others(lines: seq<string>, key: string): seq<string>
    decreases |lines|
  {
    if |lines| == 0 then []
    else (if Matches(Policy, lines[0], key) then [] else [lines[0]]) + Others(lines[1..], key)
  }

  lemma {:induction false} OthersAppend(a: seq<string>, b: seq<string>, key: string)
    ensures Others(a + b, key) == Others(a, key) + Others(b, key)
    decreases |a|
  {
    if |a| == 0 {
      assert a + b == b;
    } else {
      assert (a + b)[0] == a[0];
      assert (a + b)[1..] == a[1..] + b;
      OthersAppend(a[1..], b, key);
    }
  }

  /** Replacing, removing or appending an entry that matches `key` leaves the
      other entries as they were. */
  lemma OthersReplace(lines: seq<string>, i: nat, x: string, key: string)
    requires i < |lines| && Matches(Policy, lines[i], key) && Matches(Policy, x, key)
    ensures Others(lines[i := x], key) == Others(lines, key)
    ensures Others(lines[..i] + lines[i + 1..], key) == Others(lines, key)
  {
    assert lines == lines[..i] + [lines[i]] + lines[i + 1..];
    assert lines[i := x] == lines[..i] + [x] + lines[i + 1..];
    OthersAppend(lines[..i] + [lines[i]], lines[i + 1..], key);
    OthersAppend(lines[..i] + [x], lines[i + 1..], key);
    OthersAppend(lines[..i], [lines[i]], key);
    OthersAppend(lines[..i], [x], key);
    OthersAppend(lines[..i], lines[i + 1..], key);
  }

  lemma OthersSnoc(lines: seq<string>, x: string, key: string)
    requires Matches(Policy, x, key)
    ensures Others(lines + [x], key) == Others(lines, key)
  {
    OthersAppend(lines, [x], key);
  }

  /** No two entries match `key`. */
  ghost predicate AtMostOneMatch(lines: seq<string>, key: string) {
    forall i, j :: 0 <= i < j < |lines| && Matches(Policy, lines[i], key) ==> !Matches(Policy, lines[j], key)
  }

  /** Removing the only match leaves no match. */
  lemma RemoveOnlyMatch(lines: seq<string>, i: nat, key: string)
    requires AtMostOneMatch(lines, key)
    requires i < |lines| && i == FirstMatch(Policy, lines, key)
    ensures FirstMatch(Policy, lines[..i] + lines[i + 1..], key) == |lines| - 1
  {
    var r := lines[..i] + lines[i + 1..];
    forall j | 0 <= j < |r| ensures !Matches(Policy, r[j], key) {
      if j >= i {
        assert r[j] == lines[j + 1];
      }
    }
    FirstMatchUnique(Policy, r, key, |r|);
  }

  /** Two entries name the same variable: both hold '=', and their non-empty
      key projections agree under the policy.  The entries Windows keeps for
      the drives' working directories ("=C:=C:\\") have an empty key
      projection and name no variable. */
  ghost predicate SameVar(a: string, b: string) {
    HasEq(a) && HasEq(b) && KeyOf(a) != "" && Canon(Policy, KeyOf(a)) == Canon(Policy, KeyOf(b))
  }

  /** No two entries name the same variable: what the OS's own environment
      block guarantees, and what every cache operation with a '='-free key
      keeps. */
  ghost predicate UniqueKeys(lines: seq<string>) {
    forall i, j :: 0 <= i < j < |lines| ==> !SameVar(lines[i], lines[j])
  }

  /** In a mirror with unique keys, a well-formed name has at most one entry. */
  lemma UniqueAtMostOne(lines: seq<string>, key: string)
    requires UniqueKeys(lines) && ValidName(key)
    ensures AtMostOneMatch(lines, key)
  {
    forall i, j | 0 <= i < j < |lines| && Matches(Policy, lines[i], key)
      ensures !Matches(Policy, lines[j], key)
    {
      MatchesIffSameKey(Policy, lines[i], key);
      MatchesIffSameKey(Policy, lines[j], key);
      assert !SameVar(lines[i], lines[j]);
    }
  }

  /** An entry matching a '='-free key names the same variable as any other
      entry that does. */
  lemma SameVarOfMatch(a: string, b: string, key: string, x: string)
    requires NoEq(key) && Matches(Policy, a, key) && Matches(Policy, b, key)
    ensures SameVar(x, a) == SameVar(x, b) && SameVar(a, x) == SameVar(b, x)
  {
    MatchesIffSameKey(Policy, a, key);
    MatchesIffSameKey(Policy, b, key);
  }

  /** Appending an entry for a '='-free key that has no entry yet keeps the
      keys unique. */
  lemma UniqueSnoc(lines: seq<string>, x: string, key: string)
    requires UniqueKeys(lines) && NoEq(key) && Matches(Policy, x, key)
    requires FirstMatch(Policy, lines, key) == |lines|
    ensures UniqueKeys(lines + [x])
  {
    var r := lines + [x];
    forall i, j | 0 <= i < j < |r| ensures !SameVar(r[i], r[j]) {
      if j == |lines| {
        MatchesIffSameKey(Policy, x, key);
        MatchesIffSameKey(Policy, lines[i], key);
      }
    }
  }

  /** Replacing an entry by another for the same '='-free key keeps the keys
      unique. */
  lemma UniqueReplace(lines: seq<string>, i: nat, x: string, key: string)
    requires UniqueKeys(lines) && NoEq(key)
    requires i < |lines| && Matches(Policy, lines[i], key) && Matches(Policy, x, key)
    ensures UniqueKeys(lines[i := x])
  {
    var r := lines[i := x];
    forall a, b | 0 <= a < b < |r| ensures !SameVar(r[a], r[b]) {
      if a == i {
        SameVarOfMatch(lines[i], x, key, r[b]);
      } else if b == i {
        SameVarOfMatch(lines[i], x, key, r[a]);
      }
    }
  }

  /** Erasing an entry keeps the keys unique. */
  lemma UniqueErase(lines: seq<string>, i: nat)
    requires UniqueKeys(lines) && i < |lines|
    ensures UniqueKeys(lines[..i] + lines[i + 1..])
  {
    var r := lines[..i] + lines[i + 1..];
    forall a, b | 0 <= a < b < |r| ensures !SameVar(r[a], r[b]) {
      var a', b' := if a < i then a else a + 1, if b < i then b else b + 1;
      assert r[a] == lines[a'] && r[b] == lines[b'];
    }
  }

  /** A byte buffer read as a C string: the bytes before its first NUL. */
  function CStr(buf: seq<bv8>): (r: seq<bv8>)
    ensures r <= buf
    ensures forall i :: 0 <= i < |r| ==> r[i] != 0
    ensures |r| < |buf| ==> buf[|r|] == 0
  {
    if buf == [] || buf[0] == 0 then [] else [buf[0]] + CStr(buf[1..])
  }

  /** A byte string of characters, none of them NUL, as `to_utf8` encodes
      them. */
  predicate NoNul(utf8: seq<bv8>) {
    forall i :: 0 <= i < |utf8| ==> utf8[i] != 0
  }

  /** Reading a NUL-free string followed by its terminator as a C string
      gives the string back. */
  lemma {:induction false} CStrOfTerminated(utf8: seq<bv8>)
    requires NoNul(utf8)
    ensures CStr(utf8 + [0]) == utf8
  {
    if utf8 != [] {
      assert (utf8 + [0])[1..] == utf8[1..] + [0];
      CStrOfTerminated(utf8[1..]);
    }
  }

  /**
   * The value `varline_from_os` copies into the entry, as written, on bytes:
   * `to_utf8` gives the value's UTF-8 bytes and a NUL, and the copy takes as
   * many of them as `_wdupenv_s` counted UTF-16 units, terminator included.
   * Each unit encodes to at least one byte, so `units <= |utf8|`.  The entry
   * is then read as a C string.
   */
  function OsValueAsWritten(utf8: seq<bv8>, units: nat): (r: seq<bv8>)
    requires NoNul(utf8) && units <= |utf8|
    ensures r <= utf8
    ensures units == |utf8| ==> r == utf8
    ensures units < |utf8| ==> r == utf8[..units + 1]
  {
    if units == |utf8| then
      CStrOfTerminated(utf8);
      CStr((utf8 + [0])[..units + 1])
    else
      assert (utf8 + [0])[..units + 1] == utf8[..units + 1];
      assert (utf8 + [0])[..units + 1][units] != 0;
      CStr((utf8 + [0])[..units + 1])
  }

  /** When the UTF-8 form is two or more bytes longer than the UTF-16 count,
      the copy keeps only a prefix of the value. */
  lemma WideCountTruncates(utf8: seq<bv8>, units: nat)
    requires NoNul(utf8) && units + 1 < |utf8|
    ensures OsValueAsWritten(utf8, units) != utf8
    ensures |OsValueAsWritten(utf8, units)| == units + 1
  {
  }

  /** "€" is one UTF-16 unit and three UTF-8 bytes: the entry keeps two. */
  lemma EuroIsCut()
    ensures OsValueAsWritten([0xE2, 0x82, 0xAC], 1) == [0xE2, 0x82]
  {
    var utf8: seq<bv8> := [0xE2, 0x82, 0xAC];
    assert NoNul(utf8);
  }

  /** The copy with the UTF-8 length `to_utf8` measured: every byte of the
      value is kept. */
  function OsValue(utf8: seq<bv8>): (r: seq<bv8>)
    requires NoNul(utf8)
    ensures r == utf8
  {
    CStrOfTerminated(utf8);
    CStr((utf8 + [0])[..|utf8| + 1])
  }

  /** `varline_from_os`: the OS's value for `key` as a fresh entry spelled
      with the caller's key, or `None` when the OS does not hold the key. */
  function OsLine(os: Table, key: string): (r: Option<string>)
    ensures r.Some? <==> Get(Windows, os, key).Some?
    ensures r.Some? ==> Matches(Policy, r.value, key)
    ensures r.Some? ==> r.value[|key| + 1..] == Get(Windows, os, key).value
  {
    match Get(Windows, os, key)
    case None => None
    case Some(v) => MakeEntryMatchesKey(Policy, key, v); Some(MakeEntry(key, v))
  }

  /** The mirror after a synchronised lookup, and the position found (the end,
      `|lines|`, when the key is not set). */
  datatype Synced = Synced(lines: seq<string>, pos: nat)

  /**
   * `getvarline_sync`: looks `key` up in the mirror, then reconciles with the
   * OS: an OS value missing from the mirror is appended, a differing value
   * replaces the mirror's entry, an entry the OS no longer holds is erased.
   */
  function Sync(lines: seq<string>, os: Table, key: string): (r: Synced)
    ensures r.pos <= |r.lines|
  {
    var i := FirstMatch(Policy, lines, key);
    var osline := OsLine(os, key);
    if i == |lines| && osline.Some? then Synced(lines + [osline.value], |lines|)
    else if osline.Some? then
      if lines[i][|key| + 1..] != osline.value[|key| + 1..] then Synced(lines[i := osline.value], i)
      else Synced(lines, i)
    else if i < |lines| then Synced(lines[..i] + lines[i + 1..], |lines| - 1)
    else Synced(lines, |lines|)
  }

  /** After a sync the mirror agrees with the OS about `key`: the position is a
      real entry exactly when the OS holds the key, it is the first match,
      and its value is the OS's value. */
  lemma SyncAgreesWithOs(lines: seq<string>, os: Table, key: string)
    ensures var r := Sync(lines, os, key);
      (r.pos < |r.lines| <==> Get(Windows, os, key).Some?) &&
      (r.pos < |r.lines| ==>
        r.pos == FirstMatch(Policy, r.lines, key) &&
        r.lines[r.pos][|key| + 1..] == Get(Windows, os, key).value)
  {
    var i := FirstMatch(Policy, lines, key);
    var osline := OsLine(os, key);
    var r := Sync(lines, os, key);
    if osline.Some? {
      FirstMatchUnique(Policy, r.lines, key, r.pos);
    }
  }

  /** A sync only touches the entries of `key`. */
  lemma SyncKeepsOthers(lines: seq<string>, os: Table, key: string)
    ensures Others(Sync(lines, os, key).lines, key) == Others(lines, key)
  {
    var i := FirstMatch(Policy, lines, key);
    var osline := OsLine(os, key);
    if i == |lines| && osline.Some? {
      OthersSnoc(lines, osline.value, key);
    } else if osline.Some? {
      OthersReplace(lines, i, osline.value, key);
    } else if i < |lines| {
      OthersReplace(lines, i, lines[i], key);
    }
  }

  /** The four cases of a sync, by size and position: insert before the
      sentinel, replace in place (or nothing when the values agree), erase,
      or nothing. */
  lemma {:induction false} SyncCases(lines: seq<string>, os: Table, key: string)
    ensures var i, r := FirstMatch(Policy, lines, key), Sync(lines, os, key);
      (i == |lines| && Get(Windows, os, key).Some? ==>
        r.lines == lines + [MakeEntry(key, Get(Windows, os, key).value)] && r.pos == |lines|) &&
      (i < |lines| && Get(Windows, os, key).Some? ==>
        |r.lines| == |lines| && r.pos == i &&
        (forall j :: 0 <= j < |lines| && j != i ==> r.lines[j] == lines[j]) &&
        (lines[i][|key| + 1..] == Get(Windows, os, key).value ==> r.lines == lines)) &&
      (i < |lines| && Get(Windows, os, key).None? ==>
        |r.lines| == |lines| - 1 && r.pos == |r.lines| &&
        r.lines == lines[..i] + lines[i + 1..]) &&
      (i == |lines| && Get(Windows, os, key).None? ==> r == Synced(lines, |lines|))
  {
  }

  /** A sync for a '='-free key keeps the keys unique. */
  lemma SyncKeepsUnique(lines: seq<string>, os: Table, key: string)
    requires UniqueKeys(lines) && NoEq(key)
    ensures UniqueKeys(Sync(lines, os, key).lines)
  {
    var i := FirstMatch(Policy, lines, key);
    var osline := OsLine(os, key);
    if i == |lines| && osline.Some? {
      UniqueSnoc(lines, osline.value, key);
    } else if osline.Some? {
      UniqueReplace(lines, i, osline.value, key);
    } else if i < |lines| {
      UniqueErase(lines, i);
    }
  }

  /** A second sync against the same OS changes nothing, for a well-formed
      name on a mirror with unique keys. */
  lemma SyncIdempotent(lines: seq<string>, os: Table, key: string)
    requires UniqueKeys(lines) && ValidName(key)
    ensures Sync(Sync(lines, os, key).lines, os, key) == Sync(lines, os, key)
  {
    var i := FirstMatch(Policy, lines, key);
    var osline := OsLine(os, key);
    UniqueAtMostOne(lines, key);
    SyncAgreesWithOs(lines, os, key);
    if osline.None? && i < |lines| {
      RemoveOnlyMatch(lines, i, key);
    }
  }

  /** `setvar` on the mirror: the mirror-only lookup, then replace in place or
      append before the sentinel. */
  function SetEntries(lines: seq<string>, key: string, value: string): (r: seq<string>)
    ensures |r| == |lines| || |r| == |lines| + 1
  {
    var i := FirstMatch(Policy, lines, key);
    if i == |lines| then lines + [MakeEntry(key, value)]
    else lines[i := MakeEntry(key, value)]
  }

  /** After `setvar`, the key's first entry is the new `key=value` at the
      position it had (or at the end), and no other entry changed. */
  lemma SetEntriesPlaces(lines: seq<string>, key: string, value: string)
    ensures var i, r := FirstMatch(Policy, lines, key), SetEntries(lines, key, value);
      FirstMatch(Policy, r, key) == i && i < |r| && r[i] == MakeEntry(key, value) &&
      |r| == (if i == |lines| then |lines| + 1 else |lines|) &&
      Others(r, key) == Others(lines, key)
  {
    var i := FirstMatch(Policy, lines, key);
    var r := SetEntries(lines, key, value);
    MakeEntryMatchesKey(Policy, key, value);
    FirstMatchUnique(Policy, r, key, i);
    if i == |lines| {
      OthersSnoc(lines, MakeEntry(key, value), key);
    } else {
      OthersReplace(lines, i, MakeEntry(key, value), key);
    }
  }

  /** `setvar` with a '='-free key keeps the keys unique. */
  lemma SetEntriesKeepsUnique(lines: seq<string>, key: string, value: string)
    requires UniqueKeys(lines) && NoEq(key)
    ensures UniqueKeys(SetEntries(lines, key, value))
  {
    var i := FirstMatch(Policy, lines, key);
    MakeEntryMatchesKey(Policy, key, value);
    if i == |lines| {
      UniqueSnoc(lines, MakeEntry(key, value), key);
    } else {
      UniqueReplace(lines, i, MakeEntry(key, value), key);
    }
  }

  /** Reading back after `setvar` (with a name the OS accepts): a non-empty
      value comes back, and the sync finds the mirror already right; an empty
      value removed the variable from the OS, so the sync erases the entry
      just written and reports the key unset. */
  lemma GetAfterSetVar(lines: seq<string>, os: Table, key: string, value: string)
    requires ValidName(key)
    ensures var lines', os' := SetEntries(lines, key, value), PutEntry(os, MakeEntry(key, value));
      var r := Sync(lines', os', key);
      (r.pos < |r.lines| <==> value != "") &&
      (value != "" ==> r.lines == lines' && r.lines[r.pos][|key| + 1..] == value) &&
      (value == "" ==> |r.lines| == |lines'| - 1)
  {
    var lines' := SetEntries(lines, key, value);
    var os' := PutEntry(os, MakeEntry(key, value));
    PutEntryOfMakeEntry(os, key, value);
    SetEntriesPlaces(lines, key, value);
    SyncAgreesWithOs(lines', os', key);
  }

  /** `rmvar` on the mirror: erase the first entry of the key, if any. */
  function RmEntries(lines: seq<string>, key: string): (r: seq<string>)
    ensures |r| == |lines| || |r| == |lines| - 1
  {
    var i := FirstMatch(Policy, lines, key);
    if i < |lines| then lines[..i] + lines[i + 1..] else lines
  }

  /** `rmvar` keeps the keys unique. */
  lemma RmEntriesKeepsUnique(lines: seq<string>, key: string)
    requires UniqueKeys(lines)
    ensures UniqueKeys(RmEntries(lines, key))
  {
    var i := FirstMatch(Policy, lines, key);
    if i < |lines| {
      UniqueErase(lines, i);
    }
  }

  /** `rmvar` keeps every other entry, and for a name the OS accepts the OS no
      longer holds the key, so the next synchronised lookup reports it unset. */
  lemma RmEntriesRemoves(lines: seq<string>, os: Table, key: string)
    ensures Others(RmEntries(lines, key), key) == Others(lines, key)
    ensures ValidName(key) ==>
      var r := Sync(RmEntries(lines, key), Remove(Windows, os, key), key); r.pos == |r.lines|
  {
    var i := FirstMatch(Policy, lines, key);
    if i < |lines| {
      OthersReplace(lines, i, lines[i], key);
    }
    SyncAgreesWithOs(RmEntries(lines, key), Remove(Windows, os, key), key);
  }

  /** A second `rmvar` of a well-formed name changes neither the mirror, when
      its keys are unique, nor the OS. */
  lemma RmEntriesTwice(lines: seq<string>, os: Table, key: string)
    requires UniqueKeys(lines) && ValidName(key)
    ensures RmEntries(RmEntries(lines, key), key) == RmEntries(lines, key)
    ensures Remove(Windows, Remove(Windows, os, key), key) == Remove(Windows, os, key)
  {
    var i := FirstMatch(Policy, lines, key);
    UniqueAtMostOne(lines, key);
    if i < |lines| {
      RemoveOnlyMatch(lines, i, key);
    }
    RemoveIdempotent(Windows, os, key);
  }

  /**
   * The cache itself: `env` is the pointer vector `m_env` (the entries, then
   * the null sentinel) and `os` stands for the process's OS environment,
   * which the foreign accessors read and write.  `lines` is the list of
   * entries the vector holds.
   */
  class EnvironCache {
    var env: seq<Slot>
    var os: Table
    ghost var lines: seq<string>

    /** The trailing-sentinel invariant: non-null entries, then one null. */
    ghost predicate Valid()
      reads this
    {
      env == Slots(lines)
    }

    /** The constructor copies every entry of the native block up to its null
        pointer, then appends the sentinel. */
    constructor (block: array<Slot>, os: Table)
      requires HasNull(block[..])
      ensures Valid() && lines == Entries(block[..]) && this.os == os
    {
      var n := FirstNull(block[..]);
      var acc: seq<Slot> := [];
      ghost var ls: seq<string> := [];
      var i := 0;
      while block[i].Some?
        invariant 0 <= i <= n && |acc| == |ls| == i
        invariant forall j :: 0 <= j < i ==> acc[j] == block[j] && ls[j] == Entries(block[..])[j]
        invariant forall j :: 0 <= j < i ==> acc[j] == Some(ls[j])
        decreases n - i
      {
        acc := acc + [block[i]];
        ls := ls + [block[i].value];
        i := i + 1;
      }
      env := acc + [None];
      this.os := os;
      lines := ls;
      new;
      assert env == Slots(ls);
    }

    /** The move constructor takes over the other cache's vector and leaves it
        empty, without even the sentinel. */
    constructor Take(other: EnvironCache)
      modifies other
      ensures env == old(other.env) && os == old(other.os) && lines == old(other.lines)
      ensures old(other.Valid()) ==> Valid()
      ensures other.env == [] && other.lines == [] && other.os == old(other.os)
    {
      env := other.env;
      os := other.os;
      lines := other.lines;
      new;
      other.env := [];
      other.lines := [];
    }

    /** `size()`: one less than the vector's length, the number of entries.
        `end()` is the position `size()`. */
    function Size(): (n: int)
      reads this
      ensures Valid() ==> n == |lines|
    {
      |env| - 1
    }

    /** The entries the vector points to, read off `[begin, end)`. */
    function Lines(): (r: seq<string>)
      reads this
      requires Valid()
      ensures r == lines
    {
      var e := env;
      var r := seq(|e| - 1, i requires 0 <= i < |e| - 1 => match e[i] case Some(s) => s case None => "");
      assert forall i :: 0 <= i < |r| ==> r[i] == lines[i];
      r
    }

    /** `getvarline`: the mirror-only `find_if` over `[begin, end)`. */
    method GetVarLine(key: string) returns (it: nat)
      requires Valid()
      ensures it == FirstMatch(Policy, lines, key)
    {
      it := 0;
      while it < |env| - 1 && !Matches(Policy, env[it].value, key)
        invariant it <= |lines|
        invariant forall j :: 0 <= j < it ==> !Matches(Policy, lines[j], key)
      {
        it := it + 1;
      }
      FirstMatchUnique(Policy, lines, key, it);
    }

    /** `getvarline_sync`: the lookup followed by the reconciliation with the
        OS; the sentinel stays last. */
    method GetVarLineSync(key: string) returns (it: nat)
      requires Valid()
      modifies this
      ensures Valid() && os == old(os)
      ensures Synced(lines, it) == Sync(old(lines), os, key)
      ensures old(UniqueKeys(lines)) && NoEq(key) ==> UniqueKeys(lines)
    {
      ghost var before := lines;
      it := GetVarLine(key);
      var osline := OsLine(os, key);
      var end := |env| - 1;
      if it == end && osline.Some? {
        env := env[..end] + [Some(osline.value), None];
        lines := lines + [osline.value];
      } else if osline.Some? {
        var offset := |key| + 1;
        if env[it].value[offset..] != osline.value[offset..] {
          env := env[it := Some(osline.value)];
          lines := lines[it := osline.value];
        }
      } else if it != end {
        env := env[..it] + env[it + 1..];
        lines := lines[..it] + lines[it + 1..];
        it := |env| - 1;
      }
      assert env == Slots(lines);
      assert Synced(lines, it) == Sync(before, os, key);
      if UniqueKeys(before) && NoEq(key) {
        SyncKeepsUnique(before, os, key);
      }
    }

    /** `getvar`: the value of the synchronised entry, which is the OS's
        value, or `None` (the null pointer) when the key is not set. */
    method GetVar(key: string) returns (r: Option<string>)
      requires Valid()
      modifies this
      ensures Valid() && os == old(os) && lines == Sync(old(lines), os, key).lines
      ensures old(UniqueKeys(lines)) && NoEq(key) ==> UniqueKeys(lines)
      ensures r == Get(Windows, os, key)
    {
      ghost var before := lines;
      var it := GetVarLineSync(key);
      SyncAgreesWithOs(before, os, key);
      if it != |env| - 1 {
        r := Some(env[it].value[|key| + 1..]);
      } else {
        r := None;
      }
    }

    /** `setvar`: the mirror-only lookup, a fresh `key=value` entry replacing
        the old one or appended before the sentinel, then `_wputenv` of it. */
    method SetVar(key: string, value: string)
      requires Valid()
      modifies this
      ensures Valid()
      ensures lines == SetEntries(old(lines), key, value)
      ensures os == PutEntry(old(os), MakeEntry(key, value))
      ensures old(UniqueKeys(lines)) && NoEq(key) ==> UniqueKeys(lines)
    {
      if UniqueKeys(lines) && NoEq(key) {
        SetEntriesKeepsUnique(lines, key, value);
      }
      var it := GetVarLine(key);
      var buf := NewEnvStr(key, value);
      var vl := buf[..buf.Length - 1];
      if it == |env| - 1 {
        env := env[..it] + [Some(vl), None];
        lines := lines + [vl];
      } else {
        env := env[it := Some(vl)];
        lines := lines[it := vl];
      }
      assert env == Slots(lines);
      os := PutEntry(os, vl);
    }

    /** `rmvar`: erases the mirror's entry if there is one, and always removes
        the key from the OS. */
    method RmVar(key: string)
      requires Valid()
      modifies this
      ensures Valid()
      ensures lines == RmEntries(old(lines), key)
      ensures os == Remove(Windows, old(os), key)
      ensures old(UniqueKeys(lines)) ==> UniqueKeys(lines)
    {
      if UniqueKeys(lines) {
        RmEntriesKeepsUnique(lines, key);
      }
      var it := GetVarLine(key);
      if it != |env| - 1 {
        env := env[..it] + env[it + 1..];
        lines := lines[..it] + lines[it + 1..];
      }
      assert env == Slots(lines);
      os := Remove(Windows, os, key);
    }

    /** `find_pos`: the synchronised position, or -1 when the key is not set;
        so it sees changes made to the OS behind the cache's back. */
    method FindPos(key: string) returns (r: int)
      requires Valid()
      modifies this
      ensures Valid() && os == old(os) && lines == Sync(old(lines), os, key).lines
      ensures old(UniqueKeys(lines)) && NoEq(key) ==> UniqueKeys(lines)
      ensures r >= 0 <==> Get(Windows, os, key).Some?
      ensures r >= 0 ==> r < |lines| && r == FirstMatch(Policy, lines, key) &&
                         lines[r][|key| + 1..] == Get(Windows, os, key).value
    {
      ghost var before := lines;
      var it := GetVarLineSync(key);
      SyncAgreesWithOs(before, os, key);
      r := if it != |env| - 1 then it else -1;
    }

    /** `find` of the locking cache: the mirror-only lookup, which changes
        nothing and does not consult the OS. */
    method Find(key: string) returns (it: nat)
      requires Valid()
      ensures it == FirstMatch(Policy, lines, key)
    {
      it := GetVarLine(key);
    }

    /** `contains`: asks the OS alone, so it agrees with what a synchronised
        lookup would find. */
    predicate Contains(key: string)
      reads this
      ensures Contains(key) <==> Sync(lines, os, key).pos < |Sync(lines, os, key).lines|
    {
      SyncAgreesWithOs(lines, os, key);
      Get(Windows, os, key).Some?
    }
  }
}
