/**
 * Environment entries: the `KEY=VALUE` strings stored in the OS table and in
 * the cache's mirror.  This module holds the key-matching predicate, the two
 * ways the source builds an entry, and the projections of an entry onto its
 * key and its value.
 */
module EnvEntry {
  import opened Wrappers
  import opened CaseTraits
  import opened StdString

  /** The terminating NUL of a C string. */
  const NUL: char := 0 as char

  /** The string holds an '='. */
  predicate HasEq(s: string) {
    exists i :: 0 <= i < |s| && s[i] == '='
  }

  /** A well-formed key: it holds no '='. */
  predicate NoEq(s: string) {
    forall i :: 0 <= i < |s| ==> s[i] != '='
  }

  /**
   * `envstr_finder_base::operator()` and the lambda of
   * `environ_table::getvarline`: the entry is longer than the key, has '='
   * right after it, and starts with the key under the case policy.
   */
  predicate Matches(policy: CasePolicy, entry: string, key: string)
    ensures Matches(policy, entry, key) ==> HasEq(entry)
    ensures Matches(policy, entry, key) <==>
      |entry| > |key| && entry[|key|] == '=' && Canon(policy, entry[..|key|]) == Canon(policy, key)
  {
    if |entry| > |key| then
      CanonEqIffPrefixEq(policy, entry[..|key|], key);
      assert PrefixEq(policy, entry[..|key|], key, |key|) <==> PrefixEq(policy, entry, key, |key|);
      entry[|key|] == '=' && PrefixEq(policy, entry, key, |key|)
    else false
  }

  /** `make_envstr`: the key, an '=' and the value. */
  function MakeEntry(key: string, value: string): (r: string)
    ensures |r| == |key| + |value| + 1
    ensures r[..|key|] == key && r[|key|] == '=' && r[|key| + 1..] == value
  {
    key + "=" + value
  }

  /**
   * `new_envstr` and `environ_table::new_varline`: a fresh buffer of
   * `|key| + |value| + 2` characters holding the key, '=', the value and a
   * terminating NUL, filled one copy at a time.
   */
  method NewEnvStr(key: string, value: string) returns (buf: array<char>)
    ensures buf.Length == |key| + |value| + 2
    ensures buf[..|key|] == key && buf[|key|] == '='
    ensures buf[|key| + 1..buf.Length - 1] == value && buf[buf.Length - 1] == NUL
    ensures buf[..buf.Length - 1] == MakeEntry(key, value)
  {
    var length := |key| + |value| + 2;
    buf := new char[length];
    var i := 0;
    while i < |key|
      invariant 0 <= i <= |key|
      invariant forall k :: 0 <= k < i ==> buf[k] == key[k]
    {
      buf[i] := key[i];
      i := i + 1;
    }
    buf[|key|] := '=';
    var j := 0;
    while j < |value|
      invariant 0 <= j <= |value|
      invariant forall k :: 0 <= k < |key| ==> buf[k] == key[k]
      invariant buf[|key|] == '='
      invariant forall k :: 0 <= k < j ==> buf[|key| + 1 + k] == value[k]
    {
      buf[|key| + 1 + j] := value[j];
      j := j + 1;
    }
    buf[length - 1] := NUL;
    ghost var e := MakeEntry(key, value);
    assert forall k :: 0 <= k < |key| ==> buf[k] == e[k];
    assert forall k :: |key| + 1 <= k < length - 1 ==> buf[k] == value[k - |key| - 1] == e[k];
    assert buf[..length - 1] == e;
    assert buf[..|key|] == e[..|key|];
    assert buf[|key| + 1..length - 1] == e[|key| + 1..];
  }

  /** The key projection shared by `keys()`, `keyval_fn(true)`,
      `get_envline_key`, `environ_keyval(rng, true)` and `line_elem_fn{true}`:
      `line.substr(0, line.find('='))`, the whole line when there is no '='. */
  function KeyOf(line: string): (r: string)
    ensures HasEq(line) ==> |r| < |line| && line[..|r|] == r && line[|r|] == '=' && NoEq(r)
    ensures !HasEq(line) ==> r == line
  {
    Substr(line, 0, Find(line, '=', 0)).value
  }

  /** The value projection shared by `values()`, `keyval_fn(false)`,
      `get_envline_value` and `environ_keyval(rng, false)`:
      `line.substr(line.find('=') + 1)`.  Without an '=' the position is
      `npos + 1`, which wraps to 0 in `size_t`, so the whole line comes back. */
  function ValueOf(line: string): (r: string)
    ensures HasEq(line) ==> r == line[|KeyOf(line)| + 1..]
    ensures !HasEq(line) ==> r == line
  {
    var start := match Find(line, '=', 0)
      case None => 0  // npos + 1 == 0
      case Some(eq) => eq + 1;
    Substr(line, start, None).value
  }

  /** An entry with an '=' is rebuilt from its two projections, and its key
      projection holds no '='. */
  lemma {:induction false} EntryRoundTrip(line: string)
    requires HasEq(line)
    ensures NoEq(KeyOf(line))
    ensures MakeEntry(KeyOf(line), ValueOf(line)) == line
  {
    var k := KeyOf(line);
    assert line == line[..|k|] + [line[|k|]] + line[|k| + 1..];
  }

  /** The projections of a built entry give back its key and value when the
      key holds no '='. */
  lemma {:induction false} ProjectMakeEntry(key: string, value: string)
    requires NoEq(key)
    ensures HasEq(MakeEntry(key, value))
    ensures KeyOf(MakeEntry(key, value)) == key
    ensures ValueOf(MakeEntry(key, value)) == value
  {
    var e := MakeEntry(key, value);
    assert e[|key|] == '=';
    var r := Some(|key|);
    forall i | 0 <= i < |key| ensures e[i] != '=' {
      assert e[i] == e[..|key|][i] == key[i];
    }
    FindUnique(e, '=', 0, r);
  }

  /** A built entry matches its own key, under either policy. */
  lemma MakeEntryMatchesKey(policy: CasePolicy, key: string, value: string)
    ensures Matches(policy, MakeEntry(key, value), key)
  {
    var e := MakeEntry(key, value);
    forall i | 0 <= i < |key| ensures CharEq(policy, e[i], key[i]) {
      assert e[i] == e[..|key|][i];
    }
  }

  /**
   * For a key without '=', matching is the same as comparing the entry's key
   * projection with the key under the policy.  This is what makes "at most
   * one entry per key" a statement about key projections.
   */
  lemma {:induction false} MatchesIffSameKey(policy: CasePolicy, entry: string, key: string)
    requires NoEq(key)
    ensures Matches(policy, entry, key) <==>
      HasEq(entry) && Canon(policy, KeyOf(entry)) == Canon(policy, key)
  {
    if Matches(policy, entry, key) {
      assert HasEq(entry) by { assert entry[|key|] == '='; }
      forall i | 0 <= i < |key| ensures entry[i] != '=' {
        assert CharEq(policy, entry[i], key[i]);
        assert key[i] != '=';
      }
      FindUnique(entry, '=', 0, Some(|key|));
      assert KeyOf(entry) == entry[..|key|];
      CanonEqIffPrefixEq(policy, entry[..|key|], key);
    }
    if HasEq(entry) && Canon(policy, KeyOf(entry)) == Canon(policy, key) {
      var k := KeyOf(entry);
      assert |k| == |key|;
      CanonEqIffPrefixEq(policy, k, key);
      forall i | 0 <= i < |key| ensures CharEq(policy, entry[i], key[i]) {
        assert entry[i] == k[i];
      }
    }
  }

  /** The value suffix `getvar` returns (`*it + key.length() + 1`) is the
      entry's value projection when the key holds no '='. */
  lemma MatchedValue(policy: CasePolicy, entry: string, key: string)
    requires NoEq(key) && Matches(policy, entry, key)
    ensures |KeyOf(entry)| == |key|
    ensures ValueOf(entry) == entry[|key| + 1..]
  {
    forall i | 0 <= i < |key| ensures entry[i] != '=' {
      assert CharEq(policy, entry[i], key[i]);
    }
    FindUnique(entry, '=', 0, Some(|key|));
  }

  /** A key never matches the entry of a longer key it is a prefix of:
      "FOO" does not match "FOOBAR=2". */
  lemma {:induction false} ShorterKeyDoesNotMatch(policy: CasePolicy, key: string, longer: string, value: string)
    requires NoEq(longer) && |key| < |longer|
    ensures !Matches(policy, MakeEntry(longer, value), key)
  {
    var e := MakeEntry(longer, value);
    assert e[|key|] == e[..|longer|][|key|] == longer[|key|];
  }

  /** A key that is a prefix of a longer key, and a key spelled in another
      case, under both policies. */
  lemma FooAndFoobar()
    ensures !Matches(Sensitive, "FOOBAR=2", "FOO") && !Matches(Insensitive, "FOOBAR=2", "FOO")
    ensures Matches(Sensitive, "FOO=1", "FOO") && Matches(Insensitive, "foo=1", "FOO")
    ensures !Matches(Sensitive, "foo=1", "FOO")
  {
    assert "FOOBAR=2"[3] == 'B';
    assert !CharEq(Sensitive, "foo=1"[0], "FOO"[0]);
  }

  /** The value projection of `line_elem_fn` as written:
      `line.substr(line.find('='))`.  It keeps the '=', and without an '='
      `substr(npos)` throws `out_of_range` inside a `noexcept` operator, which
      ends the program (`None`). */
  function LineElemValue(line: string): (r: Option<string>)
    ensures r.Some? <==> HasEq(line)
  {
    match Find(line, '=', 0)
    case None => None
    case Some(eq) => Substr(line, eq, None)
  }

  /** What `line_elem_fn{false}` yields differs from the value by the leading
      '=': "A=1" gives "=1", while every other projection gives "1". */
  lemma LineElemValueKeepsSeparator(line: string)
    requires HasEq(line)
    ensures LineElemValue(line) == Some("=" + ValueOf(line))
    ensures LineElemValue(line) != Some(ValueOf(line))
  {
    var k := KeyOf(line);
    assert line[|k|..] == [line[|k|]] + line[|k| + 1..];
    assert |"=" + ValueOf(line)| != |ValueOf(line)|;
  }

  /** `std::find_if` with the matching predicate over a list of entries: the
      first matching position, or `|lines|` (the end) when none matches. */
  function FirstMatch(policy: CasePolicy, lines: seq<string>, key: string): (r: nat)
    ensures r <= |lines|
    ensures r < |lines| ==> Matches(policy, lines[r], key)
    ensures forall j :: 0 <= j < r ==> !Matches(policy, lines[j], key)
    decreases |lines|
  {
    if |lines| == 0 then 0
    else if Matches(policy, lines[0], key) then 0
    else 1 + FirstMatch(policy, lines[1..], key)
  }

  /** The first match is determined by what it promises. */
  lemma FirstMatchUnique(policy: CasePolicy, lines: seq<string>, key: string, r: nat)
    requires r <= |lines|
    requires r < |lines| ==> Matches(policy, lines[r], key)
    requires forall j :: 0 <= j < r ==> !Matches(policy, lines[j], key)
    ensures FirstMatch(policy, lines, key) == r
  {
    var f := FirstMatch(policy, lines, key);
    assert !(f < r) && !(r < f);
  }

  /** `keys()`: every entry of the mirror mapped to its key projection. */
  function Keys(lines: seq<string>): (r: seq<string>)
    ensures |r| == |lines| && forall i :: 0 <= i < |lines| ==> r[i] == KeyOf(lines[i])
  {
    seq(|lines|, i requires 0 <= i < |lines| => KeyOf(lines[i]))
  }

  /** `values()`: every entry of the mirror mapped to its value projection. */
  function Values(lines: seq<string>): (r: seq<string>)
    ensures |r| == |lines| && forall i :: 0 <= i < |lines| ==> r[i] == ValueOf(lines[i])
  {
    seq(|lines|, i requires 0 <= i < |lines| => ValueOf(lines[i]))
  }

  /** The key and value views line up with the entries: position by position,
      key + "=" + value rebuilds the entry. */
  lemma KeysValuesRebuild(lines: seq<string>)
    requires forall i :: 0 <= i < |lines| ==> HasEq(lines[i])
    ensures |Keys(lines)| == |Values(lines)| == |lines|
    ensures forall i :: 0 <= i < |lines| ==> MakeEntry(Keys(lines)[i], Values(lines)[i]) == lines[i]
  {
    forall i | 0 <= i < |lines| ensures MakeEntry(Keys(lines)[i], Values(lines)[i]) == lines[i] {
      EntryRoundTrip(lines[i]);
    }
  }
}
