/**
 * The two `std::basic_string` members the core relies on, with
 * `std::string::npos` written as `None`.
 */
module StdString {
  import opened Wrappers

  /** `s.find(c, from)`: the first position at or after `from` holding `c`;
      `None` stands for `npos`, which is also the answer when `from >= |s|`. */
  function Find(s: string, c: char, from: nat): (r: Option<nat>)
    ensures r.Some? ==> (from <= r.value < |s| && s[r.value] == c &&
                         forall i :: from <= i < r.value ==> s[i] != c)
    ensures r.None? ==> forall i :: from <= i < |s| ==> s[i] != c
    decreases |s| - from
  {
    if from >= |s| then None
    else if s[from] == c then Some(from)
    else Find(s, c, from + 1)
  }

  /** Two searches that report the same characterisation agree: the first
      occurrence is unique. */
  lemma FindUnique(s: string, c: char, from: nat, r: Option<nat>)
    requires r.Some? ==> (from <= r.value < |s| && s[r.value] == c &&
                          forall i :: from <= i < r.value ==> s[i] != c)
    requires r.None? ==> forall i :: from <= i < |s| ==> s[i] != c
    ensures Find(s, c, from) == r
  {
    var f := Find(s, c, from);
    if f.Some? && r.Some? {
      assert !(f.value < r.value) && !(r.value < f.value);
    }
  }

  /** Searching a suffix is searching the whole string from the suffix's start. */
  lemma FindInSuffix(s: string, c: char, n: nat, from: nat)
    requires n <= |s|
    ensures Find(s[n..], c, from) ==
      (match Find(s, c, n + from) case None => None case Some(p) => Some(p - n))
  {
    var r := match Find(s, c, n + from) case None => None case Some(p) => Some(p - n);
    forall i | from <= i < |s[n..]| ensures s[n..][i] == s[n + i] { }
    FindUnique(s[n..], c, from, r);
  }

  /** `s.substr(pos, count)`, with `count == None` for the default `npos`:
      `None` when `pos > size()` (the source throws `out_of_range`), otherwise
      the at most `count` characters starting at `pos`. */
  function Substr(s: string, pos: nat, count: Option<nat>): (r: Option<string>)
    ensures r.Some? <==> pos <= |s|
    ensures r.Some? && count.None? ==> r.value == s[pos..]
    ensures r.Some? && count.Some? && pos + count.value <= |s| ==>
      r.value == s[pos..pos + count.value]
    ensures r.Some? && count.Some? && pos + count.value > |s| ==> r.value == s[pos..]
  {
    if pos > |s| then None
    else match count
      case None => Some(s[pos..])
      case Some(n) => Some(if pos + n <= |s| then s[pos..pos + n] else s[pos..])
  }
}
