/**
 * Character traits and platform policy.
 *
 * `ci_char_traits` compares characters after `toupper` on the unsigned
 * character; the model uses the "C" locale mapping, which only changes the
 * twenty-six ASCII lower-case letters.  The key-matching case policy and the
 * path separator are chosen by the build platform.
 */
module CaseTraits {
  import opened Wrappers

  /** The two build targets the source distinguishes with `#if defined(WIN32)`. */
  datatype Platform = Windows | Posix

  /** How environment keys are compared. */
  datatype CasePolicy = Sensitive | Insensitive

  /** `ci_envstr_finder` on WIN32, `envstr_finder` elsewhere. */
  function PolicyFor(p: Platform): (r: CasePolicy)
    ensures r == Insensitive <==> p == Windows
  {
    if p == Windows then Insensitive else Sensitive
  }

  /** `path_sep`: ';' on WIN32 and ':' elsewhere. */
  function PathSep(p: Platform): (r: char)
    ensures p == Windows ==> r == ';'
    ensures p == Posix ==> r == ':'
  {
    match p
    case Windows => ';'
    case Posix => ':'
  }

  /** `toupper` in the "C" locale. */
  function ToUpper(c: char): (r: char)
    ensures 'a' <= c <= 'z' ==> r as int == c as int - 32
    ensures !('a' <= c <= 'z') ==> r == c
    ensures r == '=' <==> c == '='
  {
    if 'a' <= c <= 'z' then (c as int - 32) as char else c
  }

  /** `ci_char_traits::eq`: the same character, or a lower-case letter and
      its upper-case partner. */
  predicate CiEq(c1: char, c2: char)
    ensures CiEq(c1, c2) <==>
      (c1 == c2 ||
       ('a' <= c1 <= 'z' && c2 as int == c1 as int - 32) ||
       ('a' <= c2 <= 'z' && c1 as int == c2 as int - 32))
  {
    ToUpper(c1) == ToUpper(c2)
  }

  /** `ci_char_traits::lt`: code-point order, except that a lower-case letter
      sorts as its upper-case partner. */
  predicate CiLt(c1: char, c2: char)
    ensures !('a' <= c1 <= 'z') && !('a' <= c2 <= 'z') ==> (CiLt(c1, c2) <==> c1 < c2)
    ensures 'a' <= c1 <= 'z' && 'a' <= c2 <= 'z' ==> (CiLt(c1, c2) <==> c1 < c2)
    ensures CiLt(c1, c2) ==> !CiEq(c1, c2)
  {
    ToUpper(c1) < ToUpper(c2)
  }

  /** `eq` is an equivalence relation and `lt` is irreflexive and asymmetric. */
  lemma CiEqIsEquivalence(a: char, b: char, c: char)
    ensures CiEq(a, a)
    ensures CiEq(a, b) ==> CiEq(b, a)
    ensures CiEq(a, b) && CiEq(b, c) ==> CiEq(a, c)
    ensures !CiLt(a, a) && !(CiLt(a, b) && CiLt(b, a))
    ensures CiEq(a, b) <==> !CiLt(a, b) && !CiLt(b, a)
  {
  }

  /** Character equality under a policy. */
  predicate CharEq(policy: CasePolicy, c1: char, c2: char) {
    match policy
    case Sensitive => c1 == c2
    case Insensitive => CiEq(c1, c2)
  }

  /** The first `n` characters of `a` and `b` are equal under `policy`. */
  predicate PrefixEq(policy: CasePolicy, a: string, b: string, n: nat)
    requires n <= |a| && n <= |b|
  {
    forall i :: 0 <= i < n ==> CharEq(policy, a[i], b[i])
  }

  /** Upper-cases every character. */
  function Upper(s: string): (r: string)
    ensures |r| == |s|
    ensures forall i :: 0 <= i < |s| ==> r[i] == ToUpper(s[i])
  {
    seq(|s|, i requires 0 <= i < |s| => ToUpper(s[i]))
  }

  /** The representative of a key's equivalence class under a policy. */
  function Canon(policy: CasePolicy, s: string): (r: string)
    ensures |r| == |s|
  {
    match policy
    case Sensitive => s
    case Insensitive => Upper(s)
  }

  /** Two keys of the same length have the same representative iff they agree
      character by character under the policy. */
  lemma CanonEqIffPrefixEq(policy: CasePolicy, a: string, b: string)
    requires |a| == |b|
    ensures Canon(policy, a) == Canon(policy, b) <==> PrefixEq(policy, a, b, |a|)
  {
    if PrefixEq(policy, a, b, |a|) {
      if policy == Insensitive {
        assert forall i :: 0 <= i < |a| ==> Upper(a)[i] == Upper(b)[i];
      } else {
        assert forall i :: 0 <= i < |a| ==> a[i] == b[i];
      }
    }
    if Canon(policy, a) == Canon(policy, b) {
      forall i | 0 <= i < |a| ensures CharEq(policy, a[i], b[i]) {
        if policy == Insensitive {
          assert Upper(a)[i] == Upper(b)[i];
        }
      }
    }
  }

  /**
   * `ci_char_traits::compare`: walks `n` positions and returns -1 or 1 at the
   * first position whose upper-cased characters differ, 0 when there is none.
   */
  method CiCompare(s1: string, s2: string, n: nat) returns (r: int)
    requires n <= |s1| && n <= |s2|
    ensures r == 0 <==> PrefixEq(Insensitive, s1, s2, n)
    ensures r == -1 || r == 0 || r == 1
    ensures r != 0 ==> (exists k :: 0 <= k < n && PrefixEq(Insensitive, s1, s2, k) &&
                                    ToUpper(s1[k]) != ToUpper(s2[k]) &&
                                    (r == -1 <==> ToUpper(s1[k]) < ToUpper(s2[k])))
  {
    var i := 0;
    while i < n
      invariant 0 <= i <= n
      invariant PrefixEq(Insensitive, s1, s2, i)
    {
      if ToUpper(s1[i]) < ToUpper(s2[i]) {
        return -1;
      }
      if ToUpper(s1[i]) > ToUpper(s2[i]) {
        return 1;
      }
      i := i + 1;
    }
    return 0;
  }

  /**
   * `ci_char_traits::find`: the first of the `n` positions of `s` whose
   * upper-cased character equals that of `a`, or `None` for the null pointer.
   * The count is an `int` in the source; a negative count runs the loop until
   * it wraps, which the model excludes.
   */
  method CiFind(s: string, n: int, a: char) returns (r: Option<nat>)
    requires 0 <= n <= |s|
    ensures r.Some? ==> (r.value < n && CiEq(s[r.value], a) &&
                         forall j :: 0 <= j < r.value ==> !CiEq(s[j], a))
    ensures r.None? ==> forall j :: 0 <= j < n ==> !CiEq(s[j], a)
  {
    var ua := ToUpper(a);
    var i := 0;
    while i < n
      invariant 0 <= i <= n
      invariant forall j :: 0 <= j < i ==> !CiEq(s[j], a)
    {
      if ToUpper(s[i]) == ua {
        return Some(i);
      }
      i := i + 1;
    }
    return None;
  }
}
