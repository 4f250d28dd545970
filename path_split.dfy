/**
 * PATH-style lists: `pathsep_iterator`, which walks a value one separator-
 * delimited segment at a time, and `join_paths`, which glues segments back
 * together.
 */
module PathSplit {
  import opened Wrappers
  import opened StdString

  /** Every segment of `s` between separators, in order: `k` separators give
      `k + 1` segments, empty ones included. */
  function Segments(s: string, sep: char): (r: seq<string>)
    ensures |r| >= 1
    ensures forall i :: 0 <= i < |r| ==> sep !in r[i]
    decreases |s|
  {
    match Find(s, sep, 0)
    case None => [s]
    case Some(p) => [s[..p]] + Segments(s[p + 1..], sep)
  }

  /** The segments joined with one separator between neighbours. */
  function JoinWith(parts: seq<string>, sep: char): (r: string)
    ensures |parts| == 1 ==> r == parts[0]
    ensures |parts| >= 2 ==> r == parts[0] + [sep] + JoinWith(parts[1..], sep)
  {
    if |parts| == 0 then ""
    else if |parts| == 1 then parts[0]
    else parts[0] + [sep] + JoinWith(parts[1..], sep)
  }

  /** Joining the segments of a string gives the string back. */
  lemma {:induction false} JoinSegments(s: string, sep: char)
    ensures JoinWith(Segments(s, sep), sep) == s
    decreases |s|
  {
    match Find(s, sep, 0)
    case None =>
    case Some(p) =>
      JoinSegments(s[p + 1..], sep);
      assert s == s[..p] + [sep] + s[p + 1..];
  }

  /** Splitting a join of separator-free segments gives the segments back. */
  lemma {:induction false} SegmentsOfJoin(parts: seq<string>, sep: char)
    requires |parts| >= 1
    requires forall i :: 0 <= i < |parts| ==> sep !in parts[i]
    ensures Segments(JoinWith(parts, sep), sep) == parts
    decreases |parts|
  {
    var s := JoinWith(parts, sep);
    if |parts| == 1 {
      FindUnique(s, sep, 0, None);
    } else {
      var p := |parts[0]|;
      FindUnique(s, sep, 0, Some(p));
      assert s[..p] == parts[0];
      assert s[p + 1..] == JoinWith(parts[1..], sep);
      SegmentsOfJoin(parts[1..], sep);
      assert parts == [parts[0]] + parts[1..];
    }
  }

  /** Appending a segment appends a separator and the segment. */
  lemma {:induction false} JoinWithSnoc(parts: seq<string>, p: string, sep: char)
    requires |parts| >= 1
    ensures JoinWith(parts + [p], sep) == JoinWith(parts, sep) + [sep] + p
    decreases |parts|
  {
    if |parts| == 1 {
      assert parts + [p] == [parts[0], p];
    } else {
      assert (parts + [p])[1..] == parts[1..] + [p];
      JoinWithSnoc(parts[1..], p, sep);
    }
  }

  /** The leading segments before the first empty one: what a loop ending at
      the default (empty-view) iterator visits. */
  function TakeWhileNonEmpty(segs: seq<string>): (r: seq<string>)
    ensures |r| <= |segs| && r == segs[..|r|]
    ensures forall i :: 0 <= i < |r| ==> r[i] != ""
    ensures |r| < |segs| ==> segs[|r|] == ""
  {
    if |segs| == 0 || segs[0] == "" then []
    else [segs[0]] + TakeWhileNonEmpty(segs[1..])
  }

  /** A prefix of non-empty segments followed by an empty one is exactly what
      `TakeWhileNonEmpty` keeps; so is a sequence of non-empty segments. */
  lemma {:induction false} TakeWhileNonEmptyOf(out: seq<string>, rest: seq<string>)
    requires forall i :: 0 <= i < |out| ==> out[i] != ""
    requires rest == [] || rest[0] == ""
    ensures TakeWhileNonEmpty(out + rest) == out
    decreases |out|
  {
    if |out| > 0 {
      assert (out + rest)[0] == out[0];
      assert (out + rest)[1..] == out[1..] + rest;
      TakeWhileNonEmptyOf(out[1..], rest);
      assert out == [out[0]] + out[1..];
    }
  }

  /**
   * `pathsep_iterator`: `text` is the value walked (`m_var`), `view` the
   * current segment (`m_view`, what `*` returns) and `offset` the start of
   * the next one (`m_offset`, `None` for `npos`).
   */
  class PathSepIterator {
    const sep: char
    const text: string
    var view: string
    var offset: Option<nat>

    ghost predicate Valid()
      reads this
    {
      offset.Some? ==> offset.value <= |text|
    }

    /** The segments still to come after the current one. */
    ghost function Rest(): seq<string>
      reads this
      requires Valid()
    {
      if offset.None? then [] else Segments(text[offset.value..], sep)
    }

    /** The default constructor: empty text, empty view, offset 0. */
    constructor Default(sep: char)
      ensures this.sep == sep && text == "" && view == "" && offset == Some(0)
      ensures Valid() && Rest() == [""]
    {
      this.sep := sep;
      text := "";
      view := "";
      offset := Some(0);
      new;
      assert Find("", sep, 0) == None;
    }

    /** Constructing from a string positions the iterator on its first
        segment at once. */
    constructor (str: string, sep: char)
      ensures this.sep == sep && text == str && Valid()
      ensures view == Segments(str, sep)[0] && Rest() == Segments(str, sep)[1..]
    {
      this.sep := sep;
      text := str;
      view := "";
      offset := Some(0);
      new;
      assert text[0..] == text;
      Increment();
    }

    /** The copy made by postfix `++`. */
    constructor Copy(other: PathSepIterator)
      ensures sep == other.sep && text == other.text
      ensures view == other.view && offset == other.offset
    {
      sep := other.sep;
      text := other.text;
      view := other.view;
      offset := other.offset;
    }

    /**
     * Prefix `++`, which runs `next_sep`: with the offset at `npos` the view
     * becomes empty; otherwise the view becomes the text from the offset to
     * the next separator (or to the end, and the offset becomes `npos`) and
     * the offset moves past that separator.  In terms of segments: the next
     * one becomes current, and past the last one the view is empty.
     */
    method Increment()
      requires Valid()
      modifies this
      ensures Valid()
      ensures old(offset).None? ==> view == "" && offset == None
      ensures old(offset).Some? && Find(text, sep, old(offset).value).None? ==>
        view == text[old(offset).value..] && offset == None
      ensures old(offset).Some? && Find(text, sep, old(offset).value).Some? ==>
        (var p := Find(text, sep, old(offset).value).value;
         view == text[old(offset).value..p] && offset == Some(p + 1))
      ensures old(Rest()) == [] ==> view == "" && Rest() == []
      ensures old(Rest()) != [] ==> view == old(Rest())[0] && Rest() == old(Rest())[1..]
    {
      if offset.None? {
        view := "";
        return;
      }
      var o := offset.value;
      var pos := Find(text, sep, o);
      FindInSuffix(text, sep, o, 0);
      if pos.None? {
        view := text[o..];
        offset := None;
        return;
      }
      var p := pos.value;
      assert text[o..][..p - o] == text[o..p];
      assert text[o..][p - o + 1..] == text[p + 1..];
      view := text[o..p];
      offset := Some(p + 1);
    }

    /** Postfix `++`: returns the state before the increment. */
    method PostIncrement() returns (before: PathSepIterator)
      requires Valid()
      modifies this
      ensures fresh(before) && before.sep == sep && before.text == text
      ensures before.view == old(view) && before.offset == old(offset)
      ensures Valid()
      ensures old(Rest()) == [] ==> view == "" && Rest() == []
      ensures old(Rest()) != [] ==> view == old(Rest())[0] && Rest() == old(Rest())[1..]
    {
      before := new PathSepIterator.Copy(this);
      Increment();
    }

    /** `==`: only the current segments are compared, so the text and the
        offset play no part, and every iterator on an empty segment equals
        the default one. */
    predicate Equals(other: PathSepIterator)
      reads this, other
      ensures Equals(other) <==> other.view == view
      ensures view == "" && other.view == "" ==> Equals(other)
      ensures Equals(other) && other.view == "" ==> view == ""
    {
      view == other.view
    }
  }

  /** The loop `for (it = pathsep_iterator(s); it != pathsep_iterator(); ++it)`:
      because the end test compares views, it stops at the first empty
      segment. */
  method CollectSegments(s: string, sep: char) returns (out: seq<string>)
    ensures out == TakeWhileNonEmpty(Segments(s, sep))
  {
    var it := new PathSepIterator(s, sep);
    var end := new PathSepIterator.Default(sep);
    out := [];
    while !it.Equals(end)
      invariant it.Valid() && it.text == s && it.sep == sep && end.view == ""
      invariant forall i :: 0 <= i < |out| ==> out[i] != ""
      invariant out + [it.view] + it.Rest() == Segments(s, sep) ||
                (it.view == "" && it.Rest() == [] && out == Segments(s, sep))
      decreases |it.Rest()| + (if it.view == "" then 0 else 1)
    {
      out := out + [it.view];
      it.Increment();
      assert out + [it.view] + it.Rest() == Segments(s, sep) ||
             (it.view == "" && it.Rest() == [] && out == Segments(s, sep));
    }
    if out + [it.view] + it.Rest() == Segments(s, sep) {
      assert out + [it.view] + it.Rest() == out + ([it.view] + it.Rest());
      TakeWhileNonEmptyOf(out, [it.view] + it.Rest());
    } else {
      TakeWhileNonEmptyOf(out, []);
      assert out + [] == out;
    }
  }

  /** An empty segment in the middle ends the loop early: `"a::b"` visits `"a"`
      only, and `""` visits nothing. */
  lemma EmptySegmentEndsIteration()
    ensures Segments("a::b", ':') == ["a", "", "b"]
    ensures TakeWhileNonEmpty(Segments("a::b", ':')) == ["a"]
    ensures TakeWhileNonEmpty(Segments("", ':')) == []
  {
    assert Find("b", ':', 0) == None;
    assert Segments("b", ':') == ["b"];
    assert Find(":b", ':', 0) == Some(0);
    assert ":b"[..0] == "" && ":b"[1..] == "b";
    assert Segments(":b", ':') == [""] + Segments("b", ':');
    assert Find("a::b", ':', 0) == Some(1);
    assert "a::b"[..1] == "a" && "a::b"[2..] == ":b";
    assert Segments("a::b", ':') == ["a"] + Segments(":b", ':');
    assert Find("", ':', 0) == None;
  }

  /** A loop that ends when the offset reaches `npos` instead visits every
      segment, empty ones included. */
  method CollectAllSegments(s: string, sep: char) returns (out: seq<string>)
    ensures out == Segments(s, sep)
  {
    var it := new PathSepIterator(s, sep);
    out := [it.view];
    while it.offset.Some?
      invariant it.Valid() && it.text == s && it.sep == sep
      invariant out + it.Rest() == Segments(s, sep)
      decreases |it.Rest()|
    {
      it.Increment();
      out := out + [it.view];
    }
  }

  /** `join_paths`' result: the join with one trailing separator removed. */
  function DropTrailingSep(joined: string, sep: char): (r: string)
    requires joined != []
    ensures joined[|joined| - 1] == sep ==> joined == r + [sep]
    ensures joined[|joined| - 1] != sep ==> r == joined
  {
    if joined[|joined| - 1] == sep then joined[..|joined| - 1] else joined
  }

  /** `join_paths`: joins the segments with `sep`, then drops a trailing
      separator.  Reading the last character of an empty result is undefined,
      so the join must not be empty. */
  method JoinPaths(parts: seq<string>, sep: char) returns (path: string)
    requires JoinWith(parts, sep) != []
    ensures path == DropTrailingSep(JoinWith(parts, sep), sep)
  {
    path := [];
    var i := 0;
    while i < |parts|
      invariant 0 <= i <= |parts|
      invariant path == JoinWith(parts[..i], sep)
    {
      if i > 0 {
        JoinWithSnoc(parts[..i], parts[i], sep);
        assert parts[..i + 1] == parts[..i] + [parts[i]];
        path := path + [sep];
      } else {
        assert parts[..1] == [parts[0]];
      }
      path := path + parts[i];
      i := i + 1;
    }
    assert parts[..i] == parts;
    if path[|path| - 1] == sep {
      path := path[..|path| - 1];
    }
  }

  /** Splitting what `join_paths` built from non-empty, separator-free
      segments gives those segments back. */
  lemma {:induction false} SplitJoinPaths(parts: seq<string>, sep: char)
    requires |parts| >= 1
    requires forall i :: 0 <= i < |parts| ==> sep !in parts[i] && parts[i] != ""
    ensures JoinWith(parts, sep) != []
    ensures Segments(DropTrailingSep(JoinWith(parts, sep), sep), sep) == parts
  {
    var j := JoinWith(parts, sep);
    LastOfJoin(parts, sep);
    SegmentsOfJoin(parts, sep);
  }

  /** A join ends with its last segment. */
  lemma {:induction false} LastOfJoin(parts: seq<string>, sep: char)
    requires |parts| >= 1 && parts[|parts| - 1] != ""
    requires sep !in parts[|parts| - 1]
    ensures JoinWith(parts, sep) != []
    ensures JoinWith(parts, sep)[|JoinWith(parts, sep)| - 1] != sep
    decreases |parts|
  {
    if |parts| >= 2 {
      LastOfJoin(parts[1..], sep);
    }
  }

  /** A trailing empty segment leaves no trace: its separator is dropped. */
  lemma TrailingEmptyDropped(parts: seq<string>, sep: char)
    requires |parts| >= 1
    ensures JoinWith(parts + [""], sep) != []
    ensures DropTrailingSep(JoinWith(parts + [""], sep), sep) == JoinWith(parts, sep)
  {
    JoinWithSnoc(parts, "", sep);
  }
}
