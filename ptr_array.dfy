/**
 * Null-terminated arrays of string pointers: the native environment block
 * (`environ`, `_wenviron`) and the argument vector.  A slot is `None` for the
 * null pointer.  The module holds the length scan `envsize` and the cursors
 * the ranges are built from.
 */
module PtrArray {
  import opened Wrappers

  /** One pointer of the array: `None` is the null pointer. */
  type Slot = Option<string>

  /** Some slot holds the null pointer, so a scan for it stops. */
  predicate HasNull(s: seq<Slot>)
    ensures HasNull(s) <==> None in s
  {
    exists i :: 0 <= i < |s| && s[i].None?
  }

  /** The index of the first null pointer. */
  function FirstNull(s: seq<Slot>): (r: nat)
    requires HasNull(s)
    ensures r < |s| && s[r].None?
    ensures forall i :: 0 <= i < r ==> s[i].Some?
  {
    if s[0].None? then 0
    else
      assert HasNull(s[1..]) by {
        var i :| 0 <= i < |s| && s[i].None?;
        assert s[1..][i - 1].None?;
      }
      1 + FirstNull(s[1..])
  }

  /** The strings the slots before the first null point to. */
  function Entries(s: seq<Slot>): (r: seq<string>)
    requires HasNull(s)
    ensures |r| == FirstNull(s)
    ensures forall i :: 0 <= i < |r| ==> s[i] == Some(r[i])
  {
    var n := FirstNull(s);
    seq(n, i requires 0 <= i < n => s[i].value)
  }

  /**
   * `envsize` / `osenv_size`: counts slots until the first null pointer.  The
   * result is only a lower bound on the array's length, so the array must
   * hold a null pointer.  The array is only read.
   */
  method EnvSize(envptr: array<Slot>) returns (size: nat)
    requires HasNull(envptr[..])
    ensures size < envptr.Length && envptr[size].None?
    ensures forall i :: 0 <= i < size ==> envptr[i].Some?
    ensures size == FirstNull(envptr[..])
  {
    size := 0;
    while envptr[size].Some?
      invariant size <= FirstNull(envptr[..])
      invariant forall i :: 0 <= i < size ==> envptr[i].Some?
      decreases FirstNull(envptr[..]) - size
    {
      size := size + 1;
    }
  }

  /**
   * A pointer into a null-terminated array: `ptr_array_cursor`,
   * `c_ptrptr_cursor` and `ptrarray_iterator`.  The array is a non-null
   * reference, which is the assertion in `c_ptrptr_cursor`'s constructor.
   */
  class PtrCursor {
    const block: array<Slot>
    var slot: int

    constructor (block: array<Slot>, slot: int)
      ensures this.block == block && this.slot == slot
    {
      this.block := block;
      this.slot := slot;
    }

    /** `next()`, prefix `++`. */
    method Next()
      modifies this
      ensures slot == old(slot) + 1
    {
      slot := slot + 1;
    }

    /** `prev()`, prefix `--`. */
    method Prev()
      modifies this
      ensures slot == old(slot) - 1
    {
      slot := slot - 1;
    }

    /** `advance(n)`, `+= n`; `-= n` is `Advance(-n)`. */
    method Advance(n: int)
      modifies this
      ensures slot == old(slot) + n
    {
      slot := slot + n;
    }

    /** `read()`, `operator*`: the pointer in the current slot. */
    method Read() returns (s: Slot)
      requires 0 <= slot < block.Length
      ensures s == block[slot]
    {
      s := block[slot];
    }

    /** `operator[](n)`: the pointer `n` slots further on. */
    method At(n: int) returns (s: Slot)
      requires 0 <= slot + n < block.Length
      ensures s == block[slot + n]
    {
      s := block[slot + n];
    }

    /** `operator+(n)`: a new cursor `n` slots further on. */
    method Plus(n: int) returns (r: PtrCursor)
      ensures fresh(r) && r.block == block && r.slot == slot + n
    {
      r := new PtrCursor(block, slot + n);
    }

    /** `equal(default_sentinel)`: the current slot holds the null pointer;
        walking from the start, that is the first null. */
    predicate AtSentinel()
      reads this, block
      requires 0 <= slot < block.Length
      ensures AtSentinel() ==> HasNull(block[..])
      ensures HasNull(block[..]) && slot <= FirstNull(block[..]) ==>
        (AtSentinel() <==> slot == FirstNull(block[..]))
    {
      block[slot].None?
    }

    /** `distance_to(that)`, and `operator-(rhs)` read the other way round:
        the number of slots from this cursor to `that`. */
    function DistanceTo(that: PtrCursor): (d: int)
      reads this, that
      requires that.block == block
      ensures slot + d == that.slot
    {
      that.slot - slot
    }

    /** `equal(other)`, `operator==`: the same pointer. */
    predicate Equal(other: PtrCursor)
      reads this, other
      ensures Equal(other) <==> block == other.block && DistanceTo(other) == 0
    {
      block == other.block && slot == other.slot
    }

    /** `operator<` and `operator>` follow the pointers' order ... */
    predicate Less(other: PtrCursor)
      reads this, other
      requires other.block == block
      ensures Less(other) <==> DistanceTo(other) > 0
    {
      slot < other.slot
    }

    predicate Greater(other: PtrCursor)
      reads this, other
      requires other.block == block
      ensures Greater(other) <==> DistanceTo(other) < 0
    {
      slot > other.slot
    }

    /** ... and `>=` is written as `!(<)`, `<=` as `!(>)`. */
    predicate GreaterEq(other: PtrCursor)
      reads this, other
      requires other.block == block
      ensures GreaterEq(other) <==> slot >= other.slot
    {
      !Less(other)
    }

    predicate LessEq(other: PtrCursor)
      reads this, other
      requires other.block == block
      ensures LessEq(other) <==> slot <= other.slot
    {
      !Greater(other)
    }
  }

  /** The iterator laws the random-access cursor promises: `(it + n) - it == n`,
      `it[n] == *(it + n)`, and `++` followed by `--` comes back. */
  method CursorLaws(it: PtrCursor, n: int) returns (d: int, indexed: Slot, dereffed: Slot)
    requires 0 <= it.slot + n < it.block.Length
    modifies it
    ensures it.slot == old(it.slot)
    ensures d == n && indexed == dereffed == it.block[it.slot + n]
  {
    var moved := it.Plus(n);
    d := it.DistanceTo(moved);
    indexed := it.At(n);
    dereffed := moved.Read();
    it.Next();
    it.Prev();
  }

  /**
   * `environ_cursor` of the ranges headers with a memoised `read()`: the
   * string last narrowed is kept with the slot it came from, and is narrowed
   * again only when the cursor has moved.  `narrow` is the platform's
   * narrowing conversion, identity on POSIX.
   */
  class MemoCursor {
    const block: array<Slot>
    const narrow: Slot -> string
    var envblock: int
    var pos: int
    var current: string

    /** The memo holds the narrowing of the slot it was read from. */
    ghost predicate Memo()
      reads this, block
    {
      0 <= pos < block.Length && current == narrow(block[pos])
    }

    /** The constructor narrows the first slot at once. */
    constructor (block: array<Slot>, start: int, narrow: Slot -> string)
      requires 0 <= start < block.Length
      ensures this.block == block && this.narrow == narrow
      ensures envblock == start && pos == start && current == narrow(block[start])
      ensures Memo()
    {
      this.block := block;
      this.narrow := narrow;
      envblock := start;
      pos := start;
      current := narrow(block[start]);
    }

    /** `read()`: narrows again only when `pos != envblock`; otherwise the
        memoised string comes back even if the slot changed meanwhile. */
    method Read() returns (s: string)
      requires 0 <= envblock < block.Length
      modifies this
      ensures envblock == old(envblock) && pos == envblock && s == current
      ensures current == if old(pos) != envblock then narrow(block[envblock]) else old(current)
      ensures Memo()  <== old(Memo())
      ensures old(Memo()) ==> s == narrow(block[envblock])
    {
      if pos != envblock {
        current := narrow(block[envblock]);
        pos := envblock;
      }
      s := current;
    }

    /** `next()`, `prev()`, `advance(n)` move the slot and nothing else. */
    method Advance(n: int)
      modifies this
      ensures envblock == old(envblock) + n
      ensures pos == old(pos) && current == old(current)
    {
      envblock := envblock + n;
    }

    method Next()
      modifies this
      ensures envblock == old(envblock) + 1
      ensures pos == old(pos) && current == old(current)
    {
      envblock := envblock + 1;
    }

    method Prev()
      modifies this
      ensures envblock == old(envblock) - 1
      ensures pos == old(pos) && current == old(current)
    {
      envblock := envblock - 1;
    }

    /** `equal(default_sentinel)`: the current slot is null; walking from
        the start, that is the first null. */
    predicate AtSentinel()
      reads this, block
      requires 0 <= envblock < block.Length
      ensures AtSentinel() ==> HasNull(block[..])
      ensures HasNull(block[..]) && envblock <= FirstNull(block[..]) ==>
        (AtSentinel() <==> envblock == FirstNull(block[..]))
    {
      block[envblock].None?
    }

    /** `distance_to(that)`: the slot difference. */
    function DistanceTo(that: MemoCursor): (d: int)
      reads this, that
      ensures envblock + d == that.envblock
    {
      that.envblock - envblock
    }

    /** `equal(other)`: the same slot of the same block. */
    predicate Equal(other: MemoCursor)
      reads this, other
      ensures Equal(other) <==> block == other.block && DistanceTo(other) == 0
    {
      block == other.block && envblock == other.envblock
    }
  }

  /** The narrowed entries of a block, up to its first null pointer. */
  function NarrowAll(s: seq<Slot>, narrow: Slot -> string): (r: seq<string>)
    requires HasNull(s)
    ensures |r| == FirstNull(s)
    ensures forall i :: 0 <= i < |r| ==> r[i] == narrow(s[i])
  {
    seq(FirstNull(s), i requires 0 <= i < FirstNull(s) => narrow(s[i]))
  }

  /** `environment_base`: iterating from `envp()` to the null sentinel with
      the memoising cursor reads every entry before the sentinel, narrowed. */
  method EnumerateMemo(envp: array<Slot>, narrow: Slot -> string) returns (lines: seq<string>)
    requires HasNull(envp[..])
    ensures lines == NarrowAll(envp[..], narrow)
  {
    var n := FirstNull(envp[..]);
    var c := new MemoCursor(envp, 0, narrow);
    lines := [];
    while !c.AtSentinel()
      invariant c.block == envp && c.narrow == narrow && c.Memo()
      invariant 0 <= c.envblock <= n && |lines| == c.envblock
      invariant forall i :: 0 <= i < |lines| ==> lines[i] == narrow(envp[i])
      decreases n - c.envblock
    {
      var s := c.Read();
      lines := lines + [s];
      c.Next();
    }
  }

  /**
   * `environ_cursor` of include/ranges.hpp: every move re-reads and narrows
   * the new slot at once, and `read()` returns the stored string.  A move
   * onto the sentinel narrows the null pointer, which `narrow` receives as
   * `None`.
   */
  class EagerCursor {
    const block: array<Slot>
    const narrow: Slot -> string
    var slot: int
    var current: string

    /** The stored string is the narrowing of the current slot. */
    ghost predicate Current()
      reads this, block
    {
      0 <= slot < block.Length && current == narrow(block[slot])
    }

    constructor (block: array<Slot>, start: int, narrow: Slot -> string)
      requires 0 <= start < block.Length
      ensures this.block == block && this.narrow == narrow && slot == start
      ensures current == narrow(block[start]) && Current()
    {
      this.block := block;
      this.narrow := narrow;
      slot := start;
      current := narrow(block[start]);
    }

    /** `read()` has no effect and returns the stored string. */
    method Read() returns (s: string)
      ensures s == current
      ensures Current() ==> s == narrow(block[slot])
    {
      s := current;
    }

    /** `next()`, `prev()`, `advance(n)`: move, then narrow the new slot, which
        must therefore lie inside the array. */
    method Advance(n: int)
      requires 0 <= slot + n < block.Length
      modifies this
      ensures slot == old(slot) + n && current == narrow(block[slot]) && Current()
    {
      slot := slot + n;
      current := narrow(block[slot]);
    }

    method Next()
      requires 0 <= slot + 1 < block.Length
      modifies this
      ensures slot == old(slot) + 1 && current == narrow(block[slot]) && Current()
    {
      slot := slot + 1;
      current := narrow(block[slot]);
    }

    method Prev()
      requires 0 <= slot - 1 < block.Length
      modifies this
      ensures slot == old(slot) - 1 && current == narrow(block[slot]) && Current()
    {
      slot := slot - 1;
      current := narrow(block[slot]);
    }

    /** `equal(default_sentinel)`, delegated to the base cursor: the
        current slot is null, which from the start is the first null. */
    predicate AtSentinel()
      reads this, block
      requires 0 <= slot < block.Length
      ensures AtSentinel() ==> HasNull(block[..])
      ensures HasNull(block[..]) && slot <= FirstNull(block[..]) ==>
        (AtSentinel() <==> slot == FirstNull(block[..]))
    {
      block[slot].None?
    }
  }

  /** Iterating with the eager cursor reads the same entries. */
  method EnumerateEager(envp: array<Slot>, narrow: Slot -> string) returns (lines: seq<string>)
    requires HasNull(envp[..])
    ensures lines == NarrowAll(envp[..], narrow)
  {
    var n := FirstNull(envp[..]);
    var c := new EagerCursor(envp, 0, narrow);
    lines := [];
    while !c.AtSentinel()
      invariant c.block == envp && c.narrow == narrow && c.Current()
      invariant 0 <= c.slot <= n && |lines| == c.slot
      invariant forall i :: 0 <= i < |lines| ==> lines[i] == narrow(envp[i])
      decreases n - c.slot
    {
      var s := c.Read();
      lines := lines + [s];
      c.Next();
    }
  }
}
