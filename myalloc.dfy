/**
 * The arena of the memory allocator: `myinit` maps a page-aligned arena
 * and records its start, end and size in three globals; `mydestroy` unmaps
 * it and resets them. `mmap` and `munmap` are oracles that may fail,
 * `getpagesize()` is a positive parameter and `MAX_ARENA_SIZE` is a
 * parameter as well, since myalloc.h is not part of this model.
 */
module MyAlloc {
  import opened Wrappers

  /** A value of one of the pointer globals: NULL, the `MAP_FAILED` sentinel, or an address. */
  datatype Ptr = Null | MapFailed | Addr(a: nat)

  /** The error codes myalloc.h defines; their numeric values are not part of this model. */
  datatype ErrorCode = BadArguments | SyscallFailed | Uninitialized

  /** What `myinit` and `mydestroy` return: a value, or an error code. */
  datatype Status = Value(v: nat) | Error(code: ErrorCode)

  /** The three globals `_arena_start`, `_arena_end` and `_arena_size`. */
  datatype ArenaState = ArenaState(start: Ptr, end: Ptr, size: nat)

  /** The globals before the first call: both pointers NULL and the size 0. */
  const Initial := ArenaState(Null, Null, 0)

  // ------------------------------------------------------- page rounding

  /**
   * The request rounded up to the next page boundary: a multiple of the
   * page size, no smaller than the request and less than a page larger.
   */
  function AlignUp(size: nat, pagesize: nat): (r: nat)
    requires pagesize > 0
    ensures r % pagesize == 0 && size <= r < size + pagesize
  {
    if size % pagesize != 0 then
      ModUnique(size + (pagesize - size % pagesize), pagesize, size / pagesize + 1, 0);
      size + (pagesize - size % pagesize)
    else size
  }

  /** Division with remainder is unique: `q * n + r` with `0 <= r < n` leaves remainder `r`. */
  lemma ModUnique(a: int, n: int, q: int, r: int)
    requires n > 0 && a == q * n + r && 0 <= r < n
    ensures a % n == r
  {
    var q', r' := a / n, a % n;
    assert (q - q') * n == r' - r;
    if q > q' {
      MulAtLeast(q - q', n);
    } else if q < q' {
      MulAtLeast(q' - q, n);
    }
  }

  lemma {:induction false} MulAtLeast(d: nat, n: nat)
    requires d >= 1
    ensures d * n >= n
  {
    if d > 1 {
      MulAtLeast(d - 1, n);
      assert d * n == (d - 1) * n + n;
    }
  }

  /** A whole number of pages is left as it is. */
  lemma AlignedUnchanged(size: nat, pagesize: nat)
    requires pagesize > 0 && size % pagesize == 0
    ensures AlignUp(size, pagesize) == size
  {
  }

  /** Rounding up gives the least multiple of the page size that holds the request. */
  lemma AlignUpLeast(size: nat, pagesize: nat, m: nat)
    requires pagesize > 0 && m % pagesize == 0 && size <= m
    ensures AlignUp(size, pagesize) <= m
  {
    var r := AlignUp(size, pagesize);
    if r > m {
      var a, b := r / pagesize, m / pagesize;
      assert r == a * pagesize && m == b * pagesize;
      if a < b {
        MulAtLeast(b - a, pagesize);
      } else if a > b {
        MulAtLeast(a - b, pagesize);
      }
      assert false;
    }
  }

  /** Rounding twice is rounding once. */
  lemma AlignUpIdempotent(size: nat, pagesize: nat)
    requires pagesize > 0
    ensures AlignUp(AlignUp(size, pagesize), pagesize) == AlignUp(size, pagesize)
  {
    AlignedUnchanged(AlignUp(size, pagesize), pagesize);
  }

  // ------------------------------------------------------------- myinit

  /**
   * `myinit(size)` on the globals `a`: a request above `MAX_ARENA_SIZE` is
   * refused and changes nothing; otherwise the size is rounded up to whole
   * pages and mapped. `mapping` is what `mmap` returns: `None` for
   * `MAP_FAILED`, which is stored in `_arena_start` before the error is
   * returned, leaving size and end as they were.
   */
  function Init(a: ArenaState, size: nat, pagesize: nat, maxArenaSize: nat, mapping: Option<nat>): (r: (ArenaState, Status))
    requires pagesize > 0
    ensures size > maxArenaSize ==> r == (a, Error(BadArguments))
    ensures size <= maxArenaSize && mapping.None? ==>
      r == (a.(start := MapFailed), Error(SyscallFailed))
    ensures size <= maxArenaSize && mapping.Some? ==>
      r.0.size % pagesize == 0 && size <= r.0.size < size + pagesize &&
      r.0.start == Addr(mapping.value) && r.0.end == Addr(mapping.value + r.0.size) &&
      r.1 == Value(r.0.size)
  {
    if size > maxArenaSize then (a, Error(BadArguments))
    else
      var adjusted := AlignUp(size, pagesize);
      match mapping
      case None => (a.(start := MapFailed), Error(SyscallFailed))
      case Some(addr) => (ArenaState(Addr(addr), Addr(addr + adjusted), adjusted), Value(adjusted))
  }

  // ---------------------------------------------------------- mydestroy

  /**
   * `mydestroy()` on the globals `a`: with no arena (`_arena_start` NULL)
   * nothing changes and `ERR_UNINITIALIZED` is returned; a failing
   * `munmap` changes nothing either; otherwise start becomes NULL and size
   * 0, while `_arena_end` keeps its old value.
   */
  function Destroy(a: ArenaState, munmapOk: bool): (r: (ArenaState, Status))
    ensures a.start == Null ==> r == (a, Error(Uninitialized))
    ensures a.start != Null && !munmapOk ==> r == (a, Error(SyscallFailed))
    ensures a.start != Null && munmapOk ==> r == (ArenaState(Null, a.end, 0), Value(0))
  {
    if a.start == Null then (a, Error(Uninitialized))
    else if !munmapOk then (a, Error(SyscallFailed))
    else (a.(start := Null, size := 0), Value(0))
  }

  /** A successful init followed by a successful destroy leaves no arena, but the end pointer of the one that was mapped. */
  lemma InitThenDestroy(a: ArenaState, size: nat, pagesize: nat, maxArenaSize: nat, addr: nat)
    requires pagesize > 0 && size <= maxArenaSize
    ensures var (mapped, st) := Init(a, size, pagesize, maxArenaSize, Some(addr));
      var (after, st') := Destroy(mapped, true);
      st.Value? && st' == Value(0) &&
      after == ArenaState(Null, Addr(addr + AlignUp(size, pagesize)), 0)
  {
  }

  /**
   * After a failed `mmap`, `_arena_start` holds `MAP_FAILED`, not NULL, so
   * `mydestroy` does not report a missing arena: it goes on to unmap.
   */
  lemma FailedInitIsNotUninitialized(a: ArenaState, size: nat, pagesize: nat, maxArenaSize: nat, munmapOk: bool)
    requires pagesize > 0 && size <= maxArenaSize
    ensures var (failed, _) := Init(a, size, pagesize, maxArenaSize, None);
      Destroy(failed, munmapOk).1 != Error(Uninitialized)
  {
  }

  /** Destroying with no arena is harmless however often it is repeated. */
  lemma DestroyUninitializedIdempotent(a: ArenaState, munmapOk: bool)
    requires a.start == Null
    ensures Destroy(Destroy(a, munmapOk).0, munmapOk) == Destroy(a, munmapOk)
  {
  }

  // --------------------------------------------------------- the globals

  /** The allocator's globals, updated in place by `myinit` and `mydestroy`. */
  class Arena {
    var start: Ptr
    var end: Ptr
    var size: nat

    function State(): ArenaState
      reads this
    {
      ArenaState(start, end, size)
    }

    /** The globals as the program starts: `NULL`, `NULL`, 0. */
    constructor ()
      ensures State() == Initial
    {
      start, end, size := Null, Null, 0;
    }

    /**
     * myinit: refuse a request above `MAX_ARENA_SIZE`, round it up to whole
     * pages, map it, and record the arena; `mapping` is `mmap`'s answer.
     */
    method MyInit(size: nat, pagesize: nat, maxArenaSize: nat, mapping: Option<nat>) returns (status: Status)
      requires pagesize > 0
      modifies this
      ensures (State(), status) == Init(old(State()), size, pagesize, maxArenaSize, mapping)
    {
      if size > maxArenaSize {
        return Error(BadArguments);
      }
      var adjusted := size;
      if adjusted % pagesize != 0 {
        adjusted := adjusted + (pagesize - adjusted % pagesize);
      }
      if mapping.None? {
        start := MapFailed;
        return Error(SyscallFailed);
      }
      start := Addr(mapping.value);
      this.size := adjusted;
      end := Addr(mapping.value + adjusted);
      return Value(this.size);
    }

    /** mydestroy: unmap the arena if there is one; `munmapOk` is whether `munmap` succeeds. */
    method MyDestroy(munmapOk: bool) returns (status: Status)
      modifies this
      ensures (State(), status) == Destroy(old(State()), munmapOk)
    {
      if start == Null {
        return Error(Uninitialized);
      }
      if !munmapOk {
        return Error(SyscallFailed);
      }
      start := Null;
      size := 0;
      return Value(0);
    }
  }
}
