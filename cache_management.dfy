/**
 * The aarch64 `cache_management` module of runtime/src/mmap.rs: instruction
 * cache invalidation over a byte range.
 *
 * Each read of the CTR_EL0 register is a query of the oracle `ctr`: `ctr(i)`
 * is the raw value the i-th read returns (on a big.LITTLE system this depends
 * on which core the thread runs on). Each `ic ivau` call appends its address
 * to a log. Addresses are unbounded naturals; `x & !(p - 1)` for the
 * power-of-two line size `p` is written as rounding down to a multiple of `p`.
 */
module CacheManagement {

  /** The largest line size IminLine can encode: `4 << 15` bytes. */
  const MaxLineSize: nat := 131072

  /** The initial `current_line_size`, above every encodable line size. */
  const Sentinel: nat := 0xFFFF_FFFF

  /** A cache line length in bytes: at least one 4-byte instruction word. */
  type LineBytes = n: nat | 4 <= n witness 4

  function Pow2(k: nat): (r: nat)
    ensures r >= 1
  {
    if k == 0 then 1 else 2 * Pow2(k - 1)
  }

  ghost predicate IsPowerOfTwo(n: nat)
  {
    exists k: nat :: Pow2(k) == n
  }

  lemma {:induction false} Pow2Monotone(a: nat, b: nat)
    requires a <= b
    ensures Pow2(a) <= Pow2(b)
  {
    if a < b {
      Pow2Monotone(a, b - 1);
    }
  }

  /**
   * IminLine, bits [3:0] of CTR_EL0 (`raw & 0xF`): log2 of the smallest
   * icache line in 4-byte words. The register value is a natural number below
   * 2^64, so its low four bits are its remainder modulo 16.
   */
  function IminLine(raw: nat): (k: nat)
    ensures k < 16
  {
    raw % 16
  }

  /** `4 << k`: a line of 2^k four-byte words. */
  function LineSize(k: nat): nat
  {
    4 * Pow2(k)
  }

  /** Line sizes grow strictly with the encoded exponent. */
  lemma LineSizeOrder(a: nat, b: nat)
    ensures LineSize(a) < LineSize(b) <==> a < b
  {
    if a < b {
      Pow2Monotone(a + 1, b);
    } else {
      Pow2Monotone(b, a);
    }
  }

  /** A size `get_cacheline_size` can return. */
  ghost predicate IsLineSize(n: nat)
  {
    IsPowerOfTwo(n) && 4 <= n <= MaxLineSize
  }

  lemma LineSizeFacts(k: nat)
    requires k < 16
    ensures IsLineSize(LineSize(k)) && LineSize(k) % 4 == 0
  {
    assert Pow2(k + 2) == LineSize(k);
    Pow2Monotone(k, 15);
    assert Pow2(15) == 32768;
  }

  /**
   * `get_cacheline_size`: decodes the raw CTR_EL0 value as `4 << (raw & 0xF)`,
   * between 4 and 131072 bytes, so always below the sentinel.
   */
  function CachelineSize(raw: nat): (r: LineBytes)
    ensures r <= MaxLineSize && r < Sentinel
  {
    LineSizeFacts(IminLine(raw));
    LineSize(IminLine(raw))
  }

  /** Every size `get_cacheline_size` returns is a power of two, a whole number of 4-byte words. */
  lemma CachelineSizeIsLineSize(raw: nat)
    ensures IsLineSize(CachelineSize(raw)) && CachelineSize(raw) % 4 == 0
  {
    LineSizeFacts(IminLine(raw));
  }

  lemma {:induction false} MulAtLeast(d: nat, m: nat)
    requires d >= 1
    ensures d * m >= m
  {
    if d > 1 {
      MulAtLeast(d - 1, m);
      assert d * m == (d - 1) * m + m;
    }
  }

  /** Euclidean division is unique: `a == q * m + r` with `0 <= r < m` fixes `a / m` and `a % m`. */
  lemma DivModUnique(a: int, m: nat, q: int, r: int)
    requires m > 0 && 0 <= r < m && a == q * m + r
    ensures a / m == q && a % m == r
  {
    var q0, r0 := a / m, a % m;
    assert q0 * m + r0 == a;
    if q0 > q {
      MulAtLeast(q0 - q, m);
      assert false;
    } else if q0 < q {
      MulAtLeast(q - q0, m);
      assert false;
    }
  }

  /** `addr & !(line - 1)` for a power-of-two `line`: the start of the line holding `addr`. */
  function AlignDown(addr: nat, line: nat): (r: nat)
    requires line > 0
    ensures r <= addr < r + line && r % line == 0
  {
    DivModUnique(addr - addr % line, line, addr / line, 0);
    addr - addr % line
  }

  /** The addresses one sweep hands to `ic ivau`: from `addr` in steps of `line` while below `end`. */
  function Lines(addr: nat, end: nat, line: nat): (s: seq<nat>)
    requires line > 0
    ensures |s| > 0 <==> addr < end
    ensures |s| > 0 ==> s[0] == addr
    decreases if addr < end then end - addr else 0
  {
    if addr < end then [addr] + Lines(addr + line, end, line) else []
  }

  /** Consecutive addresses are exactly `line` apart (strictly ascending). */
  ghost predicate Ascending(s: seq<nat>, line: nat)
  {
    forall i :: 0 < i < |s| ==> s[i] == s[i - 1] + line
  }

  /** Every address is a multiple of `line`. */
  ghost predicate Aligned(s: seq<nat>, line: nat)
    requires line > 0
  {
    forall i :: 0 <= i < |s| ==> s[i] % line == 0
  }

  /** Every address lies in `[lo, end)`. */
  ghost predicate Within(s: seq<nat>, lo: nat, end: nat)
  {
    forall i :: 0 <= i < |s| ==> lo <= s[i] < end
  }

  /**
   * Some address of `addrs` lies at most one line below byte `b`: for an
   * `Aligned` sequence, that address starts the `line`-byte line holding `b`.
   */
  ghost predicate Covered(addrs: seq<nat>, line: nat, b: nat)
  {
    exists i :: 0 <= i < |addrs| && addrs[i] <= b < addrs[i] + line
  }

  /** A sweep never leaves `[addr, end)`. */
  lemma {:induction false} LinesWithin(addr: nat, end: nat, line: nat)
    requires line > 0
    ensures Within(Lines(addr, end, line), addr, end)
    decreases if addr < end then end - addr else 0
  {
    if addr < end {
      var s := Lines(addr, end, line);
      var t := Lines(addr + line, end, line);
      LinesWithin(addr + line, end, line);
      assert s == [addr] + t;
      forall i | 0 < i < |s|
        ensures addr <= s[i] < end
      {
        assert s[i] == t[i - 1];
      }
    }
  }

  /** Consecutive addresses of a sweep are exactly one line apart. */
  lemma {:induction false} LinesStep(addr: nat, end: nat, line: nat)
    requires line > 0
    ensures Ascending(Lines(addr, end, line), line)
    decreases if addr < end then end - addr else 0
  {
    if addr < end {
      var s := Lines(addr, end, line);
      var t := Lines(addr + line, end, line);
      LinesStep(addr + line, end, line);
      assert s == [addr] + t;
      forall i | 0 < i < |s|
        ensures s[i] == s[i - 1] + line
      {
        if i > 1 {
          assert t[i - 1] == t[i - 2] + line;
        }
      }
    }
  }

  /** A sweep started on a line boundary stays on line boundaries. */
  lemma {:induction false} LinesAligned(addr: nat, end: nat, line: nat)
    requires line > 0 && addr % line == 0
    ensures Aligned(Lines(addr, end, line), line)
    decreases if addr < end then end - addr else 0
  {
    if addr < end {
      var s := Lines(addr, end, line);
      var t := Lines(addr + line, end, line);
      DivModUnique(addr + line, line, addr / line + 1, 0);
      LinesAligned(addr + line, end, line);
      assert s == [addr] + t;
      forall i | 0 <= i < |s|
        ensures s[i] % line == 0
      {
        if i > 0 {
          assert s[i] == t[i - 1];
        }
      }
    }
  }

  /** A sweep from `addr` covers every byte from `addr` up to `end`. */
  lemma {:induction false} LinesCover(addr: nat, end: nat, line: nat, b: nat)
    requires line > 0 && addr <= b < end
    ensures Covered(Lines(addr, end, line), line, b)
    decreases end - addr
  {
    var s := Lines(addr, end, line);
    if b < addr + line {
      assert s[0] <= b < s[0] + line;
    } else {
      LinesCover(addr + line, end, line, b);
      var i :| 0 <= i < |s[1..]| && s[1..][i] <= b < s[1..][i] + line;
      assert s[i + 1] <= b < s[i + 1] + line;
    }
  }

  /** One step of the inner loop: the sweep from `addr` is `addr` followed by the sweep from the next line. */
  lemma LinesStepAppend(prefix: seq<nat>, addr: nat, end: nat, line: nat)
    requires line > 0 && addr < end
    ensures prefix + Lines(addr, end, line) == (prefix + [addr]) + Lines(addr + line, end, line)
  {
    assert Lines(addr, end, line) == [addr] + Lines(addr + line, end, line);
  }

  /** The sweep over `[start, end)` with line size `line` (lines 237-242). */
  function SweepFrom(start: nat, end: nat, line: nat): seq<nat>
    requires line > 0
  {
    Lines(AlignDown(start, line), end, line)
  }

  /** What one sweep over `[start, end)` with a `line`-byte line size must do. */
  ghost predicate SweepCorrect(addrs: seq<nat>, line: nat, start: nat, end: nat)
    requires line > 0
  {
    && |addrs| > 0
    && addrs[0] == AlignDown(start, line)
    && Ascending(addrs, line)
    && Aligned(addrs, line)
    && Within(addrs, AlignDown(start, line), end)
    && (forall b :: start <= b < end ==> Covered(addrs, line, b))
  }

  /**
   * A sweep over a non-empty range starts at `start` rounded down to the line
   * size, steps up one line at a time on line boundaries, stays below `end`,
   * and leaves no byte of `[start, end)` outside an invalidated line.
   */
  lemma SweepFromCorrect(start: nat, end: nat, line: nat)
    requires start < end && line > 0
    ensures SweepCorrect(SweepFrom(start, end, line), line, start, end)
  {
    var a := AlignDown(start, line);
    LinesStep(a, end, line);
    LinesAligned(a, end, line);
    LinesWithin(a, end, line);
    forall b | start <= b < end
      ensures Covered(Lines(a, end, line), line, b)
    {
      LinesCover(a, end, line, b);
    }
  }

  /**
   * The line sizes the outer loop sweeps with, from a state in which `line`
   * is the last size read, `q` reads have been made and `current` is the size
   * used last (lines 234-246): sweep while the last read is strictly smaller,
   * then read again.
   */
  function SizesFrom(ctr: nat -> nat, q: nat, line: LineBytes, current: nat): seq<LineBytes>
    decreases current
  {
    if current > line then [line] + SizesFrom(ctr, q + 1, CachelineSize(ctr(q)), line) else []
  }

  /** The line sizes of all sweeps of the general path: they depend only on the register reads. */
  function SizesUsed(ctr: nat -> nat): seq<LineBytes>
  {
    SizesFrom(ctr, 1, CachelineSize(ctr(0)), Sentinel)
  }

  /** The addresses of one sweep per line size, in order. */
  function SweepLog(start: nat, end: nat, sizes: seq<LineBytes>): seq<nat>
  {
    if sizes == [] then [] else SweepFrom(start, end, sizes[0]) + SweepLog(start, end, sizes[1..])
  }

  /** Every address handed to `ic ivau` by `invalidate_icache_lines`, in order. */
  function InvalidationLog(start: nat, len: nat, ctr: nat -> nat): seq<nat>
  {
    if len <= 4 then [AlignDown(start, 4)] else SweepLog(start, start + len, SizesUsed(ctr))
  }

  /** The sizes follow the register reads, from read `q0` on. */
  ghost predicate FollowsReads(sizes: seq<nat>, ctr: nat -> nat, q0: nat)
  {
    forall i :: 0 <= i < |sizes| ==> sizes[i] == CachelineSize(ctr(q0 + i))
  }

  /** Each size is strictly smaller than the one before. */
  ghost predicate Shrinking(sizes: seq<nat>)
  {
    forall i :: 0 < i < |sizes| ==> sizes[i] < sizes[i - 1]
  }

  /** From any state of the outer loop, the sizes used next are the sizes read next. */
  lemma {:induction false} SizesFollowReads(ctr: nat -> nat, q: nat, current: nat)
    requires q >= 1
    ensures FollowsReads(SizesFrom(ctr, q, CachelineSize(ctr(q - 1)), current), ctr, q - 1)
    decreases current
  {
    var line := CachelineSize(ctr(q - 1));
    if current > line {
      var s := SizesFrom(ctr, q, line, current);
      var rest := SizesFrom(ctr, q + 1, CachelineSize(ctr(q)), line);
      SizesFollowReads(ctr, q + 1, line);
      assert s == [line] + rest;
      forall i | 0 < i < |s|
        ensures s[i] == CachelineSize(ctr(q - 1 + i))
      {
        assert s[i] == rest[i - 1];
      }
    }
  }

  /** From any state of the outer loop, the sizes used next shrink strictly, starting below `current`. */
  lemma {:induction false} SizesShrink(ctr: nat -> nat, q: nat, line: nat, current: nat)
    requires line >= 4
    ensures var s := SizesFrom(ctr, q, line, current);
      Shrinking(s) && (|s| > 0 ==> s[0] < current)
    decreases current
  {
    if current > line {
      var s := SizesFrom(ctr, q, line, current);
      var rest := SizesFrom(ctr, q + 1, CachelineSize(ctr(q)), line);
      SizesShrink(ctr, q + 1, CachelineSize(ctr(q)), line);
      assert s == [line] + rest;
      forall i | 1 < i < |s|
        ensures s[i] < s[i - 1]
      {
        assert s[i] == rest[i - 1] && s[i - 1] == rest[i - 2];
      }
    }
  }

  /**
   * The loop stops exactly when a read is not smaller than the size used last:
   * the read after the last size used is at least that size.
   */
  lemma {:induction false} SizesStop(ctr: nat -> nat, q: nat, current: nat)
    requires q >= 1
    ensures var s := SizesFrom(ctr, q, CachelineSize(ctr(q - 1)), current);
      CachelineSize(ctr(q - 1 + |s|)) >= if s == [] then current else s[|s| - 1]
    decreases current
  {
    var line := CachelineSize(ctr(q - 1));
    if current > line {
      var s := SizesFrom(ctr, q, line, current);
      var rest := SizesFrom(ctr, q + 1, CachelineSize(ctr(q)), line);
      SizesStop(ctr, q + 1, line);
      assert s == [line] + rest;
      assert q - 1 + |s| == q + |rest|;
      if rest != [] {
        assert s[|s| - 1] == rest[|rest| - 1];
      }
    }
  }

  /** While the size used last is at most `4 << n`, at most `n` more sweeps follow. */
  lemma {:induction false} SizesBound(ctr: nat -> nat, q: nat, current: nat, n: nat)
    requires q >= 1 && current <= LineSize(n)
    ensures |SizesFrom(ctr, q, CachelineSize(ctr(q - 1)), current)| <= n
    decreases current
  {
    var k := IminLine(ctr(q - 1));
    var line := CachelineSize(ctr(q - 1));
    if current > line {
      LineSizeOrder(k, n);
      SizesBound(ctr, q + 1, line, k);
    }
  }

  /**
   * The sizes of the general path (lines 231-246): between 1 and 16 sweeps,
   * the i-th using the size of the i-th register read, each strictly smaller
   * than the one before, and the loop stops exactly when the next read is not
   * smaller than the size just used.
   */
  lemma SizesUsedCorrect(ctr: nat -> nat)
    ensures var s := SizesUsed(ctr);
      && 1 <= |s| <= 16
      && FollowsReads(s, ctr, 0)
      && Shrinking(s)
      && CachelineSize(ctr(|s|)) >= s[|s| - 1]
  {
    var line := CachelineSize(ctr(0));
    SizesFollowReads(ctr, 1, Sentinel);
    SizesShrink(ctr, 1, line, Sentinel);
    SizesStop(ctr, 1, Sentinel);
    SizesBound(ctr, 2, line, IminLine(ctr(0)));
    assert SizesUsed(ctr) == [line] + SizesFrom(ctr, 2, CachelineSize(ctr(1)), line);
  }

  /** Every address of the sweep for the i-th size appears in the log. */
  lemma {:induction false} SweepLogHas(start: nat, end: nat, sizes: seq<LineBytes>, i: nat, j: nat)
    requires i < |sizes| && j < |SweepFrom(start, end, sizes[i])|
    ensures SweepFrom(start, end, sizes[i])[j] in SweepLog(start, end, sizes)
  {
    if i > 0 {
      SweepLogHas(start, end, sizes[1..], i - 1, j);
      assert sizes[1..][i - 1] == sizes[i];
    }
  }

  /** A multiple of `line` at most one line below `b` is the start of the line holding `b`. */
  lemma LineStart(a: nat, b: nat, line: nat)
    requires line > 0 && a % line == 0 && a <= b < a + line
    ensures AlignDown(b, line) == a
  {
    DivModUnique(a, line, a / line, 0);
    DivModUnique(b, line, a / line, b - a);
  }

  /**
   * Over-invalidation, never under-invalidation: on the general path, for
   * every line size used, the start of the line holding each byte of the
   * slice is one of the logged `ic ivau` addresses.
   */
  lemma LogCovers(start: nat, len: nat, ctr: nat -> nat)
    requires len > 4
    ensures var s := SizesUsed(ctr);
      forall i, b :: 0 <= i < |s| && start <= b < start + len ==>
        AlignDown(b, s[i]) in InvalidationLog(start, len, ctr)
  {
    var s := SizesUsed(ctr);
    var log := InvalidationLog(start, len, ctr);
    forall i, b | 0 <= i < |s| && start <= b < start + len
      ensures AlignDown(b, s[i]) in log
    {
      SweepFromCorrect(start, start + len, s[i]);
      var sweep := SweepFrom(start, start + len, s[i]);
      assert Covered(sweep, s[i], b);
      var j :| 0 <= j < |sweep| && sweep[j] <= b < sweep[j] + s[i];
      LineStart(sweep[j], b, s[i]);
      SweepLogHas(start, start + len, s, i, j);
    }
  }

  /** The line of `line` bytes holding a multiple of 4 also holds the rest of that 4-byte word. */
  lemma WordInLine(w: nat, d: nat, line: nat)
    requires w % 4 == 0 && d < 4 && line > 0 && line % 4 == 0
    ensures AlignDown(w + d, line) == AlignDown(w, line)
  {
    var q, r := w / line, w % line;
    DivModUnique(r, 4, w / 4 - q * (line / 4), 0);
    assert r + d < line;
    DivModUnique(w + d, line, q, r + d);
  }

  /**
   * The fast path (lines 219-222) is enough for a slice of at most 4 bytes
   * that lies inside one aligned 4-byte word, as an aarch64 instruction does:
   * whatever the line size, `ic ivau` on the logged address invalidates the
   * line holding each byte of the slice.
   */
  lemma FastPathCovers(start: nat, len: nat, ctr: nat -> nat, line: nat)
    requires len <= 4 && start % 4 + len <= 4
    requires line > 0 && line % 4 == 0
    ensures var log := InvalidationLog(start, len, ctr);
      && |log| == 1
      && forall b :: start <= b < start + len ==> AlignDown(log[0], line) == AlignDown(b, line)
  {
    var w := AlignDown(start, 4);
    forall b | start <= b < start + len
      ensures AlignDown(w, line) == AlignDown(b, line)
    {
      WordInLine(w, b - w, line);
    }
  }

  /**
   * The fast path relies on the slice lying in one 4-byte word: the 4 bytes
   * from address 62 reach into the line at 64 of a 64-byte-line cache, but
   * the single `ic ivau` is for the line at 0.
   */
  lemma FastPathStraddle(ctr: nat -> nat)
    ensures var log := InvalidationLog(62, 4, ctr);
      && log == [60]
      && AlignDown(log[0], 64) == 0
      && AlignDown(65, 64) == 64
  {
    DivModUnique(62, 4, 15, 2);
    DivModUnique(60, 64, 0, 60);
    DivModUnique(65, 64, 1, 1);
  }

  /**
   * One step of the outer loop keeps its invariant: after a sweep with the
   * last size read and one more read, the log still extends to the whole log.
   */
  lemma OuterStep(start: nat, end: nat, ctr: nat -> nat, all: seq<LineBytes>, log: seq<nat>, q: nat, line: LineBytes, current: nat)
    requires current > line
    requires SweepLog(start, end, all) == log + SweepLog(start, end, SizesFrom(ctr, q, line, current))
    requires q + |SizesFrom(ctr, q, line, current)| == |all| + 1
    ensures var rest := SizesFrom(ctr, q + 1, CachelineSize(ctr(q)), line);
      && SweepLog(start, end, all) == (log + SweepFrom(start, end, line)) + SweepLog(start, end, rest)
      && q + 1 + |rest| == |all| + 1
  {
    var todo := SizesFrom(ctr, q, line, current);
    var rest := SizesFrom(ctr, q + 1, CachelineSize(ctr(q)), line);
    var sweep := SweepFrom(start, end, line);
    assert todo == [line] + rest;
    assert todo[1..] == rest;
    assert SweepLog(start, end, todo) == sweep + SweepLog(start, end, rest);
    assert log + (sweep + SweepLog(start, end, rest)) == (log + sweep) + SweepLog(start, end, rest);
  }

  /**
   * The inner loop of `invalidate_icache_lines` (lines 237-242): round `start`
   * down to a line boundary and hand each line below `end` to `ic ivau`.
   */
  method SweepLines(start: nat, end: nat, line: nat) returns (swept: seq<nat>)
    requires line > 0
    ensures swept == SweepFrom(start, end, line)
  {
    var addr := AlignDown(start, line);
    swept := [];
    while addr < end
      invariant swept + Lines(addr, end, line) == Lines(AlignDown(start, line), end, line)
      decreases end - addr
    {
      LinesStepAppend(swept, addr, end, line);
      swept := swept + [addr];
      addr := addr + line;
    }
  }

  /** `invalidate_icache_lines` for the slice at address `start` of `len` bytes. */
  method InvalidateIcacheLines(start: nat, len: nat, ctr: nat -> nat) returns (log: seq<nat>, queries: nat)
    ensures log == InvalidationLog(start, len, ctr)
    ensures len <= 4 ==> queries == 0 && |log| == 1 && log[0] % 4 == 0 && log[0] <= start < log[0] + 4
    ensures len > 4 ==> queries == |SizesUsed(ctr)| + 1
  {
    if len <= 4 {
      log, queries := [AlignDown(start, 4)], 0;
      return;
    }
    var endAddr := start + len;
    ghost var all := SizesUsed(ctr);
    var lineSize := CachelineSize(ctr(0));
    queries := 1;
    var current := Sentinel;
    log := [];
    assert all == SizesFrom(ctr, queries, lineSize, current);
    while current > lineSize
      invariant queries >= 1 && lineSize == CachelineSize(ctr(queries - 1))
      invariant SweepLog(start, endAddr, all) == log + SweepLog(start, endAddr, SizesFrom(ctr, queries, lineSize, current))
      invariant queries + |SizesFrom(ctr, queries, lineSize, current)| == |all| + 1
      decreases current
    {
      OuterStep(start, endAddr, ctr, all, log, queries, lineSize, current);
      current := lineSize;
      var swept := SweepLines(start, endAddr, lineSize);
      log := log + swept;
      lineSize := CachelineSize(ctr(queries));
      queries := queries + 1;
    }
    assert SizesFrom(ctr, queries, lineSize, current) == [];
  }
}
