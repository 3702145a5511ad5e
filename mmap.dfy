/**
 * The executable/mutable buffer pair of runtime/src/mmap.rs.
 *
 * A buffer is a used length plus an optional backing mapping. A buffer of
 * size 0 has no mapping and never asks the mapping provider for anything.
 * `MutableBuffer` is changed in place (`set_len`, writes through its mutable
 * view), so it is a class; `ExecutableBuffer` is only ever built and consumed,
 * so it is a datatype. The provider (the memmap crate) is a foreign
 * collaborator: each of its calls is represented by the reply it gives, passed
 * in as a parameter.
 */
module Mmap {
  import opened Wrappers

  /** An `io::Error` reported by the operating system. */
  datatype IoError = IoError(code: int)

  /** A memory mapping: where it lives and what it holds. */
  datatype Mapping = Mapping(base: nat, bytes: seq<bv8>)

  /** `n` zero bytes. */
  function Zeros(n: nat): (z: seq<bv8>)
    ensures |z| == n && forall i :: 0 <= i < n ==> z[i] == 0
  {
    seq(n, _ => 0)
  }

  /**
   * `MmapMut::map_anon(size)`: the provider either grants a fresh anonymous
   * mapping at some base address (exactly `size` zero bytes) or reports an error.
   */
  function MapAnon(size: nat, grant: Result<nat, IoError>): Result<Mapping, IoError>
  {
    match grant
    case Success(base) => Success(Mapping(base, Zeros(size)))
    case Failure(e) => Failure(e)
  }

  /**
   * `make_exec` / `make_mut` on a mapping: a protection flip that either fails
   * with the provider's error or succeeds with the mapping unchanged (same
   * address, same contents).
   */
  function Protect(m: Mapping, denial: Option<IoError>): Result<Mapping, IoError>
  {
    match denial
    case None => Success(m)
    case Some(e) => Failure(e)
  }

  /** Backing size: the mapping's length, or 0 without a mapping. */
  function BackingSize(buffer: Option<Mapping>): nat
  {
    if buffer.Some? then |buffer.value.bytes| else 0
  }

  /** The slice `map[..length]` taken by `Deref` does not panic. */
  predicate ViewInBounds(length: nat, buffer: Option<Mapping>)
  {
    buffer.Some? ==> length <= |buffer.value.bytes|
  }

  /** The byte view both `Deref` implementations give: the used prefix of the mapping. */
  function UsedBytes(length: nat, buffer: Option<Mapping>): (v: seq<bv8>)
    requires ViewInBounds(length, buffer)
    ensures buffer.None? ==> v == []
    ensures buffer.Some? ==> |v| == length && v <= buffer.value.bytes
  {
    if buffer.Some? then buffer.value.bytes[..length] else []
  }

  /** A buffer of executable memory. */
  datatype ExecutableBuffer = ExecutableBuffer(length: nat, buffer: Option<Mapping>)
  {
    /** `ExecutableBuffer::default()`: no mapping, nothing used. */
    static function Default(): (b: ExecutableBuffer)
      ensures b.length == 0 && b.buffer == None && b.Size() == 0 && b.InBounds() && b.View() == []
    {
      ExecutableBuffer(0, None)
    }

    /**
     * `ExecutableBuffer::new(size)`: for size 0 no provider call at all;
     * otherwise an anonymous mapping (reply `grant`) flipped to executable
     * (reply `denial`), the first failure being returned.
     */
    static function New(size: nat, grant: Result<nat, IoError>, denial: Option<IoError>)
      : (r: Result<ExecutableBuffer, IoError>)
      ensures size == 0 ==> r == Success(Default())
      ensures r.Failure? <==> size > 0 && (grant.Failure? || denial.Some?)
      ensures r.Failure? ==> r.error == if grant.Failure? then grant.error else denial.value
      ensures r.Success? ==> r.value.length == 0 && r.value.Size() == size
      ensures r.Success? ==> (r.value.buffer.Some? <==> size > 0)
      ensures r.Success? && size > 0 ==> r.value.buffer.value.base == grant.value
    {
      if size == 0 then
        Success(ExecutableBuffer(0, None))
      else
        match MapAnon(size, grant)
        case Failure(e) => Failure(e)
        case Success(m) =>
          match Protect(m, denial)
          case Failure(e) => Failure(e)
          case Success(x) => Success(ExecutableBuffer(0, Some(x)))
    }

    /** `size()`: the backing length, 0 without a mapping; the view never exceeds it. */
    function Size(): (s: nat)
      ensures buffer.None? ==> s == 0
      ensures buffer.Some? ==> s == |buffer.value.bytes|
      ensures InBounds() ==> |View()| <= s
    {
      BackingSize(buffer)
    }

    /** Dereferencing does not panic. */
    predicate InBounds()
    {
      ViewInBounds(length, buffer)
    }

    /** `Deref`: the first `length` bytes of the mapping, or empty without one. */
    function View(): (v: seq<bv8>)
      requires InBounds()
      ensures buffer.None? ==> v == []
      ensures buffer.Some? ==> |v| == length && v <= buffer.value.bytes
    {
      UsedBytes(length, buffer)
    }

    /**
     * `ptr(offset)`: the address of byte `offset` of the view. Indexing the view
     * panics unless `offset` is below the used length (and there is a mapping).
     */
    function Ptr(offset: nat): (p: nat)
      requires InBounds() && offset < |View()|
      ensures buffer.Some?
      ensures p == buffer.value.base + offset
      ensures p < buffer.value.base + Size()
      ensures buffer.value.bytes[p - buffer.value.base] == View()[offset]
    {
      buffer.value.base + offset
    }

    /**
     * `make_mut(self)`: the same length and mapping, made writable. Without a
     * mapping nothing is asked of the provider; a refused flip is returned as
     * the error.
     */
    method MakeMut(denial: Option<IoError>) returns (r: Result<MutableBuffer, IoError>)
      ensures buffer.None? ==> r.Success?
      ensures r.Failure? <==> buffer.Some? && denial.Some?
      ensures r.Failure? ==> r.error == denial.value
      ensures r.Success? ==> fresh(r.value)
      ensures r.Success? ==> r.value.length == length && r.value.buffer == buffer
    {
      var mapping: Option<Mapping> := None;
      if buffer.Some? {
        var p := Protect(buffer.value, denial);
        if p.Failure? {
          return Failure(p.error);
        }
        mapping := Some(p.value);
      }
      var m := new MutableBuffer.Build(length, mapping);
      r := Success(m);
    }
  }

  /** A buffer of writable memory. */
  class MutableBuffer {
    // how many leading bytes of the mapping are in use
    var length: nat
    // the mapping behind the buffer; None when the buffer has size 0
    var buffer: Option<Mapping>

    /** `MutableBuffer::default()`: no mapping, nothing used. */
    constructor Default()
      ensures length == 0 && buffer == None
      ensures Size() == 0 && InBounds() && View() == []
    {
      length := 0;
      buffer := None;
    }

    /** The struct literal `MutableBuffer { length, buffer }`. */
    constructor Build(length: nat, buffer: Option<Mapping>)
      ensures this.length == length && this.buffer == buffer
    {
      this.length := length;
      this.buffer := buffer;
    }

    /**
     * `MutableBuffer::new(size)`: for size 0 no provider call at all; otherwise
     * an anonymous mapping of `size` zero bytes, or the provider's error.
     */
    static method New(size: nat, grant: Result<nat, IoError>) returns (r: Result<MutableBuffer, IoError>)
      ensures size == 0 ==> r.Success? && r.value.buffer == None
      ensures r.Failure? <==> size > 0 && grant.Failure?
      ensures r.Failure? ==> r.error == grant.error
      ensures r.Success? ==> fresh(r.value)
      ensures r.Success? ==> r.value.length == 0 && r.value.Size() == size && r.value.InBounds()
      ensures r.Success? && size > 0 ==> r.value.buffer.value.base == grant.value
      ensures r.Success? && size > 0 ==> r.value.buffer.value.bytes == Zeros(size)
    {
      var mapping: Option<Mapping> := None;
      if size != 0 {
        var m := MapAnon(size, grant);
        if m.Failure? {
          return Failure(m.error);
        }
        mapping := Some(m.value);
      }
      var b := new MutableBuffer.Build(0, mapping);
      r := Success(b);
    }

    /** `size()`: the backing length, 0 without a mapping; the view never exceeds it. */
    function Size(): (s: nat)
      reads this
      ensures buffer.None? ==> s == 0
      ensures buffer.Some? ==> s == |buffer.value.bytes|
      ensures InBounds() ==> |View()| <= s
    {
      BackingSize(buffer)
    }

    /** Dereferencing does not panic. */
    predicate InBounds()
      reads this
    {
      ViewInBounds(length, buffer)
    }

    /** `Deref`: the first `length` bytes of the mapping, or empty without one. */
    function View(): (v: seq<bv8>)
      reads this
      requires InBounds()
      ensures buffer.None? ==> v == []
      ensures buffer.Some? ==> |v| == length && v <= buffer.value.bytes
    {
      UsedBytes(length, buffer)
    }

    /**
     * `set_len(length)`: overwrites the used length, without any bounds check;
     * the view stays sound exactly when the new length fits the backing size,
     * and shortening it keeps a prefix of the old view.
     */
    method SetLen(n: nat)
      modifies this
      ensures length == n && buffer == old(buffer)
      ensures InBounds() <==> buffer.None? || n <= Size()
      ensures old(InBounds()) && n <= |old(View())| ==> InBounds() && View() == old(View())[..n]
    {
      length := n;
      if buffer.Some? && n <= old(length) <= |buffer.value.bytes| {
        assert buffer.value.bytes[..n] == buffer.value.bytes[..old(length)][..n];
      }
    }

    /**
     * A write of `data` at `offset` through `DerefMut`, the mutable view of the
     * first `length` bytes. Indexing past the view panics.
     */
    method WriteView(offset: nat, data: seq<bv8>)
      requires InBounds() && offset + |data| <= |View()|
      modifies this
      ensures length == old(length) && InBounds() && Size() == old(Size())
      ensures buffer.Some? == old(buffer).Some?
      ensures buffer.Some? ==> buffer.value.base == old(buffer).value.base
      ensures View() == old(View())[..offset] + data + old(View())[offset + |data|..]
      ensures buffer.Some? ==> buffer.value.bytes[length..] == old(buffer).value.bytes[length..]
    {
      if buffer.Some? {
        var m := buffer.value;
        var bytes := m.bytes[..offset] + data + m.bytes[offset + |data|..];
        buffer := Some(Mapping(m.base, bytes));
        assert bytes[..length] == m.bytes[..length][..offset] + data + m.bytes[..length][offset + |data|..];
      }
    }

    /**
     * `make_exec(self)`: the same length and mapping, made executable. Without
     * a mapping nothing is asked of the provider; a refused flip is returned
     * as the error. No instruction-cache maintenance happens here.
     */
    method MakeExec(denial: Option<IoError>) returns (r: Result<ExecutableBuffer, IoError>)
      ensures buffer.None? ==> r == Success(ExecutableBuffer(length, None))
      ensures r.Failure? <==> buffer.Some? && denial.Some?
      ensures r.Failure? ==> r.error == denial.value
      ensures r.Success? ==> r.value.length == length && r.value.buffer == buffer
    {
      var mapping: Option<Mapping> := None;
      if buffer.Some? {
        var p := Protect(buffer.value, denial);
        if p.Failure? {
          return Failure(p.error);
        }
        mapping := Some(p.value);
      }
      r := Success(ExecutableBuffer(length, mapping));
    }
  }

  /**
   * Writable -> executable -> writable keeps the used length, the mapping and
   * therefore the view; either flip may be refused, and only a buffer with a
   * mapping asks the provider.
   */
  method ModeRoundTrip(b: MutableBuffer, toExec: Option<IoError>, toMut: Option<IoError>)
    returns (r: Result<MutableBuffer, IoError>)
    ensures r.Failure? <==> b.buffer.Some? && (toExec.Some? || toMut.Some?)
    ensures r.Success? && b.InBounds() ==> r.value.InBounds() && r.value.View() == b.View()
    ensures r.Success? ==> r.value.Size() == b.Size() && r.value.length == b.length
    ensures r.Success? ==> r.value.buffer == b.buffer
  {
    var e := b.MakeExec(toExec);
    if e.Failure? {
      return Failure(e.error);
    }
    r := e.value.MakeMut(toMut);
  }
}
