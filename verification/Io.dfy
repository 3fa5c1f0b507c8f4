/** Block storage: `struct io` of `inc/io.h` and `struct alloc` of `inc/alloc.h`. */
module Io {
  import opened Pairs

  // Offsets and sizes on disk are 64-bit.
  const LIMIT: nat := 0x1_0000_0000_0000_0000

  /* ---------- Page arithmetic ---------- */

  /** `io_pages`: pages that hold `size` bytes. */
  function IoPages(ps: nat, size: nat): nat
    requires ps > 0
  {
    (size + ps - 1) / ps
  }

  /** `io_bytes`. */
  function IoBytes(ps: nat, pages: nat): nat {
    pages * ps
  }

  /** `io_align`, for a page size that is a power of two. */
  function IoAlign(ps: nat, size: nat): nat
    requires ps > 0
  {
    IoBytes(ps, IoPages(ps, size))
  }

  lemma PagesHold(ps: nat, size: nat)
    requires ps > 0
    ensures size <= IoBytes(ps, IoPages(ps, size)) < size + ps
    ensures size > 0 ==> IoPages(ps, size) > 0
  {
    var n := size + ps - 1;
    assert n == ps * (n / ps) + n % ps;
    assert IoBytes(ps, IoPages(ps, size)) == ps * (n / ps);
  }

  lemma BytesMonotone(ps: nat, m: nat, n: nat)
    requires m <= n
    ensures IoBytes(ps, m) <= IoBytes(ps, n)
    ensures IoBytes(ps, n) - IoBytes(ps, m) == IoBytes(ps, n - m)
  {
  }

  lemma PagesMonotone(ps: nat, m: nat, n: nat)
    requires ps > 0 && m <= n
    ensures IoPages(ps, m) <= IoPages(ps, n)
  {
    PagesHold(ps, m);
    PagesHold(ps, n);
    hide IoPages;
    var p, q := IoPages(ps, m), IoPages(ps, n);
    if p > q {
      BytesMonotone(ps, q + 1, p);
      BytesMonotone(ps, q, q + 1);
    }
  }

  lemma PagesExact(ps: nat, n: nat, p: nat)
    requires ps > 0 && n <= IoBytes(ps, p)
    ensures IoPages(ps, n) <= p
  {
    PagesHold(ps, n);
    if IoPages(ps, n) > p {
      BytesMonotone(ps, p + 1, IoPages(ps, n));
    }
  }

  /* ---------- The disk: pages of `ps` bytes ---------- */

  type Disk = nat -> Bytes

  function PageRange(offs: nat, size: nat): (pages: set<nat>)
    ensures |pages| == size && forall p :: p in pages <==> offs <= p < offs + size
  {
    if size == 0 then {} else PageRange(offs, size - 1) + {offs + size - 1}
  }

  /** The bytes of `size` pages from page `offs`. */
  function ReadAt(d: Disk, offs: nat, size: nat): Bytes
    decreases size
  {
    if size == 0 then [] else d(offs) + ReadAt(d, offs + 1, size - 1)
  }

  /** The same pages hold the same bytes. */
  ghost predicate SameOn(d: Disk, d': Disk, pages: set<nat>) {
    forall p :: p in pages ==> d(p) == d'(p)
  }

  ghost predicate DiskOk(d: Disk, ps: nat) {
    forall p :: |d(p)| == ps
  }

  lemma {:induction false} ReadLength(d: Disk, ps: nat, offs: nat, size: nat)
    requires DiskOk(d, ps)
    ensures |ReadAt(d, offs, size)| == IoBytes(ps, size)
    decreases size
  {
    if size > 0 {
      ReadLength(d, ps, offs + 1, size - 1);
      BytesMonotone(ps, size - 1, size);
    }
  }

  lemma {:induction false} ReadSame(d: Disk, d': Disk, offs: nat, size: nat)
    requires SameOn(d, d', PageRange(offs, size))
    ensures ReadAt(d, offs, size) == ReadAt(d', offs, size)
    decreases size
  {
    hide PageRange;
    if size > 0 {
      assert offs in PageRange(offs, size);
      assert forall p :: p in PageRange(offs + 1, size - 1) ==> p in PageRange(offs, size);
      ReadSame(d, d', offs + 1, size - 1);
    }
  }

  /** Page `i` of a buffer. */
  function Slice(buf: Bytes, ps: nat, i: nat): Bytes {
    if IoBytes(ps, i) + ps <= |buf| then buf[IoBytes(ps, i)..IoBytes(ps, i) + ps] else []
  }

  lemma SliceLength(buf: Bytes, ps: nat, size: nat, i: nat)
    requires i < size && IoBytes(ps, size) <= |buf|
    ensures IoBytes(ps, i) + ps == IoBytes(ps, i + 1) <= |buf| && |Slice(buf, ps, i)| == ps
  {
    BytesMonotone(ps, i + 1, size);
    assert IoBytes(ps, i + 1) == IoBytes(ps, i) + ps;
  }

  /** A disk whose pages from `offs` are those of `buf` gives `buf` back. */
  lemma {:induction false} ReadSlices(d: Disk, ps: nat, buf: Bytes, offs: nat, size: nat, i: nat)
    requires i <= size && IoBytes(ps, size) <= |buf| && IoBytes(ps, i) <= IoBytes(ps, size)
    requires forall p :: offs <= p < offs + size ==> d(p) == Slice(buf, ps, p - offs)
    ensures ReadAt(d, offs + i, size - i) == buf[IoBytes(ps, i)..IoBytes(ps, size)]
    decreases size - i
  {
    if i < size {
      SliceLength(buf, ps, size, i);
      BytesMonotone(ps, i + 1, size);
      hide IoBytes;
      assert d(offs + i) == buf[IoBytes(ps, i)..IoBytes(ps, i + 1)];
      ReadSlices(d, ps, buf, offs, size, i + 1);
    }
  }

  /** `struct io`. Whether an operation fails is up to the device. */
  class Io {
    const pageSize: nat
    var content: Disk
    ghost var failures: nat   // of reads and writes so far

    constructor (pageSize: nat, content: Disk)
      requires pageSize > 0 && DiskOk(content, pageSize)
      ensures Valid() && this.pageSize == pageSize && this.content == content && failures == 0
    {
      this.pageSize, this.content, failures := pageSize, content, 0;
    }

    ghost predicate Valid()
      reads this`content
    {
      pageSize > 0 && DiskOk(content, pageSize)
    }

    /** `io_read`. */
    method Read(size: nat, offs: nat) returns (rc: int, buf: Bytes)
      requires Valid()
      modifies this`failures
      ensures failures == old(failures) + if rc == 0 then 0 else 1
      ensures rc <= 0 && (rc == 0 ==> buf == ReadAt(content, offs, size))
      ensures rc != 0 ==> rc == -EIO
    {
      var fails: bool := *;
      if fails {
        failures := failures + 1;
        return -EIO, [];
      }
      rc, buf := 0, ReadAt(content, offs, size);
    }

    /** `io_write`. A failed write may leave anything in the pages it was to fill. */
    method Write(buf: Bytes, size: nat, offs: nat) returns (rc: int)
      requires Valid() && IoBytes(pageSize, size) <= |buf|
      modifies this
      ensures Valid() && (rc == 0 || rc == -EIO) && failures == old(failures) + if rc == 0 then 0 else 1
      ensures rc == 0 ==> ReadAt(content, offs, size) == buf[..IoBytes(pageSize, size)]
      ensures forall p :: p !in PageRange(offs, size) ==> content(p) == old(content)(p)
    {
      var was, ps := content, pageSize;
      var fails: bool := *;
      if fails {
        failures := failures + 1;
        var junk: Disk := *;
        content := (p: nat) => if offs <= p < offs + size && |junk(p)| == ps then junk(p) else was(p);
        return -EIO;
      }
      content := (p: nat) => if offs <= p < offs + size then Slice(buf, ps, p - offs) else was(p);
      forall i | 0 <= i < size
        ensures |Slice(buf, ps, i)| == ps
      {
        SliceLength(buf, ps, size, i);
      }
      assert IoBytes(ps, 0) == 0;
      hide IoBytes, Slice;
      ReadSlices(content, ps, buf, offs, size, 0);
      rc := 0;
    }
  }

  /* ---------- The allocator ---------- */

  /** `struct alloc`: the pages that somebody has reserved or committed. */
  class Alloc {
    var reserved: set<nat>
    ghost var refusals: nat   // how often it had no pages to give

    constructor (reserved: set<nat>)
      ensures this.reserved == reserved && refusals == 0
    {
      this.reserved, refusals := reserved, 0;
    }

    /** `alloc_reserve`: pages that nobody else holds, or an error. */
    method Reserve(size: nat) returns (rc: int, offs: nat)
      modifies this
      ensures rc <= 0
      ensures rc == 0 ==> offs + size < LIMIT && PageRange(offs, size) !! old(reserved)
      ensures reserved == old(reserved) + if rc == 0 then PageRange(offs, size) else {}
      ensures refusals == old(refusals) + if rc == 0 then 0 else 1
    {
      offs := *;
      if offs + size >= LIMIT || PageRange(offs, size) * reserved != {} {
        refusals := refusals + 1;
        return -EIO, 0;
      }
      rc, reserved := 0, reserved + PageRange(offs, size);
    }

    /** `alloc_cancel`. */
    method Cancel(size: nat, offs: nat)
      modifies this
      ensures reserved == old(reserved) - PageRange(offs, size) && refusals == old(refusals)
    {
      reserved := reserved - PageRange(offs, size);
    }
  }

  /** An operation reports -EIO exactly if a read or a write has failed meanwhile. */
  ghost predicate Earned(rc: int, was: nat, now: nat) {
    if rc == -EIO then now > was else now == was
  }

  /** How often the device and the allocator have failed. */
  datatype Errors = Errors(failures: nat, refusals: nat)

  /** An operation fails exactly if the device or the allocator has meanwhile. */
  ghost predicate Blameless(rc: int, was: Errors, now: Errors) {
    was.failures <= now.failures && was.refusals <= now.refusals && (rc == 0 <==> now == was)
  }
}
