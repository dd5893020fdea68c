/** The fixed staging buffer of the eager protocol: small messages are copied
    into it (send side) or out of it (receive side) instead of registering the
    caller's memory. Every copy is clamped to the buffer's size. */
module EagerBuffers {
  import opened Common

  /** Size in bytes of an eager buffer, and the largest eager message. */
  const EAGER_THRESHOLD: nat := 524288

  /** Number of bytes a copy of `len` bytes actually moves. */
  function CopyLen(len: nat): (n: nat)
    ensures n <= len && n <= EAGER_THRESHOLD
    ensures n == len || n == EAGER_THRESHOLD
  {
    if len > EAGER_THRESHOLD then EAGER_THRESHOLD else len
  }

  /** The buffer `before` after its first |data| bytes were overwritten. */
  function Overwrite(before: seq<byte>, data: seq<byte>): (after: seq<byte>)
    requires |data| <= |before|
    ensures |after| == |before|
    ensures after[..|data|] == data
    ensures after[|data|..] == before[|data|..]
  {
    data + before[|data|..]
  }

  /** Reading back m bytes after a write of `data` yields the written prefix. */
  lemma ReadAfterWrite(before: seq<byte>, data: seq<byte>, m: nat)
    requires |data| <= |before|
    requires m <= |data|
    ensures Overwrite(before, data)[..m] == data[..m]
  {
    assert Overwrite(before, data)[..m] == Overwrite(before, data)[..|data|][..m];
  }

  class EagerBuffer {
    /** The owned staging memory (buf_). */
    const buf: array<byte>
    /** Address of the staging memory (GetAddr). */
    const addr: nat
    /** Access flags the buffer is registered with. */
    const lmrType: bv32
    /** Local key of the buffer's registration, chosen by the owning channel. */
    const lkey: nat

    ghost predicate Valid()
    {
      buf.Length == EAGER_THRESHOLD
    }

    constructor (addr: nat, lkey: nat)
      ensures Valid() && fresh(buf)
      ensures lmrType == MR_LOCAL_WRITE | MR_LOCAL_READ
      ensures this.addr == addr && this.lkey == lkey
    {
      buf := new byte[EAGER_THRESHOLD];
      this.addr := addr;
      lmrType := MR_LOCAL_WRITE | MR_LOCAL_READ;
      this.lkey := lkey;
    }

    /** Copies min(len, EAGER_THRESHOLD) bytes from the start of the buffer to
        dst[addr..]; the buffer itself is left as it was. */
    method Read(dst: array<byte>, addr: nat, len: nat) returns (n: nat)
      requires Valid()
      requires dst != buf
      requires addr + CopyLen(len) <= dst.Length
      modifies dst
      ensures n == CopyLen(len)
      ensures dst[addr..addr + n] == buf[..n]
      ensures dst[..addr] == old(dst[..addr])
      ensures dst[addr + n..] == old(dst[addr + n..])
    {
      n := if len > EAGER_THRESHOLD then EAGER_THRESHOLD else len;
      forall i | 0 <= i < n {
        dst[addr + i] := buf[i];
      }
    }

    /** Copies min(len, EAGER_THRESHOLD) bytes of src[addr..] to the start of
        the buffer; bytes past the copied prefix keep their old values. */
    method Write(src: array<byte>, addr: nat, len: nat) returns (n: nat)
      requires Valid()
      requires src != buf
      requires addr + CopyLen(len) <= src.Length
      modifies buf
      ensures n == CopyLen(len)
      ensures buf[..] == Overwrite(old(buf[..]), src[addr..addr + n])
    {
      n := if len > EAGER_THRESHOLD then EAGER_THRESHOLD else len;
      forall i | 0 <= i < n {
        buf[i] := src[addr + i];
      }
      assert buf[..n] == src[addr..addr + n];
      assert buf[n..] == old(buf[..])[n..];
    }
  }

  /** Writing `n` bytes of `a` and then reading `m <= n` bytes into `b`
      delivers the first min(m, EAGER_THRESHOLD) bytes of `a`. */
  method RoundTrip(eb: EagerBuffer, a: array<byte>, n: nat, b: array<byte>, m: nat)
    requires eb.Valid()
    requires a != eb.buf && b != eb.buf
    requires CopyLen(n) <= a.Length && CopyLen(m) <= b.Length
    requires m <= n
    modifies eb.buf, b
    ensures b[..CopyLen(m)] == old(a[..CopyLen(m)])
  {
    ghost var data := a[..CopyLen(n)];
    var w := eb.Write(a, 0, n);
    assert eb.buf[..w] == data;
    var r := eb.Read(b, 0, m);
    assert b[..r] == eb.buf[..r];
    assert eb.buf[..r] == data[..r];
  }
}
