/** memmove and memcpy inside one buffer. */
module Copy {

  /** The buffer with `size` bytes at `dest` replaced by the ones that were at `src`. */
  ghost predicate Moved(before: seq<bv8>, after: seq<bv8>, dest: nat, src: nat, size: nat)
    requires dest + size <= |before| && src + size <= |before|
  {
    && |after| == |before|
    && (forall k :: dest <= k < dest + size ==> after[k] == before[src + (k - dest)])
    && (forall k :: 0 <= k < |before| && !(dest <= k < dest + size) ==> after[k] == before[k])
  }

  /** Forward when the destination is below the source, backward when it is above. */
  method Memmove(buf: array<bv8>, dest: nat, src: nat, size: nat)
    requires dest + size <= buf.Length && src + size <= buf.Length
    modifies buf
    ensures Moved(old(buf[..]), buf[..], dest, src, size)
  {
    if dest < src {
      var n := 0;
      while n < size
        invariant 0 <= n <= size
        invariant forall k :: 0 <= k < buf.Length ==>
                    buf[k] == if dest <= k < dest + n then old(buf[src + (k - dest)]) else old(buf[k])
      {
        buf[dest + n] := buf[src + n];
        n := n + 1;
      }
    } else if dest > src {
      var left := size;
      while left > 0
        invariant 0 <= left <= size
        invariant forall k :: 0 <= k < buf.Length ==>
                    buf[k] == if dest + left <= k < dest + size then old(buf[src + (k - dest)]) else old(buf[k])
      {
        left := left - 1;
        buf[dest + left] := buf[src + left];
      }
    }
  }

  /** memcpy's loop as a function of the buffer: always forward. */
  function CopyForward(buf: seq<bv8>, dest: nat, src: nat, size: nat): (r: seq<bv8>)
    requires dest + size <= |buf| && src + size <= |buf|
    ensures |r| == |buf|
  {
    if size == 0 then buf
    else
      var b := CopyForward(buf, dest, src, size - 1);
      b[dest + (size - 1) := b[src + (size - 1)]]
  }

  method Memcpy(buf: array<bv8>, dest: nat, src: nat, size: nat)
    requires dest + size <= buf.Length && src + size <= buf.Length
    modifies buf
    ensures buf[..] == CopyForward(old(buf[..]), dest, src, size)
  {
    for n := 0 to size
      invariant buf[..] == CopyForward(old(buf[..]), dest, src, n)
    {
      buf[dest + n] := buf[src + n];
    }
  }

  /** A forward copy moves the bytes rightly when no byte is read after it was written. */
  lemma {:induction false} ForwardBytes(buf: seq<bv8>, dest: nat, src: nat, size: nat)
    requires dest + size <= |buf| && src + size <= |buf|
    requires dest <= src || src + size <= dest
    ensures Moved(buf, CopyForward(buf, dest, src, size), dest, src, size)
  {
    if size > 0 {
      ForwardBytes(buf, dest, src, size - 1);
      var b, k := CopyForward(buf, dest, src, size - 1), src + (size - 1);
      assert b[k] == buf[k];
    }
  }

  /** A forward copy equals memmove for every buffer contents exactly when the destination does not start inside the source. */
  lemma MemcpyExactlySafe(len: nat, dest: nat, src: nat, size: nat)
    requires dest + size <= len && src + size <= len
    ensures (forall buf: seq<bv8> :: |buf| == len ==> Moved(buf, CopyForward(buf, dest, src, size), dest, src, size))
       <==> dest <= src || src + size <= dest
  {
    if dest <= src || src + size <= dest {
      forall buf: seq<bv8> | |buf| == len ensures Moved(buf, CopyForward(buf, dest, src, size), dest, src, size) {
        ForwardBytes(buf, dest, src, size);
      }
    } else {
      Overwrites(OneMark(len, src), dest, src, size);
    }
  }

  function OneMark(len: nat, at: nat): (buf: seq<bv8>)
    ensures |buf| == len && forall k :: 0 <= k < len ==> buf[k] == if k == at then 1 else 0
  {
    seq(len, k => if k == at then 1 else 0)
  }

  /** The first byte copied is copied again when the loop comes to read where it wrote. */
  lemma Overwrites(buf: seq<bv8>, dest: nat, src: nat, size: nat)
    requires dest + size <= |buf| && src + size <= |buf|
    requires src < dest < src + size
    requires buf[src] == 1 && forall k :: 0 <= k < |buf| && k != src ==> buf[k] == 0
    ensures !Moved(buf, CopyForward(buf, dest, src, size), dest, src, size)
  {
    var d := dest - src;
    Written(buf, dest, src, d + 1, size);
    ForwardBytes(buf, dest, src, d);
    var b := CopyForward(buf, dest, src, d + 1);
    assert b[dest + d] == CopyForward(buf, dest, src, d)[src + d] == buf[src];
    assert CopyForward(buf, dest, src, size)[dest + d] == 1;
    assert buf[src + d] == 0;
  }

  /** Once written, a byte of the destination stays. */
  lemma {:induction false} Written(buf: seq<bv8>, dest: nat, src: nat, n: nat, size: nat)
    requires 0 < n <= size && dest + size <= |buf| && src + size <= |buf|
    ensures CopyForward(buf, dest, src, size)[dest + (n - 1)] == CopyForward(buf, dest, src, n)[dest + (n - 1)]
  {
    if n < size {
      Written(buf, dest, src, n, size - 1);
    }
  }
}
