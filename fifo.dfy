/**
 * The byte ring buffer of fifo.c and include/fifo.h.  The read and write
 * pointers become offsets into the buffer; read2end and write2end stay
 * the number of places from them to the buffer's end.
 */
module Fifo {
  import opened Global

  /** The place `k` steps after `start` in a ring of `size` places. */
  function Ring(start: nat, k: nat, size: nat): (r: nat)
    requires start < size && k <= size
    ensures r < size
  {
    if start + k < size then start + k else start + k - size
  }

  /** How many steps after `start` the place `q` comes, in a ring of `size` places. */
  function Steps(start: nat, q: nat, size: nat): (k: nat)
    requires start < size && q < size
    ensures k < size && Ring(start, k, size) == q
  {
    if q >= start then q - start else q + size - start
  }

  /** The `n` bytes of `buf` read in ring order from `start`. */
  function RingContents(buf: seq<Byte>, start: nat, n: nat): seq<Byte>
    requires start < |buf| && n <= |buf|
  {
    seq(n, k requires 0 <= k < n => buf[Ring(start, k, |buf|)])
  }

  /** `buf` with `d` written in ring order from `start` on. */
  function RingWrite(buf: seq<Byte>, start: nat, d: seq<Byte>): (r: seq<Byte>)
    requires start < |buf| && |d| <= |buf|
    ensures |r| == |buf|
  {
    seq(|buf|, q requires 0 <= q < |buf| => if Steps(start, q, |buf|) < |d| then d[Steps(start, q, |buf|)] else buf[q])
  }

  /**
   * Writing `d` into the free places right after the `n` stored bytes
   * appends it to the contents: what was stored is not overwritten, and it
   * comes out in the order it was written, across the wrap-around.
   */
  lemma RingAppend(buf: seq<Byte>, start: nat, n: nat, d: seq<Byte>)
    requires start < |buf| && n + |d| <= |buf|
    ensures n < |buf| ==> RingContents(RingWrite(buf, Ring(start, n, |buf|), d), start, n + |d|) == RingContents(buf, start, n) + d
    ensures n == |buf| ==> d == []
  {
    if n < |buf| {
      var size := |buf|;
      var w := Ring(start, n, size);
      var after := RingWrite(buf, w, d);
      var lhs := RingContents(after, start, n + |d|);
      var rhs := RingContents(buf, start, n) + d;
      forall k | 0 <= k < n + |d|
        ensures lhs[k] == rhs[k]
      {
        var q := Ring(start, k, size);
        if k < n {
          assert Steps(w, q, size) >= |d|;
        } else {
          assert Steps(w, q, size) == k - n;
        }
      }
    }
  }

  /** Writing one more byte stores it at the next place of the ring. */
  lemma RingWriteStep(buf: seq<Byte>, start: nat, d: seq<Byte>, x: Byte)
    requires start < |buf| && |d| < |buf|
    ensures RingWrite(buf, start, d + [x]) == RingWrite(buf, start, d)[Ring(start, |d|, |buf|) := x]
  {
    var p := Ring(start, |d|, |buf|);
    assert Steps(start, p, |buf|) == |d|;
  }

  /** Dropping the first `m` stored bytes leaves the contents read from `m` places further on. */
  lemma RingDrop(buf: seq<Byte>, start: nat, n: nat, m: nat)
    requires start < |buf| && m <= n <= |buf|
    ensures m < |buf| ==> RingContents(buf, Ring(start, m, |buf|), n - m) == RingContents(buf, start, n)[m..]
  {
    if m < |buf| {
      var s := Ring(start, m, |buf|);
      var lhs := RingContents(buf, s, n - m);
      var rhs := RingContents(buf, start, n)[m..];
      forall k | 0 <= k < n - m
        ensures lhs[k] == rhs[k]
      {
        assert Ring(s, k, |buf|) == Ring(start, m + k, |buf|);
      }
    }
  }

  /** fifo_t: the buffer, its size, the byte count and the two pointers with their distances to the end. */
  class Fifo {
    var count: Byte
    const size: Byte
    const buffer: array<Byte>
    var pread: nat
    var pwrite: nat
    var read2end: Byte
    var write2end: Byte

    /**
     * The pointers stay inside the buffer and read2end and write2end are
     * their distances to its end (so 1..size).  An unchecked put can break
     * the byte count but never this.
     */
    predicate Placed()
      reads this
    {
      0 < size == buffer.Length
      && pread < size && pwrite < size
      && read2end == size - pread && write2end == size - pwrite
    }

    /** Placed, and the write pointer is `count` places after the read pointer. */
    predicate Valid()
      reads this
    {
      Placed()
      && count <= size
      && pwrite == Ring(pread, count, size)
    }

    /** The stored bytes, oldest first. */
    function Contents(): seq<Byte>
      requires Valid()
      reads this, buffer
    {
      RingContents(buffer[..], pread, count)
    }

    /** fifo_init: an empty FIFO over `buf`, both pointers at its start. */
    constructor Init(buf: array<Byte>, n: Byte)
      requires 0 < n == buf.Length
      ensures Valid() && buffer == buf && size == n
      ensures count == 0 && pread == 0 && pwrite == 0 && read2end == n && write2end == n
      ensures Contents() == []
    {
      count := 0;
      buffer := buf;
      pread, pwrite := 0, 0;
      size := n;
      read2end, write2end := n, n;
    }

    /**
     * _inline_fifo_put: store at the write pointer, advance it with
     * wrap-around, count one more in eight bits.  There is no full check:
     * below the size the byte is appended; on a full FIFO it overwrites the
     * oldest unread byte and the count no longer matches the pointers.
     */
    method Put(data: Byte)
      requires Placed()
      modifies this, buffer
      ensures Placed()
      ensures buffer[..] == old(buffer[..])[old(pwrite) := data]
      ensures pwrite == Ring(old(pwrite), 1, size) && count == Wrap8(old(count) + 1)
      ensures pread == old(pread) && read2end == old(read2end)
      ensures old(Valid()) && old(count) < size ==> Valid() && Contents() == old(Contents()) + [data]
      ensures old(Valid()) && old(count) == size ==> buffer[pread] == data && !Valid()
    {
      ghost var before := buffer[..];
      ghost var wasValid := Valid();
      var p := pwrite;
      buffer[p] := data;
      p := p + 1;
      var w := write2end - 1;
      if w == 0 {
        w := size;
        p := p - w;
      }
      write2end := w;
      pwrite := p;
      count := Wrap8(count + 1);
      if wasValid && old(count) < size {
        assert buffer[..] == RingWrite(before, old(pwrite), [data]);
        RingAppend(before, pread, old(count), [data]);
      }
    }

    /** _inline_fifo_get: the byte at the read pointer; advance it with wrap-around, count one less. */
    method Get() returns (data: Byte)
      requires Valid() && count > 0
      modifies this
      ensures Valid()
      ensures data == old(Contents())[0]
      ensures Contents() == old(Contents())[1..]
      ensures pwrite == old(pwrite) && write2end == old(write2end)
    {
      var p := pread;
      data := buffer[p];
      p := p + 1;
      var r := read2end - 1;
      if r == 0 {
        r := size;
        p := p - r;
      }
      pread := p;
      read2end := r;
      count := count - 1;
      RingDrop(buffer[..], old(pread), old(count), 1);
    }

    /** fifo_get_nowait: 0 and nothing changed on an empty FIFO, otherwise the oldest byte, removed. */
    method GetNowait() returns (data: Byte)
      requires Valid()
      modifies this
      ensures Valid()
      ensures old(count) == 0 ==> data == 0 && count == 0 && pread == old(pread) && read2end == old(read2end)
      ensures old(count) > 0 ==> data == old(Contents())[0] && Contents() == old(Contents())[1..]
      ensures pwrite == old(pwrite) && write2end == old(write2end)
    {
      if count == 0 {
        return 0;
      }
      data := Get();
    }

    /**
     * fifo_put_data: `length` bytes from `src`, copied in up to two runs,
     * the second one from the buffer's start once the first reaches its end.
     */
    method PutData(src: array<Byte>, length: Byte)
      requires Valid() && length <= src.Length && src != buffer && count + length <= size
      modifies this, buffer
      ensures Valid()
      ensures Contents() == old(Contents()) + src[..length]
    {
      ghost var before := buffer[..];
      ghost var pw0 := pwrite;
      var pw := pwrite;
      var w2e := write2end;
      var n: nat := if length > w2e then w2e else length;
      ghost var n1 := n;
      var s: nat := 0;
      var j := 0;
      while j < 2
        modifies buffer
        invariant 0 <= j <= 2
        invariant pw < size && w2e == size - pw && s <= length
        invariant pw == Ring(pw0, s, size)
        invariant j == 0 ==> s == 0 && n == n1
        invariant j == 1 ==> s == n1 && n == length - n1
        invariant j == 2 ==> s == length
        invariant j < 2 ==> s + n <= length && n <= w2e
        invariant buffer[..] == RingWrite(before, pw0, src[..s])
      {
        pw, w2e := WriteRun(src, s, pw, w2e, n, before, pw0);
        s := s + n;
        n := length - n;
        j := j + 1;
      }
      write2end := w2e;
      pwrite := pw;
      count := count + length;
      RingAppend(before, pread, old(count), src[..length]);
    }

    /**
     * One pass of fifo_put_data: `n` bytes of `src` from `s` on stored from
     * the write position `pw` on, then the position moved past them,
     * back to the start when the end is reached.
     */
    method WriteRun(src: array<Byte>, s: nat, pw: nat, w2e: nat, n: nat, ghost before: seq<Byte>, ghost pw0: nat)
      returns (pw': nat, w2e': nat)
      requires src != buffer && 0 < size == buffer.Length == |before| && pw0 < size
      requires s + n <= src.Length && s + n <= size
      requires pw < size && w2e == size - pw && n <= w2e && pw == Ring(pw0, s, size)
      requires buffer[..] == RingWrite(before, pw0, src[..s])
      modifies buffer
      ensures pw' < size && w2e' == size - pw' && pw' == Ring(pw0, s + n, size)
      ensures buffer[..] == RingWrite(before, pw0, src[..s + n])
    {
      pw' := pw;
      var i := 0;
      while i < n
        invariant 0 <= i <= n
        invariant pw' == pw + i
        invariant buffer[..] == RingWrite(before, pw0, src[..s + i])
      {
        assert pw' == Ring(pw0, s + i, size);
        RingWriteStep(before, pw0, src[..s + i], src[s + i]);
        assert src[..s + i + 1] == src[..s + i] + [src[s + i]];
        buffer[pw'] := src[s + i];
        pw' := pw' + 1;
        i := i + 1;
      }
      w2e' := w2e - n;
      if w2e' == 0 {
        w2e' := size;
        pw' := pw' - w2e';
      }
    }

    /**
     * fifo_get_data: at most `length` bytes, and no more than are stored,
     * into `dest` in FIFO order; returns how many were taken.
     */
    method GetData(dest: array<Byte>, length: Byte) returns (got: Byte)
      requires Valid() && length <= dest.Length && dest != buffer
      modifies this, dest
      ensures Valid()
      ensures got == if old(count) < length then old(count) else length
      ensures dest[..got] == old(Contents())[..got]
      ensures dest[got..] == old(dest[got..])
      ensures Contents() == old(Contents())[got..]
    {
      var cnt := count;
      var len := length;
      if cnt < len {
        len := cnt;
      }
      ghost var contents := Contents();
      ghost var pr0 := pread;
      var pr := pread;
      var r2e := read2end;
      var n: nat := if len > r2e then r2e else len;
      ghost var n1 := n;
      var d: nat := 0;
      var j := 0;
      while j < 2
        modifies dest
        invariant 0 <= j <= 2
        invariant pr < size && r2e == size - pr && d <= len
        invariant pr == Ring(pr0, d, size)
        invariant j == 0 ==> d == 0 && n == n1
        invariant j == 1 ==> d == n1 && n == len - n1
        invariant j == 2 ==> d == len
        invariant j < 2 ==> d + n <= len && n <= r2e
        invariant dest[..d] == contents[..d]
        invariant dest[len..] == old(dest[len..])
      {
        pr, r2e := ReadRun(dest, d, pr, r2e, n, contents, pr0, cnt, len);
        d := d + n;
        n := len - n;
        j := j + 1;
      }
      pread := pr;
      read2end := r2e;
      count := cnt - len;
      RingDrop(buffer[..], pr0, cnt, len);
      return len;
    }

    /**
     * One pass of fifo_get_data: `n` stored bytes from the read position
     * `pr` on copied into `dest` from `d` on, then the position moved past
     * them, back to the start when the end is reached.
     */
    method ReadRun(dest: array<Byte>, d: nat, pr: nat, r2e: nat, n: nat,
                   ghost contents: seq<Byte>, ghost pr0: nat, ghost cnt: nat, ghost len: nat)
      returns (pr': nat, r2e': nat)
      requires dest != buffer && 0 < size == buffer.Length && pr0 < size && cnt <= size
      requires d + n <= len <= cnt && len <= dest.Length
      requires pr < size && r2e == size - pr && n <= r2e && pr == Ring(pr0, d, size)
      requires contents == RingContents(buffer[..], pr0, cnt) && dest[..d] == contents[..d]
      modifies dest
      ensures pr' < size && r2e' == size - pr' && pr' == Ring(pr0, d + n, size)
      ensures dest[..d + n] == contents[..d + n]
      ensures dest[len..] == old(dest[len..])
    {
      pr' := pr;
      var i := 0;
      while i < n
        invariant 0 <= i <= n
        invariant pr' == pr + i
        invariant dest[..d + i] == contents[..d + i]
        invariant dest[len..] == old(dest[len..])
      {
        assert pr' == Ring(pr0, d + i, size);
        dest[d + i] := buffer[pr'];
        assert dest[..d + i + 1] == dest[..d + i] + [dest[d + i]];
        assert contents[..d + i + 1] == contents[..d + i] + [contents[d + i]];
        pr' := pr' + 1;
        i := i + 1;
      }
      r2e' := r2e - n;
      if r2e' == 0 {
        r2e' := size;
        pr' := pr' - r2e';
      }
    }
  }

  /** A byte put into an empty FIFO is the byte got back, and the FIFO is empty again. */
  method PutThenGet(f: Fifo, x: Byte) returns (y: Byte)
    requires f.Valid() && f.count == 0
    modifies f, f.buffer
    ensures f.Valid() && y == x && f.count == 0
  {
    f.Put(x);
    y := f.Get();
  }
}
