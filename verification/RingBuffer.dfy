/** The ring buffer through which an echoed body passes. */
module RingBuffer {

  /** The stretch from the read to the write position of `b`, around the end if need be. */
  function Stretch(b: string, r: nat, w: nat, full: bool): string
    requires r < |b| && w < |b|
  {
    if r < w then b[r..w] else if r == w && !full then "" else b[r..] + b[..w]
  }

  /** Bytes put at the write position, up to the read position or the end, extend the stretch. */
  lemma StretchGrows(b: string, r: nat, w: nat, full: bool, chunk: string, b': string, w': nat)
    requires r < |b| == |b'| && w < |b| && chunk != "" && !full
    requires |chunk| <= if r > w then r - w else |b| - w
    requires b' == b[..w] + chunk + b[w + |chunk|..]
    requires w' == if w + |chunk| == |b| then 0 else w + |chunk|
    ensures Stretch(b', r, w', w' == r) == Stretch(b, r, w, false) + chunk
  {
    var n := |chunk|;
    assert b'[w..w + n] == chunk && b'[..w] == b[..w];
    if r <= w {
      assert b'[r..w] == b[r..w];
      assert b'[r..w + n] == b'[r..w] + b'[w..w + n];
      assert w + n == |b| ==> b'[r..] == b'[r..w + n] && b'[..0] == "";
    } else {
      assert b'[r..] == b[r..] && b'[..w + n] == b'[..w] + b'[w..w + n];
    }
  }

  class Ring {
    const buf: array<char>
    var readPos: nat
    var writePos: nat
    var full: bool

    ghost predicate Valid()
      reads this
    {
      buf.Length > 0 && readPos < buf.Length && writePos < buf.Length && (full ==> readPos == writePos)
    }

    /** The bytes in the buffer, oldest first. */
    ghost function Contents(): (s: string)
      requires Valid()
      reads this, buf
      ensures |s| <= buf.Length
    {
      Stretch(buf[..], readPos, writePos, full)
    }

    constructor (size: nat)
      requires size > 0
      ensures Valid() && fresh(buf) && buf.Length == size && Contents() == ""
    {
      buf := new char[size](_ => '\0');
      readPos, writePos, full := 0, 0, false;
    }

    /** `ci_ring_buf_write_block`: the free block at the write position, and whether more follows at the start. */
    method WriteBlock() returns (len: nat, more: bool)
      requires Valid()
      ensures len == if readPos > writePos || full then readPos - writePos else buf.Length - writePos
      ensures more <==> readPos < writePos
      ensures more ==> len > 0 && Contents() != ""
      ensures Contents() == "" ==> len == buf.Length - writePos
      ensures !more && Contents() != "" ==> |Contents()| + len == buf.Length
    {
      if readPos == writePos && !full { return buf.Length - writePos, false; }
      if readPos >= writePos { return readPos - writePos, false; }
      return buf.Length - writePos, true;
    }

    /** `ci_ring_buf_read_block`. */
    method ReadBlock() returns (len: nat, more: bool)
      requires Valid()
      ensures len <= |Contents()| && (len == 0 <==> Contents() == "")
      ensures more <==> readPos >= writePos && Contents() != "" && readPos != 0
      ensures !more ==> len == |Contents()|
      ensures readPos + len <= buf.Length && buf[readPos..readPos + len] == Contents()[..len]
      ensures more ==> readPos + len == buf.Length
    {
      if readPos == writePos && !full { return 0, false; }
      if readPos >= writePos { return buf.Length - readPos, readPos != 0; }
      return writePos - readPos, false;
    }

    /** Copying `chunk` to the write position and `ci_ring_buf_produce`. */
    method Produce(chunk: string, ghost room: nat)
      requires Valid() && |chunk| <= room
      requires room == if readPos > writePos || full then readPos - writePos else buf.Length - writePos
      modifies this`writePos, this`full, buf
      ensures Valid() && Contents() == old(Contents()) + chunk
      ensures chunk != "" ==> writePos == (if old(writePos) + |chunk| == buf.Length then 0 else old(writePos) + |chunk|)
      ensures chunk == "" ==> unchanged(this)
    {
      hide Stretch;
      if |chunk| == 0 { return; }
      ghost var b, w := buf[..], writePos;
      forall i | 0 <= i < |chunk| { buf[writePos + i] := chunk[i]; }
      assert buf[..] == b[..w] + chunk + b[w + |chunk|..];
      writePos := writePos + |chunk|;
      if writePos > buf.Length - 1 { writePos := 0; }
      if writePos == readPos { full := true; }
      StretchGrows(b, readPos, w, false, chunk, buf[..], writePos);
    }

    /** Copying `len` bytes from the read position and `ci_ring_buf_consume`. */
    method Consume(len: nat, ghost block: nat) returns (chunk: string)
      requires Valid() && len <= block <= |Contents()| && readPos + block <= buf.Length
      requires buf[readPos..readPos + block] == Contents()[..block]
      modifies this`readPos, this`full
      ensures Valid() && chunk == old(Contents())[..len] && Contents() == old(Contents())[len..]
      ensures len > 0 ==> readPos == (if old(readPos) + len == buf.Length then 0 else old(readPos) + len)
      ensures len == 0 ==> unchanged(this)
    {
      chunk := buf[readPos..readPos + len];
      assert buf[readPos..readPos + block][..len] == chunk && Contents()[..block][..len] == Contents()[..len];
      if len == 0 { return; }
      readPos := readPos + len;
      if readPos > buf.Length - 1 { readPos := 0; }
      full := false;
    }

    /** `ci_ring_buf_write`: a prefix of the data goes in. It is all that fits, except that an empty buffer whose
        write position is not at the start takes no more than the rest of its block. */
    method Write(data: string) returns (written: nat)
      requires Valid()
      modifies this`writePos, this`full, buf
      ensures Valid() && written <= |data| && Contents() == old(Contents()) + data[..written]
      ensures var free := old(if Contents() == "" then buf.Length - writePos else buf.Length - |Contents()|);
              written == if |data| <= free then |data| else free
    {
      hide Stretch;
      ghost var before := Contents();
      written := 0;
      var more := true;
      while more && written < |data|
        invariant Valid() && written <= |data| && Contents() == before + data[..written]
        invariant more ==> before != "" || (written == 0 && writePos == old(writePos))
        invariant written <= if before == "" then buf.Length - old(writePos) else buf.Length - |before|
        invariant !more && written < |data| ==>
                    written == if before == "" then buf.Length - old(writePos) else buf.Length - |before|
        decreases more, |data| - written
      {
        var len;
        len, more := WriteBlock();
        var n := if |data| - written <= len then |data| - written else len;
        Produce(data[written..written + n], len);
        assert data[..written + n] == data[..written] + data[written..written + n];
        written := written + n;
      }
    }

    /** `ci_ring_buf_read`: exactly the oldest bytes, as many as asked for and stored. */
    method Read(size: nat) returns (data: string)
      requires Valid()
      modifies this`readPos, this`full
      ensures Valid()
      ensures var n := if size <= |old(Contents())| then size else |old(Contents())|;
              data == old(Contents())[..n] && Contents() == old(Contents())[n..]
    {
      hide Stretch, Contents;
      ghost var before := Contents();
      data := "";
      var more := true;
      while more && |data| < size
        invariant Valid() && |data| <= size && |data| <= |before|
        invariant data == before[..|data|] && Contents() == before[|data|..]
        invariant !more && |data| < size ==> |data| == |before|
        decreases more, size - |data|
      {
        var len;
        len, more := ReadBlock();
        var n := if size - |data| <= len then size - |data| else len;
        ghost var k := |data|;
        var chunk := Consume(n, len);
        data := data + chunk;
        Advance(before, k, n);
      }
    }
  }

  lemma Advance(s: string, k: nat, n: nat)
    requires k + n <= |s|
    ensures s[..k] + s[k..][..n] == s[..k + n] && s[k..][n..] == s[k + n..]
  {
  }

  /** The stretch is so many bytes from the read position on, around the end. */
  lemma StretchIs(b: string, r: nat, w: nat, full: bool)
    requires r < |b| && w < |b| && (full ==> r == w)
    ensures |Stretch(b, r, w, full)| == if full then |b| else if r <= w then w - r else w + |b| - r
    ensures forall i :: 0 <= i < |Stretch(b, r, w, full)| ==>
              Stretch(b, r, w, full)[i] == b[if r + i < |b| then r + i else r + i - |b|]
  {
  }
}
