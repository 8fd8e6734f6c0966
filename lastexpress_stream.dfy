/**
  SavegameStream (engines/lastexpress/game/savegame.cpp): a growable memory
  stream with an optional run-length layer. Compressed writes are staged in a
  256-byte buffer and written to the memory stream in 256-byte chunks;
  compressed reads pull the memory stream into the same buffer 256 bytes at
  a time. The coder registers are shared by both directions.
*/
module LastExpressStream {

  import opened Wrappers
  import opened LastExpressCodec

  const BufferSize: nat := 256

  datatype Status = StatusReady | StatusReading | StatusWriting

  /** The two mode errors the stream raises. */
  datatype StreamError = BufferInReadMode | BufferInWriteMode

  function Min(a: int, b: int): int { if a <= b then a else b }

  /** The contents of a memory stream after writing `a` at position `p`:
      the bytes there are replaced and the stream grows when the write runs
      past its end. */
  function Overwrite(d: seq<byte>, p: nat, a: seq<byte>): (r: seq<byte>)
    requires p <= |d|
    ensures |r| == if p + |a| <= |d| then |d| else p + |a|
  {
    d[..p] + a + (if p + |a| < |d| then d[p + |a|..] else [])
  }

  /** Overwrite keeps what lies before and after the written range. */
  lemma OverwriteParts(d: seq<byte>, p: nat, a: seq<byte>)
    requires p <= |d|
    ensures Overwrite(d, p, a)[..p] == d[..p]
    ensures Overwrite(d, p, a)[p..p + |a|] == a
    ensures p + |a| < |d| ==> Overwrite(d, p, a)[p + |a|..] == d[p + |a|..]
  {
  }

  /** Each byte after a write: the written byte inside the range, the old
      one outside it. */
  lemma OverwriteAt(d: seq<byte>, p: nat, a: seq<byte>)
    requires p <= |d|
    ensures forall i | 0 <= i < |Overwrite(d, p, a)| ::
      Overwrite(d, p, a)[i] == if p <= i < p + |a| then a[i - p] else d[i]
  {
    var r := Overwrite(d, p, a);
    forall i | 0 <= i < |r|
      ensures r[i] == if p <= i < p + |a| then a[i - p] else d[i]
    {
      if i < p {
        assert r[i] == d[..p][i];
      } else if i < p + |a| {
        assert r[i] == (d[..p] + a)[i];
      } else {
        assert r[i] == d[p + |a|..][i - p - |a|];
      }
    }
  }

  /** Two consecutive writes are one write of their concatenation. */
  lemma OverwriteTwice(d: seq<byte>, p: nat, a: seq<byte>, b: seq<byte>)
    requires p <= |d|
    ensures Overwrite(Overwrite(d, p, a), p + |a|, b) == Overwrite(d, p, a + b)
  {
    var r1 := Overwrite(d, p, a);
    var lhs := Overwrite(r1, p + |a|, b);
    var rhs := Overwrite(d, p, a + b);
    OverwriteAt(d, p, a);
    OverwriteAt(r1, p + |a|, b);
    OverwriteAt(d, p, a + b);
    forall i | 0 <= i < |lhs|
      ensures lhs[i] == rhs[i]
    {
      if p <= i < p + |a| + |b| {
        assert rhs[i] == (a + b)[i - p];
      }
    }
  }

  /** OverwriteTwice, stated on the views before and after a write. */
  lemma ViewStep(v0: seq<byte>, c0: nat, out: seq<byte>, e: seq<byte>, w1: seq<byte>, c1: nat, w2: seq<byte>)
    requires c0 <= |v0| && w1 == Overwrite(v0, c0, out) && c1 == c0 + |out|
    requires c1 <= |w1| && w2 == Overwrite(w1, c1, e)
    ensures w2 == Overwrite(v0, c0, out + e)
  {
    OverwriteTwice(v0, c0, out, e);
  }

  lemma OverwriteNothing(d: seq<byte>, p: nat)
    requires p <= |d|
    ensures Overwrite(d, p, []) == d
  {
    assert d[..p] + [] + d[p..] == d;
  }

  /** What writeBuffer(value, onlyValue) appends to the staged output. */
  function Emitted(value: byte, onlyValue: bool): seq<byte>
  {
    if !onlyValue && value >= 0xFB then [0xFE, value] else [value]
  }

  class SavegameStream {
    /** The memory stream: getData()/size(), pos() and eos(). */
    var data: seq<byte>
    var pos: nat
    var eos: bool
    /** _buffer and the index into it (-1 when unused). */
    const buffer: array<byte>
    var bufferOffset: int
    /** Bytes emitted since the last process(). */
    var offset: nat
    var valueCount: int
    var previousValue: byte
    var repeatCount: int
    var status: Status
    var enableCompression: bool
    /** Where the last read-ahead of the buffer started and how many bytes it got. */
    ghost var fillStart: nat
    ghost var filled: nat

    /** The memory stream and the buffer index are in range. */
    ghost predicate BufferValid()
      reads this`data, this`pos, this`bufferOffset
    {
      buffer.Length == BufferSize && pos <= |data| && -1 <= bufferOffset <= BufferSize
    }

    ghost predicate Valid()
      reads this`data, this`pos, this`bufferOffset, this`valueCount
    {
      BufferValid() && valueCount in {0, 1, 2}
    }

    function Registers(): Coder
      reads this`valueCount, this`previousValue, this`repeatCount
    {
      Coder(valueCount, previousValue, repeatCount)
    }

    /** The bytes written to the buffer and not yet to the memory stream. */
    ghost function Staged(): seq<byte>
      reads this, buffer
      requires BufferValid()
    {
      if bufferOffset <= 0 then [] else buffer[..bufferOffset]
    }

    /** The stream as it will be once the staged bytes are written out. */
    ghost function WriteView(): seq<byte>
      reads this, buffer
      requires BufferValid()
    {
      Overwrite(data, pos, Staged())
    }

    /** Where the next staged byte lands in WriteView(). */
    ghost function Cursor(): nat
      reads this, buffer
      requires BufferValid()
    {
      pos + |Staged()|
    }

    /** The buffer holds the bytes of the last read-ahead, of which the
        first bufferOffset have been consumed. A short read-ahead only
        happens at the end of the stream. */
    ghost predicate ReadSync()
      reads this`data, this`pos, this`bufferOffset, this`fillStart, this`filled, buffer
      requires BufferValid()
    {
      bufferOffset == -1 || bufferOffset == BufferSize ||
      (0 <= bufferOffset <= filled <= BufferSize && fillStart + filled == pos
       && (forall i | 0 <= i < filled :: buffer[i] == data[fillStart + i])
       && (filled < BufferSize ==> pos == |data|))
    }

    /** The position in the memory stream of the byte readBuffer returns next. */
    ghost function ReadPos(): (p: nat)
      reads this`data, this`pos, this`bufferOffset, this`fillStart, this`filled, buffer
      requires BufferValid() && ReadSync()
      ensures p <= |data|
    {
      if bufferOffset == -1 || bufferOffset == BufferSize then pos else fillStart + bufferOffset
    }

    /** The bytes readBuffer will return next, in order. */
    ghost function ReadRest(): seq<byte>
      reads this`data, this`pos, this`bufferOffset, this`fillStart, this`filled, buffer
      requires BufferValid() && ReadSync()
    {
      data[ReadPos()..]
    }

    /** The fields' initial values are not part of the source file; they
        are taken to be an empty stream, an unused buffer and cleared
        registers. */
    constructor ()
      ensures Valid() && fresh(buffer)
      ensures data == [] && pos == 0 && !eos && bufferOffset == -1 && offset == 0
      ensures Registers() == Coder(0, 0, 0) && status == StatusReady && !enableCompression
    {
      data, pos, eos := [], 0, false;
      buffer := new byte[BufferSize];
      bufferOffset, offset := -1, 0;
      valueCount, previousValue, repeatCount := 0, 0, 0;
      status, enableCompression := StatusReady, false;
      fillStart, filled := 0, 0;
    }

    /** MemoryWriteStreamDynamic::write */
    method StreamWrite(src: seq<byte>)
      requires Valid()
      modifies this`data, this`pos
      ensures Valid()
      ensures data == Overwrite(old(data), old(pos), src) && pos == old(pos) + |src|
    {
      data := Overwrite(data, pos, src);
      pos := pos + |src|;
    }

    /** seek(p, SEEK_SET); the memory stream asserts that p is inside it. */
    method SeekSet(p: nat)
      requires Valid() && p <= |data|
      modifies this`pos
      ensures Valid() && pos == p
    {
      pos := p;
    }

    /** seek(delta, SEEK_CUR) */
    method SeekCur(delta: int)
      requires Valid() && 0 <= pos + delta <= |data|
      modifies this`pos
      ensures Valid() && pos == old(pos) + delta
    {
      pos := pos + delta;
    }

    /** readUncompressed: copies up to dataSize bytes from the current
        position, clamping the count to what is left and then setting eos.
        The count is compared as an int32, so it must stay below 2^31. */
    method ReadUncompressed(dest: array<byte>, dataSize: nat) returns (n: nat)
      requires Valid() && dataSize <= dest.Length && dataSize < 0x8000_0000
      modifies this`pos, this`eos, dest
      ensures Valid()
      ensures n == Min(dataSize, |data| - old(pos))
      ensures dest[..n] == data[old(pos)..old(pos) + n] && dest[n..] == old(dest[n..])
      ensures pos == old(pos) + n
      ensures eos == (old(eos) || dataSize > |data| - old(pos))
    {
      n := dataSize;
      if n > |data| - pos {
        n := |data| - pos;
        eos := true;
      }
      forall i | 0 <= i < n {
        dest[i] := data[pos + i];
      }
      pos := pos + n;
    }

    /** The first half of writeBuffer's two store sequences: a full buffer
        is written to the memory stream before anything else is stored. */
    method FlushIfFull()
      requires Valid() && 0 <= bufferOffset
      modifies this`data, this`pos, this`bufferOffset
      ensures Valid() && 0 <= bufferOffset < BufferSize
      ensures WriteView() == old(WriteView()) && Cursor() == old(Cursor())
      ensures old(bufferOffset) < BufferSize ==> unchanged(this)
    {
      if bufferOffset == BufferSize {
        bufferOffset := 0;
        ghost var full := buffer[..];
        StreamWrite(buffer[..]);
        OverwriteNothing(data, pos);
      }
    }

    /** Stores one byte in the buffer at bufferOffset and advances it. */
    method Store(b: byte)
      requires Valid() && 0 <= bufferOffset < BufferSize
      modifies this`bufferOffset, buffer
      ensures Valid() && 1 <= bufferOffset <= BufferSize
      ensures WriteView() == Overwrite(old(WriteView()), old(Cursor()), [b])
      ensures Cursor() == old(Cursor()) + 1
    {
      ghost var s := Staged();
      buffer[bufferOffset] := b;
      bufferOffset := bufferOffset + 1;
      assert Staged() == s + [b];
      OverwriteTwice(data, pos, s, [b]);
    }

    /** One store of writeBuffer: a full buffer is first written to the
        memory stream, then the byte is stored. */
    method Put(b: byte)
      requires Valid() && 0 <= bufferOffset
      modifies this`data, this`pos, this`bufferOffset, buffer
      ensures Valid() && 1 <= bufferOffset <= BufferSize
      ensures WriteView() == Overwrite(old(WriteView()), old(Cursor()), [b])
      ensures Cursor() == old(Cursor()) + 1
    {
      FlushIfFull();
      Store(b);
    }

    /** writeBuffer(value, onlyValue): stores the value, escaped with 0xFE
        when onlyValue is false and the value is 0xFB or above. */
    method WriteBuffer(value: byte, onlyValue: bool)
      requires Valid()
      modifies this`data, this`pos, this`bufferOffset, this`offset, buffer
      ensures Valid() && 1 <= bufferOffset <= BufferSize
      ensures WriteView() == Overwrite(old(WriteView()), old(Cursor()), Emitted(value, onlyValue))
      ensures Cursor() == old(Cursor()) + |Emitted(value, onlyValue)|
      ensures offset == old(offset) + |Emitted(value, onlyValue)|
    {
      if bufferOffset == -1 {
        bufferOffset := 0;
      }
      if onlyValue || value < 0xFB {
        Put(value);
        offset := offset + 1;
      } else {
        PutEscaped(value);
      }
    }

    /** The escaped branch of writeBuffer: 0xFE, then the value, each store
        preceded by a flush of a full buffer. */
    method PutEscaped(value: byte)
      requires Valid() && 0 <= bufferOffset
      modifies this`data, this`pos, this`bufferOffset, this`offset, buffer
      ensures Valid() && 1 <= bufferOffset <= BufferSize
      ensures WriteView() == Overwrite(old(WriteView()), old(Cursor()), [0xFE, value])
      ensures Cursor() == old(Cursor()) + 2
      ensures offset == old(offset) + 2
    {
      ghost var v0, c0 := WriteView(), Cursor();
      Put(0xFE);
      offset := offset + 1;
      ghost var v1, c1 := WriteView(), Cursor();
      Put(value);
      offset := offset + 1;
      ViewStep(v0, c0, [0xFE], [value], v1, c1, WriteView());
      assert [0xFE] + [value] == [0xFE, value];
    }

    /** Three raw writeBuffer calls. */
    method WriteThree(a: byte, b: byte, c: byte)
      requires Valid()
      modifies this`data, this`pos, this`bufferOffset, this`offset, buffer
      ensures Valid()
      ensures WriteView() == Overwrite(old(WriteView()), old(Cursor()), [a, b, c])
      ensures Cursor() == old(Cursor()) + 3 && offset == old(offset) + 3
      ensures 1 <= bufferOffset
    {
      ghost var v0, c0 := WriteView(), Cursor();
      WriteTwo(a, b);
      ghost var v1, c1 := WriteView(), Cursor();
      WriteBuffer(c, true);
      ViewStep(v0, c0, [a, b], [c], v1, c1, WriteView());
      assert [a, b] + [c] == [a, b, c];
    }

    /** Two raw writeBuffer calls. */
    method WriteTwo(a: byte, b: byte)
      requires Valid()
      modifies this`data, this`pos, this`bufferOffset, this`offset, buffer
      ensures Valid()
      ensures WriteView() == Overwrite(old(WriteView()), old(Cursor()), [a, b])
      ensures Cursor() == old(Cursor()) + 2 && offset == old(offset) + 2
      ensures 1 <= bufferOffset
    {
      ghost var v0, c0 := WriteView(), Cursor();
      WriteBuffer(a, true);
      ghost var v1, c1 := WriteView(), Cursor();
      WriteBuffer(b, true);
      ViewStep(v0, c0, [a], [b], v1, c1, WriteView());
      assert [a] + [b] == [a, b];
    }

    /** The refill branch of readBuffer: up to 256 bytes from the memory
        stream into the buffer, which is then read from its start. */
    method Refill()
      requires Valid() && (bufferOffset == -1 || bufferOffset == BufferSize)
      modifies this`pos, this`eos, this`bufferOffset, this`fillStart, this`filled, buffer
      ensures Valid() && data == old(data) && bufferOffset == 0
      ensures ReadSync() && ReadPos() == old(pos)
    {
      fillStart := pos;
      var n := ReadUncompressed(buffer, BufferSize);
      filled := n;
      bufferOffset := 0;
      forall i | 0 <= i < filled ensures buffer[i] == data[fillStart + i] {
        assert buffer[..n][i] == data[fillStart..fillStart + n][i];
      }
    }

    /** readBuffer: the next byte of the buffer, refilling it from the
        memory stream when it is unused or used up. */
    method ReadBuffer() returns (v: byte)
      requires Valid()
      modifies this`pos, this`eos, this`bufferOffset, this`fillStart, this`filled, buffer
      ensures Valid() && data == old(data)
      ensures old(ReadSync()) && old(ReadPos()) < |data| ==>
        ReadSync() && v == data[old(ReadPos())] && ReadPos() == old(ReadPos()) + 1
    {
      ghost var sync := ReadSync();
      ghost var p := if sync then ReadPos() else 0;
      if bufferOffset == -1 || bufferOffset >= BufferSize {
        Refill();
      }
      assert sync ==> ReadSync() && ReadPos() == p;
      v := buffer[bufferOffset];
      bufferOffset := bufferOffset + 1;
    }

    /** The run code writeCompressed emits when a run of rc copies of prev
        ends (four branches of its valueCount == 2 case). */
    method EmitRun(prev: byte, rc: int)
      requires Valid()
      modifies this`data, this`pos, this`bufferOffset, this`offset, buffer
      ensures Valid()
      ensures WriteView() == Overwrite(old(WriteView()), old(Cursor()), TokenBytes(RunToken(prev, rc)))
      ensures Cursor() == old(Cursor()) + |TokenBytes(RunToken(prev, rc))|
      ensures offset == old(offset) + |TokenBytes(RunToken(prev, rc))|
      ensures 1 <= bufferOffset
    {
      if prev != 0 {
        WriteThree(0xFF, rc % 256, prev);
      } else if rc == 3 {
        WriteBuffer(0xFB, true);
      } else if rc == -1 {
        WriteBuffer(0xFC, true);
      } else {
        WriteTwo(0xFD, rc % 256);
      }
    }

    /** One iteration of the writeCompressed loop on input byte d. */
    method CompressByte(d: byte)
      requires Valid()
      modifies this`data, this`pos, this`bufferOffset, this`offset, buffer
      modifies this`valueCount, this`previousValue, this`repeatCount
      ensures Valid()
      ensures Registers() == EncodeStep(old(Registers()), d).0
      ensures WriteView() == Overwrite(old(WriteView()), old(Cursor()), Flatten(EncodeStep(old(Registers()), d).1))
      ensures Cursor() == old(Cursor()) + |Flatten(EncodeStep(old(Registers()), d).1)|
      ensures offset == old(offset) + |Flatten(EncodeStep(old(Registers()), d).1)|
      ensures old(bufferOffset) != 0 ==> bufferOffset != 0
    {
      ghost var r0 := Registers();
      if valueCount == 0 {
        previousValue := d;
        valueCount := 1;
        OverwriteNothing(WriteView(), Cursor());
      } else if valueCount == 1 {
        if d != previousValue {
          WriteBuffer(previousValue, false);
          previousValue := d;
          assert Flatten([Literal(r0.previous)]) == Emitted(r0.previous, false);
        } else {
          valueCount := 2;
          repeatCount := 2;
          OverwriteNothing(WriteView(), Cursor());
        }
      } else {
        CompressInRun(d);
      }
    }

    /** The valueCount == 2 case of the writeCompressed loop: a different
        byte or a full run ends the run and starts a new literal. */
    method CompressInRun(d: byte)
      requires Valid() && valueCount == 2
      modifies this`data, this`pos, this`bufferOffset, this`offset, buffer
      modifies this`valueCount, this`previousValue, this`repeatCount
      ensures Valid()
      ensures Registers() == EncodeStep(old(Registers()), d).0
      ensures WriteView() == Overwrite(old(WriteView()), old(Cursor()), Flatten(EncodeStep(old(Registers()), d).1))
      ensures Cursor() == old(Cursor()) + |Flatten(EncodeStep(old(Registers()), d).1)|
      ensures offset == old(offset) + |Flatten(EncodeStep(old(Registers()), d).1)|
      ensures old(bufferOffset) != 0 ==> bufferOffset != 0
    {
      ghost var r0 := Registers();
      if d != previousValue || repeatCount >= 255 {
        EmitRun(previousValue, repeatCount);
        previousValue := d;
        valueCount := 1;
        assert Flatten([RunToken(r0.previous, r0.repeatCount)]) == TokenBytes(RunToken(r0.previous, r0.repeatCount));
      } else {
        repeatCount := repeatCount + 1;
        OverwriteNothing(WriteView(), Cursor());
      }
    }

    /** writeCompressed: fails in read mode; otherwise enters write mode and
        runs the coder over the input, staging the compressed bytes, and
        returns the count emitted since the last process(). */
    method WriteCompressed(input: seq<byte>) returns (r: Result<nat, StreamError>)
      requires Valid()
      modifies this`data, this`pos, this`bufferOffset, this`offset, buffer
      modifies this`valueCount, this`previousValue, this`repeatCount, this`status
      ensures Valid()
      ensures old(status) == StatusReading ==> r == Err(BufferInReadMode) && unchanged(this) && unchanged(buffer)
      ensures old(status) != StatusReading ==>
        && r == Ok(offset) && status == StatusWriting
        && Registers() == Encode(old(Registers()), input).0
        && WriteView() == Overwrite(old(WriteView()), old(Cursor()), Flatten(Encode(old(Registers()), input).1))
        && Cursor() == old(Cursor()) + |Flatten(Encode(old(Registers()), input).1)|
        && offset == old(offset) + |Flatten(Encode(old(Registers()), input).1)|
      ensures old(status) != StatusReading && old(bufferOffset) != 0 ==> bufferOffset != 0
    {
      if status == StatusReading {
        return Err(BufferInReadMode);
      }
      status := StatusWriting;
      CompressAll(input);
      r := Ok(offset);
    }

    /** After the coder has run over x from registers r0: the registers,
        the stream view, the cursor and the count have all advanced by what
        it emitted. */
    ghost predicate WroteSoFar(r0: Coder, v0: seq<byte>, c0: nat, o0: nat, x: seq<byte>)
      reads this, buffer
    {
      && Valid() && r0.valueCount in {0, 1, 2} && c0 <= |v0|
      && Registers() == Encode(r0, x).0
      && WriteView() == Overwrite(v0, c0, Flatten(Encode(r0, x).1))
      && Cursor() == c0 + |Flatten(Encode(r0, x).1)|
      && offset == o0 + |Flatten(Encode(r0, x).1)|
    }

    /** The loop of writeCompressed: one coder step per input byte. */
    method CompressAll(input: seq<byte>)
      requires Valid()
      modifies this`data, this`pos, this`bufferOffset, this`offset, buffer
      modifies this`valueCount, this`previousValue, this`repeatCount
      ensures Valid()
      ensures Registers() == Encode(old(Registers()), input).0
      ensures WriteView() == Overwrite(old(WriteView()), old(Cursor()), Flatten(Encode(old(Registers()), input).1))
      ensures Cursor() == old(Cursor()) + |Flatten(Encode(old(Registers()), input).1)|
      ensures offset == old(offset) + |Flatten(Encode(old(Registers()), input).1)|
      ensures old(bufferOffset) != 0 ==> bufferOffset != 0
    {
      ghost var r0, v0, c0, o0 := Registers(), WriteView(), Cursor(), offset;
      ghost var started := bufferOffset != 0;
      OverwriteNothing(v0, c0);
      assert WroteSoFar(r0, v0, c0, o0, input[..0]);
      var left := |input|;
      while left != 0
        invariant 0 <= left <= |input|
        invariant WroteSoFar(r0, v0, c0, o0, input[..|input| - left])
        invariant started ==> bufferOffset != 0
      {
        CompressNext(input, |input| - left, r0, v0, c0, o0);
        left := left - 1;
      }
      assert input[..|input|] == input;
    }

    /** One pass of the writeCompressed loop. */
    method CompressNext(input: seq<byte>, i: nat, ghost r0: Coder, ghost v0: seq<byte>, ghost c0: nat, ghost o0: nat)
      requires i < |input| && WroteSoFar(r0, v0, c0, o0, input[..i])
      modifies this`data, this`pos, this`bufferOffset, this`offset, buffer
      modifies this`valueCount, this`previousValue, this`repeatCount
      ensures WroteSoFar(r0, v0, c0, o0, input[..i + 1])
      ensures old(bufferOffset) != 0 ==> bufferOffset != 0
    {
      ghost var out := Flatten(Encode(r0, input[..i]).1);
      ghost var emitted := Flatten(EncodeStep(Registers(), input[i]).1);
      ghost var w1, c1 := WriteView(), Cursor();
      CompressByte(input[i]);
      EncodeExtend(r0, input, i);
      ViewStep(v0, c0, out, emitted, w1, c1, WriteView());
    }

    /** The switch on valueCount in process()'s writing case: the pending
        literal or run is emitted. */
    method EmitFlush()
      requires Valid()
      modifies this`data, this`pos, this`bufferOffset, this`offset, buffer
      ensures Valid()
      ensures WriteView() == Overwrite(old(WriteView()), old(Cursor()), Flatten(Flush(Registers())))
      ensures Cursor() == old(Cursor()) + |Flatten(Flush(Registers()))|
      ensures offset == old(offset) + |Flatten(Flush(Registers()))|
      ensures old(bufferOffset) != 0 ==> bufferOffset != 0
    {
      if valueCount == 1 {
        WriteBuffer(previousValue, false);
        assert Flatten([Literal(previousValue)]) == Emitted(previousValue, false);
      } else if valueCount == 2 {
        EmitPendingRun(previousValue, repeatCount);
      } else {
        OverwriteNothing(WriteView(), Cursor());
      }
    }

    /** The valueCount == 2 case of process()'s flush: unlike writeCompressed
        it tests for a count of 255 to choose 0xFC. */
    method EmitPendingRun(prev: byte, rc: int)
      requires Valid()
      modifies this`data, this`pos, this`bufferOffset, this`offset, buffer
      ensures Valid()
      ensures WriteView() == Overwrite(old(WriteView()), old(Cursor()), Flatten(Flush(Coder(2, prev, rc))))
      ensures Cursor() == old(Cursor()) + |Flatten(Flush(Coder(2, prev, rc)))|
      ensures offset == old(offset) + |Flatten(Flush(Coder(2, prev, rc)))|
      ensures 1 <= bufferOffset
    {
      ghost var ts := Flush(Coder(2, prev, rc));
      assert Flatten(ts) == TokenBytes(ts[0]) + Flatten([]);
      if prev != 0 {
        assert Flatten(ts) == [0xFF, rc % 256, prev];
        WriteThree(0xFF, rc % 256, prev);
      } else if rc == 3 {
        assert Flatten(ts) == Emitted(0xFB, true);
        WriteBuffer(0xFB, true);
      } else if rc == 255 {
        assert Flatten(ts) == Emitted(0xFC, true);
        WriteBuffer(0xFC, true);
      } else {
        assert Flatten(ts) == [0xFD, rc % 256];
        WriteTwo(0xFD, rc % 256);
      }
    }

    /** process() in write mode: the pending tokens are emitted, then the
        staged bytes are written to the memory stream. */
    method FinishWriting()
      requires Valid()
      modifies this`data, this`pos, this`bufferOffset, this`offset, buffer
      ensures Valid() && bufferOffset in {-1, 0}
      ensures data == Overwrite(old(WriteView()), old(Cursor()), Flatten(Flush(Registers())))
      ensures pos == old(Cursor()) + |Flatten(Flush(Registers()))|
      ensures offset == old(offset) + |Flatten(Flush(Registers()))|
      ensures old(bufferOffset) != 0 ==> bufferOffset == -1
    {
      EmitFlush();
      ghost var v1, c1 := WriteView(), Cursor();
      if bufferOffset != -1 && bufferOffset != 0 {
        StreamWrite(buffer[..bufferOffset]);
        bufferOffset := -1;
      } else {
        OverwriteNothing(data, pos);
      }
      assert data == v1 && pos == c1;
    }

    /** process(): toggles compression and ends the current mode. Leaving
        write mode flushes the coder and the buffer; leaving read mode
        rewinds the memory stream over the unread part of the buffer. The
        registers are then cleared and the emitted-byte count is returned
        and reset. */
    method Process() returns (r: nat)
      requires Valid()
      requires status == StatusReading && bufferOffset != -1 && bufferOffset != BufferSize ==>
        0 <= pos + bufferOffset - BufferSize
      modifies this`data, this`pos, this`bufferOffset, this`offset, buffer
      modifies this`valueCount, this`status, this`enableCompression
      ensures Valid() && status == StatusReady && enableCompression == !old(enableCompression)
      ensures Registers() == Coder(0, old(previousValue), old(repeatCount)) && offset == 0
      ensures old(status) == StatusWriting ==>
        && data == Overwrite(old(WriteView()), old(Cursor()), Flatten(Flush(old(Registers()))))
        && pos == old(Cursor()) + |Flatten(Flush(old(Registers())))|
        && bufferOffset in {-1, 0}
        && r == old(offset) + |Flatten(Flush(old(Registers())))|
      ensures old(status) == StatusReady ==>
        data == old(data) && pos == old(pos) && bufferOffset == old(bufferOffset) && r == old(offset)
      ensures old(status) == StatusReading ==> data == old(data) && r == old(offset)
      ensures old(status) == StatusReading && old(bufferOffset) != -1 && old(bufferOffset) != BufferSize ==>
        pos == old(pos) + old(bufferOffset) - BufferSize && bufferOffset == -1
      ensures old(status) != StatusWriting ==> unchanged(buffer)
      ensures old(status) == StatusWriting && old(bufferOffset) != 0 ==> bufferOffset == -1
    {
      enableCompression := !enableCompression;
      if status == StatusReading {
        status := StatusReady;
        if bufferOffset != -1 && bufferOffset != BufferSize {
          SeekCur(bufferOffset - BufferSize);
          bufferOffset := -1;
        }
      } else if status == StatusWriting {
        FinishWriting();
      }
      status := StatusReady;
      valueCount := 0;
      r := offset;
      offset := 0;
    }

    /** The valueCount 0/1 case of the readCompressed loop: a control byte
        is read and decoded, with its operands. */
    method ReadControl() returns (b: byte)
      requires Valid() && valueCount in {0, 1}
      modifies this`pos, this`eos, this`bufferOffset, this`fillStart, this`filled, buffer
      modifies this`valueCount, this`previousValue, this`repeatCount
      ensures Valid() && data == old(data)
      ensures old(ReadSync()) && ControlFits(data, old(ReadPos())) ==>
        && ReadSync() && ReadPos() == old(ReadPos()) + ControlLength(data[old(ReadPos())])
        && b == ControlOutput(data, old(ReadPos()))
        && Registers() == ControlRegisters(old(Registers()), data, old(ReadPos()))
    {
      ghost var p := if ReadSync() then ReadPos() else 0;
      var control := ReadBuffer();
      if control < 0xFB {
        b := control;
      } else if control == 0xFE {
        b := ReadBuffer();
      } else {
        b := StartRun(control, p);
      }
    }

    /** The control bytes 0xFB, 0xFC, 0xFD and 0xFF, which start a run; c
        was read from position p of the memory stream. */
    method StartRun(c: byte, ghost p: nat) returns (b: byte)
      requires Valid() && c in {0xFB, 0xFC, 0xFD, 0xFF}
      modifies this`pos, this`eos, this`bufferOffset, this`fillStart, this`filled, buffer
      modifies this`valueCount, this`previousValue, this`repeatCount
      ensures Valid() && data == old(data)
      ensures old(ReadSync()) && old(ReadPos()) == p + 1 && ControlFits(data, p) && data[p] == c ==>
        && ReadSync() && ReadPos() == p + ControlLength(c)
        && b == ControlOutput(data, p)
        && Registers() == ControlRegisters(old(Registers()), data, p)
    {
      if c == 0xFB {
        repeatCount, previousValue, b, valueCount := 2, 0, 0, 2;
      } else if c == 0xFC {
        repeatCount, previousValue, b, valueCount := 254, 0, 0, 2;
      } else if c == 0xFD {
        b := StartZeroRun(p);
      } else {
        b := StartValueRun(p);
      }
    }

    /** The 0xFD case: the count operand follows. */
    method StartZeroRun(ghost p: nat) returns (b: byte)
      requires Valid()
      modifies this`pos, this`eos, this`bufferOffset, this`fillStart, this`filled, buffer
      modifies this`valueCount, this`previousValue, this`repeatCount
      ensures Valid() && data == old(data)
      ensures old(ReadSync()) && old(ReadPos()) == p + 1 && ControlFits(data, p) && data[p] == 0xFD ==>
        && ReadSync() && ReadPos() == p + 2
        && b == ControlOutput(data, p)
        && Registers() == ControlRegisters(old(Registers()), data, p)
    {
      var n := ReadBuffer();
      repeatCount, previousValue, b, valueCount := n as int - 1, 0, 0, 2;
    }

    /** The 0xFF case: the count and the value operands follow. */
    method StartValueRun(ghost p: nat) returns (b: byte)
      requires Valid()
      modifies this`pos, this`eos, this`bufferOffset, this`fillStart, this`filled, buffer
      modifies this`valueCount, this`previousValue, this`repeatCount
      ensures Valid() && data == old(data)
      ensures old(ReadSync()) && old(ReadPos()) == p + 1 && ControlFits(data, p) && data[p] == 0xFF ==>
        && ReadSync() && ReadPos() == p + 3
        && b == ControlOutput(data, p)
        && Registers() == ControlRegisters(old(Registers()), data, p)
    {
      var n, v := ReadTwo();
      repeatCount, previousValue, b, valueCount := n as int - 1, v, v, 2;
    }

    /** Two readBuffer calls: the operands of 0xFF. */
    method ReadTwo() returns (a: byte, b: byte)
      requires Valid()
      modifies this`pos, this`eos, this`bufferOffset, this`fillStart, this`filled, buffer
      ensures Valid() && data == old(data)
      ensures old(ReadSync()) && old(ReadPos()) + 2 <= |data| ==>
        && ReadSync() && ReadPos() == old(ReadPos()) + 2
        && a == data[old(ReadPos())] && b == data[old(ReadPos()) + 1]
    {
      a := ReadBuffer();
      b := ReadBuffer();
    }

    /** One iteration of the readCompressed loop. */
    method DecompressByte() returns (b: byte)
      requires Valid()
      modifies this`pos, this`eos, this`bufferOffset, this`fillStart, this`filled, buffer
      modifies this`valueCount, this`previousValue, this`repeatCount
      ensures Valid() && data == old(data)
      ensures old(ReadSync()) && DecodeStep(old(Registers()), old(ReadRest())).Some? ==>
        && ReadSync()
        && b == DecodeStep(old(Registers()), old(ReadRest())).value.0
        && Registers() == DecodeStep(old(Registers()), old(ReadRest())).value.1
        && ReadRest() == DecodeStep(old(Registers()), old(ReadRest())).value.2
    {
      if valueCount == 0 || valueCount == 1 {
        if ReadSync() {
          DecodeStepControl(Registers(), data, ReadPos());
        }
        b := ReadControl();
      } else {
        b := previousValue;
        repeatCount := repeatCount - 1;
        if repeatCount == 0 {
          valueCount := 1;
        }
      }
    }

    /** After k bytes of dest have been decoded from rest0 with registers
        r0: when that decode succeeds, dest, the registers and the bytes
        left to read match it. */
    ghost predicate DecodedSoFar(dest: array<byte>, r0: Coder, rest0: seq<byte>, k: nat)
      reads this, buffer, dest
      requires BufferValid() && r0.valueCount in {0, 1, 2} && k <= dest.Length
    {
      Decode(r0, rest0, k).Some? ==>
        && ReadSync()
        && dest[..k] == Decode(r0, rest0, k).value.0
        && Registers() == Decode(r0, rest0, k).value.1
        && ReadRest() == Decode(r0, rest0, k).value.2
    }

    /** The loop of readCompressed: dataSize iterations, each storing one
        decoded byte in dest. */
    method DecompressAll(dest: array<byte>, dataSize: nat)
      requires Valid() && dest != buffer && dataSize <= dest.Length
      modifies this`pos, this`eos, this`bufferOffset, this`fillStart, this`filled, buffer
      modifies this`valueCount, this`previousValue, this`repeatCount, dest
      ensures Valid() && data == old(data)
      ensures old(ReadSync()) && Decode(old(Registers()), old(ReadRest()), dataSize).Some? ==>
        && ReadSync()
        && dest[..dataSize] == Decode(old(Registers()), old(ReadRest()), dataSize).value.0
        && Registers() == Decode(old(Registers()), old(ReadRest()), dataSize).value.1
        && ReadRest() == Decode(old(Registers()), old(ReadRest()), dataSize).value.2
    {
      ghost var sync0, r0 := ReadSync(), Registers();
      ghost var rest0 := if sync0 then ReadRest() else [];
      var left := dataSize;
      while left != 0
        invariant 0 <= left <= dataSize
        invariant Valid() && data == old(data)
        invariant sync0 ==> DecodedSoFar(dest, r0, rest0, dataSize - left)
      {
        DecompressNext(dest, dataSize - left, r0, rest0, sync0);
        left := left - 1;
      }
      assert sync0 ==> DecodedSoFar(dest, r0, rest0, dataSize);
    }

    /** One pass of the readCompressed loop. */
    method DecompressNext(dest: array<byte>, i: nat, ghost r0: Coder, ghost rest0: seq<byte>, ghost sync0: bool)
      requires Valid() && dest != buffer && i < dest.Length && r0.valueCount in {0, 1, 2}
      requires sync0 ==> DecodedSoFar(dest, r0, rest0, i)
      modifies this`pos, this`eos, this`bufferOffset, this`fillStart, this`filled, buffer
      modifies this`valueCount, this`previousValue, this`repeatCount, dest
      ensures Valid() && data == old(data)
      ensures sync0 ==> DecodedSoFar(dest, r0, rest0, i + 1)
    {
      ghost var before := dest[..i];
      var b := DecompressByte();
      dest[i] := b;
      assert dest[..i + 1] == before + [b];
    }

    /** readCompressed: fails in write mode; otherwise sets the status to
        ready (not to reading) and decodes dataSize bytes into dest,
        returning the count emitted since the last process(). */
    method ReadCompressed(dest: array<byte>, dataSize: nat) returns (r: Result<nat, StreamError>)
      requires Valid() && dest != buffer && dataSize <= dest.Length
      modifies this`pos, this`eos, this`bufferOffset, this`fillStart, this`filled, buffer
      modifies this`valueCount, this`previousValue, this`repeatCount, this`status, dest
      ensures Valid() && data == old(data) && offset == old(offset)
      ensures old(status) == StatusWriting ==>
        r == Err(BufferInWriteMode) && unchanged(this) && unchanged(buffer) && unchanged(dest)
      ensures old(status) != StatusWriting ==> r == Ok(offset) && status == StatusReady
      ensures (old(status) != StatusWriting && old(ReadSync())
               && Decode(old(Registers()), old(ReadRest()), dataSize).Some?) ==>
        && ReadSync()
        && dest[..dataSize] == Decode(old(Registers()), old(ReadRest()), dataSize).value.0
        && Registers() == Decode(old(Registers()), old(ReadRest()), dataSize).value.1
        && ReadRest() == Decode(old(Registers()), old(ReadRest()), dataSize).value.2
    {
      if status == StatusWriting {
        return Err(BufferInWriteMode);
      }
      status := StatusReady;
      DecompressAll(dest, dataSize);
      r := Ok(offset);
    }

    /** write(): compressed while compression is enabled, otherwise
        straight to the memory stream, returning the byte count. */
    method Write(src: seq<byte>) returns (r: Result<nat, StreamError>)
      requires Valid()
      modifies this`data, this`pos, this`bufferOffset, this`offset, buffer
      modifies this`valueCount, this`previousValue, this`repeatCount, this`status
      ensures Valid()
      ensures !enableCompression ==>
        && r == Ok(|src|)
        && data == Overwrite(old(data), old(pos), src) && pos == old(pos) + |src|
        && bufferOffset == old(bufferOffset) && offset == old(offset)
        && Registers() == old(Registers()) && status == old(status) && unchanged(buffer)
      ensures enableCompression && old(status) == StatusReading ==>
        r == Err(BufferInReadMode) && unchanged(this) && unchanged(buffer)
      ensures enableCompression && old(status) != StatusReading ==>
        && r == Ok(offset) && status == StatusWriting
        && Registers() == Encode(old(Registers()), src).0
        && WriteView() == Overwrite(old(WriteView()), old(Cursor()), Flatten(Encode(old(Registers()), src).1))
        && Cursor() == old(Cursor()) + |Flatten(Encode(old(Registers()), src).1)|
        && offset == old(offset) + |Flatten(Encode(old(Registers()), src).1)|
        && (old(bufferOffset) != 0 ==> bufferOffset != 0)
    {
      if enableCompression {
        r := WriteCompressed(src);
      } else {
        StreamWrite(src);
        r := Ok(|src|);
      }
    }

    /** read(): decompressing while compression is enabled, otherwise a
        plain readUncompressed. */
    method Read(dest: array<byte>, dataSize: nat) returns (r: Result<nat, StreamError>)
      requires Valid() && dest != buffer && dataSize <= dest.Length
      requires !enableCompression ==> dataSize < 0x8000_0000
      modifies this`pos, this`eos, this`bufferOffset, this`fillStart, this`filled, buffer
      modifies this`valueCount, this`previousValue, this`repeatCount, this`status, dest
      ensures Valid() && data == old(data) && offset == old(offset)
      ensures !enableCompression ==>
        && r == Ok(Min(dataSize, |data| - old(pos)))
        && dest[..r.value] == data[old(pos)..old(pos) + r.value] && dest[r.value..] == old(dest[r.value..])
        && pos == old(pos) + r.value
        && bufferOffset == old(bufferOffset) && Registers() == old(Registers()) && status == old(status)
      ensures enableCompression && old(status) == StatusWriting ==>
        r == Err(BufferInWriteMode) && unchanged(this) && unchanged(buffer) && unchanged(dest)
      ensures enableCompression && old(status) != StatusWriting ==> r == Ok(offset) && status == StatusReady
      ensures (enableCompression && old(status) != StatusWriting && old(ReadSync())
               && Decode(old(Registers()), old(ReadRest()), dataSize).Some?) ==>
        && ReadSync()
        && dest[..dataSize] == Decode(old(Registers()), old(ReadRest()), dataSize).value.0
        && Registers() == Decode(old(Registers()), old(ReadRest()), dataSize).value.1
        && ReadRest() == Decode(old(Registers()), old(ReadRest()), dataSize).value.2
    {
      if enableCompression {
        r := ReadCompressed(dest, dataSize);
      } else {
        var n := ReadUncompressed(dest, dataSize);
        r := Ok(n);
      }
    }
  }

  /** Appending at the end of a stream. */
  lemma OverwriteAtEnd(d: seq<byte>, a: seq<byte>)
    ensures Overwrite(d, |d|, a) == d + a
  {
    assert d[..|d|] == d;
  }

  /** The bracketing writeEntry and readEntry use around an entry's data:
      process() switches compression on, write() compresses x, process()
      flushes it; after a seek back to the start, process() switches
      compression on again and read() decompresses |x| bytes, which are x. */
  method RoundTripThroughStream(x: seq<byte>) returns (y: seq<byte>)
    ensures y == x
  {
    var s := WriteCompressedEntry(x);
    y := ReadCompressedEntry(s, x);
  }

  /** The writing half: a fresh stream holds the compressed form of x. */
  method WriteCompressedEntry(x: seq<byte>) returns (s: SavegameStream)
    ensures fresh(s) && fresh(s.buffer) && s.Valid()
    ensures s.data == Flatten(Compress(Coder(0, 0, 0), x))
    ensures s.bufferOffset == -1 && s.valueCount == 0 && s.status == StatusReady && !s.enableCompression
  {
    s := new SavegameStream();
    var count := s.Process();
    OverwriteNothing([], 0);
    var w := s.Write(x);
    ghost var w0 := Coder(0, 0, 0);
    ghost var ts, s1 := Encode(w0, x).1, Encode(w0, x).0;
    OverwriteAtEnd([], Flatten(ts));
    assert s.WriteView() == Flatten(ts) && s.Cursor() == |Flatten(ts)|;
    count := s.Process();
    OverwriteAtEnd(Flatten(ts), Flatten(Flush(s1)));
    FlattenAppend(ts, Flush(s1));
  }

  /** The reading half: from the start of a stream holding the compressed
      form of x, |x| bytes are decompressed, and they are x. */
  method ReadCompressedEntry(s: SavegameStream, x: seq<byte>) returns (y: seq<byte>)
    requires s.Valid() && s.data == Flatten(Compress(Coder(0, 0, 0), x))
    requires s.bufferOffset == -1 && s.valueCount == 0 && s.status == StatusReady && !s.enableCompression
    modifies s, s.buffer
    ensures y == x
  {
    s.SeekSet(0);
    var count := s.Process();
    var dest := new byte[|x|];
    RoundTrip(Coder(0, 0, 0), s.Registers(), x, []);
    assert s.ReadRest() == Flatten(Compress(Coder(0, 0, 0), x)) + [];
    var r := s.Read(dest, |x|);
    y := dest[..];
  }
}
