/** The in-memory file that the server reads, and the file that a client writes, with the block
    routines over them. */
module RFile {
  import opened Netascii
  import opened Wrappers

  const ERR := -1
  const EOF := -1

  /** What the caller of a netascii read or write keeps between calls. */
  class CodecState {
    var prevBlockNumber: int
    var prevFilePos: nat
    var temp: nat

    constructor ()
      ensures prevBlockNumber == 0 && prevFilePos == 0 && temp == 0
    {
      prevBlockNumber, prevFilePos, temp := 0, 0, 0;
    }
  }

  /** The escape state packed in *temp: the flag in bits 8..15, the last character in bits 0..7. */
  function Unpack(head: nat, temp: nat): Reader {
    Reader(head, temp / 256 % 256 != 0, temp % 256)
  }

  function Pack(r: Reader): nat {
    (if r.newline then 256 else 0) + r.prevchar
  }

  lemma UnpackPack(r: Reader)
    ensures Unpack(r.head, Pack(r)) == r
  {
  }

  /** The k-th block of a file cut into blocks of the given size; empty past the end. */
  function BlockOf(data: seq<byte>, size: nat, k: nat): (b: seq<byte>)
    ensures |b| <= size
  {
    var from := if k * size <= |data| then k * size else |data|;
    var to := if from + size <= |data| then from + size else |data|;
    data[from..to]
  }

  class RFile {
    const data: seq<byte>
    var head: nat

    ghost predicate Valid()
      reads this
    {
      head <= |data|
    }

    constructor (bytes: seq<byte>)
      ensures Valid() && data == bytes && head == 0
    {
      data, head := bytes, 0;
    }

    predicate Feof()
      reads this
    {
      head >= |data|
    }

    method Rewind()
      modifies this
      ensures Valid() && head == 0
    {
      head := 0;
    }

    method Getc() returns (c: int)
      requires Valid()
      modifies this
      ensures Valid()
      ensures if old(head) < |data| then c == data[old(head)] && head == old(head) + 1
              else c == EOF && head == old(head)
    {
      if head >= |data| {
        c := EOF;
      } else {
        c := data[head];
        head := head + 1;
      }
    }

    method Seek(offset: nat)
      modifies this
      ensures Valid() && head == Min(offset, |data|)
    {
      head := offset;
      if head > |data| {
        head := |data|;
      }
    }

    method Read(dest: array<byte>, nBytes: nat) returns (n: nat)
      requires Valid() && nBytes <= dest.Length
      modifies this, dest
      ensures Valid() && n == Min(nBytes, |data| - old(head)) && head == old(head) + n
      ensures dest[..n] == data[old(head)..head] && dest[n..] == old(dest[n..])
    {
      if head == |data| {
        return 0;
      }
      n := if head + nBytes > |data| then |data| - head else nBytes;
      var i := 0;
      while i < n
        invariant 0 <= i <= n
        invariant forall k | 0 <= k < i :: dest[k] == data[head + k]
        invariant forall k | i <= k < dest.Length :: dest[k] == old(dest[k])
        modifies dest
      {
        dest[i] := data[head + i];
        i := i + 1;
      }
      assert dest[..n] == data[head..head + n];
      assert dest[n..] == old(dest[n..]);
      head := head + n;
    }

    /** Reads one block into the buffer and returns its length, converting to netascii on request. Only
        the block read last, or the one after it, can be converted. */
    method RfileRead(buffer: array<byte>, size: nat, blockNumber: nat, convert: bool, st: CodecState)
        returns (n: int)
      requires Valid() && size <= buffer.Length
      modifies this, buffer, st
      ensures Valid()
      ensures !convert ==>
                && n == |BlockOf(data, size, blockNumber)| && buffer[..n] == BlockOf(data, size, blockNumber)
                && head == Min(blockNumber * size, |data|) + n
                && st.prevBlockNumber == old(st.prevBlockNumber) && st.prevFilePos == old(st.prevFilePos)
                && st.temp == old(st.temp)
      ensures convert && blockNumber != old(st.prevBlockNumber) && blockNumber != old(st.prevBlockNumber) + 1 ==>
                && n == ERR && head == old(head) && st.prevBlockNumber == old(st.prevBlockNumber)
                && st.prevFilePos == old(st.prevFilePos) && st.temp == old(st.temp)
      ensures convert && (blockNumber == old(st.prevBlockNumber) || blockNumber == old(st.prevBlockNumber) + 1) ==>
                var pos := if blockNumber == old(st.prevBlockNumber) then Min(old(st.prevFilePos), |data|)
                           else old(head);
                var (out, r) := Fill(data, Unpack(pos, old(st.temp)), size);
                && n == |out| && buffer[..n] == out
                && head == r.head && st.temp == Pack(r)
                && st.prevBlockNumber == blockNumber && st.prevFilePos == pos
    {
      if !convert {
        Seek(blockNumber * size);
        n := Read(buffer, size);
        return;
      }
      if blockNumber != st.prevBlockNumber && blockNumber != st.prevBlockNumber + 1 {
        return ERR;
      }
      if blockNumber == st.prevBlockNumber {
        Seek(st.prevFilePos);
      }
      st.prevBlockNumber := blockNumber;
      st.prevFilePos := head;
      n := Convert(buffer, size, st);
    }

    /** The conversion loop, with the escape state unpacked from and packed back into *temp. */
    method Convert(buffer: array<byte>, size: nat, st: CodecState) returns (n: nat)
      requires Valid() && size <= buffer.Length
      modifies this, buffer, st`temp
      ensures Valid()
      ensures var (out, r) := Fill(data, Unpack(old(head), old(st.temp)), size);
              n == |out| && buffer[..n] == out && head == r.head && st.temp == Pack(r)
    {
      var prevchar: byte := st.temp % 256;
      var newline := st.temp / 256 % 256 != 0;
      ghost var r0 := Reader(head, newline, prevchar);
      var i := 0;
      assert buffer[..0] + Fill(data, r0, size).0 == Fill(data, r0, size).0;
      while i < size
        invariant 0 <= i <= size && Valid()
        invariant Fill(data, r0, size)
               == (buffer[..i] + Fill(data, Reader(head, newline, prevchar), size - i).0,
                   Fill(data, Reader(head, newline, prevchar), size - i).1)
        modifies this, buffer
      {
        ghost var r := Reader(head, newline, prevchar);
        var c: int;
        if newline {
          c := if prevchar == LF then LF else NUL;
          newline := false;
        } else {
          c := Getc();
          if c == EOF {
            break;
          }
          if c == LF || c == CR {
            prevchar := c;
            c := CR;
            newline := true;
          }
        }
        ghost var r' := Reader(head, newline, prevchar);
        ghost var b: byte := c;
        assert NextByte(data, r) == Some((b, r'));
        ghost var before := buffer[..i];
        buffer[i] := c;
        i := i + 1;
        assert buffer[..i] == before + [c];
        Assoc(before, [c], Fill(data, r', size - i).0);
      }
      st.temp := (if newline then 256 else 0) + prevchar;
      n := i;
    }
  }

  /** Reading one more block, as the server counts them. */
  lemma OneMoreBlock(data: seq<byte>, r: Reader, size: nat, blocks: seq<seq<byte>>)
    requires r.head <= |data| && size >= 1
    ensures var (out, r') := Fill(data, r, size);
            && blocks + ServerBlocks(data, r, size)
               == blocks + [out] + (if r'.head == |data| then [] else ServerBlocks(data, r', size))
            && (r'.head < |data| ==> |Rest(data, r')| < |Rest(data, r)|)
  {
    hide Fill, Encode;
    FillIsRest(data, r, size);
    var (out, r') := Fill(data, r, size);
    AtEndIffOnlyPending(data, r');
    if r'.head < |data| {
      hide Rest, Pending;
      assert ServerBlocks(data, r, size) == [out] + ServerBlocks(data, r', size);
    }
  }

  /** A netascii transfer in which nothing has to be repeated: block after block is read, until one leaves
      the file at its end. */
  method SendNetascii(fp: RFile, buffer: array<byte>, size: nat, st: CodecState)
      returns (blocks: seq<seq<byte>>)
    requires fp.Valid() && fp.head == 0 && 1 <= size <= buffer.Length
    requires st.prevBlockNumber == 0 && st.prevFilePos == 0 && st.temp == 0
    modifies fp, buffer, st
    ensures blocks == ServerBlocks(fp.data, START, size)
  {
    assert Unpack(0, 0) == START;
    hide Fill, ServerBlocks, Rest, Pack, Unpack;
    blocks := [];
    var blockNumber := 0;
    ghost var r := START;
    assert [] + ServerBlocks(fp.data, START, size) == ServerBlocks(fp.data, START, size);
    var done := false;
    while !done
      invariant fp.Valid() && r.head == fp.head
      invariant blocks + (if done then [] else ServerBlocks(fp.data, r, size)) == ServerBlocks(fp.data, START, size)
      invariant r == Unpack(fp.head, st.temp)
      invariant if blockNumber == 0 then fp.head == st.prevBlockNumber == st.prevFilePos == 0
                else st.prevBlockNumber == blockNumber - 1
      decreases !done, |Rest(fp.data, r)|
    {
      var n := fp.RfileRead(buffer, size, blockNumber, true, st);
      OneMoreBlock(fp.data, r, size, blocks);
      r := Fill(fp.data, r, size).1;
      UnpackPack(r);
      blocks := blocks + [buffer[..n]];
      done := fp.Feof();
      blockNumber := blockNumber + 1;
    }
    assert blocks + [] == blocks;
  }

  // ---------- the receiving side ----------

  /** contents with bytes written at an offset; a gap reads as zeros. */
  function Overlay(contents: seq<byte>, at: nat, bytes: seq<byte>): (c: seq<byte>)
    ensures |c| == if bytes == [] then |contents| else if |contents| < at + |bytes| then at + |bytes| else |contents|
    ensures forall p | 0 <= p < |c| ::
              c[p] == if at <= p < at + |bytes| then bytes[p - at] else if p < |contents| then contents[p] else NUL
  {
    if bytes == [] then
      contents
    else
      seq(if |contents| < at + |bytes| then at + |bytes| else |contents|,
          p requires 0 <= p =>
            if at <= p < at + |bytes| then bytes[p - at] else if p < |contents| then contents[p] else NUL)
  }

  class OutFile {
    var contents: seq<byte>
    var pos: nat

    constructor ()
      ensures contents == [] && pos == 0
    {
      contents, pos := [], 0;
    }

    /** fseek(fp, offset, SEEK_SET); a negative offset is refused. */
    method SeekSet(offset: int) returns (ok: bool)
      modifies this`pos
      ensures ok <==> offset >= 0
      ensures pos == if offset >= 0 then offset else old(pos)
    {
      ok := offset >= 0;
      if ok {
        pos := offset;
      }
    }

    /** fseek(fp, -1, SEEK_CUR). */
    method SeekBack()
      modifies this`pos
      ensures pos == if old(pos) > 0 then old(pos) - 1 else 0
    {
      if pos > 0 {
        pos := pos - 1;
      }
    }

    method Fputc(c: byte)
      modifies this
      ensures contents == Overlay(old(contents), old(pos), [c]) && pos == old(pos) + 1
    {
      contents := Overlay(contents, pos, [c]);
      pos := pos + 1;
    }

    method Fwrite(bytes: seq<byte>)
      modifies this
      ensures contents == Overlay(old(contents), old(pos), bytes) && pos == old(pos) + |bytes|
    {
      contents := Overlay(contents, pos, bytes);
      pos := pos + |bytes|;
    }

    /** Writes one received block and returns its length: in octet mode at the place its number says, in
        netascii mode decoded at the end, where only the next block is written and the last one is
        acknowledged without being written again. */
    method FileWrite(buffer: array<byte>, size: nat, blockNumber: int, dataSize: nat, convert: bool, st: CodecState)
        returns (n: int)
      requires dataSize <= buffer.Length
      requires convert ==> pos == |contents| && st.temp < 256 && WriterOk(Writer(contents, st.temp))
      modifies this, st
      ensures !convert ==>
                && n == (if (blockNumber - 1) * size >= 0 then dataSize else 0)
                && contents == (if (blockNumber - 1) * size >= 0
                                then Overlay(old(contents), (blockNumber - 1) * size, buffer[..dataSize])
                                else old(contents))
                && st.prevBlockNumber == old(st.prevBlockNumber) && st.temp == old(st.temp)
      ensures convert && blockNumber != old(st.prevBlockNumber) && blockNumber != old(st.prevBlockNumber) + 1 ==>
                n == ERR && contents == old(contents) && st.prevBlockNumber == old(st.prevBlockNumber)
                && st.temp == old(st.temp)
      ensures convert && blockNumber == old(st.prevBlockNumber) ==>
                n == dataSize && contents == old(contents) && st.prevBlockNumber == old(st.prevBlockNumber)
                && st.temp == old(st.temp)
      ensures convert ==> pos == |contents| && st.temp < 256 && WriterOk(Writer(contents, st.temp))
      ensures convert && blockNumber == old(st.prevBlockNumber) + 1 ==>
                n == dataSize && st.prevBlockNumber == blockNumber
                && Writer(contents, st.temp)
                   == WriteAll(Writer(old(contents), old(st.temp)), buffer[..dataSize])
    {
      if !convert {
        var ok := SeekSet((blockNumber - 1) * size);
        if ok {
          Fwrite(buffer[..dataSize]);
          n := dataSize;
        } else {
          n := 0;
        }
        return;
      }
      if blockNumber != st.prevBlockNumber && blockNumber != st.prevBlockNumber + 1 {
        return ERR;
      }
      if blockNumber == st.prevBlockNumber {
        return dataSize;
      }
      st.prevBlockNumber := blockNumber;
      Decode(buffer, dataSize, st);
      n := dataSize;
    }

    /** The decoding loop, with the last character kept in *temp. */
    method Decode(buffer: array<byte>, dataSize: nat, st: CodecState)
      requires dataSize <= buffer.Length
      requires pos == |contents| && st.temp < 256 && WriterOk(Writer(contents, st.temp))
      modifies this, st`temp
      ensures pos == |contents| && st.temp < 256
      ensures Writer(contents, st.temp) == WriteAll(Writer(old(contents), old(st.temp)), buffer[..dataSize])
    {
      var prevchar: byte := st.temp;
      ghost var block := buffer[..dataSize];
      ghost var w0 := Writer(contents, prevchar);
      var i := 0;
      assert block[0..] == block;
      while i < dataSize
        invariant 0 <= i <= dataSize
        invariant pos == |contents| && WriterOk(Writer(contents, prevchar))
        invariant WriteAll(Writer(contents, prevchar), block[i..]) == WriteAll(w0, block)
        modifies this
      {
        var c := buffer[i];
        assert block[i..][0] == c && block[i..][1..] == block[i + 1..];
        DecodeByte(prevchar, c);
        prevchar := c;
        i := i + 1;
      }
      st.temp := prevchar;
    }

    /** The loop body of the decoder. */
    method DecodeByte(prevchar: byte, c: byte)
      requires pos == |contents| && WriterOk(Writer(contents, prevchar))
      modifies this
      ensures pos == |contents| && Writer(contents, c) == WriteByte(Writer(old(contents), prevchar), c)
    {
      if prevchar == CR {
        if c == LF {
          SeekBack();
          Fputc(c);
        } else if c != NUL {
          Fputc(c);
        }
      } else {
        Fputc(c);
      }
    }
  }

  // ---------- octet reassembly ----------

  /** The blocks with the given numbers (counted from 0), written in that order to a file. */
  function WriteOctet(contents: seq<byte>, data: seq<byte>, size: nat, order: seq<nat>): seq<byte>
    decreases |order|
  {
    if order == [] then
      contents
    else
      WriteOctet(Overlay(contents, order[0] * size, BlockOf(data, size, order[0])), data, size, order[1..])
  }

  /** Every byte of the file from position from up to from + size has been written. */
  ghost predicate WrittenFrom(contents: seq<byte>, data: seq<byte>, size: nat, from: nat) {
    forall p | from <= p < from + size && p < |data| :: p < |contents| && contents[p] == data[p]
  }

  /** Every byte of block k has been written. */
  ghost predicate BlockWritten(contents: seq<byte>, data: seq<byte>, size: nat, k: nat) {
    WrittenFrom(contents, data, size, k * size)
  }

  /** Every byte of the blocks in done has been written, and nothing beyond the file has. */
  ghost predicate Holds(contents: seq<byte>, data: seq<byte>, size: nat, done: set<nat>) {
    |contents| <= |data| && forall k | k in done :: BlockWritten(contents, data, size, k)
  }

  function Numbers(order: seq<nat>): set<nat> {
    set j | 0 <= j < |order| :: order[j]
  }

  lemma {:induction false} WriteOctetHolds(contents: seq<byte>, data: seq<byte>, size: nat, order: seq<nat>,
                                           done: set<nat>)
    requires Holds(contents, data, size, done)
    ensures Holds(WriteOctet(contents, data, size, order), data, size, done + Numbers(order))
    decreases |order|
  {
    hide Holds, Overlay, BlockOf;
    if order == [] {
      assert done + Numbers(order) == done;
    } else {
      var k := order[0];
      OverlayHolds(contents, data, size, k, done);
      WriteOctetHolds(Overlay(contents, k * size, BlockOf(data, size, k)), data, size, order[1..], done + {k});
      NumbersSplit(order, done);
    }
  }

  lemma NumbersSplit(order: seq<nat>, done: set<nat>)
    requires order != []
    ensures done + Numbers(order) == done + {order[0]} + Numbers(order[1..])
  {
    assert forall j | 0 < j < |order| :: order[j] == order[1..][j - 1];
  }

  lemma OverlayHolds(contents: seq<byte>, data: seq<byte>, size: nat, k: nat, done: set<nat>)
    requires Holds(contents, data, size, done)
    ensures Holds(Overlay(contents, k * size, BlockOf(data, size, k)), data, size, done + {k})
  {
    BlockIs(data, size, k);
    hide BlockOf, BlockWritten;
    var c := Overlay(contents, k * size, BlockOf(data, size, k));
    forall j | j in done + {k} ensures BlockWritten(c, data, size, j) {
      OverlayBlock(contents, data, size, k, j);
    }
  }

  lemma OverlayBlock(contents: seq<byte>, data: seq<byte>, size: nat, k: nat, j: nat)
    requires j == k || BlockWritten(contents, data, size, j)
    ensures BlockWritten(Overlay(contents, k * size, BlockOf(data, size, k)), data, size, j)
  {
    BlockIs(data, size, k);
    hide BlockOf, Overlay, WrittenFrom;
    OverlayFrom(contents, data, size, k * size, BlockOf(data, size, k), j * size);
  }

  lemma OverlayFrom(contents: seq<byte>, data: seq<byte>, size: nat, at: nat, b: seq<byte>, from: nat)
    requires b != [] ==> at + |b| <= |data| && b == data[at..at + |b|]
    requires at + size <= |data| ==> |b| == size
    requires at <= |data| < at + size ==> at + |b| == |data|
    requires from == at || WrittenFrom(contents, data, size, from)
    ensures WrittenFrom(Overlay(contents, at, b), data, size, from)
  {
    hide Overlay;
    var c := Overlay(contents, at, b);
    forall p: int | from <= p < from + size && p < |data| ensures p < |c| && c[p] == data[p] {
      if from != at {
        assert p < |contents| && contents[p] == data[p];
      }
      OverlayByte(contents, data, at, b, p);
    }
    assert WrittenFrom(c, data, size, from);
  }

  /** A byte of the file is there when it is written, or has been. */
  lemma OverlayByte(contents: seq<byte>, data: seq<byte>, at: nat, b: seq<byte>, p: nat)
    requires b != [] ==> at + |b| <= |data| && b == data[at..at + |b|]
    requires p < |data| && (at <= p < at + |b| || (p < |contents| && contents[p] == data[p]))
    ensures p < |Overlay(contents, at, b)| && Overlay(contents, at, b)[p] == data[p]
  {
    if at <= p < at + |b| {
      assert data[at..at + |b|][p - at] == data[p];
    }
  }

  lemma BlockIs(data: seq<byte>, size: nat, k: nat)
    ensures var at, b := k * size, BlockOf(data, size, k);
            && (b != [] ==> at + |b| <= |data| && b == data[at..at + |b|])
            && (at + size <= |data| ==> |b| == size)
            && (at <= |data| < at + size ==> at + |b| == |data|)
  {
  }

  /** Every block of the file is among the given numbers. */
  ghost predicate AllBlocks(order: seq<nat>, data: seq<byte>, size: nat) {
    forall k: nat | k * size < |data| :: k in order
  }

  /** Octet blocks may be written in any order and any number of times: once each block of the file has
      been, the file is complete. */
  lemma OctetReassembly(data: seq<byte>, size: nat, order: seq<nat>)
    requires size >= 1 && AllBlocks(order, data, size)
    ensures WriteOctet([], data, size, order) == data
  {
    hide AllBlocks, WriteOctet, Holds;
    WrittenFromEmpty(data, size, order);
    var result := WriteOctet([], data, size, order);
    forall p | 0 <= p < |data| ensures p < |result| && result[p] == data[p] {
      ByteWritten(result, data, size, order, p);
    }
    if data != [] {
      ByteWritten(result, data, size, order, |data| - 1);
    }
    assert result == data;
  }

  lemma WrittenFromEmpty(data: seq<byte>, size: nat, order: seq<nat>)
    ensures |WriteOctet([], data, size, order)| <= |data|
    ensures Holds(WriteOctet([], data, size, order), data, size, Numbers(order))
  {
    var done := Numbers(order);
    WriteOctetHolds([], data, size, order, {});
    assert {} + done == done;
  }

  lemma ByteWritten(contents: seq<byte>, data: seq<byte>, size: nat, order: seq<nat>, p: nat)
    requires size >= 1 && AllBlocks(order, data, size) && p < |data|
    requires Holds(contents, data, size, Numbers(order))
    ensures p < |contents| && contents[p] == data[p]
  {
    var k := BlockHolding(p, size);
    assert k in order;
    HoldsAt(contents, data, size, Numbers(order), k, p);
  }

  lemma BlockHolding(p: nat, size: nat) returns (k: nat)
    requires size >= 1
    ensures k * size <= p < k * size + size
  {
    k := p / size;
    assert p == k * size + p % size;
  }

  lemma HoldsAt(contents: seq<byte>, data: seq<byte>, size: nat, done: set<nat>, k: nat, p: nat)
    requires Holds(contents, data, size, done) && k in done && k * size <= p < k * size + size && p < |data|
    ensures p < |contents| && contents[p] == data[p]
  {
    assert BlockWritten(contents, data, size, k);
    WrittenAt(contents, data, size, k * size, p, data[p]);
  }

  lemma WrittenAt(contents: seq<byte>, data: seq<byte>, size: nat, from: nat, p: nat, c: byte)
    requires WrittenFrom(contents, data, size, from) && from <= p < from + size && p < |data| && data[p] == c
    ensures p < |contents| && contents[p] == c
  {
  }
}
