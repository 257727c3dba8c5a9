/** The netascii codec as functions: the encoding, the block reader's escape state, and the decoder's
    write-then-overwrite state. */
module Netascii {
  import opened Arith
  import opened Wrappers

  type byte = x: int | 0 <= x < 256

  const NUL: byte := 0
  const LF: byte := 10
  const CR: byte := 13

  function Min(a: nat, b: nat): nat {
    if a <= b then a else b
  }

  /** LF is sent as CR LF and CR as CR NUL. */
  function EncodeByte(c: byte): seq<byte> {
    if c == LF then [CR, LF] else if c == CR then [CR, NUL] else [c]
  }

  function Encode(s: seq<byte>): seq<byte> {
    if s == [] then [] else EncodeByte(s[0]) + Encode(s[1..])
  }

  // ---------- the block reader ----------

  /** The reader's state: file position, and the escape state kept in *temp. */
  datatype Reader = Reader(head: nat, newline: bool, prevchar: byte)

  /** The second half of an escape pair still owed. */
  function Pending(r: Reader): seq<byte> {
    if !r.newline then [] else if r.prevchar == LF then [LF] else [NUL]
  }

  /** Everything the reader has still to deliver. */
  function Rest(data: seq<byte>, r: Reader): seq<byte>
    requires r.head <= |data|
  {
    Pending(r) + Encode(data[r.head..])
  }

  /** One turn of the conversion loop: the next output byte and state, None at end of file. */
  function NextByte(data: seq<byte>, r: Reader): (o: Option<(byte, Reader)>)
    requires r.head <= |data|
    ensures o.Some? ==> o.value.1.head <= |data|
  {
    if r.newline then
      Some((if r.prevchar == LF then LF else NUL, r.(newline := false)))
    else if r.head == |data| then
      None
    else
      var c := data[r.head];
      if c == LF || c == CR then Some((CR, Reader(r.head + 1, true, c))) else Some((c, r.(head := r.head + 1)))
  }

  /** The conversion loop for a buffer of the given size. */
  function Fill(data: seq<byte>, r: Reader, size: nat): (f: (seq<byte>, Reader))
    requires r.head <= |data|
    ensures |f.0| <= size && f.1.head <= |data|
    decreases size
  {
    if size == 0 then
      ([], r)
    else
      match NextByte(data, r)
      case None => ([], r)
      case Some((c, r')) => var (out, r'') := Fill(data, r', size - 1); ([c] + out, r'')
  }

  lemma NextByteRest(data: seq<byte>, r: Reader)
    requires r.head <= |data|
    ensures NextByte(data, r).None? <==> Rest(data, r) == []
    ensures NextByte(data, r).Some? ==>
              var (c, r') := NextByte(data, r).value; Rest(data, r) == [c] + Rest(data, r')
  {
    if !r.newline && r.head < |data| {
      assert data[r.head..][1..] == data[r.head + 1..];
    }
  }

  /** A block is the next stretch of the encoding, as long as the buffer allows; the reader is left
      owing exactly what follows. */
  lemma {:induction false} FillIsRest(data: seq<byte>, r: Reader, size: nat)
    requires r.head <= |data|
    ensures var (out, r') := Fill(data, r, size);
            && |out| == Min(size, |Rest(data, r)|)
            && Rest(data, r) == out + Rest(data, r')
    decreases size
  {
    NextByteRest(data, r);
    if size > 0 && NextByte(data, r).Some? {
      var (c, r1) := NextByte(data, r).value;
      FillIsRest(data, r1, size - 1);
      var (out, r2) := Fill(data, r1, size - 1);
      assert Fill(data, r, size) == ([c] + out, r2);
      hide *;
      assert Rest(data, r) == [c] + (out + Rest(data, r2));
      Assoc([c], out, Rest(data, r2));
      assert |Rest(data, r)| == 1 + |Rest(data, r1)|;
    }
  }

  lemma Assoc(a: seq<byte>, b: seq<byte>, c: seq<byte>)
    ensures (a + b) + c == a + (b + c)
  {
  }

  lemma EncodeEmpty(s: seq<byte>)
    ensures Encode(s) == [] <==> s == []
  {
  }

  /** rfileFeof is true exactly when nothing but a pending escape byte is left. */
  lemma AtEndIffOnlyPending(data: seq<byte>, r: Reader)
    requires r.head <= |data|
    ensures r.head == |data| <==> Rest(data, r) == Pending(r)
  {
    EncodeEmpty(data[r.head..]);
  }

  function Concat(blocks: seq<seq<byte>>): seq<byte> {
    if blocks == [] then [] else blocks[0] + Concat(blocks[1..])
  }

  lemma {:induction false} ConcatSnoc(blocks: seq<seq<byte>>, b: seq<byte>)
    ensures Concat(blocks + [b]) == Concat(blocks) + b
  {
    if blocks == [] {
      assert blocks + [b] == [b];
    } else {
      assert (blocks + [b])[1..] == blocks[1..] + [b];
      ConcatSnoc(blocks[1..], b);
    }
  }

  /** Reading blocks until one comes back short. */
  function Blocks(data: seq<byte>, r: Reader, size: nat): seq<seq<byte>>
    requires r.head <= |data| && size >= 1
    decreases |Rest(data, r)|
  {
    var (out, r') := Fill(data, r, size);
    FillIsRest(data, r, size);
    if |out| < size then [out] else [out] + Blocks(data, r', size)
  }

  /** Those blocks are full except the last, which is short, and together they are the encoding. */
  lemma {:induction false} BlocksAreEncoding(data: seq<byte>, r: Reader, size: nat)
    requires r.head <= |data| && size >= 1
    ensures var bs := Blocks(data, r, size);
            && bs != []
            && Concat(bs) == Rest(data, r)
            && (forall k | 0 <= k < |bs| - 1 :: |bs[k]| == size)
            && |bs[|bs| - 1]| < size
    decreases |Rest(data, r)|
  {
    var (out, r') := Fill(data, r, size);
    FillIsRest(data, r, size);
    if |out| == size {
      BlocksAreEncoding(data, r', size);
      assert Blocks(data, r, size)[1..] == Blocks(data, r', size);
    } else {
      assert Rest(data, r') == [];
    }
  }

  /** The server's own stopping rule: after a block that leaves the file position at the end. */
  function ServerBlocks(data: seq<byte>, r: Reader, size: nat): seq<seq<byte>>
    requires r.head <= |data| && size >= 1
    decreases |Rest(data, r)|
  {
    var (out, r') := Fill(data, r, size);
    FillIsRest(data, r, size);
    if r'.head == |data| then
      [out]
    else
      AtEndIffOnlyPending(data, r');
      [out] + ServerBlocks(data, r', size)
  }

  /** What the last byte of the file leaves pending when a block ends inside its escape pair. */
  predicate EndsInPair(data: seq<byte>) {
    data != [] && (data[|data| - 1] == LF || data[|data| - 1] == CR)
  }

  /** The escape state is that of the byte just read. */
  predicate ReaderOk(data: seq<byte>, r: Reader) {
    && r.head <= |data|
    && (r.newline ==> r.head > 0 && data[r.head - 1] == r.prevchar && (r.prevchar == LF || r.prevchar == CR))
  }

  lemma {:induction false} FillOk(data: seq<byte>, r: Reader, size: nat)
    requires ReaderOk(data, r)
    ensures ReaderOk(data, Fill(data, r, size).1)
    ensures r.head <= Fill(data, r, size).1.head
    decreases size
  {
    if size > 0 && NextByte(data, r).Some? {
      FillOk(data, NextByte(data, r).value.1, size - 1);
    }
  }

  lemma {:induction false} EncodeAtLeast(s: seq<byte>)
    ensures |Encode(s)| >= |s|
    ensures EndsInPair(s) ==> |Encode(s)| > |s|
  {
    if s != [] {
      EncodeAtLeast(s[1..]);
      assert |s| > 1 ==> s[1..][|s| - 2] == s[|s| - 1];
    }
  }

  /** The last pair of the encoding is cut in two by a block boundary. */
  predicate PairCut(data: seq<byte>, left: nat, size: nat)
    requires size >= 1
  {
    EndsInPair(data) && left > 0 && (left - 1) % size == 0
  }

  /** What one block leaves behind, collected. */
  lemma BlockFacts(data: seq<byte>, r: Reader, size: nat)
    requires ReaderOk(data, r)
    ensures var (out, r') := Fill(data, r, size);
            && ReaderOk(data, r') && r.head <= r'.head <= |data|
            && |out| == Min(size, |Rest(data, r)|)
            && Rest(data, r) == out + Rest(data, r')
            && (r'.head == |data| ==> Rest(data, r') == Pending(r'))
    ensures |Rest(data, r)| >= |Pending(r)| + |data| - r.head
    ensures r.head < |data| && EndsInPair(data) ==> |Rest(data, r)| > |Pending(r)| + |data| - r.head
  {
    hide Encode, Fill;
    FillIsRest(data, r, size);
    FillOk(data, r, size);
    AtEndIffOnlyPending(data, Fill(data, r, size).1);
    EncodeAtLeast(data[r.head..]);
    if r.head < |data| {
      assert data[r.head..][|data| - r.head - 1] == data[|data| - 1];
    }
  }

  lemma PendingAtEnd(data: seq<byte>, r: Reader)
    requires ReaderOk(data, r) && r.head == |data| > 0
    ensures r.newline ==> EndsInPair(data)
    ensures |Pending(r)| == if r.newline then 1 else 0
  {
  }

  /** The server's last block. */
  lemma LastServerBlock(data: seq<byte>, r: Reader, size: nat)
    requires ReaderOk(data, r) && size >= 1 && (r.head < |data| || !r.newline)
    requires Fill(data, r, size).1.head == |data|
    ensures var rest := Rest(data, r);
            Fill(data, r, size).0
            == if PairCut(data, |rest|, size) && r.head < |data| then rest[..|rest| - 1] else rest
  {
    hide Rest, Fill, Encode, PairCut, Pending, EndsInPair;
    var rest := Rest(data, r);
    var (out, r') := Fill(data, r, size);
    BlockFacts(data, r, size);
    if r.head < |data| {
      PendingAtEnd(data, r');
      if r'.newline {
        CutOneOver(data, size);
        assert rest[..|rest| - 1] == out;
      } else {
        NotCut(data, |rest|, size);
      }
    } else {
      NothingLeft(data, r);
    }
  }

  lemma NothingLeft(data: seq<byte>, r: Reader)
    requires r.head == |data| && !r.newline
    ensures Rest(data, r) == []
  {
  }

  lemma CutOneOver(data: seq<byte>, size: nat)
    requires size >= 1 && EndsInPair(data)
    ensures PairCut(data, size + 1, size)
  {
  }

  lemma {:induction false} ServerBlocksFrom(data: seq<byte>, r: Reader, size: nat)
    requires ReaderOk(data, r) && size >= 1 && (r.head < |data| || !r.newline)
    ensures var rest := Rest(data, r);
            Concat(ServerBlocks(data, r, size))
            == if PairCut(data, |rest|, size) && r.head < |data| then rest[..|rest| - 1] else rest
    decreases |Rest(data, r)|
  {
    hide Rest, Fill, PairCut, Pending, EndsInPair;
    var rest := Rest(data, r);
    var (out, r') := Fill(data, r, size);
    BlockFacts(data, r, size);
    if r'.head == |data| {
      LastServerBlock(data, r, size);
      assert Concat([out]) == out;
    } else {
      BlockFacts(data, r', size);
      ServerBlocksFrom(data, r', size);
      assert Concat(ServerBlocks(data, r, size)) == out + Concat(ServerBlocks(data, r', size));
      CutShift(data, |rest|, size);
    }
  }

  lemma CutShift(data: seq<byte>, left: nat, size: nat)
    requires left > size >= 1
    ensures PairCut(data, left - size, size) <==> PairCut(data, left, size)
  {
    ModShift(left, size);
  }

  lemma NotCut(data: seq<byte>, left: nat, size: nat)
    requires 1 <= left <= size && (EndsInPair(data) ==> left >= 2)
    ensures !PairCut(data, left, size)
  {
    assert EndsInPair(data) ==> (left - 1) % size == left - 1;
  }

  lemma ModShift(left: nat, size: nat)
    requires left > size >= 1
    ensures (left - size - 1) % size == (left - 1) % size
  {
    var q, m := (left - 1) / size, (left - 1) % size;
    assert left - 1 == q * size + m;
    assert (q - 1) * size == q * size - size;
    DivMod(left - size - 1, size, q - 1, m);
  }

  const START := Reader(0, false, NUL)

  /** A netascii transfer that never has to repeat a block delivers the whole encoding, unless the file
      ends in LF or CR and the encoding is one byte longer than a whole number of blocks: then the
      server stops one byte early. */
  lemma ServerSendsEncoding(data: seq<byte>, size: nat)
    requires size >= 1
    ensures Concat(ServerBlocks(data, START, size)) == Encode(data) <==> !PairCut(data, |Encode(data)|, size)
  {
    ServerBlocksFrom(data, START, size);
    assert data[0..] == data;
    assert Rest(data, START) == Encode(data);
    EncodeAtLeast(data);
  }

  predicate IsPlain(s: seq<byte>) {
    LF !in s && CR !in s
  }

  lemma {:induction false} PlainEncode(s: seq<byte>, t: seq<byte>)
    requires IsPlain(s)
    ensures Encode(s + t) == s + Encode(t)
  {
    if s == [] {
      assert s + t == t;
    } else {
      assert (s + t)[1..] == s[1..] + t;
      PlainEncode(s[1..], t);
    }
  }

  /** A line that exactly fills a block but for its line end: the block ends between CR and LF. */
  lemma LineEncoding(s: seq<byte>, t: seq<byte>)
    requires IsPlain(s)
    ensures Encode(s + [LF] + t) == s + [CR] + [LF] + Encode(t)
  {
    PlainEncode(s, [LF] + t);
    assert s + [LF] + t == s + ([LF] + t);
    assert ([LF] + t)[1..] == t;
  }

  /** For every block size there are files that the server cuts short: ordinary bytes for a block less one,
      and LF. It sends CR and stops. */
  lemma ServerStopsEarly(s: seq<byte>, size: nat)
    requires |s| + 1 == size && IsPlain(s)
    ensures Concat(ServerBlocks(s + [LF], START, size)) == s + [CR]
  {
    hide Fill, Encode, ServerBlocks, Concat;
    var data := s + [LF];
    LineEncoding(s, []);
    EncodeEmpty([]);
    assert s + [LF] + [] == data == data[0..];
    assert s + [CR] + [LF] + [] == s + [CR] + [LF];
    var rest := Rest(data, START);
    assert rest == s + [CR] + [LF];
    CutOneOver(data, size);
    ServerBlocksFrom(data, START, size);
    assert rest[..size] == s + [CR];
  }

  // ---------- reading a block again ----------

  /** The second half of the escape pair that position p of the encoding cuts in two, if it does. */
  function Owed(data: seq<byte>, p: nat): seq<byte> {
    if data == [] then
      []
    else
      var e := EncodeByte(data[0]);
      if p < |e| then (if p == 0 then [] else e[p..]) else Owed(data[1..], p - |e|)
  }

  /** After the encoding of the first h bytes nothing is owed, and one byte earlier the rest of the last. */
  lemma {:induction false} OwedAt(data: seq<byte>, h: nat)
    requires h <= |data|
    ensures Owed(data, |Encode(data[..h])|) == []
    ensures h > 0 && |EncodeByte(data[h - 1])| == 2 ==>
              |Encode(data[..h])| > 0 && Owed(data, |Encode(data[..h])| - 1) == EncodeByte(data[h - 1])[1..]
  {
    if h > 0 {
      assert data[..h][1..] == data[1..][..h - 1];
      OwedAt(data[1..], h - 1);
      EncodeAtLeast(data[1..][..h - 1]);
      EncodeEmpty(data[1..][..h - 1]);
      if h > 1 && |EncodeByte(data[h - 1])| == 2 {
        assert data[1..][h - 2] == data[h - 1];
      }
    }
  }

  lemma {:induction false} EncodeSplit(s: seq<byte>, h: nat)
    requires h <= |s|
    ensures Encode(s) == Encode(s[..h]) + Encode(s[h..])
  {
    if h > 0 {
      EncodeSplit(s[1..], h - 1);
      assert s[..h][1..] == s[1..][..h - 1] && s[1..][h - 1..] == s[h..];
    } else {
      assert s[h..] == s;
    }
  }

  /** The reader after b blocks. */
  function After(data: seq<byte>, size: nat, b: nat): (r: Reader)
    ensures r.head <= |data|
  {
    if b == 0 then START else Fill(data, After(data, size, b - 1), size).1
  }

  /** After b blocks the reader owes what the block boundary has cut off. */
  lemma {:induction false} AfterOwes(data: seq<byte>, size: nat, b: nat)
    ensures ReaderOk(data, After(data, size, b))
    ensures |Encode(data)| == Min(b * size, |Encode(data)|) + |Rest(data, After(data, size, b))|
    ensures Pending(After(data, size, b)) == Owed(data, Min(b * size, |Encode(data)|))
  {
    hide Fill;
    var r := After(data, size, b);
    if b == 0 {
      assert data[0..] == data;
    } else {
      var r0 := After(data, size, b - 1);
      AfterOwes(data, size, b - 1);
      FillIsRest(data, r0, size);
      FillOk(data, r0, size);
      assert b * size == (b - 1) * size + size;
    }
    OwesRest(data, r, Min(b * size, |Encode(data)|));
  }

  lemma OwesRest(data: seq<byte>, r: Reader, p: nat)
    requires ReaderOk(data, r) && |Encode(data)| == p + |Rest(data, r)|
    ensures Pending(r) == Owed(data, p)
  {
    hide Encode, Owed;
    EncodeSplit(data, r.head);
    OwedAt(data, r.head);
    assert |Encode(data[..r.head])| == p + |Pending(r)|;
  }

  lemma RereadFrom(data: seq<byte>, r: Reader, size: nat)
    requires r.head <= |data|
    ensures var (out, r1) := Fill(data, r, size);
            var (out2, r2) := Fill(data, r1.(head := r.head), size);
            out2 == out && Rest(data, r2) == Rest(data, r1) <==> Pending(r1) == Pending(r)
  {
    var (out, r1) := Fill(data, r, size);
    var again := r1.(head := r.head);
    var (out2, r2) := Fill(data, again, size);
    FillIsRest(data, r, size);
    FillIsRest(data, again, size);
    var e := Encode(data[r.head..]);
    assert Rest(data, r) == Pending(r) + e && Rest(data, again) == Pending(r1) + e;
    if Pending(r1) == Pending(r) {
      SplitUnique(out, Rest(data, r1), out2, Rest(data, r2));
    }
    if out2 == out && Rest(data, r2) == Rest(data, r1) {
      assert |Pending(r)| == |Pending(r1)|;
      assert (Pending(r) + e)[..|Pending(r)|] == Pending(r);
      assert (Pending(r1) + e)[..|Pending(r)|] == Pending(r1);
    }
  }

  /** Sending block b again repeats its bytes and leaves the same bytes to come exactly when the boundaries
      before and after it cut off the same escape byte, or none: the second read starts from the escape
      state that the first one left. */
  lemma RereadFaithful(data: seq<byte>, size: nat, b: nat)
    ensures var r := After(data, size, b);
            var (out, r1) := Fill(data, r, size);
            var (out2, r2) := Fill(data, r1.(head := r.head), size);
            out2 == out && Rest(data, r2) == Rest(data, r1)
            <==> Owed(data, Min(b * size, |Encode(data)|)) == Owed(data, Min((b + 1) * size, |Encode(data)|))
  {
    hide Fill, Encode, Owed;
    AfterOwes(data, size, b);
    AfterOwes(data, size, b + 1);
    RereadFrom(data, After(data, size, b), size);
  }

  /** For every block size there are files that are garbled when the first block is sent again: the LF that
      belongs to the second block comes first. */
  lemma RereadGarbles(s: seq<byte>, t: seq<byte>, size: nat)
    requires |s| + 1 == size && IsPlain(s)
    ensures var data := s + [LF] + t;
            var (out, r) := Fill(data, START, size);
            out == s + [CR] && Fill(data, r.(head := 0), size).0 == [LF] + s
  {
    hide Fill, Encode;
    var data := s + [LF] + t;
    var (out, r) := Fill(data, START, size);
    LineEncoding(s, t);
    assert data[0..] == data;
    assert Rest(data, START) == (s + [CR]) + ([LF] + Encode(t));
    FillIsRest(data, START, size);
    SplitUnique(out, Rest(data, r), s + [CR], [LF] + Encode(t));
    AfterOwes(data, size, 1);
    assert After(data, size, 0) == START;
    OwedLine(s, t);
    var again := r.(head := 0);
    FillIsRest(data, again, size);
    assert Fill(data, again, size).0 == Rest(data, again)[..size];
    assert Rest(data, again) == [LF] + s + ([CR] + [LF] + Encode(t));
  }

  lemma {:induction false} OwedLine(s: seq<byte>, t: seq<byte>)
    requires IsPlain(s)
    ensures Owed(s + [LF] + t, |s| + 1) == [LF]
  {
    if s == [] {
      assert (s + [LF] + t)[0] == LF;
    } else {
      assert (s + [LF] + t)[1..] == s[1..] + [LF] + t;
      OwedLine(s[1..], t);
    }
  }

  /** Both failures with the smallest block size that a server accepts: seven ordinary bytes and LF. */
  lemma LineOfEightExample()
    ensures var line: seq<byte> := [97, 98, 99, 100, 101, 102, 103];
            && Concat(ServerBlocks(line + [LF], START, 8)) == line + [CR]
            && Encode(line + [LF]) == line + [CR] + [LF]
            && var r := Fill(line + [LF], START, 8).1;
               Fill(line + [LF], r.(head := 0), 8).0 == [LF] + line
  {
    hide Fill, Encode, Owed, ServerBlocks;
    var line: seq<byte> := [97, 98, 99, 100, 101, 102, 103];
    ServerStopsEarly(line, 8);
    RereadGarbles(line, [], 8);
    LineEncoding(line, []);
    assert line + [LF] + [] == line + [LF];
    EncodeEmpty([]);
  }

  lemma SplitUnique(a: seq<byte>, b: seq<byte>, c: seq<byte>, d: seq<byte>)
    requires a + b == c + d && |a| == |c|
    ensures a == c && b == d
  {
    assert (a + b)[..|a|] == a && (c + d)[..|c|] == c;
    assert (a + b)[|a|..] == b && (c + d)[|c|..] == d;
  }

  // ---------- the decoder ----------

  /** The file written so far, positioned at its end, and the last byte received. */
  datatype Writer = Writer(contents: seq<byte>, prevchar: byte)

  predicate WriterOk(w: Writer) {
    w.prevchar == CR ==> w.contents != []
  }

  /** One turn of the decoding loop: LF after CR overwrites the CR already written, NUL after CR is
      dropped, anything else is appended. */
  function WriteByte(w: Writer, c: byte): (w': Writer)
    requires WriterOk(w)
    ensures WriterOk(w')
  {
    var written :=
      if w.prevchar == CR && c == LF then w.contents[..|w.contents| - 1] + [LF]
      else if w.prevchar == CR && c == NUL then w.contents
      else w.contents + [c];
    Writer(written, c)
  }

  function WriteAll(w: Writer, s: seq<byte>): (w': Writer)
    requires WriterOk(w)
    ensures WriterOk(w')
    decreases |s|
  {
    if s == [] then w else WriteAll(WriteByte(w, s[0]), s[1..])
  }

  lemma {:induction false} WriteConcat(w: Writer, a: seq<byte>, b: seq<byte>)
    requires WriterOk(w)
    ensures WriteAll(w, a + b) == WriteAll(WriteAll(w, a), b)
    decreases |a|
  {
    if a == [] {
      assert a + b == b;
    } else {
      assert (a + b)[1..] == a[1..] + b;
      WriteConcat(WriteByte(w, a[0]), a[1..], b);
    }
  }

  /** Decoding as a function of the whole stream: CR LF is LF, CR NUL is CR, all else is itself. */
  function Decode(s: seq<byte>): seq<byte> {
    if s == [] then
      []
    else if |s| > 1 && s[0] == CR && s[1] == LF then
      [LF] + Decode(s[2..])
    else if |s| > 1 && s[0] == CR && s[1] == NUL then
      [CR] + Decode(s[2..])
    else
      [s[0]] + Decode(s[1..])
  }

  /** Decoding one byte, in front of a stream. */
  lemma DecodeStep(s: seq<byte>)
    requires s != []
    ensures s[0] != CR ==> Decode(s) == [s[0]] + Decode(s[1..])
    ensures var t := [CR] + s;
            Decode(t) == if s[0] == LF then [LF] + Decode(s[1..])
                         else if s[0] == NUL then [CR] + Decode(s[1..])
                         else [CR] + Decode(s)
  {
    var t := [CR] + s;
    assert t[1..] == s && t[2..] == s[1..];
  }

  /** For every byte stream, the overwriting decoder writes the decoding of the stream; in its
      mid-pair state it has provisionally written the CR. */
  lemma {:induction false} WriterDecodes(w: Writer, s: seq<byte>, kept: seq<byte>)
    requires WriterOk(w) && w.contents == if w.prevchar == CR then kept + [CR] else kept
    ensures WriteAll(w, s).contents == kept + Decode(if w.prevchar == CR then [CR] + s else s)
    decreases |s|, 1
  {
    if s == [] {
      assert ([CR] + s)[1..] == [];
    } else {
      DecodeStep(s);
      WriterDecodesStep(w, s, kept);
    }
  }

  lemma {:induction false} WriterDecodesStep(w: Writer, s: seq<byte>, kept: seq<byte>)
    requires WriterOk(w) && w.contents == (if w.prevchar == CR then kept + [CR] else kept) && s != []
    requires s[0] != CR ==> Decode(s) == [s[0]] + Decode(s[1..])
    requires Decode([CR] + s) == if s[0] == LF then [LF] + Decode(s[1..])
                                 else if s[0] == NUL then [CR] + Decode(s[1..])
                                 else [CR] + Decode(s)
    ensures WriteAll(w, s).contents == kept + Decode(if w.prevchar == CR then [CR] + s else s)
    decreases |s|, 0
  {
    hide Decode;
    var w' := WriteByte(w, s[0]);
    var kept' := if s[0] != CR then w'.contents else if w.prevchar == CR then kept + [CR] else kept;
    WriterDecodes(w', s[1..], kept');
    var d := Decode(s[1..]);
    if s[0] == CR {
      assert [CR] + s[1..] == s;
      Assoc(kept, [CR], Decode(s));
    } else if w.prevchar == CR {
      assert kept + [CR] == w.contents;
      Assoc(kept, [s[0]], d);
      Assoc(kept, [CR], d);
      Assoc(kept, [CR], [s[0]] + d);
      Assoc(kept + [CR], [s[0]], d);
    } else {
      Assoc(kept, [s[0]], d);
    }
  }

  lemma {:induction false} DecodeEncode(s: seq<byte>)
    ensures Decode(Encode(s)) == s
  {
    if s != [] {
      DecodeEncode(s[1..]);
      var e := EncodeByte(s[0]);
      assert (e + Encode(s[1..]))[|e|..] == Encode(s[1..]);
      assert |e| == 2 ==> (e + Encode(s[1..]))[2..] == Encode(s[1..]);
    }
  }

  const EMPTY := Writer([], NUL)

  function WriteBlocks(w: Writer, blocks: seq<seq<byte>>): (w': Writer)
    requires WriterOk(w)
    ensures WriterOk(w')
    decreases |blocks|
  {
    if blocks == [] then w else WriteBlocks(WriteAll(w, blocks[0]), blocks[1..])
  }

  lemma {:induction false} WriteBlocksConcat(w: Writer, blocks: seq<seq<byte>>)
    requires WriterOk(w)
    ensures WriteBlocks(w, blocks) == WriteAll(w, Concat(blocks))
    decreases |blocks|
  {
    if blocks != [] {
      WriteBlocksConcat(WriteAll(w, blocks[0]), blocks[1..]);
      WriteConcat(w, blocks[0], Concat(blocks[1..]));
    }
  }

  /** Round trip: for every file and every block size, the blocks read in order and written in order
      reproduce the file, wherever the block boundaries fall. */
  lemma NetasciiRoundTrip(data: seq<byte>, size: nat)
    requires size >= 1
    ensures WriteBlocks(EMPTY, Blocks(data, START, size)).contents == data
  {
    var bs := Blocks(data, START, size);
    BlocksAreEncoding(data, START, size);
    assert data[0..] == data;
    assert Rest(data, START) == Encode(data);
    WriteBlocksConcat(EMPTY, bs);
    WriterDecodes(EMPTY, Encode(data), []);
    DecodeEncode(data);
  }
}
