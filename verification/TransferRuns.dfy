/** Particular runs of the transfer: the one without loss, and the one that goes wrong. */
module TransferRuns {
  import opened Netascii
  import opened RFile
  import opened Sender
  import opened Transfer

  function Last(run: Run): System
    requires run.states != []
  {
    run.states[|run.states| - 1]
  }

  function Grow(run: Run, step: Step, s: System): Run {
    Run(run.states + [s], run.steps + [step])
  }

  lemma GrowIsRun(run: Run, step: Step, s: System, data: seq<byte>, size: nat, options: bool)
    requires IsRun(run, data, size, options) && Next(Last(run), s, step, data, size, options)
    ensures IsRun(Grow(run, step, s), data, size, options) && Last(Grow(run, step, s)) == s
  {
    hide Next;
    var run' := Grow(run, step, s);
    forall k | 0 <= k < |run'.steps|
      ensures Next(run'.states[k], run'.states[k + 1], run'.steps[k], data, size, options)
    {
      if k == |run.steps| {
        assert run'.states[k] == Last(run);
      }
    }
  }

  // ---------- the run without loss ----------

  /** n blocks have been accepted and acknowledged, and nothing is in transit. */
  predicate AtBlock(s: System, data: seq<byte>, size: nat, n: nat)
    requires size >= 1 && n <= Total(data, size)
  {
    && s.client == Client(FirstBlocks(data, size, n), n) && s.down == [] && s.up == []
    && s.server.blockNumber == n && Aligned(s.server)
    && s.server.lastBlock == (if n == Total(data, size) then n - 1 else -1)
    && s.server.state == (if n == Total(data, size) then END else SEND_DATA)
  }

  /** Up to the first DATA packet, through the option acknowledgement if there is one. */
  lemma Opening(data: seq<byte>, size: nat, options: bool) returns (run: Run)
    requires size >= 1
    ensures IsRun(run, data, size, options) && AtBlock(Last(run), data, size, 0)
  {
    run := Run([START_STATE], []);
    var s1 := START_STATE.(server := Pass(INITIAL, Discarded, data, size, options).0);
    assert s1.down == [] + [];
    GrowIsRun(run, ServerPass(Discarded), s1, data, size, options);
    run := Grow(run, ServerPass(Discarded), s1);
    if options {
      var s2 := s1.(server := Pass(s1.server, Discarded, data, size, options).0, down := [] + [DownOack]);
      GrowIsRun(run, ServerPass(Discarded), s2, data, size, options);
      run := Grow(run, ServerPass(Discarded), s2);
      var s3 := s2.(down := s2.down[1..], up := [] + [Up(0, 0)]);
      GrowIsRun(run, ClientReceive, s3, data, size, options);
      run := Grow(run, ClientReceive, s3);
      var s4 := s3.(server := AfterAck(s3.server, 0), up := s3.up[1..]);
      GrowIsRun(run, ServerAck, s4, data, size, options);
      run := Grow(run, ServerAck, s4);
    }
  }

  /** Block n has been sent and accepted, and its acknowledgement is on its way back. */
  predicate Acknowledged(s: System, s0: System, data: seq<byte>, size: nat, n: nat)
    requires size >= 1 && n < Total(data, size)
  {
    && s.client == Client(FirstBlocks(data, size, n + 1), n + 1) && s.down == [] && s.up == [Up((n + 1) % WRAP, n + 1)]
    && s.server == s0.server.(state := WAIT_PACKET, timeoutState := SEND_DATA,
                              lastBlock := if n == Total(data, size) - 1 then n else -1)
  }

  lemma SendBlock(run: Run, data: seq<byte>, size: nat, options: bool, n: nat) returns (run': Run)
    requires size >= 1 && n < Total(data, size) && IsRun(run, data, size, options)
    requires AtBlock(Last(run), data, size, n)
    ensures IsRun(run', data, size, options) && Acknowledged(Last(run'), Last(run), data, size, n)
  {
    EndAtLastBlock(data, size, n);
    NextFirstBlocks(data, size, n);
    hide AtEndAfter, Total, FirstBlocks, BlockOf, IsRun;
    var s0 := Last(run);
    var (server, sent) := Pass(s0.server, Discarded, data, size, options);
    var s1 := s0.(server := server, down := s0.down + ToWire(sent, n + 1));
    GrowIsRun(run, ServerPass(Discarded), s1, data, size, options);
    run' := Grow(run, ServerPass(Discarded), s1);
    var (client, acks) := Receive(s1.client, s1.down[0]);
    var s2 := s1.(client := client, down := s1.down[1..], up := s1.up + acks);
    GrowIsRun(run', ClientReceive, s2, data, size, options);
    run' := Grow(run', ClientReceive, s2);
  }

  lemma {:induction false} Lossless(data: seq<byte>, size: nat, options: bool, n: nat) returns (run: Run)
    requires size >= 1 && n <= Total(data, size)
    ensures IsRun(run, data, size, options) && AtBlock(Last(run), data, size, n)
  {
    if n == 0 {
      run := Opening(data, size, options);
    } else {
      run := Lossless(data, size, options, n - 1);
      run := SendBlock(run, data, size, options, n - 1);
      hide Total, FirstBlocks, IsRun;
      var s := Last(run);
      AckNumberTrueIff(s.server, n);
      var s' := s.(server := AfterAck(s.server, n % WRAP), up := s.up[1..]);
      GrowIsRun(run, ServerAck, s', data, size, options);
      run := Grow(run, ServerAck, s');
    }
  }

  /** When nothing is lost the transfer ends, on the last acknowledgement, with the whole file delivered. */
  lemma LosslessDelivers(data: seq<byte>, size: nat, options: bool) returns (run: Run)
    requires size >= 1
    ensures IsRun(run, data, size, options)
    ensures Last(run).server.state == END && Last(run).client.accepted == data
  {
    run := Lossless(data, size, options, Total(data, size));
    AllBlocksAreFile(data, size);
  }

  // ---------- the run with a repeated acknowledgement ----------

  /** The acknowledgement of block 65536 arrives twice, and is counted once. */
  lemma AcknowledgedTwice(data: seq<byte>, size: nat, options: bool) returns (run: Run)
    requires size >= 1 && Total(data, size) > WRAP
    ensures IsRun(run, data, size, options)
    ensures var s := Last(run);
            && s.server.state == SEND_DATA && s.server.blockNumber == s.server.wraparoundOffset == WRAP
            && s.server.lastBlock == -1 && s.client == Client(FirstBlocks(data, size, WRAP), WRAP)
            && s.down == [] && s.up == [Up(0, WRAP)]
  {
    run := Lossless(data, size, options, WRAP - 1);
    run := SendBlock(run, data, size, options, WRAP - 1);
    hide Total, FirstBlocks, IsRun, AtEndAfter, BlockOf;
    var s0 := Last(run);
    var s1 := s0.(up := Twice(s0.up, 0));
    GrowIsRun(run, RepeatUp(0), s1, data, size, options);
    run := Grow(run, RepeatUp(0), s1);
    assert s1.up == [Up(0, WRAP), Up(0, WRAP)];
    var s2 := s1.(server := AfterAck(s1.server, 0), up := s1.up[1..]);
    GrowIsRun(run, ServerAck, s2, data, size, options);
    run := Grow(run, ServerAck, s2);
  }

  /** How much the client has: the first 65536 blocks, and the server's blocks from number 131072 up to b. */
  function AheadBytes(data: seq<byte>, size: nat, b: nat): int {
    WRAP * size + Min(b * size, |data|) - Min(2 * WRAP * size, |data|)
  }

  lemma AheadBytesAre(data: seq<byte>, size: nat, b: nat)
    ensures AheadBytes(data, size, 2 * WRAP) == WRAP * size
    ensures AheadBytes(data, size, b + 1) == AheadBytes(data, size, b) + |BlockOf(data, size, b)|
    ensures WRAP * size < |data| && size >= 1 ==> AheadBytes(data, size, b) < |data|
  {
    assert (b + 1) * size == b * size + size;
    assert 2 * WRAP * size == WRAP * size + WRAP * size;
  }

  /** The server is a whole wrap-around ahead of its client, and nothing is in transit. */
  predicate Ahead(s: System, data: seq<byte>, size: nat, b: nat) {
    && 2 * WRAP <= b && s.down == [] && s.up == []
    && s.server.blockNumber == b && s.client.count == b - WRAP && Aligned(s.server)
    && |s.client.accepted| == AheadBytes(data, size, b)
  }

  /** The server ended because it took the last block for acknowledged. */
  predicate EndedOnAck(s: System) {
    s.server.state == END && s.server.lastBlock != -1 && s.server.blockNumber > s.server.lastBlock
  }

  /** The acknowledgement of block 65536 counted a second time; the packet sent in between is lost. */
  lemma CountedTwice(data: seq<byte>, size: nat, options: bool) returns (run: Run)
    requires size >= 1 && Total(data, size) > WRAP
    ensures IsRun(run, data, size, options) && Ahead(Last(run), data, size, 2 * WRAP)
    ensures var v := Last(run).server;
            if Total(data, size) == WRAP + 1 then EndedOnAck(Last(run)) else v.state == SEND_DATA && v.lastBlock == -1
  {
    run := AcknowledgedTwice(data, size, options);
    EndAtLastBlock(data, size, WRAP);
    FirstLength(data, size);
    AheadBytesAre(data, size, 2 * WRAP);
    hide Total, FirstBlocks, IsRun, AtEndAfter, BlockOf, AheadBytes;
    var s2 := Last(run);
    var (server, sent) := Pass(s2.server, Discarded, data, size, options);
    var s3 := s2.(server := server, down := s2.down + ToWire(sent, WRAP + 1));
    GrowIsRun(run, ServerPass(Discarded), s3, data, size, options);
    run := Grow(run, ServerPass(Discarded), s3);
    var s4 := s3.(down := Without(s3.down, 0));
    GrowIsRun(run, LoseDown(0), s4, data, size, options);
    run := Grow(run, LoseDown(0), s4);
    var s5 := s4.(server := AfterAck(s4.server, 0), up := s4.up[1..]);
    GrowIsRun(run, ServerAck, s5, data, size, options);
    run := Grow(run, ServerAck, s5);
  }

  lemma FirstLength(data: seq<byte>, size: nat)
    requires size >= 1 && Total(data, size) > WRAP
    ensures |FirstBlocks(data, size, WRAP)| == WRAP * size < |data|
  {
    TotalBounds(data, size, WRAP);
  }

  lemma EndFrom(data: seq<byte>, size: nat, b: nat)
    requires size >= 1
    ensures AtEndAfter(data, size, b) <==> b >= Total(data, size) - 1
  {
    if b < Total(data, size) {
      EndAtLastBlock(data, size, b);
    } else {
      TotalBounds(data, size, b);
    }
  }

  /** Block b, in the server's count, has been sent and accepted; its acknowledgement is on its way back. */
  predicate AheadWaiting(s: System, data: seq<byte>, size: nat, b: nat)
    requires size >= 1
  {
    && 2 * WRAP <= b && s.down == [] && s.up == [Up((b + 1 - WRAP) % WRAP, b + 1 - WRAP)]
    && s.client.count == b + 1 - WRAP && |s.client.accepted| == AheadBytes(data, size, b + 1)
    && s.server.state == WAIT_PACKET && s.server.blockNumber == b && Aligned(s.server)
    && s.server.lastBlock == if b >= Total(data, size) - 1 then b else -1
  }

  lemma AheadSend(run: Run, data: seq<byte>, size: nat, options: bool, b: nat) returns (run': Run)
    requires size >= 1 && IsRun(run, data, size, options) && Ahead(Last(run), data, size, b)
    requires Last(run).server.state == SEND_DATA && Last(run).server.lastBlock == -1
    ensures IsRun(run', data, size, options) && AheadWaiting(Last(run'), data, size, b)
  {
    EndFrom(data, size, b);
    AheadBytesAre(data, size, b);
    SameNumber(b + 1);
    var s0 := Last(run);
    var (server, sent) := Pass(s0.server, Discarded, data, size, options);
    var packet := DownData((b + 1) % WRAP, BlockOf(data, size, b), b + 1);
    Accepts(s0.client, packet);
    hide AtEndAfter, Total, BlockOf, IsRun, AheadBytes, Receive;
    var s1 := s0.(server := server, down := s0.down + ToWire(sent, b + 1));
    GrowIsRun(run, ServerPass(Discarded), s1, data, size, options);
    run' := Grow(run, ServerPass(Discarded), s1);
    assert s1.down == [packet] && s1.down[1..] == [];
    var (client, acks) := Receive(s1.client, packet);
    var s2 := s1.(client := client, down := s1.down[1..], up := s1.up + acks);
    GrowIsRun(run', ClientReceive, s2, data, size, options);
    run' := Grow(run', ClientReceive, s2);
  }

  lemma Accepts(c: Client, packet: Down)
    requires packet.DownData? && packet.num == (c.count + 1) % WRAP
    ensures Receive(c, packet) == (Accept(c, packet.payload), [Up((c.count + 1) % WRAP, c.count + 1)])
  {
  }

  /** One more block goes over without loss, and neither side notices. */
  lemma AheadBlock(run: Run, data: seq<byte>, size: nat, options: bool, b: nat) returns (run': Run)
    requires size >= 1 && IsRun(run, data, size, options) && Ahead(Last(run), data, size, b)
    requires Last(run).server.state == SEND_DATA && Last(run).server.lastBlock == -1
    ensures IsRun(run', data, size, options) && Ahead(Last(run'), data, size, b + 1)
    ensures var v := Last(run').server;
            if b >= Total(data, size) - 1 then EndedOnAck(Last(run')) else v.state == SEND_DATA && v.lastBlock == -1
  {
    hide Total, AheadBytes, Ahead;
    run' := AheadSend(run, data, size, options, b);
    SameNumber(b + 1);
    var s2 := Last(run');
    AckNumberTrueIff(s2.server, b + 1);
    var s3 := s2.(server := AfterAck(s2.server, s2.up[0].num), up := s2.up[1..]);
    GrowIsRun(run', ServerAck, s3, data, size, options);
    run' := Grow(run', ServerAck, s3);
    assert Ahead(s3, data, size, b + 1) by { AheadIs(s3, data, size, b + 1); }
  }

  lemma AheadIs(s: System, data: seq<byte>, size: nat, b: nat)
    requires 2 * WRAP <= b && s.down == [] && s.up == [] && s.server.blockNumber == b && s.client.count == b - WRAP
    requires Aligned(s.server) && |s.client.accepted| == AheadBytes(data, size, b)
    ensures Ahead(s, data, size, b)
  {
  }

  lemma SameNumber(b: nat)
    requires b >= WRAP
    ensures (b - WRAP) % WRAP == b % WRAP
  {
  }

  lemma {:induction false} ToTheEnd(run: Run, data: seq<byte>, size: nat, options: bool, b: nat) returns (run': Run)
    requires size >= 1 && IsRun(run, data, size, options) && Ahead(Last(run), data, size, b)
    requires Last(run).server.state == SEND_DATA && Last(run).server.lastBlock == -1
    ensures IsRun(run', data, size, options) && EndedOnAck(Last(run'))
    ensures exists e :: Ahead(Last(run'), data, size, e)
    decreases Total(data, size) - b
  {
    hide Total, IsRun, Ahead;
    run' := AheadBlock(run, data, size, options, b);
    if b < Total(data, size) - 1 {
      run' := ToTheEnd(run', data, size, options, b + 1);
    }
  }

  /** For every file of more than 65536 blocks there is a run in which the server ends as if the whole file
      had been acknowledged, and the client has less than the file. */
  lemma RepeatedZeroShortens(data: seq<byte>, size: nat, options: bool) returns (run: Run)
    requires size >= 1 && Total(data, size) > WRAP
    ensures IsRun(run, data, size, options) && EndedOnAck(Last(run))
    ensures |Last(run).client.accepted| < |data|
  {
    FirstLength(data, size);
    run := CountedTwice(data, size, options);
    if Total(data, size) > WRAP + 1 {
      run := ToTheEnd(run, data, size, options, 2 * WRAP);
    }
    var e :| Ahead(Last(run), data, size, e);
    AheadBytesAre(data, size, e);
  }

  /** A server that ends on an acknowledgement leaves a client with the whole file, in every run whatever is
      lost or repeated, exactly for files of at most 65536 blocks. */
  lemma DeliveryIff(data: seq<byte>, size: nat, options: bool)
    requires size >= 1
    ensures (forall run, k | IsRun(run, data, size, options) && 0 <= k < |run.states| ::
               EndedOnAck(run.states[k]) ==> run.states[k].client.accepted == data)
       <==> Total(data, size) <= 65536
  {
    if Total(data, size) <= WRAP {
      forall run, k | IsRun(run, data, size, options) && 0 <= k < |run.states|
        ensures EndedOnAck(run.states[k]) ==> run.states[k].client.accepted == data
      {
        SmallTransferSafe(run, data, size, options, k);
      }
    } else {
      var run := RepeatedZeroShortens(data, size, options);
      assert run.states[|run.states| - 1] == Last(run);
    }
  }
}
