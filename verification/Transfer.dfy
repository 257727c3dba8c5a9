/** The server against a lock-step client over two FIFO channels that may lose and repeat packets. */
module Transfer {
  import opened Arith
  import opened Netascii
  import opened RFile
  import opened Sender

  /** A packet to the client, and one to the server. idx is a history variable, the true block number
      behind the 16-bit number; nobody reads it. */
  datatype Down = DownOack | DownData(num: u16, payload: seq<byte>, idx: nat)
  datatype Up = Up(num: u16, idx: nat)

  /** A client as in sections 2 and 6 of RFC 1350: count blocks accepted so far, in order. */
  datatype Client = Client(accepted: seq<byte>, count: nat)

  datatype System = System(server: Server, client: Client, down: seq<Down>, up: seq<Up>)

  const START_STATE := System(INITIAL, Client([], 0), [], [])

  /** The file has this many DATA blocks. */
  function Total(data: seq<byte>, size: nat): nat
    requires size >= 1
  {
    if data == [] then 1 else (|data| - 1) / size + 1
  }

  /** What the server puts on the wire. */
  function ToWire(sent: Sent, idx: nat): seq<Down> {
    match sent
    case Nothing => []
    case Oack => [DownOack]
    case Data(num, payload) => [DownData(num, payload, idx)]
  }

  // ---------- the client ----------

  function Accept(c: Client, payload: seq<byte>): Client {
    Client(c.accepted + payload, c.count + 1)
  }

  /** The next block is accepted and acknowledged; the last block again, or the option
      acknowledgement before any block, is acknowledged again; anything else is ignored. */
  function Receive(c: Client, d: Down): (Client, seq<Up>) {
    match d
    case DownOack => (c, if c.count == 0 then [Up(0, 0)] else [])
    case DownData(num, payload, _) =>
      if num == (c.count + 1) % WRAP then
        (Accept(c, payload), [Up((c.count + 1) % WRAP, c.count + 1)])
      else if c.count > 0 && num == c.count % WRAP then
        (c, [Up(c.count % WRAP, c.count)])
      else
        (c, [])
  }

  // ---------- steps ----------

  datatype Step =
    | ServerPass(ev: Event)     // any pass except one that takes an acknowledgement
    | ServerAck                 // a waiting server takes the first acknowledgement
    | ClientReceive             // the client takes the first packet
    | ClientTimeout             // the client repeats its last acknowledgement
    | LoseDown(i: nat)
    | LoseUp(i: nat)
    | RepeatDown(i: nat)        // a packet arrives twice in a row
    | RepeatUp(i: nat)

  function Without<T>(s: seq<T>, i: nat): seq<T>
    requires i < |s|
  {
    s[..i] + s[i + 1..]
  }

  function Twice<T>(s: seq<T>, i: nat): seq<T>
    requires i < |s|
  {
    s[..i + 1] + s[i..]
  }

  ghost predicate Next(s: System, s': System, step: Step, data: seq<byte>, size: nat, options: bool) {
    match step
    case ServerPass(ev) =>
      && !Over(s.server) && !(s.server.state == WAIT_PACKET && ev.Ack?)
      && var (server', sent) := Pass(s.server, ev, data, size, options);
         s' == s.(server := server', down := s.down + ToWire(sent, s.server.blockNumber + 1))
    case ServerAck =>
      && s.server.state == WAIT_PACKET && s.up != []
      && s' == s.(server := Pass(s.server, Ack(s.up[0].num), data, size, options).0, up := s.up[1..])
    case ClientReceive =>
      && s.down != []
      && var (client', acks) := Receive(s.client, s.down[0]);
         s' == s.(client := client', down := s.down[1..], up := s.up + acks)
    case ClientTimeout =>
      && s.client.count > 0
      && s' == s.(up := s.up + [Up(s.client.count % WRAP, s.client.count)])
    case LoseDown(i) => i < |s.down| && s' == s.(down := Without(s.down, i))
    case LoseUp(i) => i < |s.up| && s' == s.(up := Without(s.up, i))
    case RepeatDown(i) => i < |s.down| && s' == s.(down := Twice(s.down, i))
    case RepeatUp(i) => i < |s.up| && s' == s.(up := Twice(s.up, i))
  }

  /** The step does not hand the server a repeated acknowledgement numbered 0. */
  ghost predicate NoRepeatedZero(s: System, step: Step) {
    step.ServerAck? && s.up != [] ==> !RepeatedZero(s.server, s.up[0].num)
  }

  // ---------- the invariant ----------

  /** The first n blocks of the file. */
  function FirstBlocks(data: seq<byte>, size: nat, n: nat): seq<byte> {
    data[..Min(n * size, |data|)]
  }

  /** Numbers on the wire are those of blocks lo..hi, in order. */
  ghost predicate UpOk(up: seq<Up>, lo: nat, hi: nat) {
    && (forall i | 0 <= i < |up| :: lo <= up[i].idx <= hi && up[i].num == up[i].idx % WRAP)
    && (forall i, j | 0 <= i < j < |up| :: up[i].idx <= up[j].idx)
  }

  ghost predicate DownOk(down: seq<Down>, data: seq<byte>, size: nat, lo: nat, hi: nat) {
    && (forall i | 0 <= i < |down| && down[i].DownData? ::
          && lo <= down[i].idx <= hi && 1 <= down[i].idx
          && down[i].num == down[i].idx % WRAP && down[i].payload == BlockOf(data, size, down[i].idx - 1))
    && (forall i, j | 0 <= i < j < |down| && down[i].DownData? && down[j].DownData? :: down[i].idx <= down[j].idx)
  }

  ghost predicate ServerOk(s: Server, total: nat) {
    && Aligned(s)
    && (s.lastBlock == -1 || s.lastBlock == total - 1)
    && (!Over(s) ==> s.blockNumber < total)
    && (s.state == END && s.lastBlock != -1 && s.blockNumber > s.lastBlock ==> s.blockNumber == total)
  }

  /** The newest block the server can have sent: the last block of the file only once it is known to be
      the last. */
  function Newest(s: Server, total: nat): nat {
    if s.lastBlock == -1 && total > 0 then Min(s.blockNumber + 1, total - 1) else Min(s.blockNumber + 1, total)
  }

  ghost predicate Inv(s: System, data: seq<byte>, size: nat)
    requires size >= 1
  {
    var b, c, total := s.server.blockNumber, s.client.count, Total(data, size);
    && b <= c <= Newest(s.server, total)
    && ServerOk(s.server, total)
    && s.client.accepted == FirstBlocks(data, size, c)
    && UpOk(s.up, b, c)
    && DownOk(s.down, data, size, c, Newest(s.server, total))
  }

  // ---------- block arithmetic ----------

  lemma TotalBounds(data: seq<byte>, size: nat, k: nat)
    requires size >= 1
    ensures k < Total(data, size) ==> k * size <= |data|
    ensures k >= Total(data, size) <==> k >= 1 && k * size >= |data|
  {
    if data != [] {
      var q := (|data| - 1) / size;
      assert |data| - 1 == q * size + (|data| - 1) % size;
      if k <= q {
        MulMono(k, q, size);
      } else {
        MulMono(q + 1, k, size);
        assert (q + 1) * size == q * size + size;
      }
    } else if k >= 1 {
      MulMono(1, k, size);
    }
  }

  lemma MulMono(a: nat, b: nat, c: nat)
    requires a <= b
    ensures a * c <= b * c
  {
  }

  /** Reading a block of the file reaches the end exactly for the last block. */
  lemma EndAtLastBlock(data: seq<byte>, size: nat, k: nat)
    requires size >= 1 && k < Total(data, size)
    ensures AtEndAfter(data, size, k) <==> k == Total(data, size) - 1
  {
    TotalBounds(data, size, k);
    TotalBounds(data, size, k + 1);
    assert (k + 1) * size == k * size + size;
  }

  lemma NextFirstBlocks(data: seq<byte>, size: nat, k: nat)
    ensures FirstBlocks(data, size, k) + BlockOf(data, size, k) == FirstBlocks(data, size, k + 1)
  {
    assert (k + 1) * size == k * size + size;
  }

  lemma AllBlocksAreFile(data: seq<byte>, size: nat)
    requires size >= 1
    ensures FirstBlocks(data, size, Total(data, size)) == data
  {
    TotalBounds(data, size, Total(data, size));
  }

  /** The last block is shorter than the others, as the protocol's end-of-transfer rule needs, exactly
      when the file is not a positive multiple of the block size. */
  lemma LastBlockShortIff(data: seq<byte>, size: nat)
    requires size >= 1
    ensures |BlockOf(data, size, Total(data, size) - 1)| < size <==> data == [] || |data| % size != 0
  {
    if data == [] {
      assert BlockOf(data, size, 0) == [];
    } else {
      LastBlockLength(data, size);
      LastRemainder(|data|, size);
    }
  }

  lemma LastBlockLength(data: seq<byte>, size: nat)
    requires size >= 1 && data != []
    ensures |BlockOf(data, size, Total(data, size) - 1)| == (|data| - 1) % size + 1
  {
    var q := (|data| - 1) / size;
    assert |data| - 1 == q * size + (|data| - 1) % size;
  }

  lemma LastRemainder(n: nat, size: nat)
    requires size >= 1 && n >= 1
    ensures (n - 1) % size + 1 < size <==> n % size != 0
  {
    var q, m := (n - 1) / size, (n - 1) % size;
    assert n - 1 == q * size + m;
    if m + 1 < size {
      DivMod(n, size, q, m + 1);
    } else {
      assert (q + 1) * size == q * size + size;
      DivMod(n, size, q + 1, 0);
    }
  }

  // ---------- channels ----------

  lemma UpWithout(up: seq<Up>, i: nat, lo: nat, hi: nat)
    requires UpOk(up, lo, hi) && i < |up|
    ensures UpOk(Without(up, i), lo, hi) && UpOk(Twice(up, i), lo, hi)
  {
  }

  lemma UpSnoc(up: seq<Up>, lo: nat, hi: nat, hi': nat)
    requires UpOk(up, lo, hi) && lo <= hi' && hi <= hi'
    ensures UpOk(up + [Up(hi' % WRAP, hi')], lo, hi')
  {
  }

  lemma DownWiden(down: seq<Down>, data: seq<byte>, size: nat, lo: nat, hi: nat, hi': nat)
    requires DownOk(down, data, size, lo, hi) && hi <= hi'
    ensures DownOk(down, data, size, lo, hi')
  {
  }

  lemma DownWithout(down: seq<Down>, i: nat, data: seq<byte>, size: nat, lo: nat, hi: nat)
    requires DownOk(down, data, size, lo, hi) && i < |down|
    ensures DownOk(Without(down, i), data, size, lo, hi)
  {
  }

  lemma DownTwice(down: seq<Down>, i: nat, data: seq<byte>, size: nat, lo: nat, hi: nat)
    requires DownOk(down, data, size, lo, hi) && i < |down|
    ensures DownOk(Twice(down, i), data, size, lo, hi)
  {
  }

  lemma DownOackSnoc(down: seq<Down>, data: seq<byte>, size: nat, lo: nat, hi: nat)
    requires DownOk(down, data, size, lo, hi)
    ensures DownOk(down + [DownOack], data, size, lo, hi)
  {
  }

  lemma DownSnoc(down: seq<Down>, data: seq<byte>, size: nat, lo: nat, hi: nat, hi': nat)
    requires DownOk(down, data, size, lo, hi) && 1 <= hi' && lo <= hi' && hi <= hi'
    ensures DownOk(down + [DownData(hi' % WRAP, BlockOf(data, size, hi' - 1), hi')], data, size, lo, hi')
  {
  }

  // ---------- every step keeps the invariant ----------

  lemma StartInv(data: seq<byte>, size: nat)
    requires size >= 1
    ensures Inv(START_STATE, data, size)
  {
    assert FirstBlocks(data, size, 0) == [];
  }

  lemma ServerPassInv(s: System, s': System, ev: Event, data: seq<byte>, size: nat, options: bool)
    requires size >= 1 && Inv(s, data, size) && Next(s, s', ServerPass(ev), data, size, options)
    ensures Inv(s', data, size)
  {
    hide UpOk, DownOk, FirstBlocks, Total, AtEndAfter, BlockOf;
    var b, total := s.server.blockNumber, Total(data, size);
    EndAtLastBlock(data, size, b);
    var c, newest := s.client.count, Newest(s'.server, total);
    DownWiden(s.down, data, size, c, Newest(s.server, total), newest);
    if s.server.state == SEND_DATA {
      DownSnoc(s.down, data, size, c, newest, b + 1);
    } else if s.server.state == SEND_OACK {
      DownOackSnoc(s.down, data, size, c, newest);
    } else {
      assert s.down + [] == s.down;
    }
  }

  lemma ServerAckInv(s: System, s': System, data: seq<byte>, size: nat, options: bool)
    requires size >= 1 && Inv(s, data, size) && Next(s, s', ServerAck, data, size, options)
    requires NoRepeatedZero(s, ServerAck)
    ensures Inv(s', data, size)
  {
    hide FirstBlocks, Total, BlockOf, DownOk;
    var total := Total(data, size);
    AckNumberTrueIff(s.server, s.up[0].idx);
    DownWiden(s.down, data, size, s.client.count, Newest(s.server, total), Newest(s'.server, total));
  }

  /** Within the window the invariant allows, the client reads the true number off the 16-bit one. */
  lemma NumberInWindow(count: nat, idx: nat)
    requires count <= idx <= count + 1
    ensures idx % WRAP == (count + 1) % WRAP <==> idx == count + 1
  {
    NextLow16(count);
  }

  lemma ClientReceiveInv(s: System, s': System, data: seq<byte>, size: nat, options: bool)
    requires size >= 1 && Inv(s, data, size) && Next(s, s', ClientReceive, data, size, options)
    ensures Inv(s', data, size)
  {
    hide FirstBlocks, Total, BlockOf, ServerOk, UpOk;
    var b, c := s.server.blockNumber, s.client.count;
    NextFirstBlocks(data, size, c);
    assert s.up + [] == s.up;
    if s.down[0].DownData? {
      NumberInWindow(c, s.down[0].idx);
      UpSnoc(s.up, b, c, s'.client.count);
    } else {
      UpSnoc(s.up, b, c, c);
    }
  }

  lemma StepInv(s: System, s': System, step: Step, data: seq<byte>, size: nat, options: bool)
    requires size >= 1 && Inv(s, data, size) && Next(s, s', step, data, size, options)
    requires NoRepeatedZero(s, step)
    ensures Inv(s', data, size)
  {
    var b, c, total := s.server.blockNumber, s.client.count, Total(data, size);
    match step
    case ServerPass(ev) => ServerPassInv(s, s', ev, data, size, options);
    case ServerAck => ServerAckInv(s, s', data, size, options);
    case ClientReceive => ClientReceiveInv(s, s', data, size, options);
    case ClientTimeout => UpSnoc(s.up, b, c, c);
    case LoseDown(i) => DownWithout(s.down, i, data, size, c, Newest(s.server, total));
    case LoseUp(i) => UpWithout(s.up, i, b, c);
    case RepeatDown(i) => DownTwice(s.down, i, data, size, c, Newest(s.server, total));
    case RepeatUp(i) => UpWithout(s.up, i, b, c);
  }

  // ---------- runs ----------

  datatype Run = Run(states: seq<System>, steps: seq<Step>)

  ghost predicate IsRun(run: Run, data: seq<byte>, size: nat, options: bool) {
    && |run.states| == |run.steps| + 1
    && run.states[0] == START_STATE
    && forall k | 0 <= k < |run.steps| :: Next(run.states[k], run.states[k + 1], run.steps[k], data, size, options)
  }

  ghost predicate RunNoRepeatedZero(run: Run)
    requires |run.states| == |run.steps| + 1
  {
    forall k | 0 <= k < |run.steps| :: NoRepeatedZero(run.states[k], run.steps[k])
  }

  /** What every state promises: the counts stay in lock step, the client holds a prefix of the file,
      and a server that ended on an acknowledgement leaves a client with the whole file. */
  ghost predicate Delivered(s: System, data: seq<byte>, size: nat)
    requires size >= 1
  {
    && s.server.blockNumber <= s.client.count <= s.server.blockNumber + 1
    && s.client.accepted == FirstBlocks(data, size, s.client.count)
    && (s.server.state == END && s.server.lastBlock != -1 && s.server.blockNumber > s.server.lastBlock ==>
          s.client.accepted == data)
  }

  /** The first k steps of the run hand the server no repeated acknowledgement numbered 0. */
  ghost predicate QuietUntil(run: Run, k: nat)
    requires k <= |run.steps| && |run.states| == |run.steps| + 1
  {
    forall j | 0 <= j < k :: NoRepeatedZero(run.states[j], run.steps[j])
  }

  lemma {:induction false} RunInv(run: Run, data: seq<byte>, size: nat, options: bool, k: nat)
    requires size >= 1 && IsRun(run, data, size, options) && k < |run.states| && QuietUntil(run, k)
    ensures Inv(run.states[k], data, size)
  {
    hide Inv;
    if k == 0 {
      StartInv(data, size);
    } else {
      RunInv(run, data, size, options, k - 1);
      StepInv(run.states[k - 1], run.states[k], run.steps[k - 1], data, size, options);
    }
  }

  lemma InvDelivers(s: System, data: seq<byte>, size: nat)
    requires size >= 1 && Inv(s, data, size)
    ensures Delivered(s, data, size)
  {
    AllBlocksAreFile(data, size);
    hide UpOk, DownOk, FirstBlocks;
  }

  /** Files of any length: delivery holds in every state of every run in which the server is never
      handed a repeated acknowledgement numbered 0. */
  lemma TransferSafe(run: Run, data: seq<byte>, size: nat, options: bool, k: nat)
    requires size >= 1 && IsRun(run, data, size, options) && RunNoRepeatedZero(run) && k < |run.states|
    ensures Delivered(run.states[k], data, size)
  {
    RunInv(run, data, size, options, k);
    InvDelivers(run.states[k], data, size);
  }

  /** A repeated acknowledgement numbered 0 puts the server ahead of its client. */
  lemma RepeatedZeroBreaks(s: System, s': System, step: Step, data: seq<byte>, size: nat, options: bool)
    requires size >= 1 && Inv(s, data, size) && Next(s, s', step, data, size, options) && !NoRepeatedZero(s, step)
    ensures s'.server.blockNumber == s.server.blockNumber + WRAP > s'.client.count + 1
    ensures !Delivered(s', data, size)
  {
    hide FirstBlocks, Total, BlockOf, DownOk, UpOk;
  }

  lemma {:induction false} FirstRepeatedZero(run: Run, n: nat) returns (k: nat)
    requires |run.states| == |run.steps| + 1 && n <= |run.steps| && !QuietUntil(run, n)
    ensures k < n && QuietUntil(run, k) && !NoRepeatedZero(run.states[k], run.steps[k])
    decreases n
  {
    if QuietUntil(run, n - 1) {
      k := n - 1;
    } else {
      k := FirstRepeatedZero(run, n - 1);
    }
  }

  /** Files of any length: a run delivers in all its states exactly when the server is never handed a
      repeated acknowledgement numbered 0. */
  lemma RunDeliversIff(run: Run, data: seq<byte>, size: nat, options: bool)
    requires size >= 1 && IsRun(run, data, size, options)
    ensures (forall k | 0 <= k < |run.states| :: Delivered(run.states[k], data, size)) <==> RunNoRepeatedZero(run)
  {
    hide Delivered, NoRepeatedZero;
    if RunNoRepeatedZero(run) {
      forall k | 0 <= k < |run.states| ensures Delivered(run.states[k], data, size) {
        TransferSafe(run, data, size, options, k);
      }
    } else {
      var k := FirstRepeatedZero(run, |run.steps|);
      RunInv(run, data, size, options, k);
      RepeatedZeroBreaks(run.states[k], run.states[k + 1], run.steps[k], data, size, options);
    }
  }

  lemma SmallNoRepeatedZero(s: System, step: Step, data: seq<byte>, size: nat)
    requires size >= 1 && Inv(s, data, size) && Total(data, size) <= WRAP
    requires step.ServerAck? ==> s.server.state == WAIT_PACKET
    ensures NoRepeatedZero(s, step)
  {
  }

  lemma {:induction false} SmallRunInv(run: Run, data: seq<byte>, size: nat, options: bool, k: nat)
    requires size >= 1 && IsRun(run, data, size, options) && Total(data, size) <= WRAP && k < |run.states|
    ensures Inv(run.states[k], data, size)
  {
    hide Inv, NoRepeatedZero;
    if k == 0 {
      StartInv(data, size);
    } else {
      SmallRunInv(run, data, size, options, k - 1);
      assert Next(run.states[k - 1], run.states[k - 1 + 1], run.steps[k - 1], data, size, options);
      SmallNoRepeatedZero(run.states[k - 1], run.steps[k - 1], data, size);
      StepInv(run.states[k - 1], run.states[k], run.steps[k - 1], data, size, options);
    }
  }

  /** Files of at most 65536 blocks: delivery holds in every state of every run. */
  lemma SmallTransferSafe(run: Run, data: seq<byte>, size: nat, options: bool, k: nat)
    requires size >= 1 && IsRun(run, data, size, options) && Total(data, size) <= WRAP && k < |run.states|
    ensures Delivered(run.states[k], data, size)
  {
    SmallRunInv(run, data, size, options, k);
    InvDelivers(run.states[k], data, size);
  }
}
