/** The server's send loop for one octet-mode unicast client: the state machine as a function of one
    pass of the loop, and the object whose fields the passes update. */
module Sender {
  import opened Netascii
  import opened RFile

  const NB_OF_RETRY := 5
  const WRAP := 0x10000

  type u16 = x: int | 0 <= x < WRAP

  datatype Mode = BEGIN | SEND_OACK | SEND_DATA | WAIT_PACKET | ABORT | END

  /** What a wait for a packet can bring. The socket is connected to the client, which keeps everybody
      else's packets out; Discarded is a packet of no known kind. */
  datatype Event =
    | Timeout
    | Ack(num: u16)
    | Error
    | Discarded
    | SocketError

  /** What a pass can send; a DATA packet carries the low 16 bits of its number. */
  datatype Sent = Nothing | Oack | Data(num: u16, payload: seq<byte>)

  /** The variables of the send loop. */
  datatype Server = Server(state: Mode, timeoutState: Mode, blockNumber: nat, wraparoundOffset: nat,
                           lastBlock: int, timeouts: nat)

  const INITIAL := Server(BEGIN, BEGIN, 0, 0, -1, 0)

  /** Reading block k leaves the file position at the end. */
  predicate AtEndAfter(data: seq<byte>, size: nat, k: nat) {
    Min(k * size, |data|) + |BlockOf(data, size, k)| >= |data|
  }

  /** The transfer is over: a pass in one of these modes returns. */
  predicate Over(s: Server) {
    s.state == ABORT || s.state == END
  }

  /** An acknowledgement from the client: the number is adopted as it stands, on top of an offset that
      grows at every number 0 except the first. */
  function AfterAck(s: Server, num: u16): Server {
    var offset := s.wraparoundOffset + if num == 0 && s.blockNumber != 0 then WRAP else 0;
    var block := offset + num;
    s.(timeouts := 0, wraparoundOffset := offset, blockNumber := block,
       state := if s.lastBlock != -1 && block > s.lastBlock then END else SEND_DATA)
  }

  /** One pass of the loop. The event matters only when waiting. */
  function Pass(s: Server, ev: Event, data: seq<byte>, size: nat, options: bool): (Server, Sent)
    requires !Over(s)
  {
    match s.state
    case BEGIN => (s.(state := if options then SEND_OACK else SEND_DATA), Nothing)
    case SEND_OACK => (s.(timeoutState := SEND_OACK, state := WAIT_PACKET), Oack)
    case SEND_DATA =>
      (s.(timeoutState := SEND_DATA, state := WAIT_PACKET,
          lastBlock := if AtEndAfter(data, size, s.blockNumber) then s.blockNumber else s.lastBlock),
       Data((s.blockNumber + 1) % WRAP, BlockOf(data, size, s.blockNumber)))
    case WAIT_PACKET =>
      (match ev
       case Timeout =>
         s.(timeouts := s.timeouts + 1,
            state := if s.timeouts + 1 > NB_OF_RETRY then END else s.timeoutState)
       case Ack(num) => AfterAck(s, num)
       case Error => s.(state := ABORT)
       case Discarded => s
       case SocketError => s.(state := ABORT),
       Nothing)
  }

  class TftpSender {
    const fp: RFile
    const buffer: array<byte>
    const size: nat
    const options: bool
    const st: CodecState
    var state: Mode
    var timeoutState: Mode
    var blockNumber: nat
    var wraparoundOffset: nat
    var lastBlock: int
    var numberOfTimeout: nat

    ghost predicate Valid()
      reads this, fp
    {
      fp.Valid() && size == buffer.Length
    }

    ghost function Value(): Server
      reads this
    {
      Server(state, timeoutState, blockNumber, wraparoundOffset, lastBlock, numberOfTimeout)
    }

    /** A server for one file; options says whether the request carried options to acknowledge. */
    constructor (file: RFile, blksize: nat, opts: bool)
      requires file.Valid()
      ensures Valid() && fp == file && size == blksize && options == opts && Value() == INITIAL
      ensures fresh(st) && fresh(buffer)
    {
      fp, size, options := file, blksize, opts;
      buffer := new byte[blksize];
      st := new CodecState();
      state, timeoutState, blockNumber, wraparoundOffset, lastBlock, numberOfTimeout := BEGIN, BEGIN, 0, 0, -1, 0;
    }

    /** One pass of the loop: the fields change, and the packet is sent, as the function says. */
    method OnePass(ev: Event) returns (sent: Sent)
      requires Valid() && !Over(Value())
      modifies this, fp, buffer, st
      ensures Valid()
      ensures (Value(), sent) == Pass(old(Value()), ev, fp.data, size, options)
    {
      sent := Nothing;
      match state
      case BEGIN =>
        state := if options then SEND_OACK else SEND_DATA;
      case SEND_OACK =>
        timeoutState := state;
        sent := Oack;
        state := WAIT_PACKET;
      case SEND_DATA =>
        timeoutState := state;
        var dataSize := fp.RfileRead(buffer, size, blockNumber, false, st);
        if fp.Feof() {
          lastBlock := blockNumber;
        }
        sent := Data((blockNumber + 1) % WRAP, buffer[..dataSize]);
        state := WAIT_PACKET;
      case WAIT_PACKET =>
        match ev {
          case Timeout =>
            numberOfTimeout := numberOfTimeout + 1;
            if numberOfTimeout > NB_OF_RETRY {
              state := END;
            } else {
              state := timeoutState;
            }
          case Ack(recvNumber) =>
            numberOfTimeout := 0;
            if recvNumber == 0 && blockNumber != 0 {
              wraparoundOffset := wraparoundOffset + WRAP;
            }
            blockNumber := wraparoundOffset + recvNumber;
            if lastBlock != -1 && blockNumber > lastBlock {
              state := END;
            } else {
              state := SEND_DATA;
            }
          case Error => state := ABORT;
          case Discarded =>
          case SocketError => state := ABORT;
        }
    }
  }

  // ---------- block numbers ----------

  /** The offset is the part of the block number above its low 16 bits. */
  predicate Aligned(s: Server) {
    s.wraparoundOffset == s.blockNumber - s.blockNumber % WRAP
  }

  /** An acknowledgement numbered 0 that repeats the one the server has already counted. */
  predicate RepeatedZero(s: Server, num: u16) {
    num == 0 && s.blockNumber != 0 && s.blockNumber % WRAP == 0
  }

  /** Given an acknowledgement of the current block or of the next one, the server arrives at its true
      number exactly when it is not a repeated 0. */
  lemma AckNumberTrueIff(s: Server, acked: nat)
    requires Aligned(s) && s.blockNumber <= acked <= s.blockNumber + 1
    ensures AfterAck(s, acked % WRAP).blockNumber == acked
      <==> !(acked == s.blockNumber && RepeatedZero(s, acked % WRAP))
    ensures AfterAck(s, acked % WRAP).blockNumber == acked ==> Aligned(AfterAck(s, acked % WRAP))
  {
    if acked == s.blockNumber + 1 {
      NextLow16(s.blockNumber);
    }
  }

  lemma NextLow16(b: nat)
    ensures (b + 1) % WRAP == if b % WRAP == WRAP - 1 then 0 else b % WRAP + 1
  {
    assert b == b / WRAP * WRAP + b % WRAP;
  }
}
