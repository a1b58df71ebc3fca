/** The packet layer of `AducConnection` (aduc_upload.py): sending one
    packet and classifying the reply, the bounded retry of a packet, erase,
    the 16-byte chunk loops of write and verify, and run/reset.

    The serial port is an abstract channel: `responses` holds the bytes the
    device will answer with, in order, and `frames` logs every packet written.
    What the device says is a pure function of what it is sent and of the
    responses still queued, so each operation is specified by a function of
    the queue that returns a `Trace`: the packets sent, the responses left,
    and the outcome. */
module AducUpload {
  import opened Wrappers
  import opened AducFrame

  /** `self.numTries`, `self.pageSize` and `self.bytesPerWritePacket`. */
  const NumTries: nat := 3
  const PageSize: nat := 512
  const BytesPerWritePacket: nat := 16

  /** Most pages one erase command may name. */
  const MaxErasePages := 124

  /** What is raised instead of returned. */
  datatype AducError =
    | PacketTooLarge               // `Exception('Packet size too large!')`
    | AddressOutOfRange(address: int) // `OverflowError` from `to_bytes(4, ...)`
    | UnexpectedResponse(reply: byte) // `AducException('Unexpected serial response ...')`
    | BadPageCount(pages: int)     // `AducException('numPages must be 1..124 ...')`
    | NoResponse                   // the device never answers (the source waits forever)

  /** A Python `bool` return, or an exception. */
  datatype Outcome = Ok(success: bool) | Raised(error: AducError)

  /** What an operation did on the channel. */
  datatype Trace = Trace(sent: seq<seq<byte>>, rest: seq<byte>, outcome: Outcome)

  function Prepend(sent: seq<seq<byte>>, t: Trace): Trace
  {
    Trace(sent + t.sent, t.rest, t.outcome)
  }

  /** How `_sendPacket` reads the first reply byte. */
  function Reply(b: byte): (r: Outcome)
    ensures r == Ok(true) <==> b == Ack
    ensures r == Ok(false) <==> b == Nak
    ensures r.Raised? <==> b != Ack && b != Nak
  {
    if b == Ack then Ok(true)
    else if b == Nak then Ok(false)
    else Raised(UnexpectedResponse(b))
  }

  /** Whether `_sendPacket` gets as far as writing: the size check, then the
      conversion of the remapped address to four unsigned bytes. */
  function PacketError(address: int, data: seq<byte>): Option<AducError>
  {
    if |data| + 5 > 255 then Some(PacketTooLarge)
    else if !(0 <= RemapAddress(address) < Word) then Some(AddressOutOfRange(RemapAddress(address)))
    else None
  }

  /** The packet `_sendPacket` writes when it writes one. */
  function PacketFor(cmd: Command, address: int, data: seq<byte>): seq<byte>
    requires PacketError(address, data).None?
  {
    Frame(cmd, RemapAddress(address), data)
  }

  /** What the first reply to a written packet `p` means. */
  function Answer(p: seq<byte>, resp: seq<byte>): Trace
  {
    if resp == [] then Trace([p], [], Raised(NoResponse))
    else Trace([p], resp[1..], Reply(resp[0]))
  }

  /** `_sendPacket` against the response queue `resp`. */
  function SendSpec(cmd: Command, address: int, data: seq<byte>, resp: seq<byte>): Trace
  {
    match PacketError(address, data)
    case Some(e) => Trace([], resp, Raised(e))
    case None => Answer(PacketFor(cmd, address, data), resp)
  }

  /** `n` copies of packet `p`. */
  function Copies(p: seq<byte>, n: nat): (r: seq<seq<byte>>)
    ensures |r| == n && forall j :: 0 <= j < n ==> r[j] == p
  {
    seq(n, _ => p)
  }

  /** One more copy of a packet. */
  lemma CopiesSnoc(p: seq<byte>, n: nat)
    ensures Copies(p, n) + [p] == Copies(p, n + 1)
  {
  }

  /** Whether the first `n` queued replies are all NAKs. */
  predicate NakRun(resp: seq<byte>, n: nat)
  {
    n <= |resp| && forall j :: 0 <= j < n ==> resp[j] == Nak
  }

  /** How many NAKs the queue starts with, counting no further than `cap`. */
  function LeadingNaks(resp: seq<byte>, cap: nat): (k: nat)
    ensures k <= cap && NakRun(resp, k)
    ensures k < cap ==> k == |resp| || resp[k] != Nak
  {
    if cap == 0 || resp == [] || resp[0] != Nak then 0
    else 1 + LeadingNaks(resp[1..], cap - 1)
  }

  /** Packet `p` sent up to `tries` times: every NAK costs one more copy of
      the same packet; the loop ends after `tries` NAKs, or at the first reply
      that is not a NAK (or at the end of the queue). */
  function Retries(p: seq<byte>, resp: seq<byte>, tries: nat): Trace
  {
    var k := LeadingNaks(resp, tries);
    if k == tries then Trace(Copies(p, k), resp[k..], Ok(false))
    else Prepend(Copies(p, k), Answer(p, resp[k..]))
  }

  /** The loop of `_writePacket`, `_verifyPacket` and `_runPacket`: a packet
      that `_sendPacket` refuses raises on the first try. */
  function RetrySpec(cmd: Command, address: int, data: seq<byte>, resp: seq<byte>, tries: nat): Trace
  {
    if tries == 0 then Trace([], resp, Ok(false))
    else match PacketError(address, data)
      case Some(e) => Trace([], resp, Raised(e))
      case None => Retries(PacketFor(cmd, address, data), resp, tries)
  }

  /** A packet's worth of data and where it goes. */
  datatype Chunk = Chunk(address: int, data: seq<byte>)

  function Min(a: int, b: int): int { if a < b then a else b }

  /** How `write` and `verify` walk their data: consecutive slices of at most
      BytesPerWritePacket bytes, each addressed where the previous one ended. */
  function ChunkPlan(address: int, data: seq<byte>): seq<Chunk>
    decreases |data|
  {
    if data == [] then []
    else
      var n := Min(|data|, BytesPerWritePacket);
      [Chunk(address, data[..n])] + ChunkPlan(address + n, data[n..])
  }

  /** Chunk `j` of the plan starts `j` packets into the data and at `j`
      packets past the start address, and is a full packet unless it is the
      last; there are as many chunks as full or partial packets. */
  lemma {:induction false} ChunkPlanShape(address: int, data: seq<byte>)
    ensures var plan := ChunkPlan(address, data);
      |plan| == (|data| + 15) / 16
      && forall j :: 0 <= j < |plan| ==>
           plan[j] == Chunk(address + j * 16,
                            data[j * 16 .. Min(|data|, (j + 1) * 16)])
    decreases |data|
  {
    if data != [] {
      var n := Min(|data|, BytesPerWritePacket);
      ChunkPlanShape(address + n, data[n..]);
      var plan := ChunkPlan(address, data);
      var rest := ChunkPlan(address + n, data[n..]);
      assert plan == [Chunk(address, data[..n])] + rest;
      forall j | 0 <= j < |plan|
        ensures plan[j] == Chunk(address + j * 16,
                                 data[j * 16 .. Min(|data|, (j + 1) * 16)])
      {
        if j > 0 {
          assert plan[j] == rest[j - 1];
          SliceShift(data, n, j);
        }
      }
    }
  }

  /** Packet `j - 1` of what follows the first full packet is packet `j` of
      the whole data. */
  lemma SliceShift(data: seq<byte>, n: int, j: int)
    requires n == 16 && n <= |data| && 0 < j && (j - 1) * 16 <= |data| - n
    ensures data[n..][(j - 1) * 16 .. Min(|data| - n, j * 16)]
         == data[j * 16 .. Min(|data|, (j + 1) * 16)]
  {
  }

  /** The chunk that starts `complete = 16 j` bytes into the data. */
  lemma ChunkAt(address: int, data: seq<byte>, j: nat, complete: nat)
    requires complete == j * 16 < |data|
    ensures var plan := ChunkPlan(address, data);
      var n := Min(|data| - complete, BytesPerWritePacket);
      j < |plan| && plan[j] == Chunk(address + complete, data[complete..complete + n])
      && (complete + n < |data| <==> j + 1 < |plan|)
      && (complete + n < |data| ==> complete + n == (j + 1) * 16)
  {
    ChunkPlanShape(address, data);
  }

  /** The chunk loop: each chunk through the retry loop, stopping at the
      first chunk that is not acknowledged. */
  function RunPlan(cmd: Command, plan: seq<Chunk>, resp: seq<byte>): Trace
    decreases |plan|
  {
    if plan == [] then Trace([], resp, Ok(true))
    else
      var t := RetrySpec(cmd, plan[0].address, plan[0].data, resp, NumTries);
      if t.outcome != Ok(true) then t
      else Prepend(t.sent, RunPlan(cmd, plan[1..], t.rest))
  }

  lemma AppendAssoc(a: seq<seq<byte>>, b: seq<seq<byte>>, c: seq<seq<byte>>)
    ensures a + (b + c) == (a + b) + c
  {
  }

  lemma PrependAssoc(a: seq<seq<byte>>, b: seq<seq<byte>>, t: Trace)
    ensures Prepend(a, Prepend(b, t)) == Prepend(a + b, t)
  {
  }

  /** One step of the chunk loop, from chunk `j` on. */
  lemma RunPlanStep(cmd: Command, plan: seq<Chunk>, j: nat, resp: seq<byte>)
    requires j < |plan|
    ensures var t := RetrySpec(cmd, plan[j].address, plan[j].data, resp, NumTries);
      RunPlan(cmd, plan[j..], resp)
      == if t.outcome != Ok(true) then t else Prepend(t.sent, RunPlan(cmd, plan[j + 1..], t.rest))
  {
    assert plan[j..][1..] == plan[j + 1..];
  }

  /** `_erasePacket`: the page count is checked before anything is sent and
      travels as the single data byte. */
  function ErasePacketSpec(address: int, numPages: int, resp: seq<byte>): Trace
  {
    if numPages < 1 || numPages > MaxErasePages then Trace([], resp, Raised(BadPageCount(numPages)))
    else SendSpec(Erase, address, [numPages], resp)
  }

  /** `erase`: the byte count is divided by the page size rounding DOWN
      (Python's `//`; for a positive divisor Dafny's `/` agrees). */
  function EraseSpec(address: int, numBytes: int, resp: seq<byte>): Trace
  {
    ErasePacketSpec(address, numBytes / PageSize, resp)
  }

  /** `verify`'s packets: the rotated data, chunk by chunk, with command 'V'. */
  function VerifySpec(address: int, data: seq<byte>, resp: seq<byte>): Trace
  {
    RunPlan(Verify, ChunkPlan(address, VerifyShift(data)), resp)
  }

  /** `run` jumps to address 0 and `reset` sends the same command with address 1. */
  function RunSpec(resp: seq<byte>): Trace { RetrySpec(Run, 0, [], resp, NumTries) }
  function ResetSpec(resp: seq<byte>): Trace { RetrySpec(Run, 1, [], resp, NumTries) }

  /** A `write` call: its trace, and whether it got to the end (where the port
      is closed) rather than returning or raising early. */
  datatype Session = Session(trace: Trace, finished: bool)

  /** `write`: erase (its result ignored, its exceptions not), the chunk loop,
      then optionally verify, then optionally run or else reset; the result is
      the chunk loop's, or verify's when verify ran. */
  function WriteSpec(address: int, data: seq<byte>, andVerify: bool, andRun: bool, andReset: bool,
                     resp: seq<byte>): Session
  {
    var e := EraseSpec(address, |data|, resp);
    if e.outcome.Raised? then Session(e, false)
    else
      var w := Prepend(e.sent, RunPlan(Write, ChunkPlan(address, data), e.rest));
      if w.outcome != Ok(true) then Session(w, false)
      else
        var v := if andVerify then Prepend(w.sent, VerifySpec(address, data, w.rest)) else w;
        if v.outcome.Raised? then Session(v, false)
        else
          var x := if andRun then Prepend(v.sent, RunSpec(v.rest))
                   else if andReset then Prepend(v.sent, ResetSpec(v.rest))
                   else Trace(v.sent, v.rest, Ok(true));
          if x.outcome.Raised? then Session(x, false)
          else Session(Trace(x.sent, x.rest, v.outcome), true)
  }

  /** The connection object.  Its own state is exactly the source's
      `_connection` (here: whether a port is open) and `_connectionEstablished`;
      `responses` and `frames` are the abstract serial line. */
  class AducConnection {
    var connected: bool
    var connectionEstablished: bool
    var responses: seq<byte>
    var frames: seq<seq<byte>>

    /** A connection with no port open, facing a device that will answer
        with `replies`. */
    constructor (replies: seq<byte>)
      ensures !connected && !connectionEstablished
      ensures responses == replies && frames == []
    {
      connected := false;
      connectionEstablished := false;
      responses := replies;
      frames := [];
    }

    /** `connect`: opens the port unless it is open. */
    method Connect()
      modifies this
      ensures connected
      ensures connectionEstablished == old(connectionEstablished)
      ensures responses == old(responses) && frames == old(frames)
    {
      if !connected {
        connected := true;
      }
    }

    /** `disconnect`: closes the port if it is open. */
    method Disconnect()
      modifies this
      ensures !connected
      ensures connectionEstablished == old(connectionEstablished)
      ensures responses == old(responses) && frames == old(frames)
    {
      if connected {
        connected := false;
      }
    }

    /** `reconnect`. */
    method Reconnect()
      modifies this
      ensures connected
      ensures connectionEstablished == old(connectionEstablished)
      ensures responses == old(responses) && frames == old(frames)
    {
      Disconnect();
      Connect();
    }

    /** `waitForConnection`, with the backspace/identification exchange
        abstracted away: once it returns the device is known to listen. */
    method WaitForConnection() returns (ok: bool)
      modifies this
      ensures ok && connectionEstablished
      ensures connected == (old(connected) || !old(connectionEstablished))
      ensures responses == old(responses) && frames == old(frames)
    {
      if connectionEstablished {
        return true;
      }
      Connect();
      connectionEstablished := true;
      ok := true;
    }

    /** `_sendPacket`: builds the packet step by step as the source does,
        opens the port, writes it, and classifies the first reply. */
    method SendPacket(cmd: Command, address: int, data: seq<byte>) returns (r: Outcome)
      modifies this
      ensures var t := SendSpec(cmd, address, data, old(responses));
        frames == old(frames) + t.sent && responses == t.rest && r == t.outcome
        && connected == (old(connected) || t.sent != [])
      ensures connectionEstablished == old(connectionEstablished)
    {
      var addr := RemapAddress(address);
      var packetLen := |data| + 5;
      if packetLen > 255 {
        return Raised(PacketTooLarge);
      }
      if !(0 <= addr < Word) {
        return Raised(AddressOutOfRange(addr));
      }
      var addrBytes := BigEndian32(addr);
      var sendbuf := addrBytes;
      sendbuf := [cmd.Code()] + sendbuf;
      sendbuf := [packetLen] + sendbuf;
      sendbuf := sendbuf + data;
      var checksum := Checksum(sendbuf);
      Connect();
      assert sendbuf == Body(cmd, addr, data);
      frames := frames + [[Start0, Start1] + sendbuf + [checksum]];
      if responses == [] {
        return Raised(NoResponse);
      }
      var response := responses[0];
      responses := responses[1..];
      if response == Ack {
        return Ok(true);
      }
      if response == Nak {
        return Ok(false);
      }
      return Raised(UnexpectedResponse(response));
    }

    /** The retry loop shared by `_writePacket`, `_verifyPacket` and
        `_runPacket`. */
    method SendWithRetries(cmd: Command, address: int, data: seq<byte>) returns (r: Outcome)
      modifies this
      ensures var t := RetrySpec(cmd, address, data, old(responses), NumTries);
        frames == old(frames) + t.sent && responses == t.rest && r == t.outcome
        && connected == (old(connected) || t.sent != [])
      ensures connectionEstablished == old(connectionEstablished)
    {
      r := Ok(false);
      var i := 0;
      ghost var p := if PacketError(address, data).None? then PacketFor(cmd, address, data) else [];
      while i < NumTries
        invariant 0 <= i <= NumTries
        invariant i > 0 ==> PacketError(address, data).None?
        invariant NakRun(old(responses), i) && responses == old(responses)[i..]
        invariant frames == old(frames) + Copies(p, i)
        invariant r == Ok(false)
        invariant connected == (old(connected) || i > 0)
        invariant connectionEstablished == old(connectionEstablished)
      {
        CopiesSnoc(p, i);
        r := SendPacket(cmd, address, data);
        if r.Raised? || r == Ok(true) {
          if PacketError(address, data).None? {
            assert LeadingNaks(old(responses), NumTries) == i;
          }
          return;
        }
        i := i + 1;
      }
      assert LeadingNaks(old(responses), NumTries) == NumTries;
    }

    /** `_writePacket`. */
    method WritePacket(address: int, data: seq<byte>) returns (r: Outcome)
      modifies this
      ensures var t := RetrySpec(Command.Write, address, data, old(responses), NumTries);
        frames == old(frames) + t.sent && responses == t.rest && r == t.outcome
        && connected == (old(connected) || t.sent != [])
      ensures connectionEstablished == old(connectionEstablished)
    {
      r := SendWithRetries(Command.Write, address, data);
    }

    /** `_verifyPacket`. */
    method VerifyPacket(address: int, data: seq<byte>) returns (r: Outcome)
      modifies this
      ensures var t := RetrySpec(Command.Verify, address, data, old(responses), NumTries);
        frames == old(frames) + t.sent && responses == t.rest && r == t.outcome
        && connected == (old(connected) || t.sent != [])
      ensures connectionEstablished == old(connectionEstablished)
    {
      r := SendWithRetries(Command.Verify, address, data);
    }

    /** `_runPacket`. */
    method RunPacket(address: int) returns (r: Outcome)
      modifies this
      ensures var t := RetrySpec(Command.Run, address, [], old(responses), NumTries);
        frames == old(frames) + t.sent && responses == t.rest && r == t.outcome
        && connected == (old(connected) || t.sent != [])
      ensures connectionEstablished == old(connectionEstablished)
    {
      r := SendWithRetries(Command.Run, address, []);
    }

    /** `run`. */
    method Run() returns (r: Outcome)
      modifies this
      ensures var t := RunSpec(old(responses));
        frames == old(frames) + t.sent && responses == t.rest && r == t.outcome
        && connected == (old(connected) || t.sent != [])
      ensures connectionEstablished == old(connectionEstablished)
    {
      r := RunPacket(0);
    }

    /** `reset`. */
    method Reset() returns (r: Outcome)
      modifies this
      ensures var t := ResetSpec(old(responses));
        frames == old(frames) + t.sent && responses == t.rest && r == t.outcome
        && connected == (old(connected) || t.sent != [])
      ensures connectionEstablished == old(connectionEstablished)
    {
      r := RunPacket(1);
    }

    /** `_erasePacket`. */
    method ErasePacket(address: int, numPages: int) returns (r: Outcome)
      modifies this
      ensures var t := ErasePacketSpec(address, numPages, old(responses));
        frames == old(frames) + t.sent && responses == t.rest && r == t.outcome
        && connected == (old(connected) || t.sent != [])
      ensures connectionEstablished == old(connectionEstablished)
    {
      if numPages < 1 || numPages > MaxErasePages {
        return Raised(BadPageCount(numPages));
      }
      r := SendPacket(Command.Erase, address, [numPages]);
    }

    /** `erase`. */
    method Erase(address: int, numBytes: int) returns (r: Outcome)
      modifies this
      ensures var t := EraseSpec(address, numBytes, old(responses));
        frames == old(frames) + t.sent && responses == t.rest && r == t.outcome
        && connected == (old(connected) || t.sent != [])
      ensures connectionEstablished == old(connectionEstablished)
    {
      r := ErasePacket(address, numBytes / PageSize);
    }

    /** The chunk loop of `write` and `verify`: `complete` counts the bytes
        acknowledged so far and `address` moves with it. */
    method SendChunks(cmd: Command, address: int, data: seq<byte>) returns (r: Outcome)
      modifies this
      ensures var t := RunPlan(cmd, ChunkPlan(address, data), old(responses));
        frames == old(frames) + t.sent && responses == t.rest && r == t.outcome
        && connected == (old(connected) || t.sent != [])
      ensures connectionEstablished == old(connectionEstablished)
    {
      hide RetrySpec;  // a chunk needs only the contract of SendWithRetries
      r := Ok(true);
      var complete := 0;
      var total := |data|;
      var addr := address;
      ghost var plan := ChunkPlan(address, data);
      ghost var j := 0;
      ghost var sent: seq<seq<byte>> := [];
      while complete < total
        invariant 0 <= j <= |plan| && complete <= total
        invariant complete < total ==> complete == j * 16
        invariant complete < total <==> j < |plan|
        invariant addr == address + complete
        invariant frames == old(frames) + sent
        invariant RunPlan(cmd, plan, old(responses)) == Prepend(sent, RunPlan(cmd, plan[j..], responses))
        invariant r == Ok(true)
        invariant connected == (old(connected) || sent != [])
        invariant connectionEstablished == old(connectionEstablished)
      {
        var n := Min(total - complete, BytesPerWritePacket);
        var chunk := data[complete..complete + n];
        ChunkAt(address, data, j, complete);
        RunPlanStep(cmd, plan, j, responses);
        ghost var t := RetrySpec(cmd, addr, chunk, responses, NumTries);
        r := SendWithRetries(cmd, addr, chunk);
        AppendAssoc(old(frames), sent, t.sent);
        if r != Ok(true) {
          sent := sent + t.sent;
          return;
        }
        PrependAssoc(sent, t.sent, RunPlan(cmd, plan[j + 1..], responses));
        sent := sent + t.sent;
        complete := complete + n;
        addr := addr + n;
        j := j + 1;
      }
    }

    /** `verify`: rotates the data, sends it in chunks with command 'V', and
        closes the port afterwards only if it opened the session itself and
        every chunk was acknowledged. */
    method Verify(address: int, data: seq<byte>) returns (r: Outcome)
      modifies this
      ensures var t := VerifySpec(address, data, old(responses));
        frames == old(frames) + t.sent && responses == t.rest && r == t.outcome
      ensures r == Ok(true) && !old(connectionEstablished) ==> !connected && !connectionEstablished
      ensures r == Ok(true) && old(connectionEstablished) ==>
        (connectionEstablished && connected == (old(connected) || frames != old(frames)))
      ensures r != Ok(true) ==>
        (connectionEstablished && connected == (old(connected) || !old(connectionEstablished) || frames != old(frames)))
    {
      var shifted := VerifyShift(data);
      var weConnected := !connectionEstablished;
      if weConnected {
        var _ := WaitForConnection();
      }
      r := SendChunks(Command.Verify, address, shifted);
      if r != Ok(true) {
        return;
      }
      if weConnected {
        Disconnect();
        connectionEstablished := false;
      }
    }

    /** `write`, without its progress callback. */
    method Write(address: int, data: seq<byte>, andVerify: bool, andRun: bool, andReset: bool)
      returns (r: Outcome)
      modifies this
      ensures var s := WriteSpec(address, data, andVerify, andRun, andReset, old(responses));
        frames == old(frames) + s.trace.sent && responses == s.trace.rest && r == s.trace.outcome
        && (s.finished ==> !connected && connectionEstablished == old(connectionEstablished))
        && (!s.finished ==>
              (connectionEstablished
               && connected == (old(connected) || !old(connectionEstablished) || s.trace.sent != [])))
    {
      hide EraseSpec, RunPlan, ChunkPlan, VerifySpec, RunSpec, ResetSpec;
      var startAddress := address;
      var weConnected := !connectionEstablished;
      if weConnected {
        var _ := WaitForConnection();
      }
      ghost var f0 := frames;
      ghost var r0 := responses;
      ghost var e := EraseSpec(address, |data|, r0);
      var erased := Erase(address, |data|);
      if erased.Raised? {
        return erased;
      }
      ghost var w := Prepend(e.sent, RunPlan(Command.Write, ChunkPlan(address, data), e.rest));
      r := SendChunks(Command.Write, address, data);
      AppendAssoc(f0, e.sent, RunPlan(Command.Write, ChunkPlan(address, data), e.rest).sent);
      if r != Ok(true) {
        return;
      }
      ghost var v := w;
      if andVerify {
        v := Prepend(w.sent, VerifySpec(address, data, w.rest));
        r := Verify(startAddress, data);
        AppendAssoc(f0, w.sent, VerifySpec(address, data, w.rest).sent);
        if r.Raised? {
          return;
        }
      }
      if andRun {
        var ran := Run();
        AppendAssoc(f0, v.sent, RunSpec(v.rest).sent);
        if ran.Raised? {
          return ran;
        }
      } else if andReset {
        var reset := Reset();
        AppendAssoc(f0, v.sent, ResetSpec(v.rest).sent);
        if reset.Raised? {
          return reset;
        }
      }
      Disconnect();
      if weConnected {
        connectionEstablished := false;
      }
    }
  }
}
