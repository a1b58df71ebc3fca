/** Properties of the packet layer of `AducConnection` (aduc_upload.py):
    the retry loop against a step-by-step reference, what each retry sends
    and when it succeeds, how the chunk plan covers the data, how the chunk
    loop stops at the first failure, and the erase and write rules. */
module AducProperties {
  import opened Wrappers
  import opened AducFrame
  import opened AducUpload

  // ---------------------------------------------------------------------
  // The retry loop

  /** The loop of `_writePacket` as the source writes it: send, return the
      first result that is not a plain `False` (an exception included),
      otherwise go round again while tries remain. */
  function RetryLoop(cmd: Command, address: int, data: seq<byte>, resp: seq<byte>, tries: nat): Trace
    decreases tries
  {
    if tries == 0 then Trace([], resp, Ok(false))
    else
      var t := SendSpec(cmd, address, data, resp);
      if t.outcome == Ok(false) then Prepend(t.sent, RetryLoop(cmd, address, data, t.rest, tries - 1))
      else t
  }

  /** One turn of the closed form: a NAK costs one packet and one try. */
  lemma RetriesStep(p: seq<byte>, resp: seq<byte>, tries: nat)
    requires tries > 0
    ensures var t := Answer(p, resp);
      Retries(p, resp, tries)
      == if t.outcome == Ok(false) then Prepend(t.sent, Retries(p, t.rest, tries - 1)) else t
  {
    if resp != [] && resp[0] == Nak {
      var k := LeadingNaks(resp, tries);
      assert k == 1 + LeadingNaks(resp[1..], tries - 1);
      assert [p] + Copies(p, k - 1) == Copies(p, k);
      assert resp[1..][k - 1..] == resp[k..];
    } else {
      assert [] + [p] == [p];
    }
  }

  /** The closed form used by the model is the source's loop. */
  lemma {:induction false} RetrySpecIsLoop(cmd: Command, address: int, data: seq<byte>, resp: seq<byte>, tries: nat)
    ensures RetrySpec(cmd, address, data, resp, tries) == RetryLoop(cmd, address, data, resp, tries)
    decreases tries
  {
    if tries > 0 && PacketError(address, data).None? {
      var p := PacketFor(cmd, address, data);
      RetriesStep(p, resp, tries);
      var t := Answer(p, resp);
      if t.outcome == Ok(false) {
        RetrySpecIsLoop(cmd, address, data, t.rest, tries - 1);
        if tries == 1 {
          assert Copies(p, 0) == [] && t.rest[0..] == t.rest;
        }
      }
    }
  }

  /** A retry sends nothing when `_sendPacket` refuses the packet, and
      otherwise one to `tries` copies of the same frame. */
  lemma RetrySendsOneFrameRepeatedly(cmd: Command, address: int, data: seq<byte>, resp: seq<byte>, tries: nat)
    ensures var t := RetrySpec(cmd, address, data, resp, tries);
      |t.sent| <= tries
      && (forall i :: 0 <= i < |t.sent| ==>
            PacketError(address, data).None? && t.sent[i] == PacketFor(cmd, address, data))
      && (tries > 0 && PacketError(address, data).None? ==> |t.sent| >= 1)
      && (tries > 0 && PacketError(address, data).Some? ==>
            t == Trace([], resp, Raised(PacketError(address, data).value)))
  {
  }

  /** The outcome of a retry is decided by the run of NAKs at the head of
      the queue: `False` exactly when all `tries` replies are NAKs, `True`
      exactly when an ACK follows fewer than `tries` NAKs; in both cases the
      replies read are exactly the ones the packets got. */
  lemma RetryOutcomes(cmd: Command, address: int, data: seq<byte>, resp: seq<byte>, tries: nat)
    requires PacketError(address, data).None?
    ensures var t := RetrySpec(cmd, address, data, resp, tries);
      (t.outcome == Ok(false) <==> NakRun(resp, tries))
      && (t.outcome == Ok(false) ==> |t.sent| == tries && t.rest == resp[tries..])
      && (t.outcome == Ok(true) <==>
            exists k :: 0 <= k < tries && NakRun(resp, k) && k < |resp| && resp[k] == Ack)
      && (t.outcome == Ok(true) ==>
            0 < |t.sent| <= |resp| && NakRun(resp, |t.sent| - 1) && resp[|t.sent| - 1] == Ack
            && t.rest == resp[|t.sent|..])
  {
    var t := RetrySpec(cmd, address, data, resp, tries);
    var k := LeadingNaks(resp, tries);
    if t.outcome == Ok(true) {
      assert 0 <= k < tries && NakRun(resp, k) && k < |resp| && resp[k] == Ack;
    }
    if exists j :: 0 <= j < tries && NakRun(resp, j) && j < |resp| && resp[j] == Ack {
      var j :| 0 <= j < tries && NakRun(resp, j) && j < |resp| && resp[j] == Ack;
      assert k == j;
    }
  }

  /** NAK, NAK, ACK: the third copy of the packet succeeds and the rest of
      the queue is left alone. */
  lemma ThirdTrySucceeds(cmd: Command, address: int, data: seq<byte>, rest: seq<byte>)
    requires PacketError(address, data).None?
    ensures var p := PacketFor(cmd, address, data);
      RetrySpec(cmd, address, data, [Nak, Nak, Ack] + rest, NumTries) == Trace([p, p, p], rest, Ok(true))
  {
    var resp := [Nak, Nak, Ack] + rest;
    assert LeadingNaks(resp[1..], NumTries - 1) == 1 by {
      assert resp[1..][1..] == [Ack] + rest;
    }
    assert resp[2..] == [Ack] + rest && resp[2..][1..] == rest;
  }

  /** Three NAKs use up the tries: the fourth reply stays queued. */
  lemma ThreeNaksFail(cmd: Command, address: int, data: seq<byte>, rest: seq<byte>)
    requires PacketError(address, data).None?
    ensures var p := PacketFor(cmd, address, data);
      RetrySpec(cmd, address, data, [Nak, Nak, Nak] + rest, NumTries) == Trace([p, p, p], rest, Ok(false))
  {
    var resp := [Nak, Nak, Nak] + rest;
    assert resp[1..][1..] == [Nak] + rest;
    assert resp[3..] == rest;
  }

  // ---------------------------------------------------------------------
  // One packet

  /** `_sendPacket` refuses an oversized packet or an address it cannot
      encode before writing anything; otherwise it writes exactly one frame,
      which decodes back to the command, the remapped address and the data. */
  lemma SentFrameDecodes(cmd: Command, address: int, data: seq<byte>, resp: seq<byte>)
    ensures var t := SendSpec(cmd, address, data, resp);
      (|data| > MaxPayload ==> t == Trace([], resp, Raised(PacketTooLarge)))
      && (PacketError(address, data).Some? <==> t.sent == [])
      && (t.sent != [] ==>
            |t.sent| == 1 && ParseFrame(t.sent[0]) == Some(Packet(cmd, RemapAddress(address), data)))
  {
    if PacketError(address, data).None? {
      ParseFrameOfFrame(cmd, RemapAddress(address), data);
    }
  }

  /** `run` writes 07 0E 05 52 00 00 00 00 A9. */
  lemma RunFrameBytes()
    ensures PacketFor(Run, 0, []) == [0x07, 0x0E, 0x05, 0x52, 0x00, 0x00, 0x00, 0x00, 0xA9]
  {
    assert BigEndian32(0) == [0, 0, 0, 0];
    assert Body(Run, 0, []) == [0x05, 0x52, 0, 0, 0, 0];
    assert Sum([0x05, 0x52, 0, 0, 0, 0]) == 0x57;
  }

  /** `reset` writes 07 0E 05 52 00 00 00 01 A8: the checksum of the body
      05 52 00 00 00 01 is 0xA8. */
  lemma ResetFrameBytes()
    ensures PacketFor(Run, 1, []) == [0x07, 0x0E, 0x05, 0x52, 0x00, 0x00, 0x00, 0x01, 0xA8]
  {
    assert BigEndian32(1) == [0, 0, 0, 1];
    assert Body(Run, 1, []) == [0x05, 0x52, 0, 0, 0, 1];
    assert Sum([0x05, 0x52, 0, 0, 0, 1]) == 0x58;
  }

  // ---------------------------------------------------------------------
  // The chunk plan

  /** The data of a plan's chunks, end to end. */
  function Joined(plan: seq<Chunk>): seq<byte>
  {
    if plan == [] then [] else plan[0].data + Joined(plan[1..])
  }

  /** The chunks of `write` and `verify` cover the data exactly, in order:
      each holds 1 to 16 bytes, all but the last hold 16, the first is
      addressed at the start and each next one where the previous ended. */
  lemma {:induction false} ChunkPlanCovers(address: int, data: seq<byte>)
    ensures var plan := ChunkPlan(address, data);
      Joined(plan) == data
      && (plan != [] ==> plan[0].address == address)
      && (forall i :: 0 <= i < |plan| ==> 1 <= |plan[i].data| <= BytesPerWritePacket)
      && (forall i :: 0 <= i < |plan| - 1 ==>
            |plan[i].data| == BytesPerWritePacket && plan[i + 1].address == plan[i].address + |plan[i].data|)
    decreases |data|
  {
    if data != [] {
      var n := Min(|data|, BytesPerWritePacket);
      ChunkPlanCovers(address + n, data[n..]);
      var rest := ChunkPlan(address + n, data[n..]);
      var plan := ChunkPlan(address, data);
      assert plan == [Chunk(address, data[..n])] + rest;
      assert Joined(plan) == data[..n] + Joined(rest) by {
        assert plan[1..] == rest;
      }
      assert data[..n] + data[n..] == data;
      hide *;
      forall i | 0 <= i < |plan| - 1
        ensures |plan[i].data| == BytesPerWritePacket && plan[i + 1].address == plan[i].address + |plan[i].data|
      {
        assert plan[i + 1] == rest[i];
        if i > 0 {
          assert plan[i] == rest[i - 1];
        }
      }
    }
  }

  /** Verify walks the same chunk boundaries as write, and its chunks carry
      the rotated data, from which the written data is recovered. */
  lemma VerifyPlanCarriesShiftedData(address: int, data: seq<byte>)
    ensures var plan := ChunkPlan(address, VerifyShift(data));
      var written := ChunkPlan(address, data);
      VerifyUnshift(Joined(plan)) == data
      && |plan| == |written|
      && forall i :: 0 <= i < |plan| ==>
           plan[i].address == written[i].address && plan[i].data == VerifyShift(written[i].data)
  {
    ChunkPlanCovers(address, VerifyShift(data));
    VerifyShiftRoundTrip(data);
    ChunkPlanShape(address, data);
    ChunkPlanShape(address, VerifyShift(data));
  }

  // ---------------------------------------------------------------------
  // The chunk loop

  /** Running two plans one after the other is running their concatenation:
      the second starts only if every chunk of the first was acknowledged. */
  lemma {:induction false} RunPlanAppend(cmd: Command, p1: seq<Chunk>, p2: seq<Chunk>, resp: seq<byte>)
    ensures var t := RunPlan(cmd, p1, resp);
      RunPlan(cmd, p1 + p2, resp)
      == if t.outcome != Ok(true) then t else Prepend(t.sent, RunPlan(cmd, p2, t.rest))
    decreases |p1|
  {
    if p1 == [] {
      assert p1 + p2 == p2;
    } else {
      assert (p1 + p2)[1..] == p1[1..] + p2;
      var t := RetrySpec(cmd, p1[0].address, p1[0].data, resp, NumTries);
      if t.outcome == Ok(true) {
        RunPlanAppend(cmd, p1[1..], p2, t.rest);
        var u := RunPlan(cmd, p1[1..], t.rest);
        if u.outcome == Ok(true) {
          PrependAssoc(t.sent, u.sent, RunPlan(cmd, p2, u.rest));
        }
      }
    }
  }

  /** The chunk loop sends at least one packet per chunk when it succeeds,
      and never more than `numTries` per chunk. */
  lemma {:induction false} RunPlanFrameCount(cmd: Command, plan: seq<Chunk>, resp: seq<byte>)
    ensures var t := RunPlan(cmd, plan, resp);
      |t.sent| <= NumTries * |plan|
      && (t.outcome == Ok(true) ==> |t.sent| >= |plan|)
    decreases |plan|
  {
    if plan != [] {
      var c := plan[0];
      RetrySendsOneFrameRepeatedly(cmd, c.address, c.data, resp, NumTries);
      var t := RetrySpec(cmd, c.address, c.data, resp, NumTries);
      RunPlanFrameCount(cmd, plan[1..], t.rest);
      if t.outcome == Ok(true) {
        assert PacketError(c.address, c.data).None?;
      }
    }
  }

  /** The frames of a plan whose every chunk is a valid packet. */
  function PlanFrames(cmd: Command, plan: seq<Chunk>): seq<seq<byte>>
    requires forall i :: 0 <= i < |plan| ==> PacketError(plan[i].address, plan[i].data).None?
  {
    if plan == [] then [] else [PacketFor(cmd, plan[0].address, plan[0].data)] + PlanFrames(cmd, plan[1..])
  }

  /** A device that acknowledges every packet gets each chunk exactly once,
      in order, and one reply per chunk is read. */
  lemma {:induction false} RunPlanAllAcked(cmd: Command, plan: seq<Chunk>, resp: seq<byte>)
    requires forall i :: 0 <= i < |plan| ==> PacketError(plan[i].address, plan[i].data).None?
    requires |plan| <= |resp| && forall i :: 0 <= i < |plan| ==> resp[i] == Ack
    ensures RunPlan(cmd, plan, resp) == Trace(PlanFrames(cmd, plan), resp[|plan|..], Ok(true))
    decreases |plan|
  {
    if plan != [] {
      var c := plan[0];
      assert LeadingNaks(resp, NumTries) == 0;
      assert [] + [PacketFor(cmd, c.address, c.data)] == [PacketFor(cmd, c.address, c.data)];
      RunPlanAllAcked(cmd, plan[1..], resp[1..]);
      assert resp[1..][|plan| - 1..] == resp[|plan|..];
    } else {
      assert resp[0..] == resp;
    }
  }

  // ---------------------------------------------------------------------
  // Erase and write

  /** `_erasePacket` raises for a page count outside 1..124 and sends
      nothing; otherwise its single frame carries the page count as its one
      data byte. */
  lemma ErasePacketRules(address: int, numPages: int, resp: seq<byte>)
    ensures var t := ErasePacketSpec(address, numPages, resp);
      (!(1 <= numPages <= MaxErasePages) ==> t == Trace([], resp, Raised(BadPageCount(numPages))))
      && (1 <= numPages <= MaxErasePages && 0 <= RemapAddress(address) < Word ==>
            |t.sent| == 1
            && ParseFrame(t.sent[0]) == Some(Packet(Erase, RemapAddress(address), [numPages])))
  {
    if 1 <= numPages <= MaxErasePages && 0 <= RemapAddress(address) < Word {
      ParseFrameOfFrame(Erase, RemapAddress(address), [numPages]);
    }
  }

  /** `erase` divides the byte count by the page size rounding down, so a
      byte count under one page is refused before anything is sent. */
  lemma EraseUnderOnePageRaises(address: int, numBytes: int, resp: seq<byte>)
    requires 0 <= numBytes < PageSize
    ensures EraseSpec(address, numBytes, resp) == Trace([], resp, Raised(BadPageCount(0)))
  {
  }

  /** Hence `write` of less than a page raises before anything is sent. */
  lemma WriteUnderOnePageRaises(address: int, data: seq<byte>, andVerify: bool, andRun: bool, andReset: bool,
                                resp: seq<byte>)
    requires |data| < PageSize
    ensures WriteSpec(address, data, andVerify, andRun, andReset, resp)
         == Session(Trace([], resp, Raised(BadPageCount(0))), false)
  {
    EraseUnderOnePageRaises(address, |data|, resp);
  }

  /** `write` does not look at erase's answer: a NAK and an ACK for the
      erase packet lead to the same session. */
  lemma WriteIgnoresEraseReply(address: int, data: seq<byte>, andVerify: bool, andRun: bool, andReset: bool,
                               resp: seq<byte>)
    requires PageSize <= |data| < (MaxErasePages + 1) * PageSize
    requires 0 <= RemapAddress(address) < Word
    ensures WriteSpec(address, data, andVerify, andRun, andReset, [Nak] + resp)
         == WriteSpec(address, data, andVerify, andRun, andReset, [Ack] + resp)
  {
    EraseReplyIgnored(address, |data|, resp);
    hide EraseSpec, RunPlan, VerifySpec, RunSpec, ResetSpec, ChunkPlan;
  }

  /** An erase that does not raise sends the same packet and consumes one
      reply, whether that reply is an ACK or a NAK. */
  lemma EraseReplyIgnored(address: int, numBytes: int, resp: seq<byte>)
    requires PageSize <= numBytes < (MaxErasePages + 1) * PageSize
    requires 0 <= RemapAddress(address) < Word
    ensures var a, b := EraseSpec(address, numBytes, [Nak] + resp), EraseSpec(address, numBytes, [Ack] + resp);
      a.sent == b.sent && a.rest == b.rest && !a.outcome.Raised? && !b.outcome.Raised?
  {
    assert 1 <= numBytes / PageSize <= MaxErasePages;
    assert ([Nak] + resp)[1..] == resp && ([Ack] + resp)[1..] == resp;
  }
}
