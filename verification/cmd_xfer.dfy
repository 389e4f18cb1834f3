/**
 * Commands whose payload is larger than one firmware transfer: the
 * config-data read accessor, and the loop of `do_cmd` that moves the
 * payload in chunks of at most `max_xfer` bytes, one ioctl per chunk.
 */
module CmdXfer {
  import opened Machine
  import opened Wrappers
  import opened CStr
  import opened Errno

  function Min(a: int, b: int): int
  {
    if a <= b then a else b
  }

  // ---------------------------------------------------------------------
  // Config-data read
  // ---------------------------------------------------------------------

  /**
   * A config-data command as far as the read accessor sees it: whether it
   * is a GET_CONFIG_DATA command, its status (positive while unsubmitted,
   * negative after a failure) and the whole transfer buffer, whose length
   * is `iter.total_xfer`.
   */
  datatype CfgReadCmd = CfgReadCmd(isGetData: bool, status: int, totalBuf: seq<Byte>)

  /**
   * `ndctl_cmd_cfg_read_get_data`: the bytes copied out and thereby the
   * count returned, or the error. The u32 sum `len + offset` is checked for
   * wrap-around.
   */
  function CfgReadGetData(cmd: CfgReadCmd, len: Word32, offset: Word32): (r: Result<seq<Byte>>)
    requires |cmd.totalBuf| < U32
    ensures r.Err? <==> !cmd.isGetData || cmd.status != 0 || offset > |cmd.totalBuf| || len + offset >= U32
    ensures r.Err? && cmd.isGetData && cmd.status < 0 ==> r.code == cmd.status
    ensures r.Err? && !(cmd.isGetData && cmd.status < 0) ==> r.code == -EINVAL
    ensures r.Ok? ==> |r.value| == Min(len, |cmd.totalBuf| - offset)
    ensures r.Ok? ==> r.value == cmd.totalBuf[offset..offset + |r.value|]
  {
    var total := |cmd.totalBuf|;
    if !cmd.isGetData || cmd.status > 0 then Err(-EINVAL)
    else if cmd.status < 0 then Err(cmd.status)
    else if offset > total || Wrap32(len + offset) < len then Err(-EINVAL)
    else
      var n := if len + offset > total then total - offset else len;
      Ok(cmd.totalBuf[offset..offset + n])
  }

  /** Two adjacent reads inside the buffer return the same bytes as one read of both ranges. */
  lemma CfgReadSplit(cmd: CfgReadCmd, offset: Word32, a: Word32, b: Word32)
    requires |cmd.totalBuf| < U32
    requires cmd.isGetData && cmd.status == 0
    requires offset + a + b <= |cmd.totalBuf|
    ensures CfgReadGetData(cmd, a, offset).Ok? && CfgReadGetData(cmd, b, offset + a).Ok?
    ensures CfgReadGetData(cmd, a + b, offset).Ok?
    ensures CfgReadGetData(cmd, a, offset).value + CfgReadGetData(cmd, b, offset + a).value
      == CfgReadGetData(cmd, a + b, offset).value
  {
    var s := cmd.totalBuf;
    assert s[offset..offset + a] + s[offset + a..offset + a + b] == s[offset..offset + a + b];
  }

  // ---------------------------------------------------------------------
  // Chunked transfer
  // ---------------------------------------------------------------------

  /** One ioctl of the loop: where in the buffer it starts and how many bytes it moves. */
  datatype Chunk = Chunk(offset: nat, xfer: nat)

  /**
   * The chunks the loop issues from `offset` on when no ioctl fails:
   * consecutive offsets `max_xfer` apart, each moving the smaller of what
   * is left and `max_xfer`.
   */
  function ChunkPlan(total: nat, maxXfer: nat, offset: nat): (plan: seq<Chunk>)
    requires maxXfer > 0
    ensures offset < total <==> |plan| > 0
    ensures |plan| > 0 ==> plan[|plan| - 1].offset + plan[|plan| - 1].xfer == total
    decreases total - offset
  {
    if offset >= total then []
    else
      [Chunk(offset, Min(total - offset, maxXfer))] + ChunkPlan(total, maxXfer, offset + maxXfer)
  }

  /**
   * Every chunk moves between 1 and `max_xfer` bytes and ends inside the
   * transfer, and every chunk but the last moves exactly `max_xfer`.
   */
  lemma {:induction false} PlanShape(total: nat, maxXfer: nat, offset: nat)
    requires maxXfer > 0
    ensures forall k :: 0 <= k < |ChunkPlan(total, maxXfer, offset)| ==>
      0 < ChunkPlan(total, maxXfer, offset)[k].xfer <= maxXfer &&
      ChunkPlan(total, maxXfer, offset)[k].offset + ChunkPlan(total, maxXfer, offset)[k].xfer <= total
    ensures forall k :: 0 <= k < |ChunkPlan(total, maxXfer, offset)| - 1 ==>
      ChunkPlan(total, maxXfer, offset)[k].xfer == maxXfer
    decreases total - offset
  {
    if offset < total {
      var plan := ChunkPlan(total, maxXfer, offset);
      var rest := ChunkPlan(total, maxXfer, offset + maxXfer);
      PlanShape(total, maxXfer, offset + maxXfer);
      assert plan[0] == Chunk(offset, Min(total - offset, maxXfer));
      forall k | 0 <= k < |plan|
        ensures 0 < plan[k].xfer <= maxXfer && plan[k].offset + plan[k].xfer <= total
        ensures k < |plan| - 1 ==> plan[k].xfer == maxXfer
      {
        if k > 0 {
          assert plan[k] == rest[k - 1];
          assert 0 < rest[k - 1].xfer <= maxXfer && rest[k - 1].offset + rest[k - 1].xfer <= total;
          assert k - 1 < |rest| - 1 ==> rest[k - 1].xfer == maxXfer;
        } else {
          assert 0 < Min(total - offset, maxXfer) <= maxXfer;
          if k < |plan| - 1 {
            assert |rest| > 0;
            assert offset + maxXfer < total;
            assert Min(total - offset, maxXfer) == maxXfer;
          }
        }
      }
    }
  }

  /** Chunk k of a plan starts k times `max_xfer` past the plan's first offset. */
  lemma {:induction false} PlanSpacing(total: nat, maxXfer: nat, offset: nat)
    requires maxXfer > 0
    ensures forall k :: 0 <= k < |ChunkPlan(total, maxXfer, offset)| ==>
      ChunkPlan(total, maxXfer, offset)[k].offset == offset + k * maxXfer
    decreases total - offset
  {
    if offset < total {
      var plan := ChunkPlan(total, maxXfer, offset);
      var rest := ChunkPlan(total, maxXfer, offset + maxXfer);
      PlanSpacing(total, maxXfer, offset + maxXfer);
      forall k | 1 <= k < |plan|
        ensures plan[k].offset == offset + k * maxXfer
      {
        assert plan[k] == rest[k - 1];
        assert (k - 1) * maxXfer + maxXfer == k * maxXfer;
      }
    }
  }

  /** What a WRITE sends, chunk after chunk: for each chunk the bytes of the buffer it covers. */
  function Sent(buf: seq<Byte>, plan: seq<Chunk>): seq<Byte>
  {
    if |plan| == 0 then [] else Slice(buf, plan[0].offset, plan[0].xfer) + Sent(buf, plan[1..])
  }

  /** The first chunk of a plan and the plan of the rest. */
  lemma PlanStep(total: nat, maxXfer: nat, offset: nat)
    requires maxXfer > 0 && offset < total
    ensures ChunkPlan(total, maxXfer, offset)[0] == Chunk(offset, Min(total - offset, maxXfer))
    ensures ChunkPlan(total, maxXfer, offset)[1..] == ChunkPlan(total, maxXfer, offset + maxXfer)
  {
  }

  /** The chunks of a plan follow one another without gap or overlap from `from` up to `to`. */
  predicate Contiguous(plan: seq<Chunk>, from: nat, to: nat)
    decreases |plan|
  {
    if |plan| == 0 then from == to
    else plan[0].offset == from && Contiguous(plan[1..], from + plan[0].xfer, to)
  }

  /** The plan of the loop tiles the buffer from `offset` to its end. */
  lemma {:induction false} PlanContiguous(total: nat, maxXfer: nat, offset: nat)
    requires maxXfer > 0 && offset <= total
    ensures Contiguous(ChunkPlan(total, maxXfer, offset), offset, total)
    decreases total - offset
  {
    if offset < total {
      PlanStep(total, maxXfer, offset);
      if offset + maxXfer < total {
        PlanContiguous(total, maxXfer, offset + maxXfer);
      } else {
        assert ChunkPlan(total, maxXfer, offset + maxXfer) == [];
      }
    } else {
      assert ChunkPlan(total, maxXfer, offset) == [];
    }
  }

  /** A suffix of a sequence is its next piece followed by the suffix after that piece. */
  lemma SliceSplit(buf: seq<Byte>, a: nat, b: nat)
    requires a <= b <= |buf|
    ensures buf[a..] == buf[a..b] + buf[b..]
  {
  }

  /** The chunks of a write, one after the other, are the buffer from `offset` on: each byte is sent once, in order. */
  lemma SentCovers(buf: seq<Byte>, maxXfer: nat, offset: nat)
    requires maxXfer > 0 && offset <= |buf|
    ensures Sent(buf, ChunkPlan(|buf|, maxXfer, offset)) == buf[offset..]
  {
    PlanContiguous(|buf|, maxXfer, offset);
    SentTiles(buf, ChunkPlan(|buf|, maxXfer, offset), offset);
  }

  /** Contiguous chunks from `from` to the end send the buffer from `from` on. */
  lemma {:induction false} SentTiles(buf: seq<Byte>, plan: seq<Chunk>, from: nat)
    requires from <= |buf| && Contiguous(plan, from, |buf|)
    ensures Sent(buf, plan) == buf[from..]
    decreases |plan|
  {
    if |plan| > 0 {
      var x := plan[0].xfer;
      ContiguousBound(plan[1..], from + x, |buf|);
      calc {
        Sent(buf, plan);
        buf[from..from + x] + Sent(buf, plan[1..]);
        { SentTiles(buf, plan[1..], from + x); }
        buf[from..from + x] + buf[from + x..];
        { SliceSplit(buf, from, from + x); }
        buf[from..];
      }
    }
  }

  /** Contiguous chunks never run backwards. */
  lemma {:induction false} ContiguousBound(plan: seq<Chunk>, from: nat, to: nat)
    requires Contiguous(plan, from, to)
    ensures from <= to
    decreases |plan|
  {
    if |plan| > 0 {
      ContiguousBound(plan[1..], from + plan[0].xfer, to);
    }
  }

  /** What the k-th ioctl of the loop reports: its return value (negative for -errno), the firmware status, and the bytes it read. */
  datatype Reply = Reply(rc: int, fwStatus: int, data: seq<Byte>)

  /** A chunk that moved everything with no error. */
  predicate ChunkOk(rep: Reply)
  {
    rep.rc == 0 && rep.fwStatus == 0
  }

  /** Every chunk of the plan succeeded. */
  predicate AllOk(plan: seq<Chunk>, replies: seq<Reply>)
    requires |replies| >= |plan|
  {
    forall k :: 0 <= k < |plan| ==> ChunkOk(replies[k])
  }

  /**
   * What the loop returns after chunk `c` failed with `rep`: -errno for a
   * failed ioctl; otherwise the bytes done up to the end of the chunk less
   * the residue, computed in u32 and returned as an int.
   */
  function StopValue(c: Chunk, rep: Reply): int
  {
    if rep.rc < 0 then rep.rc else ToInt32(Wrap32(c.offset + c.xfer - rep.rc))
  }

  /**
   * The chunk loop of `do_cmd` for a non-empty transfer: the value it
   * returns and how many ioctls it issued. It stops at the first chunk
   * whose ioctl fails or whose firmware status or residue is non-zero.
   */
  function ChunkLoop(plan: seq<Chunk>, replies: seq<Reply>): (r: (int, nat))
    requires |replies| >= |plan|
    ensures r.1 <= |plan|
    ensures forall k :: 0 <= k < r.1 - 1 ==> ChunkOk(replies[k])
    ensures AllOk(plan, replies) ==> r == (0, |plan|)
    ensures !AllOk(plan, replies) ==> r.1 >= 1 && !ChunkOk(replies[r.1 - 1])
    ensures !AllOk(plan, replies) ==> r.0 == StopValue(plan[r.1 - 1], replies[r.1 - 1])
  {
    if |plan| == 0 then (0, 0)
    else if !ChunkOk(replies[0]) then (StopValue(plan[0], replies[0]), 1)
    else
      var rest := ChunkLoop(plan[1..], replies[1..]);
      assert AllOk(plan, replies) <==> AllOk(plan[1..], replies[1..]) by {
        assert forall k :: 1 <= k < |plan| ==> plan[k] == plan[1..][k - 1] && replies[k] == replies[1..][k - 1];
      }
      (rest.0, rest.1 + 1)
  }

  /**
   * `do_cmd`: a command with nothing to transfer is a single ioctl whose
   * value (or -errno) is returned as it is, the firmware status unread;
   * otherwise the chunk loop runs over the plan from offset 0.
   */
  function DoCmd(total: Word32, maxXfer: Word32, replies: seq<Reply>): (r: (int, nat))
    requires total > 0 ==> maxXfer > 0
    requires |replies| >= if total == 0 then 1 else |ChunkPlan(total, maxXfer, 0)|
    ensures r.1 >= 1
    ensures total == 0 ==> r == (replies[0].rc, 1)
    ensures total > 0 ==> r == ChunkLoop(ChunkPlan(total, maxXfer, 0), replies)
  {
    if total == 0 then (replies[0].rc, 1)
    else ChunkLoop(ChunkPlan(total, maxXfer, 0), replies)
  }

  /**
   * A reply with a non-zero firmware status and no error: a command with
   * no transfer returns 0 for it, while a transfer whose first chunk gets
   * it stops there and returns the bytes of that chunk.
   */
  lemma FirmwareStatusOnlyStopsTransfers(total: Word32, maxXfer: Word32, replies: seq<Reply>)
    requires total > 0 ==> maxXfer > 0
    requires |replies| >= if total == 0 then 1 else |ChunkPlan(total, maxXfer, 0)|
    requires replies[0].rc == 0 && replies[0].fwStatus != 0
    requires Min(total, maxXfer) < 0x8000_0000
    ensures total == 0 ==> DoCmd(total, maxXfer, replies) == (0, 1)
    ensures total > 0 ==> DoCmd(total, maxXfer, replies) == (Min(total, maxXfer), 1)
  {
    if total > 0 {
      var c := Chunk(0, Min(total, maxXfer));
      assert ChunkPlan(total, maxXfer, 0)[0] == c;
      ModSmall(c.xfer, U32);
    }
  }

  /** A reply the READ copy can use: a failed ioctl, or a residue no larger than the chunk with the chunk's bytes present. */
  predicate Usable(c: Chunk, rep: Reply)
  {
    rep.rc < 0 || (rep.rc <= c.xfer && |rep.data| >= c.xfer)
  }

  /** Every reply the loop gets to is usable. */
  predicate UsableAll(plan: seq<Chunk>, replies: seq<Reply>)
    requires |replies| >= |plan|
    decreases |plan|
  {
    |plan| == 0 ||
    (Usable(plan[0], replies[0]) && (ChunkOk(replies[0]) ==> UsableAll(plan[1..], replies[1..])))
  }

  /**
   * The READ side of the loop: each ioctl that returned copies the bytes it
   * read, less the residue, to its place in the buffer; the loop stops
   * after the first chunk that failed.
   */
  function ReadInto(buf: seq<Byte>, plan: seq<Chunk>, replies: seq<Reply>): (r: seq<Byte>)
    requires |replies| >= |plan|
    requires UsableAll(plan, replies)
    ensures |r| == |buf|
    decreases |plan|
  {
    if |plan| == 0 then buf
    else
      var c := plan[0];
      var rep := replies[0];
      var next := if rep.rc < 0 then buf else Store(buf, c.offset, rep.data[..c.xfer - rep.rc]);
      if !ChunkOk(rep) then next
      else ReadInto(next, plan[1..], replies[1..])
  }

  /** Every chunk succeeds and brings the device's bytes for the range it covers. */
  predicate Delivers(area: seq<Byte>, plan: seq<Chunk>, replies: seq<Reply>)
    requires |replies| >= |plan|
    decreases |plan|
  {
    |plan| == 0 ||
    (ChunkOk(replies[0]) && plan[0].offset + plan[0].xfer <= |area| && |replies[0].data| >= plan[0].xfer &&
     replies[0].data[..plan[0].xfer] == area[plan[0].offset..plan[0].offset + plan[0].xfer] &&
     Delivers(area, plan[1..], replies[1..]))
  }

  lemma {:induction false} DeliversUsable(area: seq<Byte>, plan: seq<Chunk>, replies: seq<Reply>)
    requires |replies| >= |plan|
    requires Delivers(area, plan, replies)
    ensures UsableAll(plan, replies)
    decreases |plan|
  {
    if |plan| > 0 {
      DeliversUsable(area, plan[1..], replies[1..]);
    }
  }

  /** A READ whose first chunk succeeded stores that chunk's bytes and goes on with the rest of the plan. */
  lemma ReadFirst(buf: seq<Byte>, plan: seq<Chunk>, replies: seq<Reply>)
    requires |plan| >= 1 && |replies| >= |plan| && ChunkOk(replies[0]) && |replies[0].data| >= plan[0].xfer
    requires UsableAll(plan[1..], replies[1..])
    ensures UsableAll(plan, replies)
    ensures ReadInto(buf, plan, replies) == ReadInto(Store(buf, plan[0].offset, replies[0].data[..plan[0].xfer]), plan[1..], replies[1..])
  {
  }

  /** Storing the device's bytes of `[from, from + n)` extends the assembled prefix by them. */
  lemma StorePrefix(buf: seq<Byte>, area: seq<Byte>, from: nat, n: nat)
    requires |buf| == |area| && from + n <= |area|
    ensures Store(buf, from, area[from..from + n])[..from + n] == buf[..from] + area[from..from + n]
  {
    var s := Store(buf, from, area[from..from + n]);
    forall k | 0 <= k < from + n
      ensures s[k] == (buf[..from] + area[from..from + n])[k]
    {
      if k >= from {
        assert s[k] == area[from..from + n][k - from];
      }
    }
  }

  /**
   * A READ over contiguous chunks from `from` to the end, each succeeding
   * and delivering the device's bytes, keeps the buffer before `from` and
   * holds the device's bytes from `from` on.
   */
  lemma {:induction false} ReadTiles(buf: seq<Byte>, area: seq<Byte>, plan: seq<Chunk>, replies: seq<Reply>, from: nat)
    requires |buf| == |area| && from <= |area| && |replies| >= |plan|
    requires Contiguous(plan, from, |area|) && Delivers(area, plan, replies)
    ensures UsableAll(plan, replies)
    ensures ReadInto(buf, plan, replies) == buf[..from] + area[from..]
    decreases |plan|
  {
    if |plan| == 0 {
      assert buf[..from] + area[from..] == buf;
    } else {
      var x := plan[0].xfer;
      var next := Store(buf, from, area[from..from + x]);
      DeliversUsable(area, plan[1..], replies[1..]);
      ReadFirst(buf, plan, replies);
      calc {
        ReadInto(buf, plan, replies);
        ReadInto(next, plan[1..], replies[1..]);
        { ReadTiles(next, area, plan[1..], replies[1..], from + x); }
        next[..from + x] + area[from + x..];
        { StorePrefix(buf, area, from, x); }
        buf[..from] + area[from..from + x] + area[from + x..];
        { assert area[from..] == area[from..from + x] + area[from + x..]; }
        buf[..from] + area[from..];
      }
    }
  }

  /**
   * A chunked READ whose every chunk succeeds and delivers the device's
   * bytes leaves exactly the device's config area in the buffer, and the
   * loop returns 0.
   */
  lemma ReadAssembles(buf: seq<Byte>, area: seq<Byte>, maxXfer: nat, replies: seq<Reply>)
    requires maxXfer > 0 && |buf| == |area|
    requires |replies| >= |ChunkPlan(|area|, maxXfer, 0)|
    requires Delivers(area, ChunkPlan(|area|, maxXfer, 0), replies)
    ensures UsableAll(ChunkPlan(|area|, maxXfer, 0), replies)
    ensures ReadInto(buf, ChunkPlan(|area|, maxXfer, 0), replies) == area
    ensures ChunkLoop(ChunkPlan(|area|, maxXfer, 0), replies).0 == 0
  {
    PlanContiguous(|area|, maxXfer, 0);
    ReadTiles(buf, area, ChunkPlan(|area|, maxXfer, 0), replies, 0);
    assert buf[..0] + area[0..] == area;
    DeliversAllOk(area, ChunkPlan(|area|, maxXfer, 0), replies);
  }

  lemma {:induction false} DeliversAllOk(area: seq<Byte>, plan: seq<Chunk>, replies: seq<Reply>)
    requires |replies| >= |plan|
    requires Delivers(area, plan, replies)
    ensures AllOk(plan, replies)
    decreases |plan|
  {
    if |plan| > 0 {
      DeliversAllOk(area, plan[1..], replies[1..]);
      assert forall k :: 1 <= k < |plan| ==> replies[k] == replies[1..][k - 1];
    }
  }

  // ---------------------------------------------------------------------
  // The loop's u32 offset
  // ---------------------------------------------------------------------

  /**
   * The offsets the loop as written visits in its first `steps` rounds:
   * `offset` is a u32, so `offset += max_xfer` wraps around.
   */
  function OffsetsAsWritten(total: Word32, maxXfer: Word32, offset: Word32, steps: nat): (r: seq<nat>)
    ensures |r| <= steps
    decreases steps
  {
    if steps == 0 || offset >= total then []
    else [offset] + OffsetsAsWritten(total, maxXfer, Wrap32(offset + maxXfer), steps - 1)
  }

  /** The offsets of a plan. */
  function PlanOffsets(plan: seq<Chunk>): (r: seq<nat>)
    ensures |r| == |plan|
    ensures forall k :: 0 <= k < |plan| ==> r[k] == plan[k].offset
  {
    if |plan| == 0 then [] else [plan[0].offset] + PlanOffsets(plan[1..])
  }

  /**
   * A transfer of 2^32 - 1 bytes in chunks of 2^31: the u32 offset wraps
   * from 2^31 back to 0, which is below the total, so the loop starts the
   * transfer over instead of ending.
   */
  lemma OffsetWrapRestarts()
    ensures OffsetsAsWritten(0xFFFF_FFFF, 0x8000_0000, 0, 3) == [0, 0x8000_0000, 0]
  {
    assert Wrap32(0x8000_0000 + 0x8000_0000) == 0;
  }

  /**
   * While the last offset plus `max_xfer` stays below 2^32 the u32 loop
   * visits exactly the offsets of the plan, so the plan is the loop's
   * intended behaviour.
   */
  lemma {:induction false} OffsetsAgree(total: Word32, maxXfer: Word32, offset: Word32, steps: nat)
    requires maxXfer > 0 && total + maxXfer <= U32
    requires steps >= |ChunkPlan(total, maxXfer, offset)|
    ensures OffsetsAsWritten(total, maxXfer, offset, steps) == PlanOffsets(ChunkPlan(total, maxXfer, offset))
    decreases steps
  {
    if offset < total {
      var next := offset + maxXfer;
      var plan := ChunkPlan(total, maxXfer, offset);
      PlanStep(total, maxXfer, offset);
      calc {
        OffsetsAsWritten(total, maxXfer, offset, steps);
        [offset] + OffsetsAsWritten(total, maxXfer, next, steps - 1);
        { OffsetsAgree(total, maxXfer, next, steps - 1); }
        [offset] + PlanOffsets(plan[1..]);
        [plan[0].offset] + PlanOffsets(plan[1..]);
      }
    }
  }
}
