/**
 * Error injection for a namespace: the translation of a block range to a
 * system-physical byte range, the firmware status translation, and the list
 * of injected bad-block ranges, kept sorted by first block with overlapping
 * and adjoining ranges merged.
 */
module Inject {
  import opened Machine
  import opened Wrappers
  import opened Errno

  const SECTOR_SIZE: nat := 512
  const ND_ARS_ERR_INJ_STATUS_NOT_SUPP: nat := 1
  const ND_ARS_ERR_INJ_STATUS_INVALID_PARAM: nat := 2

  // ---------------------------------------------------------------------
  // Block range to byte range
  // ---------------------------------------------------------------------

  /** A system-physical byte range: its first byte and its length. */
  datatype SpaRange = SpaRange(offset: nat, length: nat)

  /**
   * The byte range of `count` blocks from `block` in a namespace at
   * `nsOffset` of `nsSize` bytes, with every sum and product wrapping at
   * 2^64 as the u64 arithmetic does; a range ending past the namespace is
   * refused with -EINVAL.
   */
  function BlockToSpaOffset(nsOffset: Word64, nsSize: Word64, block: Word64, count: Word64): (r: Result<SpaRange>)
    ensures r.Err? ==> r.code == -EINVAL
    ensures r.Ok? ==> r.value.offset == Wrap64(nsOffset + Wrap64(block * SECTOR_SIZE))
                      && r.value.length == Wrap64(count * SECTOR_SIZE)
    ensures r.Ok? <==> Wrap64(Wrap64(nsOffset + Wrap64(block * SECTOR_SIZE)) + Wrap64(count * SECTOR_SIZE))
                       <= Wrap64(nsOffset + nsSize)
  {
    var offset := Wrap64(nsOffset + Wrap64(block * SECTOR_SIZE));
    var length := Wrap64(count * SECTOR_SIZE);
    if Wrap64(offset + length) > Wrap64(nsOffset + nsSize) then Err(-EINVAL)
    else Ok(SpaRange(offset, length))
  }

  /** A request for 2^55 blocks wraps its length to 0 and passes the bounds check of a one-block namespace. */
  lemma HugeCountPassesBoundsCheck()
    ensures BlockToSpaOffset(0, 512, 0, 0x80_0000_0000_0000) == Ok(SpaRange(0, 0))
  {
    assert 0x80_0000_0000_0000 * SECTOR_SIZE == U64;
  }

  /**
   * The bounds check computed without wrap-around: the range is accepted iff
   * its blocks lie inside the namespace.
   */
  function BlockToSpaOffsetChecked(nsOffset: Word64, nsSize: Word64, block: Word64, count: Word64): (r: Result<SpaRange>)
    ensures r.Ok? <==> (block + count) * SECTOR_SIZE <= nsSize
    ensures r.Err? ==> r.code == -EINVAL
    ensures r.Ok? ==> r.value.offset == nsOffset + block * SECTOR_SIZE
                      && r.value.length == count * SECTOR_SIZE
                      && nsOffset <= r.value.offset
                      && r.value.offset + r.value.length <= nsOffset + nsSize
  {
    var offset := nsOffset + block * SECTOR_SIZE;
    var length := count * SECTOR_SIZE;
    if offset + length > nsOffset + nsSize then Err(-EINVAL)
    else Ok(SpaRange(offset, length))
  }

  /** Where nothing wraps, the two checks agree. */
  lemma BoundsChecksAgree(nsOffset: Word64, nsSize: Word64, block: Word64, count: Word64)
    requires nsOffset + nsSize < U64
    requires nsOffset + (block + count) * SECTOR_SIZE < U64
    ensures BlockToSpaOffset(nsOffset, nsSize, block, count) == BlockToSpaOffsetChecked(nsOffset, nsSize, block, count)
  {
    var a := block * SECTOR_SIZE;
    var b := count * SECTOR_SIZE;
    assert a + b == (block + count) * SECTOR_SIZE;
    assert nsOffset + a < U64 && b < U64;
    ModSmall(a, U64);
    ModSmall(b, U64);
    ModSmall(nsOffset + a, U64);
    ModSmall(nsOffset + a + b, U64);
    ModSmall(nsOffset + nsSize, U64);
  }

  /** The firmware's injection status as an error code. */
  function TranslateStatus(status: Word32): (r: int)
    ensures r == -EOPNOTSUPP <==> status == ND_ARS_ERR_INJ_STATUS_NOT_SUPP
    ensures r == -EINVAL <==> status == ND_ARS_ERR_INJ_STATUS_INVALID_PARAM
    ensures r == 0 <==> status != ND_ARS_ERR_INJ_STATUS_NOT_SUPP && status != ND_ARS_ERR_INJ_STATUS_INVALID_PARAM
  {
    if status == ND_ARS_ERR_INJ_STATUS_NOT_SUPP then -EOPNOTSUPP
    else if status == ND_ARS_ERR_INJ_STATUS_INVALID_PARAM then -EINVAL
    else 0
  }

  // ---------------------------------------------------------------------
  // The injected bad-block list
  // ---------------------------------------------------------------------

  /** A bad-block range: `count` blocks from `block`. */
  datatype Bb = Bb(block: nat, count: nat)

  predicate Holds(b: Bb, x: int)
  {
    b.block <= x < b.block + b.count
  }

  /** Block `x` lies in some range of the list. */
  predicate Covers(list: seq<Bb>, x: int)
  {
    exists b :: b in list && Holds(b, x)
  }

  predicate Sorted(list: seq<Bb>)
  {
    forall i, j :: 0 <= i < j < |list| ==> list[i].block <= list[j].block
  }

  /** `b` ends before the block preceding `c`'s first: they neither overlap nor adjoin. */
  predicate Apart(b: Bb, c: Bb)
  {
    b.block + b.count < c.block
  }

  predicate Separated(list: seq<Bb>)
  {
    forall j :: 0 <= j && j + 1 < |list| ==> Apart(list[j], list[j + 1])
  }

  /**
   * The source's walk for the insertion point: before the head if the new
   * range starts earlier, else after the first entry whose successor does
   * not start earlier than the new range, else at the tail.
   */
  method InsertRecord(list: seq<Bb>, nb: Bb) returns (r: seq<Bb>)
    requires Sorted(list)
    ensures Sorted(r)
    ensures multiset(r) == multiset(list) + multiset{nb}
    ensures forall b :: b in r <==> b in list || b == nb
  {
    if |list| == 0 {
      return [nb];
    }
    var p := InsertPosition(list, nb);
    r := list[..p] + [nb] + list[p..];
    InsertedSorted(list, p, nb);
    assert list == list[..p] + list[p..];
  }

  /** The position the source's walk inserts `nb` at in a non-empty list. */
  method InsertPosition(list: seq<Bb>, nb: Bb) returns (p: nat)
    requires Sorted(list) && |list| > 0
    ensures p <= |list|
    ensures p > 0 ==> list[p - 1].block <= nb.block
    ensures p < |list| ==> nb.block <= list[p].block
  {
    var i: nat := 0;
    while true
      invariant 0 <= i < |list|
      invariant i > 0 ==> list[i].block < nb.block
      decreases |list| - i
    {
      if i == 0 && nb.block < list[0].block {
        return 0;
      }
      if i == |list| - 1 {
        return |list|;
      }
      if i > 0 && list[i - 1].block <= nb.block && nb.block <= list[i].block {
        // Adding to the left of entry i never happens on a sorted list: the
        // walk only reaches entry i once it starts below nb.
        assert false;
      }
      if list[i].block <= nb.block && nb.block <= list[i + 1].block {
        return i + 1;
      }
      i := i + 1;
    }
  }

  lemma InsertedSorted(list: seq<Bb>, p: nat, nb: Bb)
    requires Sorted(list) && p <= |list|
    requires p > 0 ==> list[p - 1].block <= nb.block
    requires p < |list| ==> nb.block <= list[p].block
    ensures Sorted(list[..p] + [nb] + list[p..])
  {
    var r := list[..p] + [nb] + list[p..];
    forall i, j | 0 <= i < j < |r|
      ensures r[i].block <= r[j].block
    {
      if j < p || i > p {
      } else if i == p {
        assert r[j] == list[j - 1];
      } else if j == p {
        assert r[i] == list[i];
      } else {
        assert r[i] == list[i] && r[j] == list[j - 1];
      }
    }
  }

  /**
   * Merges `next` into `cur` when they overlap or adjoin, computing ends in
   * unbounded integers: the merged range starts at `cur` and ends at the
   * farther of the two ends.
   */
  function MergeStep(cur: Bb, next: Bb): (r: Option<Bb>)
    requires cur.block <= next.block
    ensures r.None? <==> Apart(cur, next)
    ensures r.Some? ==> r.value.block == cur.block
    ensures r.Some? ==> forall x :: Holds(r.value, x) <==> Holds(cur, x) || Holds(next, x)
  {
    var curEnd := cur.block + cur.count - 1;
    var nextEnd := next.block + next.count - 1;
    if curEnd >= next.block then
      Some(if nextEnd > curEnd then Bb(cur.block, nextEnd - cur.block + 1) else cur)
    else if next.block == curEnd + 1 then
      Some(Bb(cur.block, nextEnd - cur.block + 1))
    else
      None
  }

  /**
   * The merge step as the source computes it, with u64 ends: `block + count
   * - 1` wraps to 2^64 - 1 for an empty range at block 0.
   */
  function MergeStepU64(cur: Bb, next: Bb): (r: Option<Bb>)
    requires cur.block < U64 && cur.count < U64 && next.block < U64 && next.count < U64
    ensures r.Some? ==> r.value.block == cur.block && r.value.count < U64
  {
    var curEnd := Wrap64(cur.block + cur.count - 1);
    var nextEnd := Wrap64(next.block + next.count - 1);
    if curEnd >= next.block then
      Some(if nextEnd > curEnd then Bb(cur.block, Wrap64(nextEnd - cur.block + 1)) else cur)
    else if next.block == curEnd + 1 then
      Some(Bb(cur.block, Wrap64(nextEnd - cur.block + 1)))
    else
      None
  }

  /** For non-empty ranges that end below 2^64 the u64 step is the unbounded one. */
  lemma MergeStepsAgree(cur: Bb, next: Bb)
    requires cur.block <= next.block
    requires 1 <= cur.count && 1 <= next.count
    requires cur.block + cur.count < U64 && next.block + next.count < U64
    ensures MergeStepU64(cur, next) == MergeStep(cur, next)
  {
    ModSmall(cur.block + cur.count - 1, U64);
    ModSmall(next.block + next.count - 1, U64);
    ModSmall(next.block + next.count - cur.block, U64);
  }

  /** An empty range at block 0 swallows the range [7, 8) that follows it. */
  lemma EmptyRangeAtZeroSwallowsNext()
    ensures MergeStepU64(Bb(0, 0), Bb(7, 1)) == Some(Bb(0, 0))
    ensures Holds(Bb(7, 1), 7) && !Holds(Bb(0, 0), 7)
    ensures MergeStep(Bb(0, 0), Bb(7, 1)).None?
  {
  }

  /** The members of a spliced list: the new range, and what was there before except the two neighbours. */
  lemma SpliceMembers(list: seq<Bb>, i: nat, m: Bb)
    requires i + 1 < |list|
    ensures m in list[..i] + [m] + list[i + 2..]
    ensures forall b :: b in list[..i] + [m] + list[i + 2..] ==> b == m || b in list
    ensures forall b :: b in list ==> b in list[..i] + [m] + list[i + 2..] || b == list[i] || b == list[i + 1]
  {
    assert list == list[..i] + [list[i]] + [list[i + 1]] + list[i + 2..];
  }

  /** Replacing two neighbours by a range holding exactly their blocks keeps the covered set. */
  lemma SpliceCovers(list: seq<Bb>, i: nat, m: Bb)
    requires i + 1 < |list|
    requires forall x :: Holds(m, x) <==> Holds(list[i], x) || Holds(list[i + 1], x)
    ensures forall x :: Covers(list[..i] + [m] + list[i + 2..], x) <==> Covers(list, x)
  {
    var s := list[..i] + [m] + list[i + 2..];
    SpliceMembers(list, i, m);
    forall x
      ensures Covers(s, x) <==> Covers(list, x)
    {
      if Covers(s, x) {
        var b :| b in s && Holds(b, x);
        if b == m {
          if Holds(list[i], x) {
            assert list[i] in list;
          } else {
            assert list[i + 1] in list;
          }
        }
      }
      if Covers(list, x) {
        var b :| b in list && Holds(b, x);
        if b == list[i] || b == list[i + 1] {
          assert Holds(m, x);
        }
      }
    }
  }

  /**
   * The source's second pass: each range in turn absorbs its successors for
   * as long as they overlap or adjoin it. The result is `MergePass`.
   */
  method MergeRecords(list: seq<Bb>) returns (r: seq<Bb>)
    requires Sorted(list)
    ensures Sorted(r) && Separated(r)
    ensures forall x :: Covers(r, x) <==> Covers(list, x)
    ensures r == MergePass(list, 0)
  {
    r := list;
    var i := 0;
    while i < |r|
      invariant i <= |r| && Sorted(r)
      invariant forall j :: 0 <= j < i && j + 1 < |r| ==> Apart(r[j], r[j + 1])
      invariant forall x :: Covers(r, x) <==> Covers(list, x)
      invariant MergePass(r, i) == MergePass(list, 0)
      decreases |r| - i
    {
      while i + 1 < |r| && MergeStep(r[i], r[i + 1]).Some?
        invariant i < |r| && Sorted(r)
        invariant forall j :: 0 <= j < i && j + 1 < |r| ==> Apart(r[j], r[j + 1])
        invariant forall x :: Covers(r, x) <==> Covers(list, x)
        invariant MergePass(r, i) == MergePass(list, 0)
        decreases |r|
      {
        var m := MergeStep(r[i], r[i + 1]).value;
        SpliceCovers(r, i, m);
        SpliceSorted(r, i, m);
        r := r[..i] + [m] + r[i + 2..];
      }
      i := i + 1;
    }
  }

  /** The second pass from entry `i` on, with the unbounded step. */
  function MergePass(list: seq<Bb>, i: nat): seq<Bb>
    requires Sorted(list)
    decreases |list| - i
  {
    if i + 1 >= |list| then list
    else
      match MergeStep(list[i], list[i + 1])
      case Some(m) =>
        SpliceSorted(list, i, m);
        MergePass(list[..i] + [m] + list[i + 2..], i)
      case None => MergePass(list, i + 1)
  }

  /** Every first block and count of the list fits in a u64. */
  predicate Words(list: seq<Bb>)
  {
    forall k :: 0 <= k < |list| ==> list[k].block < U64 && list[k].count < U64
  }

  /**
   * The second pass as the source computes it, with the u64 step: the
   * result keeps the first entries and has no more entries than the list.
   */
  function MergePassU64(list: seq<Bb>, i: nat): (r: seq<Bb>)
    requires Words(list)
    ensures |r| <= |list| && Words(r)
    ensures r[..if i < |r| then i else |r|] == list[..if i < |r| then i else |r|]
    ensures Sorted(list) ==> Sorted(r) && forall x :: Covers(r, x) ==> Covers(list, x)
    decreases |list| - i
  {
    if i + 1 >= |list| then list
    else
      match MergeStepU64(list[i], list[i + 1])
      case Some(m) =>
        var next := list[..i] + [m] + list[i + 2..];
        assert forall k :: 0 <= k < |next| ==> next[k] == (if k < i then list[k] else if k == i then m else list[k + 1]);
        assert next[..i] == list[..i];
        SpliceU64Sound(list, i, m);
        MergePassU64(next, i)
      case None => MergePassU64(list, i + 1)
  }

  /**
   * On a sorted list the u64 step may lose blocks but never invents one:
   * every block of the merged range lies in one of the two ranges.
   */
  lemma MergeStepU64Sound(cur: Bb, next: Bb)
    requires cur.block < U64 && cur.count < U64 && next.block < U64 && next.count < U64
    requires cur.block <= next.block
    requires MergeStepU64(cur, next).Some?
    ensures forall x :: Holds(MergeStepU64(cur, next).value, x) ==> Holds(cur, x) || Holds(next, x)
  {
    var a, c, b, d := cur.block, cur.count, next.block, next.count;
    var ce := if a + c - 1 < 0 then U64 - 1 else if a + c - 1 < U64 then a + c - 1 else a + c - 1 - U64;
    var ne := if b + d - 1 < 0 then U64 - 1 else if b + d - 1 < U64 then b + d - 1 else b + d - 1 - U64;
    assert Wrap64(a + c - 1) == ce;
    assert Wrap64(b + d - 1) == ne;
    var m := MergeStepU64(cur, next).value;
    if m != cur {
      var n := ne - a + 1;
      var w := if n < 0 then n + U64 else if n < U64 then n else n - U64;
      assert Wrap64(n) == w;
      assert m == Bb(a, w);
    }
  }

  /** Replacing entries i and i+1 of a sorted list by their u64 merge keeps it sorted and invents no block. */
  lemma SpliceU64Sound(list: seq<Bb>, i: nat, m: Bb)
    requires Words(list) && i + 1 < |list|
    requires MergeStepU64(list[i], list[i + 1]) == Some(m)
    ensures Sorted(list) ==> Sorted(list[..i] + [m] + list[i + 2..])
    ensures Sorted(list) ==> forall x :: Covers(list[..i] + [m] + list[i + 2..], x) ==> Covers(list, x)
  {
    if !Sorted(list) {
      return;
    }
    var next := list[..i] + [m] + list[i + 2..];
    assert forall k :: 0 <= k < |next| ==> next[k] == (if k < i then list[k] else if k == i then m else list[k + 1]);
    MergeStepU64Sound(list[i], list[i + 1]);
    forall x | Covers(next, x)
      ensures Covers(list, x)
    {
      var b :| b in next && Holds(b, x);
      var k :| 0 <= k < |next| && next[k] == b;
      if k == i {
        if Holds(list[i], x) {
          assert list[i] in list;
        } else {
          assert list[i + 1] in list;
        }
      } else if k < i {
        assert list[k] in list;
      } else {
        assert list[k + 1] in list;
      }
    }
  }

  /** No range is empty and none reaches block 2^64. */
  predicate NoWrap(list: seq<Bb>)
  {
    forall k :: 0 <= k < |list| ==> 1 <= list[k].count && list[k].block + list[k].count < U64
  }

  /**
   * Where no range is empty and none reaches 2^64, the source's pass
   * returns what the unbounded pass returns.
   */
  lemma {:induction false} MergePassesAgree(list: seq<Bb>, i: nat)
    requires Sorted(list) && NoWrap(list)
    ensures Words(list) && MergePassU64(list, i) == MergePass(list, i)
    decreases |list| - i
  {
    if i + 1 < |list| {
      MergeStepsAgree(list[i], list[i + 1]);
      match MergeStep(list[i], list[i + 1])
      case Some(m) =>
        SpliceSorted(list, i, m);
        var next := list[..i] + [m] + list[i + 2..];
        assert Holds(m, list[i].block) && 1 <= m.count;
        assert NoWrap(next) by {
          forall k | 0 <= k < |next|
            ensures 1 <= next[k].count && next[k].block + next[k].count < U64
          {
            if k > i {
              assert next[k] == list[k + 1];
            }
          }
        }
        MergePassesAgree(next, i);
      case None =>
        MergePassesAgree(list, i + 1);
    }
  }

  /**
   * The list `bb_add_record(7, 1)` builds from one empty range at block 0
   * before merging is the empty range then [7, 8); as written, the merge
   * pass keeps the empty range alone and block 7 is lost, while the
   * unbounded pass keeps both.
   */
  lemma EmptyRangeAtZeroLosesBlocks(inserted: seq<Bb>)
    requires Sorted(inserted) && multiset(inserted) == multiset([Bb(0, 0)]) + multiset{Bb(7, 1)}
    ensures inserted == [Bb(0, 0), Bb(7, 1)]
    ensures Words(inserted) && MergePassU64(inserted, 0) == [Bb(0, 0)]
    ensures Covers(inserted, 7) && !Covers(MergePassU64(inserted, 0), 7)
    ensures MergePass(inserted, 0) == inserted
  {
    assert |inserted| == 2 by {
      assert |multiset(inserted)| == 2;
    }
    assert inserted[0] in multiset(inserted) && inserted[1] in multiset(inserted);
    assert inserted == [inserted[0], inserted[1]];
    assert inserted == [Bb(0, 0), Bb(7, 1)];
    EmptyRangeAtZeroSwallowsNext();
    var next := inserted[..0] + [Bb(0, 0)] + inserted[2..];
    assert next == [Bb(0, 0)];
    assert Bb(7, 1) in inserted && Holds(Bb(7, 1), 7);
    assert MergePass(inserted, 1) == inserted;
  }

  lemma SpliceSorted(list: seq<Bb>, i: nat, m: Bb)
    requires i + 1 < |list| && Sorted(list) && m.block == list[i].block
    ensures var s := list[..i] + [m] + list[i + 2..];
      Sorted(s) && |s| == |list| - 1
      && (forall j :: 0 <= j < i ==> s[j] == list[j])
      && s[i] == m
      && (forall j :: i < j < |s| ==> s[j] == list[j + 1])
  {
    var s := list[..i] + [m] + list[i + 2..];
    forall a, b | 0 <= a < b < |s|
      ensures s[a].block <= s[b].block
    {
      var a' := if a <= i then a else a + 1;
      var b' := if b <= i then b else b + 1;
      assert s[a].block == list[a'].block;
      assert s[b].block == list[b'].block;
    }
  }

  /**
   * Adds the range of `count` blocks from `block`: the list stays sorted,
   * no two neighbours overlap or adjoin, and it covers its old blocks plus
   * the new ones and nothing else.
   */
  method BbAddRecord(list: seq<Bb>, block: nat, count: nat) returns (r: seq<Bb>)
    requires Sorted(list)
    ensures Sorted(r) && Separated(r)
    ensures forall x :: Covers(r, x) <==> Covers(list, x) || block <= x < block + count
  {
    var nb := Bb(block, count);
    var inserted := InsertRecord(list, nb);
    r := MergeRecords(inserted);
    forall x
      ensures Covers(inserted, x) <==> Covers(list, x) || Holds(nb, x)
    {
      if Holds(nb, x) {
        assert nb in inserted;
      }
    }
  }

  /**
   * A list already separated is unchanged by the merge pass, and so it is
   * by the source's u64 step when no range is empty or reaches 2^64.
   */
  lemma SeparatedHasNoMerge(list: seq<Bb>, i: nat)
    requires Separated(list) && Sorted(list) && i + 1 < |list|
    ensures MergeStep(list[i], list[i + 1]).None?
    ensures NoWrap(list) ==> MergeStepU64(list[i], list[i + 1]).None?
  {
    if NoWrap(list) {
      MergeStepsAgree(list[i], list[i + 1]);
    }
  }

  /**
   * A reported range of no bytes at the namespace's first byte is the empty
   * range at block 0.
   */
  lemma EmptyRecordAtStart(nsSpa: Word64, nsSize: Word64)
    requires 0 < nsSize && nsSpa + nsSize < U64
    ensures StatusBlocks(StatusRecord(nsSpa, 0), nsSpa, nsSize) == Some(Bb(0, 0))
  {
    ModSmall(nsSpa + nsSize, U64);
    ModSmall(SECTOR_SIZE - 1, U64);
  }

  // ---------------------------------------------------------------------
  // Injection status to bad blocks
  // ---------------------------------------------------------------------

  /** One injected range as the firmware reports it: a system-physical base and length. */
  datatype StatusRecord = StatusRecord(base: Word64, length: Word64)

  /**
   * The blocks of a reported range relative to a namespace at `nsSpa` of
   * `nsSize` bytes; ranges starting outside the namespace are discarded.
   * The count rounds the padded length up to whole blocks in u64.
   */
  function StatusBlocks(rec: StatusRecord, nsSpa: Word64, nsSize: Word64): (r: Option<Bb>)
    ensures r.Some? <==> nsSpa <= rec.base < Wrap64(nsSpa + nsSize)
    ensures r.Some? ==> r.value.block * SECTOR_SIZE <= rec.base - nsSpa < (r.value.block + 1) * SECTOR_SIZE
  {
    if rec.base < nsSpa then None
    else if rec.base >= Wrap64(nsSpa + nsSize) then None
    else
      var nsOff := rec.base - nsSpa;
      var block := (nsOff - nsOff % SECTOR_SIZE) / SECTOR_SIZE;
      var startPad := nsOff - block * SECTOR_SIZE;
      var count := Wrap64(startPad + rec.length + SECTOR_SIZE - 1) / SECTOR_SIZE;
      Some(Bb(block, count))
  }

  /** Without wrap-around the blocks are the fewest whole blocks holding every reported byte. */
  lemma StatusBlocksCoverBytes(rec: StatusRecord, nsSpa: Word64, nsSize: Word64)
    requires StatusBlocks(rec, nsSpa, nsSize).Some?
    requires rec.base + rec.length + SECTOR_SIZE < U64
    ensures var b := StatusBlocks(rec, nsSpa, nsSize).value;
      var off := rec.base - nsSpa;
      off + rec.length <= (b.block + b.count) * SECTOR_SIZE
      && (rec.length > 0 ==> (b.block + b.count - 1) * SECTOR_SIZE < off + rec.length)
      && (rec.length == 0 ==> b.count == 0 || off % SECTOR_SIZE != 0)
  {
    var b := StatusBlocks(rec, nsSpa, nsSize).value;
    var off := rec.base - nsSpa;
    var pad := off - b.block * SECTOR_SIZE;
    assert pad == off % SECTOR_SIZE;
    ModSmall(pad + rec.length + SECTOR_SIZE - 1, U64);
    var n := pad + rec.length + SECTOR_SIZE - 1;
    assert b.count == n / SECTOR_SIZE;
    assert b.count * SECTOR_SIZE <= n < b.count * SECTOR_SIZE + SECTOR_SIZE;
  }

  /** Every in-range reported record, as blocks, is added to the list. */
  method InjectionStatusToBb(list: seq<Bb>, recs: seq<StatusRecord>, nsSpa: Word64, nsSize: Word64) returns (r: seq<Bb>)
    requires Sorted(list)
    ensures Sorted(r)
    ensures Separated(list) ==> Separated(r)
    ensures forall x :: Covers(r, x) <==> Covers(list, x) || ReportedCovers(recs, nsSpa, nsSize, |recs|, x)
  {
    r := list;
    var i := 0;
    while i < |recs|
      invariant i <= |recs| && Sorted(r)
      invariant Separated(list) ==> Separated(r)
      invariant forall x :: Covers(r, x) <==> Covers(list, x) || ReportedCovers(recs, nsSpa, nsSize, i, x)
    {
      var b := StatusBlocks(recs[i], nsSpa, nsSize);
      if b.Some? {
        r := BbAddRecord(r, b.value.block, b.value.count);
      }
      i := i + 1;
    }
  }

  /** Block `x` lies in the blocks of one of the first `n` in-range records. */
  predicate ReportedCovers(recs: seq<StatusRecord>, nsSpa: Word64, nsSize: Word64, n: nat, x: int)
    requires n <= |recs|
  {
    exists k :: 0 <= k < n && StatusBlocks(recs[k], nsSpa, nsSize).Some?
                && Holds(StatusBlocks(recs[k], nsSpa, nsSize).value, x)
  }

  /** The first block of a listed range, or ULLONG_MAX when there is none. */
  function BbGetBlock(bb: Option<Bb>): (r: nat)
    ensures bb.None? ==> r == ULLONG_MAX
    ensures bb.Some? ==> r == bb.value.block
  {
    if bb.Some? then bb.value.block else ULLONG_MAX
  }

  /** The block count of a listed range, or ULLONG_MAX when there is none. */
  function BbGetCount(bb: Option<Bb>): (r: nat)
    ensures bb.None? ==> r == ULLONG_MAX
    ensures bb.Some? ==> r == bb.value.count
  {
    if bb.Some? then bb.value.count else ULLONG_MAX
  }
}
