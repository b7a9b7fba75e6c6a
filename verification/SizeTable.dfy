/** Size and rate tables (tbf/tc_core.c:80-200): a table lookup by shifted length instead of the computation. */
module SizeTable {
  import opened Basics

  const UINT16_MAX: nat := 65535
  const ATM_CELL_PAYLOAD: nat := 48
  const ATM_CELL_SIZE: nat := 53

  datatype LinkLayer = Unspec | Ethernet | Atm

  /** x >> k and x << k, without overflow. */
  function Shr(x: nat, k: nat): nat { if k == 0 then x else Shr(x / 2, k - 1) }

  function Shl(x: nat, k: nat): nat { if k == 0 then x else 2 * Shl(x, k - 1) }

  lemma {:induction false} ShrStep(x: nat, k: nat)
    ensures Shr(x, k + 1) == Shr(x, k) / 2
    decreases k
  {
    if k > 0 {
      ShrStep(x / 2, k - 1);
    }
  }

  lemma {:induction false} ShrMonotone(x: nat, y: nat, k: nat)
    requires x <= y
    ensures Shr(x, k) <= Shr(y, k)
    decreases k
  {
    if k > 0 {
      ShrMonotone(x / 2, y / 2, k - 1);
    }
  }

  lemma {:induction false} ShlMonotone(x: nat, y: nat, k: nat)
    requires x <= y
    ensures Shl(x, k) <= Shl(y, k)
  {
    if k > 0 {
      ShlMonotone(x, y, k - 1);
    }
  }

  /** n lies in the cell that its shifted value names. */
  lemma {:induction false} InCell(n: nat, k: nat)
    ensures Shl(Shr(n, k), k) <= n < Shl(Shr(n, k) + 1, k)
    decreases k
  {
    if k > 0 {
      InCell(n / 2, k - 1);
    }
  }

  /** As many cells as hold the bytes, and no more. */
  function Cells(size: nat): (c: nat)
    ensures ATM_CELL_PAYLOAD * c >= size && (c > 0 ==> ATM_CELL_PAYLOAD * (c - 1) < size)
  {
    size / ATM_CELL_PAYLOAD + (if size % ATM_CELL_PAYLOAD > 0 then 1 else 0)
  }

  /** tc_align_to_atm */
  function AtmSize(size: nat): nat { ATM_CELL_SIZE * Cells(size) }

  /** tc_adjust_size */
  function Adjust(sz: nat, mpu: nat, layer: LinkLayer): nat {
    var sz := if sz < mpu then mpu else sz;
    if layer.Atm? then AtmSize(sz) else sz
  }

  lemma AdjustMonotone(a: nat, b: nat, mpu: nat, layer: LinkLayer)
    requires a <= b
    ensures Adjust(a, mpu, layer) <= Adjust(b, mpu, layer)
  {
  }

  /** The size is at least the MPU. Off an ATM link it is the larger of the two; on one it is 53 bytes for each of the
      fewest cells of 48 bytes that hold the larger of the two. */
  lemma AdjustIs(sz: nat, mpu: nat, layer: LinkLayer, larger: nat) returns (cells: nat)
    requires sz <= larger && mpu <= larger && (larger == sz || larger == mpu)
    ensures Adjust(sz, mpu, layer) >= mpu
    ensures !layer.Atm? ==> Adjust(sz, mpu, layer) == larger
    ensures layer.Atm? ==> Adjust(sz, mpu, layer) == 53 * cells && larger <= 48 * cells
    ensures layer.Atm? ==> forall c: nat :: larger <= 48 * c ==> cells <= c
  {
    cells := Cells(larger);
    forall c: nat | larger <= 48 * c
      ensures cells <= c
    {
    }
  }

  /** Shifts are multiplication and division by a power of two. */
  lemma ShiftIs(x: nat, k: nat)
    ensures Shl(x, k) == x * Exp2(k) && Shr(x, k) * Exp2(k) <= x < (Shr(x, k) + 1) * Exp2(k)
  {
    ShlIs(x, k);
    ShlIs(Shr(x, k), k);
    ShlIs(Shr(x, k) + 1, k);
    InCell(x, k);
  }

  lemma {:induction false} ShlIs(x: nat, k: nat)
    ensures Shl(x, k) == x * Exp2(k)
  {
    if k > 0 {
      ShlIs(x, k - 1);
      assert 2 * (x * Exp2(k - 1)) == x * (2 * Exp2(k - 1));
    }
  }

  /** The size the table is computed from in slot i. */
  function SlotSize(i: nat, cellLog: nat, mpu: nat, layer: LinkLayer): nat { Adjust(Shl(i + 1, cellLog), mpu, layer) }

  /** The least shift from `from` on that brings x to at most limit. */
  ghost predicate Least(x: nat, limit: nat, from: nat, k: nat) {
    from <= k && Shr(x, k) <= limit && forall j :: from <= j < k ==> Shr(x, j) > limit
  }

  method LeastShift(x: nat, limit: nat) returns (k: nat)
    ensures Least(x, limit, 0, k)
  {
    k := 0;
    while Shr(x, k) > limit
      invariant forall j :: 0 <= j < k ==> Shr(x, j) > limit
      decreases Shr(x, k)
    {
      ShrStep(x, k);
      k := k + 1;
    }
  }

  /** With such a shift every length up to the MTU has a slot, computed from a size no smaller than its own. */
  lemma Covers(mtu: nat, slots: nat, cellLog: nat, mpu: nat, layer: LinkLayer, len: nat)
    requires 1 <= len <= mtu && slots > 0 && Shr(mtu, cellLog) <= slots - 1
    ensures var i := Shr(len - 1, cellLog);
      i < slots && Adjust(len, mpu, layer) <= SlotSize(i, cellLog, mpu, layer)
  {
    var i := Shr(len - 1, cellLog);
    ShrMonotone(len - 1, mtu, cellLog);
    InCell(len - 1, cellLog);
    AdjustMonotone(len, Shl(i + 1, cellLog), mpu, layer);
  }

  lemma {:induction false} ShrIs(n: nat, i: nat, k: nat)
    requires Shl(i, k) <= n < Shl(i + 1, k)
    ensures Shr(n, k) == i
    decreases k
  {
    if k > 0 {
      ShrIs(n / 2, i, k - 1);
    }
  }

  lemma {:induction false} ShlGrows(i: nat, k: nat)
    ensures Shl(i, k) < Shl(i + 1, k)
  {
    if k > 0 {
      ShlGrows(i, k - 1);
    }
  }

  /** And no larger than needed: some length of the slot has just that size. */
  lemma SlotTight(i: nat, cellLog: nat, mpu: nat, layer: LinkLayer) returns (len: nat)
    ensures len >= 1 && Shr(len - 1, cellLog) == i && Adjust(len, mpu, layer) == SlotSize(i, cellLog, mpu, layer)
  {
    len := Shl(i + 1, cellLog);
    ShlGrows(i, cellLog);
    ShrIs(len - 1, i, cellLog);
  }

  lemma SlotMonotone(i: nat, j: nat, cellLog: nat, mpu: nat, layer: LinkLayer, sizeLog: nat)
    requires i <= j
    ensures Shr(SlotSize(i, cellLog, mpu, layer), sizeLog) <= Shr(SlotSize(j, cellLog, mpu, layer), sizeLog)
  {
    ShlMonotone(i + 1, j + 1, cellLog);
    AdjustMonotone(Shl(i + 1, cellLog), Shl(j + 1, cellLog), mpu, layer);
    ShrMonotone(SlotSize(i, cellLog, mpu, layer), SlotSize(j, cellLog, mpu, layer), sizeLog);
  }

  /** struct tc_sizespec */
  class SizeSpec {
    var cellLog: nat
    var sizeLog: nat
    var cellAlign: int
    var layer: LinkLayer
    var mpu: nat
    var mtu: nat
    var tsize: nat

    /** tc_calc_size_table; `alloc` is whether malloc succeeds. */
    method Calc(alloc: bool) returns (ret: int, stab: array?<nat>)
      modifies this
      ensures layer == old(layer) && mpu == old(mpu)
      ensures !layer.Atm? && mpu == 0 ==>
        && ret == 0 && stab == null && mtu == tsize == cellLog == 0 && cellAlign == 0 && sizeLog == old(sizeLog)
      ensures layer.Atm? || mpu > 0 ==>
        && mtu == (if old(mtu) == 0 then 2047 else old(mtu)) && tsize == (if old(tsize) == 0 then 512 else old(tsize))
        && Least(mtu, tsize - 1, 0, cellLog) && (ret == 0 <==> alloc) && (ret == 0 <==> stab != null)
      ensures stab != null ==>
        && stab.Length == tsize && cellAlign == -1
        && Least(SlotSize(tsize - 1, cellLog, mpu, layer), UINT16_MAX, old(sizeLog), sizeLog)
        && forall i :: 0 <= i < tsize ==>
             stab[i] == Shr(SlotSize(i, cellLog, mpu, layer), sizeLog) && stab[i] <= UINT16_MAX
    {
      if !layer.Atm? && mpu == 0 {
        mtu, tsize, cellLog, cellAlign := 0, 0, 0, 0;
        return 0, null;
      }
      if mtu == 0 {
        mtu := 2047;
      }
      if tsize == 0 {
        tsize := 512;
      }
      cellLog := LeastShift(mtu, tsize - 1);
      if !alloc {
        return -1, null;
      }
      stab := new nat[tsize];
      FillTable(stab);
      cellAlign := -1;
      ret := 0;
    }

    /** The loop with its restarts (tc_core.c:188-196). */
    method FillTable(stab: array<nat>)
      requires stab.Length == tsize > 0
      modifies this`sizeLog, stab
      ensures Least(SlotSize(tsize - 1, cellLog, mpu, layer), UINT16_MAX, old(sizeLog), sizeLog)
      ensures forall i :: 0 <= i < tsize ==>
        stab[i] == Shr(SlotSize(i, cellLog, mpu, layer), sizeLog) && stab[i] <= UINT16_MAX
    {
      ghost var top := SlotSize(tsize - 1, cellLog, mpu, layer);
      var i := tsize - 1;
      while i >= 0
        invariant -1 <= i < tsize && old(sizeLog) <= sizeLog
        invariant forall k :: old(sizeLog) <= k < sizeLog ==> Shr(top, k) > UINT16_MAX
        invariant forall j :: i < j < tsize ==>
          stab[j] == Shr(SlotSize(j, cellLog, mpu, layer), sizeLog) && stab[j] <= UINT16_MAX
        decreases Shr(top, sizeLog), i
      {
        var sz := SlotSize(i, cellLog, mpu, layer);
        if Shr(sz, sizeLog) > UINT16_MAX {
          SlotMonotone(i, tsize - 1, cellLog, mpu, layer, sizeLog);
          ShrStep(top, sizeLog);
          sizeLog := sizeLog + 1;
          i := tsize - 1;
        } else {
          stab[i] := Shr(sz, sizeLog);
          i := i - 1;
        }
      }
    }
  }

  /** struct tc_ratespec, as far as tc_calc_rtable uses it. */
  class RateSpec {
    const rate: nat
    const mpu: nat
    var cellLog: nat
    var cellAlign: int
    var layer: LinkLayer

    /** tc_calc_rtable, over any transmission time; log < 0 asks for the least shift that fits. The field cell_log is an
        unsigned char, and the link layers fit its four bits. */
    method CalcTable(rtab: array<nat>, log: int, mtu: nat, link: LinkLayer, time: (nat, nat) -> nat) returns (ret: nat)
      requires rtab.Length == 256
      modifies this, rtab
      ensures if log >= 0 then ret == log else Least(if mtu == 0 then 2047 else mtu, 255, 0, ret)
      ensures forall i :: 0 <= i < 256 ==> rtab[i] == time(rate, SlotSize(i, ret, mpu, link))
      ensures cellAlign == -1 && cellLog == ret % 256 && layer == link
    {
      if log < 0 {
        ret := LeastShift(if mtu == 0 then 2047 else mtu, 255);
      } else {
        ret := log;
      }
      for i := 0 to 256
        invariant forall j :: 0 <= j < i ==> rtab[j] == time(rate, SlotSize(j, ret, mpu, link))
      {
        rtab[i] := time(rate, SlotSize(i, ret, mpu, link));
      }
      cellAlign, cellLog, layer := -1, ret % 256, link;
    }
  }
}
