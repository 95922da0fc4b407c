/** The state of the ARM32 backend's simple register allocator as a value,
    and its operations as functions over that value.  The imperative
    allocator in module Arm32RegisterAllocator is proved against these. */
module RegisterPool {
  import opened Wrappers

  /** Number of registers the allocator hands out (r0 .. r12). The platform
      header that fixes this number is not part of this model; 13 is the
      count of ARM32 registers below the stack pointer. */
  const MaxUsableRegNum: int := 13

  predicate IsReg(r: int) {
    0 <= r < MaxUsableRegNum
  }

  /** The identity of an IR Value whose register the allocator tracks. */
  type ValueId = nat

  /** regBitmap: registers currently occupied; usedBitmap: registers ever
      occupied; regValues: Values holding a register, oldest first;
      spillValues: Values evicted by Allocate, in eviction order; regIds:
      the register id stored in each Value (absent means -1). */
  datatype Pool = Pool(
    regBitmap: set<int>,
    usedBitmap: set<int>,
    regValues: seq<ValueId>,
    spillValues: seq<ValueId>,
    regIds: map<ValueId, int>)

  /** What Allocate returns: the register (or -1) and the spilled Value. */
  datatype Allocation = Allocation(reg: int, spilled: Option<ValueId>)

  /** The register id a map of ids gives Value v, -1 when it has no entry. */
  function IdIn(ids: map<ValueId, int>, v: ValueId): int {
    if v in ids then ids[v] else -1
  }

  /** A Value's register id, -1 when it holds none. */
  function RegId(p: Pool, v: ValueId): int {
    IdIn(p.regIds, v)
  }

  /** The state of a freshly constructed allocator. */
  function EmptyPool(): Pool {
    Pool({}, {}, [], [], map[])
  }

  /** What the allocator keeps true: every occupied or used register is a
      real register, occupied ones are marked used, each tracked Value sits
      in an occupied register of its own, and a Value not tracked has id -1. */
  ghost predicate Inv(p: Pool) {
    && (forall r :: r in p.usedBitmap ==> IsReg(r))
    && p.regBitmap <= p.usedBitmap
    && (forall i :: 0 <= i < |p.regValues| ==> RegId(p, p.regValues[i]) in p.regBitmap)
    && (forall i, j :: 0 <= i < j < |p.regValues| ==> RegId(p, p.regValues[i]) != RegId(p, p.regValues[j]))
    && (forall v :: v in p.regIds && v !in p.regValues ==> p.regIds[v] == -1)
  }

  /** The first register k, k+1, ... that is not occupied, or -1. */
  function LowestFreeFrom(bm: set<int>, k: int): (r: int)
    requires 0 <= k <= MaxUsableRegNum
    decreases MaxUsableRegNum - k
    ensures r == -1 || (k <= r < MaxUsableRegNum && r !in bm)
    ensures r == -1 <==> forall j :: k <= j < MaxUsableRegNum ==> j in bm
    ensures r != -1 ==> forall j :: k <= j < r ==> j in bm
  {
    if k == MaxUsableRegNum then -1
    else if k !in bm then k
    else LowestFreeFrom(bm, k + 1)
  }

  /** The lowest free register, or -1 when all are occupied. */
  function LowestFree(bm: set<int>): int {
    LowestFreeFrom(bm, 0)
  }

  /** Index of the first tracked Value, from position `from` on, whose
      register is no; |regValues| when there is none. */
  function IndexOfReg(p: Pool, no: int, from: nat): (i: nat)
    requires from <= |p.regValues|
    decreases |p.regValues| - from
    ensures from <= i <= |p.regValues|
    ensures i < |p.regValues| ==> RegId(p, p.regValues[i]) == no
    ensures forall j :: from <= j < i ==> RegId(p, p.regValues[j]) != no
  {
    if from == |p.regValues| then from
    else if RegId(p, p.regValues[from]) == no then from
    else IndexOfReg(p, no, from + 1)
  }

  /** The first position holding no, found by a linear scan, is the one
      IndexOfReg names. */
  lemma IndexOfRegFirst(p: Pool, no: int, i: nat)
    requires i <= |p.regValues|
    requires forall j :: 0 <= j < i ==> RegId(p, p.regValues[j]) != no
    requires i < |p.regValues| ==> RegId(p, p.regValues[i]) == no
    ensures IndexOfReg(p, no, 0) == i
  {
  }

  /** The scan looks only at the tracked Values and their ids. */
  lemma {:induction false} IndexOfRegIgnoresBitmaps(p: Pool, q: Pool, no: int, from: nat)
    requires p.regValues == q.regValues && p.regIds == q.regIds && from <= |p.regValues|
    decreases |p.regValues| - from
    ensures IndexOfReg(p, no, from) == IndexOfReg(q, no, from)
  {
    if from < |p.regValues| {
      IndexOfRegIgnoresBitmaps(p, q, no, from + 1);
    }
  }

  function RemoveAt(s: seq<ValueId>, i: nat): seq<ValueId>
    requires i < |s|
  {
    s[..i] + s[i + 1..]
  }

  /** Marks register no occupied and used; the used bitmap keeps covering
      the occupied one. */
  function BitmapSet(p: Pool, no: int): (q: Pool)
    ensures no in q.regBitmap && no in q.usedBitmap && p.usedBitmap <= q.usedBitmap
    ensures p.regBitmap <= p.usedBitmap ==> q.regBitmap <= q.usedBitmap
    ensures q.regValues == p.regValues && q.spillValues == p.spillValues && q.regIds == p.regIds
  {
    p.(regBitmap := p.regBitmap + {no}, usedBitmap := p.usedBitmap + {no})
  }

  /** Releases register no; the Value that held it loses its register and
      leaves regValues, and is returned. A negative no changes nothing. */
  function Free(p: Pool, no: int): (r: (Pool, Option<ValueId>))
    requires no < MaxUsableRegNum
    ensures r.0.usedBitmap == p.usedBitmap && r.0.spillValues == p.spillValues
    ensures no >= 0 ==> no !in r.0.regBitmap
    ensures r.1.Some? ==> RegId(p, r.1.value) == no && RegId(r.0, r.1.value) == -1
  {
    if no < 0 then (p, None)
    else
      var q := p.(regBitmap := p.regBitmap - {no});
      var i := IndexOfReg(p, no, 0);
      if i == |p.regValues| then (q, None)
      else
        var v := p.regValues[i];
        (q.(regValues := RemoveAt(p.regValues, i), regIds := p.regIds[v := -1]), Some(v))
  }

  /** Gives register r to v (when there is a Value) and marks r occupied. */
  function Assign(p: Pool, v: Option<ValueId>, r: int): (q: Pool)
    ensures r in q.regBitmap && r in q.usedBitmap && q.spillValues == p.spillValues
    ensures v.Some? ==> RegId(q, v.value) == r && q.regValues == p.regValues + [v.value]
    ensures v.None? ==> q.regValues == p.regValues && q.regIds == p.regIds
  {
    var q := if v.Some? then p.(regIds := p.regIds[v.value := r], regValues := p.regValues + [v.value]) else p;
    BitmapSet(q, r)
  }

  /** Allocate(var, no): no == -1 asks for any register, the lowest free one
      first; otherwise register no is asked for. When none is free, the
      Value holding the requested register (or the oldest tracked Value)
      is spilled and logged in spillValues. The fault result (-1, none) is
      returned when the requested register is occupied but no tracked Value
      holds it. The source reads regValues[0] when all registers are
      occupied, so it needs a tracked Value then. */
  function Allocate(p: Pool, v: Option<ValueId>, no: int): (r: (Pool, Allocation))
    requires Inv(p)
    requires -1 <= no < MaxUsableRegNum
    requires no == -1 && LowestFree(p.regBitmap) == -1 ==> |p.regValues| > 0
    ensures r.1.reg == -1 || IsReg(r.1.reg)
    ensures r.1.reg == -1 ==> r.1.spilled.None?
    ensures r.1.spilled.None? ==> r.0.spillValues == p.spillValues
    ensures r.1.spilled.Some? ==> r.0.spillValues == p.spillValues + [r.1.spilled.value]
  {
    if no != -1 && v.Some? && RegId(p, v.value) == no then (p, Allocation(no, None))
    else
      var regno := if no == -1 then LowestFree(p.regBitmap) else if no in p.regBitmap then -1 else no;
      if regno != -1 then (Assign(p, v, regno), Allocation(regno, None))
      else
        var target := if no != -1 then no else RegId(p, p.regValues[0]);
        var (q, spilled) := Free(p, target);
        if spilled.None? then (q, Allocation(-1, None))
        else (Assign(q.(spillValues := q.spillValues + [spilled.value]), v, target), Allocation(target, spilled))
  }

  /** Allocate(no): takes register no whatever holds it; the Value that held
      it is released but not logged as spilled. */
  function ForceAllocate(p: Pool, no: int): (q: Pool)
    requires IsReg(no)
    ensures no in q.regBitmap && no in q.usedBitmap && q.spillValues == p.spillValues
  {
    var q := if no in p.regBitmap then Free(p, no).0 else p;
    BitmapSet(q, no)
  }

  /** free(var): releases the register the Value holds, if any. */
  function FreeValue(p: Pool, v: ValueId): (q: Pool)
    requires RegId(p, v) < MaxUsableRegNum
    ensures q.usedBitmap == p.usedBitmap && q.spillValues == p.spillValues
    ensures RegId(p, v) >= 0 ==> RegId(p, v) !in q.regBitmap
    ensures RegId(p, v) < 0 ==> q == p
  {
    Free(p, RegId(p, v)).0
  }

  // ---------------------------------------------------------------------
  // Facts about tracked Values.

  lemma TrackedIsReg(p: Pool, i: int)
    requires Inv(p) && 0 <= i < |p.regValues|
    ensures IsReg(RegId(p, p.regValues[i]))
  {
  }

  /** Tracked Values are distinct and hold distinct registers. */
  lemma TrackedDistinct(p: Pool, i: int, j: int)
    requires Inv(p) && 0 <= i < |p.regValues| && 0 <= j < |p.regValues| && i != j
    ensures p.regValues[i] != p.regValues[j]
    ensures RegId(p, p.regValues[i]) != RegId(p, p.regValues[j])
  {
    if i > j {
      TrackedDistinct(p, j, i);
    }
  }

  /** A Value with id -1 is not tracked; a tracked Value has a real register. */
  lemma UntrackedNotInValues(p: Pool, v: ValueId)
    requires Inv(p) && RegId(p, v) == -1
    ensures v !in p.regValues
  {
  }

  // ---------------------------------------------------------------------
  // free(no)

  /** free(no) releases exactly register no and the one tracked Value that
      held it, keeping the order of the others; a negative no is ignored. */
  lemma FreeSpec(p: Pool, no: int)
    requires Inv(p) && no < MaxUsableRegNum
    ensures no < 0 ==> Free(p, no) == (p, None)
    ensures no >= 0 ==>
      var (q, out) := Free(p, no);
      && q.regBitmap == p.regBitmap - {no}
      && q.usedBitmap == p.usedBitmap
      && q.spillValues == p.spillValues
      && (out.Some? <==> exists i :: 0 <= i < |p.regValues| && RegId(p, p.regValues[i]) == no)
      && (forall i :: 0 <= i < |p.regValues| && RegId(p, p.regValues[i]) == no ==>
            && out == Some(p.regValues[i])
            && q.regValues == RemoveAt(p.regValues, i)
            && RegId(q, p.regValues[i]) == -1
            && forall w :: w != p.regValues[i] ==> RegId(q, w) == RegId(p, w))
      && (out.None? ==> q.regValues == p.regValues && q.regIds == p.regIds)
  {
    if no >= 0 {
      var i := IndexOfReg(p, no, 0);
      if i < |p.regValues| {
        FreeHolder(p, no, i);
      } else {
        FreeNoHolder(p, no);
      }
    }
  }

  /** free of a register held by the i-th tracked Value. */
  lemma FreeHolder(p: Pool, no: int, i: int)
    requires Inv(p) && 0 <= i < |p.regValues| && RegId(p, p.regValues[i]) == no
    ensures IsReg(no)
    ensures Free(p, no) ==
      (Pool(p.regBitmap - {no}, p.usedBitmap, RemoveAt(p.regValues, i), p.spillValues, p.regIds[p.regValues[i] := -1]),
       Some(p.regValues[i]))
  {
    TrackedIsReg(p, i);
    var k := IndexOfReg(p, no, 0);
    if k < i {
      TrackedDistinct(p, k, i);
    }
  }

  /** free of a register no tracked Value holds. */
  lemma FreeNoHolder(p: Pool, no: int)
    requires IsReg(no) && forall i :: 0 <= i < |p.regValues| ==> RegId(p, p.regValues[i]) != no
    ensures Free(p, no) == (p.(regBitmap := p.regBitmap - {no}), None)
  {
  }

  /** Removing one position keeps every other element, and only those. */
  lemma RemoveAtMembers(s: seq<ValueId>, i: nat, w: ValueId)
    requires i < |s|
    ensures w in RemoveAt(s, i) ==> w in s
    ensures w in s && w != s[i] ==> w in RemoveAt(s, i)
  {
    if w in s && w != s[i] {
      var k :| 0 <= k < |s| && s[k] == w;
      if k < i {
        assert RemoveAt(s, i)[k] == w;
      } else {
        assert RemoveAt(s, i)[k - 1] == w;
      }
    }
  }

  /** The pool after the i-th tracked Value gives up its register. */
  function Released(p: Pool, i: nat): Pool
    requires i < |p.regValues|
  {
    var h := p.regValues[i];
    Pool(p.regBitmap - {RegId(p, h)}, p.usedBitmap, RemoveAt(p.regValues, i), p.spillValues, p.regIds[h := -1])
  }

  /** The Values left tracked after a release keep their registers. */
  lemma ReleasedIds(p: Pool, i: nat, k: nat)
    requires Inv(p) && i < |p.regValues| && k < |p.regValues| - 1
    ensures var k0 := if k < i then k else k + 1;
      && Released(p, i).regValues[k] == p.regValues[k0]
      && RegId(Released(p, i), p.regValues[k0]) == RegId(p, p.regValues[k0])
      && RegId(p, p.regValues[k0]) != RegId(p, p.regValues[i])
  {
    var k0 := if k < i then k else k + 1;
    TrackedDistinct(p, k0, i);
  }

  lemma ReleasedOccupied(p: Pool, i: nat)
    requires Inv(p) && i < |p.regValues|
    ensures var q := Released(p, i);
      forall k :: 0 <= k < |q.regValues| ==> RegId(q, q.regValues[k]) in q.regBitmap
  {
    var q := Released(p, i);
    forall k | 0 <= k < |q.regValues|
      ensures RegId(q, q.regValues[k]) in q.regBitmap
    {
      ReleasedIds(p, i, k);
    }
  }

  lemma ReleasedDistinct(p: Pool, i: nat)
    requires Inv(p) && i < |p.regValues|
    ensures var q := Released(p, i);
      forall a, b :: 0 <= a < b < |q.regValues| ==> RegId(q, q.regValues[a]) != RegId(q, q.regValues[b])
  {
    var q := Released(p, i);
    forall a, b | 0 <= a < b < |q.regValues|
      ensures RegId(q, q.regValues[a]) != RegId(q, q.regValues[b])
    {
      ReleasedIds(p, i, a);
      ReleasedIds(p, i, b);
      var a0 := if a < i then a else a + 1;
      var b0 := if b < i then b else b + 1;
      TrackedDistinct(p, a0, b0);
    }
  }

  lemma ReleasedUntracked(p: Pool, i: nat)
    requires Inv(p) && i < |p.regValues|
    ensures var q := Released(p, i);
      forall w :: w in q.regIds && w !in q.regValues ==> q.regIds[w] == -1
  {
    var q := Released(p, i);
    forall w | w in q.regIds && w !in q.regValues
      ensures q.regIds[w] == -1
    {
      RemoveAtMembers(p.regValues, i, w);
    }
  }

  /** Releasing the register of the i-th tracked Value keeps the invariant. */
  lemma RemoveTrackedPreserves(p: Pool, i: int)
    requires Inv(p) && 0 <= i < |p.regValues|
    ensures
      var h := p.regValues[i];
      Inv(Pool(p.regBitmap - {RegId(p, h)}, p.usedBitmap, RemoveAt(p.regValues, i), p.spillValues, p.regIds[h := -1]))
  {
    ReleasedOccupied(p, i);
    ReleasedDistinct(p, i);
    ReleasedUntracked(p, i);
    assert Inv(Released(p, i));
  }

  lemma FreePreserves(p: Pool, no: int)
    requires Inv(p) && no < MaxUsableRegNum
    ensures Inv(Free(p, no).0)
  {
    if no >= 0 {
      var i := IndexOfReg(p, no, 0);
      if i < |p.regValues| {
        RemoveTrackedPreserves(p, i);
      }
    }
  }

  // ---------------------------------------------------------------------
  // bitmapSet and assignment

  lemma AssignPreserves(p: Pool, v: Option<ValueId>, r: int)
    requires Inv(p) && IsReg(r) && r !in p.regBitmap
    requires v.Some? ==> RegId(p, v.value) == -1
    ensures Inv(Assign(p, v, r))
  {
    if v.Some? {
      UntrackedNotInValues(p, v.value);
      var q := Assign(p, v, r);
      assert q.regValues == p.regValues + [v.value];
      forall k | 0 <= k < |q.regValues|
        ensures RegId(q, q.regValues[k]) in q.regBitmap
      {
        if k < |p.regValues| {
          assert q.regValues[k] == p.regValues[k];
        }
      }
      forall a, b | 0 <= a < b < |q.regValues|
        ensures RegId(q, q.regValues[a]) != RegId(q, q.regValues[b])
      {
        assert q.regValues[a] == p.regValues[a];
        if b < |p.regValues| {
          assert q.regValues[b] == p.regValues[b];
        }
      }
    }
  }

  // ---------------------------------------------------------------------
  // Allocate(var, no)

  /** The spill step: release target, log its Value, give target to v. */
  lemma SpillPreserves(p: Pool, v: Option<ValueId>, target: int)
    requires Inv(p) && IsReg(target)
    requires Free(p, target).1.Some?
    requires v.Some? ==> RegId(p, v.value) == -1
    ensures
      var (q, spilled) := Free(p, target);
      var q' := q.(spillValues := q.spillValues + [spilled.value]);
      && Inv(Assign(q', v, target))
      && p.usedBitmap <= Assign(q', v, target).usedBitmap
      && p.spillValues <= Assign(q', v, target).spillValues
  {
    FreeHolder(p, target, IndexOfReg(p, target, 0));
    FreePreserves(p, target);
    var (q, spilled) := Free(p, target);
    var q' := q.(spillValues := q.spillValues + [spilled.value]);
    assert Inv(q');
    if v.Some? {
      UntrackedNotInValues(p, v.value);
      assert RegId(q', v.value) == -1;
    }
    AssignPreserves(q', v, target);
  }

  /** Allocate keeps the invariant, never forgets a used register and only
      appends to the spill log, provided the Value does not already hold a
      register other than the requested one. */
  lemma AllocatePreserves(p: Pool, v: Option<ValueId>, no: int)
    requires Inv(p) && -1 <= no < MaxUsableRegNum
    requires no == -1 && LowestFree(p.regBitmap) == -1 ==> |p.regValues| > 0
    requires v.Some? ==> RegId(p, v.value) == -1 || RegId(p, v.value) == no
    ensures Inv(Allocate(p, v, no).0)
    ensures p.usedBitmap <= Allocate(p, v, no).0.usedBitmap
    ensures p.spillValues <= Allocate(p, v, no).0.spillValues
  {
    if no != -1 && v.Some? && RegId(p, v.value) == no {
    } else {
      var regno := if no == -1 then LowestFree(p.regBitmap) else if no in p.regBitmap then -1 else no;
      if regno != -1 {
        AssignPreserves(p, v, regno);
      } else {
        var target := if no != -1 then no else RegId(p, p.regValues[0]);
        if no == -1 {
          TrackedIsReg(p, 0);
        }
        FreePreserves(p, target);
        if Free(p, target).1.Some? {
          SpillPreserves(p, v, target);
        }
      }
    }
  }

  /** Asking again for the register a Value already holds changes nothing. */
  lemma IdempotentRequest(p: Pool, v: ValueId)
    requires Inv(p) && IsReg(RegId(p, v))
    ensures Allocate(p, Some(v), RegId(p, v)) == (p, Allocation(RegId(p, v), None))
  {
  }

  /** Without a request and with a register free, the lowest free register
      is granted and nothing is spilled. */
  lemma LowestFreeGranted(p: Pool, v: Option<ValueId>)
    requires Inv(p) && LowestFree(p.regBitmap) != -1
    ensures
      var (q, a) := Allocate(p, v, -1);
      && a == Allocation(a.reg, None)
      && IsReg(a.reg) && a.reg !in p.regBitmap
      && (forall j :: 0 <= j < a.reg ==> j in p.regBitmap)
      && q.regBitmap == p.regBitmap + {a.reg}
      && q.usedBitmap == p.usedBitmap + {a.reg}
      && q.spillValues == p.spillValues
      && q.regValues == p.regValues + (if v.Some? then [v.value] else [])
      && (v.Some? ==> RegId(q, v.value) == a.reg)
      && (forall w :: (v.None? || w != v.value) ==> RegId(q, w) == RegId(p, w))
  {
  }

  /** Without a request and with every register occupied, the oldest
      tracked Value is spilled and its register goes to the new Value,
      which becomes the newest: a first-in first-out eviction. */
  lemma FifoSpill(p: Pool, v: Option<ValueId>)
    requires Inv(p) && LowestFree(p.regBitmap) == -1 && |p.regValues| > 0
    requires v.Some? ==> RegId(p, v.value) == -1
    ensures
      var (q, a) := Allocate(p, v, -1);
      var old0 := p.regValues[0];
      && a == Allocation(RegId(p, old0), Some(old0))
      && q.regValues == p.regValues[1..] + (if v.Some? then [v.value] else [])
      && q.spillValues == p.spillValues + [old0]
      && q.regBitmap == p.regBitmap
      && q.usedBitmap == p.usedBitmap
      && RegId(q, old0) == -1
      && (v.Some? ==> RegId(q, v.value) == RegId(p, old0))
      && (forall w :: w != old0 && (v.None? || w != v.value) ==> RegId(q, w) == RegId(p, w))
  {
    FreeHolder(p, RegId(p, p.regValues[0]), 0);
    UntrackedOtherThan(p, v, p.regValues[0]);
    assert RemoveAt(p.regValues, 0) == p.regValues[1..];
  }

  /** A Value with id -1 is not the tracked Value w. */
  lemma UntrackedOtherThan(p: Pool, v: Option<ValueId>, w: ValueId)
    requires Inv(p) && w in p.regValues
    requires v.Some? ==> RegId(p, v.value) == -1
    ensures v.Some? ==> v.value != w
  {
    if v.Some? {
      UntrackedNotInValues(p, v.value);
    }
  }

  /** A requested register that is free is granted as is. */
  lemma RequestedFreeGranted(p: Pool, v: Option<ValueId>, no: int)
    requires Inv(p) && IsReg(no) && no !in p.regBitmap
    requires v.Some? ==> RegId(p, v.value) == -1
    ensures Allocate(p, v, no) == (Assign(p, v, no), Allocation(no, None))
  {
  }

  /** A requested register held by a tracked Value is taken from it: that
      Value is spilled, the rest keep their order and the new Value is
      appended. */
  lemma RequestedDisplaces(p: Pool, v: Option<ValueId>, no: int, i: int)
    requires Inv(p) && IsReg(no)
    requires 0 <= i < |p.regValues| && RegId(p, p.regValues[i]) == no
    requires v.Some? ==> RegId(p, v.value) == -1
    ensures
      var (q, a) := Allocate(p, v, no);
      var h := p.regValues[i];
      && a == Allocation(no, Some(h))
      && q.regValues == RemoveAt(p.regValues, i) + (if v.Some? then [v.value] else [])
      && q.spillValues == p.spillValues + [h]
      && q.regBitmap == p.regBitmap
      && q.usedBitmap == p.usedBitmap
      && RegId(q, h) == -1
      && (v.Some? ==> RegId(q, v.value) == no)
      && (forall w :: w != h && (v.None? || w != v.value) ==> RegId(q, w) == RegId(p, w))
  {
    FreeHolder(p, no, i);
    UntrackedOtherThan(p, v, p.regValues[i]);
  }

  /** Allocate faults exactly when the requested register is occupied
      although no tracked Value holds it (it was taken by Allocate(no)). */
  lemma FaultIff(p: Pool, v: Option<ValueId>, no: int)
    requires Inv(p) && -1 <= no < MaxUsableRegNum
    requires no == -1 && LowestFree(p.regBitmap) == -1 ==> |p.regValues| > 0
    ensures Allocate(p, v, no).1.reg == -1 <==>
      (no != -1 && no in p.regBitmap && forall i :: 0 <= i < |p.regValues| ==> RegId(p, p.regValues[i]) != no)
    ensures Allocate(p, v, no).1.reg == -1 ==> Allocate(p, v, no).1.spilled.None?
    ensures Allocate(p, v, no).1.reg == -1 ==> Allocate(p, v, no).0 == p.(regBitmap := p.regBitmap - {no})
  {
    if no != -1 {
      var i := IndexOfReg(p, no, 0);
      if i < |p.regValues| {
        FreeHolder(p, no, i);
      } else {
        FreeNoHolder(p, no);
      }
      if v.Some? && RegId(p, v.value) == no {
        assert v.value in p.regValues;
      }
    } else if LowestFree(p.regBitmap) == -1 {
      FreeHolder(p, RegId(p, p.regValues[0]), 0);
    }
  }

  // ---------------------------------------------------------------------
  // Allocate(no) and free(var)

  lemma ForceAllocatePreserves(p: Pool, no: int)
    requires Inv(p) && IsReg(no)
    ensures Inv(ForceAllocate(p, no))
  {
    if no in p.regBitmap {
      FreePreserves(p, no);
      AssignPreserves(Free(p, no).0, None, no);
    } else {
      AssignPreserves(p, None, no);
    }
  }

  /** Allocate(no) occupies register no; whatever Value held it is
      released and is not logged as spilled. */
  lemma ForceAllocateSpec(p: Pool, no: int)
    requires Inv(p) && IsReg(no)
    ensures
      var q := ForceAllocate(p, no);
      && Inv(q)
      && q.regBitmap == p.regBitmap + {no}
      && q.usedBitmap == p.usedBitmap + {no}
      && q.spillValues == p.spillValues
      && (forall i :: 0 <= i < |q.regValues| ==> RegId(q, q.regValues[i]) != no)
      && (forall i :: 0 <= i < |p.regValues| && RegId(p, p.regValues[i]) == no ==>
            q.regValues == RemoveAt(p.regValues, i) && q.regIds == p.regIds[p.regValues[i] := -1])
      && ((forall i :: 0 <= i < |p.regValues| ==> RegId(p, p.regValues[i]) != no) ==>
            q.regValues == p.regValues && q.regIds == p.regIds)
  {
    ForceAllocatePreserves(p, no);
    var f := if no in p.regBitmap then Free(p, no).0 else p;
    if no in p.regBitmap {
      var k := IndexOfReg(p, no, 0);
      if k < |p.regValues| {
        FreeHolder(p, no, k);
        forall i | 0 <= i < |p.regValues| && RegId(p, p.regValues[i]) == no
          ensures i == k
        {
          if i != k {
            TrackedDistinct(p, i, k);
          }
        }
      } else {
        FreeNoHolder(p, no);
      }
      FreePreserves(p, no);
    }
    var q := ForceAllocate(p, no);
    assert q.regValues == f.regValues && q.regIds == f.regIds;
    forall i | 0 <= i < |q.regValues|
      ensures RegId(q, q.regValues[i]) != no
    {
      assert RegId(f, f.regValues[i]) in f.regBitmap;
    }
  }

  /** free(var) releases the Value's register and keeps the invariant: a
      tracked Value leaves regValues, the others keep their order and their
      registers; an untracked Value changes nothing. */
  lemma FreeValueSpec(p: Pool, v: ValueId)
    requires Inv(p) && RegId(p, v) < MaxUsableRegNum
    ensures Inv(FreeValue(p, v))
    ensures RegId(FreeValue(p, v), v) == -1
    ensures v !in FreeValue(p, v).regValues
    ensures IsReg(RegId(p, v)) ==> FreeValue(p, v).regBitmap == p.regBitmap - {RegId(p, v)}
    ensures v in p.regValues <==> RegId(p, v) != -1
    ensures v !in p.regValues ==> FreeValue(p, v) == p
    ensures forall i :: 0 <= i < |p.regValues| && p.regValues[i] == v ==>
      FreeValue(p, v) == Pool(p.regBitmap - {RegId(p, v)}, p.usedBitmap, RemoveAt(p.regValues, i), p.spillValues, p.regIds[v := -1])
  {
    FreePreserves(p, RegId(p, v));
    if RegId(p, v) >= 0 {
      assert v in p.regValues;
      var i :| 0 <= i < |p.regValues| && p.regValues[i] == v;
      FreeHolder(p, RegId(p, v), i);
      UntrackedNotInValues(FreeValue(p, v), v);
      forall k | 0 <= k < |p.regValues| && p.regValues[k] == v
        ensures FreeValue(p, v) == Pool(p.regBitmap - {RegId(p, v)}, p.usedBitmap, RemoveAt(p.regValues, k), p.spillValues, p.regIds[v := -1])
      {
        FreeHolder(p, RegId(p, v), k);
      }
    } else {
      assert RegId(p, v) == -1;
      UntrackedNotInValues(p, v);
    }
  }

  // ---------------------------------------------------------------------
  // How many Values can hold a register

  /** The registers {0, ..., n-1}. */
  function Below(n: nat): (r: set<int>)
    ensures forall j :: j in r <==> 0 <= j < n
    ensures |r| == n
  {
    if n == 0 then {} else Below(n - 1) + {n - 1}
  }

  /** A subset is no larger than its superset. */
  lemma {:induction false} SubsetSize(a: set<int>, b: set<int>)
    requires a <= b
    ensures |a| <= |b|
  {
    if x :| x in a {
      SubsetSize(a - {x}, b - {x});
    } else {
      assert forall y :: y !in a;
      assert a == {};
    }
  }

  /** The registers held by the first n tracked Values. */
  function HeldBy(p: Pool, n: nat): set<int>
    requires n <= |p.regValues|
  {
    if n == 0 then {} else HeldBy(p, n - 1) + {RegId(p, p.regValues[n - 1])}
  }

  /** The first n tracked Values hold n distinct occupied registers, none of
      them held by a later Value. */
  lemma {:induction false} HeldBySize(p: Pool, n: nat)
    requires Inv(p) && n <= |p.regValues|
    ensures |HeldBy(p, n)| == n
    ensures HeldBy(p, n) <= p.regBitmap
    ensures forall j :: n <= j < |p.regValues| ==> RegId(p, p.regValues[j]) !in HeldBy(p, n)
  {
    if n > 0 {
      HeldBySize(p, n - 1);
      forall j | n <= j < |p.regValues|
        ensures RegId(p, p.regValues[j]) != RegId(p, p.regValues[n - 1])
      {
        TrackedDistinct(p, j, n - 1);
      }
    }
  }

  /** Each tracked Value holds its own register, so at most
      MaxUsableRegNum Values are tracked, and no more than the occupied
      registers. */
  lemma TrackedCount(p: Pool)
    requires Inv(p)
    ensures |HeldBy(p, |p.regValues|)| == |p.regValues|
    ensures |p.regValues| <= |p.regBitmap| <= MaxUsableRegNum
  {
    HeldBySize(p, |p.regValues|);
    SubsetSize(HeldBy(p, |p.regValues|), p.regBitmap);
    BoundedSize(p.regBitmap, MaxUsableRegNum);
  }

  /** A set of registers below n has at most n members. */
  lemma BoundedSize(a: set<int>, n: nat)
    requires forall x :: x in a ==> 0 <= x < n
    ensures |a| <= n
  {
    SubsetSize(a, Below(n));
  }

  // ---------------------------------------------------------------------
  // Filling an empty allocator, then one more

  predicate Distinct(vs: seq<ValueId>) {
    forall i, j :: 0 <= i < j < |vs| ==> vs[i] != vs[j]
  }

  /** Register ids after giving register i to vs[i], in order. */
  function IdsOf(vs: seq<ValueId>): map<ValueId, int>
    decreases |vs|
  {
    if vs == [] then map[] else IdsOf(vs[..|vs| - 1])[vs[|vs| - 1] := |vs| - 1]
  }

  lemma {:induction false} IdsOfSpec(vs: seq<ValueId>)
    requires Distinct(vs)
    ensures forall i :: 0 <= i < |vs| ==> vs[i] in IdsOf(vs) && IdsOf(vs)[vs[i]] == i
    ensures forall w :: w in IdsOf(vs) ==> w in vs
  {
    if vs != [] {
      var front := vs[..|vs| - 1];
      IdsOfSpec(front);
      forall i | 0 <= i < |vs|
        ensures vs[i] in IdsOf(vs) && IdsOf(vs)[vs[i]] == i
      {
        if i < |vs| - 1 {
          assert front[i] == vs[i];
        }
      }
      forall w | w in IdsOf(vs)
        ensures w in vs
      {
        if w != vs[|vs| - 1] {
          assert w in front;
        }
      }
    }
  }

  /** The allocator after Value vs[i] was given register i, for each i. */
  function Filled(vs: seq<ValueId>): Pool {
    Pool(Below(|vs|), Below(|vs|), vs, [], IdsOf(vs))
  }

  lemma FilledShape(vs: seq<ValueId>)
    requires Distinct(vs) && |vs| <= MaxUsableRegNum
    ensures Inv(Filled(vs))
    ensures forall i :: 0 <= i < |vs| ==> RegId(Filled(vs), vs[i]) == i
  {
    IdsOfSpec(vs);
  }

  /** An unrequested allocation for a new Value in a filled, not full
      allocator grants the next register: from the empty allocator, the
      i-th new Value gets register i. */
  lemma FillStep(vs: seq<ValueId>, w: ValueId)
    requires Distinct(vs) && w !in vs && |vs| < MaxUsableRegNum
    ensures Inv(Filled(vs)) && Allocate(Filled(vs), Some(w), -1) == (Filled(vs + [w]), Allocation(|vs|, None))
    ensures Distinct(vs + [w])
  {
    FillAllocate(vs, w);
    FillAssign(vs, w);
    DistinctSnoc(vs, w);
  }

  /** The unrequested allocation in a filled allocator takes register |vs|. */
  lemma FillAllocate(vs: seq<ValueId>, w: ValueId)
    requires Distinct(vs) && |vs| < MaxUsableRegNum
    ensures Inv(Filled(vs))
    ensures Allocate(Filled(vs), Some(w), -1) == (Assign(Filled(vs), Some(w), |vs|), Allocation(|vs|, None))
  {
    FilledShape(vs);
    LowestFreeBelow(|vs|, 0);
  }

  /** Giving register |vs| to w extends the filled allocator by w. */
  lemma FillAssign(vs: seq<ValueId>, w: ValueId)
    ensures Assign(Filled(vs), Some(w), |vs|) == Filled(vs + [w])
  {
    var n := |vs|;
    assert (vs + [w])[..n] == vs;
    assert IdsOf(vs + [w]) == IdsOf(vs)[w := n];
    assert Below(n + 1) == Below(n) + {n};
  }

  /** With registers 0 .. n-1 occupied, register n is the lowest free one. */
  lemma {:induction false} LowestFreeBelow(n: nat, k: nat)
    requires k <= n < MaxUsableRegNum
    ensures LowestFreeFrom(Below(n), k) == n
    decreases n - k
  {
    if k < n {
      assert k in Below(n);
      LowestFreeBelow(n, k + 1);
    } else {
      assert n !in Below(n);
    }
  }

  lemma DistinctSnoc(vs: seq<ValueId>, w: ValueId)
    requires Distinct(vs) && w !in vs
    ensures Distinct(vs + [w])
  {
    var ws := vs + [w];
    forall i, j | 0 <= i < j < |ws|
      ensures ws[i] != ws[j]
    {
      if j == |vs| {
        assert ws[i] == vs[i];
      } else {
        assert ws[i] == vs[i] && ws[j] == vs[j];
      }
    }
  }

  /** Once all MaxUsableRegNum registers went to vs[0], vs[1], ..., the next
      unrequested allocation evicts vs[0] and reuses register 0. */
  lemma FullThenFifo(vs: seq<ValueId>, w: ValueId)
    requires Distinct(vs) && w !in vs && |vs| == MaxUsableRegNum
    ensures Inv(Filled(vs))
    ensures
      var (q, a) := Allocate(Filled(vs), Some(w), -1);
      && a == Allocation(0, Some(vs[0]))
      && q.regValues == vs[1..] + [w]
      && q.spillValues == [vs[0]]
      && RegId(q, w) == 0 && RegId(q, vs[0]) == -1
  {
    FilledShape(vs);
    var p := Filled(vs);
    IdsOfSpec(vs);
    assert RegId(p, w) == -1;
    assert LowestFree(p.regBitmap) == -1;
    FifoSpill(p, Some(w));
  }

  // ---------------------------------------------------------------------
  // free followed by Allocate

  /** After a tracked Value's register r is freed, the next unrequested
      allocation succeeds without spilling and gets a register no higher
      than r; exactly r when every register below r is occupied. */
  lemma FreeThenReallocate(p: Pool, i: int, w: Option<ValueId>)
    requires Inv(p) && 0 <= i < |p.regValues|
    ensures IsReg(RegId(p, p.regValues[i]))
    ensures
      var r := RegId(p, p.regValues[i]);
      var q := Free(p, r).0;
      && Inv(q) && LowestFree(q.regBitmap) != -1
      && Allocate(q, w, -1).1.spilled.None?
      && 0 <= Allocate(q, w, -1).1.reg <= r
      && ((forall j :: 0 <= j < r ==> j in p.regBitmap) ==> Allocate(q, w, -1).1.reg == r)
  {
    TrackedIsReg(p, i);
    var r := RegId(p, p.regValues[i]);
    FreeHolder(p, r, i);
    FreePreserves(p, r);
    var q := Free(p, r).0;
    assert r !in q.regBitmap;
    LowestFreeGranted(q, w);
  }

  /** Allocating a fresh Value and freeing its register restores the
      allocator, except that the register stays marked as used. */
  lemma AllocateFreeRoundTrip(p: Pool, w: ValueId)
    requires Inv(p) && LowestFree(p.regBitmap) != -1 && RegId(p, w) == -1
    ensures
      var r := LowestFree(p.regBitmap);
      && Allocate(p, Some(w), -1) == (Assign(p, Some(w), r), Allocation(r, None))
      && Free(Assign(p, Some(w), r), r)
         == (Pool(p.regBitmap, p.usedBitmap + {r}, p.regValues, p.spillValues, p.regIds[w := -1]), Some(w))
    ensures forall u :: RegId(p.(regIds := p.regIds[w := -1]), u) == RegId(p, u)
  {
    var r := LowestFree(p.regBitmap);
    FreeNewest(p, w, r);
  }

  /** Freeing the register just given to an untracked Value undoes the
      assignment, except for the used bit. */
  lemma FreeNewest(p: Pool, w: ValueId, r: int)
    requires Inv(p) && IsReg(r) && r !in p.regBitmap && RegId(p, w) == -1
    ensures Free(Assign(p, Some(w), r), r)
      == (Pool(p.regBitmap, p.usedBitmap + {r}, p.regValues, p.spillValues, p.regIds[w := -1]), Some(w))
  {
    IndexOfNewest(p, w, r);
    UndoAssign(p, w, r);
  }

  lemma UndoAssign(p: Pool, w: ValueId, r: int)
    requires IsReg(r) && r !in p.regBitmap
    requires IndexOfReg(Assign(p, Some(w), r), r, 0) == |p.regValues|
    ensures Free(Assign(p, Some(w), r), r)
      == (Pool(p.regBitmap, p.usedBitmap + {r}, p.regValues, p.spillValues, p.regIds[w := -1]), Some(w))
  {
    var q := Assign(p, Some(w), r);
    var n := |p.regValues|;
    assert q.regValues == p.regValues + [w];
    assert RemoveAt(q.regValues, n) == p.regValues;
    assert q.regBitmap - {r} == p.regBitmap;
    assert q.regIds[w := -1] == p.regIds[w := -1];
  }

  /** The Value just given register r is the only tracked one holding r. */
  lemma IndexOfNewest(p: Pool, w: ValueId, r: int)
    requires Inv(p) && IsReg(r) && r !in p.regBitmap && RegId(p, w) == -1
    ensures IndexOfReg(Assign(p, Some(w), r), r, 0) == |p.regValues|
  {
    var q := Assign(p, Some(w), r);
    var i := IndexOfReg(q, r, 0);
    assert q.regValues[|p.regValues|] == w;
    UntrackedNotInValues(p, w);
  }

  // ---------------------------------------------------------------------
  // The spill path as the source writes it

  /** Allocate as written: after free has reset the spilled Value's id to
      -1, the register number is read back from that Value (line 83). The
      new Value is given that number and tracked, the spill is logged, and
      then bitmapSet hands it to std::bitset::set, which throws
      std::out_of_range for an index outside the bitset. The second
      component is the result, None when the call throws; the first is the
      state it leaves behind either way. */
  function AllocateAsWritten(p: Pool, v: Option<ValueId>, no: int): (r: (Pool, Option<Allocation>))
    requires Inv(p)
    requires -1 <= no < MaxUsableRegNum
    requires no == -1 && LowestFree(p.regBitmap) == -1 ==> |p.regValues| > 0
    ensures r.1.None? ==> |r.0.spillValues| == |p.spillValues| + 1
    ensures r.1.Some? && r.1.value.reg != -1 ==> IsReg(r.1.value.reg)
  {
    if no != -1 && v.Some? && RegId(p, v.value) == no then (p, Some(Allocation(no, None)))
    else
      var regno := if no == -1 then LowestFree(p.regBitmap) else if no in p.regBitmap then -1 else no;
      if regno != -1 then (Assign(p, v, regno), Some(Allocation(regno, None)))
      else
        var target := if no != -1 then no else RegId(p, p.regValues[0]);
        var (q, spilled) := Free(p, target);
        if spilled.None? then (q, Some(Allocation(-1, None)))
        else
          var regno' := RegId(q, spilled.value);
          var logged := q.(spillValues := q.spillValues + [spilled.value]);
          var tracked := if v.Some? then logged.(regIds := logged.regIds[v.value := regno'], regValues := logged.regValues + [v.value]) else logged;
          if IsReg(regno') then (BitmapSet(tracked, regno'), Some(Allocation(regno', spilled)))
          else (tracked, None)
  }

  /** Whenever Allocate spills, that is when every register is occupied and
      none is requested (i = 0) or the requested register is held by the
      i-th tracked Value, the written code throws out of bitmapSet(-1):
      the spill is logged and the new Value is tracked with id -1, but the
      freed register stays free and nothing is returned, which breaks the
      invariant. The intended path hands over the freed register. */
  lemma AsWrittenSpillLosesRegister(p: Pool, v: Option<ValueId>, no: int, i: int)
    requires Inv(p) && -1 <= no < MaxUsableRegNum && 0 <= i < |p.regValues|
    requires no == -1 ==> i == 0 && LowestFree(p.regBitmap) == -1
    requires no != -1 ==> RegId(p, p.regValues[i]) == no
    requires v.Some? ==> RegId(p, v.value) == -1
    ensures
      var (q, r) := AllocateAsWritten(p, v, no);
      var h := p.regValues[i];
      && r.None?
      && q.regBitmap == p.regBitmap - {RegId(p, h)}
      && q.spillValues == p.spillValues + [h]
      && q.regValues == RemoveAt(p.regValues, i) + (if v.Some? then [v.value] else [])
      && RegId(q, h) == -1
      && (v.Some? ==> RegId(q, v.value) == -1 && !Inv(q))
    ensures Allocate(p, v, no).1 == Allocation(RegId(p, p.regValues[i]), Some(p.regValues[i]))
    ensures IsReg(Allocate(p, v, no).1.reg)
  {
    var h := p.regValues[i];
    TrackedIsReg(p, i);
    FreeHolder(p, RegId(p, h), i);
    UntrackedOtherThan(p, v, h);
    if v.Some? {
      var q := AllocateAsWritten(p, v, no).0;
      assert q.regValues[|q.regValues| - 1] == v.value;
    }
  }

  /** Where Allocate spills nothing, the written code and the corrected one
      agree. */
  lemma AsWrittenWithoutSpill(p: Pool, v: Option<ValueId>, no: int)
    requires Inv(p) && -1 <= no < MaxUsableRegNum
    requires no == -1 && LowestFree(p.regBitmap) == -1 ==> |p.regValues| > 0
    requires Allocate(p, v, no).1.spilled.None?
    ensures AllocateAsWritten(p, v, no) == (Allocate(p, v, no).0, Some(Allocate(p, v, no).1))
  {
  }
}
