/** The ARM32 backend's simple register allocator as a class whose methods
    update its fields in place, each proved against the corresponding
    function of module RegisterPool. */
module Arm32RegisterAllocator {
  import opened Wrappers
  import RegisterPool

  /** The registers whose bit is set in a bitmap. */
  function Bits(a: array<bool>): (r: set<int>)
    reads a
    ensures forall j :: j in r <==> 0 <= j < a.Length && a[j]
  {
    set j | 0 <= j < a.Length && a[j]
  }

  class SimpleRegisterAllocator {
    /** Bit k set: register k is occupied. */
    const regBitmap: array<bool>
    /** Bit k set: register k has been occupied at some point. */
    const usedBitmap: array<bool>
    /** Values holding a register, in allocation order. */
    var regValues: seq<RegisterPool.ValueId>
    /** Values evicted to memory by Allocate, in eviction order. */
    var spillValues: seq<RegisterPool.ValueId>
    /** The register id each Value stores (absent: -1). */
    var regIds: map<RegisterPool.ValueId, int>

    /** The two bitmaps are distinct buffers of one bit per register. */
    ghost predicate Wf()
      reads this
    {
      && regBitmap.Length == RegisterPool.MaxUsableRegNum
      && usedBitmap.Length == RegisterPool.MaxUsableRegNum
      && regBitmap != usedBitmap
    }

    /** The allocator's state as a value. */
    ghost function Abs(): RegisterPool.Pool
      reads this, regBitmap, usedBitmap
    {
      RegisterPool.Pool(Bits(regBitmap), Bits(usedBitmap), regValues, spillValues, regIds)
    }

    ghost predicate Valid()
      reads this, regBitmap, usedBitmap
    {
      Wf() && RegisterPool.Inv(Abs())
    }

    constructor ()
      ensures Valid() && fresh(regBitmap) && fresh(usedBitmap)
      ensures Abs() == RegisterPool.EmptyPool()
    {
      regBitmap := new bool[RegisterPool.MaxUsableRegNum](_ => false);
      usedBitmap := new bool[RegisterPool.MaxUsableRegNum](_ => false);
      regValues := [];
      spillValues := [];
      regIds := map[];
      new;
      assert Bits(regBitmap) == {};
      assert Bits(usedBitmap) == {};
    }

    /** bitmapSet(no): marks register no occupied and used. */
    method BitmapSet(no: int)
      requires Wf() && RegisterPool.IsReg(no)
      modifies regBitmap, usedBitmap
      ensures Abs() == RegisterPool.BitmapSet(old(Abs()), no)
    {
      regBitmap[no] := true;
      usedBitmap[no] := true;
      assert Bits(regBitmap) == old(Bits(regBitmap)) + {no};
      assert Bits(usedBitmap) == old(Bits(usedBitmap)) + {no};
    }

    /** The lowest register whose bit is clear, -1 when there is none. */
    method LowestFreeRegister() returns (regno: int)
      requires Wf()
      ensures regno == RegisterPool.LowestFree(Bits(regBitmap))
      ensures regno == -1 || (RegisterPool.IsReg(regno) && !regBitmap[regno])
    {
      regno := -1;
      for k := 0 to RegisterPool.MaxUsableRegNum
        invariant RegisterPool.LowestFreeFrom(Bits(regBitmap), k) == RegisterPool.LowestFree(Bits(regBitmap))
      {
        if !regBitmap[k] {
          regno := k;
          break;
        }
      }
    }

    /** Position of the first tracked Value holding register no, or
        |regValues| when there is none (std::find_if). */
    method FindHolder(no: int) returns (i: nat)
      requires Wf()
      ensures i == RegisterPool.IndexOfReg(Abs(), no, 0)
    {
      i := 0;
      while i < |regValues| && RegisterPool.IdIn(regIds, regValues[i]) != no
        invariant i <= |regValues|
        invariant forall j :: 0 <= j < i ==> RegisterPool.IdIn(regIds, regValues[j]) != no
      {
        i := i + 1;
      }
      RegisterPool.IndexOfRegFirst(Abs(), no, i);
    }

    /** free(no): releases register no and returns the Value that held it. */
    method Free(no: int) returns (freeValue: Option<RegisterPool.ValueId>)
      requires Wf() && no < RegisterPool.MaxUsableRegNum
      modifies this, regBitmap
      ensures Wf()
      ensures (Abs(), freeValue) == RegisterPool.Free(old(Abs()), no)
      ensures old(Valid()) ==> Valid()
    {
      if no < 0 {
        return None;
      }
      regBitmap[no] := false;
      assert Bits(regBitmap) == old(Bits(regBitmap)) - {no};
      var i := FindHolder(no);
      RegisterPool.IndexOfRegIgnoresBitmaps(Abs(), old(Abs()), no, 0);
      if i < |regValues| {
        var fv := regValues[i];
        regIds := regIds[fv := -1];
        regValues := regValues[..i] + regValues[i + 1..];
        freeValue := Some(fv);
        assert Abs() == old(Abs()).(regBitmap := old(Abs()).regBitmap - {no},
          regValues := RegisterPool.RemoveAt(old(regValues), i), regIds := old(regIds)[fv := -1]);
      } else {
        freeValue := None;
        assert Abs() == old(Abs()).(regBitmap := old(Abs()).regBitmap - {no});
      }
      if old(Valid()) {
        RegisterPool.FreePreserves(old(Abs()), no);
      }
    }

    /** free(var): releases the register Value v holds. */
    method FreeValue(v: RegisterPool.ValueId)
      requires Wf() && RegisterPool.IdIn(regIds, v) < RegisterPool.MaxUsableRegNum
      modifies this, regBitmap
      ensures Wf()
      ensures Abs() == RegisterPool.FreeValue(old(Abs()), v)
      ensures old(Valid()) ==> Valid()
    {
      var _ := Free(RegisterPool.IdIn(regIds, v));
    }

    /** Allocate(no): takes register no, releasing whatever Value held it. */
    method ForceAllocate(no: int)
      requires Wf() && RegisterPool.IsReg(no)
      modifies this, regBitmap, usedBitmap
      ensures Wf()
      ensures Abs() == RegisterPool.ForceAllocate(old(Abs()), no)
      ensures old(Valid()) ==> Valid()
    {
      if regBitmap[no] {
        var _ := Free(no);
      }
      BitmapSet(no);
      if old(Valid()) {
        RegisterPool.ForceAllocatePreserves(old(Abs()), no);
      }
    }

    /** Records that Value w now holds register r (setRegId and push_back). */
    method Track(w: RegisterPool.ValueId, r: int)
      modifies this
      ensures Abs() == old(Abs()).(regIds := old(regIds)[w := r], regValues := old(regValues) + [w])
    {
      regIds := regIds[w := r];
      regValues := regValues + [w];
    }

    /** Appends a spilled Value to spillValues. */
    method LogSpill(w: RegisterPool.ValueId)
      modifies this
      ensures Abs() == old(Abs()).(spillValues := old(spillValues) + [w])
    {
      spillValues := spillValues + [w];
    }

    /** Allocate(var, no): grants register no (or the lowest free one when
        no is -1) to v, spilling a Value when the register is taken. */
    method Allocate(v: Option<RegisterPool.ValueId>, no: int) returns (regno: int, spillValue: Option<RegisterPool.ValueId>)
      requires Valid()
      requires -1 <= no < RegisterPool.MaxUsableRegNum
      requires no == -1 && RegisterPool.LowestFree(Bits(regBitmap)) == -1 ==> |regValues| > 0
      modifies this, regBitmap, usedBitmap
      ensures Wf()
      ensures (Abs(), RegisterPool.Allocation(regno, spillValue)) == RegisterPool.Allocate(old(Abs()), v, no)
      ensures (v.Some? ==> RegisterPool.IdIn(old(regIds), v.value) == -1 || RegisterPool.IdIn(old(regIds), v.value) == no) ==> Valid()
    {
      ghost var p := Abs();
      regno := -1;
      spillValue := None;
      if no != -1 {
        if v.Some? && RegisterPool.IdIn(regIds, v.value) == no {
          return no, None;
        }
        if !regBitmap[no] {
          regno := no;
        }
      } else {
        regno := LowestFreeRegister();
      }
      if regno == -1 {
        var target := if no != -1 then no else RegisterPool.IdIn(regIds, regValues[0]);
        if no == -1 {
          RegisterPool.TrackedIsReg(p, 0);
        }
        spillValue := Free(target);
        if spillValue.None? {
          RegisterPool.FreePreserves(p, target);
          return -1, None;
        }
        regno := target;
        LogSpill(spillValue.value);
      }
      ghost var pre := Abs();
      assert RegisterPool.Allocate(p, v, no) == (RegisterPool.Assign(pre, v, regno), RegisterPool.Allocation(regno, spillValue));
      if v.Some? {
        Track(v.value, regno);
      }
      ghost var mid := Abs();
      BitmapSet(regno);
      assert Abs() == RegisterPool.BitmapSet(mid, regno);
      if v.Some? ==> RegisterPool.RegId(p, v.value) == -1 || RegisterPool.RegId(p, v.value) == no {
        RegisterPool.AllocatePreserves(p, v, no);
      }
    }
  }
}
