/**
 What a coil write does to the device (`buildCoilWritePlan` in internal/engine/converter/value.go):
 the first coil takes the truth of the value and a block write clears the others.
*/
module CoilWrites {
  import opened Bits
  import opened Pdu
  import opened Slave
  import opened Props
  import opened Mapper
  import opened WritePath

  /** The first of n bits on or off, the others off. */
  function FirstOnly(n: nat, on: bool): seq<bool> { seq(n, i => i == 0 && on) }

  /** How many coils the property spans. */
  function Coils(p: PropMeta): int { if p.IsBitSpace() then p.BitSpan() else p.registerCount }

  /** Running a coil plan changes exactly the coils it names. */
  lemma CoilPlanEffect(p: PropMeta, v: Written, startAddr: int, fc: int, dev: Device) returns (n: nat)
    requires dev.Valid() && CoilPlan(p, v, startAddr, fc).Plan?
    ensures n == if fc == 5 || Coils(p) <= 1 then 1 else Coils(p)
    ensures 0 <= startAddr && startAddr + n <= MAX_ADDRESS + 1
    ensures Run(dev, CoilPlan(p, v, startAddr, fc).frames)
            == dev.(coils := Overwrite(dev.coils, startAddr, FirstOnly(n, v.nonZero)))
  {
    var frames := CoilPlan(p, v, startAddr, fc).frames;
    n := frames[0].quantity;
    assert frames[..0] == [];
    if frames[0].fc == WRITE_COIL {
      SingleCoilServed(dev, startAddr, v.nonZero);
      assert FirstOnly(1, v.nonZero) == [v.nonZero];
    } else {
      MultiCoilsServed(dev, startAddr, n, FirstOnly(n, v.nonZero));
    }
  }

  lemma JustWritten<T>(mem: seq<T>, addr: nat, values: seq<T>)
    requires addr + |values| <= |mem|
    ensures Overwrite(mem, addr, values)[addr..addr + |values|] == values
  {
  }

  lemma FirstMeans(n: nat, on: bool, signed: bool)
    requires n >= 1
    ensures IntOfBits(FirstOnly(n, on), signed) == if !on then 0 else if n == 1 && signed then -1 else 1
  {
    var bits := FirstOnly(n, on);
    NoneValue(bits[1..]);
    if n >= 64 {
      NoneValue(bits[..64][1..]);
    }
  }

  /**
   A bit property written whole and read back: a bool survives; a number survives exactly when it is
   0 or 1, or 0 or -1 for a signed single bit.
  */
  lemma CoilReadBackIff(p: PropMeta, v: Written, startAddr: int, fc: int, dev: Device)
    requires dev.Valid() && v.nonZero == (v.asInt64 != 0)
    requires p.IsBitSpace() && p.registerCount >= 1 && (fc != 5 || p.registerCount == 1)
    requires CoilPlan(p, v, startAddr, fc).Plan?
    ensures 0 <= startAddr && startAddr + p.registerCount <= MAX_ADDRESS + 1
    ensures var read :=
        BitsMeaning(p, Run(dev, CoilPlan(p, v, startAddr, fc).frames).coils[startAddr..startAddr + p.registerCount]);
      if p.dataType.BoolType? then read == BoolValue(v.nonZero)
      else read == IntValue(v.asInt64) <==>
           v.asInt64 == 0 || v.asInt64 == (if p.registerCount == 1 && p.signed == Some(true) then -1 else 1)
  {
    var n := CoilPlanEffect(p, v, startAddr, fc, dev);
    JustWritten(dev.coils, startAddr, FirstOnly(n, v.nonZero));
    FirstMeans(n, v.nonZero, p.signed == Some(true));
  }
}
