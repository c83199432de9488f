/**
 The device positions of a channel plan (`buildChannelPlan` in internal/engine/plan.go). What a
 model's profile and properties build into is a parameter; error messages are reduced to their kind.
*/
module DevicePlans {
  import opened Props
  import opened Plans

  datatype Mount = Mount(index: int, commNo: int, name: Text, modelID: Text)

  /** What `buildDevicePlan` makes of a model: nothing when its profile or its properties are refused. */
  datatype Model = Model(name: Text, parts: Option<Parts>)

  datatype Parts = Parts(protocol: Text, groups: seq<GroupSpec>, props: seq<PropSpec>)

  datatype Fault = NoModel | CommOutOfRange | CommTaken | ModelBroken

  datatype Outcome = Collects(unitID: int, parts: Parts) | Idle(fault: Fault)

  /** A position of the plan; an idle one is kept so that no other position moves. */
  datatype Slot = Slot(index: int, name: Text, modelID: Text, outcome: Outcome)

  // ---- what the plan should be

  /** Mount i is the first with its index, and the index is legal. */
  predicate First(mounts: seq<Mount>, i: nat) {
    i < |mounts| && mounts[i].index >= 0 && forall j :: 0 <= j < i ==> mounts[j].index != mounts[i].index
  }

  predicate InRange(commNo: int) { 1 <= commNo <= 247 }

  /** Mount i lays claim to its unit number, whether or not its model then builds. */
  predicate Claims(mounts: seq<Mount>, models: map<Text, Model>, i: nat) {
    First(mounts, i) && mounts[i].modelID in models && InRange(mounts[i].commNo)
  }

  ghost predicate Taken(mounts: seq<Mount>, models: map<Text, Model>, i: nat)
    requires i < |mounts|
  {
    exists j :: 0 <= j < i && Claims(mounts, models, j) && mounts[j].commNo == mounts[i].commNo
  }

  /** The position mount i must get. */
  ghost function SlotOf(mounts: seq<Mount>, models: map<Text, Model>, i: nat): Slot
    requires i < |mounts|
  {
    var m := mounts[i];
    Slot(m.index, m.name, m.modelID,
      if m.modelID !in models then Idle(NoModel)
      else if !InRange(m.commNo) then Idle(CommOutOfRange)
      else if Taken(mounts, models, i) then Idle(CommTaken)
      else if models[m.modelID].parts.None? then Idle(ModelBroken)
      else Collects(m.commNo, models[m.modelID].parts.value))
  }

  ghost predicate FromMount(slot: Slot, mounts: seq<Mount>, models: map<Text, Model>, n: nat)
    requires n <= |mounts|
  {
    exists i: nat :: i < n && First(mounts, i) && slot == SlotOf(mounts, models, i)
  }

  /** Exactly the positions of the first mounts among the first n. */
  ghost predicate Covers(slots: seq<Slot>, mounts: seq<Mount>, models: map<Text, Model>, n: nat)
    requires n <= |mounts|
  {
    && (forall k :: 0 <= k < |slots| ==> FromMount(slots[k], mounts, models, n))
    && (forall i: nat :: i < n && First(mounts, i) ==> SlotOf(mounts, models, i) in slots)
  }

  predicate Rising(slots: seq<Slot>) { forall j, k :: 0 <= j < k < |slots| ==> slots[j].index < slots[k].index }

  /** The plan of a mount list: one position per legal index, in rising order. */
  ghost predicate IsPlan(slots: seq<Slot>, mounts: seq<Mount>, models: map<Text, Model>) {
    Covers(slots, mounts, models, |mounts|) && Rising(slots)
  }

  // ---- the code

  ghost predicate SeenIndices(seen: set<int>, mounts: seq<Mount>, n: nat)
    requires n <= |mounts|
  {
    forall x :: x in seen <==> x >= 0 && exists j :: 0 <= j < n && mounts[j].index == x
  }

  ghost predicate SeenComms(seen: set<int>, mounts: seq<Mount>, models: map<Text, Model>, n: nat)
    requires n <= |mounts|
  {
    forall c :: c in seen <==> exists j :: 0 <= j < n && Claims(mounts, models, j) && mounts[j].commNo == c
  }

  ghost predicate DistinctIndices(slots: seq<Slot>) {
    forall j, k :: 0 <= j < k < |slots| ==> slots[j].index != slots[k].index
  }

  /** One mount that is the first of its index: the position it gets, and the unit numbers then seen. */
  method Place(m: Mount, models: map<Text, Model>, seenComm: set<int>) returns (slot: Slot, seen: set<int>)
    ensures slot == Slot(m.index, m.name, m.modelID,
      if m.modelID !in models then Idle(NoModel)
      else if !InRange(m.commNo) then Idle(CommOutOfRange)
      else if m.commNo in seenComm then Idle(CommTaken)
      else if models[m.modelID].parts.None? then Idle(ModelBroken)
      else Collects(m.commNo, models[m.modelID].parts.value))
    ensures seen == if m.modelID in models && InRange(m.commNo) then seenComm + {m.commNo} else seenComm
  {
    seen := seenComm;
    slot := Slot(m.index, m.name, m.modelID, Idle(NoModel));
    if m.modelID !in models { return; }
    if m.commNo < 1 || m.commNo > 247 {
      slot := slot.(outcome := Idle(CommOutOfRange));
      return;
    }
    if m.commNo in seenComm {
      slot := slot.(outcome := Idle(CommTaken));
      assert seenComm + {m.commNo} == seenComm;
      return;
    }
    seen := seenComm + {m.commNo};
    match models[m.modelID].parts
    case None => slot := slot.(outcome := Idle(ModelBroken));
    case Some(parts) => slot := slot.(outcome := Collects(m.commNo, parts));
  }

  /** `buildChannelPlan`; an empty result is the source's nil plan. */
  method BuildChannelPlan(mounts: seq<Mount>, models: map<Text, Model>) returns (slots: seq<Slot>)
    ensures IsPlan(slots, mounts, models)
  {
    slots := [];
    var seenIndex: set<int>, seenComm: set<int> := {}, {};
    for n := 0 to |mounts|
      invariant SeenIndices(seenIndex, mounts, n) && SeenComms(seenComm, mounts, models, n)
      invariant Covers(slots, mounts, models, n) && DistinctIndices(slots)
      invariant forall k :: 0 <= k < |slots| ==> slots[k].index in seenIndex
    {
      var m := mounts[n];
      if m.index < 0 || m.index in seenIndex {
        Skipped(slots, seenComm, mounts, models, n);
        SeenOne(seenIndex, mounts, n);
        continue;
      }
      assert First(mounts, n);
      SeenOne(seenIndex, mounts, n);
      seenIndex := seenIndex + {m.index};
      var slot, seen := Place(m, models, seenComm);
      Placed(slots, slot, seenComm, seen, mounts, models, n);
      seenComm := seen;
      slots := slots + [slot];
    }
    ghost var unsorted := slots;
    slots := Sort(slots);
    SameCovers(unsorted, slots, mounts, models);
  }

  lemma SeenOne(seen: set<int>, mounts: seq<Mount>, n: nat)
    requires n < |mounts| && SeenIndices(seen, mounts, n)
    ensures SeenIndices(if mounts[n].index >= 0 then seen + {mounts[n].index} else seen, mounts, n + 1)
    ensures mounts[n].index in seen ==> SeenIndices(seen, mounts, n + 1)
  {
    var after := if mounts[n].index >= 0 then seen + {mounts[n].index} else seen;
    forall x ensures x in after <==> x >= 0 && exists j :: 0 <= j < n + 1 && mounts[j].index == x {
      if x >= 0 && x == mounts[n].index {
        assert 0 <= n < n + 1 && mounts[n].index == x;
      }
    }
    if mounts[n].index in seen {
      assert after == seen;
    }
  }

  lemma Skipped(slots: seq<Slot>, seenComm: set<int>, mounts: seq<Mount>, models: map<Text, Model>, n: nat)
    requires n < |mounts| && !First(mounts, n)
    requires Covers(slots, mounts, models, n) && SeenComms(seenComm, mounts, models, n)
    ensures Covers(slots, mounts, models, n + 1) && SeenComms(seenComm, mounts, models, n + 1)
  {
    forall k | 0 <= k < |slots| ensures FromMount(slots[k], mounts, models, n + 1) {
      assert FromMount(slots[k], mounts, models, n);
    }
    forall c ensures c in seenComm <==>
        exists j :: 0 <= j < n + 1 && Claims(mounts, models, j) && mounts[j].commNo == c {
    }
  }

  lemma Placed(slots: seq<Slot>, slot: Slot, before: set<int>, after: set<int>, mounts: seq<Mount>,
               models: map<Text, Model>, n: nat)
    requires n < |mounts| && First(mounts, n)
    requires Covers(slots, mounts, models, n) && SeenComms(before, mounts, models, n)
    requires slot == SlotOf(mounts, models, n)
    requires after == if Claims(mounts, models, n) then before + {mounts[n].commNo} else before
    ensures Covers(slots + [slot], mounts, models, n + 1) && SeenComms(after, mounts, models, n + 1)
  {
  }

  method Sort(slots: seq<Slot>) returns (sorted: seq<Slot>)
    requires DistinctIndices(slots)
    ensures Rising(sorted) && multiset(sorted) == multiset(slots)
  {
    sorted := [];
    for n := 0 to |slots|
      invariant Rising(sorted) && multiset(sorted) == multiset(slots[..n])
    {
      NotYetIn(slots, sorted, n);
      assert slots[..n + 1] == slots[..n] + [slots[n]];
      sorted := Insert(sorted, slots[n]);
    }
    assert slots[..|slots|] == slots;
  }

  lemma NotYetIn(slots: seq<Slot>, sorted: seq<Slot>, n: nat)
    requires DistinctIndices(slots) && n < |slots| && multiset(sorted) == multiset(slots[..n])
    ensures forall k :: 0 <= k < |sorted| ==> sorted[k].index != slots[n].index
  {
    forall k | 0 <= k < |sorted| ensures sorted[k].index != slots[n].index {
      assert sorted[k] in multiset(sorted);
      assert sorted[k] in slots[..n];
    }
  }

  method Insert(sorted: seq<Slot>, slot: Slot) returns (longer: seq<Slot>)
    requires Rising(sorted) && forall k :: 0 <= k < |sorted| ==> sorted[k].index != slot.index
    ensures Rising(longer) && multiset(longer) == multiset(sorted) + multiset{slot}
  {
    var at := 0;
    while at < |sorted| && sorted[at].index < slot.index
      invariant 0 <= at <= |sorted| && forall k :: 0 <= k < at ==> sorted[k].index < slot.index
    {
      at := at + 1;
    }
    assert sorted == sorted[..at] + sorted[at..];
    longer := sorted[..at] + [slot] + sorted[at..];
  }

  lemma SameCovers(a: seq<Slot>, b: seq<Slot>, mounts: seq<Mount>, models: map<Text, Model>)
    requires Covers(a, mounts, models, |mounts|) && multiset(a) == multiset(b)
    ensures Covers(b, mounts, models, |mounts|)
  {
    forall s ensures s in a <==> s in b {
      assert s in a <==> s in multiset(a);
      assert s in b <==> s in multiset(b);
    }
    forall k | 0 <= k < |b| ensures b[k] in a {
      assert b[k] in b;
    }
  }

  // ---- what the plan promises

  /** The positions are exactly the legal indices mounted. */
  ghost predicate Has(slots: seq<Slot>, x: int) { exists k :: 0 <= k < |slots| && slots[k].index == x }

  ghost predicate Mounted(mounts: seq<Mount>, x: int) {
    x >= 0 && exists i :: 0 <= i < |mounts| && mounts[i].index == x
  }

  lemma IndicesAreMounts(slots: seq<Slot>, mounts: seq<Mount>, models: map<Text, Model>, x: int)
    requires IsPlan(slots, mounts, models)
    ensures Has(slots, x) <==> Mounted(mounts, x)
  {
    if Mounted(mounts, x) {
      var i :| 0 <= i < |mounts| && mounts[i].index == x;
      var f := FirstOf(mounts, i);
      assert SlotOf(mounts, models, f) in slots;
    }
  }

  lemma {:induction false} FirstOf(mounts: seq<Mount>, i: nat) returns (f: nat)
    requires i < |mounts| && mounts[i].index >= 0
    ensures f <= i && First(mounts, f) && mounts[f].index == mounts[i].index
  {
    f := i;
    if !First(mounts, i) {
      var j :| 0 <= j < i && mounts[j].index == mounts[i].index;
      f := FirstOf(mounts, j);
    }
  }

  lemma MountOf(slot: Slot, mounts: seq<Mount>, models: map<Text, Model>) returns (i: nat)
    requires FromMount(slot, mounts, models, |mounts|)
    ensures First(mounts, i) && slot == SlotOf(mounts, models, i)
  {
    i :| i < |mounts| && First(mounts, i) && slot == SlotOf(mounts, models, i);
  }

  /** What a position is bound to: its index, name and model. */
  function Binding(s: Slot): (int, Text, Text) { (s.index, s.name, s.modelID) }

  /** Two rising lists with the same indices have the same indices in the same places. */
  lemma {:induction false} RisingUnique(a: seq<Slot>, b: seq<Slot>)
    requires Rising(a) && Rising(b)
    requires forall x :: Has(a, x) <==> Has(b, x)
    ensures |a| == |b| && forall k :: 0 <= k < |a| ==> a[k].index == b[k].index
  {
    if a == [] && b == [] {
    } else {
      assert a != [] && b != [] by {
        assert a != [] ==> Has(a, a[0].index);
        assert b != [] ==> Has(b, b[0].index);
      }
      var m, n := |a| - 1, |b| - 1;
      SameLast(a, b);
      forall x ensures Has(a[..m], x) <==> Has(b[..n], x) {
        FrontHas(a, x);
        FrontHas(b, x);
      }
      RisingUnique(a[..m], b[..n]);
      forall k | 0 <= k < m ensures a[k].index == b[k].index {
        assert a[..m][k].index == b[..n][k].index;
      }
    }
  }

  lemma SameLast(a: seq<Slot>, b: seq<Slot>)
    requires Rising(a) && Rising(b) && a != [] && b != []
    requires forall x :: Has(a, x) <==> Has(b, x)
    ensures a[|a| - 1].index == b[|b| - 1].index
  {
    assert Has(a, a[|a| - 1].index) && Has(b, b[|b| - 1].index);
    var i :| 0 <= i < |a| && a[i].index == b[|b| - 1].index;
    var j :| 0 <= j < |b| && b[j].index == a[|a| - 1].index;
  }

  lemma FrontHas(a: seq<Slot>, x: int)
    requires Rising(a) && a != []
    ensures Has(a[..|a| - 1], x) <==> Has(a, x) && x != a[|a| - 1].index
  {
    var front := a[..|a| - 1];
    if Has(front, x) {
      var k :| 0 <= k < |front| && front[k].index == x;
      assert a[k].index == x;
    }
    if Has(a, x) && x != a[|a| - 1].index {
      var k :| 0 <= k < |a| && a[k].index == x;
      assert front[k].index == x;
    }
  }

  /** Whatever the models are, a mount list binds the same indices to the same names and models. */
  lemma BindingsStable(slots: seq<Slot>, slots': seq<Slot>, mounts: seq<Mount>, models: map<Text, Model>,
                       models': map<Text, Model>)
    requires IsPlan(slots, mounts, models) && IsPlan(slots', mounts, models')
    ensures |slots| == |slots'| && forall k :: 0 <= k < |slots| ==> Binding(slots[k]) == Binding(slots'[k])
  {
    forall x ensures Has(slots, x) <==> Has(slots', x) {
      IndicesAreMounts(slots, mounts, models, x);
      IndicesAreMounts(slots', mounts, models', x);
    }
    RisingUnique(slots, slots');
    forall k | 0 <= k < |slots| ensures Binding(slots[k]) == Binding(slots'[k]) {
      var i := MountOf(slots[k], mounts, models);
      var j := MountOf(slots'[k], mounts, models');
      assert i == j;
    }
  }

  /** Positions that are collected have unit numbers in range, each its own. */
  lemma UnitsDistinct(slots: seq<Slot>, mounts: seq<Mount>, models: map<Text, Model>, j: nat, k: nat)
    requires IsPlan(slots, mounts, models) && j < k < |slots|
    requires slots[j].outcome.Collects? && slots[k].outcome.Collects?
    ensures InRange(slots[j].outcome.unitID) && InRange(slots[k].outcome.unitID)
    ensures slots[j].outcome.unitID != slots[k].outcome.unitID
  {
    var a := MountOf(slots[j], mounts, models);
    var b := MountOf(slots[k], mounts, models);
    assert slots[j].index < slots[k].index;
    assert Claims(mounts, models, a) && Claims(mounts, models, b);
    if a < b {
      ClaimTakes(mounts, models, a, b);
    } else {
      ClaimTakes(mounts, models, b, a);
    }
  }

  lemma ClaimTakes(mounts: seq<Mount>, models: map<Text, Model>, a: nat, b: nat)
    requires a < b < |mounts| && Claims(mounts, models, a)
    ensures mounts[a].commNo == mounts[b].commNo ==> Taken(mounts, models, b)
  {
  }

  /** Changing what a model builds into, or breaking it, touches only the positions of that model. */
  lemma ModelChangeIsLocal(mounts: seq<Mount>, models: map<Text, Model>, id: Text, model: Model, i: nat)
    requires id in models && i < |mounts| && mounts[i].modelID != id
    ensures SlotOf(mounts, models[id := model], i) == SlotOf(mounts, models, i)
  {
    var models' := models[id := model];
    forall j: nat ensures Claims(mounts, models', j) == Claims(mounts, models, j) {
    }
  }

  /** Deleting a model leaves every other position as it was, or frees the unit number it was refused for. */
  lemma ModelDeleteFrees(mounts: seq<Mount>, models: map<Text, Model>, id: Text, i: nat)
    requires i < |mounts| && mounts[i].modelID != id
    ensures SlotOf(mounts, models - {id}, i) == SlotOf(mounts, models, i)
        || SlotOf(mounts, models, i).outcome == Idle(CommTaken)
  {
    var models' := models - {id};
    if Taken(mounts, models', i) {
      var j :| 0 <= j < i && Claims(mounts, models', j) && mounts[j].commNo == mounts[i].commNo;
      assert Claims(mounts, models, j);
    }
  }
}
