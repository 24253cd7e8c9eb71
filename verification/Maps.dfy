/** Equations between finite maps, stated once for any key and value type. */
module Maps {

  lemma PushOver<K, V>(rest: map<K, V>, top: map<K, V>, hidden: set<K>, k: K, v: V)
    ensures (rest + top[k := v]) - (hidden - {k}) == ((rest + top) - hidden)[k := v]
  {
  }

  lemma DropOver<K, V>(rest: map<K, V>, top: map<K, V>, hidden: set<K>, k: K)
    ensures (rest + (top - {k})) - (hidden + {k}) == ((rest + top) - hidden) - {k}
  {
  }

  lemma RemoveUpdated<K, V>(m: map<K, V>, k: K, v: V)
    ensures m[k := v] - {k} == m - {k}
  {
  }

  lemma RemoveOther<K, V>(m: map<K, V>, k: K, v: V, j: K)
    requires j != k
    ensures m[k := v] - {j} == (m - {j})[k := v]
  {
  }

  lemma UpdateRemoved<K, V>(m: map<K, V>, k: K, v: V)
    ensures (m - {k}) + map[k := v] == m[k := v]
    ensures map[k := v] + (m - {k}) == (m - {k})[k := v]
  {
  }

  lemma UnionUpdate<K, V>(m: map<K, V>, n: map<K, V>, k: K, v: V)
    ensures m + n[k := v] == (m + n)[k := v]
  {
  }

  lemma HiddenUpdate<K, V>(m: map<K, V>, hidden: set<K>, k: K, v: V)
    ensures k in hidden ==> m[k := v] - hidden == m - hidden
    ensures k !in hidden ==> m[k := v] - hidden == (m - (hidden + {k}))[k := v]
  {
    if k !in hidden {
      assert m[k := v] - hidden == (m - (hidden + {k}))[k := v];
    }
  }

  lemma HideTwice<K, V>(rest: map<K, V>, top: map<K, V>, hidden: set<K>)
    ensures (rest + (top - hidden)) - hidden == (rest + top) - hidden
  {
  }

  ghost predicate SlotsInRange<K, V>(slots: seq<V>, slotOf: map<K, nat>) {
    forall k :: k in slotOf ==> slotOf[k] < |slots|
  }

  /** The map a positional index stands for: each key's value stands in its slot. */
  ghost function SlotMap<K, V>(slots: seq<V>, slotOf: map<K, nat>): map<K, V>
    requires SlotsInRange(slots, slotOf)
  {
    map k | k in slotOf :: slots[slotOf[k]]
  }

  lemma SlotReplaced<K, V>(slots: seq<V>, slotOf: map<K, nat>, k: K, v: V)
    requires SlotsInRange(slots, slotOf)
    requires k in slotOf && forall j :: j in slotOf && slotOf[j] == slotOf[k] ==> j == k
    ensures SlotMap(slots[slotOf[k] := v], slotOf) == SlotMap(slots, slotOf)[k := v]
  {
  }

  lemma SlotAdded<K, V>(slots: seq<V>, slotOf: map<K, nat>, k: K, v: V)
    requires SlotsInRange(slots, slotOf)
    ensures SlotsInRange(slots + [v], slotOf[k := |slots|])
    ensures SlotMap(slots + [v], slotOf[k := |slots|]) == SlotMap(slots, slotOf)[k := v]
  {
  }

  lemma SlotDropped<K, V>(slots: seq<V>, slotOf: map<K, nat>, k: K)
    requires SlotsInRange(slots, slotOf)
    ensures SlotMap(slots, slotOf - {k}) == SlotMap(slots, slotOf) - {k}
  {
  }
}
