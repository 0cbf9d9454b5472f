/** The slot layout of the open-addressing hash tables that the view is built from. An
    iterator into such a table is a slot index; the index one past the last slot is the
    table's end. */
module Khash {

  datatype Slot<+K, +V> = Free | Used(key: K, val: V)

  ghost predicate Unique<K, V>(t: seq<Slot<K, V>>) {
    forall i, j :: 0 <= i < j < |t| && t[i].Used? && t[j].Used? ==> t[i].key != t[j].key
  }

  /** The lookup: the slot that holds `k`, or the end of the table. */
  function Get<K(==), V>(t: seq<Slot<K, V>>, k: K): (i: nat)
    ensures i <= |t|
    ensures i < |t| ==> t[i].Used? && t[i].key == k
    ensures i == |t| ==> forall j :: 0 <= j < |t| && t[j].Used? ==> t[j].key != k
  {
    GetFrom(t, k, 0)
  }

  function GetFrom<K(==), V>(t: seq<Slot<K, V>>, k: K, from: nat): (i: nat)
    requires from <= |t|
    ensures from <= i <= |t|
    ensures i < |t| ==> t[i].Used? && t[i].key == k
    ensures forall j :: from <= j < i && t[j].Used? ==> t[j].key != k
    decreases |t| - from
  {
    if from == |t| || (t[from].Used? && t[from].key == k) then from else GetFrom(t, k, from + 1)
  }

  /** In a table with unique keys the lookup of a stored key is its own slot. */
  lemma GetIsSlot<K, V>(t: seq<Slot<K, V>>, i: nat)
    requires Unique(t) && i < |t| && t[i].Used?
    ensures Get(t, t[i].key) == i
  {
    var g := Get(t, t[i].key);
    assert g < |t|;
  }

  /** Where an absent key goes: the first free slot, or a new one at the end. */
  function FreeFrom<K, V>(t: seq<Slot<K, V>>, from: nat): (i: nat)
    requires from <= |t|
    ensures from <= i <= |t|
    ensures i < |t| ==> t[i].Free?
    decreases |t| - from
  {
    if from == |t| || t[from].Free? then from else FreeFrom(t, from + 1)
  }

  function Room<K, V>(t: seq<Slot<K, V>>): (r: seq<Slot<K, V>>) {
    if FreeFrom(t, 0) < |t| then t else t + [Free]
  }

  /** Inserting an absent key keeps keys unique, changes no other lookup and finds itself. */
  lemma PutFacts<K, V>(t: seq<Slot<K, V>>, k: K, v: V)
    requires Unique(t) && Get(t, k) == |t|
    ensures var i := FreeFrom(t, 0); var t' := Room(t)[i := Used(k, v)];
            && Unique(t') && Get(t', k) == i
  {
    var i := FreeFrom(t, 0);
    var t' := Room(t)[i := Used(k, v)];
    assert forall j :: 0 <= j < |t'| && j != i ==> t'[j] == Room(t)[j];
    assert forall j :: 0 <= j < |t| && t[j].Used? ==> t[j].key != k;
    assert Unique(t');
    GetIsSlot(t', i);
  }

  /** Replacing a value in place keeps every lookup. */
  lemma SetFacts<K, V>(t: seq<Slot<K, V>>, i: nat, v: V)
    requires Unique(t) && i < |t| && t[i].Used?
    ensures Unique(t[i := Used(t[i].key, v)])
    ensures forall k :: Get(t[i := Used(t[i].key, v)], k) == Get(t, k)
  {
    var t' := t[i := Used(t[i].key, v)];
    assert Unique(t');
    forall k ensures Get(t', k) == Get(t, k) {
      var g, g' := Get(t, k), Get(t', k);
      if g < |t| { GetIsSlot(t', g); }
      if g' < |t| { GetIsSlot(t, g'); }
    }
  }

  /** Lookups of other keys after an insertion: both miss, or both hit the same slot. */
  lemma PutOthers<K, V>(t: seq<Slot<K, V>>, k: K, v: V, q: K)
    requires Unique(t) && Get(t, k) == |t| && q != k
    ensures var t' := Room(t)[FreeFrom(t, 0) := Used(k, v)];
            if Get(t, q) == |t| then Get(t', q) == |t'| else Get(t', q) == Get(t, q)
  {
    PutFacts(t, k, v);
    var i := FreeFrom(t, 0);
    var t' := Room(t)[i := Used(k, v)];
    var g, g' := Get(t, q), Get(t', q);
    if g < |t| { assert t'[g] == t[g]; GetIsSlot(t', g); }
    if g' < |t'| { assert g' != i; assert t'[g'] == Room(t)[g']; GetIsSlot(t, g'); }
  }

  /** Same keys in the same slots. */
  ghost predicate SameKeys<K, V>(t: seq<Slot<K, V>>, t': seq<Slot<K, V>>) {
    |t'| == |t| && forall i :: 0 <= i < |t| ==> t'[i].Used? == t[i].Used? && (t[i].Used? ==> t'[i].key == t[i].key)
  }
}
