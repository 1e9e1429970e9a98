/** Fixed tables of optional keys with a value beside each, read as maps. */
module Associations {

  datatype Option<+T> = None | Some(value: T)

  ghost predicate Distinct<K>(ks: seq<Option<K>>) {
    forall i, j :: 0 <= i < j < |ks| && ks[i].Some? && ks[j].Some? ==> ks[i] != ks[j]
  }

  ghost function Assoc<K, V>(ks: seq<Option<K>>, vs: seq<V>): map<K, V>
    requires Distinct(ks) && |vs| == |ks|
  {
    map i | 0 <= i < |ks| && ks[i].Some? :: ks[i].value := vs[i]
  }

  lemma AssocHas<K, V>(ks: seq<Option<K>>, vs: seq<V>, i: nat)
    requires Distinct(ks) && |vs| == |ks| && i < |ks| && ks[i].Some?
    ensures ks[i].value in Assoc(ks, vs) && Assoc(ks, vs)[ks[i].value] == vs[i]
  {
  }

  lemma AssocFrom<K, V>(ks: seq<Option<K>>, vs: seq<V>, key: K) returns (i: nat)
    requires Distinct(ks) && |vs| == |ks| && key in Assoc(ks, vs)
    ensures i < |ks| && ks[i] == Some(key) && Assoc(ks, vs)[key] == vs[i]
  {
    i :| 0 <= i < |ks| && ks[i] == Some(key);
  }

  /** Filling an unused row adds one key. */
  lemma AssocAdd<K, V>(ks: seq<Option<K>>, vs: seq<V>, slot: nat, key: K, v: V)
    requires Distinct(ks) && |vs| == |ks| && slot < |ks|
    requires ks[slot].None? && Distinct(ks[slot := Some(key)])
    ensures key !in Assoc(ks, vs)
    ensures Assoc(ks[slot := Some(key)], vs[slot := v]) == Assoc(ks, vs)[key := v]
  {
    var ks', vs' := ks[slot := Some(key)], vs[slot := v];
    var m, m' := Assoc(ks, vs), Assoc(ks', vs');
    forall i | 0 <= i < |ks| ensures ks[i] != Some(key) {
      assert ks'[slot] == Some(key) && (i == slot || ks'[i] == ks[i]);
    }
    AssocHas(ks', vs', slot);
    forall k | k in m ensures k in m' && m'[k] == m[k] {
      var i := AssocFrom(ks, vs, k);
      AssocHas(ks', vs', i);
    }
    forall k | k in m' && k != key ensures k in m {
      var i := AssocFrom(ks', vs', k);
      AssocHas(ks, vs, i);
    }
  }

  lemma DropAdded<K, V>(m: map<K, V>, key: K, v: V)
    requires key !in m
    ensures m[key := v] - {key} == m
  {
  }

  lemma SetAdded<K, V>(m: map<K, V>, m': map<K, V>, key: K, v: V)
    requires m' - {key} == m
    ensures m'[key := v] == m[key := v]
  {
    forall k | k in m' && k != key ensures k in m && m'[k] == m[k] {
      assert k in m' - {key} && (m' - {key})[k] == m'[k];
    }
    forall k | k in m ensures k in m' && m'[k] == m[k] {
      assert (m' - {key})[k] == m'[k];
    }
  }

  /** Changing the value beside a key changes that key's value. */
  lemma AssocSet<K, V>(ks: seq<Option<K>>, vs: seq<V>, slot: nat, v: V)
    requires Distinct(ks) && |vs| == |ks| && slot < |ks| && ks[slot].Some?
    ensures Assoc(ks, vs[slot := v]) == Assoc(ks, vs)[ks[slot].value := v]
  {
    var vs', key := vs[slot := v], ks[slot].value;
    var m, m' := Assoc(ks, vs), Assoc(ks, vs');
    AssocHas(ks, vs', slot);
    forall k | k in m ensures k in m' && (k != key ==> m'[k] == m[k]) {
      var i := AssocFrom(ks, vs, k);
      AssocHas(ks, vs', i);
    }
    forall k | k in m' ensures k in m || k == key {
      var i := AssocFrom(ks, vs', k);
      AssocHas(ks, vs, i);
    }
  }
}
