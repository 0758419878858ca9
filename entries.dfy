/** A JavaScript object's own enumerable properties as an entry list, in the order
    `Object.entries` yields them, and what `obj[key] = value` does to that list. */
module Entries {

  /** The set of keys of an entry list. */
  function KeySet<V>(ps: seq<(string, V)>): set<string> {
    set i | 0 <= i < |ps| :: ps[i].0
  }

  /** No key occurs twice, as holds of every object's own properties. */
  predicate UniqueKeys<V>(ps: seq<(string, V)>) {
    forall i, j | 0 <= i < j < |ps| :: ps[i].0 != ps[j].0
  }

  lemma KeySetSnoc<V>(ps: seq<(string, V)>, p: (string, V))
    ensures KeySet(ps + [p]) == KeySet(ps) + {p.0}
  {
    var qs := ps + [p];
    assert qs[|ps|] == p;
    forall k | k in KeySet(ps) ensures k in KeySet(qs) {
      var i :| 0 <= i < |ps| && ps[i].0 == k;
      assert qs[i] == ps[i];
    }
  }

  lemma KeySetCons<V>(p: (string, V), ps: seq<(string, V)>)
    ensures KeySet([p] + ps) == {p.0} + KeySet(ps)
  {
    var qs := [p] + ps;
    assert qs[0] == p;
    forall k | k in KeySet(ps) ensures k in KeySet(qs) {
      var i :| 0 <= i < |ps| && ps[i].0 == k;
      assert qs[i + 1] == ps[i];
    }
  }

  /** The position of the own property named `k`, or -1 when there is none. */
  function IndexOf<V>(ps: seq<(string, V)>, k: string): (r: int)
    ensures -1 <= r < |ps|
    ensures r < 0 <==> k !in KeySet(ps)
    ensures r >= 0 ==> ps[r].0 == k && forall j | 0 <= j < r :: ps[j].0 != k
  {
    if ps == [] then
      -1
    else if ps[0].0 == k then
      0
    else
      var r := IndexOf(ps[1..], k);
      KeySetCons(ps[0], ps[1..]);
      assert ps == [ps[0]] + ps[1..];
      if r < 0 then -1 else r + 1
  }

  /** `obj[key] = value` on an ordinary object: an existing property keeps its place
      and takes the new value; a new key is added after all the others. */
  function Put<V>(ps: seq<(string, V)>, k: string, v: V): (r: seq<(string, V)>)
    ensures k !in KeySet(ps) ==> r == ps + [(k, v)]
    ensures k in KeySet(ps) ==> |r| == |ps|
    ensures KeySet(r) == KeySet(ps) + {k}
    ensures UniqueKeys(ps) ==> UniqueKeys(r)
    ensures forall i | 0 <= i < |r| :: r[i] in ps || r[i] == (k, v)
  {
    var i := IndexOf(ps, k);
    if i < 0 then
      KeySetSnoc(ps, (k, v));
      ps + [(k, v)]
    else
      var r := ps[i := (k, v)];
      assert KeySet(r) == KeySet(ps) by {
        forall j | 0 <= j < |ps| ensures r[j].0 == ps[j].0 { }
        assert forall x :: x in KeySet(r) <==> exists j :: 0 <= j < |ps| && ps[j].0 == x;
      }
      r
  }

  /** With distinct keys, assigning to the key at position `i` overwrites that entry only. */
  lemma PutExisting<V>(ps: seq<(string, V)>, i: nat, v: V)
    requires UniqueKeys(ps) && i < |ps|
    ensures Put(ps, ps[i].0, v) == ps[i := (ps[i].0, v)]
  {
    assert forall j | 0 <= j < i :: ps[j].0 != ps[i].0;
  }

  /** A fresh object `{}` filled by assigning the entries one after another. */
  function FromEntries<V>(ps: seq<(string, V)>): (r: seq<(string, V)>)
    ensures UniqueKeys(r)
    ensures KeySet(r) == KeySet(ps)
    ensures forall i | 0 <= i < |r| :: r[i] in ps
    ensures UniqueKeys(ps) ==> r == ps
  {
    if ps == [] then
      []
    else
      var init, last := ps[..|ps| - 1], ps[|ps| - 1];
      assert ps == init + [last];
      KeySetSnoc(init, last);
      var r := Put(FromEntries(init), last.0, last.1);
      assert UniqueKeys(ps) ==> last.0 !in KeySet(init);
      r
  }

  /** Filling a fresh object with one more entry of a list is one more assignment. */
  lemma FromEntriesStep<V>(ps: seq<(string, V)>, i: nat)
    requires i < |ps|
    ensures FromEntries(ps[..i + 1]) == Put(FromEntries(ps[..i]), ps[i].0, ps[i].1)
  {
    assert ps[..i + 1][..i] == ps[..i];
  }
}
