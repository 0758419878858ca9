/** The field named `__proto__`. `formatDocument` (and the object case of `formatValue`)
    stores each field with `obj[key] = value` on a plain object. For that one key the
    assignment reaches the `__proto__` accessor inherited from `Object.prototype`: the
    encoded value (always an object) becomes the prototype of `Item`, no own property is
    created, and `Object.entries` and `JSON.stringify` never see the field. */
module ProtoKey {
  import opened JsValues
  import opened Entries
  import opened Encoder
  import opened Records

  /** `obj[key] = value` as written, for an object value on a plain object: the key
      `__proto__` reaches the inherited accessor and adds no own property. */
  function AssignAsWritten<V>(ps: seq<(string, V)>, k: string, v: V): (r: seq<(string, V)>)
    ensures k == "__proto__" ==> r == ps
    ensures k != "__proto__" ==> r == Put(ps, k, v)
  {
    if k == "__proto__" then ps else Put(ps, k, v)
  }

  /** A fresh object filled by assigning the entries one by one as written: an entry
      named `__proto__` never becomes an own property. */
  function FromEntriesAsWritten<V>(ps: seq<(string, V)>): (r: seq<(string, V)>)
    ensures UniqueKeys(r)
    ensures KeySet(r) == KeySet(ps) - {"__proto__"}
  {
    if ps == [] then
      []
    else
      var init, last := ps[..|ps| - 1], ps[|ps| - 1];
      assert ps == init + [last];
      KeySetSnoc(init, last);
      AssignAsWritten(FromEntriesAsWritten(init), last.0, last.1)
  }

  /** `formatValue` as written: the object case loses a field named `__proto__` at every
      depth; every other kind is encoded as `Encode` does. */
  function EncodeAsWritten(v: Source, h: Host): (e: Encoded)
    ensures e.M? <==> v.Obj?
    ensures e.L? <==> v.Arr?
    ensures v.Obj? ==> KeySet(e.fields) == KeySet(v.fields) - {"__proto__"}
    ensures v.Arr? ==> |e.items| == |v.elems|
    ensures !v.Obj? && !v.Arr? ==> e == Encode(v, h)
    decreases v
  {
    match v
    case Arr(xs) => L(seq(|xs|, i requires 0 <= i < |xs| => EncodeAsWritten(xs[i], h)))
    case Obj(fs) =>
      var pairs := seq(|fs|, i requires 0 <= i < |fs| => (fs[i].0, EncodeAsWritten(fs[i].1, h)));
      assert KeySet(pairs) == KeySet(fs) by {
        forall i | 0 <= i < |fs| ensures pairs[i].0 == fs[i].0 { }
      }
      M(FromEntriesAsWritten(pairs))
    case _ => Encode(v, h)
  }

  /** The input that shows it one level down: an object whose only field is named
      `__proto__` encodes to an empty map as written, and keeps the field under `Encode`. */
  lemma NestedProtoFieldDropped(h: Host)
    ensures EncodeAsWritten(Obj([("__proto__", Str("x"))]), h) == M([])
    ensures Encode(Obj([("__proto__", Str("x"))]), h) == M([("__proto__", S("x"))])
  {
    var fs := [("__proto__", Str("x"))];
    var pairs := seq(|fs|, i requires 0 <= i < |fs| => (fs[i].0, Encode(fs[i].1, h)));
    assert pairs == [("__proto__", S("x"))];
    assert pairs[..0] == [];
    var written := seq(|fs|, i requires 0 <= i < |fs| => (fs[i].0, EncodeAsWritten(fs[i].1, h)));
    assert written == pairs;
    assert written[..0] == [];
    assert FromEntriesAsWritten(written) == [];
    assert EncodeAsWritten(Obj(fs), h) == M(FromEntriesAsWritten(written));
  }

  /** `Item` as the loop of `formatDocument` leaves it when every assignment is made as
      written: both `_id` and `__proto__` are missing. */
  function FormatItemAsWritten(doc: seq<(string, Source)>, h: Host): (item: seq<(string, Encoded)>)
    ensures UniqueKeys(item)
    ensures KeySet(item) == KeySet(doc) - {"_id", "__proto__"}
  {
    if doc == [] then
      []
    else
      var init, last := doc[..|doc| - 1], doc[|doc| - 1];
      var rest := FormatItemAsWritten(init, h);
      assert doc == init + [last];
      KeySetSnoc(init, last);
      if last.0 == "_id" then rest else AssignAsWritten(rest, last.0, EncodeAsWritten(last.1, h))
  }

  /** The input that shows it: a document whose only field is named `__proto__` comes out
      with an empty `Item`, where storing the field as an own property keeps it. */
  lemma ProtoFieldDropped(h: Host)
    ensures FormatItemAsWritten([("__proto__", Str("x"))], h) == []
    ensures FormatItem([("__proto__", Str("x"))], h) == [("__proto__", S("x"))]
  {
    var doc := [("__proto__", Str("x"))];
    assert doc[..0] == [];
  }
}
