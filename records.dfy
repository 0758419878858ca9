/** `formatDocument`: one document becomes `{"Item": {field: encoded value}}`, without
    its `_id` field. */
module Records {
  import opened JsValues
  import opened Entries
  import opened Encoder

  /** The object `{"Item": {...}}` handed from `formatDocument` to `validateDocument`;
      `item` is the own entries of its `Item` object. */
  class Document {
    var item: seq<(string, Encoded)>

    /** `Item` is an object, so its keys are distinct. */
    ghost predicate Valid()
      reads this
    {
      UniqueKeys(item)
    }

    constructor (item: seq<(string, Encoded)>)
      ensures this.item == item
    {
      this.item := item;
    }
  }

  /** The contents of `Item` after the loop of `formatDocument` has seen the fields
      `doc`: `_id` is passed over, every other field is assigned its encoding. */
  function FormatItem(doc: seq<(string, Source)>, h: Host): (item: seq<(string, Encoded)>)
    ensures UniqueKeys(item)
    ensures KeySet(item) == KeySet(doc) - {"_id"}
  {
    if doc == [] then
      []
    else
      var init, last := doc[..|doc| - 1], doc[|doc| - 1];
      var rest := FormatItem(init, h);
      assert doc == init + [last];
      KeySetSnoc(init, last);
      if last.0 == "_id" then rest else Put(rest, last.0, Encode(last.1, h))
  }

  /** The fields of a document other than `_id`, in their order. */
  function WithoutId(doc: seq<(string, Source)>): (r: seq<(string, Source)>)
    ensures forall i | 0 <= i < |r| :: r[i] in doc && r[i].0 != "_id"
    ensures "_id" !in KeySet(doc) ==> r == doc
  {
    if doc == [] then
      []
    else
      var rest := WithoutId(doc[1..]);
      assert doc == [doc[0]] + doc[1..];
      KeySetCons(doc[0], doc[1..]);
      if doc[0].0 == "_id" then rest else [doc[0]] + rest
  }

  /** The filter seen from the end of the document, as the loop of `formatDocument` meets it. */
  lemma {:induction false} WithoutIdSnoc(doc: seq<(string, Source)>, p: (string, Source))
    ensures WithoutId(doc + [p]) == WithoutId(doc) + (if p.0 == "_id" then [] else [p])
  {
    if doc == [] {
      assert [] + [p] == [p];
      assert [p][1..] == [];
    } else {
      assert (doc + [p])[1..] == doc[1..] + [p];
      WithoutIdSnoc(doc[1..], p);
    }
  }

  /** `formatDocument` on a document (whose keys are distinct): `Item` is exactly the
      fields other than `_id`, in the document's order, each mapped to its encoding. */
  lemma {:induction false} FormatItemIsEncodedFields(doc: seq<(string, Source)>, h: Host)
    requires UniqueKeys(doc)
    ensures FormatItem(doc, h) == EncodeFields(WithoutId(doc), h)
  {
    if doc != [] {
      var init, last := doc[..|doc| - 1], doc[|doc| - 1];
      assert doc == init + [last];
      assert UniqueKeys(init);
      FormatItemIsEncodedFields(init, h);
      WithoutIdSnoc(init, last);
      if last.0 != "_id" {
        assert last.0 !in KeySet(init);
        EncodeFieldsSnoc(WithoutId(init), last, h);
      }
    }
  }

  /** `formatDocument`: loops over the document's entries, skips `_id` with `continue`,
      assigns every other field's encoding into `Item` and returns the fresh object. */
  method FormatDocument(doc: seq<(string, Source)>, h: Host) returns (formatted: Document)
    ensures fresh(formatted) && formatted.Valid()
    ensures formatted.item == FormatItem(doc, h)
  {
    var item: seq<(string, Encoded)> := [];
    for i := 0 to |doc|
      invariant item == FormatItem(doc[..i], h)
    {
      assert doc[..i + 1][..i] == doc[..i];
      var key, value := doc[i].0, doc[i].1;
      if key == "_id" {
        continue;
      }
      var x := FormatValue(value, h);
      item := Put(item, key, x);
    }
    assert doc[..|doc|] == doc;
    formatted := new Document(item);
  }
}
