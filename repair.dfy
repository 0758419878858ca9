/** `validateDocument`: a shallow pass over the fields of `Item` that turns a numeric tag
    whose text does not parse to a finite number into a string tag with the same text. */
module Repair {
  import opened JsValues
  import opened Entries
  import opened Encoder
  import opened Records

  /** `value.N && !Number.isFinite(parseFloat(value.N))`: the value is a numeric tag,
      its text is non-empty (so truthy) and does not parse to a finite number. */
  predicate NeedsRepair(e: Encoded, h: Host)
    ensures NeedsRepair(e, h) ==> e.N?
    ensures Sound(h) && e.N? && e.numeral in {"NaN", "Infinity", "-Infinity"} ==> NeedsRepair(e, h)
  {
    e.N? && e.numeral != "" && !ParsesFinite(h, e.numeral)
  }

  /** The entry as the pass leaves it. */
  function RepairValue(e: Encoded, h: Host): (r: Encoded)
    ensures !NeedsRepair(r, h)
  {
    if NeedsRepair(e, h) then S(e.numeral) else e
  }

  /** `Item` after the pass: every entry looked at once, keys untouched. */
  function Repaired(item: seq<(string, Encoded)>, h: Host): (r: seq<(string, Encoded)>)
    ensures |r| == |item|
    ensures forall i | 0 <= i < |item| :: r[i].0 == item[i].0 && !NeedsRepair(r[i].1, h)
  {
    seq(|item|, i requires 0 <= i < |item| => (item[i].0, RepairValue(item[i].1, h)))
  }

  /** What the pass changes: the keys and their order stay; an entry changes exactly when
      it is a numeric tag with a non-empty text that does not parse to a finite number,
      and then it becomes a string tag with the identical text. String, boolean, null,
      list and map tags, numeric tags that parse, and empty numeric tags are left alone,
      whatever a list or map holds inside. */
  lemma RepairedChanges(item: seq<(string, Encoded)>, h: Host)
    ensures |Repaired(item, h)| == |item|
    ensures KeySet(Repaired(item, h)) == KeySet(item)
    ensures UniqueKeys(item) ==> UniqueKeys(Repaired(item, h))
    ensures forall i | 0 <= i < |item| ::
              Repaired(item, h)[i].0 == item[i].0
              && (Repaired(item, h)[i] != item[i] <==> NeedsRepair(item[i].1, h))
              && (NeedsRepair(item[i].1, h) ==> Repaired(item, h)[i].1 == S(item[i].1.numeral))
    ensures forall i | 0 <= i < |item| && (item[i].1.L? || item[i].1.M?) :: Repaired(item, h)[i] == item[i]
  {
    var r := Repaired(item, h);
    assert KeySet(r) == KeySet(item) by {
      forall i | 0 <= i < |item| ensures r[i].0 == item[i].0 { }
    }
  }

  /** Running the pass a second time changes nothing. */
  lemma RepairIdempotent(item: seq<(string, Encoded)>, h: Host)
    ensures Repaired(Repaired(item, h), h) == Repaired(item, h)
  {
  }

  /** Under a sound host no field that `formatDocument` writes needs repair. */
  lemma {:induction false} FormattedNeedsNoRepair(doc: seq<(string, Source)>, h: Host)
    requires Sound(h)
    ensures forall i | 0 <= i < |FormatItem(doc, h)| :: !NeedsRepair(FormatItem(doc, h)[i].1, h)
  {
    if doc != [] {
      var init, last := doc[..|doc| - 1], doc[|doc| - 1];
      FormattedNeedsNoRepair(init, h);
      if last.0 != "_id" {
        EncodeNumeralsFinite(last.1, h);
      }
    }
  }

  /** Under a sound host the pass is a no-op on what `formatDocument` produces: every
      numeric tag there holds the non-empty text of a finite number. */
  lemma {:induction false} RepairOfFormattedIsNoOp(doc: seq<(string, Source)>, h: Host)
    requires Sound(h)
    ensures Repaired(FormatItem(doc, h), h) == FormatItem(doc, h)
  {
    FormattedNeedsNoRepair(doc, h);
  }

  /** `validateDocument`: walks a snapshot of the entries of `doc.Item`, rewrites in place
      each entry that needs repair, and returns the same object. */
  method ValidateDocument(doc: Document, h: Host) returns (validated: Document)
    requires doc.Valid()
    modifies doc
    ensures validated == doc && doc.Valid()
    ensures doc.item == Repaired(old(doc.item), h)
  {
    var entries := doc.item;
    for i := 0 to |entries|
      invariant |doc.item| == |entries|
      invariant forall j | 0 <= j < |entries| :: doc.item[j].0 == entries[j].0
      invariant forall j | 0 <= j < i :: doc.item[j].1 == RepairValue(entries[j].1, h)
      invariant forall j | i <= j < |entries| :: doc.item[j].1 == entries[j].1
    {
      var key, value := entries[i].0, entries[i].1;
      if value.N? && value.numeral != "" && !IsFinite(h.parseFloat(value.numeral)) {
        assert UniqueKeys(doc.item);
        PutExisting(doc.item, i, S(value.numeral));
        doc.item := Put(doc.item, key, S(value.numeral));
      }
    }
    assert doc.item == Repaired(entries, h);
    validated := doc;
  }
}
