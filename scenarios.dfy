/** Whole documents through the exporter's per-document step, and worked cases of the
    encoder and the repair pass. */
module Scenarios {
  import opened JsValues
  import opened Entries
  import opened Encoder
  import opened Records
  import opened Repair

  /** The per-document step of the export loop: `formatDocument`, then
      `validateDocument` on its result. Under a sound host the repair pass finds nothing
      to do, so the object written out is the formatted one. */
  method FormatAndValidate(doc: seq<(string, Source)>, h: Host) returns (validated: Document)
    requires Sound(h)
    ensures fresh(validated) && validated.Valid()
    ensures validated.item == FormatItem(doc, h)
    ensures "_id" !in KeySet(validated.item)
  {
    var formatted := FormatDocument(doc, h);
    validated := ValidateDocument(formatted, h);
    RepairOfFormattedIsNoOp(doc, h);
  }

  /** The number 30 as a binary64 value. */
  const Thirty: Double := 0x403E_0000_0000_0000

  /** A document with an `_id`, a string, a number, a boolean, an array and a null. */
  const ExampleDoc: seq<(string, Source)> :=
    [("_id", Str("x1")), ("name", Str("Ann")), ("age", Num(Thirty)), ("active", Bool(true)),
     ("tags", Arr([Str("a"), Str("b")])), ("meta", Null)]

  /** `Item` for that document. */
  lemma ExampleDocument(h: Host)
    requires Sound(h) && h.numText(Thirty) == "30"
    ensures FormatItem(ExampleDoc, h)
         == [("name", S("Ann")), ("age", N("30")), ("active", BOOL(true)),
             ("tags", L([S("a"), S("b")])), ("meta", NULL)]
  {
    var fields := ExampleDoc[1..];
    assert UniqueKeys(ExampleDoc) by {
      assert forall i | 0 <= i < |fields| :: fields[i].0 != "_id";
    }
    assert WithoutId(ExampleDoc) == fields;
    FormatItemIsEncodedFields(ExampleDoc, h);
    ExampleFields(h);
  }

  /** The fields of that document other than `_id`, each encoded. */
  lemma ExampleFields(h: Host)
    requires Sound(h) && h.numText(Thirty) == "30"
    ensures EncodeFields([("name", Str("Ann")), ("age", Num(Thirty)), ("active", Bool(true)),
                          ("tags", Arr([Str("a"), Str("b")])), ("meta", Null)], h)
         == [("name", S("Ann")), ("age", N("30")), ("active", BOOL(true)),
             ("tags", L([S("a"), S("b")])), ("meta", NULL)]
  {
    assert IsFinite(Thirty);
    var xs := [Str("a"), Str("b")];
    assert Encode(Arr(xs), h) == L([S("a"), S("b")]);
  }

  /** A field holding NaN is written as the string "NaN", never as a numeric tag. */
  lemma ExampleNaNField(h: Host)
    requires Sound(h)
    ensures FormatItem([("score", Num(QuietNaN))], h) == [("score", S("NaN"))]
  {
    var doc := [("score", Num(QuietNaN))];
    FormatItemIsEncodedFields(doc, h);
    assert WithoutId(doc) == doc;
    assert IsNaN(QuietNaN) && !IsFinite(QuietNaN);
  }

  /** The repair reaches the fields of `Item` only: a numeric tag holding "Infinity" at
      the top is rewritten, the same tag inside a list is left as it is. */
  lemma ExampleShallowRepair(h: Host)
    requires Sound(h)
    ensures Repaired([("x", N("Infinity"))], h) == [("x", S("Infinity"))]
    ensures Repaired([("xs", L([N("Infinity")]))], h) == [("xs", L([N("Infinity")]))]
    ensures !NumeralsFinite(L([N("Infinity")]), h)
  {
    assert !IsFinite(PositiveInfinity);
    assert L([N("Infinity")]).items[0] == N("Infinity");
  }
}
