/** `formatValue`: the tagged attribute-value encoding of one value, with the tags
    of Amazon DynamoDB's AttributeValue (`N`, `S`, `BOOL`, `NULL`, `L`, `M`). */
module Encoder {
  import opened JsValues
  import opened Entries

  /** One tagged value. Each constructor is an object with exactly one key, the tag;
      `NULL` always carries the payload `true`. */
  datatype Encoded =
    | N(numeral: string)
    | S(text: string)
    | BOOL(flag: bool)
    | NULL
    | L(items: seq<Encoded>)
    | M(fields: seq<(string, Encoded)>)

  /** The encoding, as one case per kind of value. The object case assigns the encoded
      fields one by one into a fresh object. */
  function Encode(v: Source, h: Host): (e: Encoded)
    ensures e.N? <==> v.Num? && IsFinite(v.d)
    ensures e.BOOL? <==> v.Bool?
    ensures e.NULL? <==> v.Null?
    ensures e.L? <==> v.Arr?
    ensures e.M? <==> v.Obj?
    ensures e.S? <==> v.Str? || v.Date? || v.Opaque? || (v.Num? && !IsFinite(v.d))
    decreases v
  {
    match v
    case Num(d) => if IsFinite(d) then N(h.numText(d)) else S(h.numText(d))
    case Str(s) => S(s)
    case Bool(b) => BOOL(b)
    case Date(t) => S(h.isoText(t))
    case Arr(xs) => L(seq(|xs|, i requires 0 <= i < |xs| => Encode(xs[i], h)))
    case Null => NULL
    case Obj(fs) => M(FromEntries(seq(|fs|, i requires 0 <= i < |fs| => (fs[i].0, Encode(fs[i].1, h)))))
    case Opaque(k) => S(h.jsonText(k))
  }

  /** The elements of an array, each encoded, length and order unchanged. */
  function EncodeElements(xs: seq<Source>, h: Host): (r: seq<Encoded>)
    ensures |r| == |xs|
    ensures forall i | 0 <= i < |xs| :: r[i] == Encode(xs[i], h)
  {
    seq(|xs|, i requires 0 <= i < |xs| => Encode(xs[i], h))
  }

  /** The fields of an object, each value encoded, keys and order unchanged. */
  function EncodeFields(fs: seq<(string, Source)>, h: Host): (r: seq<(string, Encoded)>)
    ensures |r| == |fs|
    ensures forall i | 0 <= i < |fs| :: r[i] == (fs[i].0, Encode(fs[i].1, h))
  {
    seq(|fs|, i requires 0 <= i < |fs| => (fs[i].0, Encode(fs[i].1, h)))
  }

  lemma EncodeFieldsSnoc(fs: seq<(string, Source)>, p: (string, Source), h: Host)
    ensures EncodeFields(fs + [p], h) == EncodeFields(fs, h) + [(p.0, Encode(p.1, h))]
  {
    assert (fs + [p])[|fs|] == p;
  }

  /** `formatValue`: the type tests run in the order of the source and the first one
      that holds decides the tag. */
  method FormatValue(v: Source, h: Host) returns (e: Encoded)
    ensures e == Encode(v, h)
    decreases v, 1
  {
    if TypeOf(v) == "number" {
      if IsFinite(v.d) {
        e := N(h.numText(v.d));
      } else {
        e := S(h.numText(v.d));
      }
    } else if TypeOf(v) == "string" {
      e := S(v.s);
    } else if TypeOf(v) == "boolean" {
      e := BOOL(v.b);
    } else if IsDateInstance(v) {
      e := S(h.isoText(v.time));
    } else if IsArray(v) {
      var items := FormatElements(v, h);
      e := L(items);
    } else if IsNull(v) {
      e := NULL;
    } else if TypeOf(v) == "object" {
      var obj := FormatFields(v, h);
      e := M(obj);
    } else {
      e := S(h.jsonText(v.kind));
    }
  }

  /** `value.map(formatValue)` on an array. */
  method FormatElements(v: Source, h: Host) returns (items: seq<Encoded>)
    requires v.Arr?
    ensures L(items) == Encode(v, h)
    decreases v, 0
  {
    ghost var expected := EncodeElements(v.elems, h);
    items := [];
    for i := 0 to |v.elems|
      invariant items == expected[..i]
    {
      var x := FormatValue(v.elems[i], h);
      assert expected[..i + 1] == expected[..i] + [x];
      items := items + [x];
    }
    assert expected[..|v.elems|] == expected;
    assert v == Arr(v.elems);
  }

  /** The `for...of` loop over `Object.entries(value)` that assigns each encoded field
      into the fresh object `formattedObj`. */
  method FormatFields(v: Source, h: Host) returns (obj: seq<(string, Encoded)>)
    requires v.Obj?
    ensures M(obj) == Encode(v, h)
    decreases v, 0
  {
    ghost var pairs := EncodeFields(v.fields, h);
    obj := [];
    for i := 0 to |v.fields|
      invariant obj == FromEntries(pairs[..i])
    {
      var key, inner := v.fields[i].0, v.fields[i].1;
      assert inner < v by { assert v.fields[i] in v.fields; }
      var x := FormatValue(inner, h);
      FromEntriesStep(pairs, i);
      obj := Put(obj, key, x);
    }
    assert pairs[..|v.fields|] == pairs;
    EncodeObject(v.fields, h);
  }

  /** An object encodes to `M` of its fields assigned one by one; when its keys are
      distinct (as an object's own keys are), that is every field encoded, with the
      same keys in the same order. */
  lemma EncodeObject(fs: seq<(string, Source)>, h: Host)
    ensures Encode(Obj(fs), h) == M(FromEntries(EncodeFields(fs, h)))
    ensures KeySet(Encode(Obj(fs), h).fields) == KeySet(fs)
    ensures UniqueKeys(fs) ==> Encode(Obj(fs), h) == M(EncodeFields(fs, h))
  {
    var pairs := EncodeFields(fs, h);
    assert KeySet(pairs) == KeySet(fs) by {
      forall i | 0 <= i < |fs| ensures pairs[i].0 == fs[i].0 { }
    }
    assert UniqueKeys(fs) ==> UniqueKeys(pairs);
  }

  /** Every `N` tag, at any depth, holds a non-empty text that `parseFloat` reads as a
      finite number. */
  ghost predicate NumeralsFinite(e: Encoded, h: Host)
    decreases e
  {
    match e
    case N(t) => t != "" && ParsesFinite(h, t)
    case L(xs) => forall i | 0 <= i < |xs| :: NumeralsFinite(xs[i], h)
    case M(fs) => forall i | 0 <= i < |fs| :: NumeralsFinite(fs[i].1, h)
    case _ => true
  }

  /** Under a sound host, no encoding holds a numeric tag that does not read back as a
      finite number: non-finite numbers went to `S`. */
  lemma {:induction false} EncodeNumeralsFinite(v: Source, h: Host)
    requires Sound(h)
    ensures NumeralsFinite(Encode(v, h), h)
    decreases v
  {
    match v
    case Num(d) =>
      if IsFinite(d) {
        FiniteTextParsesFinite(h, d);
      }
    case Arr(xs) =>
      forall i | 0 <= i < |xs| ensures NumeralsFinite(Encode(xs[i], h), h) {
        EncodeNumeralsFinite(xs[i], h);
      }
    case Obj(fs) =>
      EncodeObject(fs, h);
      var pairs := EncodeFields(fs, h);
      var r := FromEntries(pairs);
      forall i | 0 <= i < |r| ensures NumeralsFinite(r[i].1, h) {
        var j :| 0 <= j < |pairs| && r[i] == pairs[j];
        assert fs[j] in fs;
        EncodeNumeralsFinite(fs[j].1, h);
      }
    case _ =>
  }
}
