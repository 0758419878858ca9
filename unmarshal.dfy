/** Reading a tagged value back into a value, the way a consumer of the export would:
    the inverse the encoding is checked against. */
module Unmarshal {
  import opened JsValues
  import opened Entries
  import opened Encoder

  /** `N` is read with `parseFloat`; every other tag gives back its payload. */
  function Decode(e: Encoded, h: Host): (v: Source)
    ensures e.L? ==> v.Arr? && |v.elems| == |e.items|
    ensures e.M? ==> v.Obj? && |v.fields| == |e.fields|
    decreases e
  {
    match e
    case N(t) => Num(h.parseFloat(t))
    case S(t) => Str(t)
    case BOOL(b) => Bool(b)
    case NULL => Null
    case L(xs) => Arr(seq(|xs|, i requires 0 <= i < |xs| => Decode(xs[i], h)))
    case M(fs) => Obj(seq(|fs|, i requires 0 <= i < |fs| => (fs[i].0, Decode(fs[i].1, h))))
  }

  /** Values that have a tag of their own: strings, booleans, null, finite numbers other
      than -0, and arrays and objects (with distinct keys) built from them. Dates,
      non-finite numbers and fallback values are encoded as strings. */
  ghost predicate JsonNative(v: Source)
    decreases v
  {
    match v
    case Num(d) => IsFinite(d) && d != NegativeZero
    case Str(_) => true
    case Bool(_) => true
    case Null => true
    case Date(_) => false
    case Opaque(_) => false
    case Arr(xs) => forall i | 0 <= i < |xs| :: JsonNative(xs[i])
    case Obj(fs) => UniqueKeys(fs) && forall i | 0 <= i < |fs| :: JsonNative(fs[i].1)
  }

  /** Decoding the encoding of a value that has a tag of its own gives the value back:
      the tag, every payload, array length and order, and object keys and order. */
  lemma {:induction false} DecodeEncode(v: Source, h: Host)
    requires Sound(h) && JsonNative(v)
    ensures Decode(Encode(v, h), h) == v
    decreases v
  {
    match v
    case Num(d) =>
    case Str(_) =>
    case Bool(_) =>
    case Null =>
    case Arr(xs) =>
      var d := Decode(Encode(v, h), h);
      forall i | 0 <= i < |xs| ensures d.elems[i] == xs[i] {
        DecodeEncode(xs[i], h);
      }
    case Obj(fs) =>
      EncodeObject(fs, h);
      var d := Decode(Encode(v, h), h);
      forall i | 0 <= i < |fs| ensures d.fields[i] == fs[i] {
        assert fs[i] in fs;
        DecodeEncode(fs[i].1, h);
      }
  }

  /** What reading back loses: -0 comes back as 0, a non-finite number as the string
      of its text, a date as the string of its ISO text. */
  lemma DecodeEncodeLosses(h: Host, t: int)
    requires Sound(h)
    ensures Decode(Encode(Num(NegativeZero), h), h) == Num(0)
    ensures Decode(Encode(Num(QuietNaN), h), h) == Str("NaN")
    ensures Decode(Encode(Num(NegativeInfinity), h), h) == Str("-Infinity")
    ensures Decode(Encode(Date(t), h), h) == Str(h.isoText(t))
  {
    assert IsFinite(NegativeZero) && IsNaN(QuietNaN);
  }
}
