/** The unstructured typed object: a self-describing, type-discriminated
    attribute map that every spec family is decoded through, together with
    its canonical (marshalled) equality and its late evaluation against a
    scheme of decoders.

    JSON is abstract here: a `Codec` is a pair of functions supplied by the
    caller, and a `Scheme` is a lookup from type name to an optional decoder. */
module Runtime {
  import opened Wrappers

  newtype byte = x: int | 0 <= x < 256
  type Bytes = seq<byte>

  /** A decoded JSON value; numbers keep their literal text. */
  datatype Value =
    | Null
    | Bool(b: bool)
    | Number(literal: string)
    | Str(s: string)
    | List(items: seq<Value>)
    | Object(fields: map<string, Value>)

  /** An attribute map (Go's UnstructuredMap); a nil map is `None`. */
  type Fields = map<string, Value>

  datatype Error =
    | CodecError(reason: string)
    | DecoderError(reason: string)
    | TypeNotAString
    | MissingType
    | RawUnavailable(cause: Error)
    | DecodeFailed(objectType: string, cause: Error)
    | UnknownKind(kind: string, name: string)
    | EvaluationDepthExceeded

  /** A wire format: marshalling an attribute map, and parsing bytes into one. */
  datatype Codec = Codec(
    marshal: Option<Fields> -> Result<Bytes, Error>,
    unmarshal: Bytes -> Result<Fields, Error>)

  /** A codec whose parse inverts its marshalling on every map it can marshal. */
  ghost predicate Faithful(c: Codec) {
    forall f: Fields {:trigger c.marshal(Some(f))} ::
      c.marshal(Some(f)).Ok? ==> c.unmarshal(c.marshal(Some(f)).value) == Ok(f)
  }

  /** The generic typed object: its type, the bytes it was last read from
      (a cache that can go stale) and its attribute map. */
  datatype Unstructured = Unstructured(objectType: string, raw: Bytes, fields: Option<Fields>)

  /** A member of a typed-object family: either held unstructured, or a
      concrete object whose JSON view is `view`. */
  datatype TypedObject =
    | AsUnstructured(u: Unstructured)
    | Structured(objectType: string, view: Fields)
  {
    function GetType(): string {
      match this
      case AsUnstructured(u) => u.objectType
      case Structured(t, _) => t
    }
  }

  type Decoder = Bytes -> Result<TypedObject, Error>

  /** A scheme as seen by `Evaluate`: which decoder, if any, handles a type. */
  datatype Scheme = Scheme(decoderFor: string -> Option<Decoder>)

  /** The attributes of a possibly-nil map; nil reads as empty. */
  function Entries(m: Option<Fields>): Fields {
    if m.Some? then m.value else map[]
  }

  /** The `"type"` attribute mirrors the object's type. */
  predicate TypeMirrored(u: Unstructured) {
    u.fields.Some? && "type" in u.fields.value && u.fields.value["type"] == Str(u.objectType)
  }

  /** Joins the attributes of `o` into `m`; writing into a nil `m` panics,
      so a nil `m` is only allowed with nothing to write. */
  function FlatMerge(m: Option<Fields>, o: Option<Fields>): (r: Option<Fields>)
    requires m.Some? || Entries(o) == map[]
    ensures r.Some? <==> m.Some?
    ensures Entries(r).Keys == Entries(m).Keys + Entries(o).Keys
    ensures forall k :: k in Entries(o) ==> Entries(r)[k] == Entries(o)[k]
    ensures forall k :: k in Entries(m) && k !in Entries(o) ==> Entries(r)[k] == Entries(m)[k]
  {
    if m.None? then m else Some(m.value + Entries(o))
  }

  /** Sets the type and the `"type"` attribute, creating the map if nil. */
  function SetType(u: Unstructured, t: string): (r: Unstructured)
    ensures r.objectType == t && TypeMirrored(r)
    ensures r.raw == u.raw
    ensures u.fields.None? ==> r.fields == Some(map["type" := Str(t)])
    ensures Entries(r.fields).Keys == Entries(u.fields).Keys + {"type"}
    ensures forall k :: k in Entries(u.fields) && k != "type" ==> Entries(r.fields)[k] == Entries(u.fields)[k]
  {
    var fields := if u.fields.None? then map[] else u.fields.value;
    u.(objectType := t, fields := Some(fields["type" := Str(t)]))
  }

  /** A fresh object of type `t` over the attributes `data`. */
  function NewUnstructuredType(t: string, data: Option<Fields>): (r: Unstructured)
    ensures r.objectType == t && TypeMirrored(r)
    ensures r.raw == []
    ensures Entries(r.fields).Keys == Entries(data).Keys + {"type"}
    ensures forall k :: k in Entries(data) && k != "type" ==> Entries(r.fields)[k] == Entries(data)[k]
  {
    SetType(Unstructured("", [], data), t)
  }

  /** A fresh object of type `t` with no other attribute. */
  function NewEmptyUnstructured(t: string): (r: Unstructured)
    ensures r.objectType == t && r.raw == []
    ensures r.fields == Some(map["type" := Str(t)])
  {
    NewUnstructuredType(t, None)
  }

  /** The canonical bytes: the marshalled attribute map. The receiver is a
      copy, so refreshing its byte cache is invisible to the caller and the
      stale cache never shows through. */
  function GetRaw(c: Codec, u: Unstructured): (r: Result<Bytes, Error>)
    ensures r == c.marshal(u.fields)
  {
    match c.marshal(u.fields)
    case Err(e) => Err(e)
    case Ok(data) =>
      var refreshed := if data != u.raw then u.(raw := data) else u;
      Ok(refreshed.raw)
  }

  /** Serialises the object: its attribute map alone. */
  function MarshalJSON(c: Codec, u: Unstructured): (r: Result<Bytes, Error>)
    ensures r == GetRaw(c, u)
    ensures forall raw: Bytes :: r == GetRaw(c, u.(raw := raw))
  {
    c.marshal(u.fields)
  }

  /** Replaces attributes and byte cache by the parse of `data`. */
  function SetRaw(c: Codec, u: Unstructured, data: Bytes): (r: Result<Unstructured, Error>)
    ensures r.Ok? <==> c.unmarshal(data).Ok?
    ensures r.Ok? ==> r.value.raw == data && r.value.fields == Some(c.unmarshal(data).value)
    ensures r.Ok? ==> r.value.objectType == u.objectType
    ensures r.Err? ==> r.error == c.unmarshal(data).error
  {
    var obj :- c.unmarshal(data);
    Ok(u.(raw := data, fields := Some(obj)))
  }

  /** The type header of a parsed payload: an absent or null `"type"` reads
      as "", any other non-string value is a decoding error. */
  function TypeAttribute(f: Fields): (r: Result<string, Error>)
    ensures r.Ok? <==> "type" !in f || f["type"].Str? || f["type"].Null?
    ensures r.Err? ==> r.error == TypeNotAString
    ensures "type" in f && f["type"].Str? ==> r == Ok(f["type"].s)
    ensures "type" !in f || f["type"].Null? ==> r == Ok("")
  {
    if "type" !in f then Ok("")
    else match f["type"]
      case Str(s) => Ok(s)
      case Null => Ok("")
      case _ => Err(TypeNotAString)
  }

  /** Reads an object from `data`: the type header first, then the attribute
      map; the exact input bytes become the byte cache. */
  function UnmarshalJSON(c: Codec, data: Bytes): (r: Result<Unstructured, Error>)
    ensures r.Ok? <==> c.unmarshal(data).Ok? && TypeAttribute(c.unmarshal(data).value).Ok?
    ensures r.Ok? ==> r.value.raw == data
    ensures r.Ok? ==> r.value.fields == Some(c.unmarshal(data).value)
    ensures r.Ok? ==> TypeAttribute(r.value.fields.value) == Ok(r.value.objectType)
    ensures r.Ok? && "type" in r.value.fields.value && r.value.fields.value["type"].Str? ==> TypeMirrored(r.value)
  {
    var header :- c.unmarshal(data);
    var t :- TypeAttribute(header);
    SetRaw(c, Unstructured(t, [], None), data)
  }

  /** Reading back the canonical bytes of an object whose type is mirrored
      reproduces the object, with its cache refreshed. */
  lemma UnmarshalRoundTrip(c: Codec, u: Unstructured)
    requires Faithful(c)
    requires TypeMirrored(u)
    requires GetRaw(c, u).Ok?
    ensures UnmarshalJSON(c, GetRaw(c, u).value) == Ok(u.(raw := GetRaw(c, u).value))
  {
    var data := GetRaw(c, u).value;
    assert c.marshal(Some(u.fields.value)).Ok?;
    assert c.unmarshal(data) == Ok(u.fields.value);
  }

  function DecoderFor(types: Option<Scheme>, t: string): Option<Decoder> {
    if types.None? then None else types.value.decoderFor(t)
  }

  /** Resolves the object against `types`: the object itself when no decoder
      handles its type, else the decoder's result on the canonical bytes. */
  function Evaluate(c: Codec, u: Unstructured, types: Option<Scheme>): (r: Result<TypedObject, Error>)
    ensures GetRaw(c, u).Err? ==> r == Err(RawUnavailable(GetRaw(c, u).error))
    ensures GetRaw(c, u).Ok? && DecoderFor(types, u.objectType).None? ==> r == Ok(AsUnstructured(u))
    ensures GetRaw(c, u).Ok? && DecoderFor(types, u.objectType).Some? ==>
      var out := DecoderFor(types, u.objectType).value(GetRaw(c, u).value);
      && (out.Ok? ==> r == Ok(out.value))
      && (out.Err? ==> r == Err(DecodeFailed(u.objectType, out.error)))
  {
    match GetRaw(c, u)
    case Err(e) => Err(RawUnavailable(e))
    case Ok(data) =>
      match DecoderFor(types, u.objectType)
      case None => Ok(AsUnstructured(u))
      case Some(decode) =>
        match decode(data)
        case Err(e) => Err(DecodeFailed(u.objectType, e))
        case Ok(obj) => Ok(obj)
  }

  /** `types` with `d` registered for the type `t`. */
  function WithDecoder(types: Option<Scheme>, t: string, d: Decoder): (s: Scheme)
    ensures s.decoderFor(t) == Some(d)
    ensures forall t' :: t' != t ==> s.decoderFor(t') == DecoderFor(types, t')
  {
    Scheme(t' => if t' == t then Some(d) else DecoderFor(types, t'))
  }

  /** The decoder that reads bytes back as an unstructured object. */
  function UnstructuredDecoder(c: Codec): Decoder {
    data => match UnmarshalJSON(c, data)
      case Ok(u) => Ok(AsUnstructured(u))
      case Err(e) => Err(e)
  }

  /** Evaluating through a decoder that reads the canonical bytes back as an
      unstructured object gives back the object with its cache refreshed,
      canonically equal to it; evaluating that result again is a fixed point. */
  lemma EvaluateThroughUnstructured(c: Codec, u: Unstructured, types: Option<Scheme>)
    requires Faithful(c) && TypeMirrored(u) && GetRaw(c, u).Ok?
    ensures var s := Some(WithDecoder(types, u.objectType, UnstructuredDecoder(c)));
      var refreshed := u.(raw := GetRaw(c, u).value);
      && Evaluate(c, u, s) == Ok(AsUnstructured(refreshed))
      && Evaluate(c, refreshed, s) == Ok(AsUnstructured(refreshed))
      && TypedObjectEqual(c, AsUnstructured(refreshed), AsUnstructured(u))
  {
    UnmarshalRoundTrip(c, u);
    UnmarshalRoundTrip(c, u.(raw := GetRaw(c, u).value));
  }

  /** The unstructured form of a possibly-nil typed object: nil stays nil,
      an unstructured object is returned as it is, anything else is
      marshalled and read back. */
  function ToUnstructuredTypedObject(c: Codec, obj: Option<TypedObject>): (r: Result<Option<Unstructured>, Error>)
    ensures obj.None? ==> r == Ok(None)
    ensures obj.Some? && obj.value.AsUnstructured? ==> r == Ok(Some(obj.value.u))
    ensures obj.Some? && obj.value.Structured? ==>
      (r.Ok? <==> c.marshal(Some(obj.value.view)).Ok? && UnmarshalJSON(c, c.marshal(Some(obj.value.view)).value).Ok?)
    ensures r.Ok? && obj.Some? && obj.value.Structured? ==>
      var data := c.marshal(Some(obj.value.view)).value;
      && r.value.Some? && r.value.value.raw == data
      && r.value.value.fields == Some(c.unmarshal(data).value)
      && TypeAttribute(r.value.value.fields.value) == Ok(r.value.value.objectType)
  {
    match obj
    case None => Ok(None)
    case Some(AsUnstructured(u)) => Ok(Some(u))
    case Some(Structured(_, view)) =>
      var data :- c.marshal(Some(view));
      var u :- UnmarshalJSON(c, data);
      Ok(Some(u))
  }

  /** A concrete object's JSON view carries its type in `"type"`, as the
      inlined type field of every concrete object does. */
  predicate CarriesType(o: TypedObject) {
    o.Structured? ==> "type" in o.view && o.view["type"] == Str(o.objectType)
  }

  /** The bytes an object serialises to: its attribute map, or its view. */
  function CanonicalBytes(c: Codec, o: TypedObject): Result<Bytes, Error> {
    match o
    case AsUnstructured(u) => c.marshal(u.fields)
    case Structured(_, view) => c.marshal(Some(view))
  }

  /** Under a codec that reads back what it writes, a concrete object that
      carries its type converts to an unstructured object of the same type
      and attributes, caching its canonical bytes; converting that object
      again returns it unchanged. */
  lemma StructuredToUnstructured(c: Codec, t: string, view: Fields)
    requires Faithful(c)
    requires "type" in view && view["type"] == Str(t)
    requires c.marshal(Some(view)).Ok?
    ensures var u := Unstructured(t, c.marshal(Some(view)).value, Some(view));
      && ToUnstructuredTypedObject(c, Some(Structured(t, view))) == Ok(Some(u))
      && ToUnstructuredTypedObject(c, Some(AsUnstructured(u))) == Ok(Some(u))
      && TypeMirrored(u)
  {
    assert c.unmarshal(c.marshal(Some(view)).value) == Ok(view);
  }

  /** Canonical equality of possibly-nil unstructured objects. */
  function UnstructuredTypesEqual(c: Codec, a: Option<Unstructured>, b: Option<Unstructured>): (r: bool)
    ensures a.None? && b.None? ==> r
    ensures a.None? != b.None? ==> !r
    ensures a.Some? && b.Some? && a.value.objectType != b.value.objectType ==> !r
    ensures a.Some? && c.marshal(a.value.fields).Err? ==> !r
    ensures b.Some? && c.marshal(b.value.fields).Err? ==> !r
    ensures (a.Some? && b.Some? && a.value.objectType == b.value.objectType
             && c.marshal(a.value.fields).Ok? && c.marshal(b.value.fields).Ok?) ==>
        (r <==> c.marshal(a.value.fields).value == c.marshal(b.value.fields).value)
  {
    if a.None? && b.None? then true
    else if a.None? || b.None? then false
    else if a.value.objectType != b.value.objectType then false
    else
      match (GetRaw(c, a.value), GetRaw(c, b.value))
      case (Ok(rawA), Ok(rawB)) => rawA == rawB
      case _ => false
  }

  /** Canonical equality of typed objects through their unstructured form. */
  function TypedObjectEqual(c: Codec, a: TypedObject, b: TypedObject): (r: bool)
    ensures a.GetType() != b.GetType() ==> !r
    ensures ToUnstructuredTypedObject(c, Some(a)).Err? ==> !r
    ensures ToUnstructuredTypedObject(c, Some(b)).Err? ==> !r
    ensures a.AsUnstructured? && b.AsUnstructured? ==>
      (r <==> UnstructuredTypesEqual(c, Some(a.u), Some(b.u)))
  {
    if a.GetType() != b.GetType() then false
    else
      match (ToUnstructuredTypedObject(c, Some(a)), ToUnstructuredTypedObject(c, Some(b)))
      case (Ok(uA), Ok(uB)) => UnstructuredTypesEqual(c, uA, uB)
      case _ => false
  }

  /** Typed objects are equal exactly when their types agree and both
      serialise, to the same bytes: for concrete objects, for unstructured
      ones, and for one of each. */
  lemma TypedObjectEqualByBytes(c: Codec, a: TypedObject, b: TypedObject)
    requires Faithful(c) && CarriesType(a) && CarriesType(b)
    ensures TypedObjectEqual(c, a, b) <==>
      && a.GetType() == b.GetType()
      && CanonicalBytes(c, a).Ok? && CanonicalBytes(c, b).Ok?
      && CanonicalBytes(c, a).value == CanonicalBytes(c, b).value
  {
    if a.Structured? && c.marshal(Some(a.view)).Ok? {
      StructuredToUnstructured(c, a.objectType, a.view);
    }
    if b.Structured? && c.marshal(Some(b.view)).Ok? {
      StructuredToUnstructured(c, b.objectType, b.view);
    }
  }

  /** Canonical equality is an equivalence on objects that can be marshalled. */
  lemma UnstructuredEqualityIsEquivalence(c: Codec, a: Option<Unstructured>, b: Option<Unstructured>, d: Option<Unstructured>)
    ensures (a.None? || c.marshal(a.value.fields).Ok?) <==> UnstructuredTypesEqual(c, a, a)
    ensures UnstructuredTypesEqual(c, a, b) ==> UnstructuredTypesEqual(c, b, a)
    ensures UnstructuredTypesEqual(c, a, b) && UnstructuredTypesEqual(c, b, d) ==> UnstructuredTypesEqual(c, a, d)
  {
  }

  /** Canonical equality ignores the byte cache: an object equals itself
      with any other cache, as long as it can be marshalled. */
  lemma EqualityIgnoresCache(c: Codec, u: Unstructured, raw: Bytes)
    ensures UnstructuredTypesEqual(c, Some(u), Some(u.(raw := raw))) <==> c.marshal(u.fields).Ok?
  {
  }

  /** DeepCopy as written: copies the object, then re-reads the attribute
      map from a copy of the byte cache and keeps the plain copy only when
      that cache does not parse. */
  function DeepCopy(c: Codec, u: Option<Unstructured>): (r: Option<Unstructured>)
    ensures r.None? <==> u.None?
    ensures r.Some? ==> r.value.objectType == u.value.objectType && r.value.raw == u.value.raw
    ensures r.Some? && c.unmarshal(u.value.raw).Ok? ==> r.value.fields == Some(c.unmarshal(u.value.raw).value)
    ensures r.Some? && c.unmarshal(u.value.raw).Err? ==> r == u
  {
    match u
    case None => None
    case Some(v) =>
      var raw := v.raw;
      match SetRaw(c, v, raw)
      case Ok(w) => Some(w)
      case Err(_) => Some(v)
  }

  /** The copy made by DeepCopy can differ from its receiver: reading
      `{"type":"a"}` and then setting the type to "b" leaves a stale cache,
      from which DeepCopy restores the old `"type"` attribute. */
  lemma DeepCopyRevertsSetType(c: Codec, data: Bytes)
    requires c.unmarshal(data) == Ok(map["type" := Str("a")])
    ensures UnmarshalJSON(c, data).Ok?
    ensures var u := SetType(UnmarshalJSON(c, data).value, "b");
      && TypeMirrored(u)
      && DeepCopy(c, Some(u)) != Some(u)
      && !TypeMirrored(DeepCopy(c, Some(u)).value)
  {
    var u := SetType(UnmarshalJSON(c, data).value, "b");
    assert DeepCopy(c, Some(u)).value.fields.value["type"] == Str("a");
  }

  /** DeepCopy as evidently intended: an independent copy of the type, the
      byte cache and the attribute map, equal to the receiver. */
  function DeepCopyCorrected(u: Option<Unstructured>): (r: Option<Unstructured>)
    ensures r == u
  {
    match u
    case None => None
    case Some(v) =>
      var fields := if v.fields.None? then None else Some(CopyFields(v.fields.value));
      Some(Unstructured(v.objectType, v.raw[..], fields))
  }

  /** An attribute map rebuilt key by key. */
  function CopyFields(f: Fields): (r: Fields)
    ensures r == f
  {
    var r := map k | k in f :: f[k];
    assert r.Keys == f.Keys;
    r
  }

  /** The corrected copy keeps the type mirrored and is canonically equal to
      its receiver whenever the receiver can be marshalled. */
  lemma DeepCopyCorrectedIsEqual(c: Codec, u: Unstructured)
    ensures TypeMirrored(u) ==> TypeMirrored(DeepCopyCorrected(Some(u)).value)
    ensures c.marshal(u.fields).Ok? ==> UnstructuredTypesEqual(c, Some(u), DeepCopyCorrected(Some(u)))
  {
  }

  /** An object built in memory has an empty byte cache, which no JSON
      codec parses, so DeepCopy takes its plain-copy path for it. */
  lemma DeepCopyOfBuiltObject(c: Codec, t: string, data: Option<Fields>)
    requires c.unmarshal([]).Err?
    ensures DeepCopy(c, Some(NewUnstructuredType(t, data))) == Some(NewUnstructuredType(t, data))
  {
  }

  /** Attribute maps held by reference, as Go holds them: a store of maps
      and the next free address. */
  datatype Store = Store(maps: map<nat, Fields>, next: nat)
  {
    predicate Valid() {
      forall a :: a in maps ==> a < next
    }
  }

  /** An object whose attribute map lives in a store (nil is `None`). */
  datatype SharedObject = SharedObject(objectType: string, raw: Bytes, fields: Option<nat>)

  predicate Allocated(s: Store, o: SharedObject) {
    o.fields.Some? ==> o.fields.value in s.maps
  }

  /** The attribute map an object currently sees. */
  function AttributesIn(s: Store, o: SharedObject): Option<Fields>
    requires Allocated(s, o)
  {
    if o.fields.None? then None else Some(s.maps[o.fields.value])
  }

  /** Stores `f` at a fresh address. */
  function Alloc(s: Store, f: Fields): (r: (Store, nat))
    requires s.Valid()
    ensures r.0.Valid() && r.1 !in s.maps
    ensures r.0.maps == s.maps[r.1 := f]
  {
    (Store(s.maps[s.next := f], s.next + 1), s.next)
  }

  /** SetType on an object holding its map by reference: the map is written
      in place, so every holder of it sees the new `"type"`. */
  function SetTypeShared(s: Store, o: SharedObject, t: string): (r: (Store, SharedObject))
    requires s.Valid() && Allocated(s, o)
    ensures r.0.Valid() && Allocated(r.0, r.1)
    ensures r.1.objectType == t && r.1.raw == o.raw
    ensures AttributesIn(r.0, r.1) == Some(Entries(AttributesIn(s, o))["type" := Str(t)])
    ensures o.fields.Some? ==> r.1.fields == o.fields
    ensures forall a :: a in s.maps && Some(a) != o.fields ==> a in r.0.maps && r.0.maps[a] == s.maps[a]
  {
    match o.fields
    case None =>
      var (s', a) := Alloc(s, map["type" := Str(t)]);
      (s', o.(objectType := t, fields := Some(a)))
    case Some(a) =>
      (s.(maps := s.maps[a := s.maps[a]["type" := Str(t)]]), o.(objectType := t))
  }

  /** DeepCopy as written, with maps by reference: the struct copy shares
      the receiver's map, and only a byte cache that parses gives the copy
      a map of its own. */
  function DeepCopyShared(c: Codec, s: Store, o: SharedObject): (r: (Store, SharedObject))
    requires s.Valid() && Allocated(s, o)
    ensures r.0.Valid() && Allocated(r.0, r.1)
    ensures c.unmarshal(o.raw).Err? ==> r == (s, o)
    ensures c.unmarshal(o.raw).Ok? ==>
      && r.1.fields.Some? && r.1.fields.value !in s.maps
      && AttributesIn(r.0, r.1) == Some(c.unmarshal(o.raw).value)
      && forall a :: a in s.maps ==> a in r.0.maps && r.0.maps[a] == s.maps[a]
  {
    match c.unmarshal(o.raw)
    case Err(_) => (s, o)
    case Ok(f) =>
      var (s', a) := Alloc(s, f);
      (s', o.(fields := Some(a)))
  }

  /** With maps shared, retyping the deep copy of an object whose byte cache
      does not parse (every object built in memory) rewrites the receiver's
      `"type"` too, so the receiver no longer mirrors its own type. */
  lemma DeepCopySharesMap(c: Codec, s: Store, o: SharedObject, t: string)
    requires s.Valid() && Allocated(s, o) && o.fields.Some?
    requires c.unmarshal(o.raw).Err?
    requires t != o.objectType
    ensures var copied := DeepCopyShared(c, s, o);
      var retyped := SetTypeShared(copied.0, copied.1, t);
      && Allocated(retyped.0, o)
      && AttributesIn(retyped.0, o).value["type"] == Str(t)
      && AttributesIn(retyped.0, o).value["type"] != Str(o.objectType)
  {
  }

  /** DeepCopy as evidently intended, with maps by reference: the copy gets
      a fresh map with the receiver's attributes. */
  function DeepCopySharedCorrected(s: Store, o: SharedObject): (r: (Store, SharedObject))
    requires s.Valid() && Allocated(s, o)
    ensures r.0.Valid() && Allocated(r.0, r.1)
    ensures r.1.objectType == o.objectType && r.1.raw == o.raw
    ensures AttributesIn(r.0, r.1) == AttributesIn(s, o)
    ensures r.1.fields.Some? ==> r.1.fields.value !in s.maps
    ensures forall a :: a in s.maps ==> a in r.0.maps && r.0.maps[a] == s.maps[a]
  {
    match o.fields
    case None => (s, o)
    case Some(a) =>
      var (s', a') := Alloc(s, CopyFields(s.maps[a]));
      (s', o.(fields := Some(a')))
  }

  /** Retyping the corrected copy leaves the receiver's attributes alone,
      and the copy alone is retyped. */
  lemma DeepCopySharedCorrectedIsolated(s: Store, o: SharedObject, t: string)
    requires s.Valid() && Allocated(s, o)
    ensures var copied := DeepCopySharedCorrected(s, o);
      var retyped := SetTypeShared(copied.0, copied.1, t);
      && Allocated(retyped.0, o)
      && AttributesIn(retyped.0, o) == AttributesIn(s, o)
      && AttributesIn(retyped.0, retyped.1) == Some(Entries(AttributesIn(s, o))["type" := Str(t)])
  {
  }

  /** Copies a list of object pointers into fresh pointers to shallow copies;
      a nil entry is dereferenced and panics. */
  method CopyList(l: seq<Option<Unstructured>>) returns (n: seq<Option<Unstructured>>)
    requires forall i :: 0 <= i < |l| ==> l[i].Some?
    ensures |n| == |l|
    ensures forall i :: 0 <= i < |l| ==> n[i] == l[i]
  {
    n := [];
    var i := 0;
    while i < |l|
      invariant 0 <= i <= |l|
      invariant n == l[..i]
    {
      var copy := l[i].value;
      n := n + [Some(copy)];
      i := i + 1;
    }
  }

  /** CopyList with maps held by reference: each new element is a struct
      copy of its original, so it holds the same attribute map and cache. */
  function CopyListShared(l: seq<SharedObject>): (n: seq<SharedObject>)
    ensures |n| == |l|
    ensures forall i :: 0 <= i < |l| ==>
      n[i].fields == l[i].fields && n[i].objectType == l[i].objectType && n[i].raw == l[i].raw
  {
    if |l| == 0 then [] else [l[0]] + CopyListShared(l[1..])
  }

  /** Retyping an element of the copied list rewrites the `"type"` its
      original sees, through the shared map. */
  lemma CopyListSharesMaps(s: Store, l: seq<SharedObject>, i: nat, t: string)
    requires s.Valid() && i < |l| && Allocated(s, l[i]) && l[i].fields.Some?
    ensures var n := CopyListShared(l);
      var retyped := SetTypeShared(s, n[i], t);
      && Allocated(retyped.0, l[i])
      && AttributesIn(retyped.0, l[i]).value["type"] == Str(t)
  {
  }
}
