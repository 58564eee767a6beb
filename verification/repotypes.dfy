/** The OCI repository-spec family: the unknown fallback spec, the generic
    spec that defers resolution to a scheme supplied at the point of use,
    and the strict and non-strict repository type schemes. */
module RepoTypes {
  import opened Wrappers
  import opened Runtime
  import Text

  /** An opened repository (a handle; opening is backend I/O). */
  datatype Repository = Repository(handle: string)

  /** A repository spec: the unknown fallback, the generic (late-bound)
      spec, or a concrete spec known to some scheme, with its name and JSON view. */
  datatype RepositorySpec =
    | UnknownSpec(u: Unstructured)
    | GenericSpec(u: Unstructured)
    | KnownSpec(objectType: string, name: string, view: Fields)
  {
    function GetType(): string {
      if KnownSpec? then objectType else u.objectType
    }
  }

  type SpecDecoder = Bytes -> Result<RepositorySpec, Error>

  /** A repository type scheme: decoders registered here, an optional base
      scheme consulted next, an optional default decoder, and whether an
      unregistered type falls back to the unknown spec. */
  datatype RepositoryTypeScheme = RepositoryTypeScheme(
    decoders: map<string, SpecDecoder>,
    base: Option<RepositoryTypeScheme>,
    defaultDecoder: Option<SpecDecoder>,
    acceptUnknown: bool)

  /** The context a generic spec is resolved in: its scheme, and the backend
      that opens a repository for a concrete spec. */
  datatype Context = Context(
    repositoryTypes: RepositoryTypeScheme,
    open: (string, Fields) -> Result<Repository, Error>)

  /** The kind part of a `kind/version` type name. */
  function Kind(t: string): (k: string)
    ensures Text.HasPrefix(t, k)
    ensures '/' !in t ==> k == t
  {
    var i := Text.LastIndexOf(t, '/');
    if i > 0 then t[..i] else t
  }

  /** The first of the given base schemes, if any. */
  function FirstBase(bases: seq<RepositoryTypeScheme>): Option<RepositoryTypeScheme> {
    if |bases| == 0 then None else Some(bases[0])
  }

  /** The default (non-strict) scheme: unregistered types become unknown specs. */
  function NewRepositoryTypeScheme(defaultDecoder: Option<SpecDecoder>, bases: seq<RepositoryTypeScheme>): (s: RepositoryTypeScheme)
    ensures s.acceptUnknown && s.decoders == map[]
    ensures s.defaultDecoder == defaultDecoder
    ensures |bases| > 0 ==> s.base == Some(bases[0])
    ensures |bases| == 0 ==> s.base.None?
  {
    RepositoryTypeScheme(map[], FirstBase(bases), defaultDecoder, true)
  }

  /** The strict scheme: no unknown fallback and no default decoder. */
  function NewStrictRepositoryTypeScheme(bases: seq<RepositoryTypeScheme>): (s: RepositoryTypeScheme)
    ensures !s.acceptUnknown && s.defaultDecoder.None? && s.decoders == map[]
    ensures |bases| > 0 ==> s.base == Some(bases[0])
    ensures |bases| == 0 ==> s.base.None?
  {
    RepositoryTypeScheme(map[], FirstBase(bases), None, false)
  }

  /** Registers (or replaces) the decoder for `t` in this scheme only. */
  function Register(s: RepositoryTypeScheme, t: string, d: SpecDecoder): (r: RepositoryTypeScheme)
    ensures r.base == s.base && r.defaultDecoder == s.defaultDecoder && r.acceptUnknown == s.acceptUnknown
    ensures r.decoders.Keys == s.decoders.Keys + {t}
  {
    s.(decoders := s.decoders[t := d])
  }

  /** The decoder for `t`: this scheme's own first, then its base's. */
  function GetDecoder(s: RepositoryTypeScheme, t: string): Option<SpecDecoder>
  {
    if t in s.decoders then Some(s.decoders[t])
    else if s.base.Some? then GetDecoder(s.base.value, t)
    else None
  }

  /** Whether `t` has a decoder in `s` or in any scheme below it. */
  predicate Registered(s: RepositoryTypeScheme, t: string) {
    t in s.decoders || (s.base.Some? && Registered(s.base.value, t))
  }

  /** Decodes a payload: read its type, which must be present, then use the
      decoder found for it, else the default decoder, else the unknown spec
      unless the scheme is strict. */
  function Decode(c: Codec, s: RepositoryTypeScheme, data: Bytes): (r: Result<RepositorySpec, Error>)
    ensures UnmarshalJSON(c, data).Err? ==> r == Err(UnmarshalJSON(c, data).error)
    ensures UnmarshalJSON(c, data).Ok? && UnmarshalJSON(c, data).value.objectType == "" ==> r == Err(MissingType)
    ensures UnmarshalJSON(c, data).Ok? && UnmarshalJSON(c, data).value.objectType != "" ==>
      var u := UnmarshalJSON(c, data).value;
      && (Registered(s, u.objectType) ==> GetDecoder(s, u.objectType).Some? && r == GetDecoder(s, u.objectType).value(data))
      && (!Registered(s, u.objectType) && s.defaultDecoder.Some? ==> r == s.defaultDecoder.value(data))
      && (!Registered(s, u.objectType) && s.defaultDecoder.None? && s.acceptUnknown ==> r == Ok(UnknownSpec(u)))
      && (!Registered(s, u.objectType) && s.defaultDecoder.None? && !s.acceptUnknown ==>
            r == Err(UnknownKind("object type", u.objectType)))
  {
    var u :- UnmarshalJSON(c, data);
    RegisteredHasDecoder(s, u.objectType);
    if u.objectType == "" then Err(MissingType)
    else match GetDecoder(s, u.objectType)
    case Some(decode) => decode(data)
    case None =>
      if s.defaultDecoder.Some? then s.defaultDecoder.value(data)
      else if s.acceptUnknown then Ok(UnknownSpec(u))
      else Err(UnknownKind("object type", u.objectType))
  }

  /** A type has a decoder exactly when it is registered somewhere in the chain. */
  lemma {:induction false} RegisteredHasDecoder(s: RepositoryTypeScheme, t: string)
    ensures GetDecoder(s, t).Some? <==> Registered(s, t)
    decreases s
  {
    if t !in s.decoders && s.base.Some? {
      RegisteredHasDecoder(s.base.value, t);
    }
  }

  /** Registration in a composed scheme shadows any decoder for the same type
      in its bases, and leaves every other type's decoder as it was. */
  lemma RegisterOverrides(s: RepositoryTypeScheme, t: string, d: SpecDecoder, other: string)
    ensures GetDecoder(Register(s, t, d), t) == Some(d)
    ensures other != t ==> GetDecoder(Register(s, t, d), other) == GetDecoder(s, other)
  {
  }

  /** `IsUnknown` holds of the unknown spec and of no other spec: only the
      unknown spec implements the unknown marker. */
  predicate IsUnknown(spec: RepositorySpec) {
    spec.UnknownSpec?
  }

  /** The display name of a spec. */
  function Name(spec: RepositorySpec): (n: string)
    ensures spec.UnknownSpec? ==> n == "unknown-" + Kind(spec.u.objectType)
    ensures spec.GenericSpec? ==> n == "generic-" + Kind(spec.u.objectType)
    ensures spec.KnownSpec? ==> n == spec.name
  {
    match spec
    case UnknownSpec(u) => "unknown-" + Kind(u.objectType)
    case GenericSpec(u) => "generic-" + Kind(u.objectType)
    case KnownSpec(_, n, _) => n
  }

  /** Resolves a generic spec against the context's scheme, using its
      canonical bytes. */
  function EvaluateGeneric(c: Codec, ctx: Context, u: Unstructured): (r: Result<RepositorySpec, Error>)
    ensures GetRaw(c, u).Err? ==> r == Err(GetRaw(c, u).error)
    ensures GetRaw(c, u).Ok? ==> r == Decode(c, ctx.repositoryTypes, GetRaw(c, u).value)
  {
    var raw :- GetRaw(c, u);
    Decode(c, ctx.repositoryTypes, raw)
  }

  /** Opens the repository a spec describes: an unknown spec always fails
      naming its type, a concrete spec asks the backend, a generic spec is
      evaluated and delegates to the result. `fuel` bounds how many generic
      specs may be evaluated in a row. */
  function OpenRepository(c: Codec, ctx: Context, spec: RepositorySpec, fuel: nat): (r: Result<Repository, Error>)
    ensures spec.UnknownSpec? ==> r == Err(UnknownKind("repository type", spec.u.objectType))
    ensures spec.KnownSpec? ==> r == ctx.open(spec.objectType, spec.view)
    ensures spec.GenericSpec? && EvaluateGeneric(c, ctx, spec.u).Err? ==> r == Err(EvaluateGeneric(c, ctx, spec.u).error)
    decreases fuel
  {
    match spec
    case UnknownSpec(u) => Err(UnknownKind("repository type", u.objectType))
    case KnownSpec(t, _, view) => ctx.open(t, view)
    case GenericSpec(u) =>
      var resolved :- EvaluateGeneric(c, ctx, u);
      if fuel == 0 then Err(EvaluationDepthExceeded) else OpenRepository(c, ctx, resolved, fuel - 1)
  }

  /** Names tell the unknown and the generic family apart, and within a
      family two specs share a name exactly when their kinds agree. */
  lemma NamesSeparateFamilies(u: Unstructured, u': Unstructured)
    ensures Name(UnknownSpec(u)) != Name(GenericSpec(u'))
    ensures Name(UnknownSpec(u)) == Name(UnknownSpec(u')) <==> Kind(u.objectType) == Kind(u'.objectType)
    ensures Name(GenericSpec(u)) == Name(GenericSpec(u')) <==> Kind(u.objectType) == Kind(u'.objectType)
  {
    assert Name(UnknownSpec(u))[0] == 'u' && Name(GenericSpec(u'))[0] == 'g';
    PrefixCancels("unknown-", Kind(u.objectType), Kind(u'.objectType));
    PrefixCancels("generic-", Kind(u.objectType), Kind(u'.objectType));
  }

  lemma PrefixCancels(p: string, x: string, y: string)
    ensures p + x == p + y <==> x == y
  {
    if p + x == p + y {
      assert x == (p + x)[|p|..];
      assert y == (p + y)[|p|..];
    }
  }

  /** A generic spec that resolves to a non-generic spec opens exactly what
      that spec opens. */
  lemma GenericDelegates(c: Codec, ctx: Context, u: Unstructured, fuel: nat)
    requires fuel > 0
    requires EvaluateGeneric(c, ctx, u).Ok? && !EvaluateGeneric(c, ctx, u).value.GenericSpec?
    ensures OpenRepository(c, ctx, GenericSpec(u), fuel) == OpenRepository(c, ctx, EvaluateGeneric(c, ctx, u).value, 0)
  {
  }

  /** The bytes `json.Marshal` produces for a spec. */
  function MarshalSpec(c: Codec, spec: RepositorySpec): (r: Result<Bytes, Error>)
    ensures !spec.KnownSpec? ==> r == GetRaw(c, spec.u)
    ensures spec.KnownSpec? ==> r == c.marshal(Some(spec.view))
  {
    match spec
    case KnownSpec(_, _, view) => c.marshal(Some(view))
    case _ => MarshalJSON(c, spec.u)
  }

  /** Reads a generic spec from `data`, with the YAML codec when no codec is given. */
  function NewGenericRepositorySpec(data: Bytes, unmarshaler: Option<Codec>, yaml: Codec): (r: Result<RepositorySpec, Error>)
    ensures r.Err? <==> UnmarshalJSON(unmarshaler.GetOr(yaml), data).Err?
    ensures r.Ok? ==> r.value.GenericSpec? && r.value.u == UnmarshalJSON(unmarshaler.GetOr(yaml), data).value
  {
    var codec := if unmarshaler.Some? then unmarshaler.value else yaml;
    var u :- UnmarshalJSON(codec, data);
    Ok(GenericSpec(u))
  }

  /** Any spec as a generic spec: nil stays nil, a generic spec is returned
      as it is, anything else is marshalled and read back. */
  function ToGenericRepositorySpec(json: Codec, yaml: Codec, spec: Option<RepositorySpec>): (r: Result<Option<RepositorySpec>, Error>)
    ensures spec.None? ==> r == Ok(None)
    ensures spec.Some? && spec.value.GenericSpec? ==> r == Ok(spec)
    ensures spec.Some? && !spec.value.GenericSpec? && MarshalSpec(json, spec.value).Err? ==> r == Err(MarshalSpec(json, spec.value).error)
    ensures spec.Some? && !spec.value.GenericSpec? && MarshalSpec(json, spec.value).Ok? ==>
      var u := UnmarshalJSON(json, MarshalSpec(json, spec.value).value);
      && (u.Ok? ==> r == Ok(Some(GenericSpec(u.value))))
      && (u.Err? ==> r == Err(u.error))
    ensures r.Ok? && r.value.Some? ==> r.value.value.GenericSpec?
    ensures spec.Some? && r.Ok? ==> r.value.Some?
  {
    if spec.None? then Ok(None)
    else if spec.value.GenericSpec? then Ok(spec)
    else
      var data :- MarshalSpec(json, spec.value);
      var g :- NewGenericRepositorySpec(data, Some(json), yaml);
      Ok(Some(g))
  }

  /** Converting an unknown spec to a generic one keeps its type and
      attributes when the codec reads back what it writes. */
  lemma UnknownToGenericKeepsPayload(json: Codec, yaml: Codec, u: Unstructured)
    requires Faithful(json) && TypeMirrored(u) && GetRaw(json, u).Ok?
    ensures ToGenericRepositorySpec(json, yaml, Some(UnknownSpec(u))) == Ok(Some(GenericSpec(u.(raw := GetRaw(json, u).value))))
  {
    UnmarshalRoundTrip(json, u);
  }

  /** Converting a concrete spec whose view carries its type gives a generic
      spec of the same type and attributes, caching its canonical bytes,
      when the codec reads back what it writes; the result is not unknown
      and is named after the same kind with the generic prefix. */
  lemma KnownToGenericKeepsPayload(json: Codec, yaml: Codec, t: string, name: string, view: Fields)
    requires Faithful(json)
    requires "type" in view && view["type"] == Str(t)
    requires json.marshal(Some(view)).Ok?
    ensures var g := GenericSpec(Unstructured(t, json.marshal(Some(view)).value, Some(view)));
      && ToGenericRepositorySpec(json, yaml, Some(KnownSpec(t, name, view))) == Ok(Some(g))
      && !IsUnknown(g) && Name(g) == "generic-" + Kind(t)
  {
    assert json.unmarshal(json.marshal(Some(view)).value) == Ok(view);
  }

  /** A payload whose type no scheme in the chain knows parses to the unknown
      spec under the non-strict scheme, and that spec refuses to open a
      repository, naming the type. */
  lemma UnknownSurvivesParse(c: Codec, bases: seq<RepositoryTypeScheme>, data: Bytes, open: (string, Fields) -> Result<Repository, Error>, fuel: nat)
    requires UnmarshalJSON(c, data).Ok? && UnmarshalJSON(c, data).value.objectType != ""
    requires !Registered(NewRepositoryTypeScheme(None, bases), UnmarshalJSON(c, data).value.objectType)
    ensures var s := NewRepositoryTypeScheme(None, bases);
      var t := UnmarshalJSON(c, data).value.objectType;
      && Decode(c, s, data) == Ok(UnknownSpec(UnmarshalJSON(c, data).value))
      && IsUnknown(Decode(c, s, data).value)
      && OpenRepository(c, Context(s, open), Decode(c, s, data).value, fuel) == Err(UnknownKind("repository type", t))
  {
  }

  /** The same payload is refused by the strict scheme. */
  lemma StrictRejectsUnknown(c: Codec, bases: seq<RepositoryTypeScheme>, data: Bytes)
    requires UnmarshalJSON(c, data).Ok? && UnmarshalJSON(c, data).value.objectType != ""
    requires !Registered(NewStrictRepositoryTypeScheme(bases), UnmarshalJSON(c, data).value.objectType)
    ensures Decode(c, NewStrictRepositoryTypeScheme(bases), data) == Err(UnknownKind("object type", UnmarshalJSON(c, data).value.objectType))
  {
  }

  /** Late binding: a generic spec whose type becomes registered after it
      was read resolves through the decoder registered later. */
  lemma {:induction false} LateBinding(c: Codec, ctx: Context, u: Unstructured, d: SpecDecoder)
    requires Faithful(c) && TypeMirrored(u) && GetRaw(c, u).Ok? && u.objectType != ""
    ensures var ctx' := ctx.(repositoryTypes := Register(ctx.repositoryTypes, u.objectType, d));
      EvaluateGeneric(c, ctx', u) == d(GetRaw(c, u).value)
  {
    var s' := Register(ctx.repositoryTypes, u.objectType, d);
    UnmarshalRoundTrip(c, u);
    RegisteredHasDecoder(s', u.objectType);
  }
}
