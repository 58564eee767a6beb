/** The `ocm oci artifact transfer` command: splitting the command line,
    the target rules checked when the action is created, the per-namespace
    bookkeeping that deduplicates sources while they are added, the
    destination of each source, and the closing pass that copies them and
    counts the copies. Registry access, sessions and output are parameters
    or left out. */
module Transfer {
  import opened Wrappers
  import opened Text

  /** A parsed OCI reference: repository, optional tag, optional digest. */
  datatype RefSpec = RefSpec(repository: string, tag: Option<string>, digest: Option<string>)

  /** A reference naming one version of an artifact. */
  predicate IsVersion(r: RefSpec) {
    r.tag.Some? || r.digest.Some?
  }

  /** A reference naming a whole registry, without a repository. */
  predicate IsRegistry(r: RefSpec) {
    r.repository == ""
  }

  predicate IsTagged(r: RefSpec) {
    r.tag.Some?
  }

  /** A source artifact as the artifact handler delivers it: the namespace
      it was found in, the reference it was named by, and its digest. */
  datatype Source = Source(namespace: string, spec: RefSpec, digest: string)

  datatype TransferError =
    | MissingReference
    | TargetDigest
    | VersionWithRepoNames
    | RepositoryLessArtifact
    | DuplicateTag(tag: string, digest: string, recorded: string)
    | MultipleRepositories
    | External(cause: string)

  /** The split command line: the source references and the target. */
  datatype Command = Command(refs: seq<string>, target: string)

  /** The state of a transfer: the target reference, whether repository
      names are carried over, the sources collected so far, per namespace
      the tags and digests seen (each mapped to a digest), and the number
      of artifacts copied. */
  datatype Action = Action(
    ref: RefSpec,
    transferRepo: bool,
    srcs: seq<Source>,
    repositories: map<string, map<string, string>>,
    copied: nat)

  /** The last argument is the target and all before it are sources. With
      no arguments the command needs a repository option; with none of
      either it fails. */
  function Complete(args: seq<string>, repoSpec: string): (r: Result<Command, TransferError>)
    requires |args| > 0 || repoSpec == ""
    ensures r.Err? <==> |args| == 0
    ensures r.Err? ==> r.error == MissingReference
    ensures r.Ok? ==> r.value.refs + [r.value.target] == args
  {
    if |args| == 0 && repoSpec == "" then Err(MissingReference)
    else Ok(Command(args[..|args| - 1], args[|args| - 1]))
  }

  /** The command line a split came from is restored by appending the target. */
  lemma CompleteSplitsLast(refs: seq<string>, target: string, repoSpec: string)
    ensures Complete(refs + [target], repoSpec) == Ok(Command(refs, target))
  {
    var args := refs + [target];
    assert args[..|args| - 1] == refs;
  }

  /** Creates the action for a target: the target must parse, must not
      carry a digest, must resolve to a repository, and must not be a
      version when repository names are to be transferred; a registry
      target implies transferring repository names. */
  function NewAction(
    target: string,
    parseRef: string -> Result<RefSpec, TransferError>,
    determine: RefSpec -> Outcome<TransferError>,
    transferRepo: bool): (r: Result<Action, TransferError>)
    ensures parseRef(target).Err? ==> r == Err(parseRef(target).error)
    ensures parseRef(target).Ok? && parseRef(target).value.digest.Some? ==> r == Err(TargetDigest)
    ensures r.Ok? <==>
      && parseRef(target).Ok?
      && parseRef(target).value.digest.None?
      && determine(parseRef(target).value).Pass?
      && !(IsVersion(parseRef(target).value) && transferRepo)
    ensures r.Ok? ==>
      && r.value.ref == parseRef(target).value
      && r.value.transferRepo == (transferRepo || IsRegistry(r.value.ref))
      && r.value.srcs == [] && r.value.repositories == map[] && r.value.copied == 0
    ensures r.Ok? ==> Valid(r.value)
  {
    var ref :- parseRef(target);
    if ref.digest.Some? then Err(TargetDigest)
    else if determine(ref).Fail? then Err(determine(ref).error)
    else if IsVersion(ref) && transferRepo then Err(VersionWithRepoNames)
    else Ok(Action(ref, transferRepo || IsRegistry(ref), [], map[], 0))
  }

  /** `m'` keeps every entry of `m`. */
  predicate Extends(m: map<string, string>, m': map<string, string>) {
    forall k :: k in m ==> k in m' && m'[k] == m[k]
  }

  /** Every collected source is recorded under its namespace, its digest
      mapped to itself. */
  predicate Recorded(srcs: seq<Source>, repositories: map<string, map<string, string>>) {
    forall i :: 0 <= i < |srcs| ==>
      && srcs[i].namespace in repositories
      && srcs[i].digest in repositories[srcs[i].namespace]
      && repositories[srcs[i].namespace][srcs[i].digest] == srcs[i].digest
  }

  /** No two collected sources share namespace and digest. */
  predicate Distinct(srcs: seq<Source>) {
    forall i, j :: 0 <= i < j < |srcs| ==>
      srcs[i].namespace != srcs[j].namespace || srcs[i].digest != srcs[j].digest
  }

  function Namespaces(srcs: seq<Source>): set<string> {
    set i | 0 <= i < |srcs| :: srcs[i].namespace
  }

  /** The invariant of every action built by `NewAction` and grown by `Add`. */
  predicate Valid(a: Action) {
    && a.ref.digest.None?
    && (IsRegistry(a.ref) ==> a.transferRepo)
    && (a.transferRepo && IsVersion(a.ref) ==> IsRegistry(a.ref))
    && Recorded(a.srcs, a.repositories)
    && Distinct(a.srcs)
    && a.repositories.Keys == Namespaces(a.srcs)
    && (IsRegistry(a.ref) ==> forall i :: 0 <= i < |a.srcs| ==> a.srcs[i].namespace != "")
  }

  /** Adds one source. A repository-less source for a registry target is
      rejected; a tag already seen in the namespace with another digest is
      rejected, with the same digest it is skipped; a digest already seen
      in the namespace is skipped. The per-namespace table is shared with
      the state once the namespace is known, so a new tag recorded before a
      skip on a known digest stays recorded. */
  function Add(a: Action, src: Source): (r: Result<Action, TransferError>)
    ensures r.Err? <==>
      || (src.namespace == "" && IsRegistry(a.ref))
      || (&& IsTagged(src.spec) && src.namespace in a.repositories
          && src.spec.tag.value in a.repositories[src.namespace]
          && a.repositories[src.namespace][src.spec.tag.value] != src.digest)
    ensures r.Err? && src.namespace == "" && IsRegistry(a.ref) ==> r.error == RepositoryLessArtifact
    ensures r.Err? && !(src.namespace == "" && IsRegistry(a.ref)) ==>
      r.error == DuplicateTag(src.spec.tag.value, src.digest, a.repositories[src.namespace][src.spec.tag.value])
    ensures r.Ok? ==> r.value == a.(srcs := r.value.srcs, repositories := r.value.repositories)
    ensures r.Ok? ==> r.value.srcs == a.srcs || r.value.srcs == a.srcs + [src]
    ensures r.Ok? ==> (r.value.srcs == a.srcs + [src] <==> Fresh(a, src))
    ensures r.Ok? ==> (src.namespace in r.value.repositories <==> src.namespace in a.repositories || r.value.srcs != a.srcs)
    ensures r.Ok? ==> forall n :: n in a.repositories ==> n in r.value.repositories && Extends(a.repositories[n], r.value.repositories[n])
    ensures r.Ok? ==> forall n :: n != src.namespace ==>
      (n in r.value.repositories <==> n in a.repositories) &&
      (n in a.repositories ==> r.value.repositories[n] == a.repositories[n])
    ensures r.Ok? && r.value.srcs != a.srcs ==>
      src.namespace in r.value.repositories && src.digest in r.value.repositories[src.namespace]
      && r.value.repositories[src.namespace][src.digest] == src.digest
  {
    var ns := src.namespace;
    if ns == "" && IsRegistry(a.ref) then Err(RepositoryLessArtifact)
    else
      var known := ns in a.repositories;
      var versions := if known then a.repositories[ns] else map[];
      var dig := src.digest;
      if IsTagged(src.spec) && src.spec.tag.value in versions then
        var recorded := versions[src.spec.tag.value];
        if recorded != dig then Err(DuplicateTag(src.spec.tag.value, dig, recorded)) else Ok(a)
      else
        var versions' := if IsTagged(src.spec) then versions[src.spec.tag.value := dig] else versions;
        var shared := if known then a.(repositories := a.repositories[ns := versions']) else a;
        if dig in versions' then Ok(shared)
        else Ok(a.(repositories := a.repositories[ns := versions'[dig := dig]], srcs := a.srcs + [src]))
  }

  /** A source is collected when its tag is unknown in its namespace and its
      digest is neither known there nor equal to its own tag. */
  predicate Fresh(a: Action, src: Source) {
    var versions := if src.namespace in a.repositories then a.repositories[src.namespace] else map[];
    && !(IsTagged(src.spec) && src.spec.tag.value in versions)
    && src.digest !in versions
    && !(IsTagged(src.spec) && src.spec.tag.value == src.digest)
  }

  /** Adding keeps the invariant. */
  lemma AddPreservesValid(a: Action, src: Source)
    requires Valid(a)
    requires Add(a, src).Ok?
    ensures Valid(Add(a, src).value)
  {
    var a' := Add(a, src).value;
    RecordedGrows(a.srcs, a.repositories, a'.repositories);
    if a'.srcs != a.srcs {
      DistinctSnoc(a.srcs, a.repositories, src);
      RecordedSnoc(a.srcs, a'.repositories, src);
      NamespacesSnoc(a.srcs, src);
    }
  }

  /** Entries only ever added keep every source recorded. */
  lemma RecordedGrows(srcs: seq<Source>, m: map<string, map<string, string>>, m': map<string, map<string, string>>)
    requires Recorded(srcs, m)
    requires forall n :: n in m ==> n in m' && Extends(m[n], m'[n])
    ensures Recorded(srcs, m')
  {
    forall i | 0 <= i < |srcs|
      ensures srcs[i].namespace in m' && srcs[i].digest in m'[srcs[i].namespace]
      ensures m'[srcs[i].namespace][srcs[i].digest] == srcs[i].digest
    {
      assert Extends(m[srcs[i].namespace], m'[srcs[i].namespace]);
    }
  }

  lemma RecordedSnoc(srcs: seq<Source>, m: map<string, map<string, string>>, src: Source)
    requires Recorded(srcs, m)
    requires src.namespace in m && src.digest in m[src.namespace] && m[src.namespace][src.digest] == src.digest
    ensures Recorded(srcs + [src], m)
  {
    assert forall i :: 0 <= i < |srcs| ==> (srcs + [src])[i] == srcs[i];
  }

  /** A source whose digest is not yet recorded in its namespace is new. */
  lemma DistinctSnoc(srcs: seq<Source>, m: map<string, map<string, string>>, src: Source)
    requires Distinct(srcs) && Recorded(srcs, m)
    requires src.namespace in m ==> src.digest !in m[src.namespace]
    ensures Distinct(srcs + [src])
  {
    var s' := srcs + [src];
    forall i, j | 0 <= i < j < |s'|
      ensures s'[i].namespace != s'[j].namespace || s'[i].digest != s'[j].digest
    {
      if j < |srcs| {
        assert s'[i] == srcs[i] && s'[j] == srcs[j];
      } else {
        assert s'[i] == srcs[i] && s'[j] == src;
        assert srcs[i].digest in m[srcs[i].namespace];
      }
    }
  }

  lemma NamespacesSnoc(srcs: seq<Source>, src: Source)
    ensures Namespaces(srcs + [src]) == Namespaces(srcs) + {src.namespace}
  {
    var s' := srcs + [src];
    assert forall i :: 0 <= i < |srcs| ==> s'[i] == srcs[i];
    assert s'[|srcs|] == src;
  }

  /** Adding the same source twice changes nothing the second time. */
  lemma AddIdempotent(a: Action, src: Source)
    requires Add(a, src).Ok?
    ensures Add(Add(a, src).value, src) == Add(a, src)
  {
    var a1 := Add(a, src).value;
    var ns := src.namespace;
    if a1 != a {
      assert ns in a1.repositories;
      var v := a1.repositories[ns];
      assert IsTagged(src.spec) ==> src.spec.tag.value in v && v[src.spec.tag.value] == src.digest;
      assert !IsTagged(src.spec) ==> src.digest in v && a1.repositories[ns := v] == a1.repositories;
    }
  }

  /** A tag recorded for one digest rejects another digest under that tag. */
  lemma ConflictingTagRejected(a: Action, src: Source, recorded: string)
    requires IsTagged(src.spec) && src.digest != recorded
    requires src.namespace in a.repositories && src.spec.tag.value in a.repositories[src.namespace]
    requires a.repositories[src.namespace][src.spec.tag.value] == recorded
    ensures Add(a, src).Err?
  {
  }

  /** Adds the sources one by one, stopping at the first rejection. */
  function AddAll(a: Action, xs: seq<Source>): (r: Result<Action, TransferError>)
    ensures r.Ok? ==> r.value == a.(srcs := r.value.srcs, repositories := r.value.repositories)
    ensures r.Ok? ==> a.srcs <= r.value.srcs && |r.value.srcs| <= |a.srcs| + |xs|
    decreases |xs|
  {
    if xs == [] then Ok(a)
    else
      var a1 :- Add(a, xs[0]);
      AddAll(a1, xs[1..])
  }

  /** Any run of additions keeps the invariant. */
  lemma {:induction false} AddAllPreservesValid(a: Action, xs: seq<Source>)
    requires Valid(a)
    requires AddAll(a, xs).Ok?
    ensures Valid(AddAll(a, xs).value)
    decreases |xs|
  {
    if xs != [] {
      AddPreservesValid(a, xs[0]);
      AddAllPreservesValid(Add(a, xs[0]).value, xs[1..]);
    }
  }

  /** Joins two slash-separated paths, dropping empty ones (without the
      lexical cleaning). */
  function Join(p: string, q: string): (r: string)
    ensures p == "" ==> r == q
    ensures q == "" ==> r == p
    ensures p != "" && q != "" ==> HasPrefix(r, p + "/") && r[|p| + 1..] == q
  {
    if p == "" then q else if q == "" then p else p + "/" + q
  }

  /** Distinct repositories below one non-empty prefix stay distinct. */
  lemma JoinInjective(p: string, q: string, q': string)
    requires p != "" && q != "" && q' != ""
    requires Join(p, q) == Join(p, q')
    ensures q == q'
  {
  }

  /** `Target` dereferences the target's tag when the target is a version
      and repository names are not transferred. */
  predicate TargetDefined(a: Action) {
    a.transferRepo || !IsVersion(a.ref) || a.ref.tag.Some?
  }

  lemma ValidTargetDefined(a: Action)
    requires Valid(a)
    ensures TargetDefined(a)
  {
  }

  /** The destination repository and tag ("" for none) of a source. */
  function Target(a: Action, src: Source): (r: (string, string))
    requires TargetDefined(a)
    ensures a.transferRepo ==> r.0 == Join(a.ref.repository, src.spec.repository)
    ensures a.transferRepo ==> r.1 == src.spec.tag.GetOr("")
    ensures !a.transferRepo ==> r.0 == a.ref.repository
    ensures !a.transferRepo && IsVersion(a.ref) ==> r.1 == a.ref.tag.value
    ensures !a.transferRepo && !IsVersion(a.ref) ==> r.1 == src.spec.tag.GetOr("")
  {
    var repository := src.spec.repository;
    if a.transferRepo then
      (Join(a.ref.repository, repository), if src.spec.tag.Some? then src.spec.tag.value else "")
    else if IsVersion(a.ref) then (a.ref.repository, a.ref.tag.value)
    else if src.spec.tag.Some? then (a.ref.repository, src.spec.tag.value)
    else (a.ref.repository, "")
  }

  /** For a registry target every source keeps its own repository name. */
  lemma RegistryTargetKeepsRepository(a: Action, src: Source)
    requires Valid(a) && IsRegistry(a.ref)
    ensures Target(a, src).0 == src.spec.repository
  {
  }

  /** Below a repository target with transferred names, sources from
      different repositories land in different repositories. */
  lemma TransferredNamesSeparate(a: Action, s: Source, s': Source)
    requires a.transferRepo && !IsRegistry(a.ref)
    requires s.spec.repository != "" && s'.spec.repository != ""
    requires s.spec.repository != s'.spec.repository
    ensures Target(a, s).0 != Target(a, s').0
  {
    if Target(a, s).0 == Target(a, s').0 {
      JoinInjective(a.ref.repository, s.spec.repository, s'.spec.repository);
    }
  }

  /** Copies one source to its destination; the copy itself is `deliver`. */
  function Deliver(a: Action, deliver: (string, string, Source) -> Outcome<TransferError>, src: Source): Outcome<TransferError>
    requires TargetDefined(a)
  {
    var t := Target(a, src);
    deliver(t.0, t.1, src)
  }

  /** How many of `srcs`, from the front, are copied before the first failure. */
  function Delivered(a: Action, deliver: (string, string, Source) -> Outcome<TransferError>, srcs: seq<Source>): (n: nat)
    requires TargetDefined(a)
    ensures n <= |srcs|
    ensures forall j :: 0 <= j < n ==> Deliver(a, deliver, srcs[j]).Pass?
    ensures n < |srcs| ==> Deliver(a, deliver, srcs[n]).Fail?
  {
    if srcs == [] then 0
    else if Deliver(a, deliver, srcs[0]).Fail? then 0
    else
      var n := Delivered(a, deliver, srcs[1..]);
      assert forall j :: 1 <= j < n + 1 ==> srcs[j] == srcs[1..][j - 1];
      1 + n
  }

  /** Whether the collected sources may all go to the target. */
  predicate TooManyRepositories(a: Action) {
    |a.repositories| > 1 && !a.transferRepo
  }

  /** Copies every collected source in order, counting the copies and
      stopping at the first failure; refuses up front to merge several
      source repositories into one target repository. */
  method Close(a: Action, deliver: (string, string, Source) -> Outcome<TransferError>) returns (a': Action, r: Outcome<TransferError>)
    requires TargetDefined(a)
    ensures a' == a.(copied := a'.copied)
    ensures TooManyRepositories(a) ==> r == Fail(MultipleRepositories) && a' == a
    ensures !TooManyRepositories(a) ==> a'.copied == a.copied + Delivered(a, deliver, a.srcs)
    ensures !TooManyRepositories(a) ==> (r.Pass? <==> a'.copied == a.copied + |a.srcs|)
    ensures !TooManyRepositories(a) && r.Fail? ==>
      a'.copied - a.copied < |a.srcs| && r == Deliver(a, deliver, a.srcs[a'.copied - a.copied])
    ensures a'.copied <= a.copied + |a.srcs|
  {
    a' := a;
    if TooManyRepositories(a) {
      return a', Fail(MultipleRepositories);
    }
    var i := 0;
    while i < |a.srcs|
      invariant 0 <= i <= |a.srcs|
      invariant a' == a.(copied := a.copied + i)
      invariant forall j :: 0 <= j < i ==> Deliver(a, deliver, a.srcs[j]).Pass?
    {
      var t := Target(a', a.srcs[i]);
      var out := deliver(t.0, t.1, a.srcs[i]);
      if out.Fail? {
        DeliveredAt(a, deliver, a.srcs, i);
        return a', out;
      }
      a' := a'.(copied := a'.copied + 1);
      i := i + 1;
    }
    DeliveredAll(a, deliver, a.srcs);
    r := Pass;
  }

  /** The count of leading copies is the position of the first failure. */
  lemma DeliveredAt(a: Action, deliver: (string, string, Source) -> Outcome<TransferError>, srcs: seq<Source>, i: nat)
    requires TargetDefined(a)
    requires i < |srcs|
    requires forall j :: 0 <= j < i ==> Deliver(a, deliver, srcs[j]).Pass?
    requires Deliver(a, deliver, srcs[i]).Fail?
    ensures Delivered(a, deliver, srcs) == i
  {
  }

  /** With no failure every source is counted. */
  lemma DeliveredAll(a: Action, deliver: (string, string, Source) -> Outcome<TransferError>, srcs: seq<Source>)
    requires TargetDefined(a)
    requires forall j :: 0 <= j < |srcs| ==> Deliver(a, deliver, srcs[j]).Pass?
    ensures Delivered(a, deliver, srcs) == |srcs|
  {
  }

  /** Collecting sources into a fresh action copies nothing yet and leaves
      it fit for `Close`, whose count then cannot exceed what was collected. */
  lemma CollectedReadyToClose(a: Action, xs: seq<Source>)
    requires Valid(a) && a.copied == 0
    requires AddAll(a, xs).Ok?
    ensures AddAll(a, xs).value.copied == 0
    ensures TargetDefined(AddAll(a, xs).value)
  {
    AddAllPreservesValid(a, xs);
    ValidTargetDefined(AddAll(a, xs).value);
  }
}
