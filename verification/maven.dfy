/** Maven coordinates: groupId, artifactId and version, with an optional
    classifier and extension; their GAV, serial and package-URL forms, the
    repository paths and file names derived from them, and the parsers that
    read them back. */
module Maven {
  import opened Wrappers
  import opened Text

  datatype Coordinates = Coordinates(
    groupId: string,
    artifactId: string,
    version: string,
    classifier: Option<string>,
    extension: Option<string>)

  datatype Error =
    | InvalidCoordinates(serialized: string)
    | NoExtensionAfterClassifier(filename: string)

  /** An option of NewCoordinates; a nil option is `None`. */
  datatype CoordinateOption = WithClassifier(classifier: string) | WithExtension(extension: string)

  /** An absent field, read as the empty string. */
  function AsValue(o: Option<string>): string {
    o.GetOr("")
  }

  function WithOptionalClassifier(c: Option<string>): (o: Option<CoordinateOption>)
    ensures c.None? <==> o.None?
    ensures c.Some? ==> o == Some(WithClassifier(c.value))
  {
    if c.Some? then Some(WithClassifier(c.value)) else None
  }

  function WithOptionalExtension(e: Option<string>): (o: Option<CoordinateOption>)
    ensures e.None? <==> o.None?
    ensures e.Some? ==> o == Some(WithExtension(e.value))
  {
    if e.Some? then Some(WithExtension(e.value)) else None
  }

  function ApplyTo(o: CoordinateOption, c: Coordinates): Coordinates {
    match o
    case WithClassifier(k) => c.(classifier := Some(k))
    case WithExtension(e) => c.(extension := Some(e))
  }

  /** One step of option application; nil options are skipped. */
  function Step(c: Coordinates, o: Option<CoordinateOption>): Coordinates {
    if o.Some? then ApplyTo(o.value, c) else c
  }

  /** Applies the options from first to last. */
  function ApplyOptions(c: Coordinates, opts: seq<Option<CoordinateOption>>): (r: Coordinates)
    ensures r.groupId == c.groupId && r.artifactId == c.artifactId && r.version == c.version
    ensures c.classifier.Some? ==> r.classifier.Some?
    ensures c.extension.Some? ==> r.extension.Some?
    decreases |opts|
  {
    if |opts| == 0 then c else ApplyOptions(Step(c, opts[0]), opts[1..])
  }

  /** The classifier of the last classifier option, if there is one. */
  function LastClassifier(opts: seq<Option<CoordinateOption>>): Option<string> {
    if |opts| == 0 then None
    else match opts[|opts| - 1]
      case Some(WithClassifier(k)) => Some(k)
      case _ => LastClassifier(opts[..|opts| - 1])
  }

  /** The extension of the last extension option, if there is one. */
  function LastExtension(opts: seq<Option<CoordinateOption>>): Option<string> {
    if |opts| == 0 then None
    else match opts[|opts| - 1]
      case Some(WithExtension(e)) => Some(e)
      case _ => LastExtension(opts[..|opts| - 1])
  }

  lemma {:induction false} ApplyOptionsSnoc(c: Coordinates, opts: seq<Option<CoordinateOption>>, o: Option<CoordinateOption>)
    ensures ApplyOptions(c, opts + [o]) == Step(ApplyOptions(c, opts), o)
    decreases |opts|
  {
    if |opts| == 0 {
      assert ([] + [o])[1..] == [];
    } else {
      assert (opts + [o])[1..] == opts[1..] + [o];
      ApplyOptionsSnoc(Step(c, opts[0]), opts[1..], o);
    }
  }

  /** Applying options keeps groupId, artifactId and version, and the last
      classifier and last extension option win; a field no option sets keeps
      its value. */
  lemma {:induction false} ApplyOptionsLastWins(c: Coordinates, opts: seq<Option<CoordinateOption>>)
    ensures var r := ApplyOptions(c, opts);
      && r.groupId == c.groupId && r.artifactId == c.artifactId && r.version == c.version
      && r.classifier == (if LastClassifier(opts).Some? then LastClassifier(opts) else c.classifier)
      && r.extension == (if LastExtension(opts).Some? then LastExtension(opts) else c.extension)
    decreases |opts|
  {
    if |opts| > 0 {
      var init := opts[..|opts| - 1];
      assert opts == init + [opts[|opts| - 1]];
      ApplyOptionsSnoc(c, init, opts[|opts| - 1]);
      ApplyOptionsLastWins(c, init);
    }
  }

  /** Coordinates with the given options applied in order. */
  function NewCoordinates(groupId: string, artifactId: string, version: string, opts: seq<Option<CoordinateOption>>): (c: Coordinates)
    ensures c.groupId == groupId && c.artifactId == artifactId && c.version == version
    ensures c.classifier == LastClassifier(opts)
    ensures c.extension == LastExtension(opts)
  {
    var start := Coordinates(groupId, artifactId, version, None, None);
    ApplyOptionsLastWins(start, opts);
    ApplyOptions(start, opts)
  }

  /** `WithClassifier`/`WithExtension` make the fields present; the optional
      forms applied to an absent value leave them absent. */
  lemma NewCoordinatesOptions(g: string, a: string, v: string, k: string, e: string)
    ensures NewCoordinates(g, a, v, [Some(WithClassifier(k)), Some(WithExtension(e))]) == Coordinates(g, a, v, Some(k), Some(e))
    ensures NewCoordinates(g, a, v, [WithOptionalClassifier(None), WithOptionalExtension(None)]) == Coordinates(g, a, v, None, None)
  {
    var opts := [Some(WithClassifier(k)), Some(WithExtension(e))];
    assert opts[..1] == [Some(WithClassifier(k))];
    assert LastClassifier(opts) == Some(k);
    assert LastExtension(opts) == Some(e);
    var none := [WithOptionalClassifier(None), WithOptionalExtension(None)];
    assert none == [None, None];
    assert none[..1] == [None] && none[..1][..0] == [];
    assert LastClassifier(none) == None;
    assert LastExtension(none) == None;
  }

  /** The `G:A:V` form: its colon-separated pieces are those of the group,
      the artifact and the version in turn. */
  function GAV(c: Coordinates): (r: string)
    ensures Split(r, ':') == Split(c.groupId, ':') + Split(c.artifactId, ':') + Split(c.version, ':')
  {
    SplitAround3(c.groupId, c.artifactId, c.version, ':');
    c.groupId + ":" + c.artifactId + ":" + c.version
  }

  /** The serial form `G:A:V:classifier:extension`, absent fields empty. */
  function String(c: Coordinates): (r: string)
    ensures Split(r, ':') == Split(c.groupId, ':') + Split(c.artifactId, ':') + Split(c.version, ':')
      + Split(AsValue(c.classifier), ':') + Split(AsValue(c.extension), ':')
  {
    SplitAround3(GAV(c), AsValue(c.classifier), AsValue(c.extension), ':');
    c.groupId + ":" + c.artifactId + ":" + c.version + ":" + AsValue(c.classifier) + ":" + AsValue(c.extension)
  }

  /** The package URL `pkg:maven/G/A@V`: after its fixed prefix, the
      slash-separated pieces are the group's, then those of `A@V`. */
  function Purl(c: Coordinates): (r: string)
    ensures HasPrefix(r, "pkg:maven/")
    ensures Split(r[|"pkg:maven/"|..], '/') == Split(c.groupId, '/') + Split(c.artifactId + "@" + c.version, '/')
  {
    var rest := c.groupId + "/" + c.artifactId + "@" + c.version;
    assert rest == c.groupId + ['/'] + (c.artifactId + "@" + c.version);
    SplitAround(c.groupId, c.artifactId + "@" + c.version, '/');
    assert ("pkg:maven/" + rest)[|"pkg:maven/"|..] == rest;
    "pkg:maven/" + rest
  }

  /** Reads coordinates from their serial form: at least three
      colon-separated parts; a fourth and fifth part, when present, are the
      classifier and the extension; further parts are ignored. */
  function Parse(s: string): (r: Result<Coordinates, Error>)
    ensures r.Err? <==> Count(s, ':') < 2
    ensures r.Err? ==> r.error == InvalidCoordinates(s)
    ensures r.Ok? ==> ':' !in r.value.groupId && ':' !in r.value.artifactId && ':' !in r.value.version
    ensures r.Ok? ==> (r.value.classifier.Some? <==> Count(s, ':') >= 3)
    ensures r.Ok? ==> (r.value.extension.Some? <==> Count(s, ':') >= 4)
  {
    var parts := Split(s, ':');
    SplitLength(s, ':');
    if |parts| < 3 then Err(InvalidCoordinates(s))
    else
      Ok(Coordinates(parts[0], parts[1], parts[2],
        if |parts| >= 4 then Some(parts[3]) else None,
        if |parts| >= 5 then Some(parts[4]) else None))
  }

  predicate ColonFree(c: Coordinates) {
    && ':' !in c.groupId && ':' !in c.artifactId && ':' !in c.version
    && ':' !in AsValue(c.classifier) && ':' !in AsValue(c.extension)
  }

  /** The serial form of colon-free coordinates parses back to them, with
      classifier and extension present (absent ones as ""). */
  lemma ParseString(c: Coordinates)
    requires ColonFree(c)
    ensures Parse(String(c)) == Ok(c.(classifier := Some(AsValue(c.classifier)), extension := Some(AsValue(c.extension))))
  {
    var k, e := AsValue(c.classifier), AsValue(c.extension);
    assert Split(String(c), ':') == [c.groupId, c.artifactId, c.version, k, e] by {
      SplitPlain(c.groupId, ':');
      SplitPlain(c.artifactId, ':');
      SplitPlain(c.version, ':');
      SplitPlain(k, ':');
      SplitPlain(e, ':');
    }
  }

  /** The GAV form of colon-free G, A and V parses back to them, with no
      classifier and no extension. */
  lemma ParseGAV(c: Coordinates)
    requires ':' !in c.groupId && ':' !in c.artifactId && ':' !in c.version
    ensures Parse(GAV(c)) == Ok(Coordinates(c.groupId, c.artifactId, c.version, None, None))
  {
    assert Split(GAV(c), ':') == [c.groupId, c.artifactId, c.version] by {
      SplitPlain(c.groupId, ':');
      SplitPlain(c.artifactId, ':');
      SplitPlain(c.version, ':');
    }
  }

  /** Package URLs tell coordinates apart when the group has no '/' and the
      artifact has no '@'. */
  lemma PurlInjective(c: Coordinates, d: Coordinates)
    requires '/' !in c.groupId && '/' !in d.groupId
    requires '@' !in c.artifactId && '@' !in d.artifactId
    requires Purl(c) == Purl(d)
    ensures c.groupId == d.groupId && c.artifactId == d.artifactId && c.version == d.version
  {
    var p := "pkg:maven/";
    var x := c.groupId + "/" + c.artifactId + "@" + c.version;
    var y := d.groupId + "/" + d.artifactId + "@" + d.version;
    assert x == y by {
      assert Purl(c) == p + x && Purl(d) == p + y;
      assert x == (p + x)[|p|..];
      assert y == (p + y)[|p|..];
    }
    PathAtUnique(c.groupId, c.artifactId, c.version, d.groupId, d.artifactId, d.version);
  }

  /** `G/A@V` determines G, A and V when G has no '/' and A has no '@'. */
  lemma PathAtUnique(g: string, a: string, v: string, g': string, a': string, v': string)
    requires '/' !in g && '/' !in g' && '@' !in a && '@' !in a'
    requires g + "/" + a + "@" + v == g' + "/" + a' + "@" + v'
    ensures g == g' && a == a' && v == v'
  {
    assert g + "/" + a + "@" + v == g + ['/'] + (a + "@" + v);
    assert g' + "/" + a' + "@" + v' == g' + ['/'] + (a' + "@" + v');
    SplitUnique(g, a + "@" + v, g', a' + "@" + v', '/');
    assert a + "@" + v == a + ['@'] + v;
    assert a' + "@" + v' == a' + ['@'] + v';
    SplitUnique(a, v, a', v', '@');
  }

  /** The group as a path: every '.' becomes '/'. */
  function GroupPath(c: Coordinates): (p: string)
    ensures |p| == |c.groupId| && '.' !in p
    ensures forall i :: 0 <= i < |p| ==> p[i] == (if c.groupId[i] == '.' then '/' else c.groupId[i])
  {
    ReplaceAll(c.groupId, '.', '/')
  }

  /** The repository directory of the artifact. */
  function GavPath(c: Coordinates): (r: string)
    ensures Split(r, '/') == Split(GroupPath(c), '/') + Split(c.artifactId, '/') + Split(c.version, '/')
  {
    SplitAround3(GroupPath(c), c.artifactId, c.version, '/');
    GroupPath(c) + "/" + c.artifactId + "/" + c.version
  }

  /** The directories of the artifact's repository path are the
      dot-separated parts of its group, then its artifactId, then its version. */
  lemma GavPathSegments(c: Coordinates)
    requires '/' !in c.groupId && '/' !in c.artifactId && '/' !in c.version
    ensures Split(GavPath(c), '/') == Split(c.groupId, '.') + [c.artifactId, c.version]
  {
    assert Split(c.artifactId, '/') == [c.artifactId] && Split(c.version, '/') == [c.version] by {
      assert IndexOf(c.artifactId, '/') < 0 && IndexOf(c.version, '/') < 0;
    }
    SplitReplaced(c.groupId, '.', '/');
  }

  /** `A-V`: the artifact, a dash at the artifact's length, then the version. */
  function FileNamePrefix(c: Coordinates): (r: string)
    ensures |r| == |c.artifactId| + 1 + |c.version|
    ensures r[..|c.artifactId|] == c.artifactId && r[|c.artifactId|] == '-' && r[|c.artifactId| + 1..] == c.version
  {
    c.artifactId + "-" + c.version
  }

  /** The extension a file name carries: the given one, "jar" when it is
      empty or absent. */
  function EffectiveExtension(c: Coordinates): string {
    if AsValue(c.extension) != "" then AsValue(c.extension) else "jar"
  }

  /** `A-V`, then `-classifier` for a non-empty classifier, then the extension. */
  function FileName(c: Coordinates): (f: string)
    ensures HasPrefix(f, FileNamePrefix(c))
  {
    var file := FileNamePrefix(c);
    var file := if AsValue(c.classifier) != "" then file + "-" + c.classifier.value else file;
    if AsValue(c.extension) != "" then file + "." + c.extension.value else file + ".jar"
  }

  /** The file name as `A-V`, the classifier part, a dot, and the effective extension. */
  lemma FileNameShape(c: Coordinates)
    ensures FileName(c) == FileNamePrefix(c) + (if AsValue(c.classifier) != "" then "-" + AsValue(c.classifier) else "") + "." + EffectiveExtension(c)
  {
  }

  /** The repository directory, then the file name: the slash-separated
      pieces of the directory, then those of the file name. */
  function FilePath(c: Coordinates): (r: string)
    ensures Split(r, '/') == Split(GavPath(c), '/') + Split(FileName(c), '/')
  {
    SplitAround(GavPath(c), FileName(c), '/');
    GavPath(c) + "/" + FileName(c)
  }

  /** No field contains a path separator. */
  predicate SlashFree(c: Coordinates) {
    && '/' !in c.artifactId && '/' !in c.version
    && '/' !in AsValue(c.classifier) && '/' !in AsValue(c.extension)
  }

  /** The last element of the artifact's path is its file name, and its
      directory part is the repository directory. */
  lemma FilePathEndsInFileName(c: Coordinates)
    requires SlashFree(c)
    ensures Base(FilePath(c)) == FileName(c)
    ensures HasPrefix(FilePath(c), GavPath(c) + "/")
  {
    FileNameShape(c);
    BaseAfterSlash(GavPath(c), FileName(c));
  }

  /** What follows the `A-V` prefix in the last element of `filename`. */
  function AfterPrefix(c: Coordinates, filename: string): string {
    TrimPrefix(Base(filename), FileNamePrefix(c))
  }

  /** Splits what follows the classifier dash at its first '.': the
      classifier before it, the extension after it; `None` without a '.'. */
  function SplitClassifier(s: string): (r: Option<(string, string)>)
    ensures r.None? <==> '.' !in s
    ensures r.Some? ==> s == r.value.0 + "." + r.value.1 && '.' !in r.value.0
  {
    var i := IndexOf(s, '.');
    IndexOfIsFirst(s, '.');
    if i < 0 then None
    else
      // trimming the classifier and then the dot leaves what follows the dot
      DotSplit(s, i);
      Some((s[..i], s[i + 1..]))
  }

  lemma DotSplit(s: string, i: nat)
    requires i < |s| && s[i] == '.'
    ensures s == s[..i] + "." + s[i + 1..]
  {
    assert s == s[..i] + s[i..];
    assert s[i..] == "." + s[i + 1..];
  }

  /** Reads classifier and extension back from a file name: after the
      `A-V` prefix, a '-' starts a classifier that must be followed by a '.';
      without a '-' the classifier is empty and the extension is the rest
      without its leading '.'. */
  function SetClassifierExtensionBy(c: Coordinates, filename: string): (r: Result<Coordinates, Error>)
    ensures var s := AfterPrefix(c, filename);
      r.Err? <==> HasPrefix(s, "-") && '.' !in s[1..]
    ensures r.Err? ==> r.error == NoExtensionAfterClassifier(filename)
    ensures r.Ok? ==> r.value == c.(classifier := r.value.classifier, extension := r.value.extension)
    ensures r.Ok? ==> r.value.classifier.Some? && r.value.extension.Some? && '.' !in r.value.classifier.value
    ensures var s := AfterPrefix(c, filename);
      !HasPrefix(s, "-") ==> r == Ok(c.(classifier := Some(""), extension := Some(TrimPrefix(s, "."))))
    ensures var s := AfterPrefix(c, filename);
      r.Ok? && HasPrefix(s, "-") ==> s[1..] == r.value.classifier.value + "." + r.value.extension.value
  {
    var s := AfterPrefix(c, filename);
    if HasPrefix(s, "-") then
      assert TrimPrefix(s, "-") == s[1..];
      var parts := SplitClassifier(TrimPrefix(s, "-"));
      if parts.None? then Err(NoExtensionAfterClassifier(filename))
      else Ok(c.(classifier := Some(parts.value.0), extension := Some(parts.value.1)))
    else
      Ok(c.(classifier := Some(""), extension := Some(TrimPrefix(s, "."))))
  }

  /** Reading the file name of coordinates back restores their classifier
      (absent as "") and their effective extension, provided the classifier
      has no '.' and no field has a '/'. */
  lemma SetClassifierExtensionRoundTrip(c: Coordinates)
    requires SlashFree(c)
    requires '.' !in AsValue(c.classifier)
    ensures SetClassifierExtensionBy(c, FileName(c)) ==
      Ok(c.(classifier := Some(AsValue(c.classifier)), extension := Some(EffectiveExtension(c))))
  {
    var k := AsValue(c.classifier);
    var e := EffectiveExtension(c);
    var s := AfterPrefix(c, FileName(c));
    var r := SetClassifierExtensionBy(c, FileName(c));
    if k != "" {
      assert s == "-" + (k + "." + e) by { FileNameAfterPrefix(c); }
      assert HasPrefix(s, "-");
      assert s[1..] == k + "." + e;
      assert s[1..][|k|] == '.';
      assert r.Ok?;
      var k', e' := r.value.classifier.value, r.value.extension.value;
      assert s[1..] == k' + "." + e';
      SplitUnique(k, e, k', e', '.');
    } else {
      assert s == "." + e by { FileNameAfterPrefix(c); }
      assert s[0] == '.';
      assert TrimPrefix(s, ".") == e;
    }
  }

  /** What follows `A-V` in the file name of slash-free coordinates. */
  lemma FileNameAfterPrefix(c: Coordinates)
    requires SlashFree(c)
    ensures AsValue(c.classifier) != "" ==> AfterPrefix(c, FileName(c)) == "-" + (AsValue(c.classifier) + "." + EffectiveExtension(c))
    ensures AsValue(c.classifier) == "" ==> AfterPrefix(c, FileName(c)) == "." + EffectiveExtension(c)
  {
    var f := FileName(c);
    var prefix := FileNamePrefix(c);
    var k := AsValue(c.classifier);
    var e := EffectiveExtension(c);
    var rest := if k != "" then "-" + (k + "." + e) else "." + e;
    FileNameShape(c);
    assert f == prefix + rest;
    assert '/' !in prefix && '/' !in rest;
    BaseOfPlain(f);
    assert f[..|prefix|] == prefix && f[|prefix|..] == rest;
  }

  /** Checksum and signature files are not resources; anything else is. */
  function IsResource(fileName: string): (r: bool)
    ensures !r <==> Ext(fileName) in [".asc", ".md5", ".sha1", ".sha256", ".sha512"]
  {
    match Ext(fileName)
    case ".asc" => false
    case ".md5" => false
    case ".sha1" => false
    case ".sha256" => false
    case ".sha512" => false
    case _ => true
  }

  /** A checksum or signature file beside any artifact file is not a resource. */
  lemma ChecksumFileIsNotResource(name: string, e: string)
    requires e in ["asc", "md5", "sha1", "sha256", "sha512"]
    ensures !IsResource(name + "." + e)
  {
    ExtOfDotted(name, e);
    DottedChecksum(e);
  }

  /** An artifact's own file is a resource unless its extension is one of
      the checksum or signature extensions. */
  lemma ArtifactFileIsResource(c: Coordinates)
    requires '.' !in EffectiveExtension(c) && '/' !in EffectiveExtension(c)
    requires EffectiveExtension(c) !in ["asc", "md5", "sha1", "sha256", "sha512"]
    ensures IsResource(FileName(c))
  {
    FileNameShape(c);
    var stem := FileNamePrefix(c) + (if AsValue(c.classifier) != "" then "-" + AsValue(c.classifier) else "");
    assert FileName(c) == stem + "." + EffectiveExtension(c);
    ExtOfDotted(stem, EffectiveExtension(c));
    DottedChecksum(EffectiveExtension(c));
  }

  /** A '.' before an extension makes a checksum suffix exactly when the
      extension is a checksum extension. */
  lemma DottedChecksum(x: string)
    ensures x in ["asc", "md5", "sha1", "sha256", "sha512"] <==> "." + x in [".asc", ".md5", ".sha1", ".sha256", ".sha512"]
  {
    var d := "." + x;
    assert d[1..] == x;
    assert ".asc"[1..] == "asc" && ".md5"[1..] == "md5" && ".sha1"[1..] == "sha1";
    assert ".sha256"[1..] == "sha256" && ".sha512"[1..] == "sha512";
    assert "." + "asc" == ".asc" && "." + "md5" == ".md5" && "." + "sha1" == ".sha1";
    assert "." + "sha256" == ".sha256" && "." + "sha512" == ".sha512";
  }
}
