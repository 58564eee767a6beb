/** The string and path primitives the Maven coordinates and the transfer
    command are built from: prefix tests, first/last occurrence of a
    character, splitting and joining at a separator, character replacement,
    the last element of a slash-separated path and its extension. */
module Text {

  predicate HasPrefix(s: string, p: string) {
    |p| <= |s| && s[..|p|] == p
  }

  /** `s` without the prefix `p`; `s` itself when `p` is not a prefix. */
  function TrimPrefix(s: string, p: string): (r: string)
    ensures HasPrefix(s, p) ==> p + r == s
    ensures !HasPrefix(s, p) ==> r == s
  {
    if HasPrefix(s, p) then s[|p|..] else s
  }

  /** Position of the first `ch` in `s`, or -1 when there is none. */
  function IndexOf(s: string, ch: char): (r: int)
    ensures -1 <= r < |s|
    ensures r < 0 <==> ch !in s
    ensures 0 <= r ==> s[r] == ch
  {
    if |s| == 0 then -1
    else if s[0] == ch then 0
    else
      var i := IndexOf(s[1..], ch);
      if i < 0 then -1 else i + 1
  }

  /** No `ch` comes before the index `IndexOf` reports. */
  lemma {:induction false} IndexOfIsFirst(s: string, ch: char)
    ensures IndexOf(s, ch) >= 0 ==> ch !in s[..IndexOf(s, ch)]
    decreases |s|
  {
    if |s| > 0 && s[0] != ch {
      var i := IndexOf(s[1..], ch);
      IndexOfIsFirst(s[1..], ch);
      if i >= 0 {
        assert s[..i + 1] == [s[0]] + s[1..][..i];
      }
    }
  }

  /** Position of the last `ch` in `s`, or -1 when there is none. */
  function LastIndexOf(s: string, ch: char): (r: int)
    ensures -1 <= r < |s|
    ensures r < 0 <==> ch !in s
    ensures 0 <= r ==> s[r] == ch && ch !in s[r + 1..]
  {
    if |s| == 0 then -1
    else if s[|s| - 1] == ch then |s| - 1
    else
      var i := LastIndexOf(s[..|s| - 1], ch);
      assert s == s[..|s| - 1] + [s[|s| - 1]];
      i
  }

  /** Number of occurrences of `ch` in `s`. */
  function Count(s: string, ch: char): nat {
    if |s| == 0 then 0 else (if s[0] == ch then 1 else 0) + Count(s[1..], ch)
  }

  /** The pieces of `s` between occurrences of `sep`, in order; never empty. */
  function Split(s: string, sep: char): (parts: seq<string>)
    ensures |parts| >= 1
    ensures forall i :: 0 <= i < |parts| ==> sep !in parts[i]
    decreases |s|
  {
    var i := IndexOf(s, sep);
    IndexOfIsFirst(s, sep);
    if i < 0 then [s] else [s[..i]] + Split(s[i + 1..], sep)
  }

  /** `parts` with `sep` between neighbours. */
  function JoinWith(parts: seq<string>, sep: char): string
    requires |parts| >= 1
  {
    if |parts| == 1 then parts[0] else parts[0] + [sep] + JoinWith(parts[1..], sep)
  }

  /** A string without the separator is its own single piece. */
  lemma SplitPlain(s: string, sep: char)
    requires sep !in s
    ensures Split(s, sep) == [s]
  {
  }

  /** Splitting yields one more piece than there are separators. */
  lemma {:induction false} SplitLength(s: string, sep: char)
    ensures |Split(s, sep)| == Count(s, sep) + 1
    decreases |s|
  {
    var i := IndexOf(s, sep);
    if i < 0 {
      CountAbsent(s, sep);
    } else {
      var rest := s[i + 1..];
      SplitUnfold(s, sep);
      SplitLength(rest, sep);
      IndexOfIsFirst(s, sep);
      CountAfterFirst(s, sep, i);
    }
  }

  /** Splitting at a first separator: the piece before it, then the pieces after it. */
  lemma SplitUnfold(s: string, sep: char)
    ensures IndexOf(s, sep) >= 0 ==>
      Split(s, sep) == [s[..IndexOf(s, sep)]] + Split(s[IndexOf(s, sep) + 1..], sep)
  {
  }

  /** The first `ch` counts once, before the rest is counted. */
  lemma CountAfterFirst(s: string, ch: char, i: nat)
    requires i < |s| && s[i] == ch && ch !in s[..i]
    ensures Count(s, ch) == 1 + Count(s[i + 1..], ch)
  {
    var tail := [ch] + s[i + 1..];
    assert s == s[..i] + tail;
    CountAppend(s[..i], tail, ch);
    CountAbsent(s[..i], ch);
    assert tail[1..] == s[i + 1..];
  }

  lemma {:induction false} CountAbsent(s: string, ch: char)
    requires ch !in s
    ensures Count(s, ch) == 0
    decreases |s|
  {
    if |s| > 0 {
      assert forall c :: c in s[1..] ==> c in s;
      CountAbsent(s[1..], ch);
    }
  }

  lemma {:induction false} CountAppend(a: string, b: string, ch: char)
    ensures Count(a + b, ch) == Count(a, ch) + Count(b, ch)
    decreases |a|
  {
    if |a| > 0 {
      assert (a + b)[1..] == a[1..] + b;
      CountAppend(a[1..], b, ch);
    } else {
      assert a + b == b;
    }
  }

  /** Splitting a joined list of separator-free pieces gives the pieces back. */
  lemma {:induction false} SplitJoin(parts: seq<string>, sep: char)
    requires |parts| >= 1
    requires forall i :: 0 <= i < |parts| ==> sep !in parts[i]
    ensures Split(JoinWith(parts, sep), sep) == parts
    decreases |parts|
  {
    if |parts| == 1 {
      assert IndexOf(parts[0], sep) < 0;
    } else {
      var s := JoinWith(parts, sep);
      var rest := JoinWith(parts[1..], sep);
      assert s == parts[0] + [sep] + rest;
      SplitAtFirst(parts[0], rest, sep);
      SplitJoin(parts[1..], sep);
      assert [parts[0]] + parts[1..] == parts;
    }
  }

  /** Splitting `a + sep + b` for a separator-free `a` peels `a` off. */
  lemma SplitAtFirst(a: string, b: string, sep: char)
    requires sep !in a
    ensures Split(a + [sep] + b, sep) == [a] + Split(b, sep)
  {
    var s := a + [sep] + b;
    assert s[..|a|] == a;
    assert s[|a|] == sep;
    IndexOfFirst(s, sep, |a|);
    assert s[|a| + 1..] == b;
  }

  /** Pieces of a concatenation around a separator. */
  lemma {:induction false} SplitAround(a: string, b: string, sep: char)
    ensures Split(a + [sep] + b, sep) == Split(a, sep) + Split(b, sep)
    decreases |a|
  {
    var i := IndexOf(a, sep);
    if i < 0 {
      SplitAtFirst(a, b, sep);
    } else {
      SplitAround(a[i + 1..], b, sep);
      SplitAroundStep(a, b, sep, i);
    }
  }

  /** The inductive step of `SplitAround`: peel the piece before the first
      separator of `a`. */
  lemma SplitAroundStep(a: string, b: string, sep: char, i: nat)
    requires i == IndexOf(a, sep)
    requires Split(a[i + 1..] + [sep] + b, sep) == Split(a[i + 1..], sep) + Split(b, sep)
    ensures Split(a + [sep] + b, sep) == Split(a, sep) + Split(b, sep)
  {
    SplitUnfold(a, sep);
    SplitPeelAround(a, b, sep, i);
    SeqAssoc([a[..i]], Split(a[i + 1..], sep), Split(b, sep));
  }

  /** The first separator of `a` is also the first of `a + sep + b`. */
  lemma SplitPeelAround(a: string, b: string, sep: char, i: nat)
    requires i == IndexOf(a, sep)
    ensures Split(a + [sep] + b, sep) == [a[..i]] + Split(a[i + 1..] + [sep] + b, sep)
  {
    var head, a' := a[..i], a[i + 1..];
    IndexOfIsFirst(a, sep);
    assert a == head + [sep] + a';
    assert head + [sep] + a' + [sep] + b == head + [sep] + (a' + [sep] + b) by {
      SeqAssoc(head + [sep] + a', [sep], b);
      SeqAssoc(head + [sep], a', [sep] + b);
      SeqAssoc(a', [sep], b);
    }
    SplitAtFirst(head, a' + [sep] + b, sep);
  }

  /** Pieces of three strings joined by two separators. */
  lemma SplitAround3(x: string, y: string, z: string, sep: char)
    ensures Split(x + [sep] + y + [sep] + z, sep) == Split(x, sep) + Split(y, sep) + Split(z, sep)
  {
    assert x + [sep] + y + [sep] + z == x + [sep] + (y + [sep] + z) by {
      SeqAssoc(x + [sep] + y, [sep], z);
      SeqAssoc(x + [sep], y, [sep] + z);
      SeqAssoc(y, [sep], z);
    }
    SplitAround(y, z, sep);
    SplitAround(x, y + [sep] + z, sep);
    SeqAssoc(Split(x, sep), Split(y, sep), Split(z, sep));
  }

  lemma SeqAssoc<T>(x: seq<T>, y: seq<T>, z: seq<T>)
    ensures x + y + z == x + (y + z)
  {
  }

  /** `s` with every `from` replaced by `to`. */
  function ReplaceAll(s: string, from: char, to: char): (r: string)
    ensures |r| == |s|
    ensures forall i :: 0 <= i < |s| ==> r[i] == (if s[i] == from then to else s[i])
  {
    if |s| == 0 then "" else [if s[0] == from then to else s[0]] + ReplaceAll(s[1..], from, to)
  }

  /** `s` without its trailing run of slashes. */
  function TrimTrailingSlashes(s: string): (r: string)
    ensures |r| <= |s| && r == s[..|r|]
    ensures |r| > 0 ==> r[|r| - 1] != '/'
    ensures forall i :: |r| <= i < |s| ==> s[i] == '/'
  {
    if |s| > 0 && s[|s| - 1] == '/' then TrimTrailingSlashes(s[..|s| - 1]) else s
  }

  /** The last element of a slash-separated path: "." for the empty path,
      "/" for a path of slashes only. */
  function Base(p: string): (r: string)
    ensures |r| > 0
  {
    if p == "" then "."
    else
      var t := TrimTrailingSlashes(p);
      if t == "" then "/" else t[LastIndexOf(t, '/') + 1..]
  }

  /** The extension of the last path element: the suffix from its final '.',
      or "" when that element has no '.'. */
  function Ext(p: string): (r: string)
    ensures r == "" || (r[0] == '.' && '.' !in r[1..] && '/' !in r)
    ensures |r| <= |p| && r == p[|p| - |r|..]
  {
    if |p| == 0 || p[|p| - 1] == '/' then ""
    else if p[|p| - 1] == '.' then "."
    else
      var e := Ext(p[..|p| - 1]);
      if e == "" then "" else e + [p[|p| - 1]]
  }

  /** The pieces before and after the first separator determine a
      concatenation around it uniquely. */
  lemma SplitUnique(a: string, b: string, a': string, b': string, sep: char)
    requires sep !in a && sep !in a'
    requires a + [sep] + b == a' + [sep] + b'
    ensures a == a' && b == b'
  {
    SplitAtFirst(a, b, sep);
    SplitAtFirst(a', b', sep);
    assert ([a] + Split(b, sep))[0] == a;
    assert |a| == |a'|;
    assert (a + [sep] + b)[|a| + 1..] == b;
    assert (a' + [sep] + b')[|a'| + 1..] == b';
  }

  /** Replacing `from` by a character `to` that `s` lacks turns the pieces
      between `from`s into the pieces between `to`s. */
  lemma {:induction false} SplitReplaced(s: string, from: char, to: char)
    requires to !in s
    ensures Split(ReplaceAll(s, from, to), to) == Split(s, from)
    decreases |s|
  {
    var r := ReplaceAll(s, from, to);
    var i := IndexOf(s, from);
    if i < 0 {
      ReplaceAllAbsent(s, from, to);
    } else {
      assert forall c :: c in s[..i] ==> c in s;
      assert forall c :: c in s[i + 1..] ==> c in s;
      IndexOfIsFirst(s, from);
      ReplaceAllAbsent(s[..i], from, to);
      ReplaceAllSlices(s, from, to, i);
      IndexOfFirst(r, to, i);
      assert Split(r, to) == [s[..i]] + Split(ReplaceAll(s[i + 1..], from, to), to);
      SplitReplaced(s[i + 1..], from, to);
    }
  }

  /** Replacing a character that does not occur changes nothing. */
  lemma ReplaceAllAbsent(s: string, from: char, to: char)
    requires from !in s
    ensures ReplaceAll(s, from, to) == s
  {
    assert forall k :: 0 <= k < |s| ==> s[k] != from;
  }

  /** Replacement works position by position, so it commutes with slicing. */
  lemma ReplaceAllSlices(s: string, from: char, to: char, i: nat)
    requires i < |s|
    ensures ReplaceAll(s, from, to)[..i] == ReplaceAll(s[..i], from, to)
    ensures ReplaceAll(s, from, to)[i + 1..] == ReplaceAll(s[i + 1..], from, to)
  {
  }

  /** A position holding `ch` with no `ch` before it is the first index of `ch`. */
  lemma IndexOfFirst(s: string, ch: char, i: nat)
    requires i < |s| && s[i] == ch && ch !in s[..i]
    ensures IndexOf(s, ch) == i
  {
    assert forall k :: 0 <= k < i ==> s[..i][k] == s[k];
    var r := IndexOf(s, ch);
    IndexOfIsFirst(s, ch);
    assert forall k :: 0 <= k < r ==> s[..r][k] == s[k];
  }

  /** A non-empty slash-free path is its own last element. */
  lemma BaseOfPlain(s: string)
    requires s != "" && '/' !in s
    ensures Base(s) == s
  {
    assert TrimTrailingSlashes(s) == s;
  }

  /** The last element of `dir/name` is `name`. */
  lemma BaseAfterSlash(dir: string, name: string)
    requires name != "" && '/' !in name
    ensures Base(dir + "/" + name) == name
  {
    var p := dir + "/" + name;
    assert p[|p| - 1] == name[|name| - 1];
    assert TrimTrailingSlashes(p) == p;
    var i := LastIndexOf(p, '/');
    assert p[|dir|] == '/';
    assert p[|dir| + 1..] == name;
    assert i == |dir|;
  }

  /** The extension of `s.x` for a dot- and slash-free `x` is `.x`. */
  lemma {:induction false} ExtOfDotted(s: string, x: string)
    requires '.' !in x && '/' !in x
    ensures Ext(s + "." + x) == "." + x
    decreases |x|
  {
    if |x| == 0 {
      var p := s + ".";
      assert s + "." + x == p;
      assert p[|p| - 1] == '.';
    } else {
      var x', c := x[..|x| - 1], x[|x| - 1];
      assert x == x' + [c];
      assert s + "." + x == (s + "." + x') + [c];
      assert forall ch :: ch in x' ==> ch in x;
      ExtOfDotted(s, x');
      ExtSnoc(s + "." + x', c);
      SeqAssoc(".", x', [c]);
    }
  }

  /** One more ordinary character extends a present extension. */
  lemma ExtSnoc(p: string, c: char)
    requires c != '.' && c != '/'
    ensures Ext(p + [c]) == if Ext(p) == "" then "" else Ext(p) + [c]
  {
    var q := p + [c];
    assert q[..|q| - 1] == p;
  }
}
