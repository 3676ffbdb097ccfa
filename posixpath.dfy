/** The two `posixpath` functions the file builder uses: `normpath` and the
    two-argument `join`, on POSIX paths. */
module PosixPath {
  import opened PyStr

  /** `s.split("/")`: the pieces between slashes, always at least one. */
  function Split(s: string): (parts: seq<string>)
    ensures |parts| > 0
    ensures forall i :: 0 <= i < |parts| ==> '/' !in parts[i]
    decreases |s|
  {
    if |s| == 0 then [""]
    else
      var rest := Split(s[1..]);
      if s[0] == '/' then [""] + rest
      else [[s[0]] + rest[0]] + rest[1..]
  }

  /** `"/".join(parts)` */
  function JoinSlash(parts: seq<string>): string
    decreases |parts|
  {
    if |parts| == 0 then ""
    else if |parts| == 1 then parts[0]
    else parts[0] + "/" + JoinSlash(parts[1..])
  }

  /** Joining the pieces of a split gives back the string. */
  lemma {:induction false} JoinSplit(s: string)
    ensures JoinSlash(Split(s)) == s
    decreases |s|
  {
    if |s| > 0 {
      var rest := Split(s[1..]);
      JoinSplit(s[1..]);
      if s[0] == '/' {
        assert Split(s) == [""] + rest;
        assert ([""] + rest)[1..] == rest;
        assert s == "" + "/" + s[1..];
      } else {
        var parts := Split(s);
        assert parts[1..] == rest[1..];
        if |rest| == 1 {
          assert s == [s[0]] + rest[0];
        } else {
          assert JoinSlash(rest) == rest[0] + "/" + JoinSlash(rest[1..]);
          assert s == [s[0]] + (rest[0] + "/" + JoinSlash(rest[1..]));
        }
      }
    }
  }

  /** A string without a slash is one piece. */
  lemma {:induction false} SplitName(a: string)
    requires '/' !in a
    ensures Split(a) == [a]
    decreases |a|
  {
    if |a| > 0 {
      assert '/' !in a[1..] by {
        forall i | 0 <= i < |a[1..]| ensures a[1..][i] != '/' {
          assert a[1..][i] == a[i + 1];
        }
      }
      SplitName(a[1..]);
      assert a == [a[0]] + a[1..];
    }
  }

  /** Splitting strips off a leading slash-free piece. */
  lemma {:induction false} SplitCons(a: string, t: string)
    requires '/' !in a
    ensures Split(a + "/" + t) == [a] + Split(t)
    decreases |a|
  {
    if |a| == 0 {
      assert a + "/" + t == "/" + t;
      assert ("/" + t)[1..] == t;
    } else {
      var s := a + "/" + t;
      assert s[1..] == a[1..] + "/" + t;
      assert '/' !in a[1..] by {
        forall i | 0 <= i < |a[1..]| ensures a[1..][i] != '/' {
          assert a[1..][i] == a[i + 1];
        }
      }
      SplitCons(a[1..], t);
      assert a == [a[0]] + a[1..];
    }
  }

  /** Splitting undoes joining pieces that hold no slash. */
  lemma {:induction false} SplitJoin(parts: seq<string>)
    requires |parts| > 0
    requires forall i :: 0 <= i < |parts| ==> '/' !in parts[i]
    ensures Split(JoinSlash(parts)) == parts
    decreases |parts|
  {
    if |parts| == 1 {
      SplitName(parts[0]);
    } else {
      SplitJoin(parts[1..]);
      SplitCons(parts[0], JoinSlash(parts[1..]));
      assert parts == [parts[0]] + parts[1..];
    }
  }

  /** A component `normpath` keeps in an absolute path. */
  predicate IsName(c: string) {
    c != "" && c != "." && c != ".." && '/' !in c
  }

  predicate AllNames(cs: seq<string>) {
    forall i :: 0 <= i < |cs| ==> IsName(cs[i])
  }

  /** The component loop of `normpath`: empty and `.` components are dropped,
      `..` removes the last kept component, except that in a relative path a
      `..` with nothing (or only `..`) before it is kept, and in an absolute
      path a `..` at the root is dropped. */
  function Resolve(kept: seq<string>, comps: seq<string>, absolute: bool): seq<string>
    decreases |comps|
  {
    if |comps| == 0 then kept
    else
      var c := comps[0];
      var next :=
        if c == "" || c == "." then kept
        else if c != ".." || (!absolute && |kept| == 0) || (|kept| > 0 && kept[|kept| - 1] == "..") then kept + [c]
        else if |kept| > 0 then kept[..|kept| - 1]
        else kept;
      Resolve(next, comps[1..], absolute)
  }

  /** The leading slashes `normpath` keeps: POSIX gives exactly two leading
      slashes a meaning of their own, while three or more count as one. */
  function LeadingSlashes(path: string): string
  {
    if StartsWith(path, "//") && !StartsWith(path, "///") then "//"
    else if StartsWith(path, "/") then "/"
    else ""
  }

  /** `posixpath.normpath(path)` */
  function NormPath(path: string): string
  {
    if path == "" then "."
    else
      var initial := LeadingSlashes(path);
      var p := initial + JoinSlash(Resolve([], Split(path), initial != ""));
      if p == "" then "." else p
  }

  /** `posixpath.join(a, b)`: an absolute `b` replaces `a`; otherwise a slash
      is put between them unless `a` is empty or already ends with one. */
  function JoinPath(a: string, b: string): string
  {
    if StartsWith(b, "/") then b
    else if a == "" || EndsWith(a, "/") then a + b
    else a + "/" + b
  }

  /** In an absolute path, the loop keeps names only. */
  lemma {:induction false} ResolveAbsoluteNames(kept: seq<string>, comps: seq<string>)
    requires AllNames(kept)
    requires forall i :: 0 <= i < |comps| ==> '/' !in comps[i]
    ensures AllNames(Resolve(kept, comps, true))
    decreases |comps|
  {
    if |comps| > 0 {
      var c := comps[0];
      var next :=
        if c == "" || c == "." then kept
        else if c != ".." || (|kept| > 0 && kept[|kept| - 1] == "..") then kept + [c]
        else if |kept| > 0 then kept[..|kept| - 1]
        else kept;
      assert AllNames(next);
      ResolveAbsoluteNames(next, comps[1..]);
    }
  }

  /** Names pass through the loop unchanged. */
  lemma {:induction false} ResolveNames(kept: seq<string>, comps: seq<string>)
    requires AllNames(kept) && AllNames(comps)
    ensures Resolve(kept, comps, true) == kept + comps
    decreases |comps|
  {
    if |comps| > 0 {
      ResolveNames(kept + [comps[0]], comps[1..]);
      assert kept + [comps[0]] + comps[1..] == kept + comps;
    }
  }

  lemma {:induction false} JoinNamesShape(cs: seq<string>)
    requires AllNames(cs)
    ensures JoinSlash(cs) == "" <==> cs == []
    ensures cs != [] ==> JoinSlash(cs)[0] != '/' && JoinSlash(cs)[|JoinSlash(cs)| - 1] != '/'
    decreases |cs|
  {
    if |cs| == 1 {
      assert cs[0][0] in cs[0];
      assert cs[0][|cs[0]| - 1] in cs[0];
    } else if |cs| > 1 {
      JoinNamesShape(cs[1..]);
      assert cs[0][0] in cs[0];
    }
  }

  /** The result of normalising an absolute path: its kept leading slashes,
      then its names joined by single slashes. */
  lemma NormPathAbsoluteShape(path: string)
    requires StartsWith(path, "/")
    ensures LeadingSlashes(path) == "/" || LeadingSlashes(path) == "//"
    ensures AllNames(Resolve([], Split(path), true))
    ensures NormPath(path) == LeadingSlashes(path) + JoinSlash(Resolve([], Split(path), true))
  {
    ResolveAbsoluteNames([], Split(path));
  }

  /** Names joined by slashes split back into the names (an empty list
      joins to the empty string, which is one empty piece). */
  lemma SplitNames(cs: seq<string>)
    requires AllNames(cs)
    ensures Split(JoinSlash(cs)) == (if cs == [] then [""] else cs)
  {
    if cs == [] {
      assert Split("") == [""];
    } else {
      assert forall i :: 0 <= i < |cs| ==> '/' !in cs[i];
      SplitJoin(cs);
    }
  }

  /** A leading slash splits off an empty piece. */
  lemma SplitSlashFront(t: string)
    ensures Split("/" + t) == [""] + Split(t)
  {
    SplitCons("", t);
    assert "" + "/" + t == "/" + t;
  }

  /** A leading empty piece is skipped by the loop. */
  lemma ResolveSkipsEmpty(cs: seq<string>)
    ensures Resolve([], [""] + cs, true) == Resolve([], cs, true)
  {
    assert ([""] + cs)[1..] == cs;
  }

  /** A path made of one or two leading slashes and names is already normal. */
  lemma NormPathOfNormal(pre: string, cs: seq<string>)
    requires pre == "/" || pre == "//"
    requires AllNames(cs)
    ensures NormPath(pre + JoinSlash(cs)) == pre + JoinSlash(cs)
  {
    LeadingOfNormal(pre, cs);
    ResolveOfNormal(pre, cs);
  }

  lemma LeadingOfNormal(pre: string, cs: seq<string>)
    requires pre == "/" || pre == "//"
    requires AllNames(cs)
    ensures LeadingSlashes(pre + JoinSlash(cs)) == pre
  {
    var j := JoinSlash(cs);
    var p := pre + j;
    JoinNamesShape(cs);
    assert p[..1] == "/";
    if pre == "//" {
      assert p[..2] == "//";
      if cs != [] {
        assert p[2] == j[0];
      }
    } else if cs != [] {
      assert p[1] == j[0];
    }
  }

  lemma ResolveOfNormal(pre: string, cs: seq<string>)
    requires pre == "/" || pre == "//"
    requires AllNames(cs)
    ensures Resolve([], Split(pre + JoinSlash(cs)), true) == cs
  {
    ResolveOfNames(cs);
    ResolveOfSlashNames(JoinSlash(cs), cs);
    if pre == "//" {
      ResolveOfSlashNames("/" + JoinSlash(cs), cs);
      assert "//" + JoinSlash(cs) == "/" + ("/" + JoinSlash(cs));
    }
  }

  /** One more leading slash does not change what the loop keeps. */
  lemma ResolveOfSlashNames(t: string, cs: seq<string>)
    requires Resolve([], Split(t), true) == cs
    ensures Resolve([], Split("/" + t), true) == cs
  {
    SplitSlashFront(t);
    ResolveSkipsEmpty(Split(t));
  }

  lemma ResolveOfNames(cs: seq<string>)
    requires AllNames(cs)
    ensures Resolve([], Split(JoinSlash(cs)), true) == cs
  {
    SplitNames(cs);
    if cs == [] {
      ResolveSkipsEmpty([]);
      assert [""] + [] == [""];
    } else {
      ResolveNames([], cs);
      assert [] + cs == cs;
    }
  }

  /** Normalising an absolute path twice gives what normalising once does. */
  lemma NormPathIdempotent(path: string)
    requires StartsWith(path, "/")
    ensures NormPath(NormPath(path)) == NormPath(path)
  {
    NormPathAbsoluteShape(path);
    NormPathOfNormal(LeadingSlashes(path), Resolve([], Split(path), true));
  }

  /** The normal form of an absolute path ends in a slash only when it is the
      root itself (`/` or `//`). */
  lemma NormPathNoTrailingSlash(path: string)
    requires StartsWith(path, "/")
    ensures StartsWith(NormPath(path), "/")
    ensures EndsWith(NormPath(path), "/") ==> NormPath(path) == "/" || NormPath(path) == "//"
  {
    NormPathAbsoluteShape(path);
    JoinNamesShape(Resolve([], Split(path), true));
  }

  /** `normpath` of an absolute path given by its pieces and the names the
      loop keeps of them. */
  lemma NormPathOfParts(parts: seq<string>, kept: seq<string>)
    requires |parts| >= 2 && parts[0] == ""
    requires forall i :: 0 <= i < |parts| ==> '/' !in parts[i]
    requires Resolve([], parts, true) == kept
    ensures NormPath(JoinSlash(parts)) == LeadingSlashes(JoinSlash(parts)) + JoinSlash(kept)
    ensures StartsWith(JoinSlash(parts), "/")
  {
    var path := JoinSlash(parts);
    SplitJoin(parts);
    assert path == "" + "/" + JoinSlash(parts[1..]);
    assert path[..1] == "/";
  }

  /** `..` climbs out of the directory it follows: `/d/../n` is `/n`. */
  lemma NormPathClimbs(d: string, n: string)
    requires IsName(d) && IsName(n)
    ensures NormPath("/" + d + "/../" + n) == "/" + n
  {
    var parts := ["", d, "..", n];
    ClimbsJoin(d, n);
    ClimbsResolve(d, n);
    NormPathOfParts(parts, [n]);
    ClimbsLeading(d, n);
  }

  lemma ClimbsJoin(d: string, n: string)
    ensures JoinSlash(["", d, "..", n]) == "/" + d + "/../" + n
  {
    assert ["", d, "..", n][1..] == [d, "..", n];
    assert [d, "..", n][1..] == ["..", n];
    assert ["..", n][1..] == [n];
    assert JoinSlash([n]) == n;
    assert JoinSlash(["..", n]) == ".." + "/" + n;
    assert JoinSlash([d, "..", n]) == d + "/" + (".." + "/" + n);
    assert JoinSlash(["", d, "..", n]) == "" + "/" + (d + "/" + (".." + "/" + n));
    assert "/../" == "/" + ".." + "/";
    Regroup("/", "..", d, n);
  }

  lemma Regroup<T>(sep: seq<T>, up: seq<T>, d: seq<T>, n: seq<T>)
    ensures sep + d + (sep + up + sep) + n == [] + sep + (d + sep + (up + sep + n))
  {
  }

  lemma ClimbsResolve(d: string, n: string)
    requires IsName(d) && IsName(n)
    ensures Resolve([], ["", d, "..", n], true) == [n]
  {
    assert ["", d, "..", n][1..] == [d, "..", n];
    assert [d, "..", n][1..] == ["..", n];
    assert ["..", n][1..] == [n];
    assert [n][1..] == [];
    assert [d][..0] == [];
    assert Resolve([n], [], true) == [n];
    assert Resolve([], [n], true) == [n];
    assert Resolve([d], ["..", n], true) == [n];
    assert Resolve([], [d, "..", n], true) == [n];
  }

  lemma ClimbsLeading(d: string, n: string)
    requires IsName(d)
    ensures LeadingSlashes("/" + d + "/../" + n) == "/"
  {
    var p := "/" + d + "/../" + n;
    assert d[0] in d;
    assert p[..2][1] == d[0];
  }

  /** Exactly two leading slashes are kept. */
  lemma NormPathKeepsTwoSlashes(n: string)
    requires IsName(n)
    ensures NormPath("//" + n) == "//" + n
  {
    NormPathOfNormal("//", [n]);
  }

  /** Three or more leading slashes become one. */
  lemma NormPathCollapsesThreeSlashes(n: string)
    requires IsName(n)
    ensures NormPath("///" + n) == "/" + n
  {
    var parts := ["", "", "", n];
    assert parts[1..] == ["", "", n];
    assert ["", "", n][1..] == ["", n];
    assert ["", n][1..] == [n];
    assert [n][1..] == [];
    assert JoinSlash([n]) == n;
    assert JoinSlash(["", n]) == "" + "/" + n;
    assert JoinSlash(["", "", n]) == "" + "/" + ("" + "/" + n);
    assert JoinSlash(parts) == "///" + n;
    assert Resolve([n], [], true) == [n];
    assert Resolve([], [n], true) == [n];
    assert Resolve([], ["", n], true) == [n];
    assert Resolve([], ["", "", n], true) == [n];
    NormPathOfParts(parts, [n]);
    assert ("///" + n)[..3] == "///";
  }
}
