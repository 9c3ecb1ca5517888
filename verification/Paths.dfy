/** Paths as strings: normalising, splitting, and comparing by component. */
module Paths {
  import opened Common

  /** A name between two slashes. */
  predicate IsName(c: string) {
    c != "" && '/' !in c
  }

  predicate AreNames(cs: seq<string>) {
    forall i :: 0 <= i < |cs| ==> IsName(cs[i])
  }

  /** The position of the first slash, or the length. */
  function FirstSlash(s: string): (n: nat)
    ensures n <= |s| && '/' !in s[..n] && (n < |s| ==> s[n] == '/')
  {
    if s == "" || s[0] == '/' then 0 else 1 + FirstSlash(s[1..])
  }

  lemma {:induction false} FirstSlashIs(c: string, rest: string)
    requires '/' !in c && (rest == "" || rest[0] == '/')
    ensures FirstSlash(c + rest) == |c|
  {
    if c == "" {
      assert c + rest == rest;
    } else {
      assert (c + rest)[1..] == c[1..] + rest;
      FirstSlashIs(c[1..], rest);
    }
  }

  /** The names of a path, wherever its slashes are. */
  function Names(s: string): (cs: seq<string>)
    ensures AreNames(cs)
    decreases |s|
  {
    if s == "" then []
    else if s[0] == '/' then Names(s[1..])
    else
      var n := FirstSlash(s);
      [s[..n]] + Names(s[n..])
  }

  function Slashed(cs: seq<string>): string {
    if cs == [] then "" else "/" + cs[0] + Slashed(cs[1..])
  }

  /** The one normal way to write an absolute path. */
  function Absolute(cs: seq<string>): string {
    if cs == [] then "/" else Slashed(cs)
  }

  lemma {:induction false} NamesStep(c: string, rest: string)
    requires IsName(c) && (rest == "" || rest[0] == '/')
    ensures Names("/" + c + rest) == [c] + Names(rest)
  {
    var s := "/" + c + rest;
    assert s[1..] == c + rest;
    FirstSlashIs(c, rest);
    assert (c + rest)[0] in c;
    assert (c + rest)[..|c|] == c && (c + rest)[|c|..] == rest;
  }

  lemma {:induction false} NamesOfSlashed(cs: seq<string>)
    requires AreNames(cs)
    ensures Names(Slashed(cs)) == cs && Names(Absolute(cs)) == cs
    ensures cs != [] ==> Slashed(cs) != "" && Slashed(cs)[0] == '/'
  {
    hide Names;
    if cs == [] {
      NamesOfRoot();
    } else {
      NamesOfSlashed(cs[1..]);
      NamesStep(cs[0], Slashed(cs[1..]));
    }
  }

  lemma {:induction false} NamesOfRoot()
    ensures Names("") == [] && Names("/") == []
  {
    assert "/"[1..] == "";
  }

  /** The names of two paths put together are the names of both. */
  lemma {:induction false} NamesOfJoined(s: string, t: string)
    ensures Names(s + "/" + t) == Names(s) + Names(t)
    decreases |s|
  {
    var st := s + "/" + t;
    if s == "" {
      assert st[1..] == t;
    } else if s[0] == '/' {
      assert st[1..] == s[1..] + "/" + t;
      NamesOfJoined(s[1..], t);
    } else {
      var n := FirstSlash(s);
      assert st == s[..n] + (s[n..] + "/" + t);
      FirstSlashIs(s[..n], s[n..] + "/" + t);
      assert st[n..] == s[n..] + "/" + t;
      NamesOfJoined(s[n..], t);
    }
  }

  /** Runs of slashes replaced by one. */
  function Collapse(s: string): string {
    if |s| < 2 then s
    else if s[0] == '/' && s[1] == '/' then Collapse(s[1..])
    else [s[0]] + Collapse(s[1..])
  }

  function NormalizePath(s: string): string {
    var p := Collapse(s);
    if |p| > 1 && p[|p| - 1] == '/' then TrimEnd(p) else p
  }

  function TrimEnd(s: string): string {
    if s != "" && s[|s| - 1] == '/' then TrimEnd(s[..|s| - 1]) else s
  }

  lemma {:induction false} CollapseName(c: string, rest: string)
    requires '/' !in c && (rest == "" || rest[0] == '/')
    ensures Collapse(c + rest) == c + Collapse(rest)
  {
    if c == "" {
      assert c + rest == rest;
    } else {
      assert (c + rest)[1..] == c[1..] + rest;
      CollapseName(c[1..], rest);
      if |c + rest| < 2 {
        assert rest == "" && c[1..] == "";
      }
    }
  }

  lemma {:induction false} CollapseSlashName(s: string, n: nat)
    requires |s| > 1 && s[0] == '/' && s[1] != '/' && n == FirstSlash(s[1..])
    ensures n > 0 && Collapse(s) == "/" + s[1..1 + n] + Collapse(s[1 + n..])
    ensures Names(s) == [s[1..1 + n]] + Names(s[1 + n..])
  {
    var t := s[1..];
    assert t[n..] == s[1 + n..] && t[..n] == s[1..1 + n];
    assert t == t[..n] + t[n..];
    CollapseName(t[..n], t[n..]);
  }

  lemma {:induction false} OnlySlashes(s: string)
    requires s != "" && Names(s) == []
    ensures s[|s| - 1] == '/'
  {
    if |s| > 1 {
      OnlySlashes(s[1..]);
    }
  }

  /** A slash where a path ends behind its last name. */
  function EndSlash(s: string): string
    requires s != ""
  {
    if Names(s) != [] && s[|s| - 1] == '/' then "/" else ""
  }

  /** The step over one name, when the rest has been collapsed. */
  lemma {:induction false} CollapseOver(s: string, n: nat, rest: string)
    requires |s| > 1 && s[0] == '/' && s[1] != '/' && n == FirstSlash(s[1..]) && rest == s[1 + n..]
    requires rest != "" ==> rest[0] == '/' && Collapse(rest) == Absolute(Names(rest)) + EndSlash(rest)
    ensures Collapse(s) == Absolute(Names(s)) + EndSlash(s)
  {
    var c := s[1..1 + n];
    CollapseSlashName(s, n);
    hide Names, Collapse;
    assert ([c] + Names(rest))[1..] == Names(rest);
    assert Absolute(Names(s)) == "/" + c + Slashed(Names(rest));
    if rest == "" {
      assert s[|s| - 1] == s[1..][|s| - 2] && s[1..][..n] == s[1..];
      CollapseNothing();
    } else {
      assert rest[|rest| - 1] == s[|s| - 1];
      if Names(rest) == [] {
        OnlySlashes(rest);
      }
    }
  }

  lemma {:induction false} CollapseNothing()
    ensures Collapse("") == "" && Names("") == []
  {
  }

  /** Collapsing keeps the names, and at most one slash at the end. */
  lemma {:induction false} CollapseIs(s: string)
    requires s != "" && s[0] == '/'
    ensures Collapse(s) == Absolute(Names(s)) + EndSlash(s)
    decreases |s|
  {
    if |s| == 1 {
      assert s == "/";
      NamesOfRoot();
    } else if s[1] == '/' {
      CollapseIs(s[1..]);
    } else {
      var n := FirstSlash(s[1..]);
      var rest := s[1 + n..];
      if rest != "" {
        assert rest[0] == s[1..][n];
        CollapseIs(rest);
      }
      CollapseOver(s, n, rest);
    }
  }

  /** A normal path is neither empty nor, but for the root, ends with a slash. */
  lemma {:induction false} AbsoluteEnds(cs: seq<string>)
    requires AreNames(cs)
    ensures |Absolute(cs)| > 0 && Absolute(cs)[0] == '/'
    ensures cs != [] ==> |Absolute(cs)| > 1 && Absolute(cs)[|Absolute(cs)| - 1] != '/'
  {
    if cs != [] {
      var c, rest := cs[0], Slashed(cs[1..]);
      if |cs| > 1 {
        AbsoluteEnds(cs[1..]);
      } else {
        assert rest == "" && c[|c| - 1] in c;
      }
    }
  }

  /** Normalising an absolute path writes its names in the normal way. */
  lemma {:induction false} NormalizeIs(s: string)
    requires s != "" && s[0] == '/'
    ensures NormalizePath(s) == Absolute(Names(s))
  {
    var abs := Absolute(Names(s));
    CollapseIs(s);
    AbsoluteEnds(Names(s));
    if Names(s) != [] && s[|s| - 1] == '/' {
      assert (abs + "/")[..|abs|] == abs;
      assert TrimEnd(abs) == abs;
      assert TrimEnd(abs + "/") == abs;
    } else {
      assert abs + "" == abs;
    }
  }

  /** So it is idempotent. */
  lemma {:induction false} NormalizeTwice(s: string)
    requires s != "" && s[0] == '/'
    ensures NormalizePath(NormalizePath(s)) == NormalizePath(s)
  {
    NormalizeIs(s);
    AbsoluteEnds(Names(s));
    NormalizeIs(NormalizePath(s));
    NamesOfSlashed(Names(s));
  }

  /** Adding to a normal path. */
  lemma {:induction false} NormalizeBelow(cs: seq<string>, sub: string)
    requires AreNames(cs)
    ensures NormalizePath(Absolute(cs) + "/" + sub) == Absolute(cs + Names(sub))
  {
    AbsoluteEnds(cs);
    NormalizeIs(Absolute(cs) + "/" + sub);
    NamesOfJoined(Absolute(cs), sub);
    NamesOfSlashed(cs);
  }

  lemma {:induction false} SlashedJoined(cs: seq<string>, ds: seq<string>)
    ensures Slashed(cs + ds) == Slashed(cs) + Slashed(ds)
  {
    if cs == [] {
      assert cs + ds == ds;
    } else {
      assert (cs + ds)[1..] == cs[1..] + ds;
      SlashedJoined(cs[1..], ds);
    }
  }

  /** What is left of a normal path when a normal path above it is cut off. */
  lemma {:induction false} AbsoluteBelow(cs: seq<string>, ds: seq<string>)
    requires AreNames(cs) && AreNames(ds)
    ensures Absolute(cs) <= Absolute(cs + ds) && Names(Absolute(cs + ds)[|Absolute(cs)|..]) == ds
  {
    SlashedJoined(cs, ds);
    NamesOfSlashed(ds);
    if cs == [] {
      assert cs + ds == ds;
      if ds == [] {
        assert Absolute(cs + ds)[1..] == "";
      } else {
        assert Names(Slashed(ds)[1..]) == Names(Slashed(ds));
      }
    } else {
      assert Absolute(cs + ds)[|Absolute(cs)|..] == Slashed(ds);
    }
  }

  /** Where a path of another system lives: `scheme://authority`. */
  datatype Origin = Origin(scheme: string, authority: string)

  datatype Path = Path(origin: Option<Origin>, path: string)

  predicate IsOrigin(o: Origin) {
    o.scheme != "" && ':' !in o.scheme && '/' !in o.scheme && IsName(o.authority)
  }

  function Root(origin: Option<Origin>): string {
    if origin.None? then "" else origin.value.scheme + "://" + origin.value.authority
  }

  function FullPath(p: Path): string {
    Root(p.origin) + p.path
  }

  /** A path as parsing leaves it. */
  ghost predicate IsNormal(p: Path) {
    p.path == Absolute(Names(p.path)) && (p.origin.Some? ==> IsOrigin(p.origin.value))
  }

  predicate IsCv(p: Path) {
    p.origin.None? || p.origin.value.scheme == "cv"
  }

  function FindFirst(s: string, pat: string): (r: Option<nat>)
    ensures r.Some? ==> r.value + |pat| <= |s| && s[r.value..r.value + |pat|] == pat
  {
    if pat <= s then Some(0)
    else if s == "" then None
    else match FindFirst(s[1..], pat)
      case None => None
      case Some(i) => Some(i + 1)
  }

  /** The first occurrence cut out. */
  function CutFirst(s: string, pat: string): string {
    match FindFirst(s, pat)
    case None => s
    case Some(i) => s[..i] + s[i + |pat|..]
  }

  /** The scheme, authority and path of section 3 of RFC 3986, the path normalised. */
  function Parse(s: string): Option<Path> {
    if s == "" then None
    else if s[0] == '/' then Some(Path(None, NormalizePath(s)))
    else match FindFirst(s, "://")
      case None => None
      case Some(i) =>
        var rest := s[i + 3..];
        var n := FirstSlash(rest);
        var path := if n == |rest| then "/" else rest[n..];
        if i == 0 || n == 0 then None else Some(Path(Some(Origin(s[..i], rest[..n])), NormalizePath(path)))
  }

  lemma {:induction false} FindScheme(scheme: string, rest: string)
    requires ':' !in scheme
    ensures FindFirst(scheme + "://" + rest, "://") == Some(|scheme|)
  {
    var s := scheme + "://" + rest;
    if scheme == "" {
      assert s[..3] == "://";
    } else {
      assert s[0] in scheme;
      assert !("://" <= s);
      assert s[1..] == scheme[1..] + "://" + rest;
      FindScheme(scheme[1..], rest);
    }
  }

  /** What is parsed has no empty part, and is what the text starts with. */
  lemma {:induction false} ParseParted(s: string)
    requires Parse(s).Some?
    ensures var o := Parse(s).value.origin;
            if o.None? then s[0] == '/'
            else s[0] != '/' && o.value.scheme != "" && IsName(o.value.authority) && Root(o) <= s
  {
    hide FindFirst, NormalizePath, FirstSlash;
    if s[0] != '/' {
      var i := FindFirst(s, "://").value;
      assert s[i..i + 3] == "://";
      var n := FirstSlash(s[i + 3..]);
      assert s[..i] + "://" + s[i + 3..][..n] == s[..i + 3 + n];
    }
  }

  /** Printing and parsing again. */
  lemma {:induction false} ParseRoot(origin: Option<Origin>, path: string)
    requires (origin.Some? ==> IsOrigin(origin.value)) && path != "" && path[0] == '/'
    ensures Parse(Root(origin) + path) == Some(Path(origin, NormalizePath(path)))
  {
    hide NormalizePath, FindFirst, FirstSlash;
    if origin.None? {
      assert Root(origin) + path == path;
    } else {
      var o := origin.value;
      assert Root(origin) + path == o.scheme + "://" + (o.authority + path);
      ParseParts(o, path);
    }
  }

  lemma {:induction false} ParseParts(o: Origin, path: string)
    requires IsOrigin(o) && path != "" && path[0] == '/'
    ensures Parse(o.scheme + "://" + (o.authority + path)) == Some(Path(Some(o), NormalizePath(path)))
  {
    hide NormalizePath, FindFirst, FirstSlash;
    var rest := o.authority + path;
    var s := o.scheme + "://" + rest;
    FindScheme(o.scheme, rest);
    FirstSlashIs(o.authority, path);
    assert s[0] in o.scheme;
    assert s[..|o.scheme|] == o.scheme;
    assert s[|o.scheme| + 3..] == rest;
    assert rest[|o.authority|..] == path;
    assert rest[..|o.authority|] == o.authority;
  }

  /** A normal path read back from its own text. */
  lemma {:induction false} ParseFullPath(p: Path)
    requires IsNormal(p)
    ensures Parse(FullPath(p)) == Some(p)
  {
    AbsoluteEnds(Names(p.path));
    ParseRoot(p.origin, p.path);
    NormalizeIs(p.path);
  }

  function Split(s: string): (parts: seq<string>)
    ensures parts != []
    decreases |s|
  {
    var n := FirstSlash(s);
    if n == |s| then [s] else [s[..n]] + Split(s[n + 1..])
  }

  lemma {:induction false} SplitStep(c: string, t: string)
    requires '/' !in c
    ensures Split(c) == [c] && Split(c + "/" + t) == [c] + Split(t)
  {
    hide FirstSlash;
    var s := c + "/" + t;
    FirstSlashIs(c, "");
    assert c + "" == c;
    FirstSlashIs(c, "/" + t);
    assert s == c + ("/" + t);
    assert s[..|c|] == c && s[|c| + 1..] == t;
  }

  lemma {:induction false} SplitNames(c: string, cs: seq<string>)
    requires '/' !in c && AreNames(cs)
    ensures Split(c + Slashed(cs)) == [c] + cs
    decreases |cs|
  {
    hide Split;
    if cs == [] {
      assert c + Slashed(cs) == c;
      SplitStep(c, "");
    } else {
      var t := cs[0] + Slashed(cs[1..]);
      assert c + Slashed(cs) == c + "/" + t;
      SplitStep(c, t);
      assert IsName(cs[0]);
      SplitNames(cs[0], cs[1..]);
    }
  }

  /** A normal path splits into an empty part and its names; the root into two empty parts. */
  lemma {:induction false} SplitAbsolute(cs: seq<string>)
    requires AreNames(cs)
    ensures Split(Absolute(cs)) == [""] + if cs == [] then [""] else cs
  {
    if cs == [] {
      assert "/"[1..] == "" && "/"[..0] == "";
      assert Split("") == [""];
    } else {
      SplitNames("", cs);
      assert "" + Slashed(cs) == Slashed(cs);
    }
  }

  function Components(path: string): seq<string> {
    var p := NormalizePath(path);
    if p == "/" then [] else Split(p)
  }

  lemma {:induction false} ComponentsAre(path: string)
    requires path != "" && path[0] == '/'
    ensures Components(path) == if Names(path) == [] then [] else [""] + Names(path)
  {
    NormalizeIs(path);
    SplitAbsolute(Names(path));
    AbsoluteEnds(Names(path));
  }

  /** One list starts with another, element by element. */
  method StartsWith(a: seq<string>, b: seq<string>) returns (starts: bool)
    ensures starts <==> b <= a
  {
    if |a| < |b| {
      return false;
    }
    for i := 0 to |b|
      invariant forall j :: 0 <= j < i ==> b[j] == a[j]
    {
      if b[i] != a[i] {
        return false;
      }
    }
    return true;
  }

  lemma {:induction false} SameWithHead(c: string, a: seq<string>, b: seq<string>)
    ensures [c] + b <= [c] + a <==> b <= a
  {
    assert ([c] + a)[1..] == a && ([c] + b)[1..] == b;
    if [c] + b <= [c] + a {
      assert ([c] + a)[..|b| + 1][1..] == ([c] + b)[1..];
    }
  }

  /** One path lies at or below another, compared name by name. */
  method HasPrefix(path: string, prefix: string) returns (has: bool)
    requires path != "" && path[0] == '/' && prefix != "" && prefix[0] == '/'
    ensures has <==> Names(prefix) <= Names(path)
  {
    hide Components, Names;
    ComponentsAre(path);
    ComponentsAre(prefix);
    SameWithHead("", Names(path), Names(prefix));
    has := StartsWith(Components(path), Components(prefix));
  }

  /** The path itself and everything above it, the root first. */
  function Ancestor(p: Path, k: nat): string
    requires k <= |Names(p.path)|
  {
    Root(p.origin) + Absolute(Names(p.path)[..k])
  }

  /** Adding a part to an ancestor gives the next one. */
  function Extended(current: string, part: string): string {
    (if current != "" && current[|current| - 1] != '/' then current + "/" else current) + part
  }

  lemma {:induction false} FirstAncestor(p: Path)
    requires IsNormal(p)
    ensures var current := if p.origin.Some? then Root(p.origin) else "/";
            current != "" && Extended(current, "") == Ancestor(p, 0) && Extended(Ancestor(p, 0), "") == Ancestor(p, 0)
  {
    if p.origin.Some? {
      var a := p.origin.value.authority;
      assert a[|a| - 1] in a;
    }
  }

  lemma {:induction false} NextAncestor(p: Path, k: nat)
    requires IsNormal(p) && k < |Names(p.path)|
    ensures Ancestor(p, k) != "" && Extended(Ancestor(p, k), Names(p.path)[k]) == Ancestor(p, k + 1)
  {
    hide Names;
    var cs := Names(p.path);
    AbsoluteEnds(cs[..k]);
    SlashedJoined(cs[..k], [cs[k]]);
    assert cs[..k + 1] == cs[..k] + [cs[k]];
    assert Slashed([cs[k]]) == "/" + cs[k];
    if k == 0 {
      assert cs[..0] == [];
    }
  }

  /** What the loop over the parts has put together before part `i`. */
  function Reached(p: Path, i: nat): string {
    if i > 0 then Ancestor(p, Min(i - 1, |Names(p.path)|)) else if p.origin.Some? then Root(p.origin) else "/"
  }

  lemma {:induction false} StepTo(p: Path, i: nat)
    requires IsNormal(p) && i < |Split(p.path)|
    ensures Reached(p, i) != "" && Extended(Reached(p, i), Split(p.path)[i]) == Reached(p, i + 1)
  {
    SplitAbsolute(Names(p.path));
    if i == 0 || Names(p.path) == [] {
      FirstAncestor(p);
    } else {
      NextAncestor(p, i - 1);
    }
  }

  /** Every place a mount that contains the path can be at, the shortest first. The root lists itself
      twice. */
  method GetPossibleMounts(p: Path) returns (result: seq<string>)
    requires IsNormal(p)
    ensures |result| == Max(2, |Names(p.path)| + 1)
    ensures forall k :: 0 <= k < |result| ==> result[k] == Ancestor(p, Min(k, |Names(p.path)|))
  {
    SplitAbsolute(Names(p.path));
    assert |Split(p.path)| == Max(2, |Names(p.path)| + 1);
    hide Names, Split, Ancestor, IsNormal, Absolute, Reached;
    result := GrowParts(p, Split(p.path));
    forall k | 0 <= k < |result| ensures result[k] == Ancestor(p, Min(k, |Names(p.path)|)) {
      ReachedIs(p, k);
    }
  }

  method GrowParts(p: Path, parts: seq<string>) returns (result: seq<string>)
    requires IsNormal(p) && parts == Split(p.path)
    ensures |result| == |parts| && forall k :: 0 <= k < |result| ==> result[k] == Reached(p, k + 1)
  {
    hide Names, Split, Ancestor, IsNormal, Absolute, Extended, Reached;
    var current := Reached(p, 0);
    result := [];
    for i := 0 to |parts|
      invariant |result| == i
      invariant forall k :: 0 <= k < i ==> result[k] == Reached(p, k + 1)
      invariant current == Reached(p, i)
    {
      StepTo(p, i);
      current := ExtendedBy(current, parts[i]);
      result := result + [current];
    }
  }

  lemma {:induction false} ReachedIs(p: Path, k: nat)
    ensures Reached(p, k + 1) == Ancestor(p, Min(k, |Names(p.path)|))
  {
  }

  method ExtendedBy(front: string, part: string) returns (current: string)
    requires front != ""
    ensures current == Extended(front, part)
  {
    current := front;
    if current[|current| - 1] != '/' {
      current := current + "/";
    }
    current := current + part;
  }
}
