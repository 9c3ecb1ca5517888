/** Mount points: translating paths between the two sides, and finding the mount of a path. */
module Mounts {
  import opened Common
  import opened Paths

  datatype MountInfo = MountInfo(cvPath: string, ufsPath: string)

  /** The path of the mounted system. */
  function Ufs(m: MountInfo): Path {
    match Parse(m.ufsPath)
    case None => Path(None, "/")
    case Some(u) => u
  }

  function Cv(m: MountInfo): Path {
    Path(None, m.cvPath)
  }

  /** Both paths as the mount command stores them: normal, and one of either side. */
  ghost predicate IsMount(m: MountInfo) {
    && IsNormal(Cv(m)) && IsNormal(Ufs(m)) && FullPath(Ufs(m)) == m.ufsPath
    && Ufs(m).origin.Some? && Ufs(m).origin.value.scheme != "cv"
  }

  /** Path `p` is `m` or lies below it: the same origin, and name by name. */
  ghost predicate Below(p: Path, m: Path) {
    p.origin == m.origin && Names(m.path) <= Names(p.path)
  }

  function GetUfsPath(m: MountInfo, p: Path): Option<Path> {
    if !IsCv(p) then None else Parse(m.ufsPath + "/" + CutFirst(p.path, m.cvPath))
  }

  function GetCvPath(m: MountInfo, p: Path): Option<Path> {
    if IsCv(p) then None else Parse(m.cvPath + "/" + CutFirst(FullPath(p), m.ufsPath))
  }

  function TogglePath(m: MountInfo, p: Path): Option<Path> {
    if IsCv(p) then GetUfsPath(m, p) else GetCvPath(m, p)
  }

  /** Anything appended to a normal path lands below it. */
  lemma {:induction false} ParseBelow(m: Path, sub: string)
    requires IsNormal(m)
    ensures Parse(FullPath(m) + "/" + sub) == Some(Path(m.origin, Absolute(Names(m.path) + Names(sub))))
  {
    hide Names, Parse;
    AbsoluteEnds(Names(m.path));
    ParseRoot(m.origin, m.path + "/" + sub);
    NormalizeBelow(Names(m.path), sub);
    assert FullPath(m) + "/" + sub == Root(m.origin) + (m.path + "/" + sub);
  }

  lemma {:induction false} CutPrefix(s: string, pat: string)
    requires pat <= s
    ensures CutFirst(s, pat) == s[|pat|..]
  {
  }

  /** Cutting the mount off a path below it leaves the names in between. */
  lemma {:induction false} CutBelow(root: string, p: string, m: string)
    requires p == Absolute(Names(p)) && m == Absolute(Names(m)) && Names(m) <= Names(p)
    ensures Names(CutFirst(root + p, root + m)) == Names(p)[|Names(m)|..]
  {
    hide Names;
    var rest := Names(p)[|Names(m)|..];
    assert Names(p) == Names(m) + rest;
    AbsoluteBelow(Names(m), rest);
    CutPrefix(root + p, root + m);
    assert (root + p)[|root + m|..] == p[|m|..];
  }

  lemma {:induction false} ToggleCv(m: MountInfo, p: Path)
    requires IsMount(m) && IsNormal(p) && IsCv(p)
    ensures TogglePath(m, p).Some?
    ensures var q := TogglePath(m, p).value;
            && q.origin == Ufs(m).origin && IsNormal(q) && !IsCv(q)
            && Names(q.path) == Names(Ufs(m).path) + Names(CutFirst(p.path, m.cvPath))
  {
    hide Names;
    ParseBelow(Ufs(m), CutFirst(p.path, m.cvPath));
    NamesOfSlashed(Names(Ufs(m).path) + Names(CutFirst(p.path, m.cvPath)));
  }

  lemma {:induction false} ToggleUfs(m: MountInfo, p: Path)
    requires IsMount(m) && IsNormal(p) && !IsCv(p)
    ensures TogglePath(m, p).Some?
    ensures var q := TogglePath(m, p).value;
            && q.origin.None? && IsNormal(q)
            && Names(q.path) == Names(m.cvPath) + Names(CutFirst(FullPath(p), m.ufsPath))
  {
    hide Names;
    ParseBelow(Cv(m), CutFirst(FullPath(p), m.ufsPath));
    NamesOfSlashed(Names(m.cvPath) + Names(CutFirst(FullPath(p), m.ufsPath)));
    assert FullPath(Cv(m)) == m.cvPath;
  }

  /** The side of a mount a path is on. */
  function Side(m: MountInfo, p: Path): Path {
    if IsCv(p) then Cv(m) else Ufs(m)
  }

  lemma {:induction false} SameNames(p: Path, q: Path)
    requires IsNormal(p) && IsNormal(q) && p.origin == q.origin && Names(p.path) == Names(q.path)
    ensures p == q
  {
  }

  lemma {:induction false} SameEnd(front: seq<string>, a: seq<string>, b: seq<string>)
    requires front + a == front + b
    ensures a == b
  {
    assert (front + a)[|front|..] == a && (front + b)[|front|..] == b;
  }

  lemma {:induction false} ToggleTwiceBelow(m: MountInfo, p: Path)
    requires IsMount(m) && IsNormal(p) && Below(p, Side(m, p)) && TogglePath(m, p).Some?
    ensures TogglePath(m, TogglePath(m, p).value) == Some(p)
  {
    hide Names, IsNormal, IsMount, TogglePath, CutFirst, FullPath, Parse;
    var q := TogglePath(m, p).value;
    if IsCv(p) {
      ToggleCv(m, p);
      CutOfCv(m, p);
      ToggleUfs(m, q);
      assert Below(q, Ufs(m));
      CutOfUfs(m, q);
      SameEnd(Names(Ufs(m).path), Names(CutFirst(p.path, m.cvPath)), Names(CutFirst(FullPath(q), m.ufsPath)));
    } else {
      ToggleUfs(m, p);
      CutOfUfs(m, p);
      ToggleCv(m, q);
      assert Below(q, Cv(m));
      CutOfCv(m, q);
      SameEnd(Names(m.cvPath), Names(CutFirst(FullPath(p), m.ufsPath)), Names(CutFirst(q.path, m.cvPath)));
    }
    SameNames(p, TogglePath(m, q).value);
  }

  lemma {:induction false} CutOfCv(m: MountInfo, p: Path)
    requires IsMount(m) && IsNormal(p) && Below(p, Cv(m))
    ensures Names(m.cvPath) + Names(CutFirst(p.path, m.cvPath)) == Names(p.path)
  {
    hide Names, CutFirst, Absolute, Parse, FullPath;
    CutBelow("", p.path, m.cvPath);
    assert "" + p.path == p.path && "" + m.cvPath == m.cvPath;
  }

  lemma {:induction false} CutOfUfs(m: MountInfo, p: Path)
    requires IsMount(m) && IsNormal(p) && Below(p, Ufs(m))
    ensures Names(Ufs(m).path) + Names(CutFirst(FullPath(p), m.ufsPath)) == Names(p.path)
  {
    hide Names, CutFirst, Absolute, Parse, IsCv;
    CutBelow(Root(p.origin), p.path, Ufs(m).path);
  }

  /** Translating a path and translating it back gives the path, exactly if it lies below the mount, name
      by name, on its own side. A path that only starts with the mount's text, or has it further on, or a
      path written with the scheme `cv`, comes back as another one. */
  lemma {:induction false} ToggleTwice(m: MountInfo, p: Path)
    requires IsMount(m) && IsNormal(p)
    ensures TogglePath(m, p).Some?
    ensures TogglePath(m, TogglePath(m, p).value) == Some(p) <==> Below(p, Side(m, p))
  {
    hide Names;
    if IsCv(p) {
      ToggleCv(m, p);
      ToggleUfs(m, TogglePath(m, p).value);
    } else {
      ToggleUfs(m, p);
      ToggleCv(m, TogglePath(m, p).value);
    }
    if Below(p, Side(m, p)) {
      ToggleTwiceBelow(m, p);
    }
  }

  lemma {:induction false} AncestorNames(p: Path, k: nat, m: Path)
    requires IsNormal(p) && IsNormal(m) && k <= |Names(p.path)| && Ancestor(p, k) == FullPath(m)
    ensures m.origin == p.origin && Names(m.path) == Names(p.path)[..k]
  {
    var front := Names(p.path)[..k];
    var q := Path(p.origin, Absolute(front));
    NamesOfSlashed(front);
    hide Names, Absolute, Parse;
    ParseFullPath(q);
    ParseFullPath(m);
  }

  /** The places listed for a path are exactly those it lies below. */
  lemma {:induction false} AncestorIffBelow(p: Path, m: Path)
    requires IsNormal(p) && IsNormal(m)
    ensures (exists k :: 0 <= k <= |Names(p.path)| && Ancestor(p, k) == FullPath(m)) <==> Below(p, m)
  {
    hide Names, Absolute;
    if Below(p, m) {
      assert Names(p.path)[..|Names(m.path)|] == Names(m.path);
      assert Ancestor(p, |Names(m.path)|) == FullPath(m);
    }
    forall k | 0 <= k <= |Names(p.path)| && Ancestor(p, k) == FullPath(m) ensures Below(p, m) {
      AncestorNames(p, k, m);
    }
  }

  ghost predicate AllMounts(table: seq<MountInfo>) {
    forall i :: 0 <= i < |table| ==> IsMount(table[i])
  }

  /** No two mounts share a path on either side. */
  ghost predicate IsUnique(table: seq<MountInfo>) {
    forall i, j :: 0 <= i < j < |table| ==> table[i].cvPath != table[j].cvPath && table[i].ufsPath != table[j].ufsPath
  }

  /** No mount point lies inside another. */
  ghost predicate Unnested(table: seq<MountInfo>) {
    forall i, j :: 0 <= i < |table| && 0 <= j < |table| && i != j ==> !Below(Cv(table[i]), Cv(table[j]))
  }

  /** Of two places above one path, one is above the other. */
  lemma {:induction false} OneAboveOther(p: Path, a: Path, b: Path)
    requires Below(p, a) && Below(p, b)
    ensures Below(a, b) || Below(b, a)
  {
    hide Names;
    var x, y := Names(a.path), Names(b.path);
    assert x == Names(p.path)[..|x|] && y == Names(p.path)[..|y|];
  }

  /** Then at most one mount contains a path. */
  lemma {:induction false} OnlyOneMount(table: seq<MountInfo>, p: Path, i: nat, j: nat)
    requires Unnested(table) && i < |table| && j < |table|
    requires Below(p, Cv(table[i])) && Below(p, Cv(table[j]))
    ensures i == j
  {
    OneAboveOther(p, Cv(table[i]), Cv(table[j]));
  }

  /** The master's list of mounts. */
  class MountTable {
    var entries: seq<MountInfo>

    ghost predicate Valid()
      reads this
    {
      AllMounts(entries) && IsUnique(entries) && Unnested(entries)
    }

    constructor ()
      ensures Valid() && entries == []
    {
      entries := [];
    }

    predicate Mounted(ufsPath: string)
      reads this
    {
      exists i :: 0 <= i < |entries| && entries[i].ufsPath == ufsPath
    }

    /** No mount point contains the new one or is contained in it. */
    method CheckConflict(cvPath: string) returns (free: bool)
      requires AllMounts(entries) && IsNormal(Path(None, cvPath))
      ensures free <==> forall i :: 0 <= i < |entries| ==>
                          !Below(Cv(entries[i]), Path(None, cvPath)) && !Below(Path(None, cvPath), Cv(entries[i]))
    {
      hide Below, IsNormal, IsMount;
      for i := 0 to |entries|
        invariant forall j :: 0 <= j < i ==>
                  !Below(Cv(entries[j]), Path(None, cvPath)) && !Below(Path(None, cvPath), Cv(entries[j]))
      {
        MountIsNormal(entries[i]);
        var inside := IsInside(cvPath, entries[i].cvPath);
        if inside {
          return false;
        }
        var around := IsInside(entries[i].cvPath, cvPath);
        if around {
          return false;
        }
      }
      return true;
    }

    /** Refused exactly if the other side is mounted already, or one mount point would contain another. */
    method AddMount(m: MountInfo) returns (r: Result<()>)
      requires Valid() && IsMount(m)
      modifies this
      ensures Valid()
      ensures r.Ok? <==> !old(Mounted(m.ufsPath)) && forall i :: 0 <= i < |old(entries)| ==>
                           !Below(Cv(old(entries)[i]), Cv(m)) && !Below(Cv(m), Cv(old(entries)[i]))
      ensures entries == old(entries) + (if r.Ok? then [m] else []) && (r.Err? ==> r.error.Rejected?)
    {
      hide Names, IsNormal, IsMount;
      if Mounted(m.ufsPath) {
        return Err(Rejected);
      }
      MountIsNormal(m);
      var free := CheckConflict(m.cvPath);
      if !free {
        return Err(Rejected);
      }
      entries := entries + [m];
      r := Ok(());
    }
  }

  method IsInside(path: string, prefix: string) returns (inside: bool)
    requires IsNormal(Path(None, path)) && IsNormal(Path(None, prefix))
    ensures inside <==> Below(Path(None, path), Path(None, prefix))
  {
    StartsWithSlash(path);
    StartsWithSlash(prefix);
    inside := HasPrefix(path, prefix);
  }

  lemma {:induction false} MountIsNormal(m: MountInfo)
    requires IsMount(m)
    ensures IsNormal(Cv(m))
  {
  }

  lemma {:induction false} StartsWithSlash(path: string)
    requires IsNormal(Path(None, path))
    ensures path != "" && path[0] == '/'
  {
    AbsoluteEnds(Names(path));
  }

  /** A client's index of the mounts by either path. */
  class MountCache {
    var cvMap: map<string, MountInfo>
    var ufsMap: map<string, MountInfo>

    /** The two maps are each other's inverse. */
    ghost predicate Valid()
      reads this
    {
      && (forall k :: k in cvMap ==>
            cvMap[k].cvPath == k && cvMap[k].ufsPath in ufsMap && ufsMap[cvMap[k].ufsPath] == cvMap[k])
      && (forall k :: k in ufsMap ==>
            ufsMap[k].ufsPath == k && ufsMap[k].cvPath in cvMap && cvMap[ufsMap[k].cvPath] == ufsMap[k])
    }

    ghost predicate Has(m: MountInfo)
      reads this
    {
      m.cvPath in cvMap && cvMap[m.cvPath] == m
    }

    constructor ()
      ensures Valid() && cvMap == map[] && ufsMap == map[]
    {
      cvMap, ufsMap := map[], map[];
    }

    /** A mount is taken in exactly if the mounted system can be used. The maps stay inverses exactly if the mount
        clashes with no other on one side only. */
    method Insert(m: MountInfo, usable: MountInfo -> bool) returns (r: Result<()>)
      requires Valid()
      modifies this
      ensures r.Ok? <==> usable(m)
      ensures r.Err? ==> unchanged(this)
      ensures r.Ok? ==> cvMap == old(cvMap)[m.cvPath := m] && ufsMap == old(ufsMap)[m.ufsPath := m]
      ensures r.Ok? ==> (Valid() <==>
                && (m.cvPath in old(cvMap) ==> old(cvMap)[m.cvPath].ufsPath == m.ufsPath)
                && (m.ufsPath in old(ufsMap) ==> old(ufsMap)[m.ufsPath].cvPath == m.cvPath))
    {
      if !usable(m) {
        return Err(Rejected);
      }
      cvMap := cvMap[m.cvPath := m];
      ufsMap := ufsMap[m.ufsPath := m];
      if m.cvPath in old(cvMap) && old(cvMap)[m.cvPath].ufsPath != m.ufsPath {
        assert ufsMap[old(cvMap)[m.cvPath].ufsPath] == old(cvMap)[m.cvPath];
      }
      if m.ufsPath in old(ufsMap) && old(ufsMap)[m.ufsPath].cvPath != m.cvPath {
        assert cvMap[old(ufsMap)[m.ufsPath].cvPath] == old(ufsMap)[m.ufsPath];
      }
      r := Ok(());
    }

    /** Forget the mount at exactly this path. */
    method Remove(path: Path)
      requires Valid()
      modifies this
      ensures Valid()
      ensures forall m :: Has(m) <==>
              old(Has(m)) && (if IsCv(path) then m.cvPath != path.path else m.ufsPath != FullPath(path))
    {
      if IsCv(path) {
        if path.path in cvMap {
          var m := cvMap[path.path];
          cvMap, ufsMap := cvMap - {path.path}, ufsMap - {m.ufsPath};
        }
      } else if FullPath(path) in ufsMap {
        var m := ufsMap[FullPath(path)];
        cvMap, ufsMap := cvMap - {m.cvPath}, ufsMap - {FullPath(path)};
      }
    }

    /** One more entry of a table, in which no path occurs twice. */
    method InsertNext(table: seq<MountInfo>, i: nat, usable: MountInfo -> bool) returns (r: Result<()>)
      requires IsUnique(table) && i < |table| && Valid() && forall m :: Has(m) <==> m in table[..i]
      modifies this
      ensures r.Ok? <==> usable(table[i])
      ensures Valid() && forall m :: Has(m) <==> m in table[..if r.Ok? then i + 1 else i]
    {
      if table[i].cvPath in cvMap {
        assert Has(cvMap[table[i].cvPath]);
      }
      if table[i].ufsPath in ufsMap {
        assert Has(ufsMap[table[i].ufsPath]);
      }
      assert table[..i + 1] == table[..i] + [table[i]];
      r := Insert(table[i], usable);
    }

    /** Take over the master's table, all of it if every mounted system can be used, and otherwise what comes before
        the first that cannot; the maps are inverses in any case. */
    method Refresh(table: seq<MountInfo>, usable: MountInfo -> bool) returns (r: Result<()>, ghost n: nat)
      requires IsUnique(table)
      modifies this
      ensures Valid() && n <= |table| && forall m :: Has(m) <==> m in table[..n]
      ensures r.Ok? <==> forall m :: m in table ==> usable(m)
      ensures if r.Ok? then n == |table| else n < |table| && !usable(table[n])
      ensures forall i :: 0 <= i < n ==> usable(table[i])
    {
      n := 0;
      cvMap, ufsMap := map[], map[];
      hide Valid, IsUnique;
      for i := 0 to |table|
        invariant Valid() && forall m :: Has(m) <==> m in table[..i]
        invariant n == i && forall j :: 0 <= j < i ==> usable(table[j])
      {
        r := InsertNext(table, i, usable);
        if r.Err? {
          return;
        }
        n := i + 1;
      }
      assert table[..|table|] == table;
      r := Ok(());
    }

    function Get(isCv: bool, path: string): Option<MountInfo>
      reads this
    {
      if isCv then (if path in cvMap then Some(cvMap[path]) else None)
      else (if path in ufsMap then Some(ufsMap[path]) else None)
    }

    /** Every mount is found under its own path. */
    lemma GetIsHas(p: Path, m: MountInfo)
      requires Valid() && IsMount(m)
      ensures Get(IsCv(p), FullPath(Side(m, p))) == Some(m) <==> Has(m)
    {
      assert FullPath(Cv(m)) == m.cvPath;
    }

    lemma GetGives(p: Path, place: string)
      requires Valid() && (forall m :: Has(m) ==> IsMount(m)) && Get(IsCv(p), place).Some?
      ensures Has(Get(IsCv(p), place).value) && FullPath(Side(Get(IsCv(p), place).value, p)) == place
    {
      var m := Get(IsCv(p), place).value;
      assert Has(m);
      assert FullPath(Cv(m)) == m.cvPath;
    }

    /** The mount found for a path contains it, and no mount that does is further up; without one there is
        none. So of nested mounts the outermost is returned. */
    method GetMount(p: Path) returns (r: Option<MountInfo>)
      requires Valid() && IsNormal(p) && forall m :: Has(m) ==> IsMount(m)
      ensures r.Some? ==> Has(r.value) && Below(p, Side(r.value, p))
      ensures r.Some? ==> forall m :: Has(m) && Below(p, Side(m, p)) ==> Below(Side(m, p), Side(r.value, p))
      ensures r.None? ==> forall m :: Has(m) ==> !Below(p, Side(m, p))
    {
      hide Names, IsNormal, IsMount, Below, Valid, Side, Get, Ancestor;
      if cvMap == map[] {
        return None;
      }
      var places := GetPossibleMounts(p);
      for i := 0 to |places|
        invariant forall k :: 0 <= k < i ==> Get(IsCv(p), places[k]).None?
      {
        r := Get(IsCv(p), places[i]);
        if r.Some? {
          GetGives(p, places[i]);
          forall m | Has(m) && Below(p, Side(m, p)) ensures Below(Side(m, p), Side(r.value, p)) {
            var k := PlaceOf(p, m);
            assert places[k] == Ancestor(p, k);
            FurtherDown(p, r.value, m, Min(i, |Names(p.path)|), k);
          }
          FoundAbove(p, r.value, Min(i, |Names(p.path)|));
          return;
        }
      }
      forall k | 0 <= k <= |Names(p.path)| ensures Get(IsCv(p), Ancestor(p, k)).None? {
        assert places[k] == Ancestor(p, k);
      }
      forall m | Has(m) ensures !Below(p, Side(m, p)) {
        if Below(p, Side(m, p)) {
          var _ := PlaceOf(p, m);
        }
      }
      r := None;
    }

    /** The place under which a mount that contains the path is filed. */
    lemma PlaceOf(p: Path, m: MountInfo) returns (k: nat)
      requires Valid() && IsNormal(p) && IsMount(m) && Has(m) && Below(p, Side(m, p))
      ensures k <= |Names(p.path)| && Get(IsCv(p), Ancestor(p, k)) == Some(m) && Ancestor(p, k) == FullPath(Side(m, p))
    {
      GetIsHas(p, m);
      k := |Names(Side(m, p).path)|;
      hide Names;
      assert Names(p.path)[..k] == Names(Side(m, p).path);
    }
  }

  lemma {:induction false} FoundAbove(p: Path, m: MountInfo, k: nat)
    requires IsNormal(p) && IsMount(m) && k <= |Names(p.path)| && Ancestor(p, k) == FullPath(Side(m, p))
    ensures Below(p, Side(m, p))
  {
    AncestorNames(p, k, Side(m, p));
  }

  lemma {:induction false} FurtherDown(p: Path, m: MountInfo, n: MountInfo, k: nat, l: nat)
    requires IsNormal(p) && IsMount(m) && IsMount(n) && k <= l <= |Names(p.path)|
    requires Ancestor(p, k) == FullPath(Side(m, p)) && Ancestor(p, l) == FullPath(Side(n, p))
    ensures Below(Side(n, p), Side(m, p))
  {
    MountIsNormal(m);
    MountIsNormal(n);
    hide Names, IsNormal, IsMount, FullPath, Ancestor;
    AncestorNames(p, k, Side(m, p));
    AncestorNames(p, l, Side(n, p));
  }

  /** A client that has just taken over the master's table finds, for a path without a scheme, the one mount
      that contains it. It can do so exactly if every mounted system can be used. */
  method Resolve(table: MountTable, cache: MountCache, p: Path, usable: MountInfo -> bool)
    returns (r: Result<Option<MountInfo>>)
    requires table.Valid() && IsNormal(p) && p.origin.None?
    modifies cache
    ensures r.Ok? <==> forall m :: m in table.entries ==> usable(m)
    ensures r.Ok? ==> forall i :: 0 <= i < |table.entries| ==>
            (Below(p, Cv(table.entries[i])) <==> r.value == Some(table.entries[i]))
    ensures r.Ok? && r.value.Some? ==> r.value.value in table.entries
  {
    hide IsNormal, IsMount, Below, MountCache.Valid;
    var done, _ := cache.Refresh(table.entries, usable);
    if done.Err? {
      return Err(done.error);
    }
    assert table.entries[..|table.entries|] == table.entries;
    var m := cache.GetMount(p);
    forall i | 0 <= i < |table.entries| ensures Below(p, Cv(table.entries[i])) <==> m == Some(table.entries[i]) {
      assert cache.Has(table.entries[i]);
      if m.Some? && Below(p, Cv(table.entries[i])) {
        var j :| 0 <= j < |table.entries| && table.entries[j] == m.value;
        OnlyOneMount(table.entries, p, i, j);
      }
    }
    r := Ok(m);
  }
}
