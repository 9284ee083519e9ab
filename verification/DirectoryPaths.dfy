/** Path names: how the directory tree simplifies them before it walks them, and that the walk ends
    at the same node. */
module DirectoryPaths {

  datatype Errno = ENOTDIR | ENOENT

  datatype Result = Ok(node: nat) | Err(errno: Errno)

  /** Directories with the nodes in them, and the father of each node but the root. */
  datatype Tree = Tree(children: map<nat, map<string, nat>>, father: map<nat, nat>)

  /** Each child's father is the directory it is in. */
  ghost predicate Linked(t: Tree) {
    forall n, name {:trigger t.children[n][name]} :: n in t.children && name in t.children[n] ==>
      t.children[n][name] in t.father && t.father[t.children[n][name]] == n
  }

  // ---------------------------------------------------------------- components of a path

  /** `path.split('/')`, of the first `n` characters. */
  function Split(path: string, n: nat): (r: seq<string>)
    requires n <= |path|
    ensures |r| > 0
  {
    if n == 0 then [""]
    else
      var r := Split(path, n - 1);
      if path[n - 1] == '/' then r + [""] else r[|r| - 1 := r[|r| - 1] + [path[n - 1]]]
  }

  /** One step of the fold in `parse_dir_path`. */
  function Push(v: seq<string>, s: string): seq<string> {
    if s == "" || s == "." then v
    else if s == ".." then
      if v == [] || v[|v| - 1] == ".." then v + [s] else v[..|v| - 1]
    else v + [s]
  }

  function Normalize(comps: seq<string>, n: nat): seq<string>
    requires n <= |comps|
  {
    if n == 0 then [] else Push(Normalize(comps, n - 1), comps[n - 1])
  }

  function ParseDirPath(path: string): seq<string> {
    var comps := Split(path, |path|);
    Normalize(comps, |comps|)
  }

  predicate Plain(s: string) {
    s != "" && s != "." && s != ".."
  }

  /** Some "..", then plain names only. */
  ghost predicate Normal(v: seq<string>, ups: nat) {
    && ups <= |v|
    && (forall i :: 0 <= i < ups ==> v[i] == "..")
    && (forall i :: ups <= i < |v| ==> Plain(v[i]))
  }

  lemma {:induction false} NormalizeNormal(comps: seq<string>, n: nat) returns (ups: nat)
    requires n <= |comps|
    ensures Normal(Normalize(comps, n), ups)
  {
    if n == 0 {
      ups := 0;
    } else {
      var v, s := Normalize(comps, n - 1), comps[n - 1];
      ups := NormalizeNormal(comps, n - 1);
      if s == ".." && ups == |v| {
        ups := ups + 1;
      }
    }
  }

  /** A path in that form is left alone. */
  lemma {:induction false} NormalFixed(v: seq<string>, ups: nat, n: nat)
    requires Normal(v, ups) && n <= |v|
    ensures Normalize(v, n) == v[..n]
  {
    if n > 0 {
      NormalFixed(v, ups, n - 1);
      assert v[..n] == v[..n - 1] + [v[n - 1]];
    }
  }

  /** Normalising twice is normalising once. */
  lemma Idempotent(comps: seq<string>)
    ensures var v := Normalize(comps, |comps|); Normalize(v, |v|) == v
  {
    var v := Normalize(comps, |comps|);
    var ups := NormalizeNormal(comps, |comps|);
    NormalFixed(v, ups, |v|);
    assert v[..|v|] == v;
  }

  // ---------------------------------------------------------------- walking

  function Up(t: Tree, n: nat): nat {
    if n in t.father then t.father[n] else n
  }

  function OpenSubfile(t: Tree, n: nat, name: string): Result {
    if n !in t.children then Err(ENOTDIR)
    else if name !in t.children[n] then Err(ENOENT)
    else Ok(t.children[n][name])
  }

  function StepTo(t: Tree, r: Result, s: string): Result {
    match r
    case Err(_) => r
    case Ok(n) => if s == ".." then Ok(Up(t, n)) else OpenSubfile(t, n, s)
  }

  /** Where the first `k` components lead, taken literally: ".." goes to the father, and the root
      has none. */
  function Walk(t: Tree, start: nat, comps: seq<string>, k: nat): Result
    requires k <= |comps|
  {
    if k == 0 then Ok(start) else StepTo(t, Walk(t, start, comps, k - 1), comps[k - 1])
  }

  /** The same for components as they stand in a path, where empty ones and "." stay put. */
  function WalkRaw(t: Tree, start: nat, comps: seq<string>, k: nat): Result
    requires k <= |comps|
  {
    if k == 0 then Ok(start)
    else if comps[k - 1] == "" || comps[k - 1] == "." then WalkRaw(t, start, comps, k - 1)
    else StepTo(t, WalkRaw(t, start, comps, k - 1), comps[k - 1])
  }

  function WalkAll(t: Tree, start: nat, comps: seq<string>): Result {
    Walk(t, start, comps, |comps|)
  }

  lemma {:induction false} WalkPrefix(t: Tree, start: nat, a: seq<string>, b: seq<string>, k: nat)
    requires k <= |a| && k <= |b| && forall i :: 0 <= i < k ==> a[i] == b[i]
    ensures Walk(t, start, a, k) == Walk(t, start, b, k)
  {
    if k > 0 {
      WalkPrefix(t, start, a, b, k - 1);
    }
  }

  lemma WalkPush(t: Tree, start: nat, v: seq<string>, s: string)
    ensures WalkAll(t, start, v + [s]) == StepTo(t, WalkAll(t, start, v), s)
    ensures v != [] ==> WalkAll(t, start, v) == StepTo(t, WalkAll(t, start, v[..|v| - 1]), v[|v| - 1])
  {
    WalkPrefix(t, start, v + [s], v, |v|);
    if v != [] {
      WalkPrefix(t, start, v, v[..|v| - 1], |v| - 1);
    }
  }

  /** If the literal walk of a path succeeds, the walk of its normal form ends at the same node. */
  lemma {:induction false} Meaning(t: Tree, start: nat, comps: seq<string>, n: nat)
    requires Linked(t) && n <= |comps| && WalkRaw(t, start, comps, n).Ok?
    ensures WalkAll(t, start, Normalize(comps, n)) == WalkRaw(t, start, comps, n)
  {
    if n > 0 {
      var v, s := Normalize(comps, n - 1), comps[n - 1];
      Meaning(t, start, comps, n - 1);
      WalkPush(t, start, v, s);
    }
  }

  /** The converse fails: a name that does not exist, followed by "..", is dropped unseen. */
  lemma DroppedUnseen()
    ensures var t := Tree(map[0 := map[]], map[]);
            Linked(t) && WalkRaw(t, 0, ["a", ".."], 2) == Err(ENOENT) && WalkAll(t, 0, Normalize(["a", ".."], 2)) == Ok(0)
  {
    var t := Tree(map[0 := map[]], map[]);
    assert WalkRaw(t, 0, ["a", ".."], 1) == Err(ENOENT);
    assert Normalize(["a", ".."], 1) == ["a"] && Normalize(["a", ".."], 2) == [];
  }

  /** Some name is taken back by a later "..". */
  predicate TakesBack(comps: seq<string>, n: nat)
    requires n <= |comps|
  {
    n > 0 && (TakesBack(comps, n - 1) ||
              (comps[n - 1] == ".." && var v := Normalize(comps, n - 1); v != [] && v[|v| - 1] != ".."))
  }

  /** If no name is taken back, the two walks agree in every case, errors included. */
  lemma {:induction false} SameWalk(t: Tree, start: nat, comps: seq<string>, n: nat)
    requires n <= |comps| && !TakesBack(comps, n)
    ensures WalkAll(t, start, Normalize(comps, n)) == WalkRaw(t, start, comps, n)
  {
    if n > 0 {
      SameWalk(t, start, comps, n - 1);
      WalkPush(t, start, Normalize(comps, n - 1), comps[n - 1]);
    }
  }

  /** The walk of the normal form of every prefix of the path succeeds. */
  ghost predicate PrefixesWalk(t: Tree, start: nat, comps: seq<string>, n: nat)
    requires n <= |comps|
  {
    forall k :: 0 <= k <= n ==> WalkAll(t, start, Normalize(comps, k)).Ok?
  }

  /** The exact condition under which the literal walk succeeds. */
  lemma {:induction false} RawSucceeds(t: Tree, start: nat, comps: seq<string>, n: nat)
    requires Linked(t) && n <= |comps|
    ensures WalkRaw(t, start, comps, n).Ok? <==> PrefixesWalk(t, start, comps, n)
  {
    if n > 0 {
      RawSucceeds(t, start, comps, n - 1);
      WalkPush(t, start, Normalize(comps, n - 1), comps[n - 1]);
      if WalkRaw(t, start, comps, n).Ok? {
        Meaning(t, start, comps, n);
      }
      if WalkRaw(t, start, comps, n - 1).Ok? {
        Meaning(t, start, comps, n - 1);
      }
    }
  }

  // ---------------------------------------------------------------- path strings

  predicate NoSlash(s: string) {
    forall i :: 0 <= i < |s| ==> s[i] != '/'
  }

  function Join(v: seq<string>, n: nat): string
    requires n <= |v|
  {
    if n == 0 then "" else if n == 1 then v[0] else Join(v, n - 1) + "/" + v[n - 1]
  }

  lemma {:induction false} SplitPrefix(a: string, b: string, n: nat)
    requires n <= |a| && n <= |b| && forall i :: 0 <= i < n ==> a[i] == b[i]
    ensures Split(a, n) == Split(b, n)
  {
    if n > 0 {
      SplitPrefix(a, b, n - 1);
    }
  }

  /** A name without slashes extends the last component. */
  lemma {:induction false} SplitName(a: string, name: string, n: nat)
    requires n <= |name| && NoSlash(name)
    ensures var r := Split(a, |a|); Split(a + name, |a| + n) == r[|r| - 1 := r[|r| - 1] + name[..n]]
  {
    var r := Split(a, |a|);
    if n == 0 {
      SplitPrefix(a + name, a, |a|);
      assert r[|r| - 1] + name[..0] == r[|r| - 1];
    } else {
      SplitName(a, name, n - 1);
      assert (a + name)[|a| + n - 1] == name[n - 1];
      assert name[..n] == name[..n - 1] + [name[n - 1]];
      assert r[|r| - 1] + name[..n - 1] + [name[n - 1]] == r[|r| - 1] + name[..n];
    }
  }

  lemma SplitSlash(a: string)
    ensures Split(a + "/", |a| + 1) == Split(a, |a|) + [""]
  {
    SplitPrefix(a + "/", a, |a|);
  }

  lemma SplitAnother(a: string, name: string)
    requires NoSlash(name)
    ensures var path := a + "/" + name; Split(path, |path|) == Split(a, |a|) + [name]
  {
    SplitSlash(a);
    SplitName(a + "/", name, |name|);
    assert "" + name[..|name|] == name;
  }

  lemma {:induction false} SplitJoin(v: seq<string>, n: nat)
    requires 0 < n <= |v| && forall i :: 0 <= i < |v| ==> NoSlash(v[i])
    ensures Split(Join(v, n), |Join(v, n)|) == v[..n]
  {
    var name := v[n - 1];
    if n == 1 {
      SplitName("", name, |name|);
      assert "" + name == name && name[..|name|] == name;
      assert v[..1] == [name];
    } else {
      SplitJoin(v, n - 1);
      SplitAnother(Join(v, n - 1), name);
      assert v[..n] == v[..n - 1] + [name];
    }
  }

  lemma {:induction false} SplitNoSlash(path: string, n: nat)
    requires n <= |path|
    ensures forall i :: 0 <= i < |Split(path, n)| ==> NoSlash(Split(path, n)[i])
  {
    if n > 0 {
      SplitNoSlash(path, n - 1);
    }
  }

  /** The components are the parts between the slashes: written out with slashes they are the path, and
      none has a slash in it. */
  lemma {:induction false} SplitExact(path: string, n: nat)
    requires n <= |path|
    ensures var r := Split(path, n); Join(r, |r|) == path[..n] && forall i :: 0 <= i < |r| ==> NoSlash(r[i])
  {
    SplitNoSlash(path, n);
    if n > 0 {
      SplitExact(path, n - 1);
      var r, c := Split(path, n - 1), path[n - 1];
      assert path[..n] == path[..n - 1] + [c];
      if c == '/' {
        JoinSlash(r);
      } else {
        JoinLonger(r, c);
      }
    }
  }

  lemma JoinSlash(r: seq<string>)
    requires |r| > 0
    ensures Join(r + [""], |r| + 1) == Join(r, |r|) + ['/']
  {
    JoinPrefix(r + [""], r, |r|);
    assert Join(r, |r|) + "/" + "" == Join(r, |r|) + ['/'];
  }

  lemma JoinLonger(r: seq<string>, c: char)
    requires |r| > 0
    ensures Join(r[|r| - 1 := r[|r| - 1] + [c]], |r|) == Join(r, |r|) + [c]
  {
    var longer := r[|r| - 1 := r[|r| - 1] + [c]];
    if |r| > 1 {
      JoinPrefix(longer, r, |r| - 1);
      var init := Join(r, |r| - 1) + "/";
      assert init + (r[|r| - 1] + [c]) == init + r[|r| - 1] + [c];
    }
  }

  lemma {:induction false} JoinPrefix(v: seq<string>, w: seq<string>, n: nat)
    requires n <= |v| && n <= |w| && forall i :: 0 <= i < n ==> v[i] == w[i]
    ensures Join(v, n) == Join(w, n)
  {
    if n > 1 {
      JoinPrefix(v, w, n - 1);
    }
  }

  lemma {:induction false} NormalizeNoSlash(comps: seq<string>, n: nat)
    requires n <= |comps| && forall i :: 0 <= i < |comps| ==> NoSlash(comps[i])
    ensures forall i :: 0 <= i < |Normalize(comps, n)| ==> NoSlash(Normalize(comps, n)[i])
  {
    if n > 0 {
      NormalizeNoSlash(comps, n - 1);
    }
  }

  /** Writing a normal path out and parsing it again gives the same components. */
  lemma ParseAgain(path: string)
    ensures var v := ParseDirPath(path); ParseDirPath(Join(v, |v|)) == v
  {
    var comps := Split(path, |path|);
    var v := Normalize(comps, |comps|);
    SplitNoSlash(path, |path|);
    NormalizeNoSlash(comps, |comps|);
    Idempotent(comps);
    if v == [] {
      assert Normalize([""], 1) == [];
    } else {
      SplitJoin(v, |v|);
      assert v[..|v|] == v;
    }
  }

  // ---------------------------------------------------------------- the operations

  /** At the root the leading ".." of a path are without effect. */
  lemma {:induction false} RootUps(t: Tree, root: nat, v: seq<string>, ups: nat)
    requires root !in t.father && Normal(v, ups)
    ensures WalkAll(t, root, v) == WalkAll(t, root, v[ups..])
  {
    RootStays(t, root, v, ups);
    WalkFrom(t, root, v, ups, |v| - ups);
  }

  lemma {:induction false} RootStays(t: Tree, root: nat, v: seq<string>, k: nat)
    requires root !in t.father && k <= |v| && forall i :: 0 <= i < k ==> v[i] == ".."
    ensures Walk(t, root, v, k) == Ok(root)
  {
    if k > 0 {
      RootStays(t, root, v, k - 1);
    }
  }

  lemma {:induction false} WalkFrom(t: Tree, start: nat, v: seq<string>, k: nat, n: nat)
    requires k + n <= |v| && Walk(t, start, v, k) == Ok(start)
    ensures Walk(t, start, v, k + n) == Walk(t, start, v[k..], n)
  {
    if n > 0 {
      WalkFrom(t, start, v, k, n - 1);
    }
  }

  /** One component leads from `n` to `m`: to the father, if there is one, or to the child of that name. */
  ghost predicate Goes(t: Tree, n: nat, s: string, m: nat) {
    if s == ".." then m == (if n in t.father then t.father[n] else n)
    else n in t.children && s in t.children[n] && m == t.children[n][s]
  }

  ghost predicate GoesAt(t: Tree, comps: seq<string>, nodes: seq<nat>, k: nat)
    requires k < |comps| && k + 1 < |nodes|
  {
    Goes(t, nodes[k], comps[k], nodes[k + 1])
  }

  /** The nodes that the components lead through, as far as they go. */
  ghost predicate Trail(t: Tree, start: nat, comps: seq<string>, nodes: seq<nat>) {
    && 0 < |nodes| <= |comps| + 1 && nodes[0] == start
    && forall k: nat {:trigger GoesAt(t, comps, nodes, k)} :: k + 1 < |nodes| ==> GoesAt(t, comps, nodes, k)
  }

  /** The trail covers all components and ends at `n`. */
  ghost predicate LeadsTo(t: Tree, start: nat, comps: seq<string>, n: nat) {
    exists nodes :: Trail(t, start, comps, nodes) && |nodes| == |comps| + 1 && nodes[|comps|] == n
  }

  /** The trail comes to a node that is no directory and has a name to follow, ... */
  ghost predicate StuckAtFile(t: Tree, start: nat, comps: seq<string>) {
    exists nodes :: Trail(t, start, comps, nodes) && |nodes| <= |comps| && comps[|nodes| - 1] != ".."
                    && nodes[|nodes| - 1] !in t.children
  }

  /** ... or to a directory without the name that follows. */
  ghost predicate StuckAtName(t: Tree, start: nat, comps: seq<string>) {
    exists nodes :: Trail(t, start, comps, nodes) && |nodes| <= |comps| && comps[|nodes| - 1] != ".."
                    && nodes[|nodes| - 1] in t.children && comps[|nodes| - 1] !in t.children[nodes[|nodes| - 1]]
  }

  lemma {:induction false} TrailIs(t: Tree, start: nat, comps: seq<string>, nodes: seq<nat>, k: nat)
    requires Trail(t, start, comps, nodes) && k < |nodes|
    ensures Walk(t, start, comps, k) == Ok(nodes[k])
  {
    if k > 0 {
      TrailIs(t, start, comps, nodes, k - 1);
      assert GoesAt(t, comps, nodes, k - 1);
    }
  }

  lemma {:induction false} TrailOf(t: Tree, start: nat, comps: seq<string>, k: nat) returns (nodes: seq<nat>)
    requires k <= |comps| && Walk(t, start, comps, k).Ok?
    ensures Trail(t, start, comps, nodes) && |nodes| == k + 1
  {
    if k == 0 {
      nodes := [start];
    } else {
      var before := TrailOf(t, start, comps, k - 1);
      TrailIs(t, start, comps, before, k - 1);
      nodes := before + [Walk(t, start, comps, k).node];
      forall j: nat | j + 1 < |nodes|
        ensures GoesAt(t, comps, nodes, j)
      {
        assert j + 1 < |before| ==> GoesAt(t, comps, before, j);
      }
    }
  }

  lemma TrailLeads(t: Tree, start: nat, comps: seq<string>, n: nat)
    ensures WalkAll(t, start, comps) == Ok(n) <==> LeadsTo(t, start, comps, n)
  {
    if WalkAll(t, start, comps) == Ok(n) {
      var nodes := TrailOf(t, start, comps, |comps|);
      TrailIs(t, start, comps, nodes, |comps|);
    }
    if LeadsTo(t, start, comps, n) {
      var nodes :| Trail(t, start, comps, nodes) && |nodes| == |comps| + 1 && nodes[|comps|] == n;
      TrailIs(t, start, comps, nodes, |comps|);
    }
  }

  /** The first component that cannot be followed. */
  lemma {:induction false} FirstStuck(t: Tree, start: nat, comps: seq<string>, n: nat) returns (k: nat)
    requires n <= |comps| && Walk(t, start, comps, n).Err?
    ensures k < n && Walk(t, start, comps, k).Ok? && Walk(t, start, comps, k + 1) == Walk(t, start, comps, n)
  {
    if Walk(t, start, comps, n - 1).Ok? {
      k := n - 1;
    } else {
      k := FirstStuck(t, start, comps, n - 1);
    }
  }

  lemma StuckIs(t: Tree, start: nat, comps: seq<string>)
    ensures WalkAll(t, start, comps) == Err(ENOTDIR) <==> StuckAtFile(t, start, comps)
    ensures WalkAll(t, start, comps) == Err(ENOENT) <==> StuckAtName(t, start, comps)
  {
    if WalkAll(t, start, comps).Err? {
      var k := FirstStuck(t, start, comps, |comps|);
      var nodes := TrailOf(t, start, comps, k);
      TrailIs(t, start, comps, nodes, k);
    }
    forall nodes | Trail(t, start, comps, nodes) && |nodes| <= |comps| && comps[|nodes| - 1] != ".."
      ensures nodes[|nodes| - 1] !in t.children ==> WalkAll(t, start, comps) == Err(ENOTDIR)
      ensures nodes[|nodes| - 1] in t.children && comps[|nodes| - 1] !in t.children[nodes[|nodes| - 1]] ==>
                WalkAll(t, start, comps) == Err(ENOENT)
    {
      TrailIs(t, start, comps, nodes, |nodes| - 1);
      if Walk(t, start, comps, |nodes|).Err? {
        WalkFails(t, start, comps, |nodes|, |comps|);
      }
    }
  }

  /** `cd_comp` */
  method CdComp(t: Tree, start: nat, comps: seq<string>) returns (r: Result)
    ensures r == WalkAll(t, start, comps)
    ensures r.Ok? ==> LeadsTo(t, start, comps, r.node)
    ensures r == Err(ENOTDIR) <==> StuckAtFile(t, start, comps)
    ensures r == Err(ENOENT) <==> StuckAtName(t, start, comps)
  {
    StuckIs(t, start, comps);
    var current := start;
    for k := 0 to |comps|
      invariant Walk(t, start, comps, k) == Ok(current)
    {
      if comps[k] == ".." {
        if current in t.father {
          current := t.father[current];
        }
      } else {
        match OpenSubfile(t, current, comps[k])
        case Ok(child) => current := child;
        case Err(errno) =>
          WalkFails(t, start, comps, k + 1, |comps|);
          return Err(errno);
      }
    }
    TrailLeads(t, start, comps, current);
    r := Ok(current);
  }

  lemma {:induction false} WalkFails(t: Tree, start: nat, comps: seq<string>, k: nat, n: nat)
    requires k <= n <= |comps| && Walk(t, start, comps, k).Err?
    ensures Walk(t, start, comps, n) == Walk(t, start, comps, k)
    decreases n
  {
    if k < n {
      WalkFails(t, start, comps, k, n - 1);
    }
  }

  /** `cd_path`: if the path can be walked literally, that is where it leads. */
  method CdPath(t: Tree, root: nat, current: nat, path: string) returns (r: Result)
    requires Linked(t)
    ensures var start := if path != "" && path[0] == '/' then root else current;
            var comps := Split(path, |path|);
            && r == WalkAll(t, start, ParseDirPath(path))
            && (WalkRaw(t, start, comps, |comps|).Ok? ==> r == WalkRaw(t, start, comps, |comps|))
  {
    var comps := Split(path, |path|);
    var v := Normalize(comps, |comps|);
    var start := if path != "" && path[0] == '/' then root else current;
    if WalkRaw(t, start, comps, |comps|).Ok? {
      Meaning(t, start, comps, |comps|);
    }
    r := CdComp(t, start, v);
  }
}
