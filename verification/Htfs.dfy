/**
 The sandboxed file system of services/filesystem/htfs.go: paths given by a client are
 resolved against a working directory and then put below a root directory on the host.
 The functions of Go's path/filepath package that it uses are modelled on strings, with
 their Unix meaning.
 */
module Sandbox {
  import opened Text

  // ---------------------------------------------------------------- path/filepath

  function JoinParts(parts: seq<string>): string {
    if parts == [] then "" else if |parts| == 1 then parts[0] else parts[0] + "/" + JoinParts(parts[1..])
  }

  predicate IsAbs(s: string) {
    s != "" && s[0] == '/'
  }

  /** One step of Clean: nothing for an empty part or a dot, one up for two dots. */
  function Follow(rooted: bool, stack: seq<string>, part: string): seq<string> {
    if part == "" || part == "." then stack
    else if part != ".." then stack + [part]
    else if stack != [] && stack[|stack| - 1] != ".." then stack[..|stack| - 1]
    else if rooted then stack
    else stack + [".."]
  }

  function Walk(rooted: bool, stack: seq<string>, parts: seq<string>): seq<string>
    decreases |parts|
  {
    if parts == [] then stack else Walk(rooted, Follow(rooted, stack, parts[0]), parts[1..])
  }

  /** What a path means: whether it starts at the top, and the names on the way. */
  datatype Path = Path(rooted: bool, names: seq<string>)

  function Meaning(s: string): Path {
    Path(IsAbs(s), Walk(IsAbs(s), [], Split(s, '/')))
  }

  function Render(p: Path): string {
    if p.rooted then "/" + JoinParts(p.names) else if p.names == [] then "." else JoinParts(p.names)
  }

  function Clean(s: string): string {
    Render(Meaning(s))
  }

  function Join(a: string, b: string): string {
    if a != "" then Clean(a + "/" + b) else if b != "" then Clean(b) else ""
  }

  datatype Result = Ok(path: string) | Err

  function Common(a: seq<string>, b: seq<string>): (k: nat)
    ensures k <= |a| && k <= |b| && a[..k] == b[..k]
  {
    if a == [] || b == [] || a[0] != b[0] then 0 else 1 + Common(a[1..], b[1..])
  }

  /** filepath.Rel: a path that leads from base to target. */
  function Rel(base: string, target: string): Result {
    var b, t := Meaning(base), Meaning(target);
    if b == t then Ok(".")
    else if b.rooted != t.rooted then Err
    else
      var k := Common(b.names, t.names);
      if k < |b.names| && b.names[k] == ".." then Err
      else Ok(JoinParts(seq(|b.names| - k, _ => "..") + t.names[k..]))
  }

  // ---------------------------------------------------------------- htfs.go

  function RealPathOf(root: string, cwd: string, path: string): string {
    var abspath := if !IsAbs(path) then Join(cwd, path) else Clean(path);
    Join(root, abspath)
  }

  datatype Node = Missing | File | Directory

  class Htfs {
    const root: string
    var cwd: string

    ghost predicate Valid()
      reads this
    {
      root != "" && IsAbs(cwd) && ".." !in Split(cwd, '/')
    }

    constructor (root: string)
      requires root != ""
      ensures Valid() && this.root == root && cwd == "/"
    {
      this.root, cwd := root, "/";
      new;
      NoStepUp([]);
      assert "/" + JoinParts([]) == "/";
    }

    function RealPath(path: string): string
      reads this
    {
      RealPathOf(root, cwd, path)
    }

    /** `lstat` is what the host has at each path. */
    method ChangeDir(path: string, lstat: string -> Node) returns (ok: bool)
      requires Valid()
      modifies this
      ensures Valid()
      ensures ok <==> lstat(old(RealPath(path))) == Directory
      ensures !ok ==> cwd == old(cwd)
      ensures ok ==> RealPath(".") == old(RealPath(path))
      ensures ok ==> cwd == Render(Path(true, Below(old(cwd), path)))
      ensures ok ==> Meaning(cwd) == Path(true, Below(old(cwd), path))
    {
      var rpath := RealPath(path);
      var d := lstat(rpath);
      if d == Missing {
        return false;
      }
      if d == Directory {
        ChangeKeeps(root, cwd, path);
        BelowIsDownward(cwd, path);
        NoStepUp(Below(cwd, path));
        var rel := Rel(root, rpath);
        cwd := Join("/", rel.path);
        return true;
      }
      return false;
    }
  }

  // ---------------------------------------------------------------- reference: a root one cannot leave

  /** Walking inside a root directory: one up from the top stays at the top. */
  function Inside(stack: seq<string>, parts: seq<string>): seq<string>
    decreases |parts|
  {
    if parts == [] then stack
    else if parts[0] == "" || parts[0] == "." then Inside(stack, parts[1..])
    else if parts[0] == ".." then Inside(if stack == [] then [] else stack[..|stack| - 1], parts[1..])
    else Inside(stack + [parts[0]], parts[1..])
  }

  /** Where a path leads, below the root, from a working directory. */
  function Below(cwd: string, path: string): seq<string> {
    Inside(if IsAbs(path) then [] else Meaning(cwd).names, Split(path, '/'))
  }

  // ---------------------------------------------------------------- about strings and parts

  predicate Name(s: string) {
    s != "" && s != "." && '/' !in s
  }

  predicate Names(stack: seq<string>) {
    forall i :: 0 <= i < |stack| ==> Name(stack[i])
  }

  predicate Downward(stack: seq<string>) {
    forall i :: 0 <= i < |stack| ==> stack[i] != ".."
  }

  lemma {:induction false} SplitParts(s: string)
    ensures forall i :: 0 <= i < |Split(s, '/')| ==> '/' !in Split(s, '/')[i]
  {
    if s != "" {
      SplitParts(s[1..]);
    }
  }

  lemma {:induction false} SplitJoin(names: seq<string>)
    requires Names(names) && names != []
    ensures Split(JoinParts(names), '/') == names
  {
    SplitNothing(names[0], '/');
    if |names| > 1 {
      SplitJoin(names[1..]);
      SplitConcat(names[0], JoinParts(names[1..]), '/');
    }
  }

  // ---------------------------------------------------------------- about walking

  lemma {:induction false} WalkConcat(rooted: bool, stack: seq<string>, a: seq<string>, b: seq<string>)
    ensures Walk(rooted, stack, a + b) == Walk(rooted, Walk(rooted, stack, a), b)
    decreases |a|
  {
    if a == [] {
      assert a + b == b;
    } else {
      assert (a + b)[1..] == a[1..] + b;
      WalkConcat(rooted, Follow(rooted, stack, a[0]), a[1..], b);
    }
  }

  /** Going down names just adds them. */
  lemma {:induction false} WalkDown(rooted: bool, stack: seq<string>, names: seq<string>)
    requires Names(names) && Downward(names)
    ensures Walk(rooted, stack, names) == stack + names
    decreases |names|
  {
    if names != [] {
      WalkDown(rooted, stack + [names[0]], names[1..]);
      assert stack + [names[0]] + names[1..] == stack + names;
    } else {
      assert stack + names == stack;
    }
  }

  /** A walk from the top is a walk inside a root, and comes upon proper names only. */
  lemma {:induction false} WalkIsInside(stack: seq<string>, parts: seq<string>)
    requires Names(stack) && Downward(stack)
    requires forall i :: 0 <= i < |parts| ==> '/' !in parts[i]
    ensures Walk(true, stack, parts) == Inside(stack, parts)
    ensures Names(Inside(stack, parts)) && Downward(Inside(stack, parts))
    decreases |parts|
  {
    if parts != [] {
      WalkIsInside(Follow(true, stack, parts[0]), parts[1..]);
    }
  }

  lemma RootedMeaning(s: string)
    requires IsAbs(s)
    ensures Names(Meaning(s).names) && Downward(Meaning(s).names)
  {
    SplitParts(s);
    WalkIsInside([], Split(s, '/'));
  }

  /** Names as Clean leaves them: steps up, if any, come first, and never in a rooted path. */
  predicate Settled(rooted: bool, names: seq<string>) {
    && Names(names)
    && forall i :: 0 <= i < |names| && names[i] == ".." ==> !rooted && forall j :: 0 <= j < i ==> names[j] == ".."
  }

  lemma {:induction false} WalkSettles(rooted: bool, stack: seq<string>, parts: seq<string>)
    requires Settled(rooted, stack)
    requires forall i :: 0 <= i < |parts| ==> '/' !in parts[i]
    ensures Settled(rooted, Walk(rooted, stack, parts))
    decreases |parts|
  {
    if parts != [] {
      WalkSettles(rooted, Follow(rooted, stack, parts[0]), parts[1..]);
    }
  }

  lemma MeaningSettled(s: string)
    ensures Settled(Meaning(s).rooted, Meaning(s).names)
  {
    SplitParts(s);
    WalkSettles(IsAbs(s), [], Split(s, '/'));
  }

  lemma {:induction false} WalkSettled(rooted: bool, stack: seq<string>, names: seq<string>)
    requires Settled(rooted, stack + names)
    ensures Walk(rooted, stack, names) == stack + names
    decreases |names|
  {
    if names == [] {
      assert stack + names == stack;
    } else {
      var n := names[0];
      assert (stack + names)[|stack|] == n;
      assert stack + [n] + names[1..] == stack + names;
      if n == ".." && stack != [] {
        assert (stack + names)[|stack| - 1] == "..";
      }
      WalkSettled(rooted, stack + [n], names[1..]);
    }
  }

  /** Clean is idempotent: what it writes means what it was written for. */
  lemma MeaningOfRendered(p: Path)
    requires Settled(p.rooted, p.names)
    ensures Meaning(Render(p)) == p
  {
    var s := Render(p);
    WalkSettled(p.rooted, [], p.names);
    assert [] + p.names == p.names;
    if p.rooted {
      SplitRooted(p.names);
      assert ([""] + p.names)[1..] == p.names;
      assert [""] + [""] == ["", ""] && ["", ""][1..] == [""];
    } else if p.names == [] {
      SplitNothing(".", '/');
    } else {
      SplitJoin(p.names);
      StartsWithName(p.names);
    }
  }

  lemma SplitRooted(names: seq<string>)
    requires Names(names)
    ensures Split("/" + JoinParts(names), '/') == [""] + if names == [] then [""] else names
  {
    SplitConcat("", JoinParts(names), '/');
    assert "" + "/" + JoinParts(names) == "/" + JoinParts(names);
    if names != [] {
      SplitJoin(names);
    }
  }

  /** A clean path from the top has no step up in it. */
  lemma NoStepUp(names: seq<string>)
    requires Names(names) && Downward(names)
    ensures ".." !in Split(Render(Path(true, names)), '/')
  {
    SplitRooted(names);
  }

  lemma StartsWithName(names: seq<string>)
    requires Names(names) && names != []
    ensures !IsAbs(JoinParts(names))
  {
    assert JoinParts(names)[0] == names[0][0];
  }

  // ---------------------------------------------------------------- confinement

  lemma MeaningOfConcat(a: string, b: string)
    requires a != ""
    ensures Meaning(a + "/" + b) == Path(IsAbs(a), Walk(IsAbs(a), Meaning(a).names, Split(b, '/')))
  {
    SplitConcat(a, b, '/');
    WalkConcat(IsAbs(a), [], Split(a, '/'), Split(b, '/'));
  }

  /** The part of a real path below the root. */
  lemma BelowIsDownward(cwd: string, path: string)
    requires IsAbs(cwd)
    ensures Names(Below(cwd, path)) && Downward(Below(cwd, path))
    ensures Walk(true, if IsAbs(path) then [] else Meaning(cwd).names, Split(path, '/')) == Below(cwd, path)
  {
    SplitParts(path);
    RootedMeaning(cwd);
    WalkIsInside(if IsAbs(path) then [] else Meaning(cwd).names, Split(path, '/'));
  }

  /**
   Confinement: for every path a client can send, the real path consists of the root's names
   and, below them, of where the path leads inside the root; none of those is a step up.
   */
  lemma Confined(root: string, cwd: string, path: string)
    requires root != "" && IsAbs(cwd)
    ensures RealPathOf(root, cwd, path) == Render(Path(IsAbs(root), Meaning(root).names + Below(cwd, path)))
    ensures Meaning(RealPathOf(root, cwd, path)) == Path(IsAbs(root), Meaning(root).names + Below(cwd, path))
    ensures Names(Below(cwd, path)) && Downward(Below(cwd, path))
  {
    var below := Below(cwd, path);
    BelowIsDownward(cwd, path);
    if !IsAbs(path) {
      MeaningOfConcat(cwd, path);
    }
    var abspath := Render(Path(true, below));
    assert abspath == if !IsAbs(path) then Join(cwd, path) else Clean(path);
    MeaningOfConcat(root, abspath);
    WalkRendered(IsAbs(root), Meaning(root).names, below);
    MeaningSettled(root);
    MeaningOfRendered(Path(IsAbs(root), Meaning(root).names + below));
  }

  lemma WalkRendered(rooted: bool, stack: seq<string>, names: seq<string>)
    requires Names(names) && Downward(names)
    ensures Walk(rooted, stack, Split(Render(Path(true, names)), '/')) == stack + names
  {
    SplitRooted(names);
    WalkDown(rooted, stack, names);
    if names == [] {
      assert ["", ""][1..] == [""] && [""][1..] == [];
      assert [""] + [""] == ["", ""];
    } else {
      assert ([""] + names)[1..] == names;
    }
  }

  lemma {:induction false} CommonOfPrefix(a: seq<string>, b: seq<string>)
    ensures Common(a, a + b) == |a|
  {
    if a != [] {
      assert (a + b)[1..] == a[1..] + b;
      CommonOfPrefix(a[1..], b);
    }
  }

  /** A successful change of directory leads where the path led. */
  lemma ChangeKeeps(root: string, cwd: string, path: string)
    requires root != "" && IsAbs(cwd)
    ensures var rel := Rel(root, RealPathOf(root, cwd, path));
            && rel.Ok?
            && var cwd' := Join("/", rel.path);
               && cwd' == Render(Path(true, Below(cwd, path)))
               && IsAbs(cwd') && Meaning(cwd') == Path(true, Below(cwd, path))
               && RealPathOf(root, cwd', ".") == RealPathOf(root, cwd, path)
  {
    var below := Below(cwd, path);
    Confined(root, cwd, path);
    var rel := Rel(root, RealPathOf(root, cwd, path));
    RelOfBelow(Meaning(root), below);
    assert rel == Ok(if below == [] then "." else JoinParts(below));
    JoinRoot(below);
    var cwd' := Join("/", rel.path);
    MeaningOfRendered(Path(true, below));
    Confined(root, cwd', ".");
    DotStays(below);
  }

  lemma RelOfBelow(b: Path, below: seq<string>)
    ensures below == [] <==> b == b.(names := b.names + below)
    ensures Common(b.names, b.names + below) == |b.names|
    ensures seq(|b.names| - |b.names|, _ => "..") + (b.names + below)[|b.names|..] == below
  {
    CommonOfPrefix(b.names, below);
    assert |b.names + below| == |b.names| + |below|;
    if below == [] {
      assert b.names + below == b.names;
    }
  }

  lemma JoinRoot(names: seq<string>)
    requires Names(names) && Downward(names)
    ensures Join("/", if names == [] then "." else JoinParts(names)) == Render(Path(true, names))
  {
    var rel := if names == [] then "." else JoinParts(names);
    MeaningOfConcat("/", rel);
    SplitRooted([]);
    if names == [] {
      SplitNothing(".", '/');
    } else {
      SplitJoin(names);
    }
    WalkDown(true, [], names);
    assert Meaning("/").names == [] by {
      assert "/" + JoinParts([]) == "/";
      assert ["", ""][1..] == [""] && [""][1..] == [];
    }
    assert [] + names == names;
  }

  lemma DotStays(names: seq<string>)
    ensures Inside(names, Split(".", '/')) == names
  {
    SplitNothing(".", '/');
  }

  lemma {:induction false} JoinPartsConcat(a: seq<string>, b: seq<string>)
    requires a != [] && b != []
    ensures JoinParts(a + b) == JoinParts(a) + "/" + JoinParts(b)
  {
    if |a| == 1 {
      assert (a + b)[1..] == b;
    } else {
      assert (a + b)[1..] == a[1..] + b;
      JoinPartsConcat(a[1..], b);
    }
  }

  lemma RootedIfAbs(s: string)
    ensures Meaning(s).rooted == IsAbs(s)
  {
  }

  /** As strings: the real path is the clean root, or starts with it and a slash. */
  lemma RealPathStartsWithRoot(root: string, cwd: string, path: string)
    requires root != "" && IsAbs(cwd) && Meaning(root).names != []
    ensures var below := Below(cwd, path);
            RealPathOf(root, cwd, path) ==
            Clean(root) + if below == [] then "" else "/" + JoinParts(below)
  {
    hide Meaning, Below, RealPathOf, JoinParts;
    var names, below := Meaning(root).names, Below(cwd, path);
    Confined(root, cwd, path);
    RootedIfAbs(root);
    if below == [] {
      assert names + below == names;
      assert Clean(root) + "" == Clean(root);
    } else {
      JoinPartsConcat(names, below);
    }
  }

  // ---------------------------------------------------------------- every session

  /** A request to change directory, and what the host has at the path it comes to. */
  datatype Request = Request(path: string, found: Node)

  /** The working directory after a sequence of ChangeDir calls. */
  function CwdAfter(root: string, requests: seq<Request>): string {
    if requests == [] then "/" else
    var cwd, r := CwdAfter(root, requests[..|requests| - 1]), requests[|requests| - 1];
    var rel := Rel(root, RealPathOf(root, cwd, r.path));
    if r.found == Directory && rel.Ok? then Join("/", rel.path) else cwd
  }

  /** The same session, inside a root that cannot be left. */
  function InsideAfter(requests: seq<Request>): seq<string> {
    if requests == [] then [] else
    var names, r := InsideAfter(requests[..|requests| - 1]), requests[|requests| - 1];
    if r.found == Directory then Inside(if IsAbs(r.path) then [] else names, Split(r.path, '/')) else names
  }

  /**
   After any sequence of requests the working directory, as the string that Cwd hands out, is
   rooted and clean, without "..", and the one of a session inside a root that cannot be left:
   the host's root directory makes no difference to where the client is.
   */
  lemma {:induction false} SessionConfined(root: string, requests: seq<Request>)
    requires root != ""
    ensures var cwd := CwdAfter(root, requests);
            && cwd == Render(Path(true, InsideAfter(requests)))
            && IsAbs(cwd) && ".." !in Split(cwd, '/')
            && Meaning(cwd) == Path(true, InsideAfter(requests))
            && Names(InsideAfter(requests)) && Downward(InsideAfter(requests))
  {
    if requests == [] {
      SplitRooted([]);
      assert "/" + JoinParts([]) == "/";
      assert [""] + [""] == ["", ""] && ["", ""][1..] == [""] && [""][1..] == [];
      NoStepUp([]);
    } else {
      hide Meaning, Render, Split, Rel, RealPathOf, Join;
      var before, r := requests[..|requests| - 1], requests[|requests| - 1];
      SessionConfined(root, before);
      ChangeKeeps(root, CwdAfter(root, before), r.path);
      BelowIsDownward(CwdAfter(root, before), r.path);
      NoStepUp(Below(CwdAfter(root, before), r.path));
    }
  }
}
