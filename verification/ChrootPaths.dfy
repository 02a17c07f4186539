/** Lexical path normalisation and confinement of configured paths to the chroot directory. */
module ChrootPaths {
  import opened Basics
  import opened ZoneNames

  /** `std::path::Component` on Unix. */
  datatype Component = RootDir | CurDir | ParentDir | Normal(part: string)

  /** A path buffer that only ever holds an optional root and normal components. */
  datatype Path = Path(absolute: bool, parts: seq<string>)

  const EMPTY := Path(false, [])

  // ----- Strings to components -----

  /** The pieces between the slashes of a string. */
  function Pieces(s: string): (r: seq<string>)
    ensures |r| > 0
  {
    Split('/', s)
  }

  function PieceComponents(pieces: seq<string>): seq<Component> {
    if |pieces| == 0 then []
    else
      var p := pieces[0];
      (if p == "" then [] else if p == "." then [CurDir] else if p == ".." then [ParentDir] else [Normal(p)]) +
      PieceComponents(pieces[1..])
  }

  predicate IsAbsolute(s: string) { |s| > 0 && s[0] == '/' }

  /** `Path::components`; inner `.` components are kept here, normalisation ignores them anyway. */
  function Components(s: string): seq<Component> {
    (if IsAbsolute(s) then [RootDir] else []) + PieceComponents(Pieces(s))
  }

  // ----- Normalisation -----

  /** One step of `normalize_lexical`: `..` pops, and does nothing at the root or on an empty buffer. */
  function Push(p: Path, c: Component): Path {
    match c
    case RootDir => Path(true, [])
    case CurDir => p
    case ParentDir => if |p.parts| > 0 then p.(parts := p.parts[..|p.parts| - 1]) else p
    case Normal(part) => p.(parts := p.parts + [part])
  }

  function PushAll(p: Path, cs: seq<Component>): Path
    decreases |cs|
  {
    if |cs| == 0 then p else PushAll(Push(p, cs[0]), cs[1..])
  }

  function Normalize(cs: seq<Component>): Path { PushAll(EMPTY, cs) }

  /** `normalize_lexical`, pushing to and popping from a buffer. */
  method NormalizeLexical(cs: seq<Component>) returns (p: Path)
    ensures p == Normalize(cs)
  {
    var absolute, parts := false, [];
    assert cs[0..] == cs;
    for i := 0 to |cs|
      invariant PushAll(Path(absolute, parts), cs[i..]) == Normalize(cs)
    {
      assert cs[i..][1..] == cs[i + 1..];
      match cs[i] {
        case RootDir => absolute, parts := true, [];
        case CurDir =>
        case ParentDir =>
          if |parts| > 0 {
            parts := parts[..|parts| - 1];
          }
        case Normal(part) => parts := parts + [part];
      }
    }
    p := Path(absolute, parts);
  }

  function Normals(parts: seq<string>): seq<Component> {
    seq(|parts|, i requires 0 <= i < |parts| => Normal(parts[i]))
  }

  function PathComponents(p: Path): seq<Component> { (if p.absolute then [RootDir] else []) + Normals(p.parts) }

  // ----- Resolution -----

  predicate StartsWith(p: Path, prefix: Path) { p.absolute == prefix.absolute && prefix.parts <= p.parts }

  /** `parse_chroot_dir`. */
  function ParseChroot(s: string): (r: Option<Path>)
    ensures r.Some? ==> r.value.absolute && Clean(r.value.parts)
  {
    if |Trim(s)| == 0 || !IsAbsolute(s) then None
    else
      ComponentsAreClean(s);
      NormalizeKeepsClean(EMPTY, Components(s));
      AbsoluteStays(PieceComponents(Pieces(s)), Path(true, []));
      PiecesHaveNoRoot(Pieces(s));
      Some(Normalize(Components(s)))
  }

  /** `resolve_scoped_host_path`. */
  function ResolveHost(path: string, chroot: Path): Option<Path> {
    var trimmed := Trim(path);
    if |trimmed| == 0 then None
    else
      var joined := if IsAbsolute(trimmed) then Components(trimmed) else PathComponents(chroot) + Components(trimmed);
      var normalized := Normalize(joined);
      if StartsWith(normalized, chroot) then Some(normalized) else None
  }

  /** `resolve_path_for_chroot_runtime`: the same path seen from inside the chroot. */
  function ResolveRuntime(path: string, chroot: Path): Option<Path> {
    var host := ResolveHost(path, chroot);
    if host.None? then None else Some(Path(true, host.value.parts[|chroot.parts|..]))
  }

  // ----- Results are clean -----

  predicate CleanPart(s: string) { s != "" && s != "." && s != ".." && '/' !in s }

  predicate Clean(parts: seq<string>) { forall i :: 0 <= i < |parts| ==> CleanPart(parts[i]) }

  predicate CleanComponents(cs: seq<Component>) {
    forall i :: 0 <= i < |cs| && cs[i].Normal? ==> CleanPart(cs[i].part)
  }

  lemma {:induction false} PiecesHaveNoSlash(s: string)
    ensures forall i :: 0 <= i < |Pieces(s)| ==> '/' !in Pieces(s)[i]
  {
    if |s| > 0 {
      PiecesHaveNoSlash(s[1..]);
      var rest := Pieces(s[1..]);
      assert Pieces(s) == if s[0] == '/' then [""] + rest else Prepend(s[0], rest);
    }
  }

  lemma {:induction false} PieceComponentsAreClean(pieces: seq<string>)
    requires forall i :: 0 <= i < |pieces| ==> '/' !in pieces[i]
    ensures CleanComponents(PieceComponents(pieces))
  {
    if |pieces| > 0 {
      PieceComponentsAreClean(pieces[1..]);
    }
  }

  lemma ComponentsAreClean(s: string)
    ensures CleanComponents(Components(s))
  {
    PiecesHaveNoSlash(s);
    PieceComponentsAreClean(Pieces(s));
  }

  lemma {:induction false} NormalizeKeepsClean(p: Path, cs: seq<Component>)
    requires Clean(p.parts) && CleanComponents(cs)
    ensures Clean(PushAll(p, cs).parts)
    decreases |cs|
  {
    if |cs| > 0 {
      NormalizeKeepsClean(Push(p, cs[0]), cs[1..]);
    }
  }

  /** Normalising any path string leaves no empty, `.`, `..` or slash-bearing component. */
  lemma NormalizedIsClean(s: string)
    ensures Clean(Normalize(Components(s)).parts)
  {
    ComponentsAreClean(s);
    NormalizeKeepsClean(EMPTY, Components(s));
  }

  lemma {:induction false} PiecesHaveNoRoot(pieces: seq<string>)
    ensures RootDir !in PieceComponents(pieces)
  {
    if |pieces| > 0 {
      PiecesHaveNoRoot(pieces[1..]);
    }
  }

  lemma {:induction false} AbsoluteStays(cs: seq<Component>, p: Path)
    requires p.absolute
    ensures PushAll(p, cs).absolute
    decreases |cs|
  {
    if |cs| > 0 {
      AbsoluteStays(cs[1..], Push(p, cs[0]));
    }
  }

  // ----- The laws that determine normalisation -----

  lemma {:induction false} PushAllConcat(p: Path, a: seq<Component>, b: seq<Component>)
    ensures PushAll(p, a + b) == PushAll(PushAll(p, a), b)
    decreases |a|
  {
    if |a| == 0 {
      assert a + b == b;
    } else {
      assert (a + b)[1..] == a[1..] + b;
      PushAllConcat(Push(p, a[0]), a[1..], b);
    }
  }

  lemma PushOne(p: Path, c: Component)
    ensures PushAll(p, [c]) == Push(p, c)
  {
    assert [c][1..] == [];
  }

  lemma PushTwo(p: Path, c: Component, d: Component)
    ensures PushAll(p, [c, d]) == Push(Push(p, c), d)
  {
    assert [c, d] == [c] + [d];
    PushAllConcat(p, [c], [d]);
    PushOne(p, c);
    PushOne(Push(p, c), d);
  }

  lemma {:induction false} PushNormals(p: Path, parts: seq<string>)
    ensures PushAll(p, Normals(parts)) == p.(parts := p.parts + parts)
    decreases |parts|
  {
    if |parts| > 0 {
      assert Normals(parts)[1..] == Normals(parts[1..]);
      PushNormals(Push(p, Normal(parts[0])), parts[1..]);
      assert (p.parts + [parts[0]]) + parts[1..] == p.parts + parts;
    }
  }

  /**
   Normalisation erases `.`, erases a name followed by `..`, ignores `..` at the root, and changes
   nothing else. These equations fix its value on every path.
   */
  lemma NormalizationLaws(a: seq<Component>, b: seq<Component>, x: string, p: Path)
    ensures Normalize(a + [CurDir] + b) == Normalize(a + b)
    ensures Normalize(a + [Normal(x), ParentDir] + b) == Normalize(a + b)
    ensures Normalize(a + [RootDir, ParentDir] + b) == Normalize(a + [RootDir] + b)
    ensures Normalize(PathComponents(p)) == p
  {
    hide PushAll;
    var q := PushAll(EMPTY, a);
    PushAllConcat(EMPTY, a, b);
    Middle(a, [CurDir], b);
    PushOne(q, CurDir);
    Middle(a, [Normal(x), ParentDir], b);
    PushTwo(q, Normal(x), ParentDir);
    Middle(a, [RootDir, ParentDir], b);
    PushTwo(q, RootDir, ParentDir);
    Middle(a, [RootDir], b);
    PushOne(q, RootDir);
    NormalizeIsIdentityOnPaths(p);
  }

  lemma Middle(a: seq<Component>, m: seq<Component>, b: seq<Component>)
    ensures Normalize(a + m + b) == PushAll(PushAll(PushAll(EMPTY, a), m), b)
  {
    PushAllConcat(EMPTY, a + m, b);
    PushAllConcat(EMPTY, a, m);
  }

  lemma NormalizeIsIdentityOnPaths(p: Path)
    ensures Normalize(PathComponents(p)) == p
  {
    if p.absolute {
      PushAllConcat(EMPTY, [RootDir], Normals(p.parts));
      PushOne(EMPTY, RootDir);
      PushNormals(Path(true, []), p.parts);
    } else {
      assert PathComponents(p) == Normals(p.parts);
      PushNormals(EMPTY, p.parts);
    }
  }

  // ----- Confinement -----

  /**
   Every accepted path lies in the chroot, and is the chroot followed by its runtime path; its text
   extends the chroot's text by a slash and further components, none of them `.` or `..`.
   */
  lemma AcceptedStaysInChroot(path: string, chroot: Path)
    requires chroot.absolute && Clean(chroot.parts) && ResolveHost(path, chroot).Some?
    ensures var host := ResolveHost(path, chroot).value;
            && host.absolute && chroot.parts <= host.parts
            && ResolveRuntime(path, chroot).Some?
            && host.parts == chroot.parts + ResolveRuntime(path, chroot).value.parts
    ensures var text := Render(ResolveHost(path, chroot).value);
            var inside := ResolveRuntime(path, chroot).value;
            && (inside.parts == [] ==> text == Render(chroot))
            && (inside.parts != [] ==> text == RenderParts(chroot.parts) + Render(inside))
            && (text != "/" ==> Pieces(text) == [""] + chroot.parts + inside.parts && Clean(chroot.parts + inside.parts))
  {
    var host := ResolveHost(path, chroot).value;
    var inside := ResolveRuntime(path, chroot).value;
    AcceptedIsClean(path, chroot);
    assert host == Path(true, chroot.parts + inside.parts);
    hide ResolveHost, ResolveRuntime, Pieces, RenderParts, Render;
    TextOfJoined(chroot.parts, inside.parts);
  }

  lemma TextOfJoined(base: seq<string>, inside: seq<string>)
    requires Clean(base + inside)
    ensures var text := Render(Path(true, base + inside));
            && (inside == [] ==> text == Render(Path(true, base)))
            && (inside != [] ==> text == RenderParts(base) + Render(Path(true, inside)))
            && (text != "/" ==> Pieces(text) == [""] + base + inside)
  {
    hide RenderParts, Pieces;
    RenderConcat(base, inside);
    if inside == [] {
      assert base + inside == base;
    }
    PiecesOfRender(base + inside);
    assert [""] + base + inside == [""] + (base + inside);
  }

  lemma {:induction false} RenderConcat(a: seq<string>, b: seq<string>)
    ensures RenderParts(a + b) == RenderParts(a) + RenderParts(b)
  {
    if |a| == 0 {
      assert a + b == b;
    } else {
      hide RenderParts;
      var x, rest := a[0], a[1..];
      assert a == [x] + rest && a + b == [x] + (rest + b);
      RenderConcat(rest, b);
      RenderCons(x, rest);
      RenderCons(x, rest + b);
      Reassociate("/" + x, RenderParts(rest), RenderParts(b));
    }
  }

  lemma RenderCons(x: string, rest: seq<string>)
    ensures RenderParts([x] + rest) == ("/" + x) + RenderParts(rest)
  {
    assert ([x] + rest)[1..] == rest;
  }

  /** What a relative walk amounts to: climb so many levels from its start, then descend. */
  datatype Net = Net(climb: nat, parts: seq<string>)

  function NetStep(n: Net, c: Component): Net {
    match c
    case RootDir => n
    case CurDir => n
    case ParentDir => if |n.parts| > 0 then n.(parts := n.parts[..|n.parts| - 1]) else n.(climb := n.climb + 1)
    case Normal(part) => n.(parts := n.parts + [part])
  }

  function NetOf(n: Net, cs: seq<Component>): Net
    decreases |cs|
  {
    if |cs| == 0 then n else NetOf(NetStep(n, cs[0]), cs[1..])
  }

  /** How many levels a climb from `base` goes up; it stops at the root. */
  function Up(base: seq<string>, n: Net): (u: nat)
    ensures u <= |base|
  {
    Min(n.climb, |base|)
  }

  function Arrive(base: seq<string>, n: Net): Path { Path(true, base[..|base| - Up(base, n)] + n.parts) }

  lemma StepArrives(base: seq<string>, n: Net, c: Component)
    requires !c.RootDir?
    ensures Push(Arrive(base, n), c) == Arrive(base, NetStep(n, c))
  {
  }

  lemma {:induction false} WalkArrives(base: seq<string>, n: Net, cs: seq<Component>)
    requires RootDir !in cs
    ensures PushAll(Arrive(base, n), cs) == Arrive(base, NetOf(n, cs))
    decreases |cs|
  {
    if |cs| > 0 {
      StepArrives(base, n, cs[0]);
      WalkArrives(base, NetStep(n, cs[0]), cs[1..]);
    }
  }

  /**
   Exactly which relative paths are accepted: those that descend, after however many levels they
   climbed out of the chroot, back through exactly the chroot components they had left.
   */
  lemma RelativeAcceptedExactlyWhen(path: string, chroot: Path)
    requires chroot.absolute && Trim(path) != "" && !IsAbsolute(Trim(path))
    ensures var n := NetOf(Net(0, []), Components(Trim(path)));
            var kept := |chroot.parts| - Up(chroot.parts, n);
            ResolveHost(path, chroot) ==
            if chroot.parts[kept..] <= n.parts then Some(Path(true, chroot.parts[..kept] + n.parts)) else None
  {
    var cs := Components(Trim(path));
    RelativeHasNoRoot(Trim(path));
    hide PushAll, Components, Trim, NetOf, Up;
    PushAllConcat(EMPTY, PathComponents(chroot), cs);
    NormalizeIsIdentityOnPaths(chroot);
    NowhereYet(chroot);
    WalkArrives(chroot.parts, Net(0, []), cs);
    var n := NetOf(Net(0, []), cs);
    Reenters(chroot.parts, |chroot.parts| - Up(chroot.parts, n), n.parts);
  }

  lemma RelativeHasNoRoot(s: string)
    requires !IsAbsolute(s)
    ensures RootDir !in Components(s)
  {
    PiecesHaveNoRoot(Pieces(s));
  }

  lemma NowhereYet(chroot: Path)
    requires chroot.absolute
    ensures Arrive(chroot.parts, Net(0, [])) == chroot
  {
  }

  lemma Reenters(base: seq<string>, kept: nat, parts: seq<string>)
    requires kept <= |base|
    ensures base <= base[..kept] + parts <==> base[kept..] <= parts
  {
    var s := base[..kept] + parts;
    assert s[kept..] == parts;
    if base <= s {
      assert base[kept..] == s[kept..|base|] == parts[..|base| - kept];
    }
    if base[kept..] <= parts {
      assert base == base[..kept] + base[kept..];
      assert s[..|base|] == base[..kept] + parts[..|base| - kept];
    }
  }

  /** A chroot is refused exactly when it is blank or relative; the text of a clean absolute path parses to that path. */
  lemma ParseChrootExactly(s: string, p: Path)
    ensures ParseChroot(s).None? <==> AllWhitespace(s) || s[0] != '/'
    ensures p.absolute && Clean(p.parts) ==> ParseChroot(Render(p)) == Some(p)
  {
    BlankExactlyWhen(s);
    if p.absolute && Clean(p.parts) {
      RenderStartsWithSlash(p);
      SlashIsNoBlank(Render(p));
      BlankExactlyWhen(Render(p));
      ComponentsOfRender(p);
      NormalizeIsIdentityOnPaths(p);
    }
    hide Components, Trim, Normalize, Render, AllWhitespace;
  }

  lemma BlankExactlyWhen(s: string)
    ensures Trim(s) == "" <==> AllWhitespace(s)
  {
    hide Trim, IsWhitespace;
    var lo, end := Trimmed(s);
    if lo == end {
      assert s == s[..lo] + s[end..];
      assert forall i :: 0 <= i < lo ==> s[..lo][i] == s[i];
      forall i | 0 <= i < |s|
        ensures IsWhitespace(s[i])
      {
        if i >= end {
          assert s[end..][i - end] == s[i];
        } else {
          assert s[..lo][i] == s[i];
        }
      }
    }
  }

  lemma SlashIsNoBlank(s: string)
    requires |s| > 0 && s[0] == '/'
    ensures !AllWhitespace(s)
  {
    assert !IsWhitespace(s[0]);
  }

  /** Blank paths are refused; the text of a clean absolute path that trimming leaves alone is accepted exactly inside the chroot. */
  lemma AbsoluteAcceptedExactlyWhen(s: string, p: Path, chroot: Path)
    requires chroot.absolute
    ensures AllWhitespace(s) ==> ResolveHost(s, chroot) == None
    ensures p.absolute && Clean(p.parts) && Trim(Render(p)) == Render(p) ==>
              ResolveHost(Render(p), chroot) == if chroot.parts <= p.parts then Some(p) else None
  {
    BlankExactlyWhen(s);
    if p.absolute && Clean(p.parts) && Trim(Render(p)) == Render(p) {
      RenderStartsWithSlash(p);
      ComponentsOfRender(p);
      NormalizeIsIdentityOnPaths(p);
    }
    hide Components, Trim, Normalize, Render, AllWhitespace;
  }

  /** Starting `depth` components in, the walk never climbs above its start. */
  predicate StaysInside(cs: seq<Component>, depth: nat) {
    |cs| == 0 ||
    match cs[0]
    case RootDir => false
    case CurDir => StaysInside(cs[1..], depth)
    case ParentDir => depth > 0 && StaysInside(cs[1..], depth - 1)
    case Normal(_) => StaysInside(cs[1..], depth + 1)
  }

  lemma {:induction false} InsideWalk(base: seq<string>, q: Path, cs: seq<Component>)
    requires StaysInside(cs, |q.parts|) && !q.absolute
    ensures PushAll(Path(true, base + q.parts), cs) == Path(true, base + PushAll(q, cs).parts)
    decreases |cs|
  {
    if |cs| > 0 {
      var q' := Push(q, cs[0]);
      if cs[0].ParentDir? {
        assert (base + q.parts)[..|base + q.parts| - 1] == base + q'.parts;
      } else if cs[0].Normal? {
        assert (base + q.parts) + [cs[0].part] == base + q'.parts;
      }
      InsideWalk(base, q', cs[1..]);
    }
  }

  /** A relative path that never climbs above its start is accepted, below the chroot. */
  lemma RelativeInsideIsAccepted(path: string, chroot: Path)
    requires chroot.absolute && Trim(path) != "" && !IsAbsolute(Trim(path))
    requires StaysInside(Components(Trim(path)), 0)
    ensures ResolveHost(path, chroot) ==
            Some(Path(true, chroot.parts + Normalize(Components(Trim(path))).parts))
  {
    hide PushAll, Components;
    var cs := Components(Trim(path));
    PushAllConcat(EMPTY, PathComponents(chroot), cs);
    NormalizeIsIdentityOnPaths(chroot);
    assert chroot.parts + EMPTY.parts == chroot.parts;
    InsideWalk(chroot.parts, EMPTY, cs);
  }

  // ----- Resolving a result again -----

  /** `to_string_lossy` of an absolute path. */
  function Render(p: Path): string { if |p.parts| == 0 then "/" else RenderParts(p.parts) }

  function RenderParts(parts: seq<string>): string {
    if |parts| == 0 then "" else "/" + parts[0] + RenderParts(parts[1..])
  }

  lemma {:induction false} PiecesOfPart(part: string, rest: string)
    requires '/' !in part && (rest == "" || rest[0] == '/')
    ensures Pieces(part + rest) == [part] + Pieces(rest)[1..]
    ensures Pieces(rest)[0] == ""
  {
    if |part| == 0 {
      assert part + rest == rest;
    } else {
      var s := part + rest;
      assert s[1..] == part[1..] + rest && s[0] == part[0];
      PiecesOfPart(part[1..], rest);
      assert [part[0]] + part[1..] == part;
    }
  }

  lemma {:induction false} PiecesOfRender(parts: seq<string>)
    requires Clean(parts)
    ensures Pieces(RenderParts(parts)) == [""] + parts
  {
    NoPieces();
    RenderShape(parts);
    hide Pieces, RenderParts;
    if |parts| == 0 {
      assert [""] + parts == [""];
    } else {
      var first, rest := parts[0], parts[1..];
      PiecesOfRender(rest);
      RenderShape(rest);
      PiecesOfPart(first, RenderParts(rest));
      assert parts == [first] + rest;
      RenderCons(first, rest);
      Reassociate("/", first, RenderParts(rest));
      AfterSlash(first + RenderParts(rest));
    }
  }

  lemma RenderShape(parts: seq<string>)
    ensures if |parts| == 0 then RenderParts(parts) == "" else RenderParts(parts) != "" && RenderParts(parts)[0] == '/'
  {
  }

  lemma {:induction false} ComponentsOfParts(parts: seq<string>)
    requires Clean(parts)
    ensures PieceComponents(parts) == Normals(parts)
  {
    if |parts| > 0 {
      ComponentsOfParts(parts[1..]);
      assert Normals(parts) == [Normal(parts[0])] + Normals(parts[1..]);
    }
  }

  lemma ComponentsOfRender(p: Path)
    requires p.absolute && Clean(p.parts)
    ensures Components(Render(p)) == PathComponents(p)
  {
    if |p.parts| == 0 {
      assert Render(p)[1..] == "";
      assert Pieces("/") == [""] + Pieces("");
      assert PieceComponents(["", ""]) == PieceComponents([""]) by { assert ["", ""][1..] == [""]; }
      assert PieceComponents([""]) == [] by { assert [""][1..] == []; }
    } else {
      PiecesOfRender(p.parts);
      assert ([""] + p.parts)[1..] == p.parts;
      ComponentsOfParts(p.parts);
    }
  }

  /** Characters a list of parts takes up, slashes included. */
  function Weight(parts: seq<string>): nat {
    if |parts| == 0 then 0 else Weight(parts[..|parts| - 1]) + |parts[|parts| - 1]| + 1
  }

  function ComponentWeight(cs: seq<Component>): nat {
    if |cs| == 0 then 0 else (if cs[0].Normal? then |cs[0].part| + 1 else 0) + ComponentWeight(cs[1..])
  }

  function PieceWeight(pieces: seq<string>): nat {
    if |pieces| == 0 then 0 else |pieces[0]| + 1 + PieceWeight(pieces[1..])
  }

  lemma {:induction false} PieceWeightIsLength(s: string)
    ensures PieceWeight(Pieces(s)) == |s| + 1
  {
    if |s| == 0 {
      assert [""][1..] == [];
    } else {
      PieceWeightIsLength(s[1..]);
      var rest := Pieces(s[1..]);
      if s[0] == '/' {
        assert ([""] + rest)[1..] == rest;
      } else {
        assert Prepend(s[0], rest)[1..] == rest[1..];
      }
    }
  }

  lemma {:induction false} ComponentsWeighLess(pieces: seq<string>)
    ensures ComponentWeight(PieceComponents(pieces)) <= PieceWeight(pieces)
  {
    if |pieces| > 0 {
      ComponentsWeighLess(pieces[1..]);
      var rest := PieceComponents(pieces[1..]);
      var cs := PieceComponents(pieces);
      if pieces[0] == "" {
        assert cs == rest;
      } else {
        assert cs[1..] == rest;
      }
    }
  }

  lemma {:induction false} NormalizeWeighsLess(p: Path, cs: seq<Component>)
    ensures Weight(PushAll(p, cs).parts) <= Weight(p.parts) + ComponentWeight(cs)
    decreases |cs|
  {
    if |cs| > 0 {
      NormalizeWeighsLess(Push(p, cs[0]), cs[1..]);
      if cs[0].Normal? {
        assert (p.parts + [cs[0].part])[..|p.parts|] == p.parts;
      }
    }
  }

  /** Normalising an absolute path never makes it longer. */
  lemma NormalizeNeverLengthens(s: string)
    requires IsAbsolute(s)
    ensures Weight(Normalize(Components(s)).parts) <= |s|
  {
    var pieces := Pieces(s);
    PieceWeightIsLength(s);
    ComponentsWeighLess(pieces[1..]);
    assert PieceComponents(pieces) == PieceComponents(pieces[1..]);
    var cs := Components(s);
    assert cs[1..] == PieceComponents(pieces);
    NormalizeWeighsLess(EMPTY, cs);
  }

  lemma {:induction false} RenderWeight(parts: seq<string>)
    ensures |RenderParts(parts)| == Weight(parts)
  {
    if |parts| > 0 {
      RenderWeight(parts[1..]);
      WeightFront(parts);
    }
  }

  lemma {:induction false} WeightFront(parts: seq<string>)
    requires |parts| > 0
    ensures Weight(parts) == |parts[0]| + 1 + Weight(parts[1..])
  {
    if |parts| > 1 {
      var front := parts[..|parts| - 1];
      WeightFront(front);
      assert front[1..] == parts[1..][..|parts| - 2];
    }
  }

  lemma {:induction false} TrimEndPrefix(s: string)
    ensures TrimEnd(s) <= s
  {
    if |s| > 0 && IsWhitespace(s[|s| - 1]) {
      TrimEndPrefix(s[..|s| - 1]);
    }
  }

  lemma {:induction false} TrimEndKeepsStart(s: string)
    requires |s| > 0 && !IsWhitespace(s[0])
    ensures |TrimEnd(s)| > 0 && TrimEnd(s)[0] == s[0]
  {
    if IsWhitespace(s[|s| - 1]) {
      TrimEndKeepsStart(s[..|s| - 1]);
    }
  }

  lemma RenderStartsWithSlash(p: Path)
    ensures |Render(p)| > 0 && Render(p)[0] == '/'
  {
  }

  lemma AcceptedIsClean(path: string, chroot: Path)
    requires Clean(chroot.parts) && ResolveHost(path, chroot).Some?
    ensures Clean(ResolveHost(path, chroot).value.parts)
  {
    var t := Trim(path);
    ComponentsAreClean(t);
    NormalizeKeepsClean(EMPTY, Components(t));
    NormalizeKeepsClean(EMPTY, PathComponents(chroot) + Components(t));
  }

  /**
   Resolving the text of an accepted host path again gives the same path, exactly when trimming
   leaves that text alone (that is, unless its last component ends in whitespace).
   */
  lemma ResolutionIsFixedPointExactlyWhen(path: string, chroot: Path)
    requires chroot.absolute && Clean(chroot.parts) && ResolveHost(path, chroot).Some?
    ensures var p := ResolveHost(path, chroot).value;
            ResolveHost(Render(p), chroot) == Some(p) <==> Trim(Render(p)) == Render(p)
  {
    var p := ResolveHost(path, chroot).value;
    AcceptedIsClean(path, chroot);
    hide PushAll, Components, TrimEnd, Render;
    var s := Render(p);
    RenderStartsWithSlash(p);
    assert TrimStart(s) == s;
    TrimEndPrefix(s);
    TrimEndKeepsStart(s);
    if Trim(s) == s {
      ComponentsOfRender(p);
      NormalizeIsIdentityOnPaths(p);
    } else {
      assert |Trim(s)| < |s|;
      NormalizeNeverLengthens(Trim(s));
      RenderedLength(p);
    }
  }

  lemma RenderedLength(p: Path)
    ensures |Render(p)| == if |p.parts| == 0 then 1 else Weight(p.parts)
  {
    RenderWeight(p.parts);
  }

  /** The path `/a /.` loses its trailing blank when its result is resolved again. */
  lemma TrailingBlankIsLost()
    ensures var root := Path(true, []);
            && ResolveHost("/a /.", root) == Some(Path(true, ["a "]))
            && ResolveHost(Render(Path(true, ["a "])), root) == Some(Path(true, ["a"]))
  {
    BlankComponents();
    BlankTrims();
    hide Components, Trim, Render, Normalize;
    OneName("a ", [CurDir]);
    OneName("a", []);
  }

  lemma BlankTrims()
    ensures Trim("/a /.") == "/a /." && Render(Path(true, ["a "])) == "/a " && Trim("/a ") == "/a"
  {
    assert ["a "][1..] == [];
    assert "/a "[..2] == "/a";
    assert TrimEnd("/a ") == TrimEnd("/a") == "/a";
  }

  lemma BlankComponents()
    ensures Components("/a /.") == [RootDir] + ([Normal("a ")] + [CurDir])
    ensures Components("/a") == [RootDir] + ([Normal("a")] + [])
  {
    BlankPieces();
    hide Pieces, PieceComponents;
    TwoPieces("a ", ".");
    ThreePieces("", "a ", ".");
    TwoPieces("", "a");
    OnePiece("");
    OnePiece("a ");
    OnePiece("a");
    OnePiece(".");
  }

  lemma BlankPieces()
    ensures Pieces("/a /.") == ["", "a ", "."] && Pieces("/a") == ["", "a"]
  {
    AfterSlash("a /.");
    AfterSlash(".");
    AfterSlash("a");
    hide Pieces;
    PiecesOfPart("a ", "/.");
    PiecesOfPart(".", "");
    PiecesOfPart("a", "");
    assert "a " + "/." == "a /." && "/" + "." == "/." && "." + "" == "." && "a" + "" == "a";
    assert "/" + "a /." == "/a /." && "/" + "a" == "/a";
    NoPieces();
  }

  lemma NoPieces()
    ensures Pieces("") == [""]
  {
  }

  lemma AfterSlash(s: string)
    ensures Pieces("/" + s) == [""] + Pieces(s)
  {
    assert ("/" + s)[1..] == s;
  }

  lemma OnePiece(p: string)
    ensures PieceComponents([p]) ==
            if p == "" then [] else if p == "." then [CurDir] else if p == ".." then [ParentDir] else [Normal(p)]
  {
    assert [p][1..] == [];
  }

  lemma TwoPieces(p: string, q: string)
    ensures PieceComponents([p, q]) == PieceComponents([p]) + PieceComponents([q])
  {
    assert [p, q][1..] == [q] && [p][1..] == [];
  }

  lemma ThreePieces(p: string, q: string, r: string)
    ensures PieceComponents([p, q, r]) == PieceComponents([p]) + PieceComponents([q, r])
  {
    assert [p, q, r][1..] == [q, r] && [p][1..] == [];
  }

  lemma OneName(part: string, rest: seq<Component>)
    requires rest == [] || rest == [CurDir]
    ensures Normalize([RootDir] + ([Normal(part)] + rest)) == Path(true, [part])
  {
    assert [RootDir] + ([Normal(part)] + rest) == [RootDir, Normal(part)] + rest;
    PushAllConcat(EMPTY, [RootDir, Normal(part)], rest);
    PushTwo(EMPTY, RootDir, Normal(part));
    if rest != [] {
      PushOne(Path(true, [part]), CurDir);
    }
  }
}
