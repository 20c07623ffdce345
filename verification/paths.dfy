/** Dotted-path resolution and creation in `src/configurator/core.py`:
    `getSectionByPath`, `addSectionByPath`, `addOptionByPath`,
    `getOptionByPath` and `InvalidPathException`. A path is split at every `.`;
    each segment may carry a bracketed predicate. Resolution answers an index
    path into the configurator, or the error that names the part of the path
    that resolved and the part that did not. */
module ConfigPaths {
  import opened Wrappers
  import opened PyStrings
  import opened Segments
  import opened ConfigTree

  /** `InvalidPathException`. Its type is always 'section', so only the two
      path parts are kept. */
  datatype InvalidPath = InvalidPath(validPath: string, invalidPath: string)

  /** The outcome of walking a list of segments: every segment matched, or the
      walk stopped after the sections in `ip`. */
  datatype Walk = Found(ip: seq<nat>) | Stuck(ip: seq<nat>)

  function Prefixed(prefix: seq<nat>, w: Walk): (r: Walk)
    ensures r.Found? == w.Found? && r.ip == prefix + w.ip
  {
    match w
    case Found(ip) => Found(prefix + ip)
    case Stuck(ip) => Stuck(prefix + ip)
  }

  /** `ip` follows `segs` step by step: each index is the FIRST match of its
      segment among the children reached so far. */
  predicate Route(list: seq<Section>, segs: seq<string>, ip: seq<nat>)
    decreases |ip|
  {
    |ip| <= |segs| &&
    (|ip| == 0 ||
     (ip[0] < |list| && FindSegment(list, segs[0]) == Some(ip[0]) &&
      Route(list[ip[0]].subsections, segs[1..], ip[1..])))
  }

  /** The walk of the loop in `getSectionByPath`: the first segment is looked up
      among the given sections, each further one among the children of the
      section found last. */
  function Resolve(list: seq<Section>, segs: seq<string>): (w: Walk)
    ensures Route(list, segs, w.ip) && Addresses(list, w.ip)
    ensures w.Found? ==> |w.ip| == |segs|
    ensures w.Stuck? ==> |w.ip| < |segs| && FindSegment(ChildrenAt(list, w.ip), segs[|w.ip|]).None?
    decreases |segs|
  {
    if |segs| == 0 then Found([])
    else
      match FindSegment(list, segs[0])
      case None => Stuck([])
      case Some(i) =>
        var rest := Resolve(list[i].subsections, segs[1..]);
        var w := Prefixed([i], rest);
        assert w.ip[0] == i && w.ip[1..] == rest.ip;
        assert rest.Stuck? ==> segs[1..][|rest.ip|] == segs[|w.ip|];
        w
  }

  /** Resolution is the only route: a route that is complete, or that cannot
      be extended, is the one `Resolve` takes. */
  lemma {:induction false} ResolveUnique(list: seq<Section>, segs: seq<string>, ip: seq<nat>)
    requires Route(list, segs, ip) && Addresses(list, ip)
    requires |ip| == |segs| || FindSegment(ChildrenAt(list, ip), segs[|ip|]).None?
    ensures Resolve(list, segs).ip == ip
    ensures Resolve(list, segs).Found? <==> |ip| == |segs|
    decreases |ip|
  {
    if |ip| == 0 {
    } else {
      var i := ip[0];
      assert |ip| < |segs| ==> segs[1..][|ip[1..]|] == segs[|ip|];
      assert ChildrenAt(list, ip) == ChildrenAt(list[i].subsections, ip[1..]);
      ResolveUnique(list[i].subsections, segs[1..], ip[1..]);
      ResolveStep(list, segs);
      assert ip == [i] + ip[1..];
    }
  }

  /** The segments of a path. `split` always yields at least one piece, so the
      `ValueError` for an empty split cannot be raised. */
  function Segs(path: string): (segs: seq<string>)
    ensures |segs| >= 1
    ensures forall i :: 0 <= i < |segs| ==> '.' !in segs[i]
  {
    Split(path, '.')
  }

  /** The error `getSectionByPath` raises when the walk stops after `k`
      sections: nothing resolved gives an empty valid part and the whole path;
      otherwise the valid part is the first segment STRIPPED of its predicate
      followed by the raw segments 1..k-1, and the rest is segments k.. */
  function ErrorAt(path: string, k: nat): (e: InvalidPath)
    requires k < |Segs(path)|
    ensures k == 0 ==> e.validPath == "" && e.invalidPath == path
    ensures k > 0 ==> Split(e.invalidPath, '.') == Segs(path)[k..]
    ensures k > 0 ==> e.validPath + "." + e.invalidPath == Join([BareName(Segs(path)[0])] + Segs(path)[1..], ".")
  {
    var segs := Segs(path);
    if k == 0 then InvalidPath("", path)
    else
      var head := [BareName(segs[0])] + segs[1..k];
      assert head + segs[k..] == [BareName(segs[0])] + segs[1..];
      JoinAppend(head, segs[k..], ".");
      SplitJoin(segs[k..], '.');
      InvalidPath(Join(head, "."), Join(segs[k..], "."))
  }

  /** `Configurator.getSectionByPath`. */
  function GetSectionByPath(c: Configurator, path: string): (r: Result<seq<nat>, InvalidPath>)
    ensures r.Success? ==> |r.value| == |Segs(path)| && Route(c.sections, Segs(path), r.value)
    ensures r.Success? ==> Addresses(c.sections, r.value) && |r.value| >= 1
  {
    var segs := Segs(path);
    match Resolve(c.sections, segs)
    case Found(ip) => Success(ip)
    case Stuck(ip) => Failure(ErrorAt(path, |ip|))
  }

  /** One step of a walk. */
  lemma ResolveStep(list: seq<Section>, segs: seq<string>)
    requires |segs| >= 1
    ensures FindSegment(list, segs[0]).None? ==> Resolve(list, segs) == Stuck([])
    ensures FindSegment(list, segs[0]).Some? ==>
      var j := FindSegment(list, segs[0]).value;
      j < |list| && Resolve(list, segs) == Prefixed([j], Resolve(list[j].subsections, segs[1..]))
  {
  }

  lemma PrefixedTwice(a: seq<nat>, b: seq<nat>, w: Walk)
    ensures Prefixed(a, Prefixed(b, w)) == Prefixed(a + b, w)
  {
    assert a + (b + w.ip) == (a + b) + w.ip;
  }

  /** The walk continues below the section at `ip` when its children hold a
      match for the next segment. */
  lemma WalkOn(list: seq<Section>, segs: seq<string>, ip: seq<nat>, j: nat)
    requires |ip| >= 1 && Addresses(list, ip) && |ip| < |segs|
    requires Resolve(list, segs) == Prefixed(ip, Resolve(At(list, ip).subsections, segs[|ip|..]))
    requires FindSegment(At(list, ip).subsections, segs[|ip|]) == Some(j)
    ensures Addresses(list, ip + [j]) && At(list, ip + [j]) == At(list, ip).subsections[j]
    ensures Resolve(list, segs) == Prefixed(ip + [j], Resolve(At(list, ip + [j]).subsections, segs[|ip| + 1..]))
  {
    var below := At(list, ip).subsections;
    ResolveStep(below, segs[|ip|..]);
    assert segs[|ip|..][0] == segs[|ip|] && segs[|ip|..][1..] == segs[|ip| + 1..];
    PrefixedTwice(ip, [j], Resolve(below[j].subsections, segs[|ip| + 1..]));
    ExtendPath(list, ip, j);
  }

  /** The walk stops at `ip` when its children hold no match for the next
      segment. */
  lemma WalkStops(list: seq<Section>, segs: seq<string>, ip: seq<nat>)
    requires |ip| >= 1 && Addresses(list, ip) && |ip| < |segs|
    requires Resolve(list, segs) == Prefixed(ip, Resolve(At(list, ip).subsections, segs[|ip|..]))
    requires FindSegment(At(list, ip).subsections, segs[|ip|]).None?
    ensures Resolve(list, segs) == Stuck(ip)
  {
    ResolveStep(At(list, ip).subsections, segs[|ip|..]);
    assert segs[|ip|..][0] == segs[|ip|];
    assert ip + [] == ip;
  }

  /** The walk is complete when no segment is left. */
  lemma WalkEnds(list: seq<Section>, segs: seq<string>, ip: seq<nat>)
    requires |ip| >= 1 && Addresses(list, ip) && |ip| == |segs|
    requires Resolve(list, segs) == Prefixed(ip, Resolve(At(list, ip).subsections, segs[|ip|..]))
    ensures Resolve(list, segs) == Found(ip)
  {
    assert segs[|ip|..] == [];
    assert ip + [] == ip;
  }

  /** The walk's first step, as the loop of `getSectionByPath` starts it. */
  lemma WalkStarts(c: Configurator, segs: seq<string>)
    requires |segs| >= 1
    ensures var first := SplitSectionAndAttributes(segs[0]);
      GetTopLevelSection(c, first.0, SplitAttributesString(first.1)) == FindSegment(c.sections, segs[0])
    ensures FindSegment(c.sections, segs[0]).None? ==> Resolve(c.sections, segs) == Stuck([])
    ensures FindSegment(c.sections, segs[0]).Some? ==>
      var j := FindSegment(c.sections, segs[0]).value;
      Addresses(c.sections, [j]) && At(c.sections, [j]) == c.sections[j] &&
      Resolve(c.sections, segs) == Prefixed([j], Resolve(At(c.sections, [j]).subsections, segs[1..]))
  {
    ResolveStep(c.sections, segs);
    if FindSegment(c.sections, segs[0]).Some? {
      var j := FindSegment(c.sections, segs[0]).value;
      assert [j][1..] == [];
    }
  }

  /** The running valid path gains one raw segment per step. */
  lemma ValidPathGrows(head: string, segs: seq<string>, i: nat)
    requires 1 <= i < |segs|
    ensures Join([head] + segs[1..i + 1], ".") == Join([head] + segs[1..i], ".") + "." + segs[i]
  {
    JoinSnoc([head] + segs[1..i], segs[i], ".");
    assert [head] + segs[1..i + 1] == ([head] + segs[1..i]) + [segs[i]];
  }

  /** What `getSectionByPath` answers for each outcome of the walk. This only
      unfolds `GetSectionByPath` for use in other proofs; the meaning of the
      answer comes from `Resolve`, `ResolveUnique`, `ErrorAt` and
      `FindSectionByPath`. */
  lemma WalkResult(c: Configurator, path: string)
    ensures Resolve(c.sections, Segs(path)).Found? ==>
      GetSectionByPath(c, path) == Success(Resolve(c.sections, Segs(path)).ip)
    ensures Resolve(c.sections, Segs(path)).Stuck? ==>
      GetSectionByPath(c, path) == Failure(ErrorAt(path, |Resolve(c.sections, Segs(path)).ip|))
  {
  }

  /** The loop of `getSectionByPath` as written: a running index, the section
      found last and the running valid path, extended one raw segment at a
      time. */
  method FindSectionByPath(c: Configurator, path: string) returns (r: Result<seq<nat>, InvalidPath>)
    ensures r == GetSectionByPath(c, path)
  {
    var segs := Segs(path);
    var first := SplitSectionAndAttributes(segs[0]);
    var pred := SplitAttributesString(first.1);
    var top := GetTopLevelSection(c, first.0, pred);
    WalkStarts(c, segs);
    if top.None? {
      WalkResult(c, path);
      return Failure(InvalidPath("", path));
    }
    var ip := [top.value];
    var current := c.sections[top.value];
    var totalPath := first.0;
    var i := 1;
    assert segs[1..1] == [];
    while i < |segs|
      invariant 1 <= i <= |segs| && |ip| == i
      invariant Addresses(c.sections, ip) && current == At(c.sections, ip)
      invariant Resolve(c.sections, segs) == Prefixed(ip, Resolve(current.subsections, segs[i..]))
      invariant totalPath == Join([first.0] + segs[1..i], ".")
      decreases |segs| - i
    {
      var next := GetSubSection(current, segs[i]);
      if next.None? {
        WalkStops(c.sections, segs, ip);
        WalkResult(c, path);
        return Failure(InvalidPath(totalPath, Join(segs[i..], ".")));
      }
      WalkOn(c.sections, segs, ip, next.value);
      ValidPathGrows(first.0, segs, i);
      ip := ip + [next.value];
      current := current.subsections[next.value];
      totalPath := totalPath + "." + segs[i];
      i := i + 1;
    }
    WalkEnds(c.sections, segs, ip);
    WalkResult(c, path);
    return Success(ip);
  }

  // ---------------------------------------------------------------------------
  // Facts about resolution

  /** The first `k` segments of a walk that got at least that far resolve. */
  lemma ResolvePrefix(list: seq<Section>, segs: seq<string>, k: nat)
    requires k <= |Resolve(list, segs).ip|
    ensures Resolve(list, segs[..k]) == Found(Resolve(list, segs).ip[..k])
  {
    var ip := Resolve(list, segs).ip;
    RoutePrefix(list, segs, ip, k);
    ResolveUnique(list, segs[..k], ip[..k]);
  }

  /** A prefix of a route is a route of the same prefix of the segments. */
  lemma {:induction false} RoutePrefix(list: seq<Section>, segs: seq<string>, ip: seq<nat>, k: nat)
    requires Route(list, segs, ip) && Addresses(list, ip) && k <= |ip|
    ensures Route(list, segs[..k], ip[..k]) && Addresses(list, ip[..k])
    decreases k
  {
    if k > 0 {
      RoutePrefix(list[ip[0]].subsections, segs[1..], ip[1..], k - 1);
      assert segs[..k][0] == segs[0] && segs[..k][1..] == segs[1..][..k - 1];
      assert ip[..k][0] == ip[0] && ip[..k][1..] == ip[1..][..k - 1];
    }
  }

  /** Walks are decided by the parsed segments only. */
  lemma SameParse(list: seq<Section>, a: seq<string>, b: seq<string>)
    requires |a| >= 1 && |b| >= 1 && a[1..] == b[1..]
    requires ParseSegment(a[0]) == ParseSegment(b[0])
    ensures Resolve(list, a) == Resolve(list, b)
  {
  }

  /** The names along a route are the bare names of its segments. */
  lemma {:induction false} RouteNames(list: seq<Section>, segs: seq<string>, ip: seq<nat>)
    requires Route(list, segs, ip)
    ensures Addresses(list, ip)
    ensures forall k :: 0 <= k < |ip| ==> NamesAlong(list, ip)[k] == BareName(segs[k])
    decreases |ip|
  {
    if |ip| > 0 {
      RouteNames(list[ip[0]].subsections, segs[1..], ip[1..]);
      var names := NamesAlong(list, ip);
      assert names == [list[ip[0]].name] + NamesAlong(list[ip[0]].subsections, ip[1..]);
      forall k | 0 <= k < |ip|
        ensures names[k] == BareName(segs[k])
      {
        if k > 0 {
          assert names[k] == NamesAlong(list[ip[0]].subsections, ip[1..])[k - 1];
          assert segs[1..][k - 1] == segs[k];
        }
      }
    }
  }

  /** A path without brackets resolves to a section whose `getPath` is the path
      itself. */
  lemma ResolvedPath(c: Configurator, path: string)
    requires GetSectionByPath(c, path).Success?
    requires '[' !in path
    ensures GetPath(c, GetSectionByPath(c, path).value) == path
  {
    var segs := Segs(path);
    var ip := GetSectionByPath(c, path).value;
    RouteNames(c.sections, segs, ip);
    SplitPiecesFrom(path, '.');
    assert NamesAlong(c.sections, ip) == segs;
    JoinSplit(path, '.');
  }

  /** Every piece of a split is made of characters of the string. */
  lemma {:induction false} SplitPiecesFrom(s: string, c: char)
    ensures forall i, x :: 0 <= i < |Split(s, c)| && x in Split(s, c)[i] ==> x in s
    decreases |s|
  {
    var f := Find(s, c);
    if f != -1 {
      SplitPiecesFrom(s[f + 1..], c);
      var parts := Split(s, c);
      assert parts == [s[..f]] + Split(s[f + 1..], c);
      forall i, x | 0 <= i < |parts| && x in parts[i]
        ensures x in s
      {
        if i == 0 {
          assert x in s[..f];
        } else {
          assert parts[i] == Split(s[f + 1..], c)[i - 1];
          assert x in s[f + 1..];
        }
      }
    }
  }

  /** Joining two non-empty lists of pieces. */
  lemma {:induction false} JoinAppend(a: seq<string>, b: seq<string>, sep: string)
    requires |a| >= 1 && |b| >= 1
    ensures Join(a + b, sep) == Join(a, sep) + sep + Join(b, sep)
    decreases |a|
  {
    if |a| == 1 {
      assert (a + b)[1..] == b;
    } else {
      assert (a + b)[1..] == a[1..] + b;
      JoinAppend(a[1..], b, sep);
    }
  }

  /** The error splits the path: nothing resolved names the whole path as
      invalid; otherwise valid part, dot and invalid part rebuild the path with
      its first predicate stripped (see `BareHeadRebuildsPath` for a first
      segment without brackets). */
  lemma ErrorRebuildsPath(c: Configurator, path: string)
    requires GetSectionByPath(c, path).Failure?
    ensures var e := GetSectionByPath(c, path).error;
      (e.validPath == "" && e.invalidPath == path) ||
      e.validPath + "." + e.invalidPath == Join([BareName(Segs(path)[0])] + Segs(path)[1..], ".")
  {
    WalkResult(c, path);
  }

  /** Without a predicate on the first segment, that join is the path itself. */
  lemma BareHeadRebuildsPath(path: string)
    requires '[' !in Segs(path)[0]
    ensures Join([BareName(Segs(path)[0])] + Segs(path)[1..], ".") == path
  {
    var segs := Segs(path);
    assert BareName(segs[0]) == segs[0];
    assert [segs[0]] + segs[1..] == segs;
    JoinSplit(path, '.');
  }

  // ---------------------------------------------------------------------------
  // Creating sections by path

  /** `Configurator.addSection` with no parent: one fresh top-level section is
      appended. */
  function AddSection(c: Configurator, segment: string): (r: Configurator)
    ensures r.filePath == c.filePath
    ensures |r.sections| == |c.sections| + 1 && r.sections[..|c.sections|] == c.sections
    ensures r.sections[|c.sections|] == NewSection(segment)
  {
    var sections := c.sections + [NewSection(segment)];
    assert sections[..|c.sections|] == c.sections;
    c.(sections := sections)
  }

  /** No deduplication at top level either: the new section is found by its
      own segment unless an earlier one matches. */
  lemma GetAfterAddSection(c: Configurator, segment: string)
    ensures FindSegment(AddSection(c, segment).sections, segment) ==
      if FindSegment(c.sections, segment).Some? then FindSegment(c.sections, segment) else Some(|c.sections|)
  {
    var parsed := ParseSegment(segment);
    var after := AddSection(c, segment).sections;
    assert after == c.sections + [NewSection(segment)];
    match FindSegment(c.sections, segment)
    case None =>
      FindSectionAppended(c.sections, NewSection(segment), parsed.0, parsed.1);
    case Some(i) =>
      assert forall j :: 0 <= j < |c.sections| ==> after[j] == c.sections[j];
  }

  /** `Configurator.addSectionByPath`. The tree it returns is kept even when it
      raises, because the source mutates the tree before its final lookup. */
  function AddSectionByPath(c: Configurator, path: string): (r: (Configurator, Result<seq<nat>, InvalidPath>))
    ensures r.0.filePath == c.filePath
    ensures r.1.Success? ==> r.1 == GetSectionByPath(r.0, path)
    ensures GetSectionByPath(c, path).Success? ==> r == (c, GetSectionByPath(c, path))
  {
    match GetSectionByPath(c, path)
    case Success(ip) => (c, Success(ip))
    case Failure(e) =>
      if e.validPath != "" then
        match GetSectionByPath(c, e.validPath)
        case Failure(e2) => (c, Failure(e2))
        case Success(vip) =>
          var valid := At(c.sections, vip);
          var c2 := c.(sections := ReplaceAt(c.sections, vip, CreateSubSectionByPath(valid, e.invalidPath)));
          (c2, GetSectionByPath(c2, path))
      else
        var pieces := Split(e.invalidPath, '.');
        var c1 := AddSection(c, pieces[0]);
        var top := CreateSubSectionByPath(c1.sections[|c.sections|], Join(pieces[1..], "."));
        var c2 := c1.(sections := c1.sections[|c.sections| := top]);
        (c2, GetSectionByPath(c2, path))
  }

  /** Adding a path that `addSectionByPath` has just resolved creates nothing
      and answers the same section. */
  lemma AddSectionByPathIdempotent(c: Configurator, path: string)
    requires AddSectionByPath(c, path).1.Success?
    ensures AddSectionByPath(AddSectionByPath(c, path).0, path) == AddSectionByPath(c, path)
  {
  }

  /** `createSubSectionByPath` on a resolved section appends one chain beneath
      it. */
  lemma {:induction false} CreateIsAppendUnder(list: seq<Section>, ip: seq<nat>, path: string)
    requires |ip| >= 1 && Addresses(list, ip)
    ensures ReplaceAt(list, ip, CreateSubSectionByPath(At(list, ip), path)) ==
      AppendUnder(list, ip, Chain(Split(path, '.')))
    decreases |ip|
  {
    if |ip| > 1 {
      CreateIsAppendUnder(list[ip[0]].subsections, ip[1..], path);
    } else {
      assert ip[1..] == [];
    }
  }

  /** An index path of `n` zeros: the way down a fresh chain. */
  function Zeros(n: nat): (z: seq<nat>)
    ensures |z| == n && forall i :: 0 <= i < n ==> z[i] == 0
  {
    seq(n, i => 0)
  }

  /** Dropping the first index of a run of zeros leaves a shorter run. */
  lemma ZerosTail(n: nat)
    requires n >= 1
    ensures Zeros(n)[1..] == Zeros(n - 1)
  {
  }

  /** A fresh chain resolves its own segments. */
  lemma {:induction false} ChainResolves(segs: seq<string>)
    requires |segs| >= 1
    ensures Resolve([Chain(segs)], segs) == Found(Zeros(|segs|))
    decreases |segs|
  {
    var x := Chain(segs);
    var parsed := ParseSegment(segs[0]);
    assert FindSection([x], parsed.0, parsed.1) == Some(0);
    if |segs| > 1 {
      ChainResolves(segs[1..]);
      assert x.subsections == [Chain(segs[1..])];
      assert Zeros(|segs|) == [0] + Zeros(|segs| - 1);
    } else {
      assert Zeros(1) == [0];
    }
  }

  /** A subtree that resolves the segments, appended to a list without a match
      for the first one, is where the walk goes. */
  lemma AppendedResolves(list: seq<Section>, segs: seq<string>, x: Section, q: seq<nat>)
    requires |segs| >= 1 && FindSegment(list, segs[0]).None?
    requires Resolve([x], segs) == Found(q)
    ensures |q| >= 1 && Resolve(list + [x], segs) == Found([|list|] + q[1..])
  {
    var parsed := ParseSegment(segs[0]);
    ResolveStep([x], segs);
    assert FindSegment([x], segs[0]) == Some(0);
    var rest := Resolve(x.subsections, segs[1..]);
    assert q == [0] + rest.ip;
    FindSectionAppended(list, x, parsed.0, parsed.1);
    ResolveStep(list + [x], segs);
    assert (list + [x])[|list|] == x;
  }

  /** The index path down to `ip`, on to its child `n`, then along `q`. */
  function Through(ip: seq<nat>, n: nat, q: seq<nat>): seq<nat>
  {
    ip + [n] + q
  }

  lemma ThroughCons(i: nat, ip: seq<nat>, n: nat, q: seq<nat>)
    ensures [i] + Through(ip, n, q) == Through([i] + ip, n, q)
  {
  }

  /** The inductive step of `ResolveAppendUnder`: the walk's first step is
      unchanged, and below it the appended subtree is reached. */
  lemma AppendBelowFirstStep(list: seq<Section>, segs: seq<string>, x: Section, q: seq<nat>)
    requires Resolve(list, segs).Stuck? && |Resolve(list, segs).ip| >= 1
    requires var ip := Resolve(list, segs).ip;
      var below := list[ip[0]].subsections;
      Addresses(below, ip[1..]) &&
      Resolve(AppendUnder(below, ip[1..], x), segs[1..]) == Found(Through(ip[1..], |ChildrenAt(below, ip[1..])|, q))
    ensures Addresses(list, Resolve(list, segs).ip)
    ensures Resolve(AppendUnder(list, Resolve(list, segs).ip, x), segs) ==
      Found(Through(Resolve(list, segs).ip, |ChildrenAt(list, Resolve(list, segs).ip)|, q))
  {
    var ip := Resolve(list, segs).ip;
    ResolveStep(list, segs);
    var i := ip[0];
    var below := list[i].subsections;
    var n := |ChildrenAt(below, ip[1..])|;
    var after := AppendUnder(list, ip, x);
    var parsed := ParseSegment(segs[0]);
    FindSectionSameHeads(list, after, parsed.0, parsed.1);
    ResolveStep(after, segs);
    assert after[i].subsections == AppendUnder(below, ip[1..], x);
    assert ChildrenAt(list, ip) == ChildrenAt(below, ip[1..]);
    assert ip == [i] + ip[1..];
    ThroughCons(i, ip[1..], n, q);
  }

  /** Appending, beneath the section where a walk stopped, a subtree that
      resolves the remaining segments makes the whole walk succeed through it. */
  lemma {:induction false} ResolveAppendUnder(list: seq<Section>, segs: seq<string>, x: Section, q: seq<nat>)
    requires Resolve(list, segs).Stuck?
    requires Resolve([x], segs[|Resolve(list, segs).ip|..]) == Found(q)
    ensures Addresses(list, Resolve(list, segs).ip) && |q| >= 1
    ensures Resolve(AppendUnder(list, Resolve(list, segs).ip, x), segs) ==
      Found(Resolve(list, segs).ip + [|ChildrenAt(list, Resolve(list, segs).ip)|] + q[1..])
    decreases |segs|
  {
    var ip := Resolve(list, segs).ip;
    ResolveStep(list, segs);
    if |ip| == 0 {
      assert segs[0..] == segs;
      AppendedResolves(list, segs, x, q);
      assert AppendUnder(list, ip, x) == list + [x];
      assert ip + [|list|] + q[1..] == [|list|] + q[1..];
    } else {
      var below := list[ip[0]].subsections;
      assert Resolve(below, segs[1..]).ip == ip[1..];
      assert segs[1..][|ip| - 1..] == segs[|ip|..];
      ResolveAppendUnder(below, segs[1..], x, q);
      AppendBelowFirstStep(list, segs, x, q[1..]);
    }
  }

  /** The top-level section the empty-prefix branch of `addSectionByPath`
      builds for its pieces. */
  function NewTopLevel(pieces: seq<string>): Section
    requires |pieces| >= 1
  {
    CreateSubSectionByPath(NewSection(pieces[0]), Join(pieces[1..], "."))
  }

  /** The empty-prefix branch appends one top-level section. This only
      unfolds `AddSectionByPath` for use in other proofs; what the new section
      holds is stated by `NewTopLevelResolves`. */
  lemma TopLevelBranch(c: Configurator, path: string)
    requires GetSectionByPath(c, path).Failure? && GetSectionByPath(c, path).error.validPath == ""
    ensures AddSectionByPath(c, path).0.sections ==
      c.sections + [NewTopLevel(Split(GetSectionByPath(c, path).error.invalidPath, '.'))]
  {
  }

  /** The top-level section built for the pieces of a path resolves them, holds
      no options anywhere, and for a single piece has one child, with the empty
      name. */
  lemma NewTopLevelResolves(segs: seq<string>)
    requires |segs| >= 1
    requires forall i :: 0 <= i < |segs| ==> '.' !in segs[i]
    ensures Resolve([NewTopLevel(segs)], segs) == Found(Zeros(|segs|))
    ensures OptionFree(NewTopLevel(segs))
    ensures |segs| == 1 ==> NewTopLevel(segs).subsections == [Section("", map[], [], [])]
  {
    var x := NewTopLevel(segs);
    if |segs| > 1 {
      SplitJoin(segs[1..], '.');
      assert x == Chain(segs);
      ChainResolves(segs);
      ChainOptionFree(segs);
    } else {
      var parsed := ParseSegment(segs[0]);
      assert FindSection([x], parsed.0, parsed.1) == Some(0);
      ResolveStep([x], segs);
      assert segs[1..] == [];
      assert Zeros(1) == [0];
      assert Split("", '.') == [""];
      EmptySegmentParses();
      ChainOptionFree([""]);
    }
  }

  /** When nothing of the path resolves, `addSectionByPath` appends one new
      top-level chain for the whole path and succeeds through it; the section
      it answers is fresh, without options. A one-segment path also gets an
      extra child with the empty name. */
  lemma AddSectionByPathNewTopLevel(c: Configurator, path: string)
    requires Resolve(c.sections, Segs(path)) == Stuck([])
    ensures var r := AddSectionByPath(c, path);
      && r.1 == Success([|c.sections|] + Zeros(|Segs(path)| - 1))
      && |r.0.sections| == |c.sections| + 1
      && r.0.sections[..|c.sections|] == c.sections
      && At(r.0.sections, r.1.value).options == []
    ensures |Segs(path)| == 1 ==>
      AddSectionByPath(c, path).0.sections[|c.sections|].subsections == [Section("", map[], [], [])]
  {
    var segs := Segs(path);
    var x := NewTopLevel(segs);
    var r := AddSectionByPath(c, path);
    NewTopLevelAppended(c, path);
    NewTopLevelFound(c, path);
    NewTopLevelResolves(segs);
    assert (c.sections + [x])[..|c.sections|] == c.sections;
    FreshChainHasNoOptions(c.sections + [x], r.1.value, |c.sections|);
  }

  /** When nothing resolves, the new top-level section is appended. */
  lemma NewTopLevelAppended(c: Configurator, path: string)
    requires Resolve(c.sections, Segs(path)) == Stuck([])
    ensures AddSectionByPath(c, path).0.sections == c.sections + [NewTopLevel(Segs(path))]
  {
    WalkResult(c, path);
    assert GetSectionByPath(c, path) == Failure(InvalidPath("", path));
    TopLevelBranch(c, path);
  }

  /** When nothing resolves, the answer is the way down the new section. */
  lemma NewTopLevelFound(c: Configurator, path: string)
    requires Resolve(c.sections, Segs(path)) == Stuck([])
    ensures AddSectionByPath(c, path).1 == Success([|c.sections|] + Zeros(|Segs(path)| - 1))
  {
    var segs := Segs(path);
    var after := AddSectionByPath(c, path).0;
    NewTopLevelAppended(c, path);
    NewTopLevelResolves(segs);
    assert FindSegment(c.sections, segs[0]).None? by {
      assert ChildrenAt(c.sections, []) == c.sections;
    }
    AppendedResolves(c.sections, segs, NewTopLevel(segs), Zeros(|segs|));
    ZerosTail(|segs|);
    WalkResult(after, path);
  }

  /** The valid part of the error names the section where the walk stopped,
      provided the first segment carries no predicate: it is then looked up by
      its bare name and finds the same section. */
  lemma ValidPathResolves(c: Configurator, path: string)
    requires Resolve(c.sections, Segs(path)).Stuck? && |Resolve(c.sections, Segs(path)).ip| >= 1
    requires ParseSegment(Segs(path)[0]).1 == map[]
    ensures var k := |Resolve(c.sections, Segs(path)).ip|;
      GetSectionByPath(c, ErrorAt(path, k).validPath) == Success(Resolve(c.sections, Segs(path)).ip)
  {
    var segs := Segs(path);
    var ip := Resolve(c.sections, segs).ip;
    var k := |ip|;
    var vsegs := [BareName(segs[0])] + segs[1..k];
    assert Segs(ErrorAt(path, k).validPath) == vsegs by {
      BareNameIsBare(segs[0]);
      assert forall i :: 0 <= i < |vsegs| ==> '.' !in vsegs[i] by {
        forall i | 0 <= i < |vsegs| ensures '.' !in vsegs[i] {
          if i > 0 {
            assert vsegs[i] == segs[i];
          }
        }
      }
      SplitJoin(vsegs, '.');
    }
    assert Resolve(c.sections, vsegs) == Found(ip) by {
      assert vsegs[1..] == segs[..k][1..];
      SameParse(c.sections, vsegs, segs[..k]);
      ResolvePrefix(c.sections, segs, k);
      assert ip[..k] == ip;
    }
    WalkResult(c, ErrorAt(path, k).validPath);
  }

  /** The tree the valid-prefix branch builds, under the same conditions. */
  lemma PrefixBranch(c: Configurator, path: string)
    requires Resolve(c.sections, Segs(path)).Stuck? && |Resolve(c.sections, Segs(path)).ip| >= 1
    requires ParseSegment(Segs(path)[0]).1 == map[] && ParseSegment(Segs(path)[0]).0 != ""
    ensures var ip := Resolve(c.sections, Segs(path)).ip;
      var c2 := c.(sections := AppendUnder(c.sections, ip, Chain(Segs(path)[|ip|..])));
      AddSectionByPath(c, path) == (c2, GetSectionByPath(c2, path))
  {
    var segs := Segs(path);
    var ip := Resolve(c.sections, segs).ip;
    var k := |ip|;
    WalkResult(c, path);
    var e := ErrorAt(path, k);
    var vsegs := [BareName(segs[0])] + segs[1..k];
    assert |Join(vsegs, ".")| >= |vsegs[0]|;
    assert e.validPath != "";
    ValidPathResolves(c, path);
    assert forall i :: 0 <= i < |segs[k..]| ==> '.' !in segs[k..][i];
    SplitJoin(segs[k..], '.');
    CreateIsAppendUnder(c.sections, ip, e.invalidPath);
  }

  /** A walk that stopped after at least one section goes all the way once the
      chain of its missing segments is appended where it stopped. */
  lemma AppendedChainWalk(list: seq<Section>, segs: seq<string>)
    requires Resolve(list, segs).Stuck? && |Resolve(list, segs).ip| >= 1
    ensures var ip := Resolve(list, segs).ip;
      Resolve(AppendUnder(list, ip, Chain(segs[|ip|..])), segs) ==
        Found(ip + [|ChildrenAt(list, ip)|] + Zeros(|segs| - |ip| - 1))
  {
    var ip := Resolve(list, segs).ip;
    var k := |ip|;
    assert Resolve([Chain(segs[k..])], segs[k..]) == Found(Zeros(|segs| - k)) by {
      assert |segs[k..]| == |segs| - k;
      ChainResolves(segs[k..]);
    }
    ResolveAppendUnder(list, segs, Chain(segs[k..]), Zeros(|segs| - k));
    ZerosTail(|segs| - k);
  }

  /** The same walk, as `getSectionByPath` answers it. */
  lemma AppendedChainResolves(c: Configurator, path: string)
    requires Resolve(c.sections, Segs(path)).Stuck? && |Resolve(c.sections, Segs(path)).ip| >= 1
    ensures var ip := Resolve(c.sections, Segs(path)).ip;
      var c2 := c.(sections := AppendUnder(c.sections, ip, Chain(Segs(path)[|ip|..])));
      GetSectionByPath(c2, path) == Success(ip + [|ChildrenAt(c.sections, ip)|] + Zeros(|Segs(path)| - |ip| - 1))
  {
    var ip := Resolve(c.sections, Segs(path)).ip;
    AppendedChainWalk(c.sections, Segs(path));
    WalkResult(c.(sections := AppendUnder(c.sections, ip, Chain(Segs(path)[|ip|..]))), path);
  }

  /** With a first segment free of predicate and of empty name, a walk that
      stopped after at least one section is completed by `addSectionByPath`:
      the missing segments are appended as ONE fresh chain beneath the section
      where it stopped, even if that section already has children of the same
      names, and the path then resolves through the new chain. */
  lemma AddSectionByPathBelowPrefix(c: Configurator, path: string)
    requires Resolve(c.sections, Segs(path)).Stuck? && |Resolve(c.sections, Segs(path)).ip| >= 1
    requires ParseSegment(Segs(path)[0]).1 == map[] && ParseSegment(Segs(path)[0]).0 != ""
    ensures var ip := Resolve(c.sections, Segs(path)).ip;
      && Addresses(c.sections, ip)
      && AddSectionByPath(c, path).0 == c.(sections := AppendUnder(c.sections, ip, Chain(Segs(path)[|ip|..])))
      && AddSectionByPath(c, path).1 ==
           Success(ip + [|ChildrenAt(c.sections, ip)|] + Zeros(|Segs(path)| - |ip| - 1))
  {
    AppendedChainResolves(c, path);
    PrefixBranch(c, path);
  }

  /** The empty segment names a section with the empty name and no attributes. */
  lemma EmptySegmentParses()
    ensures ParseSegment("") == ("", map[])
    ensures NewSection("") == Section("", map[], [], [])
  {
  }

  /** A fresh chain holds no options anywhere. */
  lemma {:induction false} ChainOptionFree(segs: seq<string>)
    requires |segs| >= 1
    ensures OptionFree(Chain(segs))
    decreases |segs|
  {
    if |segs| > 1 {
      ChainOptionFree(segs[1..]);
    }
  }

  /** Below a section at index `i` whose subtree is free of options, every
      section reached is free of options. */
  lemma FreshChainHasNoOptions(list: seq<Section>, ip: seq<nat>, i: nat)
    requires |ip| >= 1 && Addresses(list, ip) && ip[0] == i
    requires OptionFree(list[i])
    ensures At(list, ip).options == []
  {
    if |ip| > 1 {
      OptionFreeBelow(list[i], ip[1..]);
    }
  }

  /** A section and all its descendants are without options. */
  predicate OptionFree(s: Section)
    decreases s
  {
    s.options == [] && forall j :: 0 <= j < |s.subsections| ==> OptionFree(s.subsections[j])
  }

  lemma {:induction false} OptionFreeBelow(s: Section, ip: seq<nat>)
    requires OptionFree(s) && Addresses(s.subsections, ip)
    ensures |ip| == 0 ==> s.options == []
    ensures |ip| >= 1 ==> At(s.subsections, ip).options == []
    decreases |ip|
  {
    if |ip| > 1 {
      OptionFreeBelow(s.subsections[ip[0]], ip[1..]);
    }
  }

  // ---------------------------------------------------------------------------
  // The first segment's predicate and the valid part of the error

  /** A segment without brackets or dots is a one-segment path that parses to
      its own name with no predicate. */
  lemma PlainSegment(s: string)
    requires '[' !in s && '.' !in s
    ensures Segs(s) == [s]
    ensures ParseSegment(s) == (s, map[])
  {
    SplitJoin([s], '.');
  }

  /** `n[k="v"]` parses to the name `n` and the predicate {k: v}. */
  lemma PredicateSegmentParses(n: string, k: string, v: string)
    requires '[' !in n && ']' !in n
    requires '=' !in k && ',' !in k && '"' !in k && ']' !in k
    requires ',' !in v && '"' !in v && ']' !in v
    ensures ParseSegment(n + "[" + k + "=\"" + v + "\"]") == (n, map[k := v])
  {
    var kvs := [(k, v)];
    var r := RenderPairs(kvs);
    assert r == [k + "=\"" + v + "\""];
    assert RenderPredicate(kvs) == "[" + (k + "=\"" + v + "\"") + "]";
    assert n + "[" + k + "=\"" + v + "\"]" == n + RenderPredicate(kvs);
    assert Renderable(kvs);
    SegmentRoundTrip(n, kvs);
    assert MapOf(map[], kvs) == map[k := v];
  }

  /** `n[k="v"].m` splits into its two segments. */
  lemma PredicatePathSplits(n: string, k: string, v: string, m: string)
    requires '[' !in n && ']' !in n && '.' !in n
    requires '=' !in k && ',' !in k && '"' !in k && ']' !in k && '.' !in k
    requires ',' !in v && '"' !in v && ']' !in v && '.' !in v
    requires '.' !in m
    ensures ParseSegment(n + "[" + k + "=\"" + v + "\"]") == (n, map[k := v])
    ensures Segs(n + "[" + k + "=\"" + v + "\"]" + "." + m) == [n + "[" + k + "=\"" + v + "\"]", m]
  {
    PredicateSegmentParses(n, k, v);
    var seg0 := n + "[" + k + "=\"" + v + "\"]";
    assert '.' !in "[" && '.' !in "=\"" && '.' !in "\"]";
    CharNotInConcat('.', n, "[");
    CharNotInConcat('.', n + "[", k);
    CharNotInConcat('.', n + "[" + k, "=\"");
    CharNotInConcat('.', n + "[" + k + "=\"", v);
    CharNotInConcat('.', n + "[" + k + "=\"" + v, "\"]");
    TwoSegments(seg0, m);
  }

  /** Two dot-free segments joined by a dot split back into them. */
  lemma TwoSegments(a: string, b: string)
    requires '.' !in a && '.' !in b
    ensures Segs(a + "." + b) == [a, b]
  {
    var segs := [a, b];
    SplitJoin(segs, '.');
    assert segs[1..] == [b];
    assert Join(segs, ".") == a + "." + b;
  }

  /** Both lookups of `n[k="v"].m` in a configurator whose two top-level
      sections share the name `n`, only the second carrying the predicate,
      stop after the second. */
  lemma QuirkLookups(c: Configurator, path: string, seg0: string, m: string, n: string, pred: map<string, string>)
    requires Segs(path) == [seg0, m] && ParseSegment(seg0) == (n, pred) && pred != map[]
    requires |c.sections| == 2
    requires c.sections[0].name == n && c.sections[0].attributes == map[]
    requires c.sections[1] == Section(n, pred, [], [])
    ensures GetSectionByPath(c, path) == Failure(InvalidPath(n, m))
  {
    StuckAtSecond(c.sections, seg0, m, n, pred);
    WalkResult(c, path);
    ErrorAtSecond(path, seg0, m);
  }

  /** The error for a two-segment path whose walk stopped after the first. */
  lemma ErrorAtSecond(path: string, a: string, b: string)
    requires Segs(path) == [a, b]
    ensures ErrorAt(path, 1) == InvalidPath(BareName(a), b)
  {
    assert [a, b][1..1] == [] && [a, b][1..] == [b];
  }

  /** A walk whose first segment picks the second of two same-named sections,
      which has no children, stops there. */
  lemma StuckAtSecond(list: seq<Section>, seg0: string, m: string, n: string, pred: map<string, string>)
    requires ParseSegment(seg0) == (n, pred) && pred != map[]
    requires |list| == 2 && list[0].name == n && list[0].attributes == map[]
    requires list[1] == Section(n, pred, [], [])
    ensures Resolve(list, [seg0, m]) == Stuck([1])
  {
    var segs := [seg0, m];
    assert !Matches(list[0], n, pred);
    assert FindSection(list, n, pred) == Some(1);
    ResolveStep(list, segs);
    ResolveStep([], segs[1..]);
  }

  /** A bare name resolves to the first top-level section of that name. */
  lemma FirstByName(c: Configurator, n: string)
    requires '[' !in n && '.' !in n
    requires |c.sections| >= 1 && c.sections[0].name == n
    ensures GetSectionByPath(c, n) == Success([0])
  {
    PlainSegment(n);
    ResolveStep(c.sections, [n]);
    assert Resolve(c.sections, [n]) == Found([0]);
    WalkResult(c, n);
  }

  /** `addSectionByPath` on the two-section configurator, stated for any path
      that splits and parses as `n[k="v"].m` does. */
  lemma QuirkAdd(f: string, path: string, seg0: string, m: string, n: string, pred: map<string, string>)
    requires Segs(path) == [seg0, m] && ParseSegment(seg0) == (n, pred) && pred != map[]
    requires n != "" && '[' !in n && '.' !in n && '[' !in m && '.' !in m
    ensures var a0 := Section(n, map[], [], []);
      var a1 := Section(n, pred, [], []);
      AddSectionByPath(Configurator(f, [a0, a1]), path) ==
        (Configurator(f, [a0.(subsections := [Section(m, map[], [], [])]), a1]), Failure(InvalidPath(n, m)))
  {
    var a0 := Section(n, map[], [], []);
    var a1 := Section(n, pred, [], []);
    var b := Section(m, map[], [], []);
    var c := Configurator(f, [a0, a1]);
    var c2 := Configurator(f, [a0.(subsections := [b]), a1]);
    assert AddSectionByPath(c, path) == (c2, GetSectionByPath(c2, path)) by {
      QuirkLookups(c, path, seg0, m, n, pred);
      FirstByName(c, n);
      PlainSegment(m);
      assert At(c.sections, [0]) == a0;
      assert Chain(Split(m, '.')) == b;
      assert ReplaceAt(c.sections, [0], CreateSubSectionByPath(a0, m)) == c2.sections;
    }
    QuirkLookups(c2, path, seg0, m, n, pred);
  }

  /** Because the valid part of the error drops the first segment's predicate,
      `addSectionByPath("n[k=\"v\"].m")` on top-level sections `n` and
      `n[k="v"]` (in that order) re-resolves the valid part to the FIRST `n`,
      creates `m` beneath it, and still raises with valid part `n` and invalid
      part `m`: the tree changes and the section asked for is not created. */
  lemma PredicateDroppedFromValidPath(f: string, n: string, k: string, v: string, m: string)
    requires n != "" && '[' !in n && ']' !in n && '.' !in n
    requires '=' !in k && ',' !in k && '"' !in k && ']' !in k && '.' !in k
    requires ',' !in v && '"' !in v && ']' !in v && '.' !in v
    requires '[' !in m && '.' !in m
    ensures var a0 := Section(n, map[], [], []);
      var a1 := Section(n, map[k := v], [], []);
      AddSectionByPath(Configurator(f, [a0, a1]), n + "[" + k + "=\"" + v + "\"]" + "." + m) ==
        (Configurator(f, [a0.(subsections := [Section(m, map[], [], [])]), a1]), Failure(InvalidPath(n, m)))
  {
    var seg0 := n + "[" + k + "=\"" + v + "\"]";
    var pred := map[k := v];
    assert k in pred;
    PredicatePathSplits(n, k, v, m);
    QuirkAdd(f, seg0 + "." + m, seg0, m, n, pred);
  }

  /** A path with an empty first segment resolves that segment to a top-level
      section named "", so when the walk stops right after it the valid part
      is empty and `addSectionByPath(".x")` takes the top-level branch: it
      appends a new top-level `x` holding an unnamed child, and the walk,
      which still reaches the first "" section, raises again. */
  lemma EmptyFirstSegmentAddsTopLevel(f: string, x: string)
    requires '[' !in x && '.' !in x
    ensures var e := Section("", map[], [], []);
      AddSectionByPath(Configurator(f, [e]), "." + x) ==
        (Configurator(f, [e, Section(x, map[], [], [e])]), Failure(InvalidPath("", x)))
  {
    var e := Section("", map[], [], []);
    var path := "." + x;
    var c := Configurator(f, [e]);
    var c2 := Configurator(f, [e, Section(x, map[], [], [e])]);
    assert Segs(path) == ["", x] by {
      SplitJoin(["", x], '.');
      assert Join(["", x], ".") == path;
    }
    PlainSegment("");
    PlainSegment(x);
    assert BareName("") == "" by { BareNameIsBare(""); }
    ErrorAtSecond(path, "", x);
    assert GetSectionByPath(c, path) == Failure(InvalidPath("", x)) by {
      ResolveStep(c.sections, ["", x]);
      ResolveStep([], ["", x][1..]);
    }
    var c1 := AddSection(c, x);
    assert c1.sections == [e, Section(x, map[], [], [])];
    var top := CreateSubSectionByPath(c1.sections[1], Join([x][1..], "."));
    assert top == Section(x, map[], [], [e]) by {
      assert Join([x][1..], ".") == "";
      assert Chain(Split("", '.')) == e;
    }
    assert c1.(sections := c1.sections[1 := top]) == c2;
    assert AddSectionByPath(c, path) == (c2, GetSectionByPath(c2, path));
    assert GetSectionByPath(c2, path) == Failure(InvalidPath("", x)) by {
      ResolveStep(c2.sections, ["", x]);
      ResolveStep([], ["", x][1..]);
    }
  }

  /** The branch for a non-empty valid part, for every path: the valid part is
      looked up again, and when it resolves one chain of fresh sections for the
      invalid part is appended beneath the section found, whatever the first
      segment's predicate; when it does not, its error is raised and the tree
      is unchanged. */
  lemma AddSectionByPathBelowValidPart(c: Configurator, path: string)
    requires GetSectionByPath(c, path).Failure? && GetSectionByPath(c, path).error.validPath != ""
    ensures var e := GetSectionByPath(c, path).error;
      GetSectionByPath(c, e.validPath).Success? ==>
        var vip := GetSectionByPath(c, e.validPath).value;
        var c2 := c.(sections := AppendUnder(c.sections, vip, Chain(Split(e.invalidPath, '.'))));
        AddSectionByPath(c, path) == (c2, GetSectionByPath(c2, path))
    ensures var e := GetSectionByPath(c, path).error;
      GetSectionByPath(c, e.validPath).Failure? ==>
        AddSectionByPath(c, path) == (c, GetSectionByPath(c, e.validPath))
  {
    var e := GetSectionByPath(c, path).error;
    if GetSectionByPath(c, e.validPath).Success? {
      var vip := GetSectionByPath(c, e.validPath).value;
      CreateIsAppendUnder(c.sections, vip, e.invalidPath);
    }
  }
}
