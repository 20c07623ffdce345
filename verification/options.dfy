/** Option paths in `src/configurator/core.py`: `addOptionByPath` and
    `getOptionByPath`. The last segment of an option path names the option;
    the segments before it, joined again by dots, name its section. */
module OptionPaths {
  import opened Wrappers
  import opened PyStrings
  import opened Segments
  import opened ConfigTree
  import opened ConfigPaths

  /** The option name of an option path: its last segment. */
  function OptionNameOf(path: string): (name: string)
    ensures '.' !in name
    ensures '.' !in path ==> name == path
  {
    var segs := Segs(path);
    segs[|segs| - 1]
  }

  /** The section path of an option path: the other segments, joined by dots. */
  function SectionPathOf(path: string): (sp: string)
    ensures '.' !in path ==> sp == ""
    ensures |Segs(path)| >= 2 ==> Segs(sp) == Segs(path)[..|Segs(path)| - 1]
  {
    var segs := Segs(path);
    SplitJoinWhenFree(segs[..|segs| - 1], '.');
    Join(segs[..|segs| - 1], ".")
  }

  /** The two parts rebuild the option path; a path without a dot names an
      option of the section with the empty path. */
  lemma OptionPathSplits(path: string)
    ensures '.' !in OptionNameOf(path)
    ensures |Segs(path)| == 1 ==> SectionPathOf(path) == "" && OptionNameOf(path) == path
    ensures |Segs(path)| >= 2 ==> SectionPathOf(path) + "." + OptionNameOf(path) == path
  {
    var segs := Segs(path);
    var n := |segs|;
    JoinSplit(path, '.');
    if n >= 2 {
      assert segs == segs[..n - 1] + [segs[n - 1]];
      JoinAppend(segs[..n - 1], [segs[n - 1]], ".");
    }
  }

  /** `Configurator.getOptionByPath`: the first option of that name in the
      section the section path resolves to, None when it has none, and the
      section path's error when it does not resolve. */
  function GetOptionByPath(c: Configurator, path: string): (r: Result<Option<OptionEntry>, InvalidPath>)
    ensures r.Failure? <==> GetSectionByPath(c, SectionPathOf(path)).Failure?
    ensures r.Failure? ==> r.error == GetSectionByPath(c, SectionPathOf(path)).error
    ensures r.Success? ==>
      r.value == GetOption(At(c.sections, GetSectionByPath(c, SectionPathOf(path)).value), OptionNameOf(path))
    ensures r.Success? ==>
      var s := At(c.sections, GetSectionByPath(c, SectionPathOf(path)).value);
      && (r.value.None? <==> forall j :: 0 <= j < |s.options| ==> s.options[j].name != OptionNameOf(path))
      && (r.value.Some? ==> r.value.value.name == OptionNameOf(path) && r.value.value in s.options)
  {
    var ip :- GetSectionByPath(c, SectionPathOf(path));
    Success(GetOption(At(c.sections, ip), OptionNameOf(path)))
  }

  /** `Configurator.addOptionByPath`: the section path is added, then the option
      is set on the section it resolves to. The error of `addSectionByPath`
      propagates, together with the tree it left behind. */
  function AddOptionByPath(c: Configurator, path: string, value: string): (r: (Configurator, Result<OptionEntry, InvalidPath>))
    ensures r.0.filePath == c.filePath
    ensures r.1.Success? ==> r.1.value == OptionEntry(OptionNameOf(path), value)
    ensures r.1.Success? ==>
      var added := AddSectionByPath(c, SectionPathOf(path));
      && added.1.Success?
      && ChangedOnlyAlong(added.0.sections, r.0.sections, added.1.value)
      && Addresses(r.0.sections, added.1.value)
      && At(r.0.sections, added.1.value) ==
           SetOption(At(added.0.sections, added.1.value), OptionNameOf(path), value).0
    ensures r.1.Failure? ==> var added := AddSectionByPath(c, SectionPathOf(path));
      added.1.Failure? && r.0 == added.0 && r.1.error == added.1.error
  {
    var added := AddSectionByPath(c, SectionPathOf(path));
    var c1 := added.0;
    match added.1
    case Failure(e) => (c1, Failure(e))
    case Success(ip) =>
      // `addSectionByPath` answers what `getSectionByPath` finds in its tree,
      // so the second lookup of the source lands on `ip` again.
      var updated := SetOption(At(c1.sections, ip), OptionNameOf(path), value);
      (c1.(sections := ReplaceAt(c1.sections, ip, updated.0)), Success(updated.1))
  }

  /** Replacing a section by one with the same name, attributes and
      subsections leaves every walk unchanged. */
  lemma {:induction false} ResolveReplaceSame(list: seq<Section>, segs: seq<string>, ip: seq<nat>, s: Section)
    requires |ip| >= 1 && Addresses(list, ip)
    requires s.name == At(list, ip).name && s.attributes == At(list, ip).attributes
    requires s.subsections == At(list, ip).subsections
    ensures Resolve(ReplaceAt(list, ip, s), segs) == Resolve(list, segs)
    decreases |segs|
  {
    if |segs| > 0 {
      var after := ReplaceAt(list, ip, s);
      var parsed := ParseSegment(segs[0]);
      FindSectionSameHeads(list, after, parsed.0, parsed.1);
      ResolveStep(list, segs);
      ResolveStep(after, segs);
      match FindSegment(list, segs[0])
      case None =>
      case Some(j) =>
        if j == ip[0] && |ip| > 1 {
          ResolveReplaceSame(list[j].subsections, segs[1..], ip[1..], s);
        }
    }
  }

  /** Option-path round trip: after `addOptionByPath(P, V)` succeeds,
      `getOptionByPath(P)` answers the option (name of P's last segment, V),
      unless the section already had an option of that name, which is still
      the one found. */
  lemma OptionRoundTrip(c: Configurator, path: string, value: string)
    requires AddOptionByPath(c, path, value).1.Success?
    ensures var before := GetOptionByPath(AddSectionByPath(c, SectionPathOf(path)).0, path);
      && before.Success?
      && GetOptionByPath(AddOptionByPath(c, path, value).0, path) ==
           if before.value.None? then Success(Some(OptionEntry(OptionNameOf(path), value))) else before
  {
    var sp := SectionPathOf(path);
    var name := OptionNameOf(path);
    var c1 := AddSectionByPath(c, sp).0;
    var ip := AddSectionByPath(c, sp).1.value;
    var s := At(c1.sections, ip);
    var updated := SetOption(s, name, value);
    var c2 := AddOptionByPath(c, path, value).0;
    assert c2.sections == ReplaceAt(c1.sections, ip, updated.0);
    ResolveReplaceSame(c1.sections, Segs(sp), ip, updated.0);
    WalkResult(c1, sp);
    WalkResult(c2, sp);
    assert GetSectionByPath(c2, sp) == Success(ip);
    GetAfterSetOption(s, name, value);
  }

  /** Changing only the options of the section at `ip` changes the answer of
      `getOptionByPath` only for paths whose section is the one at `ip`. */
  lemma OtherOptionsAfterReplace(c1: Configurator, ip: seq<nat>, t: Section, other: string)
    requires |ip| >= 1 && Addresses(c1.sections, ip)
    requires t.name == At(c1.sections, ip).name && t.attributes == At(c1.sections, ip).attributes
    requires t.subsections == At(c1.sections, ip).subsections
    requires GetSectionByPath(c1, SectionPathOf(other)) != Success(ip) ||
      GetOption(t, OptionNameOf(other)) == GetOption(At(c1.sections, ip), OptionNameOf(other))
    ensures GetOptionByPath(c1.(sections := ReplaceAt(c1.sections, ip, t)), other) == GetOptionByPath(c1, other)
  {
    var sq := SectionPathOf(other);
    var name := OptionNameOf(other);
    var c2 := c1.(sections := ReplaceAt(c1.sections, ip, t));
    assert GetSectionByPath(c2, sq) == GetSectionByPath(c1, sq) by {
      ResolveReplaceSame(c1.sections, Segs(sq), ip, t);
      WalkResult(c1, sq);
      WalkResult(c2, sq);
    }
    if GetSectionByPath(c1, sq).Success? {
      var jp := GetSectionByPath(c1, sq).value;
      assert GetOption(At(c2.sections, jp), name) == GetOption(At(c1.sections, jp), name) by {
        if jp != ip {
          ReplaceAtKeepsOtherOptions(c1.sections, ip, t, jp);
        }
      }
    }
  }

  /** `addOptionByPath(P, V)` changes no other answer of `getOptionByPath`:
      an option path whose section resolves elsewhere, or whose option name
      differs, is answered as it was once P's section path had been added. */
  lemma AddOptionKeepsOtherOptions(c: Configurator, path: string, value: string, other: string)
    requires AddOptionByPath(c, path, value).1.Success?
    requires var added := AddSectionByPath(c, SectionPathOf(path));
      GetSectionByPath(added.0, SectionPathOf(other)) != added.1 || OptionNameOf(other) != OptionNameOf(path)
    ensures GetOptionByPath(AddOptionByPath(c, path, value).0, other) ==
      GetOptionByPath(AddSectionByPath(c, SectionPathOf(path)).0, other)
  {
    var added := AddSectionByPath(c, SectionPathOf(path));
    var c1 := added.0;
    var ip := added.1.value;
    var s := At(c1.sections, ip);
    var updated := SetOption(s, OptionNameOf(path), value).0;
    assert AddOptionByPath(c, path, value).0 == c1.(sections := ReplaceAt(c1.sections, ip, updated));
    if OptionNameOf(other) != OptionNameOf(path) {
      SetOptionKeepsOtherNames(s, OptionNameOf(path), value, OptionNameOf(other));
    }
    OtherOptionsAfterReplace(c1, ip, updated, other);
  }
}
