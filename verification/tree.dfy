/** The configuration tree of `src/configurator/core.py`: sections with
    attributes, ordered options and ordered subsections, held in order by a
    configurator. A section is addressed by its index path: the index of its
    top-level ancestor in the configurator, then the index within each parent's
    subsection list. The parent back-reference and `getPath` of the source are
    derived from that position. */
module ConfigTree {
  import opened Wrappers
  import opened PyStrings
  import opened Segments

  /** An option: a name and a value. Two options are equal when both are. */
  datatype OptionEntry = OptionEntry(name: string, value: string)

  /** A section. Its attributes form a name-to-value map: every section the
      core creates takes them from a parsed predicate, so names are unique. */
  datatype Section = Section(
    name: string,
    attributes: map<string, string>,
    options: seq<OptionEntry>,
    subsections: seq<Section>)

  /** A configurator: the path of its file, which is also its identity in
      comparisons, and its top-level sections in order. */
  datatype Configurator = Configurator(filePath: string, sections: seq<Section>)

  // ---------------------------------------------------------------------------
  // Attribute predicates and first-match lookup

  /** Every key of the predicate is an attribute of the section with an equal
      value; attributes the predicate does not mention are ignored. */
  predicate Superset(attributes: map<string, string>, pred: map<string, string>)
  {
    forall k :: k in pred ==> k in attributes && attributes[k] == pred[k]
  }

  /** `Section.containsAttributes`: for each predicate key, look for an
      attribute with that name and an equal value; fail on the first key
      without one. */
  method ContainsAttributes(s: Section, pred: map<string, string>) returns (found: bool)
    ensures found <==> forall k :: k in pred ==> k in s.attributes && s.attributes[k] == pred[k]
  {
    var remaining := pred.Keys;
    while remaining != {}
      invariant remaining <= pred.Keys
      invariant forall k :: k in pred && k !in remaining ==> k in s.attributes && s.attributes[k] == pred[k]
      decreases remaining
    {
      var k :| k in remaining;
      if !(k in s.attributes && s.attributes[k] == pred[k]) {
        return false;
      }
      remaining := remaining - {k};
    }
    return true;
  }

  /** The test `getSubSection` and `getTopLevelSection` apply to a candidate:
      with an empty predicate only the name is compared, otherwise the
      attributes must also contain the predicate. */
  predicate Matches(s: Section, name: string, pred: map<string, string>)
  {
    if pred == map[] then s.name == name
    else s.name == name && Superset(s.attributes, pred)
  }

  /** The two branches agree: a match is a name match plus containment. */
  lemma MatchesIsContainment(s: Section, name: string, pred: map<string, string>)
    ensures Matches(s, name, pred) <==> s.name == name && Superset(s.attributes, pred)
  {
  }

  /** The index of the first section in list order that matches, or None. */
  function FindSection(list: seq<Section>, name: string, pred: map<string, string>): (r: Option<nat>)
    ensures r.Some? ==> r.value < |list| && Matches(list[r.value], name, pred)
    ensures r.Some? ==> forall j :: 0 <= j < r.value ==> !Matches(list[j], name, pred)
    ensures r.None? ==> forall j :: 0 <= j < |list| ==> !Matches(list[j], name, pred)
    decreases |list|
  {
    if |list| == 0 then None
    else if Matches(list[0], name, pred) then Some(0)
    else
      match FindSection(list[1..], name, pred)
      case None =>
        assert forall j :: 1 <= j < |list| ==> list[j] == list[1..][j - 1];
        None
      case Some(i) =>
        assert forall j :: 1 <= j <= i ==> list[j] == list[1..][j - 1];
        Some(i + 1)
  }

  /** A lookup by one path segment: its bare name and its predicate. */
  function FindSegment(list: seq<Section>, segment: string): Option<nat>
  {
    var parsed := ParseSegment(segment);
    FindSection(list, parsed.0, parsed.1)
  }

  /** `Configurator.getTopLevelSection`: the first top-level section with the
      name that, for a non-empty predicate, also contains the predicate. */
  function GetTopLevelSection(c: Configurator, name: string, pred: map<string, string>): (r: Option<nat>)
    ensures r.Some? ==> r.value < |c.sections| && c.sections[r.value].name == name
    ensures r.Some? ==> Superset(c.sections[r.value].attributes, pred)
    ensures r.Some? ==> forall j :: 0 <= j < r.value ==> !(c.sections[j].name == name && Superset(c.sections[j].attributes, pred))
    ensures r.None? <==> forall j :: 0 <= j < |c.sections| ==> !(c.sections[j].name == name && Superset(c.sections[j].attributes, pred))
  {
    FindSection(c.sections, name, pred)
  }

  /** `Section.getSubSection`: the segment is parsed, then the first matching
      subsection is chosen. */
  function GetSubSection(s: Section, segment: string): (r: Option<nat>)
    ensures var parsed := ParseSegment(segment);
      && (r.Some? ==> r.value < |s.subsections| && s.subsections[r.value].name == parsed.0)
      && (r.Some? ==> Superset(s.subsections[r.value].attributes, parsed.1))
      && (r.Some? ==> forall j :: 0 <= j < r.value ==>
            !(s.subsections[j].name == parsed.0 && Superset(s.subsections[j].attributes, parsed.1)))
      && (r.None? <==> forall j :: 0 <= j < |s.subsections| ==>
            !(s.subsections[j].name == parsed.0 && Superset(s.subsections[j].attributes, parsed.1)))
  {
    FindSegment(s.subsections, segment)
  }

  /** The two lists hold sections with the same names and attributes, position
      by position: everything a lookup looks at. */
  predicate SameHeads(a: seq<Section>, b: seq<Section>)
  {
    |a| == |b| && forall i :: 0 <= i < |a| ==> a[i].name == b[i].name && a[i].attributes == b[i].attributes
  }

  /** Lookups see only names and attributes. */
  lemma {:induction false} FindSectionSameHeads(a: seq<Section>, b: seq<Section>, name: string, pred: map<string, string>)
    requires SameHeads(a, b)
    ensures FindSection(a, name, pred) == FindSection(b, name, pred)
    decreases |a|
  {
    if |a| > 0 {
      assert Matches(a[0], name, pred) <==> Matches(b[0], name, pred);
      assert SameHeads(a[1..], b[1..]) by {
        forall i | 0 <= i < |a| - 1
          ensures a[1..][i].name == b[1..][i].name && a[1..][i].attributes == b[1..][i].attributes
        {
          assert a[1..][i] == a[i + 1] && b[1..][i] == b[i + 1];
        }
      }
      FindSectionSameHeads(a[1..], b[1..], name, pred);
    }
  }

  /** A matching section appended behind a list without a match is found. */
  lemma FindSectionAppended(a: seq<Section>, x: Section, name: string, pred: map<string, string>)
    requires FindSection(a, name, pred).None?
    requires Matches(x, name, pred)
    ensures FindSection(a + [x], name, pred) == Some(|a|)
  {
    assert (a + [x])[|a|] == x;
    assert forall j :: 0 <= j < |a| ==> (a + [x])[j] == a[j];
  }

  // ---------------------------------------------------------------------------
  // Options

  /** The index of the first option named `name`, or None. */
  function FirstNamed(options: seq<OptionEntry>, name: string): (r: Option<nat>)
    ensures r.Some? ==> r.value < |options| && options[r.value].name == name
    ensures r.Some? ==> forall j :: 0 <= j < r.value ==> options[j].name != name
    ensures r.None? ==> forall j :: 0 <= j < |options| ==> options[j].name != name
    decreases |options|
  {
    if |options| == 0 then None
    else if options[0].name == name then Some(0)
    else
      match FirstNamed(options[1..], name)
      case None =>
        assert forall j :: 1 <= j < |options| ==> options[j] == options[1..][j - 1];
        None
      case Some(i) =>
        assert forall j :: 1 <= j <= i ==> options[j] == options[1..][j - 1];
        Some(i + 1)
  }

  /** `Section.getOption`: the first option with the name, or None. */
  function GetOption(s: Section, name: string): (r: Option<OptionEntry>)
    ensures r.Some? ==> r.value.name == name && r.value in s.options
    ensures r.Some? ==>
      exists i :: (0 <= i < |s.options| && s.options[i] == r.value &&
                   forall j :: 0 <= j < i ==> s.options[j].name != name)
    ensures r.None? <==> forall j :: 0 <= j < |s.options| ==> s.options[j].name != name
  {
    match FirstNamed(s.options, name)
    case None => None
    case Some(i) => Some(s.options[i])
  }

  /** `Section.setOption`: when an option equal in name and value exists, it is
      returned and nothing changes; otherwise exactly one option is appended,
      even if an option of that name exists with another value. */
  function SetOption(s: Section, name: string, value: string): (r: (Section, OptionEntry))
    ensures r.1 == OptionEntry(name, value)
    ensures r.1 in r.0.options
    ensures r.0.name == s.name && r.0.attributes == s.attributes && r.0.subsections == s.subsections
    ensures |s.options| <= |r.0.options| <= |s.options| + 1
    ensures r.0.options[..|s.options|] == s.options
    ensures r.0 == s <==> OptionEntry(name, value) in s.options
  {
    var wanted := OptionEntry(name, value);
    if wanted in s.options then (s, wanted)
    else
      var options := s.options + [wanted];
      assert options[|s.options|] == wanted;
      assert options[..|s.options|] == s.options;
      (s.(options := options), wanted)
  }

  /** `setOption` does not disturb `getOption` for any other name. */
  lemma SetOptionKeepsOtherNames(s: Section, name: string, value: string, other: string)
    requires other != name
    ensures GetOption(SetOption(s, name, value).0, other) == GetOption(s, other)
  {
    var t := SetOption(s, name, value).0;
    if OptionEntry(name, value) !in s.options {
      assert t.options == s.options + [OptionEntry(name, value)];
      match FirstNamed(s.options, other)
      case None =>
        assert FirstNamed(t.options, other).None?;
      case Some(i) =>
        assert t.options[i] == s.options[i];
        assert FirstNamed(t.options, other) == Some(i);
    }
  }

  /** Setting the same option twice is setting it once. */
  lemma SetOptionIdempotent(s: Section, name: string, value: string)
    ensures SetOption(SetOption(s, name, value).0, name, value) == SetOption(s, name, value)
  {
  }

  /** After `setOption`, `getOption` finds the new value only when no option of
      that name existed before; an earlier option of that name still wins. */
  lemma GetAfterSetOption(s: Section, name: string, value: string)
    ensures GetOption(SetOption(s, name, value).0, name) ==
      if GetOption(s, name).None? then Some(OptionEntry(name, value)) else GetOption(s, name)
  {
    var t := SetOption(s, name, value).0;
    if OptionEntry(name, value) !in s.options {
      assert t.options == s.options + [OptionEntry(name, value)];
      match FirstNamed(s.options, name)
      case None =>
        assert FirstNamed(t.options, name) == Some(|s.options|);
      case Some(i) =>
        assert t.options[i] == s.options[i];
        assert FirstNamed(t.options, name) == Some(i);
    }
  }

  // ---------------------------------------------------------------------------
  // Creating sections

  /** A fresh section for one path segment: the bare name and the parsed
      predicate as attributes, with no options and no subsections. */
  function NewSection(segment: string): (s: Section)
    ensures s.options == [] && s.subsections == []
    ensures Matches(s, ParseSegment(segment).0, ParseSegment(segment).1)
  {
    var parsed := ParseSegment(segment);
    Section(parsed.0, parsed.1, [], [])
  }

  /** `Section.addSubSection`: always appends a fresh child; it never looks for
      an existing one. */
  function AddSubSection(s: Section, segment: string): (r: Section)
    ensures r.name == s.name && r.attributes == s.attributes && r.options == s.options
    ensures |r.subsections| == |s.subsections| + 1
    ensures r.subsections[..|s.subsections|] == s.subsections
    ensures r.subsections[|s.subsections|] == NewSection(segment)
  {
    var children := s.subsections + [NewSection(segment)];
    assert children[..|s.subsections|] == s.subsections;
    s.(subsections := children)
  }

  /** No deduplication: looking the segment up after adding it finds an earlier
      match when there is one, and the new child otherwise. */
  lemma GetAfterAddSubSection(s: Section, segment: string)
    ensures GetSubSection(AddSubSection(s, segment), segment) ==
      if GetSubSection(s, segment).Some? then GetSubSection(s, segment) else Some(|s.subsections|)
  {
    var t := AddSubSection(s, segment);
    var parsed := ParseSegment(segment);
    assert t.subsections == s.subsections + [NewSection(segment)];
    match GetSubSection(s, segment)
    case None =>
      FindSectionAppended(s.subsections, NewSection(segment), parsed.0, parsed.1);
    case Some(i) =>
      assert forall j :: 0 <= j < |s.subsections| ==> t.subsections[j] == s.subsections[j];
  }

  /** The chain `createSubSectionByPath` builds: each segment becomes the only
      child of the previous one. */
  function Chain(segments: seq<string>): (s: Section)
    requires |segments| >= 1
    ensures s.options == []
    ensures Matches(s, ParseSegment(segments[0]).0, ParseSegment(segments[0]).1)
    decreases |segments|
  {
    var head := NewSection(segments[0]);
    if |segments| == 1 then head
    else head.(subsections := [Chain(segments[1..])])
  }

  /** `Section.createSubSectionByPath`: the path is split at every `.` and one
      new chain of sections is appended under this section. */
  function CreateSubSectionByPath(s: Section, path: string): (r: Section)
    ensures r.name == s.name && r.attributes == s.attributes && r.options == s.options
    ensures |r.subsections| == |s.subsections| + 1
    ensures r.subsections[..|s.subsections|] == s.subsections
    ensures r.subsections[|s.subsections|] == Chain(Split(path, '.'))
  {
    var children := s.subsections + [Chain(Split(path, '.'))];
    assert children[..|s.subsections|] == s.subsections;
    s.(subsections := children)
  }

  // ---------------------------------------------------------------------------
  // Index paths

  /** `ip` leads from `list` through existing subsections. */
  predicate Addresses(list: seq<Section>, ip: seq<nat>)
    decreases |ip|
  {
    |ip| == 0 || (ip[0] < |list| && Addresses(list[ip[0]].subsections, ip[1..]))
  }

  /** The section at a non-empty index path. */
  function At(list: seq<Section>, ip: seq<nat>): Section
    requires |ip| >= 1 && Addresses(list, ip)
    decreases |ip|
  {
    if |ip| == 1 then list[ip[0]] else At(list[ip[0]].subsections, ip[1..])
  }

  /** The list of children the index path leads into (`list` itself for the
      empty path). */
  function ChildrenAt(list: seq<Section>, ip: seq<nat>): seq<Section>
    requires Addresses(list, ip)
    decreases |ip|
  {
    if |ip| == 0 then list else ChildrenAt(list[ip[0]].subsections, ip[1..])
  }

  /** The names of the sections along an index path. */
  function NamesAlong(list: seq<Section>, ip: seq<nat>): (names: seq<string>)
    requires Addresses(list, ip)
    ensures |names| == |ip|
    ensures forall n :: 1 <= n <= |ip| ==> Addresses(list, ip[..n]) && names[n - 1] == At(list, ip[..n]).name
    decreases |ip|
  {
    if |ip| == 0 then []
    else
      var rest := NamesAlong(list[ip[0]].subsections, ip[1..]);
      var names := [list[ip[0]].name] + rest;
      assert forall n :: 1 <= n <= |ip| ==> Addresses(list, ip[..n]) && names[n - 1] == At(list, ip[..n]).name by {
        forall n | 1 <= n <= |ip|
          ensures Addresses(list, ip[..n]) && names[n - 1] == At(list, ip[..n]).name
        {
          if n == 1 {
            assert ip[..n] == [ip[0]];
          } else {
            assert ip[..n][0] == ip[0] && ip[..n][1..] == ip[1..][..n - 1];
          }
        }
      }
      names
  }

  /** `b` is `a` changed only down the index path `ip`: the lists have the same
      length, every section off the path is the same, and every section on the
      path before its last step keeps its name, attributes and options. The
      section the path ends at is not constrained here. */
  predicate ChangedOnlyAlong(a: seq<Section>, b: seq<Section>, ip: seq<nat>)
    decreases |ip|
  {
    |ip| == 0 ||
    (&& |a| == |b| && ip[0] < |a|
     && (forall i :: 0 <= i < |a| && i != ip[0] ==> b[i] == a[i])
     && (|ip| > 1 ==>
           && b[ip[0]].name == a[ip[0]].name
           && b[ip[0]].attributes == a[ip[0]].attributes
           && b[ip[0]].options == a[ip[0]].options
           && ChangedOnlyAlong(a[ip[0]].subsections, b[ip[0]].subsections, ip[1..])))
  }

  /** Appends `child` to the children at `ip`; nothing off the path changes, and
      every section on the path, the last included, keeps its name, attributes
      and options. */
  function AppendUnder(list: seq<Section>, ip: seq<nat>, child: Section): (r: seq<Section>)
    requires Addresses(list, ip)
    ensures |ip| == 0 ==> r == list + [child]
    ensures |ip| > 0 ==> SameHeads(list, r)
    ensures Addresses(r, ip)
    ensures ChildrenAt(r, ip) == ChildrenAt(list, ip) + [child]
    ensures ChangedOnlyAlong(list, r, ip)
    ensures |ip| > 0 ==>
      && At(r, ip).name == At(list, ip).name
      && At(r, ip).attributes == At(list, ip).attributes
      && At(r, ip).options == At(list, ip).options
    decreases |ip|
  {
    if |ip| == 0 then list + [child]
    else
      var s := list[ip[0]];
      list[ip[0] := s.(subsections := AppendUnder(s.subsections, ip[1..], child))]
  }

  /** Replaces the section at `ip` by `s`; nothing off the path changes, and
      every section above it keeps its name, attributes and options. */
  function ReplaceAt(list: seq<Section>, ip: seq<nat>, s: Section): (r: seq<Section>)
    requires |ip| >= 1 && Addresses(list, ip)
    ensures Addresses(r, ip) && At(r, ip) == s
    ensures ChangedOnlyAlong(list, r, ip)
    ensures s.name == At(list, ip).name && s.attributes == At(list, ip).attributes ==> SameHeads(list, r)
    decreases |ip|
  {
    var t := list[ip[0]];
    if |ip| == 1 then list[ip[0] := s]
    else list[ip[0] := t.(subsections := ReplaceAt(t.subsections, ip[1..], s))]
  }

  /** Replacing the section at `ip` by one with the same children keeps the
      options of every other section, wherever it sits. */
  lemma {:induction false} ReplaceAtKeepsOtherOptions(list: seq<Section>, ip: seq<nat>, s: Section, jp: seq<nat>)
    requires |ip| >= 1 && Addresses(list, ip) && |jp| >= 1 && Addresses(list, jp) && jp != ip
    requires s.subsections == At(list, ip).subsections
    ensures Addresses(ReplaceAt(list, ip, s), jp)
    ensures At(ReplaceAt(list, ip, s), jp).options == At(list, jp).options
    decreases |jp|
  {
    var r := ReplaceAt(list, ip, s);
    if jp[0] == ip[0] && |ip| > 1 && |jp| > 1 {
      assert jp[1..] != ip[1..] by { assert jp == [jp[0]] + jp[1..] && ip == [ip[0]] + ip[1..]; }
      ReplaceAtKeepsOtherOptions(list[ip[0]].subsections, ip[1..], s, jp[1..]);
    }
  }

  // ---------------------------------------------------------------------------
  // Paths and equality

  /** `Section.getPath`: the names from the top-level ancestor down, joined by
      dots. */
  function GetPath(c: Configurator, ip: seq<nat>): (p: string)
    requires |ip| >= 1 && Addresses(c.sections, ip)
    ensures (forall k :: 0 <= k < |ip| ==> '.' !in NamesAlong(c.sections, ip)[k]) ==>
      Split(p, '.') == NamesAlong(c.sections, ip)
  {
    SplitJoinWhenFree(NamesAlong(c.sections, ip), '.');
    Join(NamesAlong(c.sections, ip), ".")
  }

  /** `Section.isTopLevelSection`: the section has no parent. */
  predicate IsTopLevelSection(ip: seq<nat>)
  {
    |ip| == 1
  }

  /** A top-level section's path is its own name. */
  lemma TopLevelPath(c: Configurator, i: nat)
    requires i < |c.sections|
    ensures Addresses(c.sections, [i]) && IsTopLevelSection([i])
    ensures GetPath(c, [i]) == c.sections[i].name
  {
    assert [i][1..] == [];
    assert NamesAlong(c.sections, [i]) == [c.sections[i].name];
  }

  /** A child's path is its parent's path, a dot and its own name. */
  lemma ChildPath(c: Configurator, ip: seq<nat>, j: nat)
    requires |ip| >= 1 && Addresses(c.sections, ip)
    requires j < |At(c.sections, ip).subsections|
    ensures Addresses(c.sections, ip + [j]) && !IsTopLevelSection(ip + [j])
    ensures GetPath(c, ip + [j]) == GetPath(c, ip) + "." + At(c.sections, ip + [j]).name
  {
    ExtendPath(c.sections, ip, j);
    JoinSnoc(NamesAlong(c.sections, ip), At(c.sections, ip + [j]).name, ".");
  }

  /** `isTopLevelSection` read off the path: a section is top-level exactly when
      its path is its own name, since a child's path adds a dot and a parent's
      path in front of it. */
  lemma TopLevelIsOwnPath(c: Configurator, ip: seq<nat>)
    requires |ip| >= 1 && Addresses(c.sections, ip)
    ensures IsTopLevelSection(ip) <==> GetPath(c, ip) == At(c.sections, ip).name
  {
    if |ip| == 1 {
      TopLevelPath(c, ip[0]);
      assert ip == [ip[0]];
    } else {
      var q := ip[..|ip| - 1];
      var j := ip[|ip| - 1];
      assert ip == q + [j];
      AddressesPrefix(c.sections, ip, |ip| - 1);
      ChildPath(c, q, j);
      assert |GetPath(c, ip)| > |At(c.sections, ip).name|;
    }
  }

  /** A prefix of an index path leads through existing sections, and the
      section it reaches holds the next step as a child. */
  lemma {:induction false} AddressesPrefix(list: seq<Section>, ip: seq<nat>, k: nat)
    requires Addresses(list, ip) && 1 <= k < |ip|
    ensures Addresses(list, ip[..k])
    ensures ip[k] < |At(list, ip[..k]).subsections|
    decreases k
  {
    assert ip[..k][0] == ip[0];
    if k > 1 {
      assert ip[..k][1..] == ip[1..][..k - 1];
      AddressesPrefix(list[ip[0]].subsections, ip[1..], k - 1);
    } else {
      assert ip[..k][1..] == [];
      assert ip[1..][0] == ip[1];
    }
  }

  /** Extending an index path by one child index. */
  lemma {:induction false} ExtendPath(list: seq<Section>, ip: seq<nat>, j: nat)
    requires |ip| >= 1 && Addresses(list, ip)
    requires j < |At(list, ip).subsections|
    ensures Addresses(list, ip + [j])
    ensures At(list, ip + [j]) == At(list, ip).subsections[j]
    ensures NamesAlong(list, ip + [j]) == NamesAlong(list, ip) + [At(list, ip + [j]).name]
    decreases |ip|
  {
    var ext := ip + [j];
    assert ext[0] == ip[0];
    if |ip| == 1 {
      assert ext[1..] == [j];
      assert [j][1..] == [];
    } else {
      assert ext[1..] == ip[1..] + [j];
      ExtendPath(list[ip[0]].subsections, ip[1..], j);
    }
  }

  /** Joining with one more trailing piece. */
  lemma {:induction false} JoinSnoc(parts: seq<string>, last: string, sep: string)
    requires |parts| >= 1
    ensures Join(parts + [last], sep) == Join(parts, sep) + sep + last
    decreases |parts|
  {
    var ext := parts + [last];
    if |parts| == 1 {
      assert ext[1..] == [last];
    } else {
      assert ext[1..] == parts[1..] + [last];
      JoinSnoc(parts[1..], last, sep);
    }
  }

  /** `Section.optionsEqual` read from position `j` on: equal names and values
      pair by pair. */
  function OptionsEqualFrom(a: seq<OptionEntry>, b: seq<OptionEntry>, j: nat): (r: bool)
    requires |a| == |b| && j <= |a|
    ensures r <==> a[j..] == b[j..]
    decreases |a| - j
  {
    if j == |a| then true
    else
      var rest := OptionsEqualFrom(a, b, j + 1);
      assert a[j..] == [a[j]] + a[j + 1..];
      assert b[j..] == [b[j]] + b[j + 1..];
      a[j].name == b[j].name && a[j].value == b[j].value && rest
  }

  /** `Section.optionsEqual`: equal lengths and equal options in order. */
  function OptionsEqual(a: seq<OptionEntry>, b: seq<OptionEntry>): (r: bool)
    ensures r <==> a == b
  {
    |a| == |b| && OptionsEqualFrom(a, b, 0)
  }

  /** `Section.__eq__`: same name, same configurator (same file path), same
      path, equal option lists, and the same NUMBER of attributes; attribute
      values and subsections are not compared. */
  predicate SectionEquals(c1: Configurator, ip1: seq<nat>, c2: Configurator, ip2: seq<nat>)
    requires |ip1| >= 1 && Addresses(c1.sections, ip1)
    requires |ip2| >= 1 && Addresses(c2.sections, ip2)
  {
    var s1 := At(c1.sections, ip1);
    var s2 := At(c2.sections, ip2);
    && s1.name == s2.name
    && c1.filePath == c2.filePath
    && GetPath(c1, ip1) == GetPath(c2, ip2)
    && OptionsEqual(s1.options, s2.options)
    && |s1.attributes| == |s2.attributes|
  }

  /** `Section.__eq__` compares attributes by count only and ignores
      subsections: two top-level sections with the same name and options but
      different attribute values and different children compare equal. */
  lemma EqualityIgnoresAttributeValuesAndChildren(f: string, s: Section, t: Section)
    requires s.name == t.name && s.options == t.options && |s.attributes| == |t.attributes|
    ensures SectionEquals(Configurator(f, [s]), [0], Configurator(f, [t]), [0])
    ensures var a := Section("a", map["k" := "1"], [], []);
      var b := Section("a", map["k" := "2"], [], [Section("b", map[], [], [])]);
      a != b && SectionEquals(Configurator(f, [a]), [0], Configurator(f, [b]), [0])
  {
    TopLevelPath(Configurator(f, [s]), 0);
    TopLevelPath(Configurator(f, [t]), 0);
    var a := Section("a", map["k" := "1"], [], []);
    var b := Section("a", map["k" := "2"], [], [Section("b", map[], [], [])]);
    assert a.attributes["k"] != b.attributes["k"];
    TopLevelPath(Configurator(f, [a]), 0);
    TopLevelPath(Configurator(f, [b]), 0);
  }

  /** Section equality is an equivalence relation. */
  lemma SectionEqualsEquivalence(c1: Configurator, ip1: seq<nat>, c2: Configurator, ip2: seq<nat>, c3: Configurator, ip3: seq<nat>)
    requires |ip1| >= 1 && Addresses(c1.sections, ip1)
    requires |ip2| >= 1 && Addresses(c2.sections, ip2)
    requires |ip3| >= 1 && Addresses(c3.sections, ip3)
    ensures SectionEquals(c1, ip1, c1, ip1)
    ensures SectionEquals(c1, ip1, c2, ip2) ==> SectionEquals(c2, ip2, c1, ip1)
    ensures SectionEquals(c1, ip1, c2, ip2) && SectionEquals(c2, ip2, c3, ip3) ==> SectionEquals(c1, ip1, c3, ip3)
  {
  }
}
