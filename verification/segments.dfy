/** Parsing of one path segment such as `Binary[name="someBinary",os=linux]`
    into a section name and an attribute predicate (a name-to-value map), as
    done by `Configurator.splitSectionAndAttributes` and
    `Configurator.splitAttributesString`. The parser is naive on purpose:
    pairs are cut at every `,`, every `"` is deleted, and a pair is cut at its
    first `=`. */
module Segments {
  import opened Wrappers
  import opened PyStrings

  /** Splits a segment into its name and its bracketed attribute string.
      Without both a `[` and a `]` the whole segment is the name. Otherwise the
      name runs up to the first `[` and the attribute string from that `[`
      through the first `]`; text after it is dropped, and a `]` that comes
      before the first `[` yields an empty attribute string. */
  function SplitSectionAndAttributes(segment: string): (r: (string, Option<string>))
    ensures !('[' in segment && ']' in segment) ==> r == (segment, None)
    ensures '[' in segment && ']' in segment ==>
      && r.1.Some?
      && |r.0| < |segment|
      && r.0 == segment[..|r.0|]
      && segment[|r.0|] == '['
      && '[' !in r.0
    ensures '[' in segment && ']' in segment && ']' !in r.0 ==>
      var a := r.1.value;
      && 2 <= |a|
      && |r.0| + |a| <= |segment|
      && a == segment[|r.0|..|r.0| + |a|]
      && a[|a| - 1] == ']'
      && ']' !in a[..|a| - 1]
    ensures '[' in segment && ']' in segment && ']' in r.0 ==> r.1 == Some([])
  {
    if '[' in segment && ']' in segment then
      var first := Find(segment, '[');
      var second := Find(segment, ']');
      var name := PySlice(segment, 0, first);
      var attrs := PySlice(segment, first, second + 1);
      assert name == segment[..first];
      if second < first then
        assert ']' in name by { assert name[second] == ']'; }
        (name, Some(attrs))
      else
        assert second != first;
        assert attrs == segment[first..second + 1];
        assert attrs[..|attrs| - 1] == segment[first..second];
        assert ']' !in segment[first..second] by {
          forall i | first <= i < second ensures segment[i] != ']' {
            assert segment[..second][i] == segment[i];
          }
        }
        (name, Some(attrs))
    else
      (segment, None)
  }

  /** One attribute pair: every `"` is deleted, then the text is cut at its
      first `=`. Without an `=`, Python's `find` gives -1, so the key is the
      text minus its last character and the value is the whole text. */
  function ParsePair(raw: string): (kv: (string, string))
    ensures '"' !in kv.0 && '"' !in kv.1
    ensures var clean := Replace(raw, ['"'], []);
      && ('=' in clean ==> kv.0 + ['='] + kv.1 == clean && '=' !in kv.0)
      && ('=' !in clean ==> kv.1 == clean && kv.0 == clean[..if |clean| == 0 then 0 else |clean| - 1])
  {
    var clean := Replace(raw, ['"'], []);
    DeleteRemovesChar(raw, '"');
    var e := Find(clean, '=');
    var kv := (PySlice(clean, 0, e), PySlice(clean, e + 1, |clean|));
    if e >= 0 then
      assert kv.0 == clean[..e] && kv.1 == clean[e + 1..];
      assert clean == clean[..e] + ['='] + clean[e + 1..];
      kv
    else
      assert kv.1 == clean;
      kv
  }

  /** The key a raw pair contributes. */
  function KeyOf(raw: string): string
  {
    ParsePair(raw).0
  }

  /** The value a raw pair contributes. */
  function ValueOf(raw: string): string
  {
    ParsePair(raw).1
  }

  /** The keys the pairs mention. */
  function KeysOf(raws: seq<string>): set<string>
    decreases |raws|
  {
    if |raws| == 0 then {} else {KeyOf(raws[0])} + KeysOf(raws[1..])
  }

  /** The value of the last pair whose key is `k`: the reference reading of
      "a later duplicate key overwrites an earlier one". */
  function LastValue(raws: seq<string>, k: string): string
    requires k in KeysOf(raws)
    decreases |raws|
  {
    if k in KeysOf(raws[1..]) then LastValue(raws[1..], k) else ValueOf(raws[0])
  }

  /** Dict assignment of every pair in order, as the loop over the pairs does:
      the keys are those of `m` and of the pairs; a key some pair mentions is
      bound to the last such pair's value, and any other key keeps its value. */
  function AddPairs(m: map<string, string>, raws: seq<string>): (r: map<string, string>)
    ensures r.Keys == m.Keys + KeysOf(raws)
    ensures forall k :: k in KeysOf(raws) ==> r[k] == LastValue(raws, k)
    ensures forall k :: k in m && k !in KeysOf(raws) ==> r[k] == m[k]
    decreases |raws|
  {
    if |raws| == 0 then m
    else AddPairs(m[KeyOf(raws[0]) := ValueOf(raws[0])], raws[1..])
  }

  /** The pairs of an attribute string: the outer two characters are dropped
      and the rest is cut at every comma. */
  function AttributePairs(attributes: string): seq<string>
  {
    Split(PySlice(attributes, 1, |attributes| - 1), ',')
  }

  /** Parses an attribute string (or its absence) into a predicate map. An
      absent or empty string gives the empty map; otherwise the map holds the
      key of every pair, bound to the value of the last pair with that key. */
  function SplitAttributesString(attributes: Option<string>): (r: map<string, string>)
    ensures attributes.None? || attributes.value == [] ==> r == map[]
    ensures attributes.Some? && attributes.value != [] ==>
      var raws := AttributePairs(attributes.value);
      && r.Keys == KeysOf(raws)
      && forall k :: k in r ==> r[k] == LastValue(raws, k)
  {
    if attributes.None? || attributes.value == [] then map[]
    else AddPairs(map[], AttributePairs(attributes.value))
  }

  /** A segment as the lookups use it: its bare name and its predicate. */
  function ParseSegment(segment: string): (string, map<string, string>)
  {
    var split := SplitSectionAndAttributes(segment);
    (split.0, SplitAttributesString(split.1))
  }

  /** The segment's name with any bracketed predicate removed. */
  function BareName(segment: string): string
  {
    SplitSectionAndAttributes(segment).0
  }

  /** A bare name parses to itself with no predicate; it is a prefix of the
      segment, so it keeps none of the characters the segment lacks. */
  lemma BareNameIsBare(segment: string)
    ensures SplitSectionAndAttributes(BareName(segment)) == (BareName(segment), None)
    ensures ParseSegment(BareName(segment)) == (BareName(segment), map[])
    ensures forall c :: c !in segment ==> c !in BareName(segment)
  {
    var name := BareName(segment);
    assert name == segment[..|name|];
  }

  // ---------------------------------------------------------------------------
  // Rendering a predicate, to state the parser's round trip.

  /** `key="value"` for every pair, in order. */
  function RenderPairs(kvs: seq<(string, string)>): (r: seq<string>)
    ensures |r| == |kvs|
    ensures forall i :: 0 <= i < |kvs| ==> r[i] == kvs[i].0 + "=\"" + kvs[i].1 + "\""
  {
    if |kvs| == 0 then []
    else [kvs[0].0 + "=\"" + kvs[0].1 + "\""] + RenderPairs(kvs[1..])
  }

  /** `[k1="v1",k2="v2",...]`. */
  function RenderPredicate(kvs: seq<(string, string)>): string
  {
    "[" + Join(RenderPairs(kvs), ",") + "]"
  }

  /** The map built by assigning the pairs in order. */
  function MapOf(m: map<string, string>, kvs: seq<(string, string)>): map<string, string>
    decreases |kvs|
  {
    if |kvs| == 0 then m else MapOf(m[kvs[0].0 := kvs[0].1], kvs[1..])
  }

  /** Pairs the naive parser can read back: keys free of `=`, `,`, `"`, `]`
      and values free of `,`, `"`, `]` (values may hold `=` and spaces). */
  predicate Renderable(kvs: seq<(string, string)>)
  {
    forall i :: 0 <= i < |kvs| ==>
      && '=' !in kvs[i].0 && ',' !in kvs[i].0 && '"' !in kvs[i].0 && ']' !in kvs[i].0
      && ',' !in kvs[i].1 && '"' !in kvs[i].1 && ']' !in kvs[i].1
  }

  /** A character absent from every piece and from the separator is absent
      from the join. */
  lemma {:induction false} JoinAvoids(parts: seq<string>, sep: string, c: char)
    requires forall i :: 0 <= i < |parts| ==> c !in parts[i]
    requires c !in sep
    ensures c !in Join(parts, sep)
    decreases |parts|
  {
    if |parts| > 1 {
      JoinAvoids(parts[1..], sep, c);
    }
  }

  /** A character absent from a key and a value, and other than `=` and `"`,
      is absent from the rendered pair. */
  lemma RenderedPairAvoids(k: string, v: string, c: char)
    requires c !in k && c !in v && c != '=' && c != '"'
    ensures c !in k + "=\"" + v + "\""
  {
  }

  /** Deleting the quotes of a rendered pair leaves `key=value`. */
  lemma UnquoteRenderedPair(k: string, v: string)
    requires '"' !in k && '"' !in v
    ensures Replace(k + "=\"" + v + "\"", "\"", []) == k + "=" + v
  {
    var q := "\"";
    var quoted := Join([[], v, []], q);
    calc {
      Replace(k + "=\"" + v + "\"", q, []);
      == { QuotedJoin(v); RenderedPairParts(k, v); }
      Replace((k + "=") + quoted, q, []);
      == { CharNotInConcat('"', k, "="); ReplaceSkipsPrefix(k + "=", quoted, q, []); }
      (k + "=") + Replace(quoted, q, []);
      == { ReplaceJoin([[], v, []], q, []); QuotedJoin(v); }
      (k + "=") + v;
    }
  }

  lemma RenderedPairParts(k: string, v: string)
    ensures k + "=\"" + v + "\"" == (k + "=") + ("\"" + v + "\"")
  {
  }

  /** A quoted value is the join of empty, value, empty around the quote. */
  lemma QuotedJoin(v: string)
    ensures Join([[], v, []], "\"") == "\"" + v + "\""
    ensures Join([[], v, []], []) == v
  {
    assert Join([[]], "\"") == [];
    assert Join([v, []], "\"") == v + "\"";
    assert Join([[]], []) == [];
    assert Join([v, []], []) == v;
  }

  /** `key=value` with an `=`-free key is cut at that `=`. */
  lemma CutAtEquals(raw: string, k: string, v: string)
    requires '=' !in k
    requires Replace(raw, ['"'], []) == k + "=" + v
    ensures ParsePair(raw) == (k, v)
  {
    var clean := k + "=" + v;
    assert clean[|k|] == '=';
    assert clean[..|k|] == k;
    assert Find(clean, '=') == |k|;
    assert clean[|k| + 1..] == v;
  }

  /** One rendered pair parses back to its key and value. */
  lemma PairRoundTrip(k: string, v: string)
    requires '=' !in k && '"' !in k
    requires '"' !in v
    ensures ParsePair(k + "=\"" + v + "\"") == (k, v)
  {
    UnquoteRenderedPair(k, v);
    CutAtEquals(k + "=\"" + v + "\"", k, v);
  }

  /** Adding rendered pairs is assigning the pairs themselves. */
  lemma {:induction false} AddRenderedPairs(m: map<string, string>, kvs: seq<(string, string)>)
    requires Renderable(kvs)
    ensures AddPairs(m, RenderPairs(kvs)) == MapOf(m, kvs)
    decreases |kvs|
  {
    if |kvs| > 0 {
      PairRoundTrip(kvs[0].0, kvs[0].1);
      assert RenderPairs(kvs)[1..] == RenderPairs(kvs[1..]);
      assert Renderable(kvs[1..]) by {
        forall i | 0 <= i < |kvs[1..]| ensures kvs[1..][i] == kvs[i + 1] { }
      }
      AddRenderedPairs(m[kvs[0].0 := kvs[0].1], kvs[1..]);
    }
  }

  /** Round trip of the predicate parser: a rendered, non-empty list of pairs
      parses back to the map of those pairs (a later duplicate key wins). */
  lemma PredicateRoundTrip(kvs: seq<(string, string)>)
    requires |kvs| >= 1
    requires Renderable(kvs)
    ensures SplitAttributesString(Some(RenderPredicate(kvs))) == MapOf(map[], kvs)
  {
    var pairs := RenderPairs(kvs);
    var inner := Join(pairs, ",");
    var text := RenderPredicate(kvs);
    assert PySlice(text, 1, |text| - 1) == inner;
    forall i | 0 <= i < |pairs| ensures ',' !in pairs[i] {
      RenderedPairAvoids(kvs[i].0, kvs[i].1, ',');
    }
    SplitJoin(pairs, ',');
    assert AttributePairs(text) == pairs;
    AddRenderedPairs(map[], kvs);
  }

  /** The rendered pairs, joined, hold no `]`. */
  lemma RenderedJoinAvoidsBracket(kvs: seq<(string, string)>)
    requires Renderable(kvs)
    ensures ']' !in Join(RenderPairs(kvs), ",")
  {
    var pairs := RenderPairs(kvs);
    forall i | 0 <= i < |pairs| ensures ']' !in pairs[i] {
      RenderedPairAvoids(kvs[i].0, kvs[i].1, ']');
    }
    JoinAvoids(pairs, ",", ']');
  }

  /** A bracket-free name followed by one bracketed, `]`-free group splits
      at the group's brackets. */
  lemma SplitAtGroup(name: string, inner: string, segment: string)
    requires '[' !in name && ']' !in name && ']' !in inner
    requires segment == name + "[" + inner + "]"
    ensures SplitSectionAndAttributes(segment) == (name, Some("[" + inner + "]"))
  {
    assert segment[|name|] == '[';
    assert segment[..|name|] == name;
    assert Find(segment, '[') == |name|;
    assert segment[|segment| - 1] == ']';
    assert segment[..|segment| - 1] == name + "[" + inner;
    assert Find(segment, ']') == |segment| - 1;
    assert segment[|name|..|segment|] == "[" + inner + "]";
  }

  /** A bracket-free name followed by a rendered predicate splits at the
      predicate's brackets. */
  lemma SplitBracketed(name: string, kvs: seq<(string, string)>)
    requires '[' !in name && ']' !in name
    requires Renderable(kvs)
    ensures SplitSectionAndAttributes(name + RenderPredicate(kvs)) == (name, Some(RenderPredicate(kvs)))
  {
    var inner := Join(RenderPairs(kvs), ",");
    RenderedJoinAvoidsBracket(kvs);
    SplitAtGroup(name, inner, name + RenderPredicate(kvs));
  }

  /** Round trip of a whole segment: a bracket-free name followed by a rendered
      predicate parses back to that name and map. */
  lemma SegmentRoundTrip(name: string, kvs: seq<(string, string)>)
    requires '[' !in name && ']' !in name
    requires |kvs| >= 1
    requires Renderable(kvs)
    ensures ParseSegment(name + RenderPredicate(kvs)) == (name, MapOf(map[], kvs))
  {
    SplitBracketed(name, kvs);
    PredicateRoundTrip(kvs);
  }

  /** The quirk of an empty bracket pair: `[]` is a predicate with one
      attribute whose name and value are both empty. */
  lemma EmptyBracketsParse()
    ensures SplitAttributesString(Some("[]")) == map["" := ""]
  {
    assert PySlice("[]", 1, 1) == [];
    assert Find([], ',') == -1;
    assert AttributePairs("[]") == [[]];
    assert Replace([], ['"'], []) == [];
    assert ParsePair([]) == ([], []);
  }
}
