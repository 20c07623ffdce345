/** The pure helpers of `runner.py`: the build URL built from a template with
    `%year%`, `%day%`, `%month%`, `%name%` and `%buildid%` placeholders, and the
    date tables that name the repository a nightly build came from. */
module Runner {
  import opened PyStrings
  import opened Dates

  // ---------------------------------------------------------------------------
  // Build URL templates
  // ---------------------------------------------------------------------------

  /** A string in which the pattern does not occur is left as it is. */
  lemma ReplaceIfAbsent(s: string, pat: string, rep: string)
    requires |pat| > 0
    ensures !Occurs(s, pat) ==> Replace(s, pat, rep) == s
  {
    if !Occurs(s, pat) {
      ReplaceAbsent(s, pat, rep);
    }
  }

  /** `DebugBuild.constructBuildUrlFromData`. Python's `str.replace` runs over
      the whole string once per placeholder, in the order year, day, month,
      name, build id; the last two only when their value is truthy (a missing
      value and the empty string are both the empty string here). */
  function ConstructBuildUrl(template: string, year: string, month: string, day: string,
                             name: string, buildId: string): (r: string)
    ensures (&& !Occurs(template, "%year%") && !Occurs(template, "%day%") && !Occurs(template, "%month%")
             && !Occurs(template, "%name%") && !Occurs(template, "%buildid%")) ==>
      r == template
  {
    ReplaceIfAbsent(template, "%year%", year);
    ReplaceIfAbsent(template, "%day%", day);
    ReplaceIfAbsent(template, "%month%", month);
    ReplaceIfAbsent(template, "%name%", name);
    ReplaceIfAbsent(template, "%buildid%", buildId);
    var url := Replace(template, "%year%", year);
    var url := Replace(url, "%day%", day);
    var url := Replace(url, "%month%", month);
    var url := if name != "" then Replace(url, "%name%", name) else url;
    if buildId != "" then Replace(url, "%buildid%", buildId) else url
  }

  /** A template read as literal text and named placeholders. */
  datatype Piece = Text(text: string) | Slot(slot: string)

  /** The template string of a piece list: a slot `n` is written `%n%`. */
  function Render(t: seq<Piece>): string
  {
    if |t| == 0 then []
    else
      match t[0]
      case Text(s) => s + Render(t[1..])
      case Slot(n) => "%" + n + "%" + Render(t[1..])
  }

  /** Text without `%`, and slot names that are non-empty and lack `%`. */
  predicate WellFormed(t: seq<Piece>)
  {
    |t| == 0 ||
    ((match t[0]
      case Text(s) => '%' !in s
      case Slot(n) => |n| > 0 && '%' !in n)
     && WellFormed(t[1..]))
  }

  /** Reference meaning of a template: every slot bound in `env` becomes its
      value, and every other slot stays as written. */
  function Fill(t: seq<Piece>, env: map<string, string>): string
  {
    if |t| == 0 then []
    else
      match t[0]
      case Text(s) => s + Fill(t[1..], env)
      case Slot(n) => (if n in env then env[n] else "%" + n + "%") + Fill(t[1..], env)
  }

  /** Every slot named `p` turned into the text `v`. */
  function Bind(t: seq<Piece>, p: string, v: string): (r: seq<Piece>)
    ensures |r| == |t|
  {
    if |t| == 0 then []
    else (if t[0] == Slot(p) then [Text(v)] else [t[0]]) + Bind(t[1..], p, v)
  }

  /** `r` starts with `p` followed by a `%`: after the closing `%` of another
      placeholder, that text would read as a `%p%`. */
  predicate LeadsWith(r: string, p: string)
  {
    |r| > |p| && r[..|p| + 1] == p + "%"
  }

  /** No placeholder other than `p` is followed by text that would let its
      closing `%` open a `%p%`: a left-to-right scan for `%p%` then finds
      exactly the slots named `p`. */
  predicate Unambiguous(t: seq<Piece>, p: string)
  {
    |t| == 0 ||
    ((match t[0]
      case Text(_) => true
      case Slot(n) => n == p || !LeadsWith(Render(t[1..]), p))
     && Unambiguous(t[1..], p))
  }

  /** The template the five passes of `ConstructBuildUrl` leave: each slot
      they fill turned into text. */
  function BindAll(t: seq<Piece>, year: string, month: string, day: string,
                   name: string, buildId: string): seq<Piece>
  {
    var t := Bind(Bind(Bind(t, "year", year), "day", day), "month", month);
    var t := if name != "" then Bind(t, "name", name) else t;
    if buildId != "" then Bind(t, "buildid", buildId) else t
  }

  /** The five passes of `ConstructBuildUrl`, each unambiguous on the template
      the passes before it left. */
  predicate PassesUnambiguous(t: seq<Piece>, year: string, month: string, day: string,
                              name: string, buildId: string)
  {
    var t1 := Bind(t, "year", year);
    var t2 := Bind(t1, "day", day);
    var t3 := Bind(t2, "month", month);
    var t4 := if name != "" then Bind(t3, "name", name) else t3;
    && Unambiguous(t, "year") && Unambiguous(t1, "day") && Unambiguous(t2, "month")
    && (name != "" ==> Unambiguous(t3, "name"))
    && (buildId != "" ==> Unambiguous(t4, "buildid"))
  }

  /** The values the placeholders receive: name and build id only when
      non-empty. */
  function Values(year: string, month: string, day: string, name: string, buildId: string): (env: map<string, string>)
    ensures "year" in env && "month" in env && "day" in env
    ensures "name" in env <==> name != ""
    ensures "buildid" in env <==> buildId != ""
    ensures env.Keys <= {"year", "month", "day", "name", "buildid"}
    ensures env["year"] == year && env["month"] == month && env["day"] == day
    ensures name != "" ==> env["name"] == name
    ensures buildId != "" ==> env["buildid"] == buildId
  {
    SlotNamesDistinct();
    var env := map["year" := year, "day" := day, "month" := month];
    var env := if name != "" then env["name" := name] else env;
    if buildId != "" then env["buildid" := buildId] else env
  }

  lemma PlaceholderFirst(pat: string, rest: string, v: string)
    requires |pat| > 0
    ensures Replace(pat + rest, pat, v) == v + Replace(rest, pat, v)
  {
    assert (pat + rest)[..|pat|] == pat;
    assert (pat + rest)[|pat|..] == rest;
  }

  /** A `%` not followed by `p%` does not start a match of `%p%`. */
  lemma ReplaceAfterPercent(r: string, p: string, v: string)
    requires !LeadsWith(r, p)
    ensures Replace("%" + r, "%" + p + "%", v) == "%" + Replace(r, "%" + p + "%", v)
  {
    var pat := "%" + p + "%";
    var x := "%" + r;
    if |x| >= |pat| {
      var k :| 0 <= k < |p| + 1 && r[k] != (p + "%")[k];
      assert x[..|pat|][k + 1] != pat[k + 1];
      assert x[1..] == r;
    } else {
      assert Replace(r, pat, v) == r;
    }
  }

  /** Another placeholder `%q%` is no match for `%p%`. */
  lemma OtherSlotNoMatch(q: string, p: string, rest: string)
    requires |q| > 0 && '%' !in q && |p| > 0 && '%' !in p && q != p
    requires |"%" + q + "%" + rest| >= |"%" + p + "%"|
    ensures ("%" + q + "%" + rest)[..|p| + 2] != "%" + p + "%"
  {
    var x := "%" + q + "%" + rest;
    var pat := "%" + p + "%";
    if |q| > |p| {
      assert x[|p| + 1] == q[|p|];
      assert x[..|p| + 2][|p| + 1] != pat[|p| + 1];
    } else if |q| < |p| {
      assert x[|q| + 1] == '%';
      assert x[..|p| + 2][|q| + 1] != pat[|q| + 1];
    } else {
      var k :| 0 <= k < |q| && q[k] != p[k];
      assert x[k + 1] == q[k];
      assert x[..|p| + 2][k + 1] != pat[k + 1];
    }
  }

  /** Scanning for `%p%` steps over a placeholder with another name. */
  lemma ReplaceOverSlot(q: string, p: string, rest: string, v: string)
    requires |q| > 0 && '%' !in q && |p| > 0 && '%' !in p && q != p
    requires !LeadsWith(rest, p)
    ensures Replace("%" + q + "%" + rest, "%" + p + "%", v) == "%" + q + "%" + Replace(rest, "%" + p + "%", v)
  {
    var pat := "%" + p + "%";
    var x := "%" + q + "%" + rest;
    if |x| >= |pat| {
      OtherSlotNoMatch(q, p, rest);
    }
    assert x[1..] == q + ("%" + rest);
    ReplaceSkipsPrefix(q, "%" + rest, pat, v);
    ReplaceAfterPercent(rest, p, v);
    assert "%" + (q + ("%" + Replace(rest, pat, v))) == "%" + q + "%" + Replace(rest, pat, v);
  }

  /** One `replace` pass on an unambiguous template rewrites exactly the slots
      with that name. */
  lemma {:induction false} ReplaceSlot(t: seq<Piece>, p: string, pat: string, v: string)
    requires WellFormed(t) && |p| > 0 && '%' !in p && '%' !in v
    requires pat == "%" + p + "%"
    requires Unambiguous(t, p)
    ensures Replace(Render(t), pat, v) == Render(Bind(t, p, v))
    ensures WellFormed(Bind(t, p, v))
    decreases |t|
  {
    if |t| > 0 {
      var rest := Render(t[1..]);
      ReplaceSlot(t[1..], p, pat, v);
      var head := if t[0] == Slot(p) then [Text(v)] else [t[0]];
      assert Bind(t, p, v) == head + Bind(t[1..], p, v);
      assert (head + Bind(t[1..], p, v))[1..] == Bind(t[1..], p, v);
      match t[0]
      case Text(s) =>
        assert '%' !in s;
        ReplaceSkipsPrefix(s, rest, pat, v);
      case Slot(n) =>
        if n == p {
          assert Render(t) == pat + rest;
          PlaceholderFirst(pat, rest, v);
        } else {
          ReplaceOverSlot(n, p, rest, v);
        }
    }
  }

  /** Binding a slot to a value and filling the rest is filling with the
      value added. */
  lemma {:induction false} BindFill(t: seq<Piece>, p: string, v: string, env: map<string, string>)
    ensures Fill(Bind(t, p, v), env) == Fill(t, env[p := v])
    decreases |t|
  {
    if |t| > 0 {
      BindFill(t[1..], p, v, env);
      var head := if t[0] == Slot(p) then [Text(v)] else [t[0]];
      assert (head + Bind(t[1..], p, v))[1..] == Bind(t[1..], p, v);
    }
  }

  /** Filling with no values writes the template as it is. */
  lemma {:induction false} RenderIsFill(t: seq<Piece>)
    ensures Render(t) == Fill(t, map[])
    decreases |t|
  {
    if |t| > 0 {
      RenderIsFill(t[1..]);
    }
  }

  /** The placeholder spellings, stated once so that the solver need not
      rebuild them from their parts. */
  lemma PlaceholderSpellings()
    ensures "%year%" == "%" + "year" + "%" && "%day%" == "%" + "day" + "%" && "%month%" == "%" + "month" + "%"
    ensures "%name%" == "%" + "name" + "%" && "%buildid%" == "%" + "buildid" + "%"
    ensures '%' !in "year" && '%' !in "day" && '%' !in "month" && '%' !in "name" && '%' !in "buildid"
  {
  }

  /** The three date passes on an unambiguous template fill the date slots. */
  lemma DatePassesBind(t: seq<Piece>, year: string, month: string, day: string)
    requires WellFormed(t)
    requires '%' !in year && '%' !in month && '%' !in day
    requires Unambiguous(t, "year") && Unambiguous(Bind(t, "year", year), "day")
    requires Unambiguous(Bind(Bind(t, "year", year), "day", day), "month")
    ensures var t3 := Bind(Bind(Bind(t, "year", year), "day", day), "month", month);
      Replace(Replace(Replace(Render(t), "%year%", year), "%day%", day), "%month%", month) == Render(t3)
      && WellFormed(t3)
  {
    PlaceholderSpellings();
    var t1 := Bind(t, "year", year);
    ReplaceSlot(t, "year", "%year%", year);
    ReplaceSlot(t1, "day", "%day%", day);
    ReplaceSlot(Bind(t1, "day", day), "month", "%month%", month);
  }

  /** The five `replace` passes on an unambiguous template fill its slots. */
  lemma PassesBind(t: seq<Piece>, year: string, month: string, day: string,
                   name: string, buildId: string)
    requires WellFormed(t)
    requires '%' !in year && '%' !in month && '%' !in day && '%' !in name && '%' !in buildId
    requires PassesUnambiguous(t, year, month, day, name, buildId)
    ensures ConstructBuildUrl(Render(t), year, month, day, name, buildId) == Render(BindAll(t, year, month, day, name, buildId))
  {
    var t3 := Bind(Bind(Bind(t, "year", year), "day", day), "month", month);
    var u3 := Replace(Replace(Replace(Render(t), "%year%", year), "%day%", day), "%month%", month);
    PlaceholderSpellings();
    DatePassesBind(t, year, month, day);
    var t4 := if name != "" then Bind(t3, "name", name) else t3;
    var u4 := if name != "" then Replace(u3, "%name%", name) else u3;
    if name != "" {
      ReplaceSlot(t3, "name", "%name%", name);
    }
    if buildId != "" {
      ReplaceSlot(t4, "buildid", "%buildid%", buildId);
    }
  }

  /** Filling the slots one name at a time is filling them all at once. */
  lemma BindAllFills(t: seq<Piece>, year: string, month: string, day: string,
                     name: string, buildId: string)
    ensures Render(BindAll(t, year, month, day, name, buildId)) == Fill(t, Values(year, month, day, name, buildId))
  {
    var t1 := Bind(t, "year", year);
    var t2 := Bind(t1, "day", day);
    var t3 := Bind(t2, "month", month);
    var t4 := if name != "" then Bind(t3, "name", name) else t3;
    var t5 := if buildId != "" then Bind(t4, "buildid", buildId) else t4;
    RenderIsFill(t5);
    var e0: map<string, string> := map[];
    var e4 := if buildId != "" then e0["buildid" := buildId] else e0;
    if buildId != "" {
      BindFill(t4, "buildid", buildId, e0);
    }
    var e3 := if name != "" then e4["name" := name] else e4;
    if name != "" {
      BindFill(t3, "name", name, e4);
    }
    BindFill(t2, "month", month, e3);
    BindFill(t1, "day", day, e3["month" := month]);
    BindFill(t, "year", year, e3["month" := month]["day" := day]);
    ValuesReversed(year, month, day, name, buildId);
  }

  lemma SlotNamesDistinct()
    ensures "year" != "day" && "year" != "month" && "year" != "name" && "year" != "buildid"
    ensures "day" != "month" && "day" != "name" && "day" != "buildid"
    ensures "month" != "name" && "month" != "buildid" && "name" != "buildid"
  {
  }

  /** The environment built from the last pass back to the first is `Values`. */
  lemma ValuesReversed(year: string, month: string, day: string, name: string, buildId: string)
    ensures var e0: map<string, string> := map[];
      var e4 := if buildId != "" then e0["buildid" := buildId] else e0;
      var e3 := if name != "" then e4["name" := name] else e4;
      e3["month" := month]["day" := day]["year" := year] == Values(year, month, day, name, buildId)
  {
    SlotNamesDistinct();
  }

  /** The build URL of an unambiguous template is the template with each
      placeholder replaced by its value, and `%name%` / `%buildid%` left in place
      when their value is empty. */
  lemma ConstructFillsTemplate(t: seq<Piece>, year: string, month: string, day: string,
                               name: string, buildId: string)
    requires WellFormed(t)
    requires '%' !in year && '%' !in month && '%' !in day && '%' !in name && '%' !in buildId
    requires PassesUnambiguous(t, year, month, day, name, buildId)
    ensures ConstructBuildUrl(Render(t), year, month, day, name, buildId) == Fill(t, Values(year, month, day, name, buildId))
  {
    PassesBind(t, year, month, day, name, buildId);
    BindAllFills(t, year, month, day, name, buildId);
  }

  /** Every slot is last, or followed by text that starts with something
      other than a lower-case letter, as in `/%year%/%month%/`. */
  predicate SlotsSeparated(t: seq<Piece>)
  {
    |t| == 0 ||
    ((t[0].Slot? ==> |t| == 1 || (t[1].Text? && |t[1].text| > 0 && !('a' <= t[1].text[0] <= 'z')))
     && SlotsSeparated(t[1..]))
  }

  /** Separated slots leave no room for a placeholder named with a lower-case
      letter to straddle two others. */
  lemma {:induction false} SeparatedUnambiguous(t: seq<Piece>, p: string)
    requires SlotsSeparated(t) && |p| > 0 && 'a' <= p[0] <= 'z'
    ensures Unambiguous(t, p)
    decreases |t|
  {
    if |t| > 0 {
      SeparatedUnambiguous(t[1..], p);
      if t[0].Slot? && |t| > 1 {
        var s := t[1].text;
        assert Render(t[1..]) == s + Render(t[2..]);
        assert Render(t[1..])[0] == s[0];
      }
    }
  }

  /** Filling slots keeps the text after every remaining slot. */
  lemma {:induction false} BindKeepsSeparated(t: seq<Piece>, p: string, v: string)
    requires SlotsSeparated(t)
    ensures SlotsSeparated(Bind(t, p, v))
    decreases |t|
  {
    if |t| > 0 {
      BindKeepsSeparated(t[1..], p, v);
      var head := if t[0] == Slot(p) then [Text(v)] else [t[0]];
      var r := Bind(t, p, v);
      assert r == head + Bind(t[1..], p, v);
      assert r[1..] == Bind(t[1..], p, v);
      if |t| > 1 {
        assert r[1] == Bind(t[1..], p, v)[0];
        assert t[1..][0] == t[1];
      }
    }
  }

  /** Separated slots make every pass unambiguous, whatever the values. */
  lemma SeparatedPasses(t: seq<Piece>, year: string, month: string, day: string,
                        name: string, buildId: string)
    requires SlotsSeparated(t)
    ensures PassesUnambiguous(t, year, month, day, name, buildId)
  {
    var t1 := Bind(t, "year", year);
    var t2 := Bind(t1, "day", day);
    var t3 := Bind(t2, "month", month);
    var t4 := if name != "" then Bind(t3, "name", name) else t3;
    BindKeepsSeparated(t, "year", year);
    BindKeepsSeparated(t1, "day", day);
    BindKeepsSeparated(t2, "month", month);
    BindKeepsSeparated(t3, "name", name);
    SeparatedUnambiguous(t, "year");
    SeparatedUnambiguous(t1, "day");
    SeparatedUnambiguous(t2, "month");
    SeparatedUnambiguous(t3, "name");
    SeparatedUnambiguous(t4, "buildid");
  }

  /** The build URL of a template with separated slots is the template filled
      with the values. */
  lemma ConstructFillsSeparated(t: seq<Piece>, year: string, month: string, day: string,
                                name: string, buildId: string)
    requires WellFormed(t) && SlotsSeparated(t)
    requires '%' !in year && '%' !in month && '%' !in day && '%' !in name && '%' !in buildId
    ensures ConstructBuildUrl(Render(t), year, month, day, name, buildId) == Fill(t, Values(year, month, day, name, buildId))
  {
    SeparatedPasses(t, year, month, day, name, buildId);
    ConstructFillsTemplate(t, year, month, day, name, buildId);
  }

  /** A value is not protected from the passes after its own: a year that
      spells `%day%` is rewritten by the day pass, whereas filling the
      template's slots would keep it. */
  lemma LaterPassRewritesValue()
    ensures ConstructBuildUrl("%year%/%day%", "%day%", "01", "05", "", "") == "05/05"
    ensures Fill([Slot("year"), Text("/"), Slot("day")], Values("%day%", "01", "05", "", "")) == "%day%/05"
  {
    PlaceholderSpellings();
    var y := "%year%";
    var d := "%day%";
    assert "%year%/%day%" == y + ("/" + d);
    PlaceholderFirst(y, "/" + d, d);
    assert Replace("/" + d, y, d) == "/" + d by {
      ReplaceSkipsPrefix("/", d, y, d);
      assert |d| < |y|;
    }
    assert d + "/" + d == d + ("/" + d);
    PlaceholderFirst(d, "/" + d, "05");
    assert Replace("/" + d, d, "05") == "/" + Replace(d, d, "05") by {
      ReplaceSkipsPrefix("/", d, d, "05");
    }
    PlaceholderFirst(d, [], "05");
    assert Replace("05/05", "%month%", "01") == "05/05" by {
      ReplaceFree("05/05", "%month%", "01");
    }
  }

  /** An empty application name leaves `%name%` in the URL, exactly as if the
      name were the placeholder itself; likewise for the build id. */
  lemma EmptyValuesKeepPlaceholders(template: string, year: string, month: string, day: string,
                                    name: string, buildId: string)
    ensures ConstructBuildUrl(template, year, month, day, "", buildId) ==
            ConstructBuildUrl(template, year, month, day, "%name%", buildId)
    ensures ConstructBuildUrl(template, year, month, day, name, "") ==
            ConstructBuildUrl(template, year, month, day, name, "%buildid%")
  {
    var url := Replace(Replace(Replace(template, "%year%", year), "%day%", day), "%month%", month);
    ReplaceSelf(url, "%name%");
    var named := if name != "" then Replace(url, "%name%", name) else url;
    ReplaceSelf(named, "%buildid%");
  }

  // ---------------------------------------------------------------------------
  // Repository names by build date
  // ---------------------------------------------------------------------------

  /** From `start` on, builds come from `repo`. */
  datatype Era = Era(start: Date, repo: string)

  /** Eras in strictly increasing order of start. */
  predicate Chronological(eras: seq<Era>)
  {
    forall i, j :: 0 <= i < j < |eras| ==> Before(eras[i].start, eras[j].start)
  }

  /** Reference reading of a date table: the repository of the last era that
      has begun by `d`, or `first` before them all. */
  function RepoFor(first: string, eras: seq<Era>, d: Date): string
  {
    if |eras| == 0 then first
    else if !Before(d, eras[|eras| - 1].start) then eras[|eras| - 1].repo
    else RepoFor(first, eras[..|eras| - 1], d)
  }

  lemma BeforeTransitive(a: Date, b: Date, c: Date)
    ensures Before(a, b) && Before(b, c) ==> Before(a, c)
    ensures !Before(a, b) && Before(a, c) ==> Before(b, c)
  {
  }

  /** A date inside era `i` — begun, and before the next one — is served by
      that era's repository; a date before every era gets `first`. */
  lemma {:induction false} RepoForInsideEra(first: string, eras: seq<Era>, d: Date, i: int)
    requires Chronological(eras)
    requires -1 <= i < |eras|
    requires i >= 0 ==> !Before(d, eras[i].start)
    requires i + 1 < |eras| ==> Before(d, eras[i + 1].start)
    ensures RepoFor(first, eras, d) == if i == -1 then first else eras[i].repo
    decreases |eras|
  {
    if |eras| > 0 {
      var n := |eras| - 1;
      if i < n {
        if i + 1 < n {
          BeforeTransitive(d, eras[i + 1].start, eras[n].start);
        }
        assert Before(d, eras[n].start);
        var front := eras[..n];
        assert Chronological(front);
        RepoForInsideEra(first, front, d, i);
      }
    }
  }

  const FirefoxEras: seq<Era> := [Era(Date(2008, 6, 17), "mozilla-central")]

  const ThunderbirdEras: seq<Era> := [
    Era(Date(2008, 7, 26), "comm-central"),
    Era(Date(2009, 1, 9), "comm-central-trunk"),
    Era(Date(2010, 8, 21), "comm-central")
  ]

  /** `FirefoxDebugBuild.getRepoName`. */
  function FirefoxRepoName(d: Date): (r: string)
    ensures r == "trunk" || r == "mozilla-central"
  {
    if Before(d, Date(2008, 6, 17)) then "trunk" else "mozilla-central"
  }

  /** `ThunderbirdDebugBuild.getRepoName`, the date table after the Windows
      check. */
  function ThunderbirdRepoName(d: Date): (r: string)
    ensures r == "trunk" || r == "comm-central" || r == "comm-central-trunk"
  {
    if Before(d, Date(2008, 7, 26)) then "trunk"
    else if Before(d, Date(2009, 1, 9)) then "comm-central"
    else if Before(d, Date(2010, 8, 21)) then "comm-central-trunk"
    else "comm-central"
  }

  /** `FennecDebugBuild.getRepoName`: one repository for every date. */
  function FennecRepoName(d: Date): (r: string)
    ensures r == "mozilla-central-android"
  {
    "mozilla-central-android"
  }

  /** Firefox's chain of comparisons reads its era table. */
  lemma FirefoxTable(d: Date)
    ensures FirefoxRepoName(d) == RepoFor("trunk", FirefoxEras, d)
  {
    assert FirefoxEras[..0] == [];
  }

  /** Thunderbird's chain of comparisons reads its era table. */
  lemma ThunderbirdTable(d: Date)
    ensures ThunderbirdRepoName(d) == RepoFor("trunk", ThunderbirdEras, d)
  {
    assert Chronological(ThunderbirdEras);
    if Before(d, Date(2008, 7, 26)) {
      RepoForInsideEra("trunk", ThunderbirdEras, d, -1);
    } else if Before(d, Date(2009, 1, 9)) {
      RepoForInsideEra("trunk", ThunderbirdEras, d, 0);
    } else if Before(d, Date(2010, 8, 21)) {
      RepoForInsideEra("trunk", ThunderbirdEras, d, 1);
    } else {
      RepoForInsideEra("trunk", ThunderbirdEras, d, 2);
    }
  }

  /** Once Firefox builds come from mozilla-central, later ones do too. */
  lemma FirefoxNeverReverts(a: Date, b: Date)
    requires FirefoxRepoName(a) == "mozilla-central" && !Before(b, a)
    ensures FirefoxRepoName(b) == "mozilla-central"
  {
    BeforeTransitive(b, a, Date(2008, 6, 17));
  }

  /** Thunderbird's table names comm-central for two separate periods, with
      comm-central-trunk between them. */
  lemma ThunderbirdCommCentralTwice()
    ensures ThunderbirdRepoName(Date(2008, 8, 1)) == "comm-central"
    ensures ThunderbirdRepoName(Date(2009, 6, 1)) == "comm-central-trunk"
    ensures ThunderbirdRepoName(Date(2011, 1, 1)) == "comm-central"
  {
  }
}
