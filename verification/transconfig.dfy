/** The configuration objects of `config.py` and `config_decoder`, the
    `object_hook` that `json.loads` calls on every decoded JSON object, innermost
    first. A Python dict is modelled as its items in iteration order; a dict
    never holds a key twice, and lemmas that need this say so. */
module TransgressionConfig {
  import opened Wrappers
  import opened Dates

  /** Python values as `json.loads` builds them, plus the `Config` objects the
      hook puts in place of tagged dicts. */
  datatype Value =
    | Null
    | Bool(b: bool)
    | Num(n: int)
    | Str(s: string)
    | List(items: seq<Value>)
    | Dict(entries: seq<(string, Value)>)
    | ConfigObject(config: Config)

  /** `BinaryRepository`: protocol and location format string, kept as given. */
  datatype BinaryRepository = BinaryRepository(protocol: Value, location: Value)

  /** `PlatformConfiguration`: process name, parsed first binary date, binary
      repository. */
  datatype PlatformConfiguration = PlatformConfiguration(processName: Value, firstBinaryDate: Date, binaryRepository: BinaryRepository)

  /** `Config`: application name and the platform configurations by name. */
  datatype Config = Config(appName: Value, platformConfigurations: map<string, PlatformConfiguration>)

  /** The exceptions decoding raises: `d[k]` on a dict without `k`, subscripting
      a non-dict, `.keys()` on a non-dict, and `strptime` rejecting a string. */
  datatype DecodeError = KeyError(key: string) | TypeError | AttributeError(name: string) | ValueError

  const ConfigurationType := "transgression-configuration"

  // ---------------------------------------------------------------------------
  // Dicts
  // ---------------------------------------------------------------------------

  /** `d.get(key)`: the value stored under `key`. */
  function Lookup(entries: seq<(string, Value)>, key: string): Option<Value>
  {
    if |entries| == 0 then None
    else if entries[0].0 == key then Some(entries[0].1)
    else Lookup(entries[1..], key)
  }

  function KeysOf(entries: seq<(string, Value)>): set<string>
  {
    set i | 0 <= i < |entries| :: entries[i].0
  }

  /** A key is found exactly when some item carries it, and what is found is
      the value of the first such item. */
  lemma {:induction false} LookupFinds(entries: seq<(string, Value)>, key: string)
    ensures Lookup(entries, key).Some? <==> key in KeysOf(entries)
    ensures Lookup(entries, key).Some? ==>
      exists i :: 0 <= i < |entries| && entries[i] == (key, Lookup(entries, key).value) &&
        (forall l :: 0 <= l < i ==> entries[l].0 != key)
    decreases |entries|
  {
    if |entries| > 0 && entries[0].0 != key {
      var tail := entries[1..];
      LookupFinds(tail, key);
      assert KeysOf(entries) == {entries[0].0} + KeysOf(tail) by {
        forall k | k in KeysOf(entries) ensures k in {entries[0].0} + KeysOf(tail) {
          var i :| 0 <= i < |entries| && entries[i].0 == k;
          if i > 0 { assert tail[i - 1] == entries[i]; }
        }
        forall k | k in KeysOf(tail) ensures k in KeysOf(entries) {
          var i :| 0 <= i < |tail| && tail[i].0 == k;
          assert entries[i + 1] == tail[i];
        }
      }
      if Lookup(tail, key).Some? {
        var i :| 0 <= i < |tail| && tail[i] == (key, Lookup(tail, key).value) &&
          forall l :: 0 <= l < i ==> tail[l].0 != key;
        assert entries[i + 1] == tail[i];
        assert forall l :: 0 <= l < i + 1 ==> entries[l].0 != key by {
          forall l | 0 < l < i + 1 ensures entries[l].0 != key {
            assert entries[l] == tail[l - 1];
          }
        }
      }
    } else if |entries| > 0 {
      assert entries[0].0 in KeysOf(entries);
    }
  }

  predicate DistinctKeys(entries: seq<(string, Value)>)
  {
    forall i, j :: 0 <= i < j < |entries| ==> entries[i].0 != entries[j].0
  }

  /** In a dict, the value under the key of an item is that item's value. */
  lemma {:induction false} LookupDistinct(entries: seq<(string, Value)>, i: int)
    requires DistinctKeys(entries) && 0 <= i < |entries|
    ensures Lookup(entries, entries[i].0) == Some(entries[i].1)
    decreases i
  {
    if i > 0 {
      assert entries[0].0 != entries[i].0;
      assert DistinctKeys(entries[1..]) by {
        forall a, b | 0 <= a < b < |entries[1..]|
          ensures entries[1..][a].0 != entries[1..][b].0
        {
          assert entries[1..][a] == entries[a + 1] && entries[1..][b] == entries[b + 1];
        }
      }
      LookupDistinct(entries[1..], i - 1);
    }
  }

  /** `v[key]`: a dict's value, `KeyError` when absent, `TypeError` when `v` is
      not a dict (lists and strings want integer indices). */
  function Subscript(v: Value, key: string): (r: Result<Value, DecodeError>)
    ensures r.Success? <==> v.Dict? && Lookup(v.entries, key).Some?
    ensures r.Success? ==> r.value == Lookup(v.entries, key).value
    ensures r.Failure? ==> r.error == if v.Dict? then KeyError(key) else TypeError
  {
    match v
    case Dict(entries) =>
      (match Lookup(entries, key)
       case Some(x) => Success(x)
       case None => Failure(KeyError(key)))
    case _ => Failure(TypeError)
  }

  // ---------------------------------------------------------------------------
  // Decoding
  // ---------------------------------------------------------------------------

  /** `BinaryRepository(d)`: `d['protocol']`, then `d['location']`. */
  function DecodeRepository(v: Value): (r: Result<BinaryRepository, DecodeError>)
    ensures r.Success? <==> v.Dict? && Lookup(v.entries, "protocol").Some? && Lookup(v.entries, "location").Some?
    ensures r.Success? ==>
      r.value.protocol == Lookup(v.entries, "protocol").value && r.value.location == Lookup(v.entries, "location").value
    ensures !v.Dict? ==> r == Failure(TypeError)
    ensures v.Dict? && Lookup(v.entries, "protocol").None? ==> r == Failure(KeyError("protocol"))
    ensures v.Dict? && Lookup(v.entries, "protocol").Some? && Lookup(v.entries, "location").None? ==>
      r == Failure(KeyError("location"))
  {
    var protocol :- Subscript(v, "protocol");
    var location :- Subscript(v, "location");
    Success(BinaryRepository(protocol, location))
  }

  /** `PlatformConfiguration.__processDate`: `strptime` wants a string. */
  function DecodeDate(v: Value): (r: Result<Date, DecodeError>)
    ensures r.Success? <==> v.Str? && ParseDate(v.s).Some?
    ensures r.Success? ==> r.value == ParseDate(v.s).value && ValidDate(r.value)
    ensures v.Str? && ParseDate(v.s).None? ==> r == Failure(ValueError)
    ensures !v.Str? ==> r == Failure(TypeError)
  {
    match v
    case Str(s) =>
      (match ParseDate(s)
       case Some(d) => Success(d)
       case None => Failure(ValueError))
    case _ => Failure(TypeError)
  }

  /** One platform entry, in the order `__processPlatformConfigurations` reads
      it: the binary repository and its fields, the process name, the first
      binary date and its parse. */
  function DecodePlatform(v: Value): (r: Result<PlatformConfiguration, DecodeError>)
    ensures r.Success? ==> v.Dict?
    ensures r.Success? ==> Lookup(v.entries, "processName") == Some(r.value.processName)
    ensures r.Success? ==>
      (Lookup(v.entries, "binaryRepository").Some? &&
       DecodeRepository(Lookup(v.entries, "binaryRepository").value) == Success(r.value.binaryRepository))
    ensures r.Success? ==>
      (Lookup(v.entries, "firstBinaryDate").Some? &&
       DecodeDate(Lookup(v.entries, "firstBinaryDate").value) == Success(r.value.firstBinaryDate))
    ensures !v.Dict? ==> r == Failure(TypeError)
    ensures v.Dict? ==>
      (r.Success? <==>
         && Lookup(v.entries, "binaryRepository").Some?
         && DecodeRepository(Lookup(v.entries, "binaryRepository").value).Success?
         && Lookup(v.entries, "processName").Some?
         && Lookup(v.entries, "firstBinaryDate").Some?
         && DecodeDate(Lookup(v.entries, "firstBinaryDate").value).Success?)
    ensures v.Dict? && Lookup(v.entries, "binaryRepository").None? ==>
      r == Failure(KeyError("binaryRepository"))
    ensures (v.Dict? && Lookup(v.entries, "binaryRepository").Some? &&
             DecodeRepository(Lookup(v.entries, "binaryRepository").value).Failure?) ==>
      r == Failure(DecodeRepository(Lookup(v.entries, "binaryRepository").value).error)
    ensures (v.Dict? && Lookup(v.entries, "binaryRepository").Some? &&
             DecodeRepository(Lookup(v.entries, "binaryRepository").value).Success? &&
             Lookup(v.entries, "processName").None?) ==>
      r == Failure(KeyError("processName"))
    ensures (v.Dict? && Lookup(v.entries, "binaryRepository").Some? &&
             DecodeRepository(Lookup(v.entries, "binaryRepository").value).Success? &&
             Lookup(v.entries, "processName").Some? && Lookup(v.entries, "firstBinaryDate").None?) ==>
      r == Failure(KeyError("firstBinaryDate"))
    ensures (v.Dict? && Lookup(v.entries, "binaryRepository").Some? &&
             DecodeRepository(Lookup(v.entries, "binaryRepository").value).Success? &&
             Lookup(v.entries, "processName").Some? && Lookup(v.entries, "firstBinaryDate").Some? &&
             DecodeDate(Lookup(v.entries, "firstBinaryDate").value).Failure?) ==>
      r == Failure(DecodeDate(Lookup(v.entries, "firstBinaryDate").value).error)
  {
    var rawRepository :- Subscript(v, "binaryRepository");
    var repository :- DecodeRepository(rawRepository);
    var processName :- Subscript(v, "processName");
    var rawDate :- Subscript(v, "firstBinaryDate");
    var date :- DecodeDate(rawDate);
    Success(PlatformConfiguration(processName, date, repository))
  }

  function KeysFrom(entries: seq<(string, Value)>, i: nat): set<string>
    requires i <= |entries|
  {
    set j | i <= j < |entries| :: entries[j].0
  }

  /** The loop of `__processPlatformConfigurations` from item `i` on, with the
      configurations built so far: each item is decoded and stored under its
      key, and the first item that fails stops the loop with its error. */
  function ProcessFrom(entries: seq<(string, Value)>, i: nat, acc: map<string, PlatformConfiguration>)
    : (r: Result<map<string, PlatformConfiguration>, DecodeError>)
    requires i <= |entries|
    ensures r.Success? ==> acc.Keys <= r.value.Keys
    decreases |entries| - i
  {
    if i == |entries| then Success(acc)
    else
      match DecodePlatform(entries[i].1)
      case Failure(e) => Failure(e)
      case Success(p) => ProcessFrom(entries, i + 1, acc[entries[i].0 := p])
  }

  /** The loop finishes exactly when every remaining item decodes. */
  lemma {:induction false} ProcessFromSucceeds(entries: seq<(string, Value)>, i: nat, acc: map<string, PlatformConfiguration>)
    requires i <= |entries|
    ensures ProcessFrom(entries, i, acc).Success? <==> forall j :: i <= j < |entries| ==> DecodePlatform(entries[j].1).Success?
    decreases |entries| - i
  {
    if i < |entries| {
      var d := DecodePlatform(entries[i].1);
      if d.Success? {
        var next := acc[entries[i].0 := d.value];
        assert ProcessFrom(entries, i, acc) == ProcessFrom(entries, i + 1, next);
        ProcessFromSucceeds(entries, i + 1, next);
        if forall j :: i + 1 <= j < |entries| ==> DecodePlatform(entries[j].1).Success? {
          forall j | i <= j < |entries| ensures DecodePlatform(entries[j].1).Success? {
            if j == i {
              assert d.Success?;
            }
          }
        }
      } else {
        assert ProcessFrom(entries, i, acc).Failure?;
        assert !DecodePlatform(entries[i].1).Success?;
      }
    }
  }

  /** A failing loop reports the error of the first item that fails. */
  lemma {:induction false} ProcessFromFirstError(entries: seq<(string, Value)>, i: nat, acc: map<string, PlatformConfiguration>)
    requires i <= |entries| && ProcessFrom(entries, i, acc).Failure?
    ensures exists j ::
      && i <= j < |entries|
      && DecodePlatform(entries[j].1) == Failure(ProcessFrom(entries, i, acc).error)
      && (forall l :: i <= l < j ==> DecodePlatform(entries[l].1).Success?)
    decreases |entries| - i
  {
    var d := DecodePlatform(entries[i].1);
    if d.Success? {
      var next := acc[entries[i].0 := d.value];
      assert ProcessFrom(entries, i, acc) == ProcessFrom(entries, i + 1, next);
      ProcessFromFirstError(entries, i + 1, next);
      var j :| i + 1 <= j < |entries| && DecodePlatform(entries[j].1) == Failure(ProcessFrom(entries, i + 1, next).error) &&
        (forall l :: i + 1 <= l < j ==> DecodePlatform(entries[l].1).Success?);
      assert forall l :: i <= l < j ==> DecodePlatform(entries[l].1).Success?;
    } else {
      assert d == Failure(ProcessFrom(entries, i, acc).error);
    }
  }

  /** The table built holds the keys it started with and those of the items;
      a key no item carries keeps its value. */
  lemma {:induction false} ProcessFromKeys(entries: seq<(string, Value)>, i: nat, acc: map<string, PlatformConfiguration>)
    requires i <= |entries| && ProcessFrom(entries, i, acc).Success?
    ensures ProcessFrom(entries, i, acc).value.Keys == acc.Keys + KeysFrom(entries, i)
    ensures forall k :: k in acc && k !in KeysFrom(entries, i) ==> ProcessFrom(entries, i, acc).value[k] == acc[k]
    decreases |entries| - i
  {
    if i == |entries| {
      assert KeysFrom(entries, i) == {};
    } else {
      var p := DecodePlatform(entries[i].1).value;
      ProcessFromKeys(entries, i + 1, acc[entries[i].0 := p]);
      assert KeysFrom(entries, i) == {entries[i].0} + KeysFrom(entries, i + 1);
    }
  }

  /** In a dict, every item's key ends up holding that item's decoding. */
  lemma {:induction false} ProcessFromValues(entries: seq<(string, Value)>, i: nat, acc: map<string, PlatformConfiguration>)
    requires i <= |entries| && ProcessFrom(entries, i, acc).Success? && DistinctKeys(entries)
    ensures forall j :: i <= j < |entries| ==>
      (entries[j].0 in ProcessFrom(entries, i, acc).value &&
       DecodePlatform(entries[j].1) == Success(ProcessFrom(entries, i, acc).value[entries[j].0]))
    decreases |entries| - i
  {
    if i < |entries| {
      var key := entries[i].0;
      var p := DecodePlatform(entries[i].1).value;
      var next := acc[key := p];
      ProcessFromValues(entries, i + 1, next);
      ProcessFromKeys(entries, i + 1, next);
      assert key !in KeysFrom(entries, i + 1);
    }
  }

  /** `Config.__processPlatformConfigurations`: `.keys()` needs a dict. */
  function ProcessPlatforms(v: Value): (r: Result<map<string, PlatformConfiguration>, DecodeError>)
    ensures !v.Dict? ==> r == Failure(AttributeError("keys"))
    ensures v.Dict? ==> r == ProcessFrom(v.entries, 0, map[])
  {
    match v
    case Dict(entries) => ProcessFrom(entries, 0, map[])
    case _ => Failure(AttributeError("keys"))
  }

  /** The platform table is built exactly when every entry decodes; its keys
      are the input's keys and, in a dict, each holds its entry's decoding. */
  lemma ProcessPlatformsSpec(entries: seq<(string, Value)>)
    ensures var r := ProcessPlatforms(Dict(entries));
      && (r.Success? <==> forall j :: 0 <= j < |entries| ==> DecodePlatform(entries[j].1).Success?)
      && (r.Success? ==> r.value.Keys == KeysOf(entries))
      && (r.Success? && DistinctKeys(entries) ==>
           forall j :: 0 <= j < |entries| ==> DecodePlatform(entries[j].1) == Success(r.value[entries[j].0]))
  {
    ProcessFromSucceeds(entries, 0, map[]);
    if ProcessPlatforms(Dict(entries)).Success? {
      ProcessFromKeys(entries, 0, map[]);
      assert KeysFrom(entries, 0) == KeysOf(entries);
      if DistinctKeys(entries) {
        ProcessFromValues(entries, 0, map[]);
      }
    }
  }

  /** When some entry fails, the error is that of the first failing entry in
      the dict's iteration order; a non-dict fails on `.keys()`. */
  lemma ProcessPlatformsError(v: Value)
    requires ProcessPlatforms(v).Failure?
    ensures !v.Dict? ==> ProcessPlatforms(v).error == AttributeError("keys")
    ensures v.Dict? ==>
      exists j :: 0 <= j < |v.entries| &&
        DecodePlatform(v.entries[j].1) == Failure(ProcessPlatforms(v).error) &&
        (forall l :: 0 <= l < j ==> DecodePlatform(v.entries[l].1).Success?)
  {
    if v.Dict? {
      ProcessFromFirstError(v.entries, 0, map[]);
    }
  }

  /** `__type__` is present and equals the configuration type. */
  predicate Tagged(entries: seq<(string, Value)>)
  {
    Lookup(entries, "__type__") == Some(Str(ConfigurationType))
  }

  /** `config_decoder`: a tagged dict becomes a `Config` built from its
      `appName` and `platformConfigurations` (read in that order); any other
      dict is returned as it is. */
  function ConfigDecoder(obj: seq<(string, Value)>): (r: Result<Value, DecodeError>)
    ensures !Tagged(obj) ==> r == Success(Dict(obj))
    ensures Tagged(obj) && Lookup(obj, "appName").None? ==> r == Failure(KeyError("appName"))
    ensures Tagged(obj) && Lookup(obj, "appName").Some? && Lookup(obj, "platformConfigurations").None? ==>
      r == Failure(KeyError("platformConfigurations"))
    ensures Tagged(obj) && r.Success? ==>
      (r.value.ConfigObject? &&
       Lookup(obj, "appName") == Some(r.value.config.appName) &&
       Lookup(obj, "platformConfigurations").Some? &&
       ProcessPlatforms(Lookup(obj, "platformConfigurations").value) == Success(r.value.config.platformConfigurations))
    ensures Tagged(obj) && Lookup(obj, "appName").Some? && Lookup(obj, "platformConfigurations").Some? ==>
      (r.Success? <==> ProcessPlatforms(Lookup(obj, "platformConfigurations").value).Success?)
    ensures (Tagged(obj) && Lookup(obj, "appName").Some? && Lookup(obj, "platformConfigurations").Some? &&
             ProcessPlatforms(Lookup(obj, "platformConfigurations").value).Failure?) ==>
      r == Failure(ProcessPlatforms(Lookup(obj, "platformConfigurations").value).error)
  {
    if !Tagged(obj) then Success(Dict(obj))
    else
      var appName :- Subscript(Dict(obj), "appName");
      var raw :- Subscript(Dict(obj), "platformConfigurations");
      var platforms :- ProcessPlatforms(raw);
      Success(ConfigObject(Config(appName, platforms)))
  }

  /** `Config.getPlatformConfiguration`: the entry for that platform, or the
      `KeyError` of the dict. */
  function GetPlatformConfiguration(c: Config, platform: string): (r: Result<PlatformConfiguration, DecodeError>)
    ensures r.Success? <==> platform in c.platformConfigurations
    ensures r.Success? ==> r.value == c.platformConfigurations[platform]
    ensures r.Failure? ==> r.error == KeyError(platform)
  {
    if platform in c.platformConfigurations then Success(c.platformConfigurations[platform])
    else Failure(KeyError(platform))
  }

  /** After a tagged dict decodes, every platform of its input is found, and
      holds the decoding of its entry. */
  lemma DecodedPlatformLookup(obj: seq<(string, Value)>, j: int)
    requires Tagged(obj) && ConfigDecoder(obj).Success?
    requires DistinctKeys(Lookup(obj, "platformConfigurations").value.entries)
    requires 0 <= j < |Lookup(obj, "platformConfigurations").value.entries|
    ensures var raw := Lookup(obj, "platformConfigurations").value.entries;
      var p := GetPlatformConfiguration(ConfigDecoder(obj).value.config, raw[j].0);
      && p.Success?
      && DecodePlatform(raw[j].1) == Success(p.value)
  {
    var raw := Lookup(obj, "platformConfigurations").value.entries;
    ProcessPlatformsSpec(raw);
    assert raw[j].0 in KeysOf(raw);
  }

  // ---------------------------------------------------------------------------
  // An encoding the decoder inverts
  // ---------------------------------------------------------------------------

  function EncodeRepository(r: BinaryRepository): Value
  {
    Dict([("protocol", r.protocol), ("location", r.location)])
  }

  function EncodePlatform(p: PlatformConfiguration): Value
    requires ValidDate(p.firstBinaryDate)
  {
    Dict([("processName", p.processName),
          ("firstBinaryDate", Str(FormatDate(p.firstBinaryDate))),
          ("binaryRepository", EncodeRepository(p.binaryRepository))])
  }

  predicate DatesValid(c: Config)
  {
    forall k :: k in c.platformConfigurations ==> ValidDate(c.platformConfigurations[k].firstBinaryDate)
  }

  /** The platform table as dict items, in the order `keys` lists them. */
  function EncodePlatforms(c: Config, keys: seq<string>): (r: seq<(string, Value)>)
    requires DatesValid(c)
    requires forall i :: 0 <= i < |keys| ==> keys[i] in c.platformConfigurations
    ensures |r| == |keys|
    ensures forall i :: 0 <= i < |keys| ==> r[i] == (keys[i], EncodePlatform(c.platformConfigurations[keys[i]]))
  {
    if |keys| == 0 then []
    else [(keys[0], EncodePlatform(c.platformConfigurations[keys[0]]))] + EncodePlatforms(c, keys[1..])
  }

  /** A configuration as the tagged dict `config_decoder` expects. */
  function EncodeConfig(c: Config, keys: seq<string>): seq<(string, Value)>
    requires DatesValid(c)
    requires forall i :: 0 <= i < |keys| ==> keys[i] in c.platformConfigurations
  {
    [("__type__", Str(ConfigurationType)),
     ("appName", c.appName),
     ("platformConfigurations", Dict(EncodePlatforms(c, keys)))]
  }

  /** The dict keys the decoder reads are pairwise distinct. */
  lemma KeySpellings()
    ensures "protocol" != "location"
    ensures "processName" != "firstBinaryDate" && "processName" != "binaryRepository"
    ensures "firstBinaryDate" != "binaryRepository"
    ensures "__type__" != "appName" && "__type__" != "platformConfigurations"
    ensures "appName" != "platformConfigurations"
  {
  }

  lemma LookupHead(k: string, x: Value, rest: seq<(string, Value)>, key: string)
    ensures Lookup([(k, x)] + rest, key) == if k == key then Some(x) else Lookup(rest, key)
  {
    assert ([(k, x)] + rest)[1..] == rest;
  }

  /** An encoded repository decodes to itself. */
  lemma RepositoryRoundTrip(r: BinaryRepository)
    ensures DecodeRepository(EncodeRepository(r)) == Success(r)
  {
    KeySpellings();
    var entries := EncodeRepository(r).entries;
    assert entries == [("protocol", r.protocol)] + [("location", r.location)];
    LookupHead("protocol", r.protocol, [("location", r.location)], "protocol");
    LookupHead("protocol", r.protocol, [("location", r.location)], "location");
    LookupHead("location", r.location, [], "location");
  }

  /** An encoded platform decodes to itself. */
  lemma PlatformRoundTrip(p: PlatformConfiguration)
    requires ValidDate(p.firstBinaryDate)
    ensures DecodePlatform(EncodePlatform(p)) == Success(p)
  {
    KeySpellings();
    var name := ("processName", p.processName);
    var date := ("firstBinaryDate", Str(FormatDate(p.firstBinaryDate)));
    var repo := ("binaryRepository", EncodeRepository(p.binaryRepository));
    assert EncodePlatform(p).entries == [name] + ([date] + [repo]);
    LookupHead(name.0, name.1, [date] + [repo], "processName");
    LookupHead(name.0, name.1, [date] + [repo], "firstBinaryDate");
    LookupHead(name.0, name.1, [date] + [repo], "binaryRepository");
    LookupHead(date.0, date.1, [repo], "firstBinaryDate");
    LookupHead(date.0, date.1, [repo], "binaryRepository");
    LookupHead(repo.0, repo.1, [], "binaryRepository");
    ParseFormat(p.firstBinaryDate);
    RepositoryRoundTrip(p.binaryRepository);
  }

  /** The items of the encoded platform table: one per key, each key once. */
  lemma EncodedPlatformKeys(c: Config, keys: seq<string>)
    requires DatesValid(c)
    requires forall i, j :: 0 <= i < j < |keys| ==> keys[i] != keys[j]
    requires forall k :: k in c.platformConfigurations <==> k in keys
    ensures DistinctKeys(EncodePlatforms(c, keys))
    ensures KeysOf(EncodePlatforms(c, keys)) == c.platformConfigurations.Keys
  {
    var items := EncodePlatforms(c, keys);
    forall k | k in c.platformConfigurations ensures k in KeysOf(items) {
      var j :| 0 <= j < |keys| && keys[j] == k;
      assert items[j].0 == k;
    }
  }

  /** Every item of the encoded platform table decodes to its platform. */
  lemma EncodedPlatformsDecode(c: Config, keys: seq<string>)
    requires DatesValid(c)
    requires forall i :: 0 <= i < |keys| ==> keys[i] in c.platformConfigurations
    ensures forall j :: 0 <= j < |keys| ==>
      DecodePlatform(EncodePlatforms(c, keys)[j].1) == Success(c.platformConfigurations[keys[j]])
  {
    var items := EncodePlatforms(c, keys);
    forall j | 0 <= j < |keys|
      ensures DecodePlatform(items[j].1) == Success(c.platformConfigurations[keys[j]])
    {
      PlatformRoundTrip(c.platformConfigurations[keys[j]]);
    }
  }

  /** The encoded platform table decodes to the table itself. */
  lemma PlatformsRoundTrip(c: Config, keys: seq<string>)
    requires DatesValid(c)
    requires forall i, j :: 0 <= i < j < |keys| ==> keys[i] != keys[j]
    requires forall k :: k in c.platformConfigurations <==> k in keys
    ensures ProcessPlatforms(Dict(EncodePlatforms(c, keys))) == Success(c.platformConfigurations)
  {
    var items := EncodePlatforms(c, keys);
    EncodedPlatformKeys(c, keys);
    EncodedPlatformsDecode(c, keys);
    ProcessPlatformsSpec(items);
    assert ProcessPlatforms(Dict(items)).Success?;
    var built := ProcessPlatforms(Dict(items)).value;
    assert forall j :: 0 <= j < |keys| ==> built[keys[j]] == c.platformConfigurations[keys[j]] by {
      forall j | 0 <= j < |keys| ensures built[keys[j]] == c.platformConfigurations[keys[j]] {
        assert items[j].0 == keys[j];
      }
    }
    SameTables(built, c.platformConfigurations, keys);
  }

  lemma SameTables(a: map<string, PlatformConfiguration>, b: map<string, PlatformConfiguration>, keys: seq<string>)
    requires a.Keys == b.Keys
    requires forall k :: k in b <==> k in keys
    requires forall j :: 0 <= j < |keys| ==> a[keys[j]] == b[keys[j]]
    ensures a == b
  {
    forall k | k in a ensures a[k] == b[k] {
      var j :| 0 <= j < |keys| && keys[j] == k;
    }
  }

  /** Decoding the encoding of a configuration gives it back, whatever order
      the platforms are listed in, as long as each is listed once. */
  lemma ConfigRoundTrip(c: Config, keys: seq<string>)
    requires DatesValid(c)
    requires forall i, j :: 0 <= i < j < |keys| ==> keys[i] != keys[j]
    requires forall k :: k in c.platformConfigurations <==> k in keys
    ensures ConfigDecoder(EncodeConfig(c, keys)) == Success(ConfigObject(c))
  {
    KeySpellings();
    var tag := ("__type__", Str(ConfigurationType));
    var app := ("appName", c.appName);
    var platforms := ("platformConfigurations", Dict(EncodePlatforms(c, keys)));
    assert EncodeConfig(c, keys) == [tag] + ([app] + [platforms]);
    LookupHead(tag.0, tag.1, [app] + [platforms], "__type__");
    LookupHead(tag.0, tag.1, [app] + [platforms], "appName");
    LookupHead(tag.0, tag.1, [app] + [platforms], "platformConfigurations");
    LookupHead(app.0, app.1, [platforms], "appName");
    LookupHead(app.0, app.1, [platforms], "platformConfigurations");
    LookupHead(platforms.0, platforms.1, [], "platformConfigurations");
    PlatformsRoundTrip(c, keys);
  }

  // ---------------------------------------------------------------------------
  // json.loads with the hook
  // ---------------------------------------------------------------------------

  /** `json.loads(text, object_hook=config_decoder)` on the parsed value:
      lists and dicts are rebuilt from the inside out, and every dict, once its
      values are done, goes through the hook. The first error stops it. */
  function Load(v: Value): (r: Result<Value, DecodeError>)
    decreases v, 1
  {
    match v
    case List(items) =>
      var loaded :- LoadItems(items, 0);
      Success(List(loaded))
    case Dict(entries) =>
      var loaded :- LoadEntries(entries, 0);
      ConfigDecoder(loaded)
    case _ => Success(v)
  }

  function LoadItems(items: seq<Value>, i: nat): (r: Result<seq<Value>, DecodeError>)
    requires i <= |items|
    ensures r.Success? ==> |r.value| == |items| - i
    decreases List(items), 0, |items| - i
  {
    if i == |items| then Success([])
    else
      var first :- Load(items[i]);
      var rest :- LoadItems(items, i + 1);
      Success([first] + rest)
  }

  function LoadEntries(entries: seq<(string, Value)>, i: nat): (r: Result<seq<(string, Value)>, DecodeError>)
    requires i <= |entries|
    ensures r.Success? ==> |r.value| == |entries| - i
    ensures r.Success? ==> forall j :: 0 <= j < |r.value| ==> r.value[j].0 == entries[i + j].0
    decreases Dict(entries), 0, |entries| - i
  {
    if i == |entries| then Success([])
    else
      assert entries[i] in entries;
      var (key, raw) := entries[i];
      var first :- Load(raw);
      var rest :- LoadEntries(entries, i + 1);
      Success([(key, first)] + rest)
  }

  /** A value with no tagged dict in it. */
  predicate Plain(v: Value)
    decreases v, 1
  {
    match v
    case List(items) => PlainItems(items, 0)
    case Dict(entries) => !Tagged(entries) && PlainEntries(entries, 0)
    case ConfigObject(_) => false
    case _ => true
  }

  predicate PlainItems(items: seq<Value>, i: nat)
    requires i <= |items|
    decreases List(items), 0, |items| - i
  {
    i == |items| || (Plain(items[i]) && PlainItems(items, i + 1))
  }

  predicate PlainEntries(entries: seq<(string, Value)>, i: nat)
    requires i <= |entries|
    decreases Dict(entries), 0, |entries| - i
  {
    i == |entries| || (assert entries[i] in entries; Plain(entries[i].1) && PlainEntries(entries, i + 1))
  }

  /** The hook leaves a value without tagged dicts as it is. */
  lemma {:induction false} LoadPlain(v: Value)
    requires Plain(v)
    ensures Load(v) == Success(v)
    decreases v, 1
  {
    match v
    case List(items) => LoadItemsPlain(items, 0);
    case Dict(entries) => LoadEntriesPlain(entries, 0);
    case _ =>
  }

  lemma {:induction false} LoadItemsPlain(items: seq<Value>, i: nat)
    requires i <= |items| && PlainItems(items, i)
    ensures LoadItems(items, i) == Success(items[i..])
    decreases List(items), 0, |items| - i
  {
    if i < |items| {
      LoadPlain(items[i]);
      LoadItemsPlain(items, i + 1);
      assert items[i..] == [items[i]] + items[i + 1..];
      assert LoadItems(items, i) == Success([items[i]] + items[i + 1..]);
    } else {
      assert LoadItems(items, i) == Success([]);
      assert items[i..] == [];
    }
  }

  lemma {:induction false} LoadEntriesPlain(entries: seq<(string, Value)>, i: nat)
    requires i <= |entries| && PlainEntries(entries, i)
    ensures LoadEntries(entries, i) == Success(entries[i..])
    decreases Dict(entries), 0, |entries| - i
  {
    if i < |entries| {
      assert entries[i] in entries;
      LoadPlain(entries[i].1);
      LoadEntriesPlain(entries, i + 1);
      assert entries[i..] == [(entries[i].0, entries[i].1)] + entries[i + 1..];
      assert LoadEntries(entries, i) == Success([(entries[i].0, entries[i].1)] + entries[i + 1..]);
    } else {
      assert LoadEntries(entries, i) == Success([]);
      assert entries[i..] == [];
    }
  }
}
