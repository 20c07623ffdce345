# transgression configuration core, modelled in Dafny

This project models three pure parts of the transgression repository:

- **The configuration tree of `src/configurator/core.py`.** This is the main part.
  - Sections have a name, attributes, ordered options and ordered subsections. A configurator holds the top-level sections.
  - The bracketed-predicate parser for path segments such as `Binary[name="x",os=linux]`.
  - First-match lookup by name and attribute containment.
  - `setOption` and `getOption`.
  - Dotted-path resolution (`getSectionByPath`) with its `InvalidPathException` split into a valid part and an invalid part.
  - Creating the missing part of a path (`addSectionByPath`, `createSubSectionByPath`, `addSection`).
  - The option-path wrappers `addOptionByPath` and `getOptionByPath`.
  - Section and option equality and `getPath`.
- **The pure helpers of `src/transgression/transgression/runner.py`.**
  - `constructBuildUrlFromData`, which fills placeholders in a URL template.
  - The date tables of `getRepoName` for Firefox, Thunderbird and Fennec.
- **The decoder of `src/transgression/transgression/config.py`.**
  - `config_decoder`, the `json.loads` object hook.
  - The `Config`, `PlatformConfiguration` and `BinaryRepository` objects it builds.

The model is functional:

- A configurator is a value holding a `seq<Section>`.
- A section is identified by its index path (`seq<nat>`). The path starts with the position of its top-level ancestor and continues with its position in each parent's subsection list. The parent back-reference and `isTopLevelSection` follow from that position.
- Operations that mutate the tree in Python return the new configurator. When the Python code raises after mutating the tree (`addSectionByPath`), the result carries both the mutated tree and the error.
- Python's `str` operations are written out with Python's semantics in `PyStrings`:
  - `find` returns -1 when the character is absent.
  - Slices clamp and accept negative bounds.
  - `split` never returns an empty list.
  - `replace` scans left to right without overlap.
- A date is an abstract `(year, month, day)` value. Parsing follows the regular expression `strptime` compiles for `%Y-%m-%d`.

Modules: `Wrappers`, `PyStrings`, `Segments`, `ConfigTree`, `ConfigPaths`, `OptionPaths`, `Dates`, `Runner` and `TransgressionConfig`. Each lives in its own lower-case `.dfy` file.

Where descriptions of the system and the code differ, the model follows the code:

- `setOption` does not overwrite an option of the same name. It returns an existing option only when both name and value are equal; otherwise it appends a new option.
- `addSection` appends to the top-level list in every case. The model keeps only the parentless form.
- A section's attributes are compared only by count in `Section.__eq__`. Its subsections are not compared at all.

## Model

| member | source | states |
|---|---|---|
| PyStrings.Find | src/configurator/core.py:518-520 | `find` on one character: -1 exactly when the character is absent; otherwise an index holding it with no earlier occurrence |
| PyStrings.PySlice | src/configurator/core.py:545-546 | Python slicing: in-range bounds give the ordinary subsequence, a reversed range gives the empty string, and the result only holds characters of the input |
| PyStrings.Split | src/configurator/core.py:487 | `split` on one character always yields at least one piece, and no piece holds the separator |
| PyStrings.JoinSplit | src/configurator/core.py:441-443 | joining the pieces of a split with the separator gives back the original string |
| PyStrings.SplitJoin | src/configurator/core.py:441-443 | splitting a join of separator-free pieces gives back those pieces |
| PyStrings.ReplaceJoin | src/transgression/transgression/runner.py:105-111 | `replace` rewrites every occurrence: in a join of pieces lacking the pattern's first character, exactly the joining occurrences are rewritten |
| PyStrings.ReplaceSelf | src/transgression/transgression/runner.py:105-111 | replacing a pattern by itself leaves any string unchanged |
| PyStrings.ReplaceAbsent | src/transgression/transgression/runner.py:105-111 | a string in which the pattern does not occur is left unchanged by `replace` |
| PyStrings.DeleteRemovesChar | src/configurator/core.py:541 | deleting every copy of a character leaves none behind |
| Segments.SplitSectionAndAttributes | src/configurator/core.py:514-523 | without both `[` and `]` the segment is the name and there is no attribute string; otherwise the name is the text before the first `[` (it holds no `[`, but may hold `]`: `a]b[c` has the name `a]b`), and the attribute string runs from that `[` through the first `]` (empty when that `]` comes before the `[`) |
| Segments.ParsePair | src/configurator/core.py:540-546 | after every `"` is deleted, a pair with an `=` is key, `=`, value with an `=`-free key; a pair without one has the whole text as value and the text minus its last character as key; neither part holds a `"` |
| Segments.AddPairs | src/configurator/core.py:539-547 | assigning the pairs in order yields the old keys plus the pairs' keys; a key some pair names holds the value of the LAST such pair, and other keys keep their value |
| Segments.SplitAttributesString | src/configurator/core.py:525-549 | an absent or empty attribute string gives the empty map; otherwise the keys are exactly those of the comma-separated pairs, each bound to its last pair's value |
| Segments.PairRoundTrip | src/configurator/core.py:540-547 | a rendered `key="value"` pair with an `=`-free key parses back to that key and value |
| Segments.PredicateRoundTrip | src/configurator/core.py:525-549 | a rendered non-empty predicate `[k1="v1",...]` parses back to the map of its pairs, a later duplicate key winning |
| Segments.SegmentRoundTrip | src/configurator/core.py:514-549 | a bracket-free name followed by a rendered predicate parses back to that name and that map |
| Segments.EmptyBracketsParse | src/configurator/core.py:534-547 | the empty predicate `[]` parses to one attribute whose name and value are both empty |
| Segments.BareNameIsBare | src/configurator/core.py:493-501 | the bare name of a segment parses to itself with no predicate, and holds no character the segment lacks |
| ConfigTree.ContainsAttributes | src/configurator/core.py:249-264 | true exactly when every predicate key is an attribute of the section with an equal value; other attributes are ignored |
| ConfigTree.MatchesIsContainment | src/configurator/core.py:328-334 | the two branches of the lookup test agree: a match is a name match plus attribute containment |
| ConfigTree.FindSection | src/configurator/core.py:590-598 | answers the first section in list order that matches, or None exactly when no section matches |
| ConfigTree.GetTopLevelSection | src/configurator/core.py:590-598 | answers the index of the first top-level section with the name whose attributes contain the predicate, or None exactly when there is none |
| ConfigTree.GetSubSection | src/configurator/core.py:319-335 | answers the index of the first child matching the name and predicate parsed from the segment, or None exactly when no child matches |
| ConfigTree.FindSectionSameHeads | src/configurator/core.py:319-335 | lookups depend only on the sections' names and attributes, never on their options or children |
| ConfigTree.FirstNamed | src/configurator/core.py:337-341 | the index of the first option with the name, or None exactly when no option has it |
| ConfigTree.GetOption | src/configurator/core.py:337-341 | answers the FIRST option of the section with the name asked for (no earlier option has it); None exactly when no option has that name |
| ConfigTree.SetOption | src/configurator/core.py:298-304 | returns the option (name, value); the list is unchanged exactly when an equal option existed, and otherwise gains exactly that option at the end; name, attributes and subsections are untouched |
| ConfigTree.SetOptionIdempotent | src/configurator/core.py:298-304 | setting the same option twice is setting it once |
| ConfigTree.GetAfterSetOption | src/configurator/core.py:298-341 | after `setOption`, `getOption` answers the new option only when no option of that name existed; an earlier option of that name still wins |
| ConfigTree.SetOptionKeepsOtherNames | src/configurator/core.py:298-341 | `setOption` leaves `getOption` unchanged for every other name |
| ConfigTree.NewSection | src/configurator/core.py:239-244 | a fresh section has no options and no children, and matches the name and predicate parsed from its segment |
| ConfigTree.AddSubSection | src/configurator/core.py:239-247 | appends exactly one fresh child behind the existing ones and changes nothing else |
| ConfigTree.GetAfterAddSubSection | src/configurator/core.py:239-247 | no deduplication: looking the segment up afterwards finds an earlier match when there is one, and the new child otherwise |
| ConfigTree.Chain | src/configurator/core.py:276-279 | the chain built for a path has no options at its head and matches the first segment |
| ConfigTree.CreateSubSectionByPath | src/configurator/core.py:273-281 | appends exactly one new child, the chain of fresh sections for the dotted pieces of the path, and keeps the existing children, options and attributes |
| ConfigTree.AppendUnder | src/configurator/core.py:245 | appending beneath an index path adds the child at the end of that section's children; no section off the path changes, and the sections along it keep name, attributes and options |
| ConfigTree.ReplaceAt | src/configurator/core.py:303 | the section at the index path becomes the given one; no section off the path changes, and its ancestors keep name, attributes and options |
| ConfigTree.ReplaceAtKeepsOtherOptions | src/configurator/core.py:298-304 | replacing the section at an index path by one with the same children keeps the options of every section at another index path |
| ConfigTree.NamesAlong | src/configurator/core.py:174-178 | one name per step of the index path: the n-th is the name of the section the first n steps reach |
| ConfigTree.TopLevelPath | src/configurator/core.py:174-186 | a top-level section has no parent and its path is its own name |
| ConfigTree.ChildPath | src/configurator/core.py:174-186 | a child is not top-level, and its path is its parent's path, a dot and its own name |
| ConfigTree.GetPath | src/configurator/core.py:174-178 | when no name along the index path holds a dot, splitting the path at dots gives back the names along it, top-level name first |
| ConfigTree.TopLevelIsOwnPath | src/configurator/core.py:174-186 | `isTopLevelSection` holds exactly when `getPath` is the section's own name |
| ConfigTree.OptionsEqualFrom | src/configurator/core.py:160-169 | the element-wise name-and-value comparison from position j holds exactly when the two lists agree from j on |
| ConfigTree.OptionsEqual | src/configurator/core.py:160-169 | `optionsEqual` holds exactly when the two option lists are equal |
| ConfigTree.SectionEqualsEquivalence | src/configurator/core.py:121-129 | section equality (name, configurator file path, path, options, attribute count) is reflexive, symmetric and transitive |
| ConfigTree.EqualityIgnoresAttributeValuesAndChildren | src/configurator/core.py:121-145 | sections with the same name and options and the same number of attributes compare equal, however their attribute values and children differ |
| ConfigPaths.Resolve | src/configurator/core.py:491-510 | the walk follows first matches segment by segment; it is complete with one index per segment, or it stops where the next segment has no match among the children reached |
| ConfigPaths.ResolveUnique | src/configurator/core.py:491-510 | a first-match route that is complete or cannot be extended is the one the walk takes |
| ConfigPaths.Segs | src/configurator/core.py:487-490 | a path always splits into at least one dot-free segment, so the `ValueError` branch cannot be taken |
| ConfigPaths.GetSectionByPath | src/configurator/core.py:481-512 | success answers a section with one index per segment, reached by first matches |
| ConfigPaths.WalkResult | src/configurator/core.py:498-512 | a complete walk is the answer; a walk stopped before any match raises with valid part `''` and the whole path; a walk stopped after k sections raises with the bare first name plus segments 1..k-1 as valid part and segments k.. as invalid part |
| ConfigPaths.ErrorAt | src/configurator/core.py:498-509 | a walk stopped before any match gives valid part `''` and the whole path; one stopped after k sections gives an invalid part splitting into segments k.., and a valid part, dot and invalid part that rebuild the path with the first segment's predicate stripped |
| ConfigPaths.FindSectionByPath | src/configurator/core.py:481-512 | the loop with its running valid path answers exactly what the walk decides |
| ConfigPaths.ResolvePrefix | src/configurator/core.py:502-510 | the first k segments of a walk that got that far resolve on their own, to the same sections |
| ConfigPaths.RouteNames | src/configurator/core.py:493-509 | the sections along a walk carry the bare names of its segments |
| ConfigPaths.ResolvedPath | src/configurator/core.py:174-178 | a bracket-free path that resolves names a section whose `getPath` is the path itself |
| ConfigPaths.ErrorRebuildsPath | src/configurator/core.py:498-509 | the error either has an empty valid part and the whole path, or its valid part, a dot and its invalid part rebuild the path with the first segment's predicate stripped |
| ConfigPaths.BareHeadRebuildsPath | src/configurator/core.py:501-508 | when the first segment has no brackets, that rebuilt path is the path itself |
| ConfigPaths.AddSection | src/configurator/core.py:556-585 | appends one fresh top-level section built from the segment and keeps the others |
| ConfigPaths.GetAfterAddSection | src/configurator/core.py:583-598 | no deduplication at top level: the segment then finds an earlier match when there is one, and the new section otherwise |
| ConfigPaths.AddSectionByPath | src/configurator/core.py:449-466 | a path that already resolves leaves the tree unchanged and answers its section; any success answers what `getSectionByPath` finds in the new tree |
| ConfigPaths.AddSectionByPathIdempotent | src/configurator/core.py:449-466 | after it returns normally, calling it again with the same path creates nothing and answers the same section |
| ConfigPaths.CreateIsAppendUnder | src/configurator/core.py:459-461 | creating a path beneath a resolved section is appending one chain beneath it |
| ConfigPaths.ChainResolves | src/configurator/core.py:273-281 | the chain built for some segments resolves those segments through its first children |
| ConfigPaths.ResolveAppendUnder | src/configurator/core.py:459-466 | a subtree that resolves the remaining segments, appended where the walk stopped, makes the whole walk succeed through it |
| ConfigPaths.AddSectionByPathNewTopLevel | src/configurator/core.py:462-466 | when nothing resolves, one new top-level section is appended, the path resolves through it to a section without options, and a one-segment path also gets an extra child with the empty name |
| ConfigPaths.ValidPathResolves | src/configurator/core.py:459-460 | with a predicate-free first segment, the valid part of the error resolves to the section where the walk stopped |
| ConfigPaths.AddSectionByPathBelowPrefix | src/configurator/core.py:459-466 | with a predicate-free, non-empty first segment and a non-empty valid part, one fresh chain for the unresolved segments is appended beneath the section where the walk stopped, and the path then resolves through it |
| ConfigPaths.AddSectionByPathBelowValidPart | src/configurator/core.py:456-466 | for every path whose lookup raises with a non-empty valid part: when the valid part resolves, one chain for the invalid part is appended beneath the section it resolves to, whatever the first segment's predicate, and the path is looked up again; when it does not, its error is raised and the tree is unchanged |
| ConfigPaths.PredicateDroppedFromValidPath | src/configurator/core.py:449-509 | with top-level sections `n` and `n[k="v"]`, adding `n[k="v"].m` creates `m` beneath the FIRST `n` and still raises with valid part `n` and invalid part `m` |
| ConfigPaths.EmptyFirstSegmentAddsTopLevel | src/configurator/core.py:449-509 | with one top-level section named `''`, adding `.x` takes the top-level branch: it appends a top-level `x` holding an unnamed child and still raises with valid part `''` and invalid part `x` |
| ConfigPaths.TopLevelBranch | src/configurator/core.py:462-465 | the empty-valid-part branch appends exactly one top-level section built from the pieces of the invalid part |
| OptionPaths.OptionPathSplits | src/configurator/core.py:441-443 | the option name is the dot-free last segment; the section path, a dot and the option name rebuild the option path, and a dot-free path names an option of the empty section path |
| OptionPaths.OptionNameOf | src/configurator/core.py:441-442 | the option name holds no dot, and a dot-free path is itself the option name |
| OptionPaths.SectionPathOf | src/configurator/core.py:441-443 | a dot-free path has the empty section path; otherwise the section path splits into all segments but the last |
| OptionPaths.GetOptionByPath | src/configurator/core.py:468-478 | raises exactly when the section path does not resolve, with its error; otherwise answers what `getOption` answers for the option name on the resolved section: its first option of that name, or None exactly when it has none |
| OptionPaths.AddOptionByPath | src/configurator/core.py:439-447 | success answers the option (last segment, value), and the tree is the one `addSectionByPath` left with only the section the section path resolves to changed, to its `setOption` result; a failure is `addSectionByPath`'s failure together with the tree it left |
| OptionPaths.ResolveReplaceSame | src/configurator/core.py:298-304 | changing a section's options does not change where any path resolves |
| OptionPaths.OptionRoundTrip | src/configurator/core.py:439-478 | after `addOptionByPath(P, V)` succeeds, `getOptionByPath(P)` answers (last segment of P, V), unless the section already had an option of that name, which is still the one found |
| OptionPaths.OtherOptionsAfterReplace | src/configurator/core.py:298-304 | changing only a section's options changes `getOptionByPath` only for option paths whose section is that one and whose name the change affects |
| OptionPaths.AddOptionKeepsOtherOptions | src/configurator/core.py:439-478 | after `addOptionByPath(P, V)` succeeds, `getOptionByPath` answers every option path with another option name, or whose section resolves elsewhere, as it did once P's section path had been added |
| Dates.BeforeIsKeyOrder | src/transgression/transgression/runner.py:194-199 | on calendar dates, `date <` is the order of the dates' YYYYMMDD numbers |
| Dates.BeforeTotalOrder | src/transgression/transgression/runner.py:194-199 | `date <` is a strict total order on calendar dates |
| Dates.DaysInMonth | src/transgression/transgression/config.py:34 | every month has 28 to 31 days, and February has 29 exactly in leap years |
| Dates.ParseDate | src/transgression/transgression/config.py:33-35 | every date `strptime` accepts exists in the calendar |
| Dates.ParseFormat | src/transgression/transgression/config.py:33-35 | the canonical `YYYY-MM-DD` spelling of a calendar date parses back to that date |
| Dates.FormatParse | src/transgression/transgression/config.py:33-35 | a ten-character, space-free string that parses is the canonical spelling of the date it parses to |
| Dates.LenientSpellings | src/transgression/transgression/config.py:34 | an unpadded month and a space-padded day are accepted too |
| Dates.CalendarChecks | src/transgression/transgression/config.py:34 | February 29th parses only in leap years, and no month has a 32nd day |
| Runner.Values | src/transgression/transgression/runner.py:105-111 | the table holds only the five placeholder names; `year`, `month` and `day` always hold their values, and `name` and `buildid` hold theirs exactly when it is non-empty |
| Runner.ValuesReversed | src/transgression/transgression/runner.py:105-111 | the order of the passes does not matter to the table: assigning the values in reverse order builds the same one |
| Runner.ReplaceSlot | src/transgression/transgression/runner.py:105-111 | one `replace` pass on an unambiguous template rewrites exactly the placeholders with that name |
| Runner.PassesBind | src/transgression/transgression/runner.py:105-112 | the five passes in the order year, day, month, name, buildid each fill their own placeholders |
| Runner.BindAllFills | src/transgression/transgression/runner.py:105-112 | filling the placeholders one name at a time is filling them all at once from the values |
| Runner.ConstructFillsTemplate | src/transgression/transgression/runner.py:99-112 | the build URL is the template with every placeholder that has a value replaced by it, and every other placeholder left as written |
| Runner.ConstructFillsSeparated | src/transgression/transgression/runner.py:99-112 | the same for any template whose placeholders are not followed by a lower-case letter, for values and template text without `%` |
| Runner.ConstructBuildUrl | src/transgression/transgression/runner.py:99-112 | a template in which none of the five placeholders occurs (it may hold other `%` signs, as in `a%20b`) comes back unchanged, whatever the values |
| Runner.LaterPassRewritesValue | src/transgression/transgression/runner.py:105-107 | a value is rewritten by later passes: a year spelling `%day%` becomes the day in the URL, where filling the template's slots would keep it |
| Runner.EmptyValuesKeepPlaceholders | src/transgression/transgression/runner.py:108-111 | an empty application name leaves `%name%` in the URL, and an empty build id leaves `%buildid%` |
| Runner.RepoForInsideEra | src/transgression/transgression/runner.py:194-201 | a date inside an era of a chronological table (begun, and before the next era) is served by that era's repository; a date before every era gets the first repository |
| Runner.FirefoxRepoName | src/transgression/transgression/runner.py:209-213 | only `trunk` and `mozilla-central` are ever answered |
| Runner.FirefoxTable | src/transgression/transgression/runner.py:209-213 | `trunk` before 2008-06-17 and `mozilla-central` from then on |
| Runner.FirefoxNeverReverts | src/transgression/transgression/runner.py:209-213 | once a date gets `mozilla-central`, every later date does too |
| Runner.ThunderbirdRepoName | src/transgression/transgression/runner.py:194-201 | only `trunk`, `comm-central` and `comm-central-trunk` are ever answered |
| Runner.ThunderbirdTable | src/transgression/transgression/runner.py:194-201 | `trunk` before 2008-07-26, `comm-central` before 2009-01-09, `comm-central-trunk` before 2010-08-21, and `comm-central` from then on |
| Runner.ThunderbirdCommCentralTwice | src/transgression/transgression/runner.py:194-201 | `comm-central` is answered in two separate periods, with `comm-central-trunk` between them |
| Runner.FennecRepoName | src/transgression/transgression/runner.py:228-229 | every date gets `mozilla-central-android` |
| TransgressionConfig.LookupFinds | src/transgression/transgression/config.py:60 | a key is found exactly when some item carries it, and the value found is that of the first such item |
| TransgressionConfig.LookupDistinct | src/transgression/transgression/config.py:53-55 | in a dict, the value under an item's key is that item's value |
| TransgressionConfig.Subscript | src/transgression/transgression/config.py:6 | `d[k]` succeeds exactly on a dict holding k, with its value; otherwise `KeyError(k)` for a dict and `TypeError` for anything else |
| TransgressionConfig.DecodeRepository | src/transgression/transgression/config.py:4-16 | succeeds exactly on a dict with `protocol` and `location`, and keeps both verbatim; a missing `protocol` is reported first, then a missing `location` |
| TransgressionConfig.DecodeDate | src/transgression/transgression/config.py:33-35 | succeeds exactly on a string `strptime` accepts, with a calendar date; a rejected string is a `ValueError`, and a value that is not a string is a `TypeError` |
| TransgressionConfig.DecodePlatform | src/transgression/transgression/config.py:54-55 | a decoded platform keeps the entry's `processName` verbatim, and its repository and date are the decodings of the entry's fields; a dict decodes exactly when it holds all three keys and the repository and date decode; the error is that of the first failing step in the order `binaryRepository`, its decoding, `processName`, `firstBinaryDate`, the date's parse; a non-dict is a `TypeError` |
| TransgressionConfig.ProcessFromSucceeds | src/transgression/transgression/config.py:53-55 | the loop finishes exactly when every remaining entry decodes |
| TransgressionConfig.ProcessFromFirstError | src/transgression/transgression/config.py:53-55 | a failing loop reports the error of the first entry that fails, in iteration order |
| TransgressionConfig.ProcessFromKeys | src/transgression/transgression/config.py:52-57 | the table built holds the keys it started with plus the entries' keys, and other keys keep their value |
| TransgressionConfig.ProcessFromValues | src/transgression/transgression/config.py:55 | in a dict, every entry's key holds that entry's decoding |
| TransgressionConfig.ProcessPlatforms | src/transgression/transgression/config.py:51-57 | `.keys()` on a non-dict is an `AttributeError` |
| TransgressionConfig.ProcessPlatformsSpec | src/transgression/transgression/config.py:51-57 | the platform table is built exactly when every entry decodes; its keys are exactly the input's keys, and in a dict each holds its entry's decoding |
| TransgressionConfig.ProcessPlatformsError | src/transgression/transgression/config.py:51-57 | a failure is the error of the first failing entry, or the `AttributeError` of a non-dict |
| TransgressionConfig.ConfigDecoder | src/transgression/transgression/config.py:59-63 | an untagged dict is returned unchanged; a tagged one becomes a `Config` whose app name is the input's `appName` and whose table is the decoding of `platformConfigurations`; a missing `appName` or `platformConfigurations` is a `KeyError` for it, and otherwise a table that fails to decode raises that decoding's error unchanged |
| TransgressionConfig.GetPlatformConfiguration | src/transgression/transgression/config.py:45-46 | succeeds exactly for a platform in the table, with its entry; otherwise a `KeyError` for that platform |
| TransgressionConfig.DecodedPlatformLookup | src/transgression/transgression/config.py:45-61 | after a tagged dict decodes, every platform of its input is found, and it holds the decoding of its entry |
| TransgressionConfig.RepositoryRoundTrip | src/transgression/transgression/config.py:4-16 | an encoded binary repository decodes to itself |
| TransgressionConfig.PlatformRoundTrip | src/transgression/transgression/config.py:18-35 | an encoded platform configuration with a calendar date decodes to itself |
| TransgressionConfig.PlatformsRoundTrip | src/transgression/transgression/config.py:51-57 | an encoded platform table, each key listed once, decodes to the table itself |
| TransgressionConfig.ConfigRoundTrip | src/transgression/transgression/config.py:37-63 | decoding the tagged encoding of a configuration gives it back, whatever order the platforms are listed in |
| TransgressionConfig.LoadPlain | src/transgression/transgression/config.py:59-63 | the hook, applied bottom-up by `json.loads`, leaves a value without tagged dicts unchanged |

## Left out

- XML and file work in `src/configurator/core.py` is not modelled: `getElement`, `triggerXMLUpdate`, `invalidateElement`, `createNewXMLElement`, `getTopElement`, `getDocument` with its retry after `ExpatError`, `writeDocumentToConfigFile` and the `ensureConfig*Created` methods. These are minidom and filesystem plumbing; the model keeps only their effects on the lists.
- The configurator's file path is kept as given. The `~` prefix and `os.path.expanduser` of the constructor depend on the environment.
- `isWindows`, `isUnix`, `isMsys` and the `gLogger` logging are environment probes and output.
- `addSection` with a parent section is not modelled. The code appends such a section to the top-level list while giving it a parent, which an index path cannot express. `addSectionByPath` only calls the parentless form.
- `addAttribute`, `addAttributes`, `createOption`, `Option.setValue`, `subSectionsEqual`, `findSubSectionsByNameWithAttributes`, `__contains__` and the `has*`/`isEmpty` queries are not modelled. They are outside the operations listed above. `addAttribute` could create two attributes with one name, which the attribute map cannot hold.
- `Attribute` and `Option` objects are plain datatype values. Their back-reference to the section is derived from position, and their getters are field accesses.
- ConfigTree.SectionEqualsEquivalence: states the equality for sections addressed inside configurators, and compares configurators by file path as `Configurator.__eq__` does. Identity of the Python objects is not modelled.
- ConfigPaths.AddSectionByPathBelowPrefix: that the path then resolves through the new chain is stated only for a predicate-free, non-empty first segment. With a predicate the valid part can re-resolve to another section (ConfigPaths.PredicateDroppedFromValidPath); ConfigPaths.AddSectionByPathBelowValidPart states the resulting tree for every first segment.
- Runner.ConstructFillsTemplate: requires values without `%`, because a value spelling a placeholder of a later pass is rewritten by that pass (Runner.LaterPassRewritesValue shows one). It also requires template text without `%`, so a template with a lone or percent-encoded `%` outside its placeholders is covered only when it holds no placeholder at all (Runner.ConstructBuildUrl returns such a template unchanged), not by any filling lemma.
- Runner.ConstructFillsSeparated: requires values and template text without `%`, for the same reasons.
- Runner.ConstructFillsTemplate: requires every pass to be unambiguous. Otherwise the text of one placeholder, followed by its neighbour's, could spell another placeholder, which the slot-by-slot reading does not describe. Runner.ConstructFillsSeparated discharges this for templates whose placeholders are not followed by a lower-case letter.
- Runner.ConstructBuildUrl: a missing (`None`) name or build id and the empty string are the same value. Both are falsy, so the code treats them alike.
- Runner.ThunderbirdRepoName: the Windows check that exits the process for dates before 2010-03-18 is not modelled. It depends on the platform and ends the program.
- `getBuildUrl` (HTTP scraping), `getAppInfo` (reads an ini file), `start`, `stop`, `wait` and `install` (mozrunner and adb subprocesses), `cleanup` and `cli` in `runner.py` are not modelled. They are I/O.
- The constructors `DebugBuild.__init__` and `Application.__init__` are not modelled. They call names the module does not define.
- TransgressionConfig.DecodeDate: the parsed value is a calendar date. `strptime` returns a `datetime` at midnight, and its time part plays no role here.
- JSON text parsing itself is not modelled; decoding starts from the parsed value. JSON floats are not represented, and numbers are integers.
- A Python dict is modelled as its items in iteration order. Lemmas that rely on each key occurring once say so in their preconditions.
- TransgressionConfig.LookupFinds: the first item with a key wins. `json.loads` keeps the LAST duplicate key of a JSON object, so a decoded object text with a repeated key is modelled faithfully only when the items are taken after that deduplication.
- `src/configurator/configurator.py`, `src/prettylogger/core.py`, the curses UIs, `src/transgression/transgression.py` and the `setup.py` files are not part of this model. They are a stub, console output, user interface, glue and packaging.
