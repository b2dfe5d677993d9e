/**
  The pure part of process start-up in `cmd/github-mcp-server/main.go`:
  building the feature registry from the fixed catalog, choosing the list of
  names to enable (the `GITHUB_FEATURES` environment value over the
  `--features` flag), and choosing the GitHub host (`GH_HOST` over
  `--gh-host`). Environment and flag values arrive as parameters.
 */
module Startup {
  import opened Wrappers
  import opened GoStrings
  import opened Features

  /** A feature group of the catalog: its name and its description. */
  datatype CatalogEntry = CatalogEntry(name: string, description: string)

  /** The six feature groups the server registers, in registration order. */
  const Catalog: seq<CatalogEntry> := [
    CatalogEntry("repos", "Repository related tools"),
    CatalogEntry("issues", "Issues related tools"),
    CatalogEntry("search", "Search related tools"),
    CatalogEntry("pull_requests", "Pull request related tools"),
    CatalogEntry("code_security", "Code security related tools"),
    CatalogEntry("experiments", "Experimental features that are not considered stable yet")
  ]

  /** The names of the six feature groups. */
  const CatalogNames: set<string> :=
    {"repos", "issues", "search", "pull_requests", "code_security", "experiments"}

  /** The default value of the `--features` flag. */
  const DefaultFeatures: seq<string> := ["repos", "issues", "pull_requests", "search"]

  /** The names carried by a list of entries. */
  function NamesOf(entries: seq<CatalogEntry>): set<string>
    decreases |entries|
  {
    if |entries| == 0 then {} else {entries[0].name} + NamesOf(entries[1..])
  }

  /** The server's catalog carries exactly the six catalog names. */
  lemma CatalogNamesOf()
    ensures NamesOf(Catalog) == CatalogNames
  {
  }

  /** Registers every entry of `entries`, disabled, in order. */
  function RegisterAll(fs: FeatureSet, entries: seq<CatalogEntry>): FeatureSet
    decreases |entries|
  {
    if |entries| == 0 then fs
    else RegisterAll(AddFeature(fs, entries[0].name, entries[0].description, false), entries[1..])
  }

  /** The registry a catalog yields before anything is enabled. */
  function Registry(catalog: seq<CatalogEntry>): FeatureSet {
    RegisterAll(NewFeatureSet(), catalog)
  }

  /** The registry the server builds from its own catalog. */
  function CatalogFeatureSet(): FeatureSet {
    Registry(Catalog)
  }

  /** Every entry is disabled. */
  ghost predicate AllDisabled(fs: FeatureSet) {
    forall k :: k in fs.features ==> !fs.features[k].enabled
  }

  /** Registering a disabled feature keeps every entry disabled and under its own name. */
  lemma AddDisabled(fs: FeatureSet, name: string, description: string)
    requires WellFormed(fs) && AllDisabled(fs)
    ensures WellFormed(AddFeature(fs, name, description, false))
    ensures AllDisabled(AddFeature(fs, name, description, false))
  {
    AddFeatureWellFormed(fs, name, description, false);
    AddFeatureKeepsOthers(fs, name, description, false);
  }

  /** Registering a list adds exactly its names and leaves the override alone. */
  lemma {:induction false} RegisterAllKeys(fs: FeatureSet, entries: seq<CatalogEntry>)
    ensures RegisterAll(fs, entries).features.Keys == fs.features.Keys + NamesOf(entries)
    ensures RegisterAll(fs, entries).everythingOn == fs.everythingOn
    decreases |entries|
  {
    if |entries| > 0 {
      RegisterAllKeys(AddFeature(fs, entries[0].name, entries[0].description, false), entries[1..]);
    }
  }

  /**
    Registering a list of entries, each disabled, keeps every entry disabled
    and stored under its own name.
   */
  lemma {:induction false} RegisterAllDisabled(fs: FeatureSet, entries: seq<CatalogEntry>)
    requires WellFormed(fs) && AllDisabled(fs)
    ensures WellFormed(RegisterAll(fs, entries))
    ensures AllDisabled(RegisterAll(fs, entries))
    decreases |entries|
  {
    if |entries| > 0 {
      AddDisabled(fs, entries[0].name, entries[0].description);
      RegisterAllDisabled(AddFeature(fs, entries[0].name, entries[0].description, false), entries[1..]);
    }
  }

  /**
    A freshly registered catalog holds exactly the catalog's names, each
    stored under its own name and disabled, with the override off.
   */
  lemma RegistryContents(catalog: seq<CatalogEntry>)
    ensures Registry(catalog).features.Keys == NamesOf(catalog)
    ensures WellFormed(Registry(catalog))
    ensures AllDisabled(Registry(catalog))
    ensures !Registry(catalog).everythingOn
  {
    RegisterAllKeys(NewFeatureSet(), catalog);
    RegisterAllDisabled(NewFeatureSet(), catalog);
  }

  /** Before the enable step no name at all reads as enabled. */
  lemma RegistryNothingEnabled(catalog: seq<CatalogEntry>, x: string)
    ensures !IsEnabled(Registry(catalog), x)
  {
    RegistryContents(catalog);
  }

  /** Against a registered catalog, the accepted names are its names and the sentinel. */
  lemma RegistryKnown(catalog: seq<CatalogEntry>, n: string)
    ensures Known(Registry(catalog), n) <==> n in NamesOf(catalog) || n == Everything
  {
    RegistryContents(catalog);
  }

  /** The server's registry holds the six catalog names, all disabled, with the override off. */
  lemma CatalogContents()
    ensures CatalogFeatureSet().features.Keys == CatalogNames
    ensures WellFormed(CatalogFeatureSet())
    ensures AllDisabled(CatalogFeatureSet())
    ensures !CatalogFeatureSet().everythingOn
  {
    RegistryContents(Catalog);
    CatalogNamesOf();
  }

  /**
    The list of names to enable. A non-empty environment value replaces the
    flag list entirely: it is split at commas and each piece trimmed. An
    empty environment value leaves the flag list as it is.
   */
  function ResolveFeatureList(flagFeatures: seq<string>, envFeatures: string): (names: seq<string>)
    ensures envFeatures == "" ==> names == flagFeatures
    ensures envFeatures != "" ==> forall i :: 0 <= i < |names| ==> Trimmed(names[i])
  {
    if envFeatures != "" then
      TrimEach(Split(envFeatures, ','))
    else flagFeatures
  }

  /** Go's append loop: each piece trimmed, in order. */
  function TrimEach(parts: seq<string>): (names: seq<string>)
    ensures |names| == |parts|
    ensures forall i :: 0 <= i < |parts| ==> names[i] == TrimSpace(parts[i])
  {
    if |parts| == 0 then [] else [TrimSpace(parts[0])] + TrimEach(parts[1..])
  }

  /** A non-empty environment value with `n` commas yields `n + 1` names. */
  lemma ResolveCount(flagFeatures: seq<string>, envFeatures: string)
    requires envFeatures != ""
    ensures |ResolveFeatureList(flagFeatures, envFeatures)| == multiset(envFeatures)[','] + 1
  {
    SplitCount(envFeatures, ',');
  }

  /** With a non-empty environment value the flag list has no influence at all. */
  lemma EnvReplacesFlags(flags1: seq<string>, flags2: seq<string>, envFeatures: string)
    requires envFeatures != ""
    ensures ResolveFeatureList(flags1, envFeatures) == ResolveFeatureList(flags2, envFeatures)
  {
  }

  /**
    Each resolved entry is the trimmed piece of the environment value at the
    same position, and joining the untrimmed pieces gives the value back.
   */
  lemma ResolvedEntriesArePieces(flagFeatures: seq<string>, envFeatures: string)
    requires envFeatures != ""
    ensures |ResolveFeatureList(flagFeatures, envFeatures)| == |Split(envFeatures, ',')|
    ensures forall i :: 0 <= i < |Split(envFeatures, ',')| ==>
              ResolveFeatureList(flagFeatures, envFeatures)[i] == TrimSpace(Split(envFeatures, ',')[i])
    ensures Join(Split(envFeatures, ','), ',') == envFeatures
  {
    JoinSplit(envFeatures, ',');
  }

  /** The worked example: `"repos, issues ,search"` resolves to three clean names. */
  lemma ResolveExample(flagFeatures: seq<string>)
    ensures ResolveFeatureList(flagFeatures, "repos, issues ,search") == ["repos", "issues", "search"]
  {
    ExampleSplit();
    ExampleTrim();
    ResolveFromPieces(flagFeatures, "repos, issues ,search", ["repos", " issues ", "search"], ["repos", "issues", "search"]);
  }

  /** A non-empty value with known pieces resolves to the trimmed pieces. */
  lemma ResolveFromPieces(flagFeatures: seq<string>, envFeatures: string, pieces: seq<string>, names: seq<string>)
    requires envFeatures != "" && Split(envFeatures, ',') == pieces
    requires TrimEach(pieces) == names
    ensures ResolveFeatureList(flagFeatures, envFeatures) == names
  {
  }

  /** The example value splits into three untrimmed pieces. */
  lemma ExampleSplit()
    ensures Split("repos, issues ,search", ',') == ["repos", " issues ", "search"]
  {
    var pieces := ["repos", " issues ", "search"];
    assert "repos, issues ,search" == Join(pieces, ',');
    SplitJoin(pieces, ',');
  }

  /** Trimming the example's pieces removes the spaces around "issues" only. */
  lemma ExampleTrim()
    ensures TrimEach(["repos", " issues ", "search"]) == ["repos", "issues", "search"]
  {
    assert [] + "repos" + [] == "repos";
    assert [] + "search" + [] == "search";
    assert " " + "issues" + " " == " issues ";
    assert AllSpace(" ");
    TrimSpaceUnique([], "repos", []);
    TrimSpaceUnique(" ", "issues", " ");
    TrimSpaceUnique([], "search", []);
  }

  /** Every name of `names` is a catalog name or the sentinel. */
  predicate Requestable(catalog: seq<CatalogEntry>, names: seq<string>) {
    forall i :: 0 <= i < |names| ==> names[i] in NamesOf(catalog) || names[i] == Everything
  }

  /** The names a registered catalog accepts are exactly the requestable ones. */
  lemma RequestableIffKnown(catalog: seq<CatalogEntry>, names: seq<string>)
    ensures Requestable(catalog, names) <==> AllKnown(Registry(catalog), names)
  {
    forall i | 0 <= i < |names|
      ensures Known(Registry(catalog), names[i]) <==> names[i] in NamesOf(catalog) || names[i] == Everything
    {
      RegistryKnown(catalog, names[i]);
    }
  }

  /**
    `initFeatures` over a given catalog: registers it, resolves the list,
    then enables the list. Any error from the batch discards the registry
    and is returned.
   */
  function InitFeaturesFrom(catalog: seq<CatalogEntry>, flagFeatures: seq<string>, envFeatures: string)
    : (r: Result<FeatureSet, FeatureError>)
    ensures r.Ok? <==> Requestable(catalog, ResolveFeatureList(flagFeatures, envFeatures))
  {
    var names := ResolveFeatureList(flagFeatures, envFeatures);
    var b := EnableFeatures(Registry(catalog), names);
    EnableFeaturesFailsIffUnknown(Registry(catalog), names);
    RequestableIffKnown(catalog, names);
    if b.failure.Some? then Err(b.failure.value) else Ok(b.after)
  }

  /**
    `initFeatures` itself, over the server's catalog: it succeeds exactly
    when every resolved name is one of the six groups or the sentinel.
   */
  function InitFeatures(flagFeatures: seq<string>, envFeatures: string): (r: Result<FeatureSet, FeatureError>)
    ensures var names := ResolveFeatureList(flagFeatures, envFeatures);
            r.Ok? <==> forall i :: 0 <= i < |names| ==> names[i] in CatalogNames || names[i] == Everything
  {
    CatalogNamesOf();
    InitFeaturesFrom(Catalog, flagFeatures, envFeatures)
  }

  /**
    When the first resolved name that is neither a catalog name nor the
    sentinel sits at index `i`, start-up returns an error naming that entry.
   */
  lemma InitFeaturesError(catalog: seq<CatalogEntry>, flagFeatures: seq<string>, envFeatures: string, i: nat)
    requires i < |ResolveFeatureList(flagFeatures, envFeatures)|
    requires var names := ResolveFeatureList(flagFeatures, envFeatures);
             names[i] !in NamesOf(catalog) && names[i] != Everything
             && forall j :: 0 <= j < i ==> names[j] in NamesOf(catalog) || names[j] == Everything
    ensures InitFeaturesFrom(catalog, flagFeatures, envFeatures)
            == Err(UnknownFeature(ResolveFeatureList(flagFeatures, envFeatures)[i]))
  {
    var names := ResolveFeatureList(flagFeatures, envFeatures);
    var fs := Registry(catalog);
    RegistryKnown(catalog, names[i]);
    assert AllKnown(fs, names[..i]) by {
      forall j | 0 <= j < |names[..i]| ensures Known(fs, names[..i][j]) {
        RegistryKnown(catalog, names[j]);
      }
    }
    EnableFeaturesStopsAtFirstUnknown(fs, names, i);
  }

  /**
    On success a catalog name is enabled exactly when it or the sentinel was
    requested, and any other name exactly when the sentinel was requested.
   */
  lemma InitFeaturesEnabled(catalog: seq<CatalogEntry>, flagFeatures: seq<string>, envFeatures: string, x: string)
    ensures var names := ResolveFeatureList(flagFeatures, envFeatures);
            InitFeaturesFrom(catalog, flagFeatures, envFeatures).Ok? ==>
              (IsEnabled(InitFeaturesFrom(catalog, flagFeatures, envFeatures).value, x)
               <==> (x in NamesOf(catalog) && x in names) || Everything in names)
  {
    var names := ResolveFeatureList(flagFeatures, envFeatures);
    if InitFeaturesFrom(catalog, flagFeatures, envFeatures).Ok? {
      RegistryContents(catalog);
      RequestableIffKnown(catalog, names);
      EnableFeaturesAllKnown(Registry(catalog), names);
      EnableFeaturesIsEnabled(Registry(catalog), names, x);
    }
  }

  /** A successful start-up holds exactly the catalog's names, each entry under its own name. */
  lemma InitFeaturesWellFormed(catalog: seq<CatalogEntry>, flagFeatures: seq<string>, envFeatures: string)
    ensures InitFeaturesFrom(catalog, flagFeatures, envFeatures).Ok? ==>
              WellFormed(InitFeaturesFrom(catalog, flagFeatures, envFeatures).value)
              && InitFeaturesFrom(catalog, flagFeatures, envFeatures).value.features.Keys == NamesOf(catalog)
  {
    if InitFeaturesFrom(catalog, flagFeatures, envFeatures).Ok? {
      RegistryContents(catalog);
      EnableFeaturesWellFormed(Registry(catalog), ResolveFeatureList(flagFeatures, envFeatures));
    }
  }

  /**
    With no environment override the server's default flag list succeeds
    and enables exactly repos, issues, pull_requests and search.
   */
  lemma DefaultFeaturesInit()
    ensures InitFeatures(DefaultFeatures, "").Ok?
    ensures forall x :: IsEnabled(InitFeatures(DefaultFeatures, "").value, x)
                        <==> x in {"repos", "issues", "pull_requests", "search"}
  {
    CatalogNamesOf();
    DefaultFeaturesAreCatalogNames();
    forall x ensures IsEnabled(InitFeatures(DefaultFeatures, "").value, x)
                     <==> x in {"repos", "issues", "pull_requests", "search"} {
      InitFeaturesEnabled(Catalog, DefaultFeatures, "", x);
    }
  }

  /** The default flag list names four catalog entries and not the sentinel. */
  lemma DefaultFeaturesAreCatalogNames()
    ensures forall j :: 0 <= j < |DefaultFeatures| ==> DefaultFeatures[j] in CatalogNames
    ensures Everything !in DefaultFeatures
    ensures forall x :: x in DefaultFeatures <==> x in {"repos", "issues", "pull_requests", "search"}
  {
  }

  /**
    An environment entry that trims to nothing fails start-up, for any
    catalog without an empty name (the server's catalog is one).
   */
  lemma EmptyEntryRejected(catalog: seq<CatalogEntry>, flagFeatures: seq<string>, envFeatures: string, i: nat)
    requires "" !in NamesOf(catalog)
    requires envFeatures != ""
    requires i < |Split(envFeatures, ',')| && TrimSpace(Split(envFeatures, ',')[i]) == ""
    ensures InitFeaturesFrom(catalog, flagFeatures, envFeatures).Err?
  {
    var names := ResolveFeatureList(flagFeatures, envFeatures);
    assert names[i] == "";
    assert !Requestable(catalog, names);
  }

  /**
    Two adjacent commas anywhere in the environment value produce an empty
    entry, so start-up fails; `",,"` is the smallest such value.
   */
  lemma AdjacentCommasRejected(catalog: seq<CatalogEntry>, flagFeatures: seq<string>, before: string, after: string)
    requires "" !in NamesOf(catalog)
    ensures InitFeaturesFrom(catalog, flagFeatures, before + ",," + after).Err?
  {
    var env := before + ",," + after;
    assert env == before + [','] + ([','] + after);
    SplitAppend(before, ',', [','] + after);
    assert [','] + after == [] + [','] + after;
    SplitAppend([], ',', after);
    var i := |Split(before, ',')|;
    assert Split(env, ',')[i] == "";
    assert TrimSpace("") == "";
    EmptyEntryRejected(catalog, flagFeatures, env, i);
  }

  /**
    The host the GitHub client is pointed at: the `GH_HOST` value when it is
    non-empty, the `--gh-host` flag otherwise (also when `GH_HOST` is set to
    the empty string); an empty result means the public github.com
    endpoints are kept.
   */
  function SelectHost(envHost: string, flagHost: string): (host: string)
    ensures envHost != "" ==> host == envHost
    ensures envHost == "" ==> host == flagHost
    ensures host == "" <==> envHost == "" && flagHost == ""
  {
    if envHost == "" then flagHost else envHost
  }

  /**
    Reference reading of the host choice: `host` is the first non-empty
    value among `candidates`, taken in priority order, or empty when every
    candidate is empty.
   */
  ghost predicate FirstNonEmpty(candidates: seq<string>, host: string) {
    if host == "" then forall i :: 0 <= i < |candidates| ==> candidates[i] == ""
    else exists i :: 0 <= i < |candidates| && candidates[i] == host
                     && forall j :: 0 <= j < i ==> candidates[j] == ""
  }

  /**
    The host chosen is exactly the first non-empty one of `GH_HOST` and
    `--gh-host`, in that order, and no other host qualifies.
   */
  lemma SelectHostIsFirstNonEmpty(envHost: string, flagHost: string, host: string)
    ensures FirstNonEmpty([envHost, flagHost], host) <==> host == SelectHost(envHost, flagHost)
  {
    var c := [envHost, flagHost];
    if FirstNonEmpty(c, host) {
      if host == "" {
        assert c[0] == "" && c[1] == "";
      } else {
        var i :| 0 <= i < |c| && c[i] == host && forall j :: 0 <= j < i ==> c[j] == "";
        if i == 1 {
          assert c[0] == "";
        }
      }
    }
    if host == SelectHost(envHost, flagHost) && host != "" {
      if envHost != "" {
        assert c[0] == host;
      } else {
        assert c[1] == host && c[0] == "";
      }
    }
  }
}
