/**
  The feature-flag registry of `pkg/features/features.go`: a table from names
  to features plus a sticky "everything" override. The Go methods mutate
  their `*FeatureSet` receiver; here every operation returns the new registry.
 */
module Features {
  import opened Wrappers

  /** The reserved name that switches the override on instead of naming a feature. */
  const Everything: string := "everything"

  /** A named toggle; the description has no effect on behaviour. */
  datatype Feature = Feature(name: string, description: string, enabled: bool)

  /** The registry: the feature table and the "everything" override bit. */
  datatype FeatureSet = FeatureSet(features: map<string, Feature>, everythingOn: bool)

  /** The only error the registry reports: enabling a name nobody registered. */
  datatype FeatureError = UnknownFeature(name: string)

  /** Every entry is stored under its own name. */
  ghost predicate WellFormed(fs: FeatureSet) {
    forall k :: k in fs.features ==> fs.features[k].name == k
  }

  /** A name `EnableFeature` accepts: the sentinel, or a registered feature. */
  predicate Known(fs: FeatureSet, name: string) {
    name == Everything || name in fs.features
  }

  /** The registry `NewFeatureSet` returns: no features, override off, nothing enabled. */
  function NewFeatureSet(): (fs: FeatureSet)
    ensures |fs.features| == 0 && !fs.everythingOn
    ensures WellFormed(fs)
    ensures forall n :: !IsEnabled(fs, n)
  {
    FeatureSet(map[], false)
  }

  /**
    `AddFeature`: registers `name`, replacing any earlier entry outright: the
    old description and enabled state are not merged in.
   */
  function AddFeature(fs: FeatureSet, name: string, description: string, enabled: bool): (r: FeatureSet)
    ensures r.features.Keys == fs.features.Keys + {name}
    ensures name in r.features && r.features[name] == Feature(name, description, enabled)
    ensures r.everythingOn == fs.everythingOn
  {
    fs.(features := fs.features[name := Feature(name, description, enabled)])
  }

  /** Registering one name leaves every other entry as it was. */
  lemma AddFeatureKeepsOthers(fs: FeatureSet, name: string, description: string, enabled: bool)
    ensures forall k :: k in fs.features && k != name ==>
              AddFeature(fs, name, description, enabled).features[k] == fs.features[k]
  {
  }

  /** Registering keeps every entry under its own name. */
  lemma AddFeatureWellFormed(fs: FeatureSet, name: string, description: string, enabled: bool)
    requires WellFormed(fs)
    ensures WellFormed(AddFeature(fs, name, description, enabled))
  {
  }

  /**
    Re-registering decides the answer of IsEnabled for that name afresh
    (unless the override is on), whatever was registered before, and leaves
    every other name's answer alone.
   */
  lemma AddFeatureIsEnabled(fs: FeatureSet, name: string, description: string, enabled: bool, x: string)
    ensures IsEnabled(AddFeature(fs, name, description, enabled), x)
            <==> if x == name then fs.everythingOn || enabled else IsEnabled(fs, x)
  {
  }

  /**
    `IsEnabled`: never fails. The override answers yes for every name;
    otherwise a registered name answers with its stored flag and an
    unregistered one answers no (fail closed).
   */
  predicate IsEnabled(fs: FeatureSet, name: string)
    ensures fs.everythingOn ==> IsEnabled(fs, name)
    ensures !fs.everythingOn && name !in fs.features ==> !IsEnabled(fs, name)
    ensures !fs.everythingOn && name in fs.features ==> (IsEnabled(fs, name) <==> fs.features[name].enabled)
  {
    if fs.everythingOn then true
    else if name !in fs.features then false
    else fs.features[name].enabled
  }

  /**
    `EnableFeature`: the sentinel sets the override and leaves the table
    alone; an unregistered name is an error and the registry is left as it
    was; a registered name gets its flag set and keeps its name and
    description, with every other entry and the override untouched.
   */
  function EnableFeature(fs: FeatureSet, name: string): (r: Result<FeatureSet, FeatureError>)
    ensures r.Ok? <==> Known(fs, name)
    ensures r.Err? ==> r.error == UnknownFeature(name)
    ensures name == Everything ==> r.Ok? && r.value.features == fs.features && r.value.everythingOn
    ensures name != Everything && r.Ok? ==>
              && r.value.everythingOn == fs.everythingOn
              && r.value.features.Keys == fs.features.Keys
              && r.value.features[name] == fs.features[name].(enabled := true)
              && forall k :: k in fs.features && k != name ==> r.value.features[k] == fs.features[k]
  {
    if name == Everything then Ok(fs.(everythingOn := true))
    else if name !in fs.features then Err(UnknownFeature(name))
    else Ok(fs.(features := fs.features[name := fs.features[name].(enabled := true)]))
  }

  /** Enabling keeps every entry under its own name. */
  lemma EnableFeatureWellFormed(fs: FeatureSet, name: string)
    requires WellFormed(fs)
    ensures EnableFeature(fs, name).Ok? ==> WellFormed(EnableFeature(fs, name).value)
  {
  }

  /** After a successful enable the name reads as enabled. */
  lemma EnableFeatureEnables(fs: FeatureSet, name: string)
    requires Known(fs, name)
    ensures EnableFeature(fs, name).Ok? && IsEnabled(EnableFeature(fs, name).value, name)
  {
  }

  /** Enabling twice succeeds twice and the second call changes nothing. */
  lemma EnableFeatureIdempotent(fs: FeatureSet, name: string)
    requires EnableFeature(fs, name).Ok?
    ensures EnableFeature(EnableFeature(fs, name).value, name) == EnableFeature(fs, name)
  {
    var fs1 := EnableFeature(fs, name).value;
    if name != Everything {
      assert fs1.features[name := fs1.features[name].(enabled := true)] == fs1.features;
    }
  }

  /** Enabling never turns anything off, the override included. */
  lemma EnableFeatureMonotone(fs: FeatureSet, name: string, x: string)
    requires EnableFeature(fs, name).Ok?
    ensures IsEnabled(fs, x) ==> IsEnabled(EnableFeature(fs, name).value, x)
    ensures fs.everythingOn ==> EnableFeature(fs, name).value.everythingOn
  {
  }

  /** After enabling the sentinel every string reads as enabled, registered or not. */
  lemma EnableEverythingEnablesAll(fs: FeatureSet)
    ensures EnableFeature(fs, Everything).Ok?
    ensures forall x :: IsEnabled(EnableFeature(fs, Everything).value, x)
  {
  }

  /**
    Enabling a registered feature without the override affects that name
    only: every other name reads as before.
   */
  lemma EnableFeatureIsPerName(fs: FeatureSet, name: string, other: string)
    requires name != Everything && name in fs.features
    requires other != name
    ensures IsEnabled(EnableFeature(fs, name).value, other) == IsEnabled(fs, other)
  {
  }

  // ---------------------------------------------------------------------------
  // Batch enabling
  // ---------------------------------------------------------------------------

  /**
    What a batch enable leaves behind. Go mutates the registry in place, so
    the changes made before a failure persist: `after` is the registry at
    the point the batch stopped and `failure` the error it returned, if any.
   */
  datatype BatchOutcome = BatchOutcome(after: FeatureSet, failure: Option<FeatureError>)

  /**
    `EnableFeatures`: `EnableFeature` over `names` from left to right,
    stopping at the first error. The table's key set never changes and the
    override is never switched off.
   */
  function EnableFeatures(fs: FeatureSet, names: seq<string>): (r: BatchOutcome)
    ensures r.after.features.Keys == fs.features.Keys
    ensures fs.everythingOn ==> r.after.everythingOn
    decreases |names|
  {
    if |names| == 0 then BatchOutcome(fs, None)
    else match EnableFeature(fs, names[0])
      case Err(e) => BatchOutcome(fs, Some(e))
      case Ok(fs1) => EnableFeatures(fs1, names[1..])
  }

  /** A batch never turns anything off, whether it succeeds or not. */
  lemma {:induction false} EnableFeaturesMonotone(fs: FeatureSet, names: seq<string>, x: string)
    requires IsEnabled(fs, x)
    ensures IsEnabled(EnableFeatures(fs, names).after, x)
    decreases |names|
  {
    if |names| > 0 {
      var r := EnableFeature(fs, names[0]);
      if r.Ok? {
        EnableFeatureMonotone(fs, names[0], x);
        EnableFeaturesMonotone(r.value, names[1..], x);
      }
    }
  }

  /** Every name of `names` is accepted by `EnableFeature`. */
  predicate AllKnown(fs: FeatureSet, names: seq<string>) {
    forall i :: 0 <= i < |names| ==> Known(fs, names[i])
  }

  /**
    The reference state after enabling every name of `names`, stated without
    a fold: each registered name listed gets its flag set, every other entry
    is kept, and the override is on when it was on already or the sentinel
    is listed. The sentinel never touches a table entry, even one that was
    registered under the name "everything".
   */
  function EnabledAfter(fs: FeatureSet, names: seq<string>): FeatureSet {
    FeatureSet(
      map k | k in fs.features ::
        if k in names && k != Everything then fs.features[k].(enabled := true) else fs.features[k],
      fs.everythingOn || Everything in names)
  }

  /** Enabling one known name then a list is enabling the longer list. */
  lemma EnabledAfterStep(fs: FeatureSet, n: string, rest: seq<string>)
    requires Known(fs, n)
    ensures EnabledAfter(EnableFeature(fs, n).value, rest) == EnabledAfter(fs, [n] + rest)
  {
    var fs1 := EnableFeature(fs, n).value;
    var lhs := EnabledAfter(fs1, rest);
    var rhs := EnabledAfter(fs, [n] + rest);
    assert lhs.features.Keys == rhs.features.Keys;
    forall k | k in lhs.features ensures lhs.features[k] == rhs.features[k] {
      assert k in [n] + rest <==> k == n || k in rest;
    }
    assert lhs.features == rhs.features;
  }

  /**
    Enabling never changes which names are accepted, so the names of a list
    after its head stay accepted once the head has been enabled.
   */
  lemma KnownAfterEnable(fs: FeatureSet, n: string, rest: seq<string>)
    requires Known(fs, n) && AllKnown(fs, [n] + rest)
    ensures AllKnown(EnableFeature(fs, n).value, rest)
  {
    forall i | 0 <= i < |rest| ensures Known(EnableFeature(fs, n).value, rest[i]) {
      assert rest[i] == ([n] + rest)[i + 1];
    }
  }

  /** Enabling nothing leaves the registry as it is. */
  lemma EnabledAfterNothing(fs: FeatureSet)
    ensures EnabledAfter(fs, []) == fs
  {
    assert EnabledAfter(fs, []).features == fs.features;
  }

  /** A list of known names succeeds and reaches the reference state. */
  lemma {:induction false} EnableFeaturesAllKnown(fs: FeatureSet, names: seq<string>)
    requires AllKnown(fs, names)
    ensures EnableFeatures(fs, names) == BatchOutcome(EnabledAfter(fs, names), None)
    decreases |names|
  {
    if |names| == 0 {
      EnabledAfterNothing(fs);
    } else {
      var fs1 := EnableFeature(fs, names[0]).value;
      KnownAfterEnable(fs, names[0], names[1..]);
      EnableFeaturesAllKnown(fs1, names[1..]);
      EnabledAfterStep(fs, names[0], names[1..]);
      assert [names[0]] + names[1..] == names;
    }
  }

  /**
    A batch whose first unknown name sits at index `i` fails with that name,
    keeps the effects of `names[..i]` and applies nothing after it.
   */
  lemma {:induction false} EnableFeaturesStopsAtFirstUnknown(fs: FeatureSet, names: seq<string>, i: nat)
    requires i < |names| && !Known(fs, names[i]) && AllKnown(fs, names[..i])
    ensures EnableFeatures(fs, names)
            == BatchOutcome(EnabledAfter(fs, names[..i]), Some(UnknownFeature(names[i])))
    decreases i
  {
    if i == 0 {
      EnabledAfterNothing(fs);
    } else {
      assert Known(fs, names[..i][0]);
      var fs1 := EnableFeature(fs, names[0]).value;
      var tail := names[1..];
      assert tail[i - 1] == names[i];
      var done := tail[..i - 1];
      assert done == names[..i][1..];
      KnownAfterEnable(fs, names[0], done);
      assert EnableFeatures(fs, names) == EnableFeatures(fs1, tail);
      assert !Known(fs1, tail[i - 1]);
      EnableFeaturesStopsAtFirstUnknown(fs1, tail, i - 1);
      assert [names[0]] + done == names[..i];
      EnabledAfterStep(fs, names[0], done);
    }
  }

  /** A batch fails exactly when one of its names is unknown. */
  lemma EnableFeaturesFailsIffUnknown(fs: FeatureSet, names: seq<string>)
    ensures EnableFeatures(fs, names).failure.None? <==> AllKnown(fs, names)
  {
    if AllKnown(fs, names) {
      EnableFeaturesAllKnown(fs, names);
    } else {
      var i := FirstUnknown(fs, names);
      EnableFeaturesStopsAtFirstUnknown(fs, names, i);
    }
  }

  /** The index of the first unknown name of a list that has one. */
  ghost function FirstUnknown(fs: FeatureSet, names: seq<string>): (i: nat)
    requires !AllKnown(fs, names)
    ensures i < |names| && !Known(fs, names[i]) && AllKnown(fs, names[..i])
    decreases |names|
  {
    if !Known(fs, names[0]) then 0
    else
      var j := FirstUnknown(fs, names[1..]);
      assert names[1..][..j] == names[1..j + 1];
      j + 1
  }

  /**
    After a successful batch a name reads as enabled exactly when it did
    before, or the batch listed the sentinel, or it is registered and listed.
    (A name registered as "everything" is only ever reached through the override.)
   */
  lemma EnableFeaturesIsEnabled(fs: FeatureSet, names: seq<string>, x: string)
    requires AllKnown(fs, names)
    ensures IsEnabled(EnableFeatures(fs, names).after, x)
            <==> IsEnabled(fs, x) || Everything in names || (x in fs.features && x in names)
  {
    EnableFeaturesAllKnown(fs, names);
  }

  /** Every step of a batch keeps entries under their own names. */
  lemma {:induction false} EnableFeaturesWellFormed(fs: FeatureSet, names: seq<string>)
    requires WellFormed(fs)
    ensures WellFormed(EnableFeatures(fs, names).after)
    decreases |names|
  {
    if |names| > 0 {
      var r := EnableFeature(fs, names[0]);
      if r.Ok? {
        EnableFeatureWellFormed(fs, names[0]);
        EnableFeaturesWellFormed(r.value, names[1..]);
      }
    }
  }
}
