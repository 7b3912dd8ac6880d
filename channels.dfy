/**
 * The channel switcher's settings module (Module): a map from a
 * distribution name to whether apt's source entry for it is enabled, and
 * one check box per release channel of the running distribution, checked
 * when that channel's dist is enabled.
 *
 * apt's source entries and the decoded release description are inputs;
 * the layout is the sequence of check boxes added to it.
 */
module Channels {

  /** A line of apt's sources: its distribution name and whether it is enabled. */
  datatype SourceEntry = SourceEntry(dist: string, enabled: bool)

  /** One element of the release description's "Releases" list. */
  datatype Release = Release(description: string, dist: string)

  /** The release description of the running distribution: "BaseURI", "Repos" and "Releases". */
  datatype ReleaseMap = ReleaseMap(baseURI: string, repos: seq<string>, releases: seq<Release>)

  /** A check box with its text, its state and the properties attached to it. */
  datatype CheckBox = CheckBox(text: string, checked: bool, dist: string, baseURI: string, repos: seq<string>)

  /** populateDists' effect: each entry in turn sets its dist to its enabled flag. */
  function RecordDists(m: map<string, bool>, entries: seq<SourceEntry>): map<string, bool>
    decreases |entries|
  {
    if entries == [] then m
    else
      var last := entries[|entries| - 1];
      RecordDists(m, entries[..|entries| - 1])[last.dist := last.enabled]
  }

  /** The map holds, for a dist, the flag of the LAST entry naming it. */
  lemma {:induction false} LastEntryWins(m: map<string, bool>, entries: seq<SourceEntry>, i: nat)
    requires i < |entries|
    requires forall j :: i < j < |entries| ==> entries[j].dist != entries[i].dist
    ensures entries[i].dist in RecordDists(m, entries)
    ensures RecordDists(m, entries)[entries[i].dist] == entries[i].enabled
    decreases |entries|
  {
    var n := |entries|;
    if i < n - 1 {
      var prefix := entries[..n - 1];
      assert prefix[i] == entries[i];
      forall j | i < j < |prefix|
        ensures prefix[j].dist != prefix[i].dist
      {
        assert prefix[j] == entries[j];
      }
      LastEntryWins(m, prefix, i);
    }
  }

  /** A dist no entry names keeps whatever the map had for it. */
  lemma {:induction false} UnlistedDistUnchanged(m: map<string, bool>, entries: seq<SourceEntry>, d: string)
    requires forall j :: 0 <= j < |entries| ==> entries[j].dist != d
    ensures d in RecordDists(m, entries) <==> d in m
    ensures d in m ==> RecordDists(m, entries)[d] == m[d]
    decreases |entries|
  {
    if entries != [] {
      var prefix := entries[..|entries| - 1];
      forall j | 0 <= j < |prefix|
        ensures prefix[j].dist != d
      {
        assert prefix[j] == entries[j];
      }
      UnlistedDistUnchanged(m, prefix, d);
    }
  }

  /** `m_distMap[dist]` read as a check state: a dist the map lacks reads as false. */
  function IsChecked(m: map<string, bool>, dist: string): bool
  {
    dist in m && m[dist]
  }

  /** The check box `load` makes for one release. */
  function BoxFor(m: map<string, bool>, baseURI: string, repos: seq<string>, r: Release): CheckBox
  {
    CheckBox(r.description, IsChecked(m, r.dist), r.dist, baseURI, repos)
  }

  /**
   * The boxes for the releases: one per release, in order, labelled with
   * its description, checked iff its dist is enabled in `m`, all carrying
   * the same base URI and repositories.
   */
  function Boxes(m: map<string, bool>, baseURI: string, repos: seq<string>, releases: seq<Release>): (boxes: seq<CheckBox>)
    ensures |boxes| == |releases|
    ensures forall i :: 0 <= i < |releases| ==>
      && boxes[i].text == releases[i].description
      && boxes[i].dist == releases[i].dist
      && (boxes[i].checked <==> releases[i].dist in m && m[releases[i].dist])
      && boxes[i].baseURI == baseURI
      && boxes[i].repos == repos
    decreases |releases|
  {
    if releases == [] then []
    else
      Boxes(m, baseURI, repos, releases[..|releases| - 1]) + [BoxFor(m, baseURI, repos, releases[|releases| - 1])]
  }

  /**
   * What reading `m_distMap[dist]` for each release leaves in the map:
   * the non-const operator[] adds `false` for a dist it does not hold.
   */
  function WithDefaults(m: map<string, bool>, releases: seq<Release>): map<string, bool>
    decreases |releases|
  {
    if releases == [] then m
    else
      var m' := WithDefaults(m, releases[..|releases| - 1]);
      var d := releases[|releases| - 1].dist;
      if d in m' then m' else m'[d := false]
  }

  /**
   * Those insertions add exactly the releases' unknown dists, all as false,
   * so no dist's check state changes.
   */
  lemma {:induction false} DefaultsKeepCheckState(m: map<string, bool>, releases: seq<Release>, d: string)
    ensures IsChecked(WithDefaults(m, releases), d) == IsChecked(m, d)
    ensures d in m ==> d in WithDefaults(m, releases) && WithDefaults(m, releases)[d] == m[d]
    ensures d in WithDefaults(m, releases) <==> d in m || exists i :: 0 <= i < |releases| && releases[i].dist == d
    decreases |releases|
  {
    if releases != [] {
      var n := |releases|;
      var prefix := releases[..n - 1];
      DefaultsKeepCheckState(m, prefix, d);
      if exists i :: 0 <= i < n - 1 && prefix[i].dist == d {
        var i :| 0 <= i < n - 1 && prefix[i].dist == d;
        assert releases[i] == prefix[i];
      }
      if exists i :: 0 <= i < n && releases[i].dist == d {
        var i :| 0 <= i < n && releases[i].dist == d;
        if i < n - 1 {
          assert prefix[i] == releases[i];
        }
      }
    }
  }

  /** Entry `k` is the last one naming its dist. */
  predicate IsLastFor(entries: seq<SourceEntry>, k: nat)
  {
    k < |entries| && forall j :: k < j < |entries| ==> entries[j].dist != entries[k].dist
  }

  /**
   * From apt's entries to a box: after populateDists on an empty map, the
   * box for a release is checked iff the last entry for its dist is
   * enabled, and unchecked when no entry names that dist.
   */
  lemma BoxFollowsLastEntry(entries: seq<SourceEntry>, baseURI: string, repos: seq<string>, releases: seq<Release>, i: nat)
    requires i < |releases|
    ensures (forall j :: 0 <= j < |entries| ==> entries[j].dist != releases[i].dist) ==>
      !Boxes(RecordDists(map[], entries), baseURI, repos, releases)[i].checked
    ensures forall k: nat :: IsLastFor(entries, k) && entries[k].dist == releases[i].dist ==>
      Boxes(RecordDists(map[], entries), baseURI, repos, releases)[i].checked == entries[k].enabled
  {
    var d := releases[i].dist;
    if forall j :: 0 <= j < |entries| ==> entries[j].dist != d {
      UnlistedDistUnchanged(map[], entries, d);
    }
    forall k: nat | IsLastFor(entries, k) && entries[k].dist == d
      ensures d in RecordDists(map[], entries) && RecordDists(map[], entries)[d] == entries[k].enabled
    {
      LastEntryWins(map[], entries, k);
    }
  }

  class Module {
    /** dist -> enabled, from apt's source entries */
    var distMap: map<string, bool>
    /** the check boxes added to the module's layout, in order */
    var layout: seq<CheckBox>

    /** The constructor fills the map from apt's source entries and adds no box. */
    constructor (entries: seq<SourceEntry>)
      ensures distMap == RecordDists(map[], entries)
      ensures layout == []
    {
      distMap := map[];
      layout := [];
      new;
      PopulateDists(entries);
    }

    /** Module::populateDists. */
    method PopulateDists(entries: seq<SourceEntry>)
      modifies this
      ensures distMap == RecordDists(old(distMap), entries)
      ensures layout == old(layout)
    {
      var i := 0;
      while i < |entries|
        invariant 0 <= i <= |entries|
        invariant distMap == RecordDists(old(distMap), entries[..i])
        invariant layout == old(layout)
      {
        assert entries[..i + 1][..i] == entries[..i];
        distMap := distMap[entries[i].dist := entries[i].enabled];
        i := i + 1;
      }
      assert entries[..|entries|] == entries;
    }

    /**
     * Module::load: one check box per release, appended to the layout,
     * checked according to the map as it was before the call.
     */
    method Load(release: ReleaseMap)
      modifies this
      ensures layout == old(layout) + Boxes(old(distMap), release.baseURI, release.repos, release.releases)
      ensures distMap == WithDefaults(old(distMap), release.releases)
    {
      var releases := release.releases;
      var i := 0;
      while i < |releases|
        invariant 0 <= i <= |releases|
        invariant distMap == WithDefaults(old(distMap), releases[..i])
        invariant layout == old(layout) + Boxes(old(distMap), release.baseURI, release.repos, releases[..i])
      {
        var prefix := releases[..i + 1];
        assert prefix[..i] == releases[..i];
        var description := releases[i].description;
        var dist := releases[i].dist;
        DefaultsKeepCheckState(old(distMap), releases[..i], dist);
        if dist !in distMap {
          distMap := distMap[dist := false];
        }
        var checked := distMap[dist];
        layout := layout + [CheckBox(description, checked, dist, release.baseURI, release.repos)];
        i := i + 1;
      }
      assert releases[..|releases|] == releases;
    }

    /** Module::toggleChannel only logs the box's properties. */
    method ToggleChannel(box: CheckBox)
      ensures unchanged(this)
    {
    }

    /** Module::save has an empty body. */
    method Save()
      ensures unchanged(this)
    {
    }

    /** Module::defaults has an empty body. */
    method Defaults()
      ensures unchanged(this)
    {
    }
  }
}
