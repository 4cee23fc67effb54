/**
 * The manager: the profile store plus the topology it last detected.
 * `Detect` sorts every output the X server reports into three collections:
 * `active` (outputs driving a monitor, by fingerprint), `connected`
 * (fingerprinted outputs not already active, by fingerprint) and
 * `disconnected` (named outputs without a fingerprint, in the order reported).
 */
module Manager {
  import opened Wrappers
  import opened Monitor
  import Config
  import XRandr

  /** `active` after the first loop over `outputs`: each fingerprinted output under its fingerprint, later ones replacing earlier. */
  function ActiveMap(outputs: seq<Monitor>): map<string, Monitor>
  {
    if outputs == [] then map[]
    else
      var m := outputs[|outputs| - 1];
      var before := ActiveMap(outputs[..|outputs| - 1]);
      if m.edid.Some? then before[m.edid.value := m] else before
  }

  /** `connected` after the second loop over `outputs`, given the final `active` map. */
  function ConnectedMap(active: map<string, Monitor>, outputs: seq<Monitor>): map<string, Monitor>
  {
    if outputs == [] then map[]
    else
      var m := outputs[|outputs| - 1];
      var before := ConnectedMap(active, outputs[..|outputs| - 1]);
      if m.outputName.Some? && m.edid.Some? && m.edid.value !in active then before[m.edid.value := m] else before
  }

  /** `disconnected` after the second loop over `outputs`. */
  function Disconnected(outputs: seq<Monitor>): seq<Monitor>
  {
    if outputs == [] then []
    else
      var m := outputs[|outputs| - 1];
      var before := Disconnected(outputs[..|outputs| - 1]);
      if m.outputName.Some? && m.edid.None? then before + [m] else before
  }

  /** The fingerprints present among `outputs`. */
  function EdidsOf(outputs: seq<Monitor>): set<string>
  {
    set m | m in outputs && m.edid.Some? :: m.edid.value
  }

  /** The fingerprints of the named outputs among `outputs` that are not keys of `active`. */
  function InactiveEdidsOf(active: map<string, Monitor>, outputs: seq<Monitor>): set<string>
  {
    set m | m in outputs && m.outputName.Some? && m.edid.Some? && m.edid.value !in active :: m.edid.value
  }

  /**
   * The partition invariants of a detected topology: every active and
   * connected monitor is stored under its own fingerprint, connected ones are
   * named, the two maps share no fingerprint, and disconnected monitors are
   * named and have no fingerprint.
   */
  ghost predicate Partitioned(active: map<string, Monitor>, connected: map<string, Monitor>, disconnected: seq<Monitor>)
  {
    && (forall k :: k in active ==> active[k].edid == Some(k))
    && (forall k :: k in connected ==> connected[k].edid == Some(k) && connected[k].outputName.Some?)
    && active.Keys !! connected.Keys
    && (forall i :: 0 <= i < |disconnected| ==> disconnected[i].outputName.Some? && disconnected[i].edid.None?)
  }

  class Manager {
    const config: Config.Config
    var active: map<string, Monitor>
    var connected: map<string, Monitor>
    var disconnected: seq<Monitor>

    /** `Manager::from`: the given profile store and an empty topology. */
    constructor From(config: Config.Config)
      ensures this.config == config
      ensures active == map[] && connected == map[] && disconnected == []
    {
      this.config := config;
      active := map[];
      connected := map[];
      disconnected := [];
    }

    /**
     * `detect`, given what the X server reports: `activeOutputs`, the outputs
     * of every monitor it drives, and `allOutputs`, every output it has. The
     * previous topology is discarded; the new one depends on these two
     * sequences only.
     */
    method Detect(activeOutputs: seq<Monitor>, allOutputs: seq<Monitor>)
      modifies this
      ensures active == ActiveMap(activeOutputs)
      ensures connected == ConnectedMap(active, allOutputs)
      ensures disconnected == Disconnected(allOutputs)
      ensures Partitioned(active, connected, disconnected)
    {
      active := map[];
      connected := map[];
      disconnected := [];

      for i := 0 to |activeOutputs|
        invariant active == ActiveMap(activeOutputs[..i])
        invariant connected == map[] && disconnected == []
      {
        var m := activeOutputs[i];
        if m.edid.Some? {
          active := active[m.edid.value := m];
        }
        assert activeOutputs[..i + 1][..i] == activeOutputs[..i];
      }
      assert activeOutputs[..|activeOutputs|] == activeOutputs;

      for i := 0 to |allOutputs|
        invariant active == ActiveMap(activeOutputs)
        invariant connected == ConnectedMap(active, allOutputs[..i])
        invariant disconnected == Disconnected(allOutputs[..i])
      {
        var m := allOutputs[i];
        assert allOutputs[..i + 1][..i] == allOutputs[..i];
        match (m.outputName, m.edid)
        case (Some(_), Some(edid)) =>
          if edid in active {
            continue;
          }
          connected := connected[edid := m];
        case (Some(_), None) =>
          disconnected := disconnected + [m];
        case _ =>
          continue;
      }
      assert allOutputs[..|allOutputs|] == allOutputs;
      DetectPartitions(activeOutputs, allOutputs);
    }
  }

  lemma {:induction false} ActiveMapEntries(outputs: seq<Monitor>)
    ensures forall k :: k in ActiveMap(outputs) ==> ActiveMap(outputs)[k].edid == Some(k)
    ensures ActiveMap(outputs).Keys == EdidsOf(outputs)
  {
    if outputs != [] {
      var rest := outputs[..|outputs| - 1];
      ActiveMapEntries(rest);
      assert outputs == rest + [outputs[|outputs| - 1]];
    }
  }

  /** `outputs[i]` is the last of `outputs` with fingerprint `k`. */
  ghost predicate LastWith(outputs: seq<Monitor>, i: int, k: string)
  {
    0 <= i < |outputs| && outputs[i].edid == Some(k) &&
    forall j :: i < j < |outputs| ==> outputs[j].edid != Some(k)
  }

  /**
   * `HashMap::insert` replaces: the monitor stored under a fingerprint is the
   * last active output carrying it.
   */
  lemma {:induction false} ActiveMapLastWins(outputs: seq<Monitor>, k: string)
    requires k in ActiveMap(outputs)
    ensures exists i :: LastWith(outputs, i, k) && outputs[i] == ActiveMap(outputs)[k]
  {
    var rest, m := outputs[..|outputs| - 1], outputs[|outputs| - 1];
    if m.edid == Some(k) {
      assert LastWith(outputs, |outputs| - 1, k);
    } else {
      ActiveMapLastWins(rest, k);
      var i :| LastWith(rest, i, k) && rest[i] == ActiveMap(rest)[k];
      assert LastWith(outputs, i, k) && outputs[i] == ActiveMap(outputs)[k];
    }
  }

  lemma {:induction false} ConnectedMapEntries(active: map<string, Monitor>, outputs: seq<Monitor>)
    ensures forall k :: k in ConnectedMap(active, outputs) ==>
      ConnectedMap(active, outputs)[k].edid == Some(k) && ConnectedMap(active, outputs)[k].outputName.Some?
    ensures ConnectedMap(active, outputs).Keys == InactiveEdidsOf(active, outputs)
    ensures ConnectedMap(active, outputs).Keys !! active.Keys
  {
    if outputs != [] {
      var rest := outputs[..|outputs| - 1];
      ConnectedMapEntries(active, rest);
      assert outputs == rest + [outputs[|outputs| - 1]];
    }
  }

  /** A monitor is disconnected exactly when it is among the outputs, named, and has no fingerprint. */
  lemma {:induction false} DisconnectedMembers(outputs: seq<Monitor>)
    ensures forall m :: m in Disconnected(outputs) <==> m in outputs && m.outputName.Some? && m.edid.None?
  {
    if outputs != [] {
      var rest := outputs[..|outputs| - 1];
      DisconnectedMembers(rest);
      assert outputs == rest + [outputs[|outputs| - 1]];
    }
  }

  /** `disconnected` keeps the order the outputs were reported in. */
  lemma {:induction false} DisconnectedAppend(a: seq<Monitor>, b: seq<Monitor>)
    ensures Disconnected(a + b) == Disconnected(a) + Disconnected(b)
    decreases |b|
  {
    if b == [] {
      assert a + b == a;
    } else {
      var b' := b[..|b| - 1];
      assert (a + b)[..|a + b| - 1] == a + b';
      DisconnectedAppend(a, b');
    }
  }

  /** Whatever the X server reports, the detected topology is partitioned. */
  lemma DetectPartitions(activeOutputs: seq<Monitor>, allOutputs: seq<Monitor>)
    ensures Partitioned(ActiveMap(activeOutputs), ConnectedMap(ActiveMap(activeOutputs), allOutputs), Disconnected(allOutputs))
  {
    var active := ActiveMap(activeOutputs);
    ActiveMapEntries(activeOutputs);
    ConnectedMapEntries(active, allOutputs);
    var d := Disconnected(allOutputs);
    DisconnectedMembers(allOutputs);
    forall i | 0 <= i < |d| ensures d[i].outputName.Some? && d[i].edid.None? {
      assert d[i] in d;
    }
  }

  /**
   * An output without a name lands in neither `connected` nor `disconnected`.
   * The first loop of `detect` tests no name, so a nameless active output
   * with a fingerprint is stored in `active`.
   */
  lemma NamelessNowhere(activeOutputs: seq<Monitor>, allOutputs: seq<Monitor>, m: Monitor)
    requires m.outputName.None?
    ensures m !in ConnectedMap(ActiveMap(activeOutputs), allOutputs).Values
    ensures m !in Disconnected(allOutputs)
  {
    ConnectedMapEntries(ActiveMap(activeOutputs), allOutputs);
    DisconnectedMembers(allOutputs);
  }

  /** The monitors for a sequence of live outputs, as the X handle converts them. */
  function Converted(outputs: seq<XRandr.XOutput>): (r: seq<Monitor>)
    ensures |r| == |outputs|
    ensures forall i :: 0 <= i < |r| ==> r[i] == FromXOutput(outputs[i])
  {
    seq(|outputs|, i requires 0 <= i < |outputs| => FromXOutput(outputs[i]))
  }

  /**
   * Live outputs are always named, so none of them is skipped: a live output
   * with a fingerprint has it stored in `active` or `connected`, and one
   * without is disconnected.
   */
  lemma LiveOutputsNeverSkipped(activeOutputs: seq<Monitor>, outputs: seq<XRandr.XOutput>, i: nat)
    requires i < |outputs|
    ensures Converted(outputs)[i] in Disconnected(Converted(outputs)) <==> XRandr.Fingerprint(outputs[i]).None?
    ensures XRandr.Fingerprint(outputs[i]).Some? ==>
      var active := ActiveMap(activeOutputs);
      XRandr.Fingerprint(outputs[i]).value in active.Keys + ConnectedMap(active, Converted(outputs)).Keys
  {
    var all := Converted(outputs);
    DisconnectedMembers(all);
    ConnectedMapEntries(ActiveMap(activeOutputs), all);
    assert all[i] in all;
  }

  /**
   * Converted live outputs are always named, so on real X input every
   * monitor in `active` is named too, and no collection holds a nameless one.
   */
  lemma LiveActiveOutputsNamed(outputs: seq<XRandr.XOutput>)
    ensures forall k :: k in ActiveMap(Converted(outputs)) ==> ActiveMap(Converted(outputs))[k].outputName.Some?
  {
    var ms := Converted(outputs);
    forall k | k in ActiveMap(ms) ensures ActiveMap(ms)[k].outputName.Some? {
      ActiveMapLastWins(ms, k);
    }
  }
}
