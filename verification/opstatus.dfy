/** The one-hot write of the per-state status gauges shared by both versions of the exporter. */
module OpStatus {
  import opened Engine
  import opened Metrics

  /** The prefix every engine state name carries and every gauge label drops. */
  const Prefix: string := "UPDATE_STATUS_"

  predicate Prefixed(s: string)
  {
    |Prefix| <= |s| && s[..|Prefix|] == Prefix
  }

  /** Every state the exporter knows is prefixed, and no two are equal. */
  lemma StatesWellFormed()
    ensures forall i :: 0 <= i < |States| ==> Prefixed(States[i])
    ensures forall i, j :: 0 <= i < j < |States| ==> States[i] != States[j]
  {
  }

  /** The gauge label of a state: its name with the prefix sliced off. */
  function Label(state: string): (l: string)
    requires |Prefix| <= |state|
    ensures Prefixed(state) ==> Prefix + l == state
    ensures |l| == |state| - |Prefix|
  {
    state[|Prefix|..]
  }

  /** The status gauge of one state. */
  function StatusKey(state: string): Key
    requires |Prefix| <= |state|
  {
    StatusOp(Label(state))
  }

  ghost predicate AllPrefixed(states: seq<string>)
  {
    forall i :: 0 <= i < |states| ==> Prefixed(states[i])
  }

  /** The status gauges of a list of states. */
  ghost function KeysOf(states: seq<string>): set<Key>
    requires AllPrefixed(states)
  {
    set i | 0 <= i < |states| :: StatusKey(states[i])
  }

  /** The status gauges of the eight known states. */
  ghost function StatusKeys(): set<Key>
  {
    set i | 0 <= i < |Labels| :: StatusOp(Labels[i])
  }

  /**
   * Writes the status gauge of each state in `states`, in order: 1 for the state equal
   * to `newstate`, 0 for every other one.
   */
  function WriteStatuses(g: Gauges, newstate: string, states: seq<string>): Gauges
    requires AllPrefixed(states)
    decreases |states|
  {
    if |states| == 0 then g
    else WriteStatuses(g[StatusKey(states[0]) := Indicator(states[0] == newstate)], newstate, states[1..])
  }

  /**
   * After the writes, each state's gauge holds 1 or 0 by whether it equals `newstate`,
   * the registry gained exactly those gauges, and every other gauge kept its value.
   */
  lemma {:induction false} WriteStatusesWrites(g: Gauges, newstate: string, states: seq<string>)
    requires AllPrefixed(states)
    ensures var r := WriteStatuses(g, newstate, states);
      forall i :: 0 <= i < |states| ==>
        StatusKey(states[i]) in r && r[StatusKey(states[i])] == Indicator(states[i] == newstate)
    ensures WriteStatuses(g, newstate, states).Keys == g.Keys + KeysOf(states)
    ensures forall k :: k in g && k !in KeysOf(states) ==> WriteStatuses(g, newstate, states)[k] == g[k]
    decreases |states|
  {
    if |states| > 0 {
      var rest := states[1..];
      var g1 := g[StatusKey(states[0]) := Indicator(states[0] == newstate)];
      assert KeysOf(states) == {StatusKey(states[0])} + KeysOf(rest) by {
        forall k | k in KeysOf(states) ensures k in {StatusKey(states[0])} + KeysOf(rest) {
          var i :| 0 <= i < |states| && k == StatusKey(states[i]);
          if i > 0 { assert k == StatusKey(rest[i - 1]); }
        }
      }
      WriteStatusesWrites(g1, newstate, rest);
      forall i | 0 <= i < |states|
        ensures StatusKey(states[i]) in WriteStatuses(g, newstate, states)
        ensures WriteStatuses(g, newstate, states)[StatusKey(states[i])] == Indicator(states[i] == newstate)
      {
        if i > 0 { assert states[i] == rest[i - 1]; }
        else if StatusKey(states[0]) in KeysOf(rest) {
          var j :| 0 <= j < |rest| && StatusKey(states[0]) == StatusKey(rest[j]);
          assert Prefix + Label(states[0]) == states[0] && Prefix + Label(rest[j]) == rest[j];
        }
      }
    }
  }

  /** The gauge labels of the eight known states, in the same order. */
  const Labels: seq<string> := [
    "IDLE", "CHECKING_FOR_UPDATE", "UPDATE_AVAILABLE", "DOWNLOADING",
    "VERIFYING", "FINALIZING", "UPDATED_NEED_REBOOT", "REPORTING_ERROR_EVENT"
  ]

  /** The label table spelled out: each entry is a state's name with the prefix sliced off. */
  lemma LabelsTable()
    ensures Labels == [
      Label(Idle), Label(CheckingForUpdate), Label(UpdateAvailable), Label(Downloading),
      Label(Verifying), Label(Finalizing), Label(UpdatedNeedReboot), Label(ReportingErrorEvent)
    ]
  {
    assert Label(Idle) == "IDLE";
    assert Label(CheckingForUpdate) == "CHECKING_FOR_UPDATE";
    assert Label(UpdateAvailable) == "UPDATE_AVAILABLE";
    assert Label(Downloading) == "DOWNLOADING";
    assert Label(Verifying) == "VERIFYING";
    assert Label(Finalizing) == "FINALIZING";
    assert Label(UpdatedNeedReboot) == "UPDATED_NEED_REBOOT";
    assert Label(ReportingErrorEvent) == "REPORTING_ERROR_EVENT";
  }

  /** Each label is its state's name with the prefix sliced off. */
  lemma LabelsOfStates()
    ensures |Labels| == |States|
    ensures forall i :: 0 <= i < |States| ==> |Prefix| <= |States[i]| && Label(States[i]) == Labels[i]
  {
    LabelsTable();
  }

  /**
   * The reference table of one write: the gauge of each known state, under its label,
   * reads 1 when the state is `newstate` and 0 otherwise.
   */
  function StatusGauges(newstate: string): (m: Gauges)
    ensures forall k :: k in m ==> k.StatusOp?
  {
    map i | 0 <= i < |Labels| && i < |States| :: StatusOp(Labels[i]) := Indicator(States[i] == newstate)
  }

  /** The table holds a gauge for each known state, 1 for `newstate` and 0 for the others. */
  lemma StatusGaugesValues(newstate: string)
    ensures |Labels| == |States|
    ensures forall i :: 0 <= i < |States| ==>
      StatusOp(Labels[i]) in StatusGauges(newstate)
      && StatusGauges(newstate)[StatusOp(Labels[i])] == Indicator(States[i] == newstate)
  {
  }

  /** The eight writes of `updateOpstatus` leave the registry overlaid with the table. */
  lemma WritesMatchTable(g: Gauges, newstate: string)
    requires AllPrefixed(States)
    ensures WriteStatuses(g, newstate, States) == g + StatusGauges(newstate)
  {
    var r := WriteStatuses(g, newstate, States);
    var m := StatusGauges(newstate);
    LabelsOfStates();
    StatusGaugesValues(newstate);
    WriteStatusesWrites(g, newstate, States);
    assert m.Keys == KeysOf(States) by {
      forall k | k in KeysOf(States) ensures k in m {
        var i :| 0 <= i < |States| && k == StatusKey(States[i]);
      }
      forall k | k in m ensures k in KeysOf(States) {
        var i :| 0 <= i < |Labels| && i < |States| && k == StatusOp(Labels[i]);
        assert k == StatusKey(States[i]);
      }
    }
    forall k | k in KeysOf(States) ensures r[k] == m[k] {
      var i :| 0 <= i < |States| && k == StatusKey(States[i]);
    }
    OverlayFromFrame(g, r, m, KeysOf(States));
  }

  /**
   * `updateOpstatus`: writes the status gauge of every known state in turn, and so leaves
   * the registry overlaid with the reference table of `newstate`.
   */
  function UpdateOpstatus(g: Gauges, newstate: string): (r: Gauges)
    ensures r == g + StatusGauges(newstate)
  {
    StatesWellFormed();
    WritesMatchTable(g, newstate);
    WriteStatuses(g, newstate, States)
  }

  /** A registry that adds the keys `ks` with the values of `m` and keeps the rest is `g + m`. */
  lemma OverlayFromFrame(g: Gauges, r: Gauges, m: Gauges, ks: set<Key>)
    requires r.Keys == g.Keys + ks && m.Keys == ks
    requires forall k :: k in g && k !in ks ==> r[k] == g[k]
    requires forall k :: k in ks ==> r[k] == m[k]
    ensures r == g + m
  {
  }

  /** `updateOpstatus` adds exactly the eight status gauges and keeps every other gauge. */
  lemma UpdateOpstatusFrame(g: Gauges, newstate: string)
    ensures UpdateOpstatus(g, newstate).Keys == g.Keys + StatusKeys()
    ensures forall k :: k in g && k !in StatusKeys() ==> UpdateOpstatus(g, newstate)[k] == g[k]
  {
    StatusGaugesValues(newstate);
    assert StatusGauges(newstate).Keys == StatusKeys();
  }

  /** The labels whose status gauge currently reads 1. */
  ghost function Winners(g: Gauges): set<string>
  {
    set i | 0 <= i < |Labels| && StatusOp(Labels[i]) in g && g[StatusOp(Labels[i])] == 1.0
      :: Labels[i]
  }

  /** The labels of the known states equal to `newstate`: the winners a write of it leaves. */
  ghost function WinnersFor(newstate: string): set<string>
  {
    set i | 0 <= i < |States| && i < |Labels| && States[i] == newstate :: Labels[i]
  }

  /** A known state wins alone under its own label; anything else has no winner. */
  lemma WinnersForStates(newstate: string)
    ensures newstate in States ==> |Prefix| <= |newstate| && WinnersFor(newstate) == {Label(newstate)}
    ensures newstate !in States ==> WinnersFor(newstate) == {}
  {
    LabelsOfStates();
    StatesWellFormed();
    if newstate in States {
      var i :| 0 <= i < |States| && States[i] == newstate;
      assert Labels[i] in WinnersFor(newstate);
    }
  }

  /**
   * The status gauges show `s`: the gauge of every known state is present and reads 1 when
   * that state is `s` and 0 otherwise, so all eight read 0 when `s` is not a known state.
   */
  ghost predicate OneHotOn(g: Gauges, s: string)
  {
    forall i | 0 <= i < |States| && i < |Labels| ::
      StatusOp(Labels[i]) in g && g[StatusOp(Labels[i])] == Indicator(States[i] == s)
  }

  /** When the status gauges show `s`, the labels reading 1 are those of the known states equal to `s`. */
  lemma OneHotWinners(g: Gauges, s: string)
    requires OneHotOn(g, s)
    ensures Winners(g) == WinnersFor(s)
  {
    LabelsOfStates();
    forall l | l in Winners(g) ensures l in WinnersFor(s) {
      var i :| 0 <= i < |Labels| && StatusOp(Labels[i]) in g && g[StatusOp(Labels[i])] == 1.0
        && l == Labels[i];
    }
    forall l | l in WinnersFor(s) ensures l in Winners(g) {
      var i :| 0 <= i < |States| && i < |Labels| && States[i] == s && l == Labels[i];
    }
  }

  /** Whether the status gauges show `s` depends only on the status-metric gauges. */
  lemma OneHotDependsOnStatusOps(g: Gauges, h: Gauges, s: string)
    requires forall k: Key :: k.StatusOp? ==> (k in g <==> k in h) && (k in g ==> g[k] == h[k])
    requires OneHotOn(g, s)
    ensures OneHotOn(h, s)
  {
  }

  /**
   * After `updateOpstatus(newstate)` the status gauges show `newstate`: the gauges reading 1
   * are exactly those of the known states equal to it, and every other one reads 0.
   */
  lemma UpdateOpstatusOneHot(g: Gauges, newstate: string)
    ensures OneHotOn(UpdateOpstatus(g, newstate), newstate)
    ensures Winners(UpdateOpstatus(g, newstate)) == WinnersFor(newstate)
    ensures forall i :: 0 <= i < |States| ==>
      (UpdateOpstatus(g, newstate)[StatusOp(Labels[i])] == 0.0 <==> States[i] != newstate)
  {
    StatusGaugesValues(newstate);
    OneHotWinners(UpdateOpstatus(g, newstate), newstate);
  }

  /** The status gauges of the known states are all status-metric gauges. */
  lemma StatusKeysAreStatusOps()
    ensures forall k :: k in StatusKeys() ==> k.StatusOp?
  {
  }

  /** Which labels win depends only on the status-metric gauges. */
  lemma WinnersDependOnStatusOps(g: Gauges, h: Gauges)
    requires forall k: Key :: k.StatusOp? ==> (k in g <==> k in h) && (k in g ==> g[k] == h[k])
    ensures Winners(g) == Winners(h)
  {
  }

  /** Writing a non-status gauge before or after the status gauges gives the same registry. */
  lemma UpdateOpstatusCommutes(g: Gauges, k: Key, v: real, newstate: string)
    requires !k.StatusOp?
    ensures UpdateOpstatus(g[k := v], newstate) == UpdateOpstatus(g, newstate)[k := v]
  {
    var m := StatusGauges(newstate);
    assert k !in m;
    assert g[k := v] + m == (g + m)[k := v];
  }

  /** Writing the same state twice leaves the registry as writing it once. */
  lemma UpdateOpstatusIdempotent(g: Gauges, newstate: string)
    ensures UpdateOpstatus(UpdateOpstatus(g, newstate), newstate) == UpdateOpstatus(g, newstate)
  {
    var m := StatusGauges(newstate);
    assert (g + m) + m == g + m;
  }
}
