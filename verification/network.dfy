/** The per-task network description that `simu` hands to the hydraulic
    simulator, and the measurement vector read back from its answer. */
module Network {
  import opened Common

  /** A value in one element's record: a number, or anything else the
      network tables carry (names, identifiers). */
  datatype Field = Real(x: real) | Text(t: string)

  /** One row of a network table, as a Python dictionary. */
  type Record = map<string, Field>

  /** The network description: the terminal-user, heat-source and pipe
      tables the calibration rewrites, and the remaining tables by name. */
  datatype Network = Network(
    users: seq<Record>,
    boilers: seq<Record>,
    pipes: seq<Record>,
    others: map<string, seq<Record>>)

  /** One operating condition: a flow per terminal user and a flow per
      heat source. */
  datatype Scenario = Scenario(userFlows: seq<real>, boilerFlows: seq<real>)

  /** `list(map(lambda d, v: {**d, field: v}, recs, vals))`: each record
      with `field` set to the matching value; Python's `map` stops at the
      shorter of the two lists. */
  function Overwrite(recs: seq<Record>, field: string, vals: seq<real>): (r: seq<Record>)
    ensures |r| == Min(|recs|, |vals|)
    ensures forall i :: 0 <= i < |r| ==>
      && r[i].Keys == recs[i].Keys + {field}
      && field in r[i] && r[i][field] == Real(vals[i])
      && (forall f :: f in recs[i] ==> f in r[i])
      && (forall f :: f in recs[i] && f != field ==> r[i][f] == recs[i][f])
  {
    seq(Min(|recs|, |vals|), i requires 0 <= i < Min(|recs|, |vals|) => recs[i][field := Real(vals[i])])
  }

  /** The numeric values stored under `field`, record by record, while
      every record holds a number there. */
  function ReadField(recs: seq<Record>, field: string): seq<real>
  {
    if |recs| == 0 || field !in recs[0] || !recs[0][field].Real? then []
    else [recs[0][field].x] + ReadField(recs[1..], field)
  }

  /** Reading back a field just written returns the written values. */
  lemma ReadOverwrite(recs: seq<Record>, field: string, vals: seq<real>)
    ensures ReadField(Overwrite(recs, field, vals), field) == vals[..Min(|recs|, |vals|)]
  {
    ReadFieldAll(Overwrite(recs, field, vals), field, vals[..Min(|recs|, |vals|)]);
  }

  /** A table whose every record holds the matching number under
      `field` reads back exactly those numbers. */
  lemma {:induction false} ReadFieldAll(recs: seq<Record>, field: string, vals: seq<real>)
    requires |recs| == |vals|
    requires forall i :: 0 <= i < |recs| ==> field in recs[i] && recs[i][field] == Real(vals[i])
    ensures ReadField(recs, field) == vals
    decreases |recs|
  {
    if |recs| > 0 {
      ReadFieldAll(recs[1..], field, vals[1..]);
      assert vals == [vals[0]] + vals[1..];
    }
  }

  /** Micrometres to metres (the `* 1e-6` of the roughness conversion),
      over exact reals. */
  function ToMetres(x: Vec): (r: Vec)
    ensures |r| == |x|
    ensures forall k :: 0 <= k < |x| ==> r[k] * 1000000.0 == x[k]
  {
    seq(|x|, k requires 0 <= k < |x| => x[k] / 1000000.0)
  }

  /** The description one task simulates: the base network with the
      scenario's user flows in `m`, its heat-source flows in both `m_1`
      and `m_2`, and the candidate's roughness (in metres) in `roughness`. */
  function Merge(base: Network, sc: Scenario, candidate: Vec): (n: Network)
    ensures n.others == base.others
    ensures |n.users| == Min(|base.users|, |sc.userFlows|)
    ensures |n.boilers| == Min(|base.boilers|, |sc.boilerFlows|)
    ensures |n.pipes| == Min(|base.pipes|, |candidate|)
    ensures forall u :: 0 <= u < |n.users| ==> n.users[u].Keys == base.users[u].Keys + {"m"}
    ensures forall b :: 0 <= b < |n.boilers| ==> n.boilers[b].Keys == base.boilers[b].Keys + {"m_1", "m_2"}
    ensures forall p :: 0 <= p < |n.pipes| ==> n.pipes[p].Keys == base.pipes[p].Keys + {"roughness"}
    ensures forall u :: 0 <= u < |n.users| ==> "m" in n.users[u] && n.users[u]["m"] == Real(sc.userFlows[u])
    ensures forall b :: 0 <= b < |n.boilers| ==>
      && "m_1" in n.boilers[b] && "m_2" in n.boilers[b]
      && n.boilers[b]["m_1"] == n.boilers[b]["m_2"] == Real(sc.boilerFlows[b])
    ensures forall p :: 0 <= p < |n.pipes| ==>
      "roughness" in n.pipes[p] && n.pipes[p]["roughness"].Real? && n.pipes[p]["roughness"].x * 1000000.0 == candidate[p]
    ensures forall u, f :: 0 <= u < |n.users| && f in base.users[u] && f != "m" ==>
      f in n.users[u] && n.users[u][f] == base.users[u][f]
    ensures forall b, f :: 0 <= b < |n.boilers| && f in base.boilers[b] && f != "m_1" && f != "m_2" ==>
      f in n.boilers[b] && n.boilers[b][f] == base.boilers[b][f]
    ensures forall p, f :: 0 <= p < |n.pipes| && f in base.pipes[p] && f != "roughness" ==>
      f in n.pipes[p] && n.pipes[p][f] == base.pipes[p][f]
  {
    var users := Overwrite(base.users, "m", sc.userFlows);
    var b1 := Overwrite(base.boilers, "m_1", sc.boilerFlows);
    var boilers := Overwrite(b1, "m_2", sc.boilerFlows);
    assert forall b :: 0 <= b < |boilers| ==> "m_1" in b1[b] && "m_1" in boilers[b];
    var pipes := Overwrite(base.pipes, "roughness", ToMetres(candidate));
    Network(users, boilers, pipes, base.others)
  }

  /** When the tables and the inputs have matching lengths, the scenario
      and the candidate can be read back out of the merged description. */
  lemma MergeRecoversInputs(base: Network, sc: Scenario, candidate: Vec)
    requires |base.users| == |sc.userFlows|
    requires |base.boilers| == |sc.boilerFlows|
    requires |base.pipes| == |candidate|
    ensures ReadField(Merge(base, sc, candidate).users, "m") == sc.userFlows
    ensures ReadField(Merge(base, sc, candidate).boilers, "m_1") == sc.boilerFlows
    ensures ReadField(Merge(base, sc, candidate).boilers, "m_2") == sc.boilerFlows
    ensures ToMetres(candidate) == ReadField(Merge(base, sc, candidate).pipes, "roughness")
  {
    ReadOverwrite(base.users, "m", sc.userFlows);
    var b1 := Overwrite(base.boilers, "m_1", sc.boilerFlows);
    var b2 := Overwrite(b1, "m_2", sc.boilerFlows);
    ReadOverwrite(b1, "m_2", sc.boilerFlows);
    ReadFieldUntouched(b1, b2, "m_1");
    ReadOverwrite(base.boilers, "m_1", sc.boilerFlows);
    ReadOverwrite(base.pipes, "roughness", ToMetres(candidate));
  }

  /** Two tables that agree on `field` read the same values from it. */
  lemma {:induction false} ReadFieldUntouched(a: seq<Record>, b: seq<Record>, field: string)
    requires |a| == |b|
    requires forall i :: 0 <= i < |a| ==> (field in a[i] <==> field in b[i])
    requires forall i :: 0 <= i < |a| && field in a[i] ==> a[i][field] == b[i][field]
    ensures ReadField(a, field) == ReadField(b, field)
    decreases |a|
  {
    if |a| > 0 {
      ReadFieldUntouched(a[1..], b[1..], field);
    }
  }

  /** Pressures reported by the simulator for one terminal user. */
  datatype UserResult = UserResult(p1: real, p2: real)

  /** The simulator's answer: a status (1 for a converged run) and the
      terminal-user results in network order. */
  datatype SimOutput = SimOutput(state: int, users: seq<UserResult>)

  /** `get_result_json`: every user's `p_1`, then every user's `p_2`. */
  function ResultVector(users: seq<UserResult>): (v: Vec)
    ensures |v| == 2 * |users|
    ensures forall i :: 0 <= i < |users| ==> v[i] == users[i].p1 && v[|users| + i] == users[i].p2
  {
    seq(|users|, i requires 0 <= i < |users| => users[i].p1)
      + seq(|users|, i requires 0 <= i < |users| => users[i].p2)
  }

  /** Pairs the first half of a measurement vector with its second half. */
  function SplitResult(v: Vec): (users: seq<UserResult>)
    requires |v| % 2 == 0
    ensures |users| == |v| / 2
  {
    seq(|v| / 2, i requires 0 <= i < |v| / 2 => UserResult(v[i], v[|v| / 2 + i]))
  }

  /** The measurement vector loses nothing: splitting it gives back the
      per-user results. */
  lemma ResultVectorRoundTrip(users: seq<UserResult>)
    ensures SplitResult(ResultVector(users)) == users
  {
  }
}
