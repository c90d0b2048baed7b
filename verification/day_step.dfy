/**
  One simulated day of the epidemic over the contact graph
  (`time_step_simulation`). Each node carries a health value: -2 dead,
  -1 recovered, 0 susceptible, k >= 1 infected for k days. Every node that is
  infected at the start of the day may infect each susceptible neighbour, and
  then advances one day, dies or recovers. All new health values are collected
  in a map and written back in one batch at the end, so every decision reads
  the start-of-day values.

  The Bernoulli draw with the neighbour's infectivity is an oracle
  `coin(src, dst)`: true when infected node `src` passes the disease to its
  susceptible neighbour `dst` today.
 */
module DayStep {
  import opened Graphs

  const Dead: int := -2
  const Recovered: int := -1
  const Susceptible: int := 0
  /** The outcome day that marks a fatal infection. */
  const DeathDay: int := 18

  datatype RiskGroup = HighRisk | LowRisk

  /** The node attributes the day step reads and writes. */
  datatype Person = Person(health: int, outcome: int, risk: RiskGroup)

  /** A counter split by risk group, in the (high_risk, low_risk) order of the
      returned tuples. */
  datatype Tally = Tally(highRisk: nat, lowRisk: nat)
  {
    function Add(r: RiskGroup): (t: Tally)
      ensures t.Of(r) == Of(r) + 1
      ensures forall q :: q != r ==> t.Of(q) == Of(q)
    {
      match r
      case HighRisk => this.(highRisk := highRisk + 1)
      case LowRisk => this.(lowRisk := lowRisk + 1)
    }

    function Of(r: RiskGroup): nat
    {
      match r
      case HighRisk => highRisk
      case LowRisk => lowRisk
    }
  }

  const NoOne := Tally(0, 0)

  /** The oracle standing for `binomial(1, infectivity of dst) == 1`. */
  type Coin = (nat, nat) -> bool

  /** The contact graph has exactly one node per person. */
  predicate WellFormed(g: Graph, people: seq<Person>)
  {
    Valid(g) && g.n == |people|
  }

  /** An infected node whose illness has reached its outcome day and is fatal. */
  predicate Dies(p: Person)
  {
    p.health > 0 && p.health >= p.outcome && p.outcome == DeathDay
  }

  /** An infected node whose illness has reached its outcome day and is not fatal. */
  predicate Recovers(p: Person)
  {
    p.health > 0 && p.health >= p.outcome && p.outcome != DeathDay
  }

  /** Start-of-day infected `u` infects its start-of-day susceptible neighbour `v`. */
  predicate Transmits(g: Graph, people: seq<Person>, coin: Coin, u: nat, v: nat)
    requires u < |people| && v < |people|
  {
    people[u].health > 0 && people[v].health == Susceptible && Adjacent(g, u, v) && coin(u, v)
  }

  /** Some start-of-day infected neighbour of `v` infects it. */
  predicate Caught(g: Graph, people: seq<Person>, coin: Coin, v: nat)
    requires v < |people|
  {
    exists u: nat :: u < |people| && Transmits(g, people, coin, u, v)
  }

  /** The same, counting only the sources below `k`. */
  predicate CaughtBelow(g: Graph, people: seq<Person>, coin: Coin, v: nat, k: nat)
    requires v < |people|
  {
    exists u: nat :: u < k && u < |people| && Transmits(g, people, coin, u, v)
  }

  /** The nodes below `k` of risk group `r` that die today. */
  function DeathsBelow(people: seq<Person>, k: nat, r: RiskGroup): set<nat>
  {
    set v: nat | v < k && v < |people| && Dies(people[v]) && people[v].risk == r
  }

  /** The nodes below `k` of risk group `r` that recover today. */
  function RecoveriesBelow(people: seq<Person>, k: nat, r: RiskGroup): set<nat>
  {
    set v: nat | v < k && v < |people| && Recovers(people[v]) && people[v].risk == r
  }

  /** The successful (source, target) draws whose target is in risk group `r`,
      for the pairs visited before `(x1, x2)` in the day's scan. */
  function TransmissionsBefore(g: Graph, people: seq<Person>, coin: Coin, x1: nat, x2: nat, r: RiskGroup): set<(nat, nat)>
  {
    set u: nat, v: nat | u < |people| && v < |people| && (u < x1 || (u == x1 && v < x2))
                         && Transmits(g, people, coin, u, v) && people[v].risk == r :: (u, v)
  }

  function TransmissionTally(g: Graph, people: seq<Person>, coin: Coin, x1: nat, x2: nat): Tally
  {
    Tally(|TransmissionsBefore(g, people, coin, x1, x2, HighRisk)|,
          |TransmissionsBefore(g, people, coin, x1, x2, LowRisk)|)
  }

  function DeathTally(people: seq<Person>, k: nat): Tally
  {
    Tally(|DeathsBelow(people, k, HighRisk)|, |DeathsBelow(people, k, LowRisk)|)
  }

  function RecoveryTally(people: seq<Person>, k: nat): Tally
  {
    Tally(|RecoveriesBelow(people, k, HighRisk)|, |RecoveriesBelow(people, k, LowRisk)|)
  }

  /** The health an infected node moves to at the end of the day. */
  function Progress(p: Person): int
  {
    if p.health < p.outcome then p.health + 1
    else if p.outcome == DeathDay then Dead
    else Recovered
  }

  /** How every node's record at the end of the day relates to the
      start-of-day records: only health changes; negative health values are
      left alone; a susceptible node is infected (health 1) exactly when some
      start-of-day infected neighbour's draw succeeds; an infected node
      advances one day until its outcome day, then dies if the outcome is the
      fatal one and recovers otherwise. */
  predicate DayEnd(g: Graph, people: seq<Person>, coin: Coin, next: seq<Person>)
  {
    && |next| == |people|
    && (forall v :: 0 <= v < |people| ==>
          next[v].outcome == people[v].outcome && next[v].risk == people[v].risk)
    && (forall v :: 0 <= v < |people| && people[v].health < 0 ==> next[v] == people[v])
    && (forall v :: 0 <= v < |people| && people[v].health == Susceptible ==>
          next[v].health == (if Caught(g, people, coin, v) then 1 else Susceptible))
    && (forall v :: 0 <= v < |people| && people[v].health > 0 && people[v].health < people[v].outcome ==>
          next[v].health == people[v].health + 1)
    && (forall v :: 0 <= v < |people| && Dies(people[v]) ==> next[v].health == Dead)
    && (forall v :: 0 <= v < |people| && Recovers(people[v]) ==> next[v].health == Recovered)
  }

  /** The state of `health_dict` once the sources below `x1` are done and
      source `x1` has scanned the targets below `x2` (its own entry not yet
      written). */
  ghost predicate Pending(g: Graph, people: seq<Person>, coin: Coin, hd: map<nat, int>, x1: nat, x2: nat)
  {
    && (forall v :: v in hd ==> v < |people| && people[v].health >= 0)
    && (forall v: nat :: v < |people| && people[v].health > 0 ==>
          (v in hd <==> v < x1) && (v in hd ==> hd[v] == Progress(people[v])))
    && (forall v: nat :: v < |people| && people[v].health == Susceptible ==>
          (v in hd <==> (CaughtBelow(g, people, coin, v, x1) || (x1 < |people| && v < x2 && Transmits(g, people, coin, x1, v))))
          && (v in hd ==> hd[v] == 1))
  }

  /** Simulates one day. Returns the people with their new health and the
      day's deaths, recoveries and infections by risk group. The graph is a
      value and is not changed. */
  method TimeStep(g: Graph, people: seq<Person>, coin: Coin)
    returns (next: seq<Person>, deaths: Tally, recoveries: Tally, infections: Tally)
    requires WellFormed(g, people)
    ensures DayEnd(g, people, coin, next)
    ensures deaths == Tally(|DeathsBelow(people, |people|, HighRisk)|, |DeathsBelow(people, |people|, LowRisk)|)
    ensures recoveries == Tally(|RecoveriesBelow(people, |people|, HighRisk)|, |RecoveriesBelow(people, |people|, LowRisk)|)
    ensures infections == Tally(|TransmissionsBefore(g, people, coin, |people|, 0, HighRisk)|,
                                |TransmissionsBefore(g, people, coin, |people|, 0, LowRisk)|)
  {
    var healthDict;
    healthDict, deaths, recoveries, infections := VisitAll(g, people, coin);
    next := Apply(people, healthDict);
    BatchApplied(g, people, coin, healthDict);
  }

  /** The outer loop over all nodes: collects the new health of every node
      that changes and counts the day's events. */
  method VisitAll(g: Graph, people: seq<Person>, coin: Coin)
    returns (healthDict: map<nat, int>, deaths: Tally, recoveries: Tally, infections: Tally)
    ensures Pending(g, people, coin, healthDict, |people|, 0)
    ensures deaths == DeathTally(people, |people|) && recoveries == RecoveryTally(people, |people|)
    ensures infections == TransmissionTally(g, people, coin, |people|, 0)
  {
    var n := |people|;
    healthDict := map[];
    deaths, recoveries, infections := NoOne, NoOne, NoOne;
    var x1 := 0;
    while x1 < n
      invariant x1 <= n
      invariant Pending(g, people, coin, healthDict, x1, 0)
      invariant deaths == DeathTally(people, x1)
      invariant recoveries == RecoveryTally(people, x1)
      invariant infections == TransmissionTally(g, people, coin, x1, 0)
    {
      if people[x1].health > 0 {
        healthDict, deaths, recoveries, infections :=
          VisitInfected(g, people, coin, x1, healthDict, deaths, recoveries, infections);
      } else {
        IdleDone(g, people, coin, healthDict, x1);
      }
      x1 := x1 + 1;
    }
  }

  /** One turn of the outer loop for an infected node `x1`: it exposes its
      neighbours, then moves on by one day, dies or recovers. */
  method VisitInfected(g: Graph, people: seq<Person>, coin: Coin, x1: nat, hd: map<nat, int>,
                       deaths: Tally, recoveries: Tally, infections: Tally)
    returns (hd': map<nat, int>, deaths': Tally, recoveries': Tally, infections': Tally)
    requires x1 < |people| && people[x1].health > 0
    requires Pending(g, people, coin, hd, x1, 0)
    requires deaths == DeathTally(people, x1) && recoveries == RecoveryTally(people, x1)
    requires infections == TransmissionTally(g, people, coin, x1, 0)
    ensures Pending(g, people, coin, hd', x1 + 1, 0)
    ensures deaths' == DeathTally(people, x1 + 1) && recoveries' == RecoveryTally(people, x1 + 1)
    ensures infections' == TransmissionTally(g, people, coin, x1 + 1, 0)
  {
    var spread;
    spread, infections' := Spread(g, people, coin, x1, hd, infections);
    SourceDone(g, people, coin, spread, x1);
    hd', deaths', recoveries' := Resolve(people, x1, spread, deaths, recoveries);
  }

  /** The infected node `x1` moves on by one day, dies or recovers, and the
      death or recovery is counted in its risk group. */
  method Resolve(people: seq<Person>, x1: nat, hd: map<nat, int>, deaths: Tally, recoveries: Tally)
    returns (hd': map<nat, int>, deaths': Tally, recoveries': Tally)
    requires x1 < |people| && people[x1].health > 0
    requires deaths == DeathTally(people, x1) && recoveries == RecoveryTally(people, x1)
    ensures hd' == hd[x1 := Progress(people[x1])]
    ensures deaths' == DeathTally(people, x1 + 1) && recoveries' == RecoveryTally(people, x1 + 1)
  {
    var p := people[x1];
    deaths', recoveries' := deaths, recoveries;
    if p.health < p.outcome {
      hd' := hd[x1 := p.health + 1];
    } else if p.outcome == DeathDay {
      hd' := hd[x1 := Dead];
      deaths' := deaths.Add(p.risk);
    } else {
      hd' := hd[x1 := Recovered];
      recoveries' := recoveries.Add(p.risk);
    }
    DeathStep(people, x1);
    RecoveryStep(people, x1);
  }

  /** Writes the collected health values back in one batch
      (`set_node_attributes`); nodes without an entry keep their health. */
  function Apply(people: seq<Person>, hd: map<nat, int>): (next: seq<Person>)
    ensures |next| == |people|
    ensures forall v :: 0 <= v < |people| && v in hd ==> next[v] == people[v].(health := hd[v])
    ensures forall v :: 0 <= v < |people| && v !in hd ==> next[v] == people[v]
  {
    seq(|people|, v requires 0 <= v < |people| =>
          if v in hd then people[v].(health := hd[v]) else people[v])
  }

  /** The inner loop: infected `x1` tries every susceptible neighbour. */
  method Spread(g: Graph, people: seq<Person>, coin: Coin, x1: nat, hd: map<nat, int>, infections: Tally)
    returns (hd': map<nat, int>, infections': Tally)
    requires x1 < |people| && people[x1].health > 0
    requires Pending(g, people, coin, hd, x1, 0)
    requires infections == TransmissionTally(g, people, coin, x1, 0)
    ensures Pending(g, people, coin, hd', x1, |people|)
    ensures infections' == TransmissionTally(g, people, coin, x1 + 1, 0)
  {
    var n := |people|;
    hd', infections' := hd, infections;
    var x2 := 0;
    while x2 < n
      invariant x2 <= n
      invariant Pending(g, people, coin, hd', x1, x2)
      invariant infections' == TransmissionTally(g, people, coin, x1, x2)
    {
      hd', infections' := Expose(g, people, coin, x1, x2, hd', infections');
      x2 := x2 + 1;
    }
    TransmissionRowDone(g, people, coin, x1);
  }

  /** One pair of the inner loop: a susceptible neighbour `x2` of the
      infected node `x1` is infected tomorrow when the draw succeeds, and the
      infection is counted in its risk group. */
  method Expose(g: Graph, people: seq<Person>, coin: Coin, x1: nat, x2: nat, hd: map<nat, int>, infections: Tally)
    returns (hd': map<nat, int>, infections': Tally)
    requires x1 < |people| && x2 < |people| && people[x1].health > 0
    requires Pending(g, people, coin, hd, x1, x2)
    requires infections == TransmissionTally(g, people, coin, x1, x2)
    ensures Pending(g, people, coin, hd', x1, x2 + 1)
    ensures infections' == TransmissionTally(g, people, coin, x1, x2 + 1)
  {
    if Adjacent(g, x1, x2) && people[x2].health == Susceptible && coin(x1, x2) {
      PendingInfect(g, people, coin, hd, x1, x2);
      hd' := hd[x2 := 1];
      TransmissionStep(g, people, coin, x1, x2);
      infections' := infections.Add(people[x2].risk);
    } else {
      PendingSkip(g, people, coin, hd, x1, x2);
      TransmissionSkip(g, people, coin, x1, x2);
      hd', infections' := hd, infections;
    }
  }

  /** A successful draw at `(x1, x2)` marks `x2` as infected tomorrow. */
  lemma PendingInfect(g: Graph, people: seq<Person>, coin: Coin, hd: map<nat, int>, x1: nat, x2: nat)
    requires x1 < |people| && x2 < |people| && people[x1].health > 0
    requires Transmits(g, people, coin, x1, x2)
    requires Pending(g, people, coin, hd, x1, x2)
    ensures Pending(g, people, coin, hd[x2 := 1], x1, x2 + 1)
  {
  }

  /** Any other pair leaves the scan's state alone. */
  lemma PendingSkip(g: Graph, people: seq<Person>, coin: Coin, hd: map<nat, int>, x1: nat, x2: nat)
    requires x1 < |people| && x2 < |people| && people[x1].health > 0
    requires !Transmits(g, people, coin, x1, x2)
    requires Pending(g, people, coin, hd, x1, x2)
    ensures Pending(g, people, coin, hd, x1, x2 + 1)
  {
  }

  /** Writing the source's own entry completes its row of the scan. */
  lemma SourceDone(g: Graph, people: seq<Person>, coin: Coin, hd: map<nat, int>, x1: nat)
    requires x1 < |people| && people[x1].health > 0
    requires Pending(g, people, coin, hd, x1, |people|)
    ensures Pending(g, people, coin, hd[x1 := Progress(people[x1])], x1 + 1, 0)
  {
    forall v: nat | v < |people| && people[v].health == Susceptible
      ensures CaughtBelow(g, people, coin, v, x1 + 1) <==>
                CaughtBelow(g, people, coin, v, x1) || Transmits(g, people, coin, x1, v)
    {
      if CaughtBelow(g, people, coin, v, x1 + 1) {
        var u: nat :| u < x1 + 1 && u < |people| && Transmits(g, people, coin, u, v);
        if u < x1 {
          assert CaughtBelow(g, people, coin, v, x1);
        }
      }
    }
  }

  /** After the scan, applying the collected values gives each node its
      day-end health. */
  lemma BatchApplied(g: Graph, people: seq<Person>, coin: Coin, hd: map<nat, int>)
    requires Pending(g, people, coin, hd, |people|, 0)
    ensures DayEnd(g, people, coin, Apply(people, hd))
  {
    forall v | 0 <= v < |people| && people[v].health == Susceptible
      ensures CaughtBelow(g, people, coin, v, |people|) <==> Caught(g, people, coin, v)
    {
    }
  }

  /** A node that is not infected changes neither the scan's state nor any
      of the counts. */
  lemma IdleDone(g: Graph, people: seq<Person>, coin: Coin, hd: map<nat, int>, x1: nat)
    requires x1 < |people| && people[x1].health <= 0
    requires Pending(g, people, coin, hd, x1, 0)
    ensures Pending(g, people, coin, hd, x1 + 1, 0)
    ensures DeathTally(people, x1 + 1) == DeathTally(people, x1)
    ensures RecoveryTally(people, x1 + 1) == RecoveryTally(people, x1)
    ensures TransmissionTally(g, people, coin, x1 + 1, 0) == TransmissionTally(g, people, coin, x1, 0)
  {
    IdlePending(g, people, coin, hd, x1);
    TransmissionRowIdle(g, people, coin, x1);
    DeathStep(people, x1);
    RecoveryStep(people, x1);
  }

  /** A node that is not infected infects nobody, so passing it leaves the
      scan's state as it was. */
  lemma IdlePending(g: Graph, people: seq<Person>, coin: Coin, hd: map<nat, int>, x1: nat)
    requires x1 < |people| && people[x1].health <= 0
    requires Pending(g, people, coin, hd, x1, 0)
    ensures Pending(g, people, coin, hd, x1 + 1, 0)
  {
    forall v: nat | v < |people| && people[v].health == Susceptible
      ensures CaughtBelow(g, people, coin, v, x1 + 1) <==> CaughtBelow(g, people, coin, v, x1)
    {
      if CaughtBelow(g, people, coin, v, x1 + 1) {
        var u: nat :| u < x1 + 1 && u < |people| && Transmits(g, people, coin, u, v);
        assert u < x1;
      }
    }
  }

  /** A successful draw at `(x1, x2)` adds exactly that pair to the transmissions. */
  lemma TransmissionStep(g: Graph, people: seq<Person>, coin: Coin, x1: nat, x2: nat)
    requires x1 < |people| && x2 < |people| && Transmits(g, people, coin, x1, x2)
    ensures TransmissionTally(g, people, coin, x1, x2 + 1) == TransmissionTally(g, people, coin, x1, x2).Add(people[x2].risk)
  {
    var r := people[x2].risk;
    var q := if r == HighRisk then LowRisk else HighRisk;
    assert TransmissionsBefore(g, people, coin, x1, x2 + 1, r) == TransmissionsBefore(g, people, coin, x1, x2, r) + {(x1, x2)};
    assert TransmissionsBefore(g, people, coin, x1, x2 + 1, q) == TransmissionsBefore(g, people, coin, x1, x2, q);
  }

  /** A pair that does not transmit adds nothing. */
  lemma TransmissionSkip(g: Graph, people: seq<Person>, coin: Coin, x1: nat, x2: nat)
    requires x1 < |people| && x2 < |people| && !Transmits(g, people, coin, x1, x2)
    ensures TransmissionTally(g, people, coin, x1, x2 + 1) == TransmissionTally(g, people, coin, x1, x2)
  {
    assert TransmissionsBefore(g, people, coin, x1, x2 + 1, HighRisk) == TransmissionsBefore(g, people, coin, x1, x2, HighRisk);
    assert TransmissionsBefore(g, people, coin, x1, x2 + 1, LowRisk) == TransmissionsBefore(g, people, coin, x1, x2, LowRisk);
  }

  /** Having scanned every target of `x1` is the same as starting on `x1 + 1`. */
  lemma TransmissionRowDone(g: Graph, people: seq<Person>, coin: Coin, x1: nat)
    requires x1 < |people|
    ensures TransmissionTally(g, people, coin, x1, |people|) == TransmissionTally(g, people, coin, x1 + 1, 0)
  {
    var n := |people|;
    assert TransmissionsBefore(g, people, coin, x1, n, HighRisk) == TransmissionsBefore(g, people, coin, x1 + 1, 0, HighRisk);
    assert TransmissionsBefore(g, people, coin, x1, n, LowRisk) == TransmissionsBefore(g, people, coin, x1 + 1, 0, LowRisk);
  }

  /** A node that is not infected is the source of no transmission. */
  lemma TransmissionRowIdle(g: Graph, people: seq<Person>, coin: Coin, x1: nat)
    requires x1 < |people| && people[x1].health <= 0
    ensures TransmissionTally(g, people, coin, x1, 0) == TransmissionTally(g, people, coin, x1 + 1, 0)
  {
    assert TransmissionsBefore(g, people, coin, x1, 0, HighRisk) == TransmissionsBefore(g, people, coin, x1 + 1, 0, HighRisk);
    assert TransmissionsBefore(g, people, coin, x1, 0, LowRisk) == TransmissionsBefore(g, people, coin, x1 + 1, 0, LowRisk);
  }

  /** Extending the death count by node `k`. */
  lemma DeathStep(people: seq<Person>, k: nat)
    requires k < |people|
    ensures Dies(people[k]) ==> DeathTally(people, k + 1) == DeathTally(people, k).Add(people[k].risk)
    ensures !Dies(people[k]) ==> DeathTally(people, k + 1) == DeathTally(people, k)
  {
    DeathGroupStep(people, k, HighRisk);
    DeathGroupStep(people, k, LowRisk);
  }

  /** Extending the recovery count by node `k`. */
  lemma RecoveryStep(people: seq<Person>, k: nat)
    requires k < |people|
    ensures Recovers(people[k]) ==> RecoveryTally(people, k + 1) == RecoveryTally(people, k).Add(people[k].risk)
    ensures !Recovers(people[k]) ==> RecoveryTally(people, k + 1) == RecoveryTally(people, k)
  {
    RecoveryGroupStep(people, k, HighRisk);
    RecoveryGroupStep(people, k, LowRisk);
  }

  lemma DeathGroupStep(people: seq<Person>, k: nat, r: RiskGroup)
    requires k < |people|
    ensures DeathsBelow(people, k + 1, r) ==
              DeathsBelow(people, k, r) + (if Dies(people[k]) && people[k].risk == r then {k} else {})
  {
  }

  lemma RecoveryGroupStep(people: seq<Person>, k: nat, r: RiskGroup)
    requires k < |people|
    ensures RecoveriesBelow(people, k + 1, r) ==
              RecoveriesBelow(people, k, r) + (if Recovers(people[k]) && people[k].risk == r then {k} else {})
  {
  }

  /** The start-of-day infected nodes that have reached their outcome day. */
  function Resolved(people: seq<Person>): set<nat>
  {
    set v: nat | v < |people| && people[v].health > 0 && people[v].health >= people[v].outcome
  }

  /** The start-of-day susceptible nodes of group `r` that are infected today. */
  function NewlyInfected(g: Graph, people: seq<Person>, coin: Coin, r: RiskGroup): set<nat>
  {
    set v: nat | v < |people| && people[v].health == Susceptible && people[v].risk == r && Caught(g, people, coin, v)
  }

  /** Every infected node that reaches its outcome day is counted once, either
      as a death or as a recovery, in its own risk group. */
  lemma ResolvedCount(people: seq<Person>)
    ensures var n := |people|;
            DeathTally(people, n).highRisk + DeathTally(people, n).lowRisk
            + RecoveryTally(people, n).highRisk + RecoveryTally(people, n).lowRisk
            == |Resolved(people)|
  {
    var n := |people|;
    var dh, dl := DeathsBelow(people, n, HighRisk), DeathsBelow(people, n, LowRisk);
    var rh, rl := RecoveriesBelow(people, n, HighRisk), RecoveriesBelow(people, n, LowRisk);
    assert dh * dl == {};
    assert (dh + dl) * rh == {};
    assert (dh + dl + rh) * rl == {};
    assert Resolved(people) == dh + dl + rh + rl;
  }

  /** The infection counter of a group is at least the number of its nodes
      infected today: each new infection needs at least one successful draw,
      and a node hit by several draws is counted once per draw. */
  lemma NewInfectionsBound(g: Graph, people: seq<Person>, coin: Coin, r: RiskGroup)
    ensures |NewlyInfected(g, people, coin, r)| <= TransmissionTally(g, people, coin, |people|, 0).Of(r)
  {
    var t := TransmissionsBefore(g, people, coin, |people|, 0, r);
    forall v | v in NewlyInfected(g, people, coin, r)
      ensures v in Targets(t)
    {
      var u: nat :| u < |people| && Transmits(g, people, coin, u, v);
      assert (u, v) in t;
    }
    TargetsBound(t);
    SubsetCard(NewlyInfected(g, people, coin, r), Targets(t));
  }

  /** The targets of a set of draws. */
  function Targets(t: set<(nat, nat)>): set<nat>
  {
    set p | p in t :: p.1
  }

  lemma {:induction false} TargetsBound(t: set<(nat, nat)>)
    ensures |Targets(t)| <= |t|
    decreases |t|
  {
    if t != {} {
      var p :| p in t;
      TargetsBound(t - {p});
      assert Targets(t) == Targets(t - {p}) + {p.1};
    }
  }

  lemma SubsetCard(a: set<nat>, b: set<nat>)
    requires a <= b
    ensures |a| <= |b|
  {
    assert b == a + (b - a);
  }
}
