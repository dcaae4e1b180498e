/**
 * The four aggregate counters the simulation reports every tick (Quiescent,
 * Active, Jailed, Radicals, Terrorist Attacks), each an accumulator loop over
 * the scheduled agents, specified by one summation function over the list.
 */
module Counts {
  import opened Agents

  /** What one reporter counts. `Citizens` counts every citizen: the bound the others are compared with. */
  datatype Measure =
    | TypeCitizens(condition: Condition, excludeJailed: bool)
    | Radicals
    | Jailed
    | Attacks
    | Citizens

  /** What one agent adds to a measure: only citizens add anything, and at most one except to attacks. */
  function Weight(m: Measure, a: Agent): (w: nat)
    ensures w > 0 ==> a.Citizen?
    ensures m != Attacks ==> w <= 1
  {
    match m
    case TypeCitizens(c, excludeJailed) =>
      if a.Cop? || a.Radicalizer? then 0
      else if excludeJailed && a.jailSentence != 0 then 0
      else if a.condition == c then 1 else 0
    case Radicals => if a.Citizen? && a.radicalized then 1 else 0
    case Jailed => if a.Citizen? && a.jailSentence != 0 then 1 else 0
    case Attacks => if a.Citizen? then a.attacks else 0
    case Citizens => if a.Citizen? then 1 else 0
  }

  /**
   * A measure summed over an agent list, taken from the front as the loops
   * visit it; a count other than attacks is at most the list's length.
   */
  function Tally(agents: seq<Agent>, m: Measure): (n: nat)
    ensures m != Attacks ==> n <= |agents|
  {
    if agents == [] then 0
    else Tally(agents[..|agents| - 1], m) + Weight(m, agents[|agents| - 1])
  }

  // ---------------------------------------------------------------------
  // The counters, as the simulation runs them over its schedule

  /** Unjailed (or, without exclusion, all) citizens in the given condition; the jailed are excluded by default. */
  method CountTypeCitizens(agents: seq<Agent>, condition: Condition, excludeJailed: bool := true) returns (count: nat)
    ensures count == Tally(agents, TypeCitizens(condition, excludeJailed))
  {
    count := 0;
    for i := 0 to |agents|
      invariant count == Tally(agents[..i], TypeCitizens(condition, excludeJailed))
    {
      var agent := agents[i];
      assert agents[..i + 1][..i] == agents[..i];
      if agent.Cop? {
        continue;
      }
      if agent.Radicalizer? {
        continue;
      }
      if excludeJailed && agent.jailSentence != 0 {
        continue;
      }
      if agent.condition == condition {
        count := count + 1;
      }
    }
    assert agents[..|agents|] == agents;
  }

  /** Citizens whose radicalized flag is set. */
  method CountRadical(agents: seq<Agent>) returns (count: nat)
    ensures count == Tally(agents, Radicals)
  {
    count := 0;
    for i := 0 to |agents|
      invariant count == Tally(agents[..i], Radicals)
    {
      var agent := agents[i];
      assert agents[..i + 1][..i] == agents[..i];
      if agent.Citizen? && agent.radicalized {
        count := count + 1;
      }
    }
    assert agents[..|agents|] == agents;
  }

  /** Citizens serving a (nonzero) jail sentence. */
  method CountJailed(agents: seq<Agent>) returns (count: nat)
    ensures count == Tally(agents, Jailed)
  {
    count := 0;
    for i := 0 to |agents|
      invariant count == Tally(agents[..i], Jailed)
    {
      var agent := agents[i];
      assert agents[..i + 1][..i] == agents[..i];
      if agent.Citizen? && agent.jailSentence != 0 {
        count := count + 1;
      }
    }
    assert agents[..|agents|] == agents;
  }

  /** The attacks of all citizens added up; other breeds carry none. */
  method CountAttacks(agents: seq<Agent>) returns (count: nat)
    ensures count == Tally(agents, Attacks)
  {
    count := 0;
    for i := 0 to |agents|
      invariant count == Tally(agents[..i], Attacks)
    {
      var agent := agents[i];
      assert agents[..i + 1][..i] == agents[..i];
      if agent.Citizen? {
        count := count + agent.attacks;
      }
    }
    assert agents[..|agents|] == agents;
  }

  // ---------------------------------------------------------------------
  // What the counts mean

  /** Every measure is additive over concatenated agent lists. */
  lemma {:induction false} TallyAppend(s: seq<Agent>, t: seq<Agent>, m: Measure)
    ensures Tally(s + t, m) == Tally(s, m) + Tally(t, m)
    decreases |t|
  {
    if t == [] {
      assert s + t == s;
    } else {
      var front := t[..|t| - 1];
      assert (s + t)[..|s + t| - 1] == s + front;
      assert (s + t)[|s + t| - 1] == t[|t| - 1];
      TallyAppend(s, front, m);
    }
  }

  /** Each counting reporter counts citizens only, each at most once. */
  lemma {:induction false} CountsBoundedByCitizens(s: seq<Agent>, m: Measure)
    requires m != Attacks
    ensures Tally(s, m) <= Tally(s, Citizens)
    decreases |s|
  {
    if s != [] {
      CountsBoundedByCitizens(s[..|s| - 1], m);
    }
  }

  /**
   * Citizens split exactly: without exclusion into Quiescent and Active; with
   * it into jailed, unjailed Quiescent and unjailed Active.
   */
  lemma {:induction false} ConditionPartition(s: seq<Agent>, excludeJailed: bool)
    ensures Tally(s, TypeCitizens(Quiescent, excludeJailed)) + Tally(s, TypeCitizens(Active, excludeJailed))
              + (if excludeJailed then Tally(s, Jailed) else 0)
            == Tally(s, Citizens)
    decreases |s|
  {
    if s != [] {
      ConditionPartition(s[..|s| - 1], excludeJailed);
    }
  }

  /** Leaving out the jailed never raises a condition count. */
  lemma {:induction false} ExcludingJailedNeverAdds(s: seq<Agent>, c: Condition)
    ensures Tally(s, TypeCitizens(c, true)) <= Tally(s, TypeCitizens(c, false))
    decreases |s|
  {
    if s != [] {
      ExcludingJailedNeverAdds(s[..|s| - 1], c);
    }
  }

  /** A list without citizens scores zero on every measure, attacks included. */
  lemma {:induction false} NoCitizensNothingCounted(s: seq<Agent>, m: Measure)
    requires Tally(s, Citizens) == 0
    ensures Tally(s, m) == 0
    decreases |s|
  {
    if s != [] {
      NoCitizensNothingCounted(s[..|s| - 1], m);
    }
  }

  /**
   * A population of freshly created citizens (plus any cops and radicalizers)
   * reports every citizen Quiescent and nobody Active, jailed, radical or
   * attacking.
   */
  lemma {:induction false} FreshPopulationCounts(s: seq<Agent>)
    requires forall i :: 0 <= i < |s| && s[i].Citizen? ==> IsFreshCitizen(s[i])
    ensures Tally(s, TypeCitizens(Quiescent, true)) == Tally(s, Citizens)
    ensures Tally(s, TypeCitizens(Active, true)) == 0
    ensures Tally(s, Jailed) == 0 && Tally(s, Radicals) == 0 && Tally(s, Attacks) == 0
    decreases |s|
  {
    if s != [] {
      FreshPopulationCounts(s[..|s| - 1]);
    }
  }
}
