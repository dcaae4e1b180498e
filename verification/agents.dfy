/**
 * The three breeds of agent the simulation creates and schedules.
 *
 * Every agent has a unique id, the position it was created at and a vision
 * radius.  A Radicalizer also carries the food-scarcity parameter; a Citizen
 * carries its fixed traits (hardship, regime legitimacy, risk aversion,
 * activation threshold) and its mutable state (jail sentence, condition,
 * radicalized flag, attack counter).
 */
module Agents {

  datatype Condition = Quiescent | Active

  /** A grid position, written (x, y) as the simulation's agents hold it. */
  datatype Pos = Pos(x: nat, y: nat)

  datatype Agent =
    | Cop(id: nat, pos: Pos, vision: nat)
    | Radicalizer(id: nat, pos: Pos, vision: nat, foodScarcity: real)
    | Citizen(id: nat, pos: Pos, vision: nat,
              hardship: real, regimeLegitimacy: real, riskAversion: real, threshold: real,
              jailSentence: nat, condition: Condition, radicalized: bool, attacks: nat)

  /**
   * A Citizen as it is created: free, Quiescent, not radicalized and with no
   * attacks to its name.
   */
  predicate IsFreshCitizen(a: Agent)
  {
    a.Citizen? && a.jailSentence == 0 && a.condition == Quiescent && !a.radicalized && a.attacks == 0
  }
}
