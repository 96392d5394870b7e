/** The rule sets a game can be played under, and the mapping from the names
    accepted on the command line to them. */
module RuleSets {

  /** The rule sets of the game engine. CLASSICAL is ordinary checkers,
      QUANTUM_V1 adds superposition, QUANTUM_V2 adds superposition and
      entanglement. */
  datatype CheckersRules = CLASSICAL | QUANTUM_V1 | QUANTUM_V2

  /** The names the command line accepts for the rule set. */
  const RuleSetChoices: seq<string> := ["classical", "superposition", "entanglement"]

  /** The lookup table from command-line names to rule sets. */
  const QuantumRuleMap: map<string, CheckersRules> :=
    map["classical" := CLASSICAL, "superposition" := QUANTUM_V1, "entanglement" := QUANTUM_V2]

  /** The rule set selected by the command-line name `name`. The table has an
      entry for exactly the accepted names, so the lookup never fails on them. */
  function RuleFor(name: string): (rule: CheckersRules)
    requires name in RuleSetChoices
    ensures rule == CLASSICAL <==> name == "classical"
    ensures rule == QUANTUM_V1 <==> name == "superposition"
    ensures rule == QUANTUM_V2 <==> name == "entanglement"
  {
    QuantumRuleMap[name]
  }

  /** The command-line name of each rule set: the inverse of RuleFor. */
  function ChoiceFor(rule: CheckersRules): (name: string)
    ensures name in RuleSetChoices
  {
    match rule
    case CLASSICAL => "classical"
    case QUANTUM_V1 => "superposition"
    case QUANTUM_V2 => "entanglement"
  }

  /** The table is defined on exactly the accepted names. */
  lemma RuleMapTotal(name: string)
    ensures name in QuantumRuleMap <==> name in RuleSetChoices
  {
  }

  /** RuleFor is a bijection between the accepted names and the rule sets. */
  lemma RuleForBijective(name: string, rule: CheckersRules)
    ensures name in RuleSetChoices ==> ChoiceFor(RuleFor(name)) == name
    ensures RuleFor(ChoiceFor(rule)) == rule
  {
  }
}
