# Quantum checkers launcher: schedules, rule sets, board check

This project models the deterministic logic of the launcher and experiment
script of a quantum checkers game (`main.py`): the round-robin schedule of
matches between experiment agents, the mapping from the rule-set names
accepted on the command line to the engine's rule sets, and the check that
warns about a board that is not symmetrical between the two sides.

- `Schedule.dfy` (module `MatchSchedule`) models `generate_matches`. The
  method `GenerateMatches` keeps the source's two nested loops over indices
  `i` and `j > i` and its two appends per step. It is proved against
  `Schedule(n)`, a specification over agent indices: position `k` of the
  result is the match between the agents whose indices the pairing
  `Schedule(n)[k]` names. The lemmas then prove, for any number `n` of
  agents: there are `n * (n - 1)` matches; pair `(i, j)` with `i < j` is at a
  closed-form position and its reverse comes right after it; every ordered
  pair of distinct indices occurs exactly once, and nothing else occurs;
  every index plays white `n - 1` times and black `n - 1` times; the
  lower-index-first pairings are in lexicographic order. The schedule is
  defined on indices, so agents with equal names at different indices are
  paired too.
- `Experiments.dfy` (module `ExperimentMatches`) runs the generator on the
  experiments' agent list, two agents both named `"random"`.
- `RuleSets.dfy` (module `RuleSets`) models the `quantum_rule_map` table and
  the three command-line choices.
- `BoardSymmetry.dfy` (module `BoardSymmetry`) models the condition under
  which the asymmetry warning is shown. The source checks it in two places.

## Model

| member | source | states |
|---|---|---|
| `MatchSchedule.GenerateMatches` | main.py:14-28 | the list built by the nested loops is the match between the agents named by each pairing of `Schedule(n)`; it has `n * (n - 1)` matches; for every `i < j`, `(agents[i], agents[j])` is at `Position(n, i, j)` and `(agents[j], agents[i])` right after it |
| `MatchSchedule.ScheduleLength` | main.py:18-27 | `n` agents give exactly `n * (n - 1)` pairings |
| `MatchSchedule.ScheduleOfAtMostOne` | main.py:15-19 | zero agents or one agent give no pairings |
| `MatchSchedule.ScheduleAt` | main.py:22-27 | for every `i < j < n`, pairing `(i, j)` is at `Position(n, i, j)` and `(j, i)` immediately follows it |
| `MatchSchedule.PositionClosedForm` | main.py:18-27 | the position of `(i, j)` is `i * (2n - 1 - i) + 2 * (j - i - 1)`: the `2 * (n - 1 - i')` pairings of each earlier row come first, then the earlier pairs of row `i` |
| `MatchSchedule.PairsBeforeClosedForm` | main.py:18-19 | the rows of the outer indices below `i` hold `2 * PairsBefore(i, n) == i * (2n - 1 - i)` pairings in all |
| `MatchSchedule.ScheduleOccurrences` | main.py:18-27 | each ordered pair of distinct indices below `n` occurs exactly once; a pair of equal indices or an index out of range never occurs |
| `MatchSchedule.ScheduleInRange` | main.py:18-21 | every pairing joins two different indices below `n`, because `j` starts at `i + 1` and no equality test on agent values is made |
| `MatchSchedule.ScheduleAppearances` | main.py:22-27 | every index below `n` is white in exactly `n - 1` pairings and black in exactly `n - 1` pairings |
| `MatchSchedule.ScheduleShape` | main.py:22-27 | the number of pairings is even; each even position holds `(i, j)` with `i < j` and the next position holds `(j, i)` |
| `MatchSchedule.ScheduleOrdered` | main.py:18-27 | the pairings at even positions are in strictly increasing lexicographic order of `(i, j)` |
| `ExperimentMatches.RandomVersusRandom` | main.py:258 | for the agent list `["random", "random"]` the schedule is two matches `("random", "random")`, one for each index as white |
| `RuleSets.RuleFor` | main.py:438-443 | `"classical"` selects CLASSICAL, `"superposition"` selects QUANTUM_V1, `"entanglement"` selects QUANTUM_V2, each in both directions |
| `RuleSets.RuleMapTotal` | main.py:100 | the table has an entry for exactly the three names the command line accepts, so the lookup cannot fail on an accepted name |
| `RuleSets.RuleForBijective` | main.py:438-443 | the table is a bijection between the accepted names and the three rule sets |
| `BoardSymmetry.WarningIffOddColumnsEvenRows` | main.py:445 | the warning is shown exactly when the column count is `2c + 1` and the row count is `2r` for some integers `c` and `r`; the check at main.py:240 is the same condition |

## Left out

- The quantum game engine, its move generation and measurement, the MCTS agent, the game interface and the scripted players are imported by `main.py` but are not part of this model; nothing of them is stated from their call sites.
- Command-line parsing (`get_argument_parser_args`) is not modelled; the model takes the parsed values. Its `choices` list for the rule set is the one fact used, as `RuleSetChoices`.
- `RuleSets.RuleFor` requires one of the accepted names. The dictionary lookup would raise an error for any other name, but the command line never passes one.
- Clearing and writing attempt logs (`empty_attempts_folder`, `empty_attempts`, `write_attempt`) are left out: they are file-system I/O.
- The experiment runners (`run_average_moves_and_times_experiment`, `run_experiments`) are left out. They use wall-clock timing, random seeding and shuffling, floating-point averages and standard deviations, and result files. Only their use of `generate_matches` on two `"random"` agents is modelled.
- TrueSkill rating updates are left out: they are a foreign library with floating-point arithmetic.
- `play_normal_game` and `main` are left out beyond the rule lookup and the board check: they build the engine and interface objects, print, and sleep.
- The text, length and printing of the asymmetry warning, and the five-second pause after it, are left out: they are output and timing.
- `GenerateMatches` builds a new sequence by concatenation where the source appends to a list in place. No other code holds the list while it is built, so this loses no aliasing behaviour.
