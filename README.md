# PolyNanna drawing, modelled in Dafny

PolyNanna runs a Secret Santa style gift exchange. Each participant has a
name and a restricted set of names they may not give to. The program builds
the participants from a data mapping of name to restricted set. It adds to
each restricted set everyone the participant gave to in earlier years, taken
from a history mapping. Then it runs drawing attempts until one succeeds. An
attempt puts every participant's name in a hat and walks the participants in
order. For each one it picks an arbitrary name that is in the hat and outside
that participant's restricted set, records it as the participant's
`giving_to`, and takes the name out of the hat. If nothing is eligible the
attempt is abandoned, the fail count goes up by one, and a new attempt starts
with a fresh hat.

The project has two modules:

- `DrawSpec` (`draw_spec.dfy`) is the value-level vocabulary. It defines
  names, history entries, `Recipients` (what a history adds to a restricted
  set) and `ValidDraw`, which says what an attempt has drawn so far: one name
  per participant, each from the hat and outside that participant's
  restricted set, and no name drawn twice. The lemmas about a single draw
  step, an abandoned attempt and a completed attempt are stated over these
  values.
- `PolyNanna` (`polynanna.dfy`) holds the classes `Participant`, `Hat` and
  `Polyanna`, with the fields the program updates in place. Their methods
  are proved against the `DrawSpec` definitions.

The data module the program imports is passed in as parameters. Its
insertion-ordered `data` dictionary becomes a sequence of
`(name, restricted set)` pairs. Its `history` dictionary becomes a map from
name to a sequence of `HistoryEntry(year, recipient)` values.

An abandoned attempt does not clear `giving_to`. Participants assigned
before the failure keep their stale recipient until a later attempt
overwrites it. `Polyanna.TryDraw` states exactly that. Only a completed
attempt guarantees anything about `giving_to`.

## Model

| member | source | states |
|---|---|---|
| DrawSpec.Recipients | polynanna.py:56-59 | a name is added by a history exactly when some entry of it names that person as the recipient |
| DrawSpec.RecipientsSnoc | polynanna.py:58-59 | merging one more history entry adds exactly that entry's recipient, which is what each loop step of the merge does |
| DrawSpec.HistoryMergeIdempotent | polynanna.py:56-59 | merging the same history into a restricted set a second time changes nothing; with the exact postcondition of `BuildHistory`, a second call for the same participant leaves its restricted set as it is |
| DrawSpec.DrawStep | polynanna.py:38-40 | a name that is in the hat and outside the current participant's restricted set keeps the draw valid; removing it leaves exactly the undrawn names, so the remove never misses |
| DrawSpec.HatShrinks | polynanna.py:39-40 | after a valid draw the hat has lost exactly one name per draw |
| DrawSpec.CompletedDrawIsBijection | polynanna.py:36-41 | in a completed attempt the drawn names are pairwise distinct, the participant names are distinct, every name is drawn exactly once, and the hat ends empty |
| DrawSpec.AbortIsForced | polynanna.py:72 | when the hat holds nothing outside the current participant's restricted set, no name for that participant extends the draw validly, so abandoning the attempt loses nothing |
| DrawSpec.TwoParticipantsSwap | polynanna.py:36-41 | with two participants who each exclude themselves, the only completed draw is the swap |
| PolyNanna.Participant.constructor | polynanna.py:52-54 | a new participant has the given name, restricted set and recipient |
| PolyNanna.Participant.BuildHistory | polynanna.py:56-59 | succeeds exactly when the participant's name is in the history; then the restricted set becomes the old set plus every recorded recipient, and otherwise it is left as it was |
| PolyNanna.FirstMissing | polynanna.py:22-23 | the position of the first participant name with no history: every earlier name has one, and the name at that position does not |
| PolyNanna.Hat.constructor | polynanna.py:65-67 | a fresh hat holds exactly the set of all participant names |
| PolyNanna.Hat.Select | polynanna.py:70-72 | a choice exists exactly when the hat has a name outside the participant's restricted set; the choice is such a name, and the hat is not changed |
| PolyNanna.Polyanna.constructor | polynanna.py:9-11 | the participant list starts empty and the fail count at zero |
| PolyNanna.Polyanna.BuildParticipants | polynanna.py:14-17 | appends one new participant per data entry, in order, each with that entry's name, its own copy of the entry's restricted set and no recipient; existing participants stay in place and no participant occurs twice |
| PolyNanna.Polyanna.BuildAllHistory | polynanna.py:20-23 | succeeds exactly when every participant's name is in the history; participants before the first missing name have their history merged, and that participant and those after it are untouched |
| PolyNanna.Polyanna.TryDraw | polynanna.py:36-44 | one attempt: the names drawn form a valid draw from the hat, the hat loses exactly them, participants drawn for give to their drawn name and the others keep their old recipient (no rollback); the attempt completes exactly when every participant is drawn for, and otherwise the attempt is stuck (the hat has nothing left outside the next participant's restricted set) and the fail count rises by one; the restricted sets are not changed |
| PolyNanna.Polyanna.RunDrawingUntilCompleted | polynanna.py:26-45 | `attempts` attempts are made, at most `maxAttempts` and all of them when none completes; the fail count grows by exactly one per failed attempt, that is `attempts` less one for the completed attempt; each failed attempt is recorded in `failed`, and each one got stuck on a participant for whom the fresh hat, less the names drawn before, held nothing outside its restricted set; after a completed attempt every participant gives to a participant name outside its restricted set, the recipients are pairwise distinct, every name is given to exactly once, and nobody who excludes themselves gives to themselves |

## Left out

- The `Results` class and `main` are console output, directory creation and file writing, so they are not modelled.
- The `data` module is not part of this model. Its two mappings are parameters of `BuildParticipants` and `BuildAllHistory`.
- `Hat.Select` models `random.choice` as an arbitrary choice from the eligible names. Uniformity is a probability property and is not modelled.
- PolyNanna.Polyanna.RunDrawingUntilCompleted: the source retries without bound and may never stop when the constraints cannot be met. The model takes an attempt bound `maxAttempts` and may return `completed` false once it is used up. Termination of the unbounded loop is not claimed.
- PolyNanna.Participant.BuildHistory: a name missing from the history raises `KeyError` in the source. The model returns `ok` false and changes nothing. `BuildAllHistory` then stops at that participant, as the propagating exception would. Updates already made stay.
- A history entry is the pair `(year, recipient)`. A malformed entry shorter than two elements would raise `IndexError` in the source, and that case is not modelled.
- `Participant`'s default of `None` for the restricted set is not modelled, because `build_participants` always supplies a set.
- `Polyanna`'s constructor ignores its `participants` argument in the source, so the model's constructor takes none.
- Python's reference semantics for the restricted set are modelled as a value-typed `set` field. Each participant owns its own copy, which is what `set(restricted)` makes.
