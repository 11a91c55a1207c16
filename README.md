# Curriculum grid: prerequisite-consistency engine

A model, in Dafny, of the logic behind an interactive curriculum grid
(`malla curricular`). Each course of the grid is a `.ramo` element with an
id, a display name (`data-nombre`) and a comma-separated list of
prerequisite ids (`data-requisitos`). The page keeps one piece of mutable
state, the set of approved course ids (`ramosAprobados`). From that set it
derives each course's status:

- Completed (`aprobado`) when the course is approved;
- Locked (`bloqueado`) when some prerequisite is not approved;
- Available otherwise.

Clicking a course changes the set. A click on a Locked course opens a list
of its missing prerequisites. A click on a Completed course un-approves it
and cascades the retraction to every approved course that lists it, and
recursively to their dependents. A click on an Available course approves
it. A reset, once confirmed, empties the set.

Files:

- `wrappers.dfy` holds the `Option` type.
- `parsing.dfy` (module `Parsing`) models `split(',')` and
  `filter(Boolean)`, with their round trip through `Join`.
- `curriculum.dfy` (module `Curriculum`) holds the value-level definitions.
  - Courses and their status.
  - The missing-prerequisite filter and the id lookup.
  - Downward closure of the approved set.
  - Prerequisite chains and `Retract`. `Retract` is the exact set of ids a
    cascade leaves: the approved ids minus those that reach the removed id
    through a chain of approved courses.
  - `Toggle`: the set after one click.
  - The lemmas about all of these.
- `grid.dfy` (module `Grid`) holds the class `Malla`. It keeps the approved
  set and the status flags shown on each course element. Its methods update
  both in place and are proved against `Curriculum`:
  - `Refresh` is the grid refresh;
  - `Cascade` is the recursive cascade;
  - `ShowMissing` and `ListNames` fill the modal list;
  - `HandleClick` is the click handler;
  - `Reset` is the reset.
- `scenarios.dfy` (module `Scenarios`) works through small grids by hand.

## Behaviour of the code worth noting

- The cascade terminates on every graph, cyclic or not. A course is
  un-approved only while it is still approved, and every recursive call
  follows such a removal, so the method `Grid.Malla.Cascade` is proved
  terminating with the size of the approved set as its measure. No
  acyclicity assumption is made anywhere.
- The cascade splits `data-requisitos` on commas without dropping empty
  tokens. The status derivation and the modal do drop them. For a non-empty
  id the two readings agree (`RequisitesAgree`). Un-approving a course whose
  element has no id (id `""`) therefore also un-approves every course with a
  missing or empty attribute (`Scenarios.EmptyIdCascade`). The model keeps
  this behaviour.
- A click on a Locked course yields the modal's list of missing
  prerequisites and leaves the approved set unchanged.
- The click handler reads a course's status from the classes on its
  element, not from the set. The class holds those classes as `flags`. Its
  invariant `Valid()` says the flags are the derived status of every course;
  every method that changes the set refreshes them, and start-up computes
  them.
- Every click keeps the approved set downward closed, except one case:
  approving an Available course whose id another course element shares
  (`ToggleKeepsClosed`). That other element then counts as approved without
  its own prerequisites having been checked. Un-approving clicks keep
  closure whatever the ids.

## Model

| member | source | states |
|---|---|---|
| Parsing.Split | script.js:84 | `split(',')` always gives at least one piece, no piece contains a comma, and gluing the pieces back with commas gives the input: tokens are exact, untrimmed substrings |
| Parsing.SplitJoin | script.js:84 | splitting a comma-joined list of comma-free tokens gives back the same list (round trip with `Join`) |
| Parsing.DropEmpty | script.js:24 | `filter(Boolean)` keeps exactly the non-empty tokens and never lengthens the list |
| Parsing.Parse | script.js:24 | the prerequisite list of the status derivation holds exactly the non-empty pieces of the split, each comma-free |
| Parsing.DropEmptySingle | script.js:24 | `filter(Boolean)` keeps a single token exactly when it is not empty |
| Parsing.DropEmptyConcat | script.js:24 | `filter(Boolean)` distributes over concatenation, so it keeps the order and repetitions of the non-empty tokens |
| Parsing.ParseJoin | script.js:97 | an attribute written from comma-free tokens parses back to its non-empty tokens, in order and with repetitions; one written from non-empty ids parses back to the same list |
| Parsing.ParseOnlyCommas | script.js:24 | an empty attribute, or one made only of commas, parses to no prerequisites |
| Curriculum.RawAttribute | script.js:24 | `data-requisitos || ''` is empty exactly when the attribute is missing or empty, and is the attribute itself otherwise |
| Curriculum.RawRequisites | script.js:84 | the cascade's list is the comma-free pieces of the attribute, at least one, that glue back to it; empty pieces are kept |
| Curriculum.Requisites | script.js:97 | the list of the status derivation and the modal holds exactly the non-empty pieces of the cascade's list |
| Curriculum.NoAttributeNoRequisites | script.js:24 | a missing or empty `data-requisitos` gives no prerequisites to the status derivation, and the single empty token to the cascade |
| Curriculum.RequisitesAgree | script.js:84-85 | for a non-empty id, the cascade's unfiltered reading lists it exactly when the status derivation's filtered reading does |
| Curriculum.AllApproved | script.js:34 | `every` holds exactly when each prerequisite is in the approved set |
| Curriculum.StatusOf | script.js:29-39 | Completed exactly when the id is approved; Locked exactly when it is not approved and some parsed prerequisite is not approved; never Locked with no prerequisites |
| Curriculum.StatusWhenNothingApproved | script.js:134-138 | with an empty approved set no course is Completed, and a course is Locked exactly when it has prerequisites |
| Curriculum.Missing | script.js:98 | the missing list holds exactly the prerequisites not approved and is no longer than the prerequisite list |
| Curriculum.MissingConcat | script.js:98 | the filter distributes over concatenation, so the missing list keeps the declared order |
| Curriculum.MissingIffLocked | script.js:98 | for a course not approved, the missing list is non-empty exactly when the course is Locked |
| Curriculum.Lookup | script.js:105 | the lookup by id finds the first course in document order with that id, or reports that no course has it |
| Curriculum.DisplayName | script.js:105-106 | the listed name is that of the first course with the id, or `Ramo desconocido` when no course has it |
| Curriculum.MissingNames | script.js:98-110 | one name per missing prerequisite, in declared order; for a course not approved the list is empty exactly when the course is not Locked |
| Curriculum.DependentsExtend | script.js:85-87 | a course that lists the removed id depends on it, and whatever depends on that course inside a smaller set depends on the removed id too |
| Curriculum.NoDependents | script.js:85 | an id that no course lists has no dependents, so its cascade removes nothing |
| Curriculum.Retract | script.js:82-90 | what a cascade leaves is a subset of the approved set, and every id it drops reaches the removed id through a chain of approved courses |
| Curriculum.RetractClosed | script.js:82-90 | after the cascade no course still approved lists the removed id or any id the cascade removed |
| Curriculum.RetractUnique | script.js:82-90 | a result that keeps a subset, removes only dependents and leaves nothing kept listing a removed id is exactly `Retract`: the final set does not depend on traversal order |
| Curriculum.CascadeVisit | script.js:83-88 | visiting one course (un-approving it and cascading when it lists the removed id and is approved, skipping it otherwise) keeps the cascade sound and closed for one more course |
| Curriculum.CascadeDone | script.js:82-90 | once every course is visited, what is left is exactly `Retract` of the starting set |
| Curriculum.Toggle | script.js:56-70 | after a click the clicked id is approved exactly when the course was Available, and no other id is added |
| Curriculum.ToggleEffect | script.js:56-70 | a click on a Locked course changes nothing; on an Available course it adds exactly its id; on a Completed course it removes its id and only ids with a prerequisite chain back to it |
| Curriculum.ToggleKeepsClosed | script.js:56-75 | a click keeps the approved set downward closed (every approved course's prerequisites approved), provided that, when it approves an Available course, no other course element shares its id |
| Curriculum.ToggleTwiceOnLeaf | script.js:62-70 | for a course with no prerequisites that no course lists, two clicks give back the starting approved set |
| Grid.Malla.constructor | script.js:15 | start-up takes the stored ids (nothing stored gives the empty set) and computes every course's flags |
| Grid.Malla.Refresh | script.js:21-41 | after the refresh every course's flags are its derived status for the current approved set |
| Grid.Malla.Cascade | script.js:82-90 | the recursive cascade terminates on any graph and leaves exactly `Retract` of the set it started from |
| Grid.Malla.ListNames | script.js:104-110 | the loop yields one name per id, in order, each the `DisplayName` of that id |
| Grid.Malla.ShowMissing | script.js:96-110 | the modal's list is `MissingNames` of the clicked course for the current approved set |
| Grid.Malla.HandleClick | script.js:48-76 | a click outside a course changes nothing; on a course it leaves the set equal to `Toggle`; it returns the missing list exactly when the course was Locked; the flags stay consistent; downward closure is preserved, except when it approves a course whose id another course element shares |
| Grid.Malla.Reset | script.js:134-140 | a confirmed reset empties the set, so no course is Completed and exactly those with prerequisites are Locked; an unconfirmed one changes nothing |
| Scenarios.TwoChainApprove | script.js:56-70 | with A and B requiring A: B is Locked and A Available at first; approving A and then B gives {A, B} |
| Scenarios.TwoChainUnapprove | script.js:62-66 | un-approving A when A and B are approved leaves nothing approved |
| Scenarios.ThreeChainCascade | script.js:82-90 | with A, B requiring A and C requiring B all approved, un-approving A leaves nothing approved |
| Scenarios.ModalListsOnlyWhatIsMissing | script.js:97-106 | with only A1 approved, the modal for a course requiring A1 and A2 lists only A2's name |
| Scenarios.EmptyIdCascade | script.js:84-85 | un-approving a course with an empty id also removes a course that has no prerequisites, because the cascade keeps empty tokens |

## Left out

- DOM access is not modelled: `getElementById`, `querySelectorAll`, `closest`, class-list updates, `innerHTML` and the list items. Class flags are a `seq<Status>` and the modal list is a returned `seq<string>`. A click target is an `Option` of a course position.
- The modal's show and hide logic, the close button and the window click listener are not modelled. They are pure presentation.
- `localStorage` is not modelled. Saving after a click is a no-op, and clearing the store on reset is left out. Start-up takes the stored ids as an `Option<seq<string>>`. A stored value that is not valid JSON makes `JSON.parse` throw in the source; that case is not modelled.
- The `confirm` dialog is a boolean parameter of `Reset`.
- Event wiring and the `DOMContentLoaded` bootstrap are not modelled beyond the constructor, which stands for the first refresh.
- Curriculum.Lookup: `getElementById` searches the whole document, not only course elements. The model searches the courses only.
- A course element without `data-nombre` has an undefined name in the source. The model gives every course a string name.
- The insertion order of the JavaScript `Set` is not modelled. It only shows in the order of the saved array, and saving is left out.
