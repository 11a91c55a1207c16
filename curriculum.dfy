/**
 * The prerequisite-consistency engine of the curriculum grid, stated on values:
 * courses, their derived status, the missing-prerequisite query, and the exact
 * set of approved ids that survives un-approving a course (the cascade).
 * The class in module `Grid` updates its state in place and is proved against
 * these definitions.
 */
module Curriculum {
  import opened Wrappers
  import opened Parsing

  /**
   * One `.ramo` element of the grid: its DOM `id`, its `data-nombre`, and its
   * `data-requisitos` attribute, `None` when the element has none.
   */
  datatype Course = Course(id: string, name: string, requisites: Option<string>)

  /** The class flags a course element can carry: `aprobado`, `bloqueado`, or neither. */
  datatype Status = Completed | Locked | Available

  /** The label shown for a prerequisite id that names no course. */
  const UnknownName: string := "Ramo desconocido"

  /** `ramo.dataset.requisitos || ''`: a missing attribute reads as the empty string. */
  function RawAttribute(c: Course): (r: string)
    ensures r == "" <==> c.requisites == None || c.requisites == Some("")
    ensures c.requisites.Some? ==> r == c.requisites.value
  {
    c.requisites.GetOr("")
  }

  /**
   * The prerequisite list the cascade reads: the comma-free pieces of the
   * attribute, empty ones kept, which glued back with commas give the attribute.
   */
  function RawRequisites(c: Course): (r: seq<string>)
    ensures |r| > 0
    ensures forall t :: t in r ==> CommaFree(t)
    ensures Join(r) == RawAttribute(c)
  {
    Split(RawAttribute(c))
  }

  /**
   * The prerequisite list the status derivation and the modal read: exactly
   * the non-empty pieces of the cascade's list.
   */
  function Requisites(c: Course): (r: seq<string>)
    ensures forall t :: t in r <==> t in RawRequisites(c) && t != ""
    ensures |r| <= |RawRequisites(c)|
  {
    Parse(RawAttribute(c))
  }

  /**
   * The two readings agree on every non-empty id; they differ only in that the
   * raw reading may contain the empty token.
   */
  lemma RequisitesAgree(c: Course, x: string)
    requires x != ""
    ensures x in Requisites(c) <==> x in RawRequisites(c)
  {
  }

  /** A course without the attribute, or with an empty one, has no prerequisites. */
  lemma NoAttributeNoRequisites(c: Course)
    requires c.requisites == None || c.requisites == Some("")
    ensures Requisites(c) == []
    ensures RawRequisites(c) == [""]
  {
    ParseOnlyCommas(RawAttribute(c));
  }

  // ---------------------------------------------------------------------------
  // Status derivation

  /** `requisitos.every(reqId => ramosAprobados.has(reqId))`. */
  function AllApproved(reqs: seq<string>, approved: set<string>): (b: bool)
    ensures b <==> forall t :: t in reqs ==> t in approved
  {
    reqs == [] || (reqs[0] in approved && AllApproved(reqs[1..], approved))
  }

  /**
   * The status one pass of the grid refresh gives a course: Completed when its
   * id is approved, otherwise Locked when some prerequisite is not approved,
   * otherwise Available.
   */
  function StatusOf(c: Course, approved: set<string>): (st: Status)
    ensures st == Completed <==> c.id in approved
    ensures st == Locked <==> c.id !in approved && exists t :: t in Requisites(c) && t !in approved
    ensures Requisites(c) == [] ==> st != Locked
  {
    if c.id in approved then Completed
    else if AllApproved(Requisites(c), approved) then Available
    else Locked
  }

  /** With nothing approved, no course is Completed and exactly those with prerequisites are Locked. */
  lemma StatusWhenNothingApproved(c: Course)
    ensures StatusOf(c, {}) != Completed
    ensures StatusOf(c, {}) == Locked <==> Requisites(c) != []
  {
    if Requisites(c) != [] {
      assert Requisites(c)[0] in Requisites(c);
    }
  }

  // ---------------------------------------------------------------------------
  // Missing-prerequisite query

  /** `requisitos.filter(reqId => !ramosAprobados.has(reqId))`. */
  function Missing(reqs: seq<string>, approved: set<string>): (m: seq<string>)
    ensures forall t :: t in m <==> t in reqs && t !in approved
    ensures |m| <= |reqs|
  {
    if reqs == [] then []
    else if reqs[0] !in approved then [reqs[0]] + Missing(reqs[1..], approved)
    else Missing(reqs[1..], approved)
  }

  /** The filter keeps the declared order: it distributes over concatenation. */
  lemma {:induction false} MissingConcat(a: seq<string>, b: seq<string>, approved: set<string>)
    ensures Missing(a + b, approved) == Missing(a, approved) + Missing(b, approved)
  {
    if a != [] {
      assert (a + b)[0] == a[0];
      assert (a + b)[1..] == a[1..] + b;
      MissingConcat(a[1..], b, approved);
      if a[0] !in approved {
        assert Missing(a + b, approved) == [a[0]] + Missing(a[1..] + b, approved);
      } else {
        assert Missing(a + b, approved) == Missing(a[1..] + b, approved);
      }
    } else {
      assert a + b == b;
    }
  }

  /** For a course not yet approved, something is missing exactly when it is Locked. */
  lemma MissingIffLocked(c: Course, approved: set<string>)
    requires c.id !in approved
    ensures Missing(Requisites(c), approved) != [] <==> StatusOf(c, approved) == Locked
  {
    var m := Missing(Requisites(c), approved);
    if m != [] {
      assert m[0] in m;
    }
  }

  /** `document.getElementById(id)` over the courses: the first position holding `id`. */
  function Lookup(courses: seq<Course>, id: string): (r: Option<nat>)
    ensures r.Some? ==> r.value < |courses| && courses[r.value].id == id
    ensures r.Some? ==> forall j :: 0 <= j < r.value ==> courses[j].id != id
    ensures r.None? <==> forall j :: 0 <= j < |courses| ==> courses[j].id != id
  {
    if courses == [] then None
    else if courses[0].id == id then Some(0)
    else match Lookup(courses[1..], id)
      case Some(k) => Some(k + 1)
      case None => None
  }

  /** Position `j` is the first course, in document order, whose id is `id`. */
  ghost predicate FirstWithId(courses: seq<Course>, id: string, j: int) {
    0 <= j < |courses| && courses[j].id == id && forall m :: 0 <= m < j ==> courses[m].id != id
  }

  /** The name listed for a prerequisite id, or the placeholder when no course has that id. */
  function DisplayName(courses: seq<Course>, id: string): (r: string)
    ensures (forall j :: 0 <= j < |courses| ==> courses[j].id != id) ==> r == UnknownName
    ensures forall j :: FirstWithId(courses, id, j) ==> r == courses[j].name
  {
    match Lookup(courses, id)
    case Some(k) => courses[k].name
    case None => UnknownName
  }

  /** The names the modal lists for course `c`, in declared order. */
  function MissingNames(courses: seq<Course>, c: Course, approved: set<string>): (r: seq<string>)
    ensures |r| == |Missing(Requisites(c), approved)|
    ensures forall j :: 0 <= j < |r| ==> r[j] == DisplayName(courses, Missing(Requisites(c), approved)[j])
    ensures c.id !in approved ==> (r == [] <==> StatusOf(c, approved) != Locked)
  {
    var m := Missing(Requisites(c), approved);
    var r := seq(|m|, j requires 0 <= j < |m| => DisplayName(courses, m[j]));
    if c.id in approved then r
    else
      MissingIffLocked(c, approved);
      r
  }

  // ---------------------------------------------------------------------------
  // Consistency of the approved set

  /** Every approved course's prerequisites are approved. */
  ghost predicate DownwardClosed(courses: seq<Course>, approved: set<string>) {
    forall i, t :: 0 <= i < |courses| && courses[i].id in approved && t in Requisites(courses[i]) ==> t in approved
  }

  /** No other course position shares the id of position `k`. */
  ghost predicate IdUniqueAt(courses: seq<Course>, k: nat)
    requires k < |courses|
  {
    forall j :: 0 <= j < |courses| && courses[j].id == courses[k].id ==> j == k
  }

  /** No course whose id is in `kept` lists (in the raw reading) an id of `gone`. */
  ghost predicate NoneListed(courses: seq<Course>, kept: set<string>, gone: set<string>) {
    forall i, t :: 0 <= i < |courses| && courses[i].id in kept && t in RawRequisites(courses[i]) ==> t !in gone
  }

  /**
   * `p` lists course positions whose ids are all in `within`; each course
   * lists the next one's id, and the last one lists `target`.
   */
  ghost predicate IsChain(courses: seq<Course>, p: seq<int>, target: string, within: set<string>) {
    && |p| > 0
    && (forall j :: 0 <= j < |p| ==> 0 <= p[j] < |courses| && courses[p[j]].id in within)
    && (forall j :: 0 < j < |p| ==> courses[p[j]].id in RawRequisites(courses[p[j - 1]]))
    && target in RawRequisites(courses[p[|p| - 1]])
  }

  /** `x` reaches `target` through a chain of prerequisites inside `within`. */
  ghost predicate DependsOn(courses: seq<Course>, x: string, target: string, within: set<string>) {
    exists p :: IsChain(courses, p, target, within) && courses[p[0]].id == x
  }

  /** The ids of `within` that depend, through `within`, on `target`. */
  ghost function Dependents(courses: seq<Course>, within: set<string>, target: string): set<string> {
    set x | x in within && DependsOn(courses, x, target, within)
  }

  /**
   * What is left of `approved` once `removed` has been taken away and the
   * retraction has cascaded: every approved id that depends on `removed`
   * is gone, everything else stays.
   */
  ghost function Retract(courses: seq<Course>, approved: set<string>, removed: string): (r: set<string>)
    ensures r <= approved
    ensures forall x :: x in approved && x !in r ==> DependsOn(courses, x, removed, approved)
  {
    approved - Dependents(courses, approved, removed)
  }

  /** The approved set after a click on course `k`. */
  ghost function Toggle(courses: seq<Course>, approved: set<string>, k: nat): (r: set<string>)
    requires k < |courses|
    ensures courses[k].id in r <==> StatusOf(courses[k], approved) == Available
    ensures r - {courses[k].id} <= approved
  {
    var c := courses[k];
    match StatusOf(c, approved)
    case Locked => approved
    case Completed => Retract(courses, approved - {c.id}, c.id)
    case Available => approved + {c.id}
  }

  // ---------------------------------------------------------------------------
  // Lemmas about the cascade

  /** A set is at least as large as each of its subsets. */
  lemma {:induction false} SubsetCardinality(a: set<string>, b: set<string>)
    requires a <= b
    ensures |a| <= |b|
  {
    if a != {} {
      var x :| x in a;
      SubsetCardinality(a - {x}, b - {x});
    }
  }

  /**
   * When nothing left in `kept` lists `target` or an id of `within` that was
   * dropped, the head of every chain inside `within` has been dropped too.
   */
  lemma {:induction false} ChainHeadGone(courses: seq<Course>, p: seq<int>, target: string, within: set<string>, kept: set<string>)
    requires IsChain(courses, p, target, within)
    requires NoneListed(courses, kept, {target} + (within - kept))
    ensures courses[p[0]].id !in kept
  {
    if |p| > 1 {
      var q := p[1..];
      assert IsChain(courses, q, target, within) by {
        forall j | 0 < j < |q| ensures courses[q[j]].id in RawRequisites(courses[q[j - 1]]) {
          assert q[j] == p[j + 1] && q[j - 1] == p[j];
        }
      }
      ChainHeadGone(courses, q, target, within, kept);
      assert q[0] == p[1];
      assert courses[p[1]].id in within - kept;
      assert courses[p[1]].id in RawRequisites(courses[p[0]]);
    }
  }

  /**
   * The result of a cascade is determined by two facts alone: it removes only
   * dependents, and nothing it keeps lists `removed` or a removed id.  Any
   * traversal order with those two outcomes yields `Retract`.
   */
  lemma RetractUnique(courses: seq<Course>, approved: set<string>, removed: string, kept: set<string>)
    requires kept <= approved
    requires approved - kept <= Dependents(courses, approved, removed)
    requires NoneListed(courses, kept, {removed} + (approved - kept))
    ensures kept == Retract(courses, approved, removed)
  {
    forall x | x in Dependents(courses, approved, removed)
      ensures x !in kept
    {
      var p :| IsChain(courses, p, removed, approved) && courses[p[0]].id == x;
      ChainHeadGone(courses, p, removed, approved, kept);
    }
  }

  /** A course that lists the head of a chain can be put in front of it. */
  lemma ChainPrepend(courses: seq<Course>, i: nat, p: seq<int>, target: string, within: set<string>)
    requires IsChain(courses, p, target, within)
    requires i < |courses| && courses[i].id in within && courses[p[0]].id in RawRequisites(courses[i])
    ensures IsChain(courses, [i] + p, target, within)
  {
    var q := [i] + p;
    forall j | 0 < j < |q| ensures courses[q[j]].id in RawRequisites(courses[q[j - 1]]) {
      if j > 1 {
        assert q[j] == p[j - 1] && q[j - 1] == p[j - 2];
      }
    }
  }

  /** A course listed by the last course of a chain, and listing the target, can be put at its end. */
  lemma ChainAppend(courses: seq<Course>, p: seq<int>, i: nat, target: string, within: set<string>)
    requires i < |courses| && IsChain(courses, p, courses[i].id, within)
    requires courses[i].id in within && target in RawRequisites(courses[i])
    ensures IsChain(courses, p + [i], target, within)
  {
    var q := p + [i];
    forall j | 0 < j < |q| ensures courses[q[j]].id in RawRequisites(courses[q[j - 1]]) {
      if j < |p| {
        assert q[j] == p[j] && q[j - 1] == p[j - 1];
      }
    }
  }

  /**
   * After the cascade no course still approved lists the removed id or any id
   * the cascade removed.
   */
  lemma RetractClosed(courses: seq<Course>, approved: set<string>, removed: string)
    ensures NoneListed(courses, Retract(courses, approved, removed), {removed} + Dependents(courses, approved, removed))
  {
    var deps := Dependents(courses, approved, removed);
    forall i, t | 0 <= i < |courses| && courses[i].id in approved && t in RawRequisites(courses[i]) && t in {removed} + deps
      ensures courses[i].id in deps
    {
      if t == removed {
        assert IsChain(courses, [i], removed, approved);
      } else {
        var p :| IsChain(courses, p, removed, approved) && courses[p[0]].id == t;
        ChainPrepend(courses, i, p, removed, approved);
      }
    }
  }

  /**
   * One step of the cascade: a course `i` inside `outer` that lists `target`
   * depends on it, and so does everything that depends on `i`'s id inside a
   * smaller set.
   */
  lemma DependentsExtend(courses: seq<Course>, outer: set<string>, inner: set<string>, i: nat, target: string)
    requires inner <= outer
    requires i < |courses| && courses[i].id in outer && target in RawRequisites(courses[i])
    ensures courses[i].id in Dependents(courses, outer, target)
    ensures Dependents(courses, inner, courses[i].id) <= Dependents(courses, outer, target)
  {
    assert IsChain(courses, [i], target, outer);
    forall x | x in Dependents(courses, inner, courses[i].id)
      ensures x in Dependents(courses, outer, target)
    {
      var p :| IsChain(courses, p, courses[i].id, inner) && courses[p[0]].id == x;
      assert IsChain(courses, p, courses[i].id, outer);
      ChainAppend(courses, p, i, target, outer);
      assert (p + [i])[0] == p[0];
    }
  }

  /** A course nobody lists has no dependents. */
  lemma NoDependents(courses: seq<Course>, approved: set<string>, id: string)
    requires forall i :: 0 <= i < |courses| ==> id !in RawRequisites(courses[i])
    ensures Dependents(courses, approved, id) == {}
  {
    assert forall x :: x !in Dependents(courses, approved, id);
  }

  /**
   * What a cascade for `removed` that started from `start` has achieved after
   * visiting the first `i` courses: it removed only dependents of `removed`,
   * nothing it kept lists an id it removed, and no visited course it kept
   * lists `removed`.
   */
  ghost predicate CascadeSoFar(courses: seq<Course>, start: set<string>, approved: set<string>, removed: string, i: nat) {
    && i <= |courses|
    && approved <= start
    && start - approved <= Dependents(courses, start, removed)
    && NoneListed(courses, approved, start - approved)
    && forall j :: 0 <= j < i && courses[j].id in approved ==> removed !in RawRequisites(courses[j])
  }

  /**
   * Visiting course `i`: when it lists `removed` and is still approved it is
   * un-approved and its own cascade runs, and what has been achieved extends
   * to the first `i + 1` courses.
   */
  lemma CascadeVisit(courses: seq<Course>, start: set<string>, before: set<string>, removed: string, i: nat)
    requires i < |courses| && CascadeSoFar(courses, start, before, removed, i)
    ensures removed in RawRequisites(courses[i]) && courses[i].id in before ==>
      CascadeSoFar(courses, start, Retract(courses, before - {courses[i].id}, courses[i].id), removed, i + 1)
    ensures !(removed in RawRequisites(courses[i]) && courses[i].id in before) ==>
      CascadeSoFar(courses, start, before, removed, i + 1)
  {
    var id := courses[i].id;
    if removed in RawRequisites(courses[i]) && id in before {
      var inner := before - {id};
      var after := Retract(courses, inner, id);
      DependentsExtend(courses, start, inner, i, removed);
      RetractClosed(courses, inner, id);
      assert start - after == (start - before) + {id} + Dependents(courses, inner, id);
    }
  }

  /** Once every course has been visited, the cascade has computed `Retract`. */
  lemma CascadeDone(courses: seq<Course>, start: set<string>, approved: set<string>, removed: string)
    requires CascadeSoFar(courses, start, approved, removed, |courses|)
    ensures approved == Retract(courses, start, removed)
  {
    RetractUnique(courses, start, removed, approved);
  }

  // ---------------------------------------------------------------------------
  // Lemmas about a click

  /**
   * A click on a Locked course changes nothing, one on an Available course adds
   * exactly its id, and one on a Completed course removes its id and only ids
   * that depend on it.
   */
  lemma ToggleEffect(courses: seq<Course>, approved: set<string>, k: nat)
    requires k < |courses|
    ensures StatusOf(courses[k], approved) == Locked ==> Toggle(courses, approved, k) == approved
    ensures StatusOf(courses[k], approved) == Available ==>
      courses[k].id !in approved && Toggle(courses, approved, k) == approved + {courses[k].id}
    ensures StatusOf(courses[k], approved) == Completed ==>
      var rest := approved - {courses[k].id};
      && Toggle(courses, approved, k) <= rest
      && forall x :: x in rest && x !in Toggle(courses, approved, k) ==> DependsOn(courses, x, courses[k].id, rest)
  {
  }

  /**
   * Un-approving a course empties the approved set when every other approved
   * id depends on it.
   */
  lemma ToggleRemovesAll(courses: seq<Course>, approved: set<string>, k: nat)
    requires k < |courses| && courses[k].id in approved
    requires forall x :: x in approved && x != courses[k].id ==>
      DependsOn(courses, x, courses[k].id, approved - {courses[k].id})
    ensures Toggle(courses, approved, k) == {}
  {
  }

  /**
   * A click keeps the approved set downward closed.  Only approving a course
   * whose id another course element shares can break it: that other element
   * becomes approved without its own prerequisites being checked.
   */
  lemma ToggleKeepsClosed(courses: seq<Course>, approved: set<string>, k: nat)
    requires k < |courses|
    requires StatusOf(courses[k], approved) == Available ==> IdUniqueAt(courses, k)
    requires DownwardClosed(courses, approved)
    ensures DownwardClosed(courses, Toggle(courses, approved, k))
  {
    var c := courses[k];
    var after := Toggle(courses, approved, k);
    match StatusOf(c, approved)
    case Locked =>
    case Available =>
      forall i, t | 0 <= i < |courses| && courses[i].id in after && t in Requisites(courses[i])
        ensures t in after
      {
        if courses[i].id == c.id {
          assert i == k;
        }
      }
    case Completed =>
      var rest := approved - {c.id};
      RetractClosed(courses, rest, c.id);
      forall i, t | 0 <= i < |courses| && courses[i].id in after && t in Requisites(courses[i])
        ensures t in after
      {
        assert t in RawRequisites(courses[i]);
      }
  }

  /**
   * A course with no prerequisites that no course lists: clicking it twice
   * gives back the approved set it started from.
   */
  lemma ToggleTwiceOnLeaf(courses: seq<Course>, approved: set<string>, k: nat)
    requires k < |courses|
    requires Requisites(courses[k]) == []
    requires forall i :: 0 <= i < |courses| ==> courses[k].id !in RawRequisites(courses[i])
    ensures Toggle(courses, Toggle(courses, approved, k), k) == approved
  {
    var id := courses[k].id;
    NoDependents(courses, approved - {id}, id);
    NoDependents(courses, approved, id);
    if id in approved {
      assert approved - {id} + {id} == approved;
    } else {
      assert approved + {id} - {id} == approved;
    }
  }
}
