/**
 * The grid page itself: the set of approved course ids, which clicks change
 * in place, and the status flags each course element carries.  Every
 * operation is proved against the value-level definitions of `Curriculum`.
 */
module Grid {
  import opened Wrappers
  import opened Curriculum

  class Malla {
    /** The `.ramo` elements, in document order; fixed for the life of the page. */
    const courses: seq<Course>
    /** `ramosAprobados`. */
    var approved: set<string>
    /** The `aprobado` / `bloqueado` classes currently on each course element. */
    var flags: seq<Status>

    /** The flags on the page show the status of every course for the current approved set. */
    ghost predicate Valid()
      reads this
    {
      && |flags| == |courses|
      && forall i :: 0 <= i < |courses| ==> flags[i] == StatusOf(courses[i], approved)
    }

    /**
     * Page start-up: the approved set is whatever the store held (`None` when it
     * held nothing), then every course gets its status.
     */
    constructor (courses: seq<Course>, stored: Option<seq<string>>)
      ensures this.courses == courses
      ensures stored.None? ==> approved == {}
      ensures stored.Some? ==> forall x :: x in approved <==> x in stored.value
      ensures Valid()
    {
      this.courses := courses;
      approved := if stored.Some? then (set x | x in stored.value) else {};
      flags := seq(|courses|, _ => Available);
      new;
      Refresh();
    }

    /** `actualizarMalla`: recompute the flags of every course, in document order. */
    method Refresh()
      requires |flags| == |courses|
      modifies this`flags
      ensures Valid()
    {
      var i := 0;
      while i < |courses|
        invariant 0 <= i <= |courses| && |flags| == |courses|
        invariant forall j :: 0 <= j < i ==> flags[j] == StatusOf(courses[j], approved)
      {
        flags := flags[i := StatusOf(courses[i], approved)];
        i := i + 1;
      }
    }

    /**
     * `desaprobarCascada`: scan every course in document order; one that lists
     * `removed` and is still approved is un-approved, and the cascade recurses
     * on it.  Each recursive call follows the removal of a current member, so
     * the size of the approved set decreases even on a cyclic graph.
     */
    method Cascade(removed: string)
      modifies this`approved
      ensures approved == Retract(courses, old(approved), removed)
      decreases |approved|
    {
      ghost var start := approved;
      var i := 0;
      while i < |courses|
        invariant CascadeSoFar(courses, start, approved, removed, i)
      {
        var c := courses[i];
        CascadeVisit(courses, start, approved, removed, i);
        if removed in RawRequisites(c) && c.id in approved {
          ghost var before := approved;
          approved := approved - {c.id};
          SubsetCardinality(before, start);
          Cascade(c.id);
        }
        i := i + 1;
      }
      CascadeDone(courses, start, approved, removed);
    }

    /**
     * The `forEach` of `mostrarModalRequisitos` that fills the modal's list:
     * one name per id, in order, each the name of the first course with that
     * id or the placeholder.
     */
    method ListNames(ids: seq<string>) returns (names: seq<string>)
      ensures |names| == |ids|
      ensures forall j :: 0 <= j < |ids| ==> names[j] == DisplayName(courses, ids[j])
    {
      names := [];
      var j := 0;
      while j < |ids|
        invariant 0 <= j <= |ids| && |names| == j
        invariant forall m :: 0 <= m < j ==> names[m] == DisplayName(courses, ids[m])
      {
        names := names + [DisplayName(courses, ids[j])];
        j := j + 1;
      }
    }

    /**
     * `mostrarModalRequisitos`: the prerequisites of course `k` that are not
     * approved, in declared order, listed by name.
     */
    method ShowMissing(k: nat) returns (names: seq<string>)
      requires k < |courses|
      ensures names == MissingNames(courses, courses[k], approved)
    {
      var missing := Missing(Requisites(courses[k]), approved);
      names := ListNames(missing);
    }

    /**
     * `manejarClickEnRamo`: a click on no course does nothing; on a Locked
     * course it yields the modal's list and changes nothing; on a Completed
     * course it un-approves it and cascades; otherwise it approves it.  The
     * flags are then refreshed.  Saving to the store is not modelled.
     */
    method HandleClick(target: Option<nat>) returns (modal: Option<seq<string>>)
      requires Valid()
      requires target.Some? ==> target.value < |courses|
      modifies this
      ensures Valid()
      ensures target.None? ==> approved == old(approved) && modal == None
      ensures target.Some? ==> approved == Toggle(courses, old(approved), target.value)
      ensures target.Some? ==>
        modal == if StatusOf(courses[target.value], old(approved)) == Locked
                 then Some(MissingNames(courses, courses[target.value], old(approved)))
                 else None
      ensures target.Some? && DownwardClosed(courses, old(approved)) &&
        (StatusOf(courses[target.value], old(approved)) == Available ==> IdUniqueAt(courses, target.value))
        ==> DownwardClosed(courses, approved)
    {
      modal := None;
      if target.None? {
        return;
      }
      var k := target.value;
      var id := courses[k].id;
      if flags[k] == Locked {
        var names := ShowMissing(k);
        modal := Some(names);
        return;
      }
      if flags[k] == Completed {
        approved := approved - {id};
        Cascade(id);
      } else {
        approved := approved + {id};
      }
      Refresh();
      if DownwardClosed(courses, old(approved)) &&
        (StatusOf(courses[k], old(approved)) == Available ==> IdUniqueAt(courses, k)) {
        ToggleKeepsClosed(courses, old(approved), k);
      }
    }

    /**
     * `resetearProgreso`: when the user confirms, the approved set is emptied
     * and the flags refreshed; otherwise nothing changes.  Clearing the store is
     * not modelled.
     */
    method Reset(confirmed: bool)
      requires Valid()
      modifies this
      ensures Valid()
      ensures !confirmed ==> approved == old(approved) && flags == old(flags)
      ensures confirmed ==> approved == {}
      ensures confirmed ==> forall i :: 0 <= i < |courses| ==>
        flags[i] != Completed && (flags[i] == Locked <==> Requisites(courses[i]) != [])
    {
      if confirmed {
        approved := {};
        Refresh();
        forall i | 0 <= i < |courses| {
          StatusWhenNothingApproved(courses[i]);
        }
      }
    }
  }
}
