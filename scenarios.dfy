/**
 * Small grids worked through by hand: the behaviour the page shows for a
 * two-course and a three-course chain, the modal's list, and a click on a
 * Locked course.
 */
module Scenarios {
  import opened Wrappers
  import opened Curriculum
  import Parsing
  import Grid

  /** A, and B which requires A. */
  function TwoChain(): seq<Course> {
    [Course("A", "Algebra", None), Course("B", "Calculo", Some("A"))]
  }

  /** A, B which requires A, and C which requires B. */
  function ThreeChain(): seq<Course> {
    [Course("A", "Algebra", None), Course("B", "Calculo", Some("A")), Course("C", "Ecuaciones", Some("B"))]
  }

  /** A course whose attribute is a single comma-free id requires exactly that id. */
  lemma SingleRequisite(c: Course, x: string)
    requires c.requisites == Some(x) && x != "" && Parsing.CommaFree(x)
    ensures RawRequisites(c) == [x] && Requisites(c) == [x]
  {
    Parsing.SplitJoin([x]);
    Parsing.ParseJoin([x]);
  }

  /** Approving A and then B, starting from nothing; B is Locked until A is approved. */
  lemma TwoChainApprove()
    ensures StatusOf(TwoChain()[0], {}) == Available && StatusOf(TwoChain()[1], {}) == Locked
    ensures Toggle(TwoChain(), {}, 0) == {"A"}
    ensures Toggle(TwoChain(), {"A"}, 1) == {"A", "B"}
  {
    var g := TwoChain();
    SingleRequisite(g[1], "A");
    NoAttributeNoRequisites(g[0]);
    StatusWhenNothingApproved(g[1]);
    assert StatusOf(g[1], {"A"}) == Available;
    assert Toggle(g, {"A"}, 1) == {"A"} + {"B"};
  }

  /**
   * Un-approving A when A and B are approved takes B with it, back to the
   * start (where A is Available and B Locked).
   */
  lemma TwoChainUnapprove()
    ensures Toggle(TwoChain(), {"A", "B"}, 0) == {}
  {
    var g := TwoChain();
    var rest := {"A", "B"} - {"A"};
    SingleRequisite(g[1], "A");
    forall x | x in {"A", "B"} && x != "A"
      ensures DependsOn(g, x, "A", rest)
    {
      assert IsChain(g, [1], "A", rest);
    }
    ToggleRemovesAll(g, {"A", "B"}, 0);
  }

  /** Un-approving A when A, B and C are approved removes B and C as well. */
  lemma ThreeChainCascade()
    ensures Toggle(ThreeChain(), {"A", "B", "C"}, 0) == {}
  {
    var g := ThreeChain();
    var rest := {"A", "B", "C"} - {"A"};
    SingleRequisite(g[1], "A");
    SingleRequisite(g[2], "B");
    forall x | x in {"A", "B", "C"} && x != "A"
      ensures DependsOn(g, x, "A", rest)
    {
      if x == "B" {
        assert IsChain(g, [1], "A", rest);
      } else {
        assert IsChain(g, [2, 1], "A", rest);
      }
    }
    ToggleRemovesAll(g, {"A", "B", "C"}, 0);
  }

  /** With only A1 approved, the modal for B (which requires A1 and A2) lists A2's name alone. */
  lemma ModalListsOnlyWhatIsMissing()
    ensures
      var g := [Course("A1", "Fisica I", None), Course("A2", "Quimica", None), Course("B", "Fisica II", Some("A1,A2"))];
      MissingNames(g, g[2], {"A1"}) == ["Quimica"]
  {
    var g := [Course("A1", "Fisica I", None), Course("A2", "Quimica", None), Course("B", "Fisica II", Some("A1,A2"))];
    assert Parsing.Join(["A1", "A2"]) == "A1,A2";
    Parsing.ParseJoin(["A1", "A2"]);
    assert Requisites(g[2]) == ["A1", "A2"];
    assert Missing(["A1", "A2"], {"A1"}) == ["A2"];
  }

  /** A course element without an id, and a course A with no prerequisites. */
  function NoIdGrid(): seq<Course> {
    [Course("", "Sin id", None), Course("A", "Algebra", None)]
  }

  /**
   * The cascade reads the prerequisite list without dropping empty tokens, so
   * un-approving a course whose id is empty also un-approves every course
   * whose attribute is missing or empty, although such a course requires
   * nothing.
   */
  lemma EmptyIdCascade()
    ensures Requisites(NoIdGrid()[1]) == []
    ensures Toggle(NoIdGrid(), {"", "A"}, 0) == {}
  {
    var g := NoIdGrid();
    var rest := {"", "A"} - {""};
    NoAttributeNoRequisites(g[1]);
    forall x | x in {"", "A"} && x != ""
      ensures DependsOn(g, x, "", rest)
    {
      assert IsChain(g, [1], "", rest);
    }
    ToggleRemovesAll(g, {"", "A"}, 0);
  }

  /** On a fresh page, a click on B only opens the modal; a click on A approves it. */
  method ClickOnFreshPage() {
    var page := new Grid.Malla(TwoChain(), None);
    TwoChainApprove();
    var modal := page.HandleClick(Some(1));
    assert page.approved == {} && modal.Some?;
    modal := page.HandleClick(Some(0));
    assert page.approved == {"A"} && modal == None;
  }

  /** On a page restored with A and B approved, a click on A clears both. */
  method ClickOnRestoredPage() {
    var page := new Grid.Malla(TwoChain(), Some(["A", "B"]));
    assert page.approved == {"A", "B"};
    TwoChainUnapprove();
    var modal := page.HandleClick(Some(0));
    assert page.approved == {};
  }
}
