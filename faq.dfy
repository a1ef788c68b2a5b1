/** The FAQ accordion: at most one question open, toggled by clicking its header. */
module Faq {
  import opened Optional

  /** Clicking question `index`: closes it when it is the open one, otherwise opens exactly it. */
  function Toggled(openIndex: Option<int>, index: int): (r: Option<int>)
    ensures openIndex == Some(index) ==> r == None
    ensures openIndex != Some(index) ==> r == Some(index)
  {
    if openIndex == Some(index) then None else Some(index)
  }

  /** The answer to question `index` is shown, and its chevron points up, exactly when it is the open one. */
  predicate Shown(openIndex: Option<int>, index: int) {
    openIndex == Some(index)
  }

  /** At most one answer is visible at a time. */
  lemma AtMostOneShown(openIndex: Option<int>, i: int, j: int)
    requires Shown(openIndex, i) && Shown(openIndex, j)
    ensures i == j
  {
  }

  /** After a click on `index`, answer `j` shows exactly when `j` is `index` and `index` was closed. */
  lemma ToggleShows(openIndex: Option<int>, index: int, j: int)
    ensures Shown(Toggled(openIndex, index), j) <==> j == index && !Shown(openIndex, index)
  {
  }

  /** Two clicks on a closed question leave every answer hidden. */
  lemma ToggleTwiceCloses(openIndex: Option<int>, index: int)
    requires !Shown(openIndex, index)
    ensures Toggled(Toggled(openIndex, index), index) == None
  {
  }

  class FaqAccordion {
    var openIndex: Option<int>

    /** Initially every answer is hidden. */
    constructor ()
      ensures openIndex == None
    {
      openIndex := None;
    }

    method Toggle(index: int)
      modifies this
      ensures openIndex == Toggled(old(openIndex), index)
    {
      openIndex := Toggled(openIndex, index);
    }
  }
}
