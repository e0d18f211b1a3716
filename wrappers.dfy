/** The optional-value wrapper, and the unspecified choice that models hash-map iteration order. */
module Wrappers {
  datatype Option<+T> = None | Some(value: T)

  /**
   * Some element of a non-empty key set. Which one is unspecified: it
   * stands for the next entry of an unordered_map iteration.
   */
  method Pick(s: set<int>) returns (x: int)
    requires s != {}
    ensures x in s
  {
    HasElement(s);
    x :| x in s;
  }

  lemma HasElement(s: set<int>)
    requires s != {}
    ensures exists x :: x in s
  {
    if forall x :: x !in s {
      assert false;
    }
  }
}
