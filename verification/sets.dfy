/** Facts about finite sets. */
module Sets {

  lemma NoElements<T(!new)>(s: set<T>)
    requires forall x :: x !in s
    ensures s == {}
  {
  }

  lemma AnElement<T(!new)>(s: set<T>) returns (x: T)
    requires s != {}
    ensures x in s
  {
    if forall y :: y !in s {
      NoElements(s);
      assert false;
    }
    x :| x in s;
  }
}
