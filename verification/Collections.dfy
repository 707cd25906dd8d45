// A fact about finite sets.
module Collections {
  lemma {:induction false} Cardinality<T>(s: set<T>, t: set<T>)
    requires s <= t
    ensures |s| <= |t|
  {
    if s != {} {
      var x :| x in s;
      Cardinality(s - {x}, t - {x});
    }
  }
}
