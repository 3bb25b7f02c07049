/** Counting the members of finite sets. */
module FiniteSets {
  lemma {:induction false} SubsetCounts<T>(few: set<T>, many: set<T>)
    requires few <= many
    ensures |few| <= |many|
  {
    if few != {} {
      var x :| x in few;
      SubsetCounts(few - {x}, many - {x});
    }
  }
}
