/** What identifies a workload, and lists without repetition. */
module Workloads {

  /** Kind and name. */
  type WorkloadKey = (string, string)

  ghost predicate NoDuplicates<T>(xs: seq<T>) {
    forall i, j :: 0 <= i < j < |xs| ==> xs[i] != xs[j]
  }
}
