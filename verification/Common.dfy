/** Declarations shared by the scheduler and the memory manager. */
module Common {

  const PAGE_SIZE := 256  // PAGING_PAGESZ

  datatype Option<+T> = None | Some(value: T)

  ghost predicate NoDuplicates<T>(s: seq<T>) {
    forall i, j :: 0 <= i < j < |s| ==> s[i] != s[j]
  }
}
