/** `NewMergeStructure` (internal/structures/merge_structure.go): heap and winner tree are interchangeable. */
module MergeStructures {
  import opened Records
  import opened KWayMerge
  import MinHeap
  import WinnerTree

  datatype MergeStructureType = Heap | WTree

  /** Drain a merge structure of either kind. */
  method MergeAll(kind: MergeStructureType, streams: seq<seq<Record>>) returns (out: seq<Record>)
    requires AllSorted(streams)
    ensures Sorted(out)
    ensures multiset(out) == Remaining(streams, Start(streams))
  {
    if |streams| == 0 {
      out := [];
    } else if kind == Heap {
      out := MinHeap.MergeWithHeap(streams);
    } else {
      out := WinnerTree.MergeWithWinnerTree(streams);
    }
  }

  /** The choice of structure is not observable when a version is one record. */
  method MergeBothWays(streams: seq<seq<Record>>) returns (heapOut: seq<Record>, treeOut: seq<Record>)
    requires AllSorted(streams)
    ensures Sorted(heapOut) && multiset(heapOut) == Remaining(streams, Start(streams))
    ensures OnePerVersion(Remaining(streams, Start(streams))) ==> heapOut == treeOut
  {
    heapOut := MergeAll(Heap, streams);
    treeOut := MergeAll(WTree, streams);
    if OnePerVersion(Remaining(streams, Start(streams))) {
      MergesAgree(streams, heapOut, treeOut);
    }
  }
}
