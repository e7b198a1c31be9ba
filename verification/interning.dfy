/** Dense indices for node names, given out at first sight. */
module Interning {
  import opened Bytes

  /** Dense indices of the node names. */
  ghost predicate Interned(index: map<str, nat>, labels: seq<str>) {
    && (forall i :: 0 <= i < |labels| ==> labels[i] in index && index[labels[i]] == i)
    && (forall x :: x in index ==> index[x] < |labels| && labels[index[x]] == x)
  }

  method NodeIndex(id: str, index: map<str, nat>, labels: seq<str>) returns (index': map<str, nat>, labels': seq<str>)
    requires Interned(index, labels)
    ensures Interned(index', labels') && labels <= labels' && |labels'| <= |labels| + 1 && id in index'
    ensures forall x :: x in labels' <==> x in labels || x == id
  {
    index', labels' := index, labels;
    if id !in index {
      index', labels' := index[id := |labels|], labels + [id];
    }
  }
}
