/** The layer index: a doubly linked list of `LayerIndex` nodes, one per
    layer, each holding its layer number and the byte offset where the layer
    starts. Nodes are kept in a sequence and a link is the position of the
    node it points at; the tail is the parser's `currentLayer`. */
module LayerIndex {
  import opened Results

  datatype LayerEntry = LayerEntry(index: nat, offset: nat, next: Option<nat>, prev: Option<nat>)

  /** A newly constructed `LayerIndex` node: layer 0 at offset 0, unlinked. */
  const Fresh: LayerEntry := LayerEntry(0, 0, None, None)

  /** All nodes reachable from the root, and the position of the current one. */
  datatype Chain = Chain(entries: seq<LayerEntry>, current: nat)

  /** The index before any layer change: the root alone, which is also current. */
  const Root: Chain := Chain([Fresh], 0)

  /** The shape the parser keeps: node i is layer i, linked to its neighbours
      only, the root starts at offset 0 and the current node is the tail. */
  ghost predicate ChainOk(ch: Chain)
  {
    && |ch.entries| >= 1
    && ch.current == |ch.entries| - 1
    && ch.entries[0].offset == 0
    && (forall i :: 0 <= i < |ch.entries| ==> ch.entries[i].index == i)
    && (forall i :: 0 <= i < |ch.entries| ==>
          ch.entries[i].next == if i + 1 < |ch.entries| then Some(i + 1) else None)
    && (forall i :: 0 <= i < |ch.entries| ==>
          ch.entries[i].prev == if i > 0 then Some(i - 1) else None)
  }

  lemma RootOk()
    ensures ChainOk(Root)
  {
  }

  /** Every node's successor has it as predecessor, and the other way round. */
  lemma LinksInverse(ch: Chain, i: nat, j: nat)
    requires ChainOk(ch) && i < |ch.entries| && j < |ch.entries|
    ensures ch.entries[i].next == Some(j) <==> ch.entries[j].prev == Some(i)
  {
  }

  /** The new-layer branch of `parseLine`: a node one layer above the current
      one, starting at `offset`, linked after it and made current. */
  function Append(ch: Chain, offset: nat): (r: Chain)
    requires ch.current < |ch.entries|
    ensures |r.entries| == |ch.entries| + 1 && r.current == |ch.entries|
    ensures r.entries[r.current].index == ch.entries[ch.current].index + 1
    ensures r.entries[r.current].offset == offset
    ensures r.entries[r.current].prev == Some(ch.current)
    ensures r.entries[ch.current].next == Some(r.current)
    ensures forall i :: 0 <= i < |ch.entries| ==>
              r.entries[i].index == ch.entries[i].index && r.entries[i].offset == ch.entries[i].offset
    ensures ChainOk(ch) ==> ChainOk(r)
  {
    var tail := ch.entries[ch.current];
    var node := LayerEntry(tail.index + 1, offset, None, Some(ch.current));
    Chain(ch.entries[ch.current := tail.(next := Some(|ch.entries|))] + [node], |ch.entries|)
  }

  /** One line of the closing log of `indexFile`: a layer number and its offset. */
  datatype LogLine = LogLine(index: nat, offset: nat)

  /** The closing loop of `indexFile`, from node i: log the node and follow
      `next` for as long as there is one, so the last node is never logged. */
  function Logged(ch: Chain, i: nat): (r: seq<LogLine>)
    requires ChainOk(ch) && i < |ch.entries|
    ensures |r| == |ch.entries| - 1 - i
    ensures forall k :: 0 <= k < |r| ==>
              r[k] == LogLine(ch.entries[i + k].index, ch.entries[i + k].offset)
    decreases |ch.entries| - i
  {
    match ch.entries[i].next
    case None => []
    case Some(j) => [LogLine(ch.entries[i].index, ch.entries[i].offset)] + Logged(ch, j)
  }

  /** Walking from the root logs every layer but the current one, layer k as the k-th line. */
  lemma LoggedFromRoot(ch: Chain)
    requires ChainOk(ch)
    ensures |Logged(ch, 0)| == ch.current
    ensures forall k :: 0 <= k < ch.current ==> Logged(ch, 0)[k] == LogLine(k, ch.entries[k].offset)
  {
  }
}
