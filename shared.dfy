/**
 * The node registry of src/shared.ts: the `Node` class, `createNode` with its module
 * counter, the initial list of nodes and the configured pinning strategy.
 */
module Shared {
  import opened Wrappers
  import opened Enums
  import opened Adapter

  /** A registered IPFS node. Its fields are set once by the constructor and never change. */
  datatype Node = Node(id: string, name: string, nodeType: NodeType, url: string, adapter: NodeAdapter)

  const InvalidNodeType: string := "Invalid node type"
  const LocalhostUrl: string := "http://127.0.0.1:5001"

  /**
   * The `Node` constructor: stores its arguments and picks the adapter by node type;
   * a type without an adapter (`Pinata`) throws.
   */
  function NewNode(id: string, name: string, nodeType: NodeType, url: string): (r: Result<Node>)
    ensures r.Success? <==> nodeType != Pinata
    ensures r.Failure? ==> r.error == InvalidNodeType
    ensures r.Success? ==> && r.value.id == id && r.value.name == name
                           && r.value.nodeType == nodeType && r.value.url == url
    ensures nodeType == Localhost ==> r.Success? && r.value.adapter == LocalhostAdapter
    ensures nodeType == Cloud ==> r.Success? && r.value.adapter == RemoteAdapter(url)
  {
    match nodeType
    case Localhost => Success(Node(id, name, nodeType, url, LocalhostAdapter))
    case Cloud => Success(Node(id, name, nodeType, url, RemoteAdapter(url)))
    case Pinata => Failure(InvalidNodeType)
  }

  // ----- decimal ids (`Number.prototype.toString` on a non-negative integer) -----

  predicate IsDigits(s: string) {
    forall i :: 0 <= i < |s| ==> '0' <= s[i] <= '9'
  }

  function DigitChar(d: nat): (c: char)
    requires d < 10
  {
    ('0' as int + d) as char
  }

  /** The decimal representation of `n`, without leading zeros. */
  function NatToString(n: nat): (s: string)
    ensures |s| >= 1 && IsDigits(s)
    ensures |s| > 1 ==> s[0] != '0'
  {
    if n < 10 then [DigitChar(n)] else NatToString(n / 10) + [DigitChar(n % 10)]
  }

  /** The number a string of decimal digits denotes. */
  function ParseDecimal(s: string): nat
    requires IsDigits(s)
  {
    if s == [] then 0 else 10 * ParseDecimal(s[..|s| - 1]) + (s[|s| - 1] as int - '0' as int)
  }

  /** Reading an id back as a number gives the counter value it was made from. */
  lemma {:induction false} ParseNatToString(n: nat)
    ensures ParseDecimal(NatToString(n)) == n
  {
    var s := NatToString(n);
    if n >= 10 {
      ParseNatToString(n / 10);
      assert s[..|s| - 1] == NatToString(n / 10);
    }
  }

  /** Different counter values give different ids, ordered as the counter values are. */
  lemma IdsDistinctAndIncreasing(i: nat, j: nat)
    requires i < j
    ensures NatToString(i) != NatToString(j)
    ensures ParseDecimal(NatToString(i)) < ParseDecimal(NatToString(j))
  {
    ParseNatToString(i);
    ParseNatToString(j);
  }

  /**
   * The module state of src/shared.ts: the id counter, the ordered node list and the
   * configured strategy. The ghost `issued` lists every id `CreateNode` has handed out.
   */
  class Registry {
    var currentId: nat
    var nodes: seq<Node>
    var pinType: PinStrategy
    ghost var issued: seq<string>

    /** The ids handed out so far are "0", "1", ..., in order, one per counter step. */
    ghost predicate IdsIssued()
      reads this
    {
      |issued| == currentId && forall k :: 0 <= k < |issued| ==> issued[k] == NatToString(k)
    }

    ghost predicate Valid()
      reads this
    {
      IdsIssued() && |nodes| >= 1
    }

    /** The module's initial state: strategy Parallel and one localhost node with id "0". */
    constructor ()
      ensures Valid()
      ensures pinType == Parallel
      ensures nodes == [Node("0", "localhost", Localhost, LocalhostUrl, LocalhostAdapter)]
      ensures currentId == 1
    {
      currentId := 0;
      issued := [];
      pinType := Parallel;
      nodes := [];
      new;
      var first := CreateNode("localhost", Localhost, LocalhostUrl);
      nodes := [first.value];
    }

    /**
     * `createNode`: takes the counter's value as the id and increments the counter before
     * constructing, so a rejected node type still uses up an id.
     */
    method CreateNode(name: string, nodeType: NodeType, url: string) returns (r: Result<Node>)
      requires IdsIssued()
      modifies this
      ensures IdsIssued()
      ensures currentId == old(currentId) + 1
      ensures issued == old(issued) + [NatToString(old(currentId))]
      ensures r == NewNode(NatToString(old(currentId)), name, nodeType, url)
      ensures nodes == old(nodes) && pinType == old(pinType)
    {
      var id := NatToString(currentId);
      currentId := currentId + 1;
      issued := issued + [id];
      r := NewNode(id, name, nodeType, url);
    }
  }

  /** Successive `createNode` calls hand out pairwise distinct, numerically increasing ids. */
  lemma IssuedIdsIncrease(issued: seq<string>, i: nat, j: nat)
    requires forall k :: 0 <= k < |issued| ==> issued[k] == NatToString(k)
    requires i < j < |issued|
    ensures issued[i] != issued[j]
    ensures IsDigits(issued[i]) && IsDigits(issued[j])
    ensures ParseDecimal(issued[i]) < ParseDecimal(issued[j])
  {
    IdsDistinctAndIncreasing(i, j);
  }
}
