/**
 * The node registry of `MeshNetwork.kt`: a mutable list of nodes in which no two
 * nodes share a name, and a broadcast that hands one message to every node in
 * list order.
 */
module Mesh {

  import opened Nodes

  /** Some node in `nodes` is called `name`. */
  predicate HasName(nodes: seq<MeshNode>, name: string)
  {
    exists i :: 0 <= i < |nodes| && nodes[i].username == name
  }

  /** No two nodes in `nodes` share a name. */
  predicate UniqueNames(nodes: seq<MeshNode>)
  {
    forall i, j :: 0 <= i < j < |nodes| ==> nodes[i].username != nodes[j].username
  }

  /**
   * The node list after `addNode(node)`: the node is appended when no node of
   * that name is registered yet; otherwise the list is left as it is, whatever
   * the new node's address.
   */
  function WithNode(nodes: seq<MeshNode>, node: MeshNode): (r: seq<MeshNode>)
    ensures |nodes| <= |r| <= |nodes| + 1
    ensures r[..|nodes|] == nodes
    ensures HasName(r, node.username)
    ensures |r| == |nodes| + 1 <==> !HasName(nodes, node.username)
    ensures |r| == |nodes| + 1 ==> r[|nodes|] == node
    ensures UniqueNames(nodes) ==> UniqueNames(r)
  {
    if HasName(nodes, node.username) then nodes
    else
      var r := nodes + [node];
      assert r[|nodes|].username == node.username;
      r
  }

  /** Adding the same node a second time changes nothing. */
  lemma WithNodeIdempotent(nodes: seq<MeshNode>, node: MeshNode)
    ensures WithNode(WithNode(nodes, node), node) == WithNode(nodes, node)
  {
  }

  /** A node whose name is taken is refused, whatever its address. */
  lemma NameTakenRefused(nodes: seq<MeshNode>, node: MeshNode)
    requires HasName(nodes, node.username)
    ensures WithNode(nodes, node) == nodes
  {
  }

  /** The node list after `addNode` has been called with each of `requests`, in order, on a new network. */
  function Registered(requests: seq<MeshNode>): seq<MeshNode>
  {
    if requests == [] then []
    else WithNode(Registered(requests[..|requests| - 1]), requests[|requests| - 1])
  }

  /** Every list the registry can reach from an empty one has unique names. */
  lemma {:induction false} RegisteredUnique(requests: seq<MeshNode>)
    ensures UniqueNames(Registered(requests))
  {
    if requests != [] {
      RegisteredUnique(requests[..|requests| - 1]);
    }
  }

  /** A name is registered exactly when some request carried it. */
  lemma {:induction false} RegisteredNames(requests: seq<MeshNode>, name: string)
    ensures HasName(Registered(requests), name) <==>
            exists i :: 0 <= i < |requests| && requests[i].username == name
  {
    if requests != [] {
      var n := |requests| - 1;
      var before := requests[..n];
      RegisteredNames(before, name);
      var prev := Registered(before);
      var r := Registered(requests);
      if HasName(r, name) {
        if !HasName(prev, name) {
          assert requests[n].username == name;
        } else {
          var i :| 0 <= i < |before| && before[i].username == name;
          assert requests[i] == before[i];
        }
      }
      if exists i :: 0 <= i < |requests| && requests[i].username == name {
        var i :| 0 <= i < |requests| && requests[i].username == name;
        if i < n {
          assert before[i] == requests[i];
          var k :| 0 <= k < |prev| && prev[k].username == name;
          assert r[..|prev|][k] == prev[k];
        }
      }
    }
  }

  /** The registered nodes are among the requested ones. */
  lemma {:induction false} RegisteredFromRequests(requests: seq<MeshNode>, node: MeshNode)
    requires node in Registered(requests)
    ensures node in requests
  {
    var n := |requests| - 1;
    var before := requests[..n];
    var prev := Registered(before);
    var r := Registered(requests);
    var k :| 0 <= k < |r| && r[k] == node;
    if k < |prev| {
      assert r[..|prev|][k] == prev[k];
      RegisteredFromRequests(before, node);
    } else {
      assert node == requests[n];
    }
  }

  /** First come, first served: the earliest request for a name is the node registered under it. */
  lemma {:induction false} FirstRequestWins(requests: seq<MeshNode>, i: nat)
    requires i < |requests|
    requires forall j :: 0 <= j < i ==> requests[j].username != requests[i].username
    ensures requests[i] in Registered(requests)
  {
    var n := |requests| - 1;
    var before := requests[..n];
    var prev := Registered(before);
    var r := Registered(requests);
    if i == n {
      RegisteredNames(before, requests[n].username);
      assert r == prev + [requests[n]];
      assert r[|prev|] == requests[n];
    } else {
      FirstRequestWins(before, i);
      var k :| 0 <= k < |prev| && prev[k] == requests[i];
      assert r[..|prev|][k] == prev[k];
      assert r[k] == requests[i];
    }
  }

  /** One call of `node.receiveMessage(message)`. */
  datatype Delivery = Delivery(recipient: MeshNode, message: string)

  /** `trace` hands `message` to each of `nodes` once, in list order. */
  predicate FansOut(nodes: seq<MeshNode>, message: string, trace: seq<Delivery>)
  {
    && |trace| == |nodes|
    && forall k :: 0 <= k < |trace| ==> trace[k] == Delivery(nodes[k], message)
  }

  /** How many deliveries in `trace` go to a node called `name`. */
  function DeliveriesTo(trace: seq<Delivery>, name: string): nat
  {
    if trace == [] then 0
    else (if trace[0].recipient.username == name then 1 else 0) + DeliveriesTo(trace[1..], name)
  }

  /** With unique names, a fan-out reaches every registered name exactly once and no other name. */
  lemma {:induction false} FanOutExactlyOnce(nodes: seq<MeshNode>, message: string, trace: seq<Delivery>, name: string)
    requires UniqueNames(nodes)
    requires FansOut(nodes, message, trace)
    ensures DeliveriesTo(trace, name) == if HasName(nodes, name) then 1 else 0
  {
    if nodes != [] {
      var rest := nodes[1..];
      assert UniqueNames(rest) by {
        forall i, j | 0 <= i < j < |rest| ensures rest[i].username != rest[j].username {
          assert rest[i] == nodes[i + 1] && rest[j] == nodes[j + 1];
        }
      }
      assert FansOut(rest, message, trace[1..]) by {
        forall k | 0 <= k < |trace[1..]| ensures trace[1..][k] == Delivery(rest[k], message) {
          assert trace[1..][k] == trace[k + 1];
        }
      }
      FanOutExactlyOnce(rest, message, trace[1..], name);
      if nodes[0].username != name {
        if HasName(nodes, name) {
          var j :| 0 <= j < |nodes| && nodes[j].username == name;
          assert rest[j - 1] == nodes[j];
        }
        if !HasName(nodes, name) {
          forall j | 0 <= j < |rest| ensures rest[j].username != name {
            assert rest[j] == nodes[j + 1];
          }
        }
      }
    }
  }

  /** `MeshNetwork`: the registry object; `nodes` is the private node list of the source. */
  class MeshNetwork {
    var nodes: seq<MeshNode>
    /** Every node handed to `AddNode`, in call order. */
    ghost var requests: seq<MeshNode>

    ghost predicate Valid()
      reads this
    {
      && nodes == Registered(requests)
      && UniqueNames(nodes)
    }

    constructor ()
      ensures Valid()
      ensures nodes == [] && requests == []
    {
      nodes := [];
      requests := [];
    }

    /** `addNode`: scan for the node's name and append the node only if the scan finds none. */
    method AddNode(node: MeshNode)
      requires Valid()
      modifies this
      ensures Valid()
      ensures requests == old(requests) + [node]
      ensures nodes == WithNode(old(nodes), node)
    {
      var taken := false;
      var i := 0;
      while i < |nodes| && !taken
        invariant 0 <= i <= |nodes|
        invariant taken ==> HasName(nodes, node.username)
        invariant !taken ==> forall k :: 0 <= k < i ==> nodes[k].username != node.username
      {
        if nodes[i].username == node.username {
          taken := true;
        }
        i := i + 1;
      }
      ghost var after := WithNode(nodes, node);
      if !taken {
        nodes := nodes + [node];
      }
      assert nodes == after;
      requests := requests + [node];
      assert requests[..|requests| - 1] == old(requests);
    }

    /**
     * `broadcastMessage`: hands `message` to every node in list order. The
     * per-node `receiveMessage` effects are returned as a trace; the node list
     * itself is not changed.
     */
    method BroadcastMessage(message: string) returns (trace: seq<Delivery>)
      requires Valid()
      ensures FansOut(nodes, message, trace)
      ensures forall name :: DeliveriesTo(trace, name) == if HasName(nodes, name) then 1 else 0
    {
      trace := [];
      for i := 0 to |nodes|
        invariant |trace| == i
        invariant forall k :: 0 <= k < i ==> trace[k] == Delivery(nodes[k], message)
      {
        trace := trace + [Delivery(nodes[i], message)];
      }
      forall name
        ensures DeliveriesTo(trace, name) == if HasName(nodes, name) then 1 else 0
      {
        FanOutExactlyOnce(nodes, message, trace, name);
      }
    }
  }
}
