/**
 * A participant of the mesh, as `MeshNode.kt` declares it: a display name and a
 * unicast address. The source draws the address at random from 10000..99999 when
 * none is given; here the address is always supplied by the caller.
 */
module Nodes {

  datatype MeshNode = MeshNode(username: string, unicastAddress: int)
}
