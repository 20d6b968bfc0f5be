/** Relay descriptions exchanged by discovery and kept in the routing table. */
module Discovery {
  import opened Text

  datatype RelayNode = RelayNode(
    ID: string, Endpoints: seq<string>, Class: string, UpdatedAt: int, Srflx: string,
    Turn: string, Stake: int, Region: string, Quic: string, DhtRPC: string)

  ghost predicate Reachable(n: RelayNode) {
    || (exists i :: 0 <= i < |n.Endpoints| && TrimSpace(n.Endpoints[i]) != "")
    || TrimSpace(n.Quic) != "" || TrimSpace(n.Srflx) != "" || TrimSpace(n.DhtRPC) != ""
  }

  method RelayHasContact(n: RelayNode) returns (ok: bool)
    ensures ok <==> Reachable(n)
  {
    for i := 0 to |n.Endpoints|
      invariant forall j :: 0 <= j < i ==> TrimSpace(n.Endpoints[j]) == ""
    {
      if TrimSpace(n.Endpoints[i]) != "" {
        return true;
      }
    }
    return TrimSpace(n.Quic) != "" || TrimSpace(n.Srflx) != "" || TrimSpace(n.DhtRPC) != "";
  }
}
