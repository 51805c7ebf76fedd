/** The fields of a transport packet that routing decisions read. */
module Packets {
  import opened Wrappers

  datatype Packet = Packet(
    id: string,
    sourceNode: string,
    tenant: string,
    action: string,
    idempotencyKey: Option<string>,
    timeoutMs: Option<int>)

  datatype Hop = Hop(direction: string, status: string)

  /** A worker's or workflow's answer; `body` stands for everything routing treats as opaque. */
  datatype Response = Response(packetType: string, hops: seq<Hop>, body: string)
}
