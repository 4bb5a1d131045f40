/**
 * The packet record that the capture side hands to the cache.
 */
module Packets {

  /** Source and destination address and port of one captured packet, all kept as text. */
  datatype Packet = Packet(fromIP: string, toIP: string, fromPort: string, toPort: string)

}
