/** Constants both ends of the tunnel agree on: frame kinds and header layout. */
module Protocol {

  // Sent by the device to the host.
  const DeviceInfo: nat := 1000
  const Pong: nat := 1001
  const Stop: nat := 1002

  // Sent by the host to the device.
  const Ping: nat := 2000
  const DeleteBackward: nat := 2001

  // Sent in either direction.
  const TextMessage: nat := 3000

  /** Version written when the caller gives none. */
  const ProtocolVersion1: nat := 1
  /** Tag written when the caller gives none: "untagged". */
  const NoTag: nat := 0
  /** Octets in a frame header: four 32-bit fields. */
  const HeadSize: nat := 0x10
}
