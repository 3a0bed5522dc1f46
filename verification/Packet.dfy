/** What the packet codecs share: modes, errors, fragments and the disposition of upper-layer bytes
    (crates/nodenet-protocols/src/network.rs, error.rs, bounds.rs). */
module Packet {
  import opened Wire

  const MAX_IP_PACKET_LENGTH: nat := 65575

  datatype ParseMode = Strict | CompatibleIcmpQuote

  datatype Field =
    | Version
    | FlowLabel
    | PayloadLength
    | PacketLength
    | HeaderLength
    | HeaderChecksum
    | TransportChecksum
    | FragmentOffset
    | Flags
    | ExtensionLength
    | ExtensionOrder
    | OptionLength
    | OptionKind
    | OptionPadding
    | UrgentPointer
    | Reserved
    | HopLimit
    | SourceAddress
    | DestinationAddress
    | Code
    | OtherField

  datatype ParseError =
    | Truncated
    | Malformed(field: Field)
    | LimitExceeded
    | Unsupported(field: Field)

  datatype BuildError =
    | InvalidValue(field: Field)
    | LengthExceedsLimit
    | BufferTooSmall(required: nat, actual: nat)
    | ArithmeticOverflow

  datatype FragmentState =
    | Unfragmented
    | First(moreFragments: bool)
    | NonFirst(offsetUnits: U16, moreFragments: bool)

  predicate MoreFragments(f: FragmentState) {
    !f.Unfragmented? && f.moreFragments
  }

  datatype UpperLayerState =
    | Reachable(protocol: Byte, payload: Bytes, fragment: FragmentState)
    | Insufficient(protocol: Byte, payload: Bytes, required: nat, fragment: FragmentState)
    | NonFirstFragment(protocol: Byte, payload: Bytes, fragment: FragmentState)
    | Esp(payload: Bytes, fragment: FragmentState)
    | NoNextHeader(trailing: Bytes)
    | Unknown(protocol: Byte, payload: Bytes, fragment: FragmentState)

  /** `classify_upper_layer`. */
  function ClassifyUpperLayer(protocol: Byte, payload: Bytes, fragment: FragmentState, ipv6: bool): UpperLayerState {
    if fragment.NonFirst? then NonFirstFragment(protocol, payload, fragment)
    else if protocol == 50 then Esp(payload, fragment)
    else if protocol == 59 && ipv6 then NoNextHeader(payload)
    else if protocol == 1 || protocol == 6 || protocol == 17 || protocol == 58 then
      var required := if protocol == 6 then 20 else if protocol == 17 then 8 else 4;
      if |payload| < required then Insufficient(protocol, payload, required, fragment)
      else Reachable(protocol, payload, fragment)
    else Unknown(protocol, payload, fragment)
  }

  /** `terminal_protocol_and_bytes` (crates/nodenet-protocols/src/quoted.rs). */
  function Terminal(u: UpperLayerState): (Byte, Bytes) {
    match u
    case Reachable(protocol, payload, _) => (protocol, payload)
    case Insufficient(protocol, payload, _, _) => (protocol, payload)
    case NonFirstFragment(protocol, payload, _) => (protocol, payload)
    case Unknown(protocol, payload, _) => (protocol, payload)
    case Esp(payload, _) => (50, payload)
    case NoNextHeader(trailing) => (59, trailing)
  }

  /** Classification forgets neither the protocol nor a byte. */
  lemma TerminalExact(protocol: Byte, payload: Bytes, fragment: FragmentState)
    ensures Terminal(ClassifyUpperLayer(protocol, payload, fragment, true)) == (protocol, payload)
  {
  }

  /** Which payload is classified as what: a later fragment before all else, a known transport by the length of its
      header, and 59 as the end of headers only in IPv6. */
  lemma ClassesExact(protocol: Byte, payload: Bytes, fragment: FragmentState, ipv6: bool)
    ensures var u, first := ClassifyUpperLayer(protocol, payload, fragment, ipv6), !fragment.NonFirst?;
            && Terminal(u) == (protocol, payload)
            && (u.NonFirstFragment? <==> fragment.NonFirst?)
            && (u.Esp? <==> first && protocol == 50)
            && (u.NoNextHeader? <==> first && protocol == 59 && ipv6)
            && (u.Reachable? <==>
                first && ((protocol == 6 && |payload| >= 20) || (protocol == 17 && |payload| >= 8)
                          || (protocol in {1, 58} && |payload| >= 4)))
            && (u.Insufficient? <==>
                first && ((protocol == 6 && |payload| < 20) || (protocol == 17 && |payload| < 8)
                          || (protocol in {1, 58} && |payload| < 4)))
            && (u.Insufficient? ==> u.required == if protocol == 6 then 20 else if protocol == 17 then 8 else 4)
            && (!u.NoNextHeader? ==> u.fragment == fragment)
  {
  }
}
