/**
  The per-packet part of sniffer.go: whether a capture filter is set, how
  one captured frame becomes a Packet record (protocol label, IPv4
  addresses, TCP ports, size, time, truncation, hex dump), how the label
  picks the row colour, and the loop that turns an interface's frames into
  table rows, one per frame and in capture order.

  A frame's decoded layers are a closed set of variants. Packet.Layer(t) of
  gopacket, which returns the first layer of type t, is LayerOf.
*/
module Sniffer {
  import opened Wrappers
  import GoStrings
  import Dialog

  newtype byte = x: int | 0 <= x < 0x100

  /** net.IP: the address bytes; a nil address is None where it can occur. */
  type IP = seq<byte>

  /** layers.TCPPort, an unsigned 16-bit number. */
  type Port = x: int | 0 <= x < 0x1_0000

  /** gopacket.LayerType, reduced to the types the capture tells apart. */
  datatype LayerType = LayerTypeIPv4 | LayerTypeIPv6 | LayerTypeTCP | LayerTypeNamed(name: string)

  /** LayerType.String(). */
  function TypeName(t: LayerType): string
  {
    match t
    case LayerTypeIPv4 => "IPv4"
    case LayerTypeIPv6 => "IPv6"
    case LayerTypeTCP => "TCP"
    case LayerTypeNamed(n) => n
  }

  /** One decoded layer: the three kinds the capture reads fields from, and any other. */
  datatype Layer =
    | IPv4(srcIP: IP, dstIP: IP)
    | IPv6(srcIP: IP, dstIP: IP)
    | TCP(srcPort: Port, dstPort: Port)
    | Other(name: string)
  {
    function Type(): LayerType
    {
      match this
      case IPv4(_, _) => LayerTypeIPv4
      case IPv6(_, _) => LayerTypeIPv6
      case TCP(_, _) => LayerTypeTCP
      case Other(n) => LayerTypeNamed(n)
    }
  }

  /** A decoder never reports an IPv4, IPv6 or TCP layer under another variant. */
  predicate Decoded(stack: seq<Layer>)
  {
    forall i :: 0 <= i < |stack| && stack[i].Other? ==>
      stack[i].name != "IPv4" && stack[i].name != "IPv6" && stack[i].name != "TCP"
  }

  /** gopacket.PacketMetadata: what the capture library reports with a frame. */
  datatype Metadata = Metadata(timestamp: int, captureLength: int, truncated: bool)

  /** One captured frame: its decoded layers, metadata and raw bytes. */
  datatype Frame = Frame(layers: seq<Layer>, meta: Metadata, data: seq<byte>)

  /** The first layer of type `t` in the stack, if any (gopacket's Packet.Layer). */
  function LayerOf(stack: seq<Layer>, t: LayerType): (r: Option<Layer>)
    ensures r.Some? ==> r.value in stack && r.value.Type() == t
    ensures r.None? <==> forall i :: 0 <= i < |stack| ==> stack[i].Type() != t
  {
    if stack == [] then None
    else if stack[0].Type() == t then Some(stack[0])
    else LayerOf(stack[1..], t)
  }

  /** LayerOf returns the first layer of the requested type, not a later one. */
  lemma {:induction false} LayerOfFirst(stack: seq<Layer>, t: LayerType, k: nat)
    requires k < |stack| && stack[k].Type() == t
    requires forall j :: 0 <= j < k ==> stack[j].Type() != t
    ensures LayerOf(stack, t) == Some(stack[k])
  {
    if k > 0 {
      LayerOfFirst(stack[1..], t, k - 1);
    }
  }

  /** The stack with every layer of type `u` taken out. */
  function Without(stack: seq<Layer>, u: LayerType): (r: seq<Layer>)
    ensures forall l :: l in r <==> l in stack && l.Type() != u
  {
    if stack == [] then []
    else (if stack[0].Type() == u then [] else [stack[0]]) + Without(stack[1..], u)
  }

  /** Layers of another type do not change which layer of type `t` is found. */
  lemma {:induction false} LayerOfWithout(stack: seq<Layer>, u: LayerType, t: LayerType)
    requires u != t
    ensures LayerOf(Without(stack, u), t) == LayerOf(stack, t)
  {
    if stack != [] {
      LayerOfWithout(stack[1..], u, t);
      var rest := Without(stack[1..], u);
      if stack[0].Type() == u {
        assert Without(stack, u) == rest;
      } else {
        assert Without(stack, u) == [stack[0]] + rest;
        assert (Without(stack, u))[1..] == rest;
      }
    }
  }

  /** The protocol label: the type of the second-to-last layer, or of the only one. */
  function Label(stack: seq<Layer>): string
    requires |stack| > 0
  {
    if |stack| > 1 then TypeName(stack[|stack| - 2].Type()) else TypeName(stack[0].Type())
  }

  /** The source and destination addresses, taken from the first IPv4 layer only. */
  function Addresses(stack: seq<Layer>): Option<(IP, IP)>
  {
    match LayerOf(stack, LayerTypeIPv4)
    case Some(IPv4(src, dst)) => Some((src, dst))
    case _ => None
  }

  /** The source and destination ports, taken from the first TCP layer, else zero. */
  function Ports(stack: seq<Layer>): (Port, Port)
  {
    match LayerOf(stack, LayerTypeTCP)
    case Some(TCP(sp, dp)) => (sp, dp)
    case _ => (0, 0)
  }

  /** Addresses are present exactly when the stack has an IPv4 layer. */
  lemma AddressesPresent(stack: seq<Layer>)
    ensures Addresses(stack).Some? <==> exists i :: 0 <= i < |stack| && stack[i].IPv4?
  {
    var r := LayerOf(stack, LayerTypeIPv4);
    if exists i :: 0 <= i < |stack| && stack[i].IPv4? {
      var i :| 0 <= i < |stack| && stack[i].IPv4?;
      assert stack[i].Type() == LayerTypeIPv4;
      assert r.Some? && r.value.IPv4?;
    }
  }

  /** The addresses are those of the first IPv4 layer, never of a later one. */
  lemma AddressesFirst(stack: seq<Layer>, k: nat)
    requires k < |stack| && stack[k].IPv4?
    requires forall j :: 0 <= j < k ==> !stack[j].IPv4?
    ensures Addresses(stack) == Some((stack[k].srcIP, stack[k].dstIP))
  {
    LayerOfFirst(stack, LayerTypeIPv4, k);
  }

  /**
    IPv6 layers never contribute: taking them all out leaves the addresses
    as they were, so a stack whose only IP layer is IPv6 has nil addresses.
  */
  lemma AddressesIgnoreIPv6(stack: seq<Layer>)
    ensures Addresses(Without(stack, LayerTypeIPv6)) == Addresses(stack)
  {
    LayerOfWithout(stack, LayerTypeIPv6, LayerTypeIPv4);
  }

  /**
    Ports are the first TCP layer's when there is one and zero otherwise;
    no layer of another type (UDP, SCTP, ...) ever sets them.
  */
  lemma PortsSpec(stack: seq<Layer>)
    ensures forall k :: 0 <= k < |stack| && stack[k].TCP? && (forall j :: 0 <= j < k ==> !stack[j].TCP?) ==>
      Ports(stack) == (stack[k].srcPort, stack[k].dstPort)
    ensures (forall i :: 0 <= i < |stack| ==> !stack[i].TCP?) ==> Ports(stack) == (0, 0)
    ensures forall u :: u != LayerTypeTCP ==> Ports(Without(stack, u)) == Ports(stack)
  {
    forall k | 0 <= k < |stack| && stack[k].TCP? && (forall j :: 0 <= j < k ==> !stack[j].TCP?)
      ensures Ports(stack) == (stack[k].srcPort, stack[k].dstPort)
    {
      LayerOfFirst(stack, LayerTypeTCP, k);
    }
    forall u | u != LayerTypeTCP
      ensures Ports(Without(stack, u)) == Ports(stack)
    {
      LayerOfWithout(stack, u, LayerTypeTCP);
    }
  }

  /**
    On a decoded stack, a packet labelled "TCP" always has a TCP layer, so
    its ports are read from one.
  */
  lemma TcpLabelHasPorts(stack: seq<Layer>)
    requires |stack| > 0 && Decoded(stack) && Label(stack) == "TCP"
    ensures LayerOf(stack, LayerTypeTCP).Some?
  {
    var k := if |stack| > 1 then |stack| - 2 else 0;
    assert TypeName(stack[k].Type()) == "TCP";
    assert stack[k].TCP?;
    assert stack[k].Type() == LayerTypeTCP;
  }

  /**
    The filter decision: a filter is set only when the protocol string is
    neither "all" nor empty, and it is then the protocol string itself.
  */
  function CaptureFilter(protocols: string): (r: Option<string>)
    ensures r.Some? <==> protocols != Dialog.All && protocols != ""
    ensures r.Some? ==> r.value == protocols
  {
    if protocols != Dialog.All && protocols != "" then Some(protocols) else None
  }

  /**
    After "Done", the capture runs unfiltered exactly when All is ticked or
    no protocol box is; otherwise the filter names the ticked protocols,
    separated by " or ".
  */
  lemma FilterAfterDone(d: Dialog.DialogState)
    ensures CaptureFilter(Dialog.ProtocolString(d)).None? <==> d.all || !Dialog.AnyTicked(d)
    ensures CaptureFilter(Dialog.ProtocolString(d)).Some? ==>
      GoStrings.Split(CaptureFilter(Dialog.ProtocolString(d)).value, Dialog.Separator)
        == Dialog.Names(Dialog.Ticked(d))
  {
    Dialog.ProtocolStringSpec(d);
  }

  /** The background colours of the packet table's protocol cell. */
  datatype Colour = White | DarkRed | Cyan | DarkMagenta | Magenta | DarkGreen

  /**
    The colour of a row, by its protocol label: each of the five known
    labels has its own colour, and every other label is white.
  */
  function RowColour(proto: string): (c: Colour)
    ensures c == DarkRed <==> proto == "TCP"
    ensures c == Cyan <==> proto == "UDP"
    ensures c == DarkMagenta <==> proto == "SCTP"
    ensures c == Magenta <==> proto == "IPv4"
    ensures c == DarkGreen <==> proto == "IPv6"
    ensures c == White <==> proto !in ["TCP", "UDP", "SCTP", "IPv4", "IPv6"]
  {
    match proto
    case "TCP" => DarkRed
    case "UDP" => Cyan
    case "SCTP" => DarkMagenta
    case "IPv4" => Magenta
    case "IPv6" => DarkGreen
    case _ => White
  }

  /**
    What the capture loop reads from the layers LayerOf returns: the IPv4
    layer's addresses and the TCP layer's ports, as Addresses and Ports say.
  */
  lemma {:induction false} LayerFields(stack: seq<Layer>)
    ensures LayerOf(stack, LayerTypeIPv4).Some? ==>
      LayerOf(stack, LayerTypeIPv4).value.IPv4? &&
      Addresses(stack) == Some((LayerOf(stack, LayerTypeIPv4).value.srcIP, LayerOf(stack, LayerTypeIPv4).value.dstIP))
    ensures LayerOf(stack, LayerTypeIPv4).None? ==> Addresses(stack).None?
    ensures LayerOf(stack, LayerTypeTCP).Some? ==>
      LayerOf(stack, LayerTypeTCP).value.TCP? &&
      Ports(stack) == (LayerOf(stack, LayerTypeTCP).value.srcPort, LayerOf(stack, LayerTypeTCP).value.dstPort)
    ensures LayerOf(stack, LayerTypeTCP).None? ==> Ports(stack) == (0, 0)
  {
  }

  /**
    The record built for each captured frame. It is a struct that only the
    loop iteration creating it ever holds, so it is a value here, updated
    field by field.
  */
  datatype Packet = Packet(
    time: int, truncated: bool, protocol: string,
    sourceIP: Option<IP>, destIP: Option<IP>,
    sourcePort: Port, destPort: Port,
    packetSize: int, dump: seq<string>)

  /** new(Packet): every field at its zero value, addresses nil. */
  const NewPacket: Packet := Packet(0, false, "", None, None, 0, 0, 0, [])

  /**
    The body of the capture loop for one frame: a new Packet filled field
    by field. `hexDump` stands for hex.Dump. The stack must not be empty:
    the label reads its first layer.
  */
  method Classify(packetS: Frame, hexDump: seq<byte> -> string) returns (packet: Packet)
    requires |packetS.layers| > 0
    ensures packet.packetSize == packetS.meta.captureLength
    ensures packet.time == packetS.meta.timestamp
    ensures packet.truncated == packetS.meta.truncated
    ensures packet.protocol == Label(packetS.layers)
    ensures Addresses(packetS.layers).Some? ==>
      packet.sourceIP == Some(Addresses(packetS.layers).value.0) &&
      packet.destIP == Some(Addresses(packetS.layers).value.1)
    ensures Addresses(packetS.layers).None? ==> packet.sourceIP.None? && packet.destIP.None?
    ensures (packet.sourcePort, packet.destPort) == Ports(packetS.layers)
    ensures packet.dump == [hexDump(packetS.data)]
  {
    packet := NewPacket;

    packet := packet.(packetSize := packetS.meta.captureLength);
    packet := packet.(time := packetS.meta.timestamp);

    var packetLayer := packetS.layers;
    if |packetLayer| > 1 {
      var i := |packetLayer| - 2;
      packet := packet.(protocol := TypeName(packetLayer[i].Type()));
    } else {
      packet := packet.(protocol := TypeName(packetLayer[0].Type()));
    }

    LayerFields(packetS.layers);
    var ipLayer := LayerOf(packetS.layers, LayerTypeIPv4);
    if ipLayer.Some? {
      var ip := ipLayer.value;
      if ip.IPv4? {
        packet := packet.(sourceIP := Some(ip.srcIP), destIP := Some(ip.dstIP));
      } else {
        // the IPv6 copy of sniffer.go:154-158: the layer found is IPv4, so this is dead
        assert false;
      }
    }

    var tcpLayer := LayerOf(packetS.layers, LayerTypeTCP);
    if tcpLayer.Some? {
      var tcp := tcpLayer.value;
      if tcp.TCP? {
        packet := packet.(sourcePort := tcp.srcPort, destPort := tcp.dstPort);
      } else {
        assert false;
      }
    }

    packet := packet.(dump := packet.dump + [hexDump(packetS.data)]);

    packet := packet.(truncated := packetS.meta.truncated);
  }

  /** One row of the packet table: the values of its columns and its colour. */
  datatype Row = Row(
    time: int, protocol: string, size: int,
    srcIP: Option<IP>, dstIP: Option<IP>, srcPort: Port, dstPort: Port,
    truncated: bool, data: string, colour: Colour)

  /** The row a frame is expected to produce. */
  function RowOf(f: Frame, hexDump: seq<byte> -> string): Row
    requires |f.layers| > 0
  {
    var proto := Label(f.layers);
    var ips := Addresses(f.layers);
    var ports := Ports(f.layers);
    Row(f.meta.timestamp, proto, f.meta.captureLength,
        if ips.Some? then Some(ips.value.0) else None,
        if ips.Some? then Some(ips.value.1) else None,
        ports.0, ports.1, f.meta.truncated, hexDump(f.data), RowColour(proto))
  }

  /**
    On decoded layers, a dark-red row is a TCP row and its port columns are
    those of the frame's first TCP layer.
  */
  lemma DarkRedRowHasPorts(f: Frame, hexDump: seq<byte> -> string)
    requires |f.layers| > 0 && Decoded(f.layers)
    requires RowOf(f, hexDump).colour == DarkRed
    ensures LayerOf(f.layers, LayerTypeTCP).Some?
    ensures RowOf(f, hexDump).srcPort == LayerOf(f.layers, LayerTypeTCP).value.srcPort
    ensures RowOf(f, hexDump).dstPort == LayerOf(f.layers, LayerTypeTCP).value.dstPort
  {
    TcpLabelHasPorts(f.layers);
    LayerFields(f.layers);
  }

  /**
    The capture loop of one interface: each frame read becomes exactly one
    table row, in the order the frames were captured.
  */
  method Capture(frames: seq<Frame>, hexDump: seq<byte> -> string) returns (rows: seq<Row>)
    requires forall i :: 0 <= i < |frames| ==> |frames[i].layers| > 0
    ensures |rows| == |frames|
    ensures forall i :: 0 <= i < |frames| ==> rows[i] == RowOf(frames[i], hexDump)
  {
    rows := [];
    for n := 0 to |frames|
      invariant |rows| == n
      invariant forall i :: 0 <= i < n ==> rows[i] == RowOf(frames[i], hexDump)
    {
      var packet := Classify(frames[n], hexDump);
      var row := Row(
        packet.time, packet.protocol, packet.packetSize,
        packet.sourceIP, packet.destIP, packet.sourcePort, packet.destPort,
        packet.truncated, GoStrings.Join(packet.dump, "\n"), RowColour(packet.protocol));
      rows := rows + [row];
    }
  }
}
