# Cross-platform sniffer: settings and per-packet classification

This project models the two decision-making parts of a small Go packet
sniffer with a Qt front end, and proves properties about them:

- **The settings dialog's "Done" handler** (`main.go`). It turns the
  protocol checkboxes into a capture-filter expression. That expression is
  the keyword `all`, or the ticked protocol names joined by ` or ` in the
  order tcp, udp, sctp, icmp4, icmp6. The handler copies the Save and
  Promisc boxes. It replaces the capture time only when the time field is
  non-empty and parses as an integer.
- **The capture worker's per-frame work** (`sniffer.go`):
  - the decision whether to install a capture filter;
  - how one decoded frame becomes a `Packet` record (protocol label, IPv4
    addresses, TCP ports, size, time, truncation, hex dump);
  - the colour the label gives a table row;
  - the loop that turns an interface's frames into table rows, one per
    frame and in capture order.

Modules:

- `Wrappers` (`wrappers.dfy`): an `Option` type that stands for Go's nil
  and for failed parses.
- `GoStrings` (`go_strings.dfy`): `strings.Join`, and a `strings.Split`
  used as Join's inverse.
- `Dialog` (`dialog.dfy`): the dialog state, the `Settings` class and the
  "Done" handler.
- `Sniffer` (`sniffer.dfy`): layers, the packet record, the
  filter decision, the colour table and the capture loop.

Calls into code outside the model become parameters:

- `strconv.Atoi` is `atoi: string -> Option<int>`, where `None` is its
  error result.
- `hex.Dump` is `hexDump: seq<byte> -> string`.
- gopacket's `Packet.Layer(t)` is `LayerOf`, which returns the first
  decoded layer of type `t`.

The layers form a closed set of variants: `IPv4`, `IPv6`, `TCP`, and
`Other(name)` for any other layer.

Notes on the code's behaviour:

- The code reads addresses from an IPv4 layer only. It looks the layer up
  by the IPv4 type, so its IPv6 branch (`sniffer.go:154-158`) can never be
  taken. A stack whose only IP layer is IPv6 therefore leaves both addresses
  nil (`AddressesIgnoreIPv6`). In the model that branch is an `assert false`.
- A packet without a TCP layer gets ports 0 and 0, not absent ports.
- An unrecognised protocol string is not rejected before capture starts.
  Any string other than `all` or the empty string is handed to the capture
  library as a filter.

## Model

| member | source | states |
|---|---|---|
| Dialog.TickedSpec | main.go:111-126 | The ticked protocols hold each ticked protocol exactly once and no other, in the order tcp, udp, sctp, icmp4, icmp6. They are empty exactly when no protocol box is ticked. |
| Dialog.ProtocolStringSpec | main.go:107-128 | The protocol string is `all` whenever All is ticked, whatever the other boxes say. Otherwise it is never `all`, and it is empty exactly when no box is ticked. In the remaining case, splitting it at ` or ` gives back the ticked names in order. |
| Dialog.ProtocolStringCount | main.go:111-127 | When All is not ticked and some box is, the protocol string splits into one name per ticked box, with no name twice. It holds exactly one ` or ` fewer than the number of ticked boxes. |
| Dialog.BuildProtocols | main.go:107-128 | Appending each ticked name in turn and joining with ` or ` yields exactly `ProtocolString(d)`. That function is the specification of the builder, and ProtocolStringSpec and ProtocolStringCount state its properties. |
| Dialog.Settings.constructor | main.go:13-18 | A new Settings has every field at its zero value. |
| Dialog.Settings.Done | main.go:106-152 | After "Done", protocols is the protocol string and save/promisc equal the checkboxes. Time becomes the parsed value when the text is non-empty and parses. It is left unchanged when the text is empty or fails to parse. |
| GoStrings.SplitJoin | main.go:127 | Joining parts with a separator and splitting at that separator gives the parts back, provided no part contains the separator's first character. |
| Sniffer.LayerOf | sniffer.go:148-149 | The layer found is in the stack and has the requested type. Nothing is found exactly when no layer has that type. |
| Sniffer.LayerOfFirst | sniffer.go:148-149 | The layer found is the first of its type, not a later one. |
| Sniffer.AddressesPresent | sniffer.go:147-159 | The packet gets addresses exactly when the stack holds an IPv4 layer. |
| Sniffer.AddressesFirst | sniffer.go:148-153 | The addresses are the source and destination of the first IPv4 layer. |
| Sniffer.AddressesIgnoreIPv6 | sniffer.go:147-159 | Removing every IPv6 layer leaves the addresses unchanged, so IPv6 layers never set them. |
| Sniffer.PortsSpec | sniffer.go:161-166 | The ports are those of the first TCP layer, or 0 and 0 when there is none. Removing layers of any other type leaves them unchanged. |
| Sniffer.TcpLabelHasPorts | sniffer.go:138-166 | On a decoded stack, a packet labelled "TCP" always has a TCP layer to read ports from. |
| Sniffer.CaptureFilter | sniffer.go:105-112 | A filter is installed exactly when the protocol string is neither `all` nor empty, and the filter is then that string unchanged. |
| Sniffer.FilterAfterDone | sniffer.go:105-112 | Across the two files: after "Done", capture is unfiltered exactly when All or no protocol is ticked. Otherwise the filter splits at ` or ` into the ticked protocol names. |
| Sniffer.RowColour | sniffer.go:195-208 | Each of TCP, UDP, SCTP, IPv4 and IPv6 gets its own colour, and only that label gets it. Every other label is white. |
| Sniffer.DarkRedRowHasPorts | sniffer.go:161-208 | On decoded layers, a dark-red row shows the ports of the frame's first TCP layer. |
| Sniffer.Classify | sniffer.go:131-172 | The packet carries the frame's capture length, timestamp and truncation flag. Its label is `Label`: the type name of the second-to-last layer, or of the only layer (sniffer.go:139-145). Its addresses are `Addresses` and its ports are `Ports`, the specification functions that AddressesPresent, AddressesFirst, AddressesIgnoreIPv6 and PortsSpec characterise. Its dump is the one hex dump of the frame. |
| Sniffer.Capture | sniffer.go:115-210 | Each frame yields exactly one row, in capture order. The row's columns and colour are those of the frame's classified packet. |

## Left out

- The Qt user interface is not modelled: windows, the table widget, brushes, text formatting of times, IPs and ports, and the rest of the dialog's widgets. Rows are values, and colours are an enumeration.
- The capture library is not modelled: interface enumeration, opening handles, installing the BPF filter and reading the packet source. Frames arrive as a finite sequence of decoded layers, metadata and bytes.
- `log.Fatal` on a filter the library rejects is not modelled.
- Concurrency is not modelled: one goroutine per interface, the WaitGroup, the timer goroutine spawned per frame and its `os.Exit`. Only one interface's loop is modelled.
- The output file is not modelled. When Save is set, the file created at sniffer.go:68 is held in a variable local to that `if` block. The per-packet write of `Packet.String()` at sniffer.go:176 goes to the zero-valued package variable `file` declared at sniffer.go:63, not to the created file, which stays empty. The writes are I/O, and `String()` is only formatting.
- The `num` counter is not modelled, because nothing reads it.
- The `fmt.Println` calls are not modelled, including the one that prints an Atoi error.
- `strconv.Atoi` and `hex.Dump` are parameters, so their grammar and output are not modelled.
- Sniffer.Classify: the record is modelled as a value updated field by field. In the code it is a heap-allocated struct that no other code refers to, so the model does not capture update in place.
- Sniffer.Classify: an empty layer stack is excluded by a precondition, because the code panics on it when it indexes the first layer.
- Time values are integers, and timestamps are opaque. The capture time is not modelled as a deadline. With a zero Settings time no timer check is started. With a non-zero time, each frame spawns a goroutine that compares the timer's value with `time.Now()` for equality (sniffer.go:118-125). That comparison is practically never true, so the capture does not stop when the time runs out.
