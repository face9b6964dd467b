/**
  The settings dialog of main.go: the `Settings` record the capture reads,
  and what clicking "Done" does to it. The protocol checkboxes become a
  capture-filter expression ("all", or the ticked names joined by " or "),
  Save and Promisc are copied, and the time text replaces the capture time
  only when it is non-empty and parses as an integer.
*/
module Dialog {
  import opened Wrappers
  import GoStrings

  /** The state of the dialog's widgets when "Done" is clicked. */
  datatype DialogState = DialogState(
    tcp: bool, udp: bool, sctp: bool, icmp4: bool, icmp6: bool, all: bool,
    save: bool, promisc: bool,
    timeText: string)

  /** The protocols that have a checkbox of their own. */
  datatype Protocol = Tcp | Udp | Sctp | Icmp4 | Icmp6

  /** The protocols in the order the handler tests their checkboxes. */
  const Protocols: seq<Protocol> := [Tcp, Udp, Sctp, Icmp4, Icmp6]

  /** The keyword the "All" checkbox writes. */
  const All: string := "all"

  /** What goes between two protocol names. */
  const Separator: string := " or "

  /** The name the handler appends for a protocol. */
  function Name(p: Protocol): string
  {
    match p
    case Tcp => "tcp"
    case Udp => "udp"
    case Sctp => "sctp"
    case Icmp4 => "icmp4"
    case Icmp6 => "icmp6"
  }

  /** A protocol's position in Protocols. */
  function Rank(p: Protocol): nat
  {
    match p
    case Tcp => 0
    case Udp => 1
    case Sctp => 2
    case Icmp4 => 3
    case Icmp6 => 4
  }

  /** The state of a protocol's checkbox. */
  function IsTicked(d: DialogState, p: Protocol): bool
  {
    match p
    case Tcp => d.tcp
    case Udp => d.udp
    case Sctp => d.sctp
    case Icmp4 => d.icmp4
    case Icmp6 => d.icmp6
  }

  predicate AnyTicked(d: DialogState)
  {
    d.tcp || d.udp || d.sctp || d.icmp4 || d.icmp6
  }

  /**
    Names are distinct, non-empty, free of spaces and never the keyword
    "all", and Protocols lists every protocol once, by rank.
  */
  lemma NameFacts()
    ensures forall p, q :: Name(p) == Name(q) ==> p == q
    ensures forall p :: Name(p) != "" && Name(p) != All && ' ' !in Name(p)
    ensures forall p :: Rank(p) < |Protocols| && Protocols[Rank(p)] == p
  {
  }

  predicate Increasing(ps: seq<Protocol>)
  {
    forall i, j :: 0 <= i < j < |ps| ==> Rank(ps[i]) < Rank(ps[j])
  }

  /** The names of a list of protocols, position by position. */
  function Names(ps: seq<Protocol>): (r: seq<string>)
    ensures |r| == |ps|
  {
    if ps == [] then [] else [Name(ps[0])] + Names(ps[1..])
  }

  /** Each entry of Names(ps) is the name of the protocol at that position. */
  lemma {:induction false} NamesAt(ps: seq<Protocol>, i: nat)
    requires i < |ps|
    ensures Names(ps)[i] == Name(ps[i])
  {
    if i > 0 {
      NamesAt(ps[1..], i - 1);
    }
  }

  /** No name of a protocol is empty, holds a space or is the keyword "all". */
  lemma NamesClean(ps: seq<Protocol>)
    ensures forall i :: 0 <= i < |ps| ==>
      Names(ps)[i] != "" && Names(ps)[i] != All && ' ' !in Names(ps)[i]
  {
    forall i | 0 <= i < |ps|
      ensures Names(ps)[i] != "" && Names(ps)[i] != All && ' ' !in Names(ps)[i]
    {
      NamesAt(ps, i);
      NameFacts();
    }
  }

  /** Names of a concatenation. */
  lemma {:induction false} NamesAppend(a: seq<Protocol>, b: seq<Protocol>)
    ensures Names(a + b) == Names(a) + Names(b)
  {
    if a != [] {
      NamesAppend(a[1..], b);
      assert (a + b)[1..] == a[1..] + b;
    } else {
      assert a + b == b;
    }
  }

  /** A protocol, if its box is ticked. */
  function Mark(d: DialogState, p: Protocol): (r: seq<Protocol>)
  {
    if IsTicked(d, p) then [p] else []
  }

  /** The ticked protocols, one checkbox after the other as the handler tests them. */
  function Ticked(d: DialogState): seq<Protocol>
  {
    Mark(d, Tcp) + Mark(d, Udp) + Mark(d, Sctp) + Mark(d, Icmp4) + Mark(d, Icmp6)
  }

  /**
    Testing one more checkbox, for a protocol ranked above everything
    collected so far, keeps the collection increasing.
  */
  lemma IncreasingStep(d: DialogState, a: seq<Protocol>, p: Protocol)
    requires Increasing(a)
    requires forall x :: x in a ==> Rank(x) < Rank(p)
    ensures Increasing(a + Mark(d, p))
    ensures forall x :: x in a + Mark(d, p) ==> Rank(x) <= Rank(p)
  {
    if IsTicked(d, p) {
      var r := a + [p];
      forall i, j | 0 <= i < j < |r| ensures Rank(r[i]) < Rank(r[j]) {
        assert r[i] == a[i];
        if j == |a| {
          assert a[i] in a;
        } else {
          assert r[j] == a[j];
        }
      }
    } else {
      assert a + [] == a;
    }
  }

  /** A protocol is in Ticked(d) exactly when its box is ticked. */
  lemma TickedMembers(d: DialogState)
    ensures forall p :: p in Ticked(d) <==> IsTicked(d, p)
  {
    var t := Ticked(d);
    forall p ensures p in t <==> IsTicked(d, p) {
      match p
      case Tcp =>
      case Udp =>
      case Sctp =>
      case Icmp4 =>
      case Icmp6 =>
    }
  }

  /** Ticked(d) lists the protocols in the order tcp, udp, sctp, icmp4, icmp6. */
  lemma TickedIncreasing(d: DialogState)
    ensures Increasing(Ticked(d))
  {
    var p1 := [] + Mark(d, Tcp);
    assert p1 == Mark(d, Tcp);
    IncreasingStep(d, [], Tcp);
    IncreasingStep(d, p1, Udp);
    var p2 := p1 + Mark(d, Udp);
    IncreasingStep(d, p2, Sctp);
    var p3 := p2 + Mark(d, Sctp);
    IncreasingStep(d, p3, Icmp4);
    var p4 := p3 + Mark(d, Icmp4);
    IncreasingStep(d, p4, Icmp6);
  }

  /**
    Ticked(d) holds exactly the ticked protocols, each once, in the order
    tcp, udp, sctp, icmp4, icmp6; it is empty exactly when no protocol box
    is ticked.
  */
  lemma TickedSpec(d: DialogState)
    ensures forall p :: p in Ticked(d) <==> IsTicked(d, p)
    ensures Increasing(Ticked(d))
    ensures forall i, j :: 0 <= i < j < |Ticked(d)| ==> Ticked(d)[i] != Ticked(d)[j]
    ensures Ticked(d) == [] <==> !AnyTicked(d)
  {
    TickedMembers(d);
    TickedIncreasing(d);
    var t := Ticked(d);
    if t != [] {
      assert t[0] in t;
    }
  }

  /** The protocol string that "Done" stores, as a function of the checkboxes. */
  function ProtocolString(d: DialogState): string
  {
    if d.all then All else GoStrings.Join(Names(Ticked(d)), Separator)
  }

  /**
    The protocol string after "Done": exactly "all" when All is ticked,
    whatever the other boxes say; otherwise never "all", empty exactly when
    no protocol box is ticked, and else the names of the ticked protocols in
    the handler's order with one " or " between consecutive names, so that
    splitting it at " or " gives those names back.
  */
  lemma ProtocolStringSpec(d: DialogState)
    ensures d.all ==> ProtocolString(d) == All
    ensures !d.all ==> ProtocolString(d) != All
    ensures !d.all ==> (ProtocolString(d) == "" <==> !AnyTicked(d))
    ensures !d.all && AnyTicked(d) ==>
      GoStrings.Split(ProtocolString(d), Separator) == Names(Ticked(d))
  {
    TickedSpec(d);
    var n := Names(Ticked(d));
    if !d.all && AnyTicked(d) {
      NamesClean(Ticked(d));
      GoStrings.SplitJoin(n, Separator);
      var s := ProtocolString(d);
      GoStrings.SplitAfterPrefix(All, "", Separator);
      assert All + "" == All;
      assert GoStrings.Split(All, Separator) == [All];
      assert GoStrings.Split("", Separator) == [""];
      assert s == All ==> n == [All];
      assert s == "" ==> n == [""];
    }
  }

  /** How many protocol boxes are ticked. */
  function TickedCount(d: DialogState): nat
  {
    (if d.tcp then 1 else 0) + (if d.udp then 1 else 0) + (if d.sctp then 1 else 0) +
    (if d.icmp4 then 1 else 0) + (if d.icmp6 then 1 else 0)
  }

  /**
    When All is not ticked and some protocol box is, the protocol string
    holds one name per ticked box, no name twice, and one separator fewer
    than names.
  */
  lemma ProtocolStringCount(d: DialogState)
    requires !d.all && AnyTicked(d)
    ensures |GoStrings.Split(ProtocolString(d), Separator)| == TickedCount(d)
    ensures GoStrings.Separators(ProtocolString(d), Separator) == TickedCount(d) - 1
    ensures forall i, j :: 0 <= i < j < |GoStrings.Split(ProtocolString(d), Separator)| ==>
      GoStrings.Split(ProtocolString(d), Separator)[i] != GoStrings.Split(ProtocolString(d), Separator)[j]
  {
    ProtocolStringSpec(d);
    TickedSpec(d);
    var t := Ticked(d);
    assert |t| == TickedCount(d);
    GoStrings.SplitCount(ProtocolString(d), Separator);
    forall i, j | 0 <= i < j < |t| ensures Names(t)[i] != Names(t)[j] {
      NamesAt(t, i);
      NamesAt(t, j);
      NameFacts();
    }
  }

  /** The application's settings, shared by the dialog and the capture. */
  class Settings {
    var protocols: string // capture-filter expression, "all" or ""
    var save: bool        // write captured packets to a file
    var time: int         // capture time in milliseconds
    var promisc: bool     // open interfaces in promiscuous mode

    /** new(Settings): every field at its zero value. */
    constructor ()
      ensures protocols == "" && !save && time == 0 && !promisc
    {
      protocols := "";
      save := false;
      time := 0;
      promisc := false;
    }

    /**
      The "Done" handler. `atoi` stands for strconv.Atoi: None is its error
      result. Every field is rewritten from the dialog except `time`, which
      keeps its value when the text is empty or does not parse.
    */
    method Done(d: DialogState, atoi: string -> Option<int>)
      modifies this
      ensures protocols == ProtocolString(d)
      ensures save == d.save && promisc == d.promisc
      ensures d.timeText == "" ==> time == old(time)
      ensures d.timeText != "" && atoi(d.timeText).None? ==> time == old(time)
      ensures d.timeText != "" && atoi(d.timeText).Some? ==> time == atoi(d.timeText).value
    {
      protocols := BuildProtocols(d);

      if d.save {
        save := true;
      } else {
        save := false;
      }

      if d.promisc {
        promisc := true;
      } else {
        promisc := false;
      }

      if d.timeText != "" {
        var timeInt := atoi(d.timeText);
        if timeInt.None? {
          // the parse error is printed; printing is not modelled
        } else {
          time := timeInt.value;
        }
      }
    }
  }

  /**
    The first part of the "Done" handler: the protocol string built from
    the checkboxes, appending the name of each ticked protocol in turn.
  */
  method BuildProtocols(d: DialogState) returns (r: string)
    ensures r == ProtocolString(d)
  {
    if d.all {
      r := All;
    } else {
      var protocolList: seq<string> := [];
      FirstStep(d, protocolList);
      if d.tcp {
        protocolList := protocolList + ["tcp"];
      }
      AppendStep(d, Mark(d, Tcp), Udp, protocolList);
      if d.udp {
        protocolList := protocolList + ["udp"];
      }
      AppendStep(d, Mark(d, Tcp) + Mark(d, Udp), Sctp, protocolList);
      if d.sctp {
        protocolList := protocolList + ["sctp"];
      }
      AppendStep(d, Mark(d, Tcp) + Mark(d, Udp) + Mark(d, Sctp), Icmp4, protocolList);
      if d.icmp4 {
        protocolList := protocolList + ["icmp4"];
      }
      AppendStep(d, Mark(d, Tcp) + Mark(d, Udp) + Mark(d, Sctp) + Mark(d, Icmp4), Icmp6, protocolList);
      if d.icmp6 {
        protocolList := protocolList + ["icmp6"];
      }
      r := GoStrings.Join(protocolList, Separator);
    }
  }

  /** The handler's first test starts the list of names from nothing. */
  lemma FirstStep(d: DialogState, list: seq<string>)
    requires list == []
    ensures (if IsTicked(d, Tcp) then list + [Name(Tcp)] else list) == Names(Mark(d, Tcp))
  {
  }

  /**
    One step of the handler: appending a protocol's name when its box is
    ticked extends the names of the protocols selected so far by Mark.
  */
  lemma AppendStep(d: DialogState, seen: seq<Protocol>, p: Protocol, list: seq<string>)
    requires list == Names(seen)
    ensures (if IsTicked(d, p) then list + [Name(p)] else list) == Names(seen + Mark(d, p))
  {
    NamesAppend(seen, Mark(d, p));
  }
}
