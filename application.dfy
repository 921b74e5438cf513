/**
 * The control logic of the application (main.py) for two Oxford Instruments
 * controllers on their own serial links: the Mercury iTC (temperature and
 * pressure of the variable-temperature insert, VTI) and the Mercury iPS
 * (magnet power supply and its persistent-switch heater).
 *
 * Modelled: connecting and identifying each controller, decoding the switch
 * heater status, what a monitor shows for a reading, the ramp commands and
 * their guard, the set-point range checks, and disconnecting. What the user
 * types, what the transport does and what each `transmit` observes are
 * parameters; parsing a number and formatting it back are parameters too.
 */
module Control {
  import opened Wrappers
  import Text
  import opened Instrument

  // ---------------------------------------------------------------------
  // Settings
  // ---------------------------------------------------------------------

  /** Range of the VTI temperature set point, in kelvin. */
  const MinTemperature: real := 0.0
  const MaxTemperature: real := 300.0

  /** Range of the VTI pressure set point, in millibar. */
  const MinPressure: real := 2.0
  const MaxPressure: real := 20.0

  /** Largest magnitude of the field set point, in tesla. */
  const FieldLimit: real := 7.0

  /** Identity replies begin with this many characters naming the controller. */
  const IdentityLength: nat := 34
  const ItcIdentity: string := "IDN:OXFORD INSTRUMENTS:MERCURY ITC"
  const IpsIdentity: string := "IDN:OXFORD INSTRUMENTS:MERCURY IPS"

  /** The identification query, the same for both controllers. */
  const IdentityQuery: string := "*IDN?"

  /** Device address of the magnet power supply on the iPS. */
  const Magnet: string := "DEV:GRPZ:PSU"

  /** What the magnet-action box shows when a reply has no field at all. */
  const NoAction: string := "~"

  /** The query for the switch heater's state. */
  const SwitchQuery: string := "READ:" + Magnet + ":SIG:SWHT"

  // ---------------------------------------------------------------------
  // Values
  // ---------------------------------------------------------------------

  /** The two controllers, each on its own link. */
  datatype Controller = Itc | Ips

  /** How a connection attempt ended. */
  datatype Connection =
    | Failed           // the link did not open; nothing was sent
    | WrongInstrument  // the link opened but the identity did not match; the link is closed again
    | Connected        // the expected controller answered

  /** What the application believes about the magnet's persistent-switch heater. */
  datatype SwitchStatus = Enabled | Warming | Cooling | Disabled | Unknown

  /** The ramp actions of the magnet power supply. */
  datatype RampAction = GotoSet | GotoZero | Hold

  /** The three set points a user can enter. */
  datatype SetPoint = VtiTemperature | VtiPressure | Field

  function Identity(c: Controller): (identity: string)
    ensures |identity| == IdentityLength && identity[0] != ErrorMark
  {
    if c == Itc then ItcIdentity else IpsIdentity
  }

  /** The error message printed when identification fails. */
  function IdentityError(c: Controller): string {
    if c == Itc then "Error receiving iTC identification" else "Error receiving iPS identification"
  }

  /** The command starting a ramp action: a four-letter action code on the magnet's action address. */
  function RampCommand(action: RampAction): (command: string)
    ensures |command| == |"SET:" + Magnet + ":ACTN:"| + 4
    ensures command[..|command| - 4] == "SET:" + Magnet + ":ACTN:"
  {
    "SET:" + Magnet + ":ACTN:" + match action
      case GotoSet => "RTOS"
      case GotoZero => "RTOZ"
      case Hold => "HOLD"
  }

  /** Each ramp action has its own command. */
  lemma {:induction false} RampCommandsDistinct(a: RampAction, b: RampAction)
    ensures RampCommand(a) == RampCommand(b) ==> a == b
  {
    if a != b {
      var n := |RampCommand(a)|;
      assert RampCommand(a)[n - 4..] != RampCommand(b)[n - 4..];
    }
  }

  /** The controller that owns a set point. */
  function Owner(p: SetPoint): Controller {
    if p == Field then Ips else Itc
  }

  /**
   * The unit letters stripped from both ends of what the user typed; none of
   * them can be part of a number, so a number typed with or without units
   * strips to the same text.
   */
  function Units(p: SetPoint): (units: set<char>)
    ensures forall ch :: ch in units ==> ch !in "0123456789.-+"
  {
    match p
    case VtiTemperature => {'K'}
    case VtiPressure => {'m', 'B'}
    case Field => {'T'}
  }

  /** The least value accepted for `p`; only the field may be negative. */
  function Low(p: SetPoint): (low: real)
    ensures p != Field ==> low >= 0.0
  {
    match p
    case VtiTemperature => MinTemperature
    case VtiPressure => MinPressure
    case Field => -FieldLimit
  }

  /** The largest value accepted for `p`; every range holds more than one value, and the field's is symmetric. */
  function High(p: SetPoint): (high: real)
    ensures Low(p) < high
    ensures p == Field ==> Low(p) == -high
  {
    match p
    case VtiTemperature => MaxTemperature
    case VtiPressure => MaxPressure
    case Field => FieldLimit
  }

  /** The number used in place of an entry that does not parse; it lies outside the range. */
  function Fallback(p: SetPoint): (value: real)
    ensures !(Low(p) <= value <= High(p))
  {
    if p == Field then 100.0 else -1.0
  }

  /** The address a set command for `p` writes to, ending in `:`. */
  function SetAddress(p: SetPoint): string {
    match p
    case VtiTemperature => "SET:DEV:MB1.T1:TEMP:LOOP:TSET:"
    case VtiPressure => "SET:DEV:DB5.P1:TEMP:LOOP:TSET:"
    case Field => "SET:" + Magnet + ":SIG:FSET:"
  }

  /** The command that sets `p` to the number written as `value`: a set address followed by the value. */
  function SetCommand(p: SetPoint, value: string): (command: string)
    ensures |command| >= |value| + 4 && command[|command| - |value|..] == value
    ensures command[..4] == "SET:"
  {
    SetAddress(p) + value
  }

  /** Different set points, or different values, never give the same command. */
  lemma {:induction false} SetCommandInjective(p: SetPoint, q: SetPoint, v: string, w: string)
    ensures SetCommand(p, v) == SetCommand(q, w) ==> p == q && v == w
  {
    var c, d := SetCommand(p, v), SetCommand(q, w);
    // the addresses already differ at index 8 or 10
    assert c[8] == SetAddress(p)[8] && c[10] == SetAddress(p)[10];
    assert d[8] == SetAddress(q)[8] && d[10] == SetAddress(q)[10];
    if c == d {
      assert v == c[|SetAddress(p)|..];
    }
  }

  // ---------------------------------------------------------------------
  // Reading replies
  // ---------------------------------------------------------------------

  /**
   * The switch heater status read from the reply to the switch query: on if
   * its last field is `ON`, off if it is `OFF`, unknown otherwise.
   */
  function DecodeSwitch(reply: string): (status: SwitchStatus)
    ensures status == Enabled <==> Text.EndsWithField(reply, ':', "ON")
    ensures status == Disabled <==> Text.EndsWithField(reply, ':', "OFF")
    ensures status == Enabled || status == Disabled || status == Unknown
  {
    Text.LastFieldEquals(reply, ':', "ON");
    Text.LastFieldEquals(reply, ':', "OFF");
    var fields := Text.Split(reply, ':');
    if |fields| > 0 then
      if fields[|fields| - 1] == "ON" then Enabled
      else if fields[|fields| - 1] == "OFF" then Disabled
      else Unknown
    else
      Unknown
  }

  /**
   * What a monitor shows for a reading: the last `:`-separated field of the
   * reply, or nothing when the split is empty. The split never is, so there
   * is always something to show: the text after the reply's last `:`, or the
   * whole reply when it has none.
   */
  function Displayed(reply: string): (shown: Option<string>)
    ensures shown.Some?
    ensures var f := shown.value;
      && |f| <= |reply| && f == reply[|reply| - |f|..] && ':' !in f
      && (':' in reply <==> |f| < |reply|)
      && (|f| < |reply| ==> reply[|reply| - |f| - 1] == ':')
  {
    Text.LastFieldIsTail(reply, ':');
    var fields := Text.Split(reply, ':');
    if |fields| > 0 then Some(fields[|fields| - 1]) else None
  }

  /** A reading reported as `...:value` is shown as `value`. */
  lemma {:induction false} DisplaysValue(head: string, value: string)
    requires ':' !in value
    ensures Displayed(head + [':'] + value) == Some(value)
  {
    var reply := head + [':'] + value;
    assert reply[|reply| - |value| - 1..] == [':'] + value;
    Text.LastFieldEquals(reply, ':', value);
  }

  /**
   * The magnet-action box: the last field, with `~` for an empty split. The
   * placeholder branch is dead, so the box always shows the last field.
   */
  function ActionDisplayed(reply: string): (shown: string)
    ensures shown == Text.LastField(reply, ':')
  {
    Displayed(reply).GetOr(NoAction)
  }

  /** The reply names the expected controller: its first 34 characters are the identity. */
  function Identifies(reply: string, identity: string): (ok: bool)
    requires |identity| == IdentityLength
    ensures ok <==> |reply| >= IdentityLength && reply[..IdentityLength] == identity
  {
    Text.Prefix(reply, IdentityLength) == identity
  }

  /** No reply identifies both controllers. */
  lemma {:induction false} IdentitiesExclusive(reply: string)
    ensures !(Identifies(reply, ItcIdentity) && Identifies(reply, IpsIdentity))
  {
    if Identifies(reply, ItcIdentity) {
      assert reply[IdentityLength - 1] == 'C' != IpsIdentity[IdentityLength - 1];
    }
  }

  /**
   * An identification exchange that `transmit` gave up on never identifies a
   * controller: its reply is empty, `?` or an error reply.
   */
  lemma {:induction false} FailedExchangeUnidentified(tries: seq<Option<string>>, c: Controller)
    requires |tries| >= 1
    requires forall k :: 0 <= k < |tries| ==> !Accepted(tries[k])
    ensures !Identifies(TransmitReply(tries), Identity(c))
  {
    TransmitExhausted(tries);
    var reply := TransmitReply(tries);
    if |reply| >= IdentityLength {
      assert reply[..IdentityLength][0] == reply[0];
    }
  }

  /**
   * The range check of a set point: the parsed number, or the fallback when
   * the entry did not parse, must lie in `[low, high]`. As the fallback lies
   * outside, an entry is accepted exactly when it parses to a number in range.
   */
  function SetPointAccepted(parsed: Option<real>, fallback: real, low: real, high: real): (ok: bool)
    requires !(low <= fallback <= high)
    ensures ok <==> parsed.Some? && low <= parsed.value <= high
  {
    var value := parsed.GetOr(fallback);
    low <= value <= high
  }

  // ---------------------------------------------------------------------
  // The application
  // ---------------------------------------------------------------------

  /** The application: one serial link per controller and the switch heater status. */
  class Application {
    const itc: SerialPort
    const ips: SerialPort
    var switchStatus: SwitchStatus

    /** The link to controller `c`. */
    function Link(c: Controller): SerialPort {
      if c == Itc then itc else ips
    }

    ghost predicate Valid()
      reads this, itc, ips, itc.queue, ips.queue
    {
      itc != ips && itc.Valid() && ips.Valid()
    }

    constructor ()
      ensures Valid() && fresh(itc) && fresh(ips)
      ensures switchStatus == Unknown
      ensures !itc.isOpen && !ips.isOpen
      ensures itc.Log() == PortLog([], [], []) && ips.Log() == PortLog([], [], [])
    {
      itc := new SerialPort();
      ips := new SerialPort();
      switchStatus := Unknown;
    }

    /**
     * The first part of connecting to controller `c` on the port named
     * `entry`: closes the link if it is open, then opens it; if that fails
     * nothing is sent. Otherwise asks for the identity and, unless the reply
     * begins with the expected one, closes the link again. `closes` and
     * `opens` say what the transport does; `idn` is what the identity
     * exchange's awaits observe.
     */
    method Identify(c: Controller, entry: string, closes: bool, opens: bool, idn: seq<Option<string>>)
      returns (link: Connection)
      requires Valid()
      requires |idn| >= DefaultAttempts
      modifies Link(c)
      ensures Valid()
      ensures Link(c).port == entry && Link(c).device == Some(entry)
      ensures Link(c).isOpen <==> link == Connected
      ensures link == Failed <==> !opens
      ensures link == Failed ==> Link(c).Log() == old(Link(c).Log())
      ensures link != Failed ==>
        && (link == Connected <==> Identifies(TransmitReply(idn[..DefaultAttempts]), Identity(c)))
        && Link(c).Log() == TransmitLog(old(Link(c).Log()), IdentityQuery, Some(IdentityError(c)), idn[..DefaultAttempts])
    {
      var serial := Link(c);
      serial.port := entry;
      if serial.isOpen {
        var closed := serial.Close(closes);
      }
      var ok := serial.Open(None, opens);
      if !ok {
        return Failed;
      }
      var name := serial.Transmit(IdentityQuery, Some(IdentityError(c)), true, DefaultAttempts, idn);
      if Text.Prefix(name, IdentityLength) != Identity(c) {
        var closed := serial.Close(closes);
        return WrongInstrument;
      }
      return Connected;
    }

    /**
     * Connects to controller `c`. On the iPS a successful identification is
     * followed by the switch heater query, whose reply sets the status;
     * `swht` is what that exchange's awaits observe.
     */
    method Connect(c: Controller, entry: string, closes: bool, opens: bool,
                   idn: seq<Option<string>>, swht: seq<Option<string>>) returns (link: Connection)
      requires Valid()
      requires |idn| >= DefaultAttempts && |swht| >= DefaultAttempts
      modifies this, Link(c)
      ensures Valid()
      ensures Link(c).port == entry && Link(c).device == Some(entry)
      ensures Link(c).isOpen <==> link == Connected
      ensures link == Failed <==> !opens
      ensures link == Failed ==> Link(c).Log() == old(Link(c).Log())
      ensures link != Failed ==>
        (link == Connected <==> Identifies(TransmitReply(idn[..DefaultAttempts]), Identity(c)))
      ensures var identified := TransmitLog(old(Link(c).Log()), IdentityQuery, Some(IdentityError(c)), idn[..DefaultAttempts]);
        && (link == WrongInstrument || (c == Itc && link == Connected) ==> Link(c).Log() == identified)
        && (c == Ips && link == Connected ==> Link(c).Log() == TransmitLog(identified, SwitchQuery, None, swht[..DefaultAttempts]))
      ensures switchStatus ==
        if c == Ips && link == Connected then DecodeSwitch(TransmitReply(swht[..DefaultAttempts])) else old(switchStatus)
    {
      link := Identify(c, entry, closes, opens, idn);
      if c == Ips && link == Connected {
        var status := ips.Transmit(SwitchQuery, None, true, DefaultAttempts, swht);
        switchStatus := DecodeSwitch(status);
      }
    }

    /** Closes the link to controller `c` if it is open; nothing is sent. */
    method Disconnect(c: Controller, closes: bool)
      requires Valid()
      modifies Link(c)
      ensures Valid()
      ensures !Link(c).isOpen
      ensures Link(c).Log() == old(Link(c).Log())
      ensures Link(c).port == old(Link(c).port) && Link(c).device == old(Link(c).device)
    {
      var serial := Link(c);
      if serial.isOpen {
        var closed := serial.Close(closes);
      }
    }

    /** Closes both links when the window closes. */
    method DisconnectAll(itcCloses: bool, ipsCloses: bool)
      requires Valid()
      modifies itc, ips
      ensures Valid()
      ensures !itc.isOpen && !ips.isOpen
      ensures itc.Log() == old(itc.Log()) && ips.Log() == old(ips.Log())
      ensures itc.port == old(itc.port) && itc.device == old(itc.device)
      ensures ips.port == old(ips.port) && ips.device == old(ips.device)
    {
      var itcClosed := itc.Close(itcCloses);
      var ipsClosed := ips.Close(ipsCloses);
    }

    /**
     * Starts a ramp action of the magnet, which is only allowed while the
     * iPS link is open and the switch heater is known to be on; otherwise
     * nothing is sent.
     */
    method Ramp(action: RampAction, outcomes: seq<Option<string>>)
      requires Valid()
      requires |outcomes| >= DefaultAttempts
      modifies ips
      ensures Valid()
      ensures ips.isOpen == old(ips.isOpen)
      ensures ips.port == old(ips.port) && ips.device == old(ips.device)
      ensures old(ips.isOpen) && switchStatus == Enabled ==>
        ips.Log() == TransmitLog(old(ips.Log()), RampCommand(action), None, outcomes[..DefaultAttempts])
      ensures !(old(ips.isOpen) && switchStatus == Enabled) ==> ips.Log() == old(ips.Log())
    {
      if !ips.isOpen || switchStatus != Enabled {
        return;
      }
      var reply := ips.Transmit(RampCommand(action), None, true, DefaultAttempts, outcomes);
    }

    /**
     * Sets `p` from what the user typed, if its controller is connected:
     * `entry` is `None` when the dialog was cancelled, which aborts the
     * handler before anything is sent. The entry, stripped of its unit
     * letters, is parsed by `parse`; a number in range is sent, written back
     * by `format`. Anything else sends nothing.
     */
    method SetValue(p: SetPoint, entry: Option<string>, parse: string -> Option<real>, format: real -> string,
                    outcomes: seq<Option<string>>)
      requires Valid()
      requires |outcomes| >= DefaultAttempts
      modifies Link(Owner(p))
      ensures Valid()
      ensures Link(Owner(p)).isOpen == old(Link(Owner(p)).isOpen)
      ensures Link(Owner(p)).port == old(Link(Owner(p)).port) && Link(Owner(p)).device == old(Link(Owner(p)).device)
      ensures var parsed := if entry.Some? then parse(Text.Strip(entry.value, Units(p))) else None;
        if old(Link(Owner(p)).isOpen) && entry.Some? && SetPointAccepted(parsed, Fallback(p), Low(p), High(p))
        then Link(Owner(p)).Log() ==
          TransmitLog(old(Link(Owner(p)).Log()), SetCommand(p, format(parsed.value)), None, outcomes[..DefaultAttempts])
        else Link(Owner(p)).Log() == old(Link(Owner(p)).Log())
    {
      var serial := Link(Owner(p));
      if !serial.isOpen {
        return;
      }
      if entry.None? {
        return;
      }
      var text := Text.Strip(entry.value, Units(p));
      var parsed := parse(text);
      var value := if parsed.Some? then parsed.value else Fallback(p);
      if Low(p) <= value <= High(p) {
        var reply := serial.Transmit(SetCommand(p, format(value)), None, true, DefaultAttempts, outcomes);
      }
    }
  }
}
