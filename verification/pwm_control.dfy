/**
 The RGB LED controller: an enabled flag, the current colour, and the four
 duty-cycle values played back by the PWM peripheral (channel 0 drives no
 pin; channels 1, 2 and 3 drive red, green and blue).

 The controller is an immutable state record and every operation is a step
 function. The peripheral itself is not modelled: only the duty-cycle
 values the driver would play back.
 */
module PwmControl {

  const RGB_CHANNEL_R: bv8 := 1
  const RGB_CHANNEL_G: bv8 := 2
  const RGB_CHANNEL_B: bv8 := 3

  datatype Color = Color(red: bv8, green: bv8, blue: bv8)

  /** One 16-bit compare value per PWM channel. */
  datatype DutyCycles = DutyCycles(ch0: bv16, ch1: bv16, ch2: bv16, ch3: bv16)

  datatype State = State(enabled: bool, color: Color, duty: DutyCycles)

  /** The state before any operation: static initialisers give an off LED,
      colour {0,0,0} and zero duty cycles. */
  const Reset: State := State(false, Color(0, 0, 0), DutyCycles(0, 0, 0, 0))

  predicate IsRgbChannel(k: bv8)
  {
    RGB_CHANNEL_R <= k <= RGB_CHANNEL_B
  }

  /** The RGB duty cycles show exactly colour c. */
  predicate Shows(d: DutyCycles, c: Color)
  {
    d.ch1 == c.red as bv16 && d.ch2 == c.green as bv16 && d.ch3 == c.blue as bv16
  }

  /** All three RGB duty cycles are zero. */
  predicate Dark(d: DutyCycles)
  {
    d.ch1 == 0 && d.ch2 == 0 && d.ch3 == 0
  }

  /** The controller invariant: the LED shows its colour when enabled and is
      dark when disabled. */
  predicate Consistent(p: State)
  {
    if p.enabled then Shows(p.duty, p.color) else Dark(p.duty)
  }

  /** Duty initialisation at start-up (the peripheral set-up is left out):
      the three RGB channels are loaded with the current colour. */
  function ControllerInit(p: State): (p': State)
    ensures p'.enabled == p.enabled && p'.color == p.color
    ensures p'.duty.ch0 == p.duty.ch0
    ensures Shows(p'.duty, p.color)
  {
    p.(duty := p.duty.(ch1 := p.color.red as bv16,
                       ch2 := p.color.green as bv16,
                       ch3 := p.color.blue as bv16))
  }

  /**
   Refreshes one channel from the current colour. A disabled LED returns
   before touching anything unless the channel is 0, and channel 0 (like any
   channel outside 1..3) has no case in the switch, so a disabled LED never
   changes here.
   */
  function UpdateDutyCycle(p: State, channel: bv8): (p': State)
    ensures p'.enabled == p.enabled && p'.color == p.color
    ensures p'.duty.ch0 == p.duty.ch0
    ensures !IsRgbChannel(channel) || !p.enabled ==> p' == p
    ensures p.enabled && channel == RGB_CHANNEL_R ==> p'.duty == p.duty.(ch1 := p.color.red as bv16)
    ensures p.enabled && channel == RGB_CHANNEL_G ==> p'.duty == p.duty.(ch2 := p.color.green as bv16)
    ensures p.enabled && channel == RGB_CHANNEL_B ==> p'.duty == p.duty.(ch3 := p.color.blue as bv16)
  {
    if !p.enabled && channel != 0 then p
    else if channel == RGB_CHANNEL_R then
      p.(duty := p.duty.(ch1 := if p.enabled then p.color.red as bv16 else 0))
    else if channel == RGB_CHANNEL_G then
      p.(duty := p.duty.(ch2 := if p.enabled then p.color.green as bv16 else 0))
    else if channel == RGB_CHANNEL_B then
      p.(duty := p.duty.(ch3 := if p.enabled then p.color.blue as bv16 else 0))
    else p
  }

  /** Refreshes channels R, G and B in turn. */
  function RefreshAll(p: State): (p': State)
    ensures p'.enabled == p.enabled && p'.color == p.color
    ensures p'.duty.ch0 == p.duty.ch0
    ensures p.enabled ==> Shows(p'.duty, p.color)
    ensures !p.enabled ==> p' == p
  {
    UpdateDutyCycle(UpdateDutyCycle(UpdateDutyCycle(p, RGB_CHANNEL_R), RGB_CHANNEL_G), RGB_CHANNEL_B)
  }

  /** Stores the colour whether or not the LED is on; the duty cycles follow
      it only while the LED is on. */
  function SetRgbColor(p: State, r: bv8, g: bv8, b: bv8): (p': State)
    ensures p'.color == Color(r, g, b)
    ensures p'.enabled == p.enabled
    ensures p'.duty.ch0 == p.duty.ch0
    ensures p.enabled ==> Shows(p'.duty, Color(r, g, b))
    ensures !p.enabled ==> p'.duty == p.duty
  {
    var q := p.(color := Color(r, g, b));
    if q.enabled then RefreshAll(q) else q
  }

  function On(p: State): (p': State)
    ensures p'.enabled && p'.color == p.color
    ensures p'.duty.ch0 == p.duty.ch0
    ensures Shows(p'.duty, p.color)
  {
    RefreshAll(p.(enabled := true))
  }

  function Off(p: State): (p': State)
    ensures !p'.enabled && p'.color == p.color
    ensures p'.duty.ch0 == p.duty.ch0
    ensures Dark(p'.duty)
  {
    p.(enabled := false, duty := p.duty.(ch1 := 0, ch2 := 0, ch3 := 0))
  }

  /** Start-up establishes the invariant. */
  lemma InitConsistent()
    ensures Consistent(ControllerInit(Reset))
  {
  }

  /** Each public operation establishes or preserves the invariant. */
  lemma SetRgbColorPreservesConsistent(p: State, r: bv8, g: bv8, b: bv8)
    requires Consistent(p)
    ensures Consistent(SetRgbColor(p, r, g, b))
  {
  }

  lemma OnEstablishesConsistent(p: State)
    ensures Consistent(On(p))
  {
  }

  lemma OffEstablishesConsistent(p: State)
    ensures Consistent(Off(p))
  {
  }

  /** Turning the LED off and on again shows the colour it had before, and
      leaves the controller exactly as turning it on directly would. */
  lemma OffThenOn(p: State)
    ensures Shows(On(Off(p)).duty, p.color)
    ensures On(Off(p)) == On(p)
  {
  }

  /** A call into the controller's public interface. */
  datatype Command = SetColor(r: bv8, g: bv8, b: bv8) | TurnOn | TurnOff

  function Step(p: State, c: Command): State
  {
    match c
    case SetColor(r, g, b) => SetRgbColor(p, r, g, b)
    case TurnOn => On(p)
    case TurnOff => Off(p)
  }

  function Run(p: State, cs: seq<Command>): State
    decreases |cs|
  {
    if cs == [] then p else Run(Step(p, cs[0]), cs[1..])
  }

  /** The invariant holds after start-up followed by any sequence of calls. */
  lemma {:induction false} RunPreservesConsistent(p: State, cs: seq<Command>)
    requires Consistent(p)
    ensures Consistent(Run(p, cs))
    ensures Run(p, cs).duty.ch0 == p.duty.ch0
    decreases |cs|
  {
    if cs != [] {
      var q := Step(p, cs[0]);
      match cs[0] {
        case SetColor(r, g, b) => SetRgbColorPreservesConsistent(p, r, g, b);
        case TurnOn => OnEstablishesConsistent(p);
        case TurnOff => OffEstablishesConsistent(p);
      }
      RunPreservesConsistent(q, cs[1..]);
    }
  }

  /** After any sequence of calls from start-up the LED shows its colour when
      on and is dark when off, and channel 0 stays at zero. */
  lemma SessionShowsColorOrDark(cs: seq<Command>)
    ensures var p := Run(ControllerInit(Reset), cs);
            (p.enabled ==> Shows(p.duty, p.color)) && (!p.enabled ==> Dark(p.duty)) && p.duty.ch0 == 0
  {
    InitConsistent();
    RunPreservesConsistent(ControllerInit(Reset), cs);
  }
}
