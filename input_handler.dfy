/** The button dispatch of the menu front end (InputHandler.h). Button
    presses are inputs, and what the handlers do to the menu system and to
    the feed compartments is returned as a sequence of effects, in the order
    the code performs them. */
module Input {

  /** `InputHandler`, the global that selects a handler; `OtherHandler`
      stands for any value outside the four named ones. */
  datatype Handler =
    | MenuNavigatorHandler
    | Feeder1MenuHandler
    | Feeder2MenuHandler
    | NullHandler
    | OtherHandler(raw: int)

  /** `wasPressed` of the five buttons after `serviceButtons`. */
  datatype Buttons = Buttons(right: bool, up: bool, down: bool, left: bool, select: bool)
  {
    /** `anyBtnWasPressed`, taken to be whether any of the five was pressed. */
    predicate AnyPressed() { right || up || down || left || select }
  }

  /** A call the handlers make: on the menu system `ms`, or on `feeds[feeder]`. */
  datatype Effect =
    | MenuSelect
    | MenuBack
    | MenuPrev
    | MenuNext
    | MenuDisplay
    | SaveSettings(feeder: nat)
    | SetWeekDay(feeder: nat, wday: bv8)

  /** The menu calls, which change the menu system's state. */
  predicate IsMenuMove(e: Effect)
  {
    e.MenuSelect? || e.MenuBack? || e.MenuPrev? || e.MenuNext?
  }

  // ----- The weekday selector -----

  /** The up branch on the `uint8_t` weekday: 7 wraps to 1, anything else
      goes one up, modulo 256. */
  function WeekdayUp(w: bv8): (r: bv8)
    ensures 1 <= w <= 7 ==> 1 <= r <= 7
    ensures w == 7 ==> r == 1
    ensures w != 7 && w != 255 ==> r as int == w as int + 1
    ensures w == 255 ==> r == 0
  {
    if w == 7 then 1 else w + 1
  }

  /** The down branch: 1 wraps to 7, anything else goes one down, modulo 256. */
  function WeekdayDown(w: bv8): (r: bv8)
    ensures 1 <= w <= 7 ==> 1 <= r <= 7
    ensures w == 1 ==> r == 7
    ensures w != 1 && w != 0 ==> r as int == w as int - 1
    ensures w == 0 ==> r == 255
  {
    if w == 1 then 7 else w - 1
  }

  /** The weekday written back: up wins over down; with neither it is unchanged. */
  function SelectWeekday(w: bv8, b: Buttons): (r: bv8)
    ensures b.up ==> r == WeekdayUp(w)
    ensures !b.up && b.down ==> r == WeekdayDown(w)
    ensures !b.up && !b.down ==> r == w
  {
    if b.up then WeekdayUp(w) else if b.down then WeekdayDown(w) else w
  }

  /** On the days 1..7 up and down undo each other. */
  lemma WeekdayUpDownInverse(w: bv8)
    requires 1 <= w <= 7
    ensures WeekdayDown(WeekdayUp(w)) == w
    ensures WeekdayUp(WeekdayDown(w)) == w
  {
  }

  /** `n` presses of up. */
  function WeekdayUpTimes(w: bv8, n: nat): bv8
    decreases n
  {
    if n == 0 then w else WeekdayUp(WeekdayUpTimes(w, n - 1))
  }

  /** `n` presses of down. */
  function WeekdayDownTimes(w: bv8, n: nat): bv8
    decreases n
  {
    if n == 0 then w else WeekdayDown(WeekdayDownTimes(w, n - 1))
  }

  /** On the days 1..7, up is counting modulo 7. */
  lemma {:induction false} WeekdayUpCounts(w: bv8, n: nat)
    requires 1 <= w <= 7
    ensures WeekdayUpTimes(w, n) as int == (w as int - 1 + n) % 7 + 1
    decreases n
  {
    if n > 0 {
      WeekdayUpCounts(w, n - 1);
      Mod7Step(w as int - 1 + (n - 1));
    }
  }

  /** On the days 1..7, down is counting backwards modulo 7. */
  lemma {:induction false} WeekdayDownCounts(w: bv8, n: nat)
    requires 1 <= w <= 7
    ensures WeekdayDownTimes(w, n) as int == (w as int - 1 - n) % 7 + 1
    decreases n
  {
    if n > 0 {
      WeekdayDownCounts(w, n - 1);
      Mod7StepDown(w as int - 1 - (n - 1));
    }
  }

  lemma Mod7Step(a: int)
    ensures (a + 1) % 7 == if a % 7 == 6 then 0 else a % 7 + 1
  {
  }

  lemma Mod7StepDown(a: int)
    ensures (a - 1) % 7 == if a % 7 == 0 then 6 else a % 7 - 1
  {
  }

  /** Seven presses of either button come back to the same day. */
  lemma WeekdayWeekCycle(w: bv8)
    requires 1 <= w <= 7
    ensures WeekdayUpTimes(w, 7) as int == w as int
    ensures WeekdayDownTimes(w, 7) as int == w as int
  {
    var d := w as int - 1;
    assert 0 <= d < 7;
    assert (d + 7) % 7 == d;
    assert (d - 7) % 7 == d;
    WeekdayUpCounts(w, 7);
    WeekdayDownCounts(w, 7);
  }

  // ----- The handlers -----

  /** `menuNavigatorHandler`: select or right selects; otherwise left goes
      back; otherwise up goes to the previous item; otherwise down to the
      next. */
  function NavigatorEffects(b: Buttons): (r: seq<Effect>)
    ensures |r| <= 1
    ensures forall i :: 0 <= i < |r| ==> IsMenuMove(r[i])
    ensures r == [MenuSelect] <==> b.select || b.right
    ensures r == [MenuBack] <==> !b.select && !b.right && b.left
    ensures r == [MenuPrev] <==> !b.select && !b.right && !b.left && b.up
    ensures r == [MenuNext] <==> !b.select && !b.right && !b.left && !b.up && b.down
    ensures r == [] <==> !b.AnyPressed()
  {
    if b.select || b.right then [MenuSelect]
    else if b.left then [MenuBack]
    else if b.up then [MenuPrev]
    else if b.down then [MenuNext]
    else []
  }

  /** `feederMenuHandler(index)` for a compartment whose weekday reads `wday`:
      left saves that compartment's settings and goes back, and in every
      case the selected weekday is written back to the same compartment. */
  function FeederEffects(index: nat, b: Buttons, wday: bv8): (r: seq<Effect>)
    ensures |r| == if b.left then 3 else 1
    ensures r[|r| - 1] == SetWeekDay(index, SelectWeekday(wday, b))
    ensures b.left ==> r[0] == SaveSettings(index) && r[1] == MenuBack
    ensures forall i :: 0 <= i < |r| && !r[i].MenuBack? ==> r[i].feeder == index
  {
    (if b.left then [SaveSettings(index), MenuBack] else [])
      + [SetWeekDay(index, SelectWeekday(wday, b))]
  }

  /** The effects of the handler `h` selects, for compartments whose weekdays
      read `weekdays`. */
  function HandlerEffects(h: Handler, b: Buttons, weekdays: seq<bv8>): (r: seq<Effect>)
    requires |weekdays| >= 2
  {
    match h
    case MenuNavigatorHandler => NavigatorEffects(b)
    case Feeder1MenuHandler => FeederEffects(0, b, weekdays[0])
    case Feeder2MenuHandler => FeederEffects(1, b, weekdays[1])
    case NullHandler => []
    case OtherHandler(_) => []
  }

  /** `inputHandler`: the selected handler, then a redraw if any button was
      pressed. */
  function HandleInput(h: Handler, b: Buttons, weekdays: seq<bv8>): (r: seq<Effect>)
    requires |weekdays| >= 2
    ensures |r| == |HandlerEffects(h, b, weekdays)| + if b.AnyPressed() then 1 else 0
    ensures r[..|HandlerEffects(h, b, weekdays)|] == HandlerEffects(h, b, weekdays)
  {
    HandlerEffects(h, b, weekdays) + (if b.AnyPressed() then [MenuDisplay] else [])
  }

  /** The menu is redrawn exactly when a button was pressed, once, and last. */
  lemma DisplayIffPressed(h: Handler, b: Buttons, weekdays: seq<bv8>)
    requires |weekdays| >= 2
    ensures MenuDisplay in HandleInput(h, b, weekdays) <==> b.AnyPressed()
    ensures b.AnyPressed() ==> HandleInput(h, b, weekdays)[|HandleInput(h, b, weekdays)| - 1] == MenuDisplay
    ensures multiset(HandleInput(h, b, weekdays))[MenuDisplay] == if b.AnyPressed() then 1 else 0
  {
    var he := HandlerEffects(h, b, weekdays);
    NoRedrawInHandlers(h, b, weekdays);
    assert multiset(he)[MenuDisplay] == 0;
    if b.AnyPressed() {
      assert HandleInput(h, b, weekdays) == he + [MenuDisplay];
      assert multiset(he + [MenuDisplay]) == multiset(he) + multiset{MenuDisplay};
    } else {
      assert HandleInput(h, b, weekdays) == he;
    }
  }

  /** No handler redraws the menu itself. */
  lemma NoRedrawInHandlers(h: Handler, b: Buttons, weekdays: seq<bv8>)
    requires |weekdays| >= 2
    ensures MenuDisplay !in HandlerEffects(h, b, weekdays)
  {
    match h
    case MenuNavigatorHandler =>
      var he := NavigatorEffects(b);
      assert forall i :: 0 <= i < |he| ==> IsMenuMove(he[i]);
    case Feeder1MenuHandler =>
      var he := FeederEffects(0, b, weekdays[0]);
      assert forall i :: 0 <= i < |he| && !he[i].MenuBack? ==> he[i].feeder == 0;
    case Feeder2MenuHandler =>
      var he := FeederEffects(1, b, weekdays[1]);
      assert forall i :: 0 <= i < |he| && !he[i].MenuBack? ==> he[i].feeder == 1;
    case NullHandler =>
    case OtherHandler(_) =>
  }

  /** Each handler touches only what it is for: the navigator only the menu,
      the first feeder menu only compartment 0, the second only compartment
      1, and the null and unknown handlers nothing at all. */
  lemma DispatchTargets(h: Handler, b: Buttons, weekdays: seq<bv8>)
    requires |weekdays| >= 2
    ensures h.MenuNavigatorHandler? ==> forall e :: e in HandlerEffects(h, b, weekdays) ==> IsMenuMove(e)
    ensures h.Feeder1MenuHandler? ==> forall e :: e in HandlerEffects(h, b, weekdays) && !e.MenuBack? ==> e.feeder == 0
    ensures h.Feeder2MenuHandler? ==> forall e :: e in HandlerEffects(h, b, weekdays) && !e.MenuBack? ==> e.feeder == 1
    ensures h.NullHandler? || h.OtherHandler? ==> HandleInput(h, b, weekdays) == if b.AnyPressed() then [MenuDisplay] else []
  {
  }

  /** In a feeder menu, a day in 1..7 is written back as a day in 1..7. */
  lemma FeederKeepsWeekdayInRange(h: Handler, b: Buttons, weekdays: seq<bv8>)
    requires |weekdays| >= 2
    requires forall i :: 0 <= i < |weekdays| ==> 1 <= weekdays[i] <= 7
    ensures forall e :: e in HandleInput(h, b, weekdays) && e.SetWeekDay? ==> 1 <= e.wday <= 7
  {
  }
}
