/**
 * The server side of a monitor: it owns the monitor's terminal, rebuilds it
 * when the text scale or the monitor's size changes, and keeps two
 * poll-and-clear flags, `changed` and `resized`, for the code that sends
 * the terminal to clients. Calls on the terminal and on the tick scheduler are
 * recorded as effects in a ghost log.
 */
module Monitor {
  import opened Wrappers

  /** A terminal size in characters. */
  datatype Dims = Dims(width: int, height: int)

  /** A call the monitor makes on its terminal or on the tick scheduler. */
  datatype Effect =
    | CreateTerminal(size: Dims)
    | ResizeTerminal(size: Dims)
    | ClearTerminal
    | Schedule

  /** The number of calls that schedule the monitor for a tick: none exactly when the log holds no schedule. */
  function Schedules(effects: seq<Effect>): (n: nat)
    ensures n == 0 <==> Schedule !in effects
  {
    if effects == [] then 0
    else Schedules(effects[..|effects| - 1]) + (if effects[|effects| - 1] == Schedule then 1 else 0)
  }

  /** Appending one call to a log adds one schedule exactly when the call is a schedule. */
  lemma SchedulesSnoc(a: seq<Effect>, e: Effect)
    ensures Schedules(a + [e]) == Schedules(a) + (if e == Schedule then 1 else 0)
  {
  }

  /** The size the monitor compares against: that of its terminal, or -1 by -1 when it has none. */
  function OldSize(terminal: Option<Dims>): (d: Dims)
    ensures terminal.Some? ==> d == terminal.value
    ensures terminal.None? ==> d.width == -1 && d.height == -1
  {
    if terminal.None? then Dims(-1, -1) else terminal.value
  }

  class ServerMonitor {
    const colour: bool
    var textScale: int
    var terminal: Option<Dims>
    var resized: bool
    var changed: bool

    /** Every call made on the terminal and the tick scheduler, oldest first. */
    ghost var effects: seq<Effect>
    /** The length of `effects` when `changed` was last polled. */
    ghost var lastPoll: nat

    /**
     * Between two polls of `changed` the monitor is scheduled exactly once if
     * it was marked changed and not at all otherwise; a terminal, once it
     * exists, is at least one character in each direction.
     */
    ghost predicate Valid()
      reads this
    {
      && lastPoll <= |effects|
      && Schedules(effects[lastPoll..]) == (if changed then 1 else 0)
      && (terminal.Some? ==> terminal.value.width >= 1 && terminal.value.height >= 1)
    }

    constructor (colour: bool)
      ensures Valid()
      ensures this.colour == colour && textScale == 2 && terminal == None
      ensures !resized && !changed && effects == []
    {
      this.colour := colour;
      textScale := 2;
      terminal := None;
      resized := false;
      changed := false;
      effects := [];
      lastPoll := 0;
    }

    /** `markChanged`: raises `changed` and schedules a tick only when it was not already raised. */
    method MarkChanged()
      requires Valid()
      modifies this`changed, this`effects
      ensures Valid()
      ensures changed
      ensures effects == if old(changed) then old(effects) else old(effects) + [Schedule]
    {
      var was := changed;
      changed := true;
      if !was {
        effects := effects + [Schedule];
        SchedulesSnoc(old(effects)[lastPoll..], Schedule);
        assert effects[lastPoll..] == old(effects)[lastPoll..] + [Schedule];
      }
    }

    /** A call on the terminal: logged, and it does not schedule the monitor. */
    method Record(e: Effect)
      requires Valid()
      requires !e.Schedule?
      modifies this`effects
      ensures Valid()
      ensures effects == old(effects) + [e]
    {
      effects := effects + [e];
      SchedulesSnoc(old(effects)[lastPoll..], e);
      assert effects[lastPoll..] == old(effects)[lastPoll..] + [e];
    }

    /**
     * `rebuild`, for the terminal size computed from the text scale and the
     * monitor's extent. The first rebuild creates the terminal; later ones
     * resize it. When the size differs from the old one (always, the first
     * time) the terminal is cleared, `resized` is raised and the monitor is
     * marked changed; otherwise neither flag is touched beyond creation's mark.
     */
    method Rebuild(size: Dims)
      requires Valid()
      requires size.width >= 1 && size.height >= 1
      modifies this`terminal, this`resized, this`changed, this`effects
      ensures Valid()
      ensures terminal == Some(size)
      ensures var differs := OldSize(old(terminal)) != size;
        && resized == (old(resized) || differs)
        && changed == (old(changed) || differs)
        && (if old(terminal).None? then
              effects == old(effects) + [CreateTerminal(size)]
                         + (if old(changed) then [] else [Schedule]) + [ClearTerminal]
            else
              effects == old(effects) + [ResizeTerminal(size)]
                         + (if differs then [ClearTerminal] + (if old(changed) then [] else [Schedule]) else []))
      ensures old(terminal).None? ==> resized && changed
      ensures OldSize(old(terminal)) == size ==>
        resized == old(resized) && changed == old(changed) && ClearTerminal !in effects[|old(effects)|..]
    {
      var oldSize := OldSize(terminal);

      if terminal.None? {
        terminal := Some(size);
        Record(CreateTerminal(size));
        MarkChanged();
      } else {
        Record(ResizeTerminal(size));
        terminal := Some(size);
      }

      if oldSize.width != size.width || oldSize.height != size.height {
        Record(ClearTerminal);
        resized := true;
        MarkChanged();
      }
    }

    /** `setTextScale`: an unchanged scale does nothing; a new one is stored and the terminal rebuilt at `size`, the size computed for it. */
    method SetTextScale(scale: int, size: Dims)
      requires Valid()
      requires size.width >= 1 && size.height >= 1
      modifies this`textScale, this`terminal, this`resized, this`changed, this`effects
      ensures Valid()
      ensures scale == old(textScale) ==>
        && textScale == old(textScale) && terminal == old(terminal) && resized == old(resized)
        && changed == old(changed) && effects == old(effects)
      ensures scale != old(textScale) ==>
        && textScale == scale && terminal == Some(size)
        && var differs := OldSize(old(terminal)) != size;
           resized == (old(resized) || differs) && changed == (old(changed) || differs)
    {
      if textScale == scale {
        return;
      }
      textScale := scale;
      Rebuild(size);
    }

    /** `pollResized`: reports `resized` and clears it. */
    method PollResized() returns (r: bool)
      requires Valid()
      modifies this`resized
      ensures Valid()
      ensures r == old(resized) && !resized
    {
      r := resized;
      resized := false;
    }

    /**
     * `pollTerminalChanged`: reports `changed` and clears it. What it reports
     * is whether the monitor was scheduled since the last poll, and it was
     * scheduled exactly once if so.
     */
    method PollTerminalChanged() returns (r: bool)
      requires Valid()
      modifies this`changed, this`lastPoll
      ensures Valid()
      ensures r == old(changed) && !changed
      ensures Schedules(effects[old(lastPoll)..]) == if r then 1 else 0
      ensures !r <==> Schedule !in effects[old(lastPoll)..]
      ensures lastPoll == |effects|
    {
      r := changed;
      changed := false;
      lastPoll := |effects|;
    }
  }
}
