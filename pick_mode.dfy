/** The pick-mode state machine of the Tauri back end: the global
    `PICK_MODE_ACTIVE` flag, the registered pick shortcut `ACTIVE_SHORTCUT`,
    and the events the commands, the global-shortcut handler and the tray menu
    send to the front end.

    Each entry point is one atomic step. Emitting an event appends it to
    `events`; showing, hiding and focusing the main window are not modelled. */
module PickMode {
  import opened Types
  import opened ColorPicker

  // ---------------------------------------------------------------------
  // Shortcuts
  // ---------------------------------------------------------------------

  datatype Modifier = Super | Shift | Control | Alt

  /** The key codes the back end names; every other key is `Other`. */
  datatype Code = KeyC | KeyP | Escape | Other(id: nat)

  datatype Shortcut = Shortcut(mods: set<Modifier>, key: Code)

  datatype ShortcutState = Pressed | Released

  /** `Shortcut::new(None, Code::Escape)`. */
  const EscapeShortcut: Shortcut := Shortcut({}, Escape)

  /** The pick shortcuts tried at start-up, in order of preference, with their labels. */
  const PickShortcutCandidates: seq<(Shortcut, string)> := [
    (Shortcut({Super, Shift}, KeyC), "Win+Shift+C"),
    (Shortcut({Control, Shift}, KeyC), "Ctrl+Shift+C"),
    (Shortcut({Super, Shift}, KeyP), "Win+Shift+P"),
    (Shortcut({Control, Alt}, KeyC), "Ctrl+Alt+C"),
    (Shortcut({Super, Alt}, KeyC), "Win+Alt+C")
  ]

  /** Every candidate has modifiers, so none is the plain Escape key, and every
      candidate has a non-empty label. */
  lemma CandidateFacts()
    ensures forall i :: 0 <= i < |PickShortcutCandidates| ==>
      PickShortcutCandidates[i].0.mods != {} &&
      PickShortcutCandidates[i].0 != EscapeShortcut &&
      PickShortcutCandidates[i].1 != ""
  {
    assert Super in PickShortcutCandidates[0].0.mods;
    assert Control in PickShortcutCandidates[1].0.mods;
    assert Super in PickShortcutCandidates[2].0.mods;
    assert Control in PickShortcutCandidates[3].0.mods;
    assert Super in PickShortcutCandidates[4].0.mods;
  }

  /** The handler's `is_pick` test against the registered shortcut. */
  predicate IsPickShortcut(registered: Option<(Shortcut, string)>, s: Shortcut)
  {
    registered.Some? && registered.value.0 == s
  }

  /** The registered shortcut, if any, is one of the candidates. */
  predicate RegisteredIsCandidate(registered: Option<(Shortcut, string)>)
  {
    registered.None? || registered.value in PickShortcutCandidates
  }

  /** One key press never counts both as the pick shortcut and as Escape. */
  lemma PickIsNeverEscape(registered: Option<(Shortcut, string)>, s: Shortcut)
    requires RegisteredIsCandidate(registered)
    ensures IsPickShortcut(registered, s) ==> s != EscapeShortcut
  {
    CandidateFacts();
  }

  // ---------------------------------------------------------------------
  // Tray texts
  // ---------------------------------------------------------------------

  /** The fixed parts of the tray item text and of the tooltip around the label. */
  const PickItemPrefix: string := "Pick Color ("
  const PickItemSuffix: string := ")"
  const TooltipPrefix: string := "ColorSnap - "
  const TooltipSuffix: string := " to pick color"

  /** `tray_shortcut_text`. */
  function TrayShortcutText(shortcutLabel: string): string
  {
    if shortcutLabel == "" then "" else " (" + shortcutLabel + ")"
  }

  /** The tray "pick" item's text. */
  function PickItemText(shortcutLabel: string): string
  {
    "Pick Color" + TrayShortcutText(shortcutLabel)
  }

  /** The tray icon's tooltip. */
  function TooltipText(shortcutLabel: string): string
  {
    "ColorSnap" + (if shortcutLabel == "" then "" else " - " + shortcutLabel + " to pick color")
  }

  /** The label as a reader of the tray item recovers it. */
  function LabelOfPickItem(text: string): string
  {
    if |text| >= |PickItemPrefix| + |PickItemSuffix|
    then text[|PickItemPrefix|..|text| - |PickItemSuffix|] else ""
  }

  /** The label as a reader of the tooltip recovers it. */
  function LabelOfTooltip(text: string): string
  {
    if |text| >= |TooltipPrefix| + |TooltipSuffix|
    then text[|TooltipPrefix|..|text| - |TooltipSuffix|] else ""
  }

  /** Cutting a known prefix and suffix off a text gives back what lay between. */
  lemma StripAffixes(prefix: string, middle: string, suffix: string)
    ensures var t := prefix + middle + suffix;
      t[|prefix|..|t| - |suffix|] == middle
  {
    var t := prefix + middle + suffix;
    assert t[|prefix|..|t| - |suffix|] == t[|prefix|..][..|middle|];
    assert t[|prefix|..] == middle + suffix;
  }

  /** The item text is the label between the item's fixed prefix and suffix. */
  lemma PickItemAffixes(shortcutLabel: string)
    requires shortcutLabel != ""
    ensures PickItemText(shortcutLabel) == PickItemPrefix + shortcutLabel + PickItemSuffix
  {
    assert "Pick Color" + " (" == PickItemPrefix;
    assert "Pick Color" + (" (" + shortcutLabel + ")") == ("Pick Color" + " (") + shortcutLabel + ")";
  }

  /** The tooltip is the label between the tooltip's fixed prefix and suffix. */
  lemma TooltipAffixes(shortcutLabel: string)
    requires shortcutLabel != ""
    ensures TooltipText(shortcutLabel) == TooltipPrefix + shortcutLabel + TooltipSuffix
  {
    assert "ColorSnap" + " - " == TooltipPrefix;
    assert "ColorSnap" + (" - " + shortcutLabel + " to pick color") == ("ColorSnap" + " - ") + shortcutLabel + " to pick color";
  }

  /** The item text shows the label, in parentheses, exactly when there is one,
      and the label can be read back from the item and from the tooltip. */
  lemma TrayTextsShowLabel(shortcutLabel: string)
    ensures TrayShortcutText(shortcutLabel) != "" <==> shortcutLabel != ""
    ensures shortcutLabel != "" ==> PickItemText(shortcutLabel) == "Pick Color (" + shortcutLabel + ")"
    ensures shortcutLabel == "" ==> PickItemText(shortcutLabel) == "Pick Color" && TooltipText(shortcutLabel) == "ColorSnap"
    ensures LabelOfPickItem(PickItemText(shortcutLabel)) == shortcutLabel
    ensures LabelOfTooltip(TooltipText(shortcutLabel)) == shortcutLabel
  {
    if shortcutLabel != "" {
      PickItemAffixes(shortcutLabel);
      StripAffixes(PickItemPrefix, shortcutLabel, PickItemSuffix);
      TooltipAffixes(shortcutLabel);
      StripAffixes(TooltipPrefix, shortcutLabel, TooltipSuffix);
    } else {
      assert PickItemText(shortcutLabel) == "Pick Color" && |"Pick Color"| < |PickItemPrefix|;
      assert TooltipText(shortcutLabel) == "ColorSnap" && |"ColorSnap"| < |TooltipPrefix|;
    }
  }

  /** The tray texts that `setup` builds. */
  datatype TrayTexts = TrayTexts(pickItem: string, tooltip: string)

  // ---------------------------------------------------------------------
  // Events sent to the front end
  // ---------------------------------------------------------------------

  datatype Event = PickModeStarted | PickModeStopped | ColorPicked(color: ColorInfo)

  /** The front end's view of pick mode: armed exactly when the last event it
      received was `pick-mode-started`. */
  predicate LastEventArms(events: seq<Event>)
  {
    |events| > 0 && events[|events| - 1].PickModeStarted?
  }

  /** The back end's process-wide state. `cursor` is the `CURSOR_CHANGED` flag
      of the sampler, which pick mode drives. */
  class PickModeState {
    var active: bool
    var activeShortcut: Option<(Shortcut, string)>
    var events: seq<Event>
    const cursor: PickCursor

    /** The registered shortcut is a candidate, and the flag agrees with the
        events sent so far. */
    ghost predicate Valid()
      reads this
    {
      RegisteredIsCandidate(activeShortcut) && (active <==> LastEventArms(events))
    }

    constructor (cursor: PickCursor)
      ensures Valid()
      ensures this.cursor == cursor
      ensures !active && activeShortcut == None && events == []
    {
      this.cursor := cursor;
      active := false;
      activeShortcut := None;
      events := [];
    }

    /** `is_pick_mode_active`. */
    function IsPickModeActive(): (armed: bool)
      reads this
      requires Valid()
      ensures armed <==> LastEventArms(events)
    {
      active
    }

    /** `get_active_shortcut`: the registered label, or "" when none was registered. */
    function GetActiveShortcut(): (shortcutLabel: string)
      reads this
      requires Valid()
      ensures shortcutLabel == "" <==> activeShortcut.None?
      ensures activeShortcut.Some? ==> shortcutLabel == activeShortcut.value.1
    {
      CandidateFacts();
      match activeShortcut
      case None => ""
      case Some(registered) => registered.1
    }

    /** Arming, shared by `start_pick_mode`, the pick shortcut and the tray item. */
    method Arm(env: CursorEnv)
      requires env.icon.Some? ==> WellFormed(env.icon.value)
      requires Valid()
      modifies this, cursor
      ensures Valid()
      ensures active
      ensures events == old(events) + [PickModeStarted]
      ensures activeShortcut == old(activeShortcut)
      ensures cursor.changed == (old(cursor.changed) || CursorInstalled(env))
    {
      active := true;
      var icon := cursor.SetPickCursor(env);
      events := events + [PickModeStarted];
    }

    /** Leaving pick mode without a colour. */
    method Disarm()
      requires Valid()
      modifies this, cursor
      ensures Valid()
      ensures !active && !cursor.changed
      ensures events == old(events) + [PickModeStopped]
      ensures activeShortcut == old(activeShortcut)
    {
      active := false;
      var reset := cursor.RestoreDefaultCursor();
      events := events + [PickModeStopped];
    }

    /** Leaving pick mode with a colour. */
    method Confirm(color: ColorInfo)
      requires Valid()
      modifies this, cursor
      ensures Valid()
      ensures !active && !cursor.changed
      ensures events == old(events) + [ColorPicked(color)]
      ensures activeShortcut == old(activeShortcut)
    {
      active := false;
      var reset := cursor.RestoreDefaultCursor();
      events := events + [ColorPicked(color)];
    }

    /** `start_pick_mode`: arms whatever the previous state, so arming twice
        leaves pick mode armed once more; it always succeeds. */
    method StartPickMode(env: CursorEnv)
      requires env.icon.Some? ==> WellFormed(env.icon.value)
      requires Valid()
      modifies this, cursor
      ensures Valid()
      ensures active
      ensures events == old(events) + [PickModeStarted]
      ensures activeShortcut == old(activeShortcut)
      ensures cursor.changed == (old(cursor.changed) || CursorInstalled(env))
    {
      Arm(env);
    }

    /** `stop_pick_mode`: always leaves pick mode and never reports a colour. */
    method StopPickMode()
      requires Valid()
      modifies this, cursor
      ensures Valid()
      ensures !active && !cursor.changed
      ensures events == old(events) + [PickModeStopped]
      ensures activeShortcut == old(activeShortcut)
    {
      Disarm();
    }

    /** `pick_color_now`: a failed sample changes nothing; a successful one
        leaves pick mode and reports that colour once. */
    method PickColorNow(screen: Screen) returns (r: Result<ColorInfo>)
      requires Valid()
      modifies this, cursor
      ensures Valid()
      ensures r == GetColorAtCursor(screen)
      ensures r.Err? ==> active == old(active) && events == old(events) && cursor.changed == old(cursor.changed)
      ensures r.Ok? ==> !active && !cursor.changed && events == old(events) + [ColorPicked(r.value)]
      ensures activeShortcut == old(activeShortcut)
    {
      r := GetColorAtCursor(screen);
      if r.Err? {
        return;
      }
      Confirm(r.value);
    }

    /** The global-shortcut handler. Only presses count. The pick shortcut arms
        when idle and confirms when armed; a failed sample keeps pick mode armed
        and reports nothing. Escape cancels when armed and does nothing when idle. */
    method HandleShortcut(shortcut: Shortcut, state: ShortcutState, screen: Screen, env: CursorEnv)
      requires Valid()
      requires env.icon.Some? ==> WellFormed(env.icon.value)
      modifies this, cursor
      ensures Valid() && activeShortcut == old(activeShortcut)
      ensures state == Released ==>
        active == old(active) && events == old(events) && cursor.changed == old(cursor.changed)
      ensures state == Pressed && IsPickShortcut(activeShortcut, shortcut) && !old(active) ==>
        && active
        && events == old(events) + [PickModeStarted]
        && cursor.changed == (old(cursor.changed) || CursorInstalled(env))
      ensures state == Pressed && IsPickShortcut(activeShortcut, shortcut) && old(active) ==>
        match GetColorAtCursor(screen)
        case Ok(color) => !active && !cursor.changed && events == old(events) + [ColorPicked(color)]
        case Err(_) => active && events == old(events) && cursor.changed == old(cursor.changed)
      ensures state == Pressed && shortcut == EscapeShortcut && old(active) ==>
        !active && !cursor.changed && events == old(events) + [PickModeStopped]
      ensures state == Pressed && shortcut == EscapeShortcut && !old(active) ==>
        !active && events == old(events) && cursor.changed == old(cursor.changed)
      ensures state == Pressed && !IsPickShortcut(activeShortcut, shortcut) && shortcut != EscapeShortcut ==>
        active == old(active) && events == old(events) && cursor.changed == old(cursor.changed)
    {
      if state != Pressed {
        return;
      }
      PickIsNeverEscape(activeShortcut, shortcut);
      var isPick := IsPickShortcut(activeShortcut, shortcut);
      if isPick {
        if active {
          var sample := GetColorAtCursor(screen);
          if sample.Ok? {
            Confirm(sample.value);
          }
        } else {
          Arm(env);
        }
      }
      if shortcut == EscapeShortcut && active {
        Disarm();
      }
    }

    /** The tray menu: "quit" restores the cursor before the program exits,
        "pick" arms, "show" only shows the window. */
    method TrayMenuEvent(id: string, env: CursorEnv) returns (quit: bool)
      requires env.icon.Some? ==> WellFormed(env.icon.value)
      requires Valid()
      modifies this, cursor
      ensures Valid()
      ensures quit <==> id == "quit"
      ensures activeShortcut == old(activeShortcut)
      ensures id == "quit" ==> !cursor.changed && active == old(active) && events == old(events)
      ensures id == "pick" ==>
        && active
        && events == old(events) + [PickModeStarted]
        && cursor.changed == (old(cursor.changed) || CursorInstalled(env))
      ensures id != "quit" && id != "pick" ==>
        active == old(active) && events == old(events) && cursor.changed == old(cursor.changed)
    {
      quit := false;
      if id == "quit" {
        var reset := cursor.RestoreDefaultCursor();
        quit := true;
      } else if id == "pick" {
        Arm(env);
      }
    }

    /** The shortcut part of `setup`: register the first candidate, in list
        order, that the system accepts, and build the tray texts from its shortcutLabel. */
    method Setup(registrable: Shortcut -> bool) returns (shortcutLabel: string, tray: TrayTexts)
      requires Valid()
      modifies this
      ensures Valid()
      ensures active == old(active) && events == old(events)
      ensures shortcutLabel == "" <==>
        forall i :: 0 <= i < |PickShortcutCandidates| ==> !registrable(PickShortcutCandidates[i].0)
      ensures shortcutLabel != "" ==>
        exists i :: 0 <= i < |PickShortcutCandidates| && registrable(PickShortcutCandidates[i].0) &&
          (forall j :: 0 <= j < i ==> !registrable(PickShortcutCandidates[j].0)) &&
          activeShortcut == Some(PickShortcutCandidates[i]) && shortcutLabel == PickShortcutCandidates[i].1
      ensures shortcutLabel == "" ==> activeShortcut == old(activeShortcut)
      ensures tray == TrayTexts(PickItemText(shortcutLabel), TooltipText(shortcutLabel))
    {
      CandidateFacts();
      shortcutLabel := "";
      for i := 0 to |PickShortcutCandidates|
        invariant shortcutLabel == "" && activeShortcut == old(activeShortcut)
        invariant forall j :: 0 <= j < i ==> !registrable(PickShortcutCandidates[j].0)
      {
        var candidate := PickShortcutCandidates[i];
        if registrable(candidate.0) {
          shortcutLabel := candidate.1;
          activeShortcut := Some(candidate);
          break;
        }
      }
      tray := TrayTexts(PickItemText(shortcutLabel), TooltipText(shortcutLabel));
    }
  }

  /** A screen whose every pixel is pure red. */
  function RedScreen(at: Point): Screen
  {
    Screen(Some(at), p => Pixel(0x0000FF))
  }

  lemma RedScreenSample(at: Point)
    ensures GetColorAtCursor(RedScreen(at)) == Ok(ColorInfo("#FF0000", Rgb(255, 0, 0), at.x, at.y))
  {
    PureRed();
  }

  /** Press, release and press again of the registered pick shortcut, from
      idle with nothing sent yet, over a screen that samples to `color`. */
  method PressReleasePress(state: PickModeState, pick: Shortcut, screen: Screen, env: CursorEnv, ghost color: ColorInfo)
      returns (armedBetween: bool)
    requires state.Valid() && !state.active && state.events == []
    requires IsPickShortcut(state.activeShortcut, pick)
    requires GetColorAtCursor(screen) == Ok(color)
    requires env.icon.Some? ==> WellFormed(env.icon.value)
    modifies state, state.cursor
    ensures armedBetween
    ensures state.events == [PickModeStarted, ColorPicked(color)]
  {
    state.HandleShortcut(pick, Pressed, screen, env);
    assert state.events == [PickModeStarted];
    armedBetween := state.active;
    state.HandleShortcut(pick, Released, screen, env);
    state.HandleShortcut(pick, Pressed, screen, env);
  }

  /** The red-pixel example: with the first candidate registered, a press of
      the pick shortcut arms pick mode, a release does nothing, and a second
      press over a pure red pixel reports `#FF0000` and leaves pick mode. */
  method PickRedExample(at: Point, env: CursorEnv) returns (log: seq<Event>, armedBetween: bool)
    requires env.icon.Some? ==> WellFormed(env.icon.value)
    ensures armedBetween
    ensures log == [PickModeStarted, ColorPicked(ColorInfo("#FF0000", Rgb(255, 0, 0), at.x, at.y))]
  {
    var cursor := new PickCursor();
    var state := new PickModeState(cursor);
    // A system that accepts every shortcut registration.
    var acceptAll := (s: Shortcut) => true;
    var shortcutLabel, tray := state.Setup(acceptAll);
    var pick := PickShortcutCandidates[0].0;
    assert acceptAll(pick);
    ghost var i :| 0 <= i < |PickShortcutCandidates| && acceptAll(PickShortcutCandidates[i].0) &&
      (forall j :: 0 <= j < i ==> !acceptAll(PickShortcutCandidates[j].0)) &&
      state.activeShortcut == Some(PickShortcutCandidates[i]);
    assert i == 0;
    assert IsPickShortcut(state.activeShortcut, pick);
    var screen := RedScreen(at);
    RedScreenSample(at);
    armedBetween := PressReleasePress(state, pick, screen, env, ColorInfo("#FF0000", Rgb(255, 0, 0), at.x, at.y));
    log := state.events;
  }
}
