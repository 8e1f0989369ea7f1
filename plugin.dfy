/**
 * The plugin's listener on the duty-commence window: only a button-click
 * event that reaches a live window is handed to the job manager.
 */
module Plugin {
  import opened Wrappers
  import opened JobManager

  /** The window event type of a button click. */
  const ButtonClickEventType: int := 25

  /**
   * The arguments the game passes to the listener. A receive-event carries its
   * event type and, when the window is live, the window's value array.
   */
  datatype AddonArgs =
    | ReceiveEventArgs(atkEventType: int, addon: Option<seq<uint32>>)
    | OtherArgs

  /** The listener reacts only to a button-click event on a live window, whichever button was clicked. */
  predicate IsButtonClick(args: AddonArgs)
  {
    && args.ReceiveEventArgs?
    && args.atkEventType == ButtonClickEventType
    && args.addon.Some?
  }

  method OnAddonEvent(args: AddonArgs, playerJob: Option<uint32>, rapture: GearsetModule,
                      obs: seq<Observation>) returns (trace: seq<Action>)
    requires |obs| >= RetryCount
    ensures !args.ReceiveEventArgs? ==> trace == []
    ensures args.ReceiveEventArgs? && args.atkEventType != ButtonClickEventType ==> trace == []
    ensures args.ReceiveEventArgs? && args.addon.None? ==> trace == []
    ensures IsButtonClick(args) ==>
      trace == CommenceWindowEffects(args.addon.value, playerJob, rapture, obs)
  {
    if !args.ReceiveEventArgs? {
      return [];
    }
    if args.atkEventType != ButtonClickEventType {
      return [];
    }
    if args.addon.None? {
      return [];
    }
    trace := OnCommenceWindow(args.addon.value, playerJob, rapture, obs);
  }
}
