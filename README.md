# JobAutoSwitcher, modelled in Dafny

JobAutoSwitcher is a game plugin. When the player clicks on the duty
confirmation window ("ContentsFinderConfirm"), it reads the duty's job icon
from the window's value array. If the local player is on a different job, it
equips the player's best gearset for that job: the one with the highest item
level, the first such slot winning ties. It then presses the window's
Commence button, waiting and retrying up to five times. It re-equips on any
attempt that finds the player on the wrong job again, and stops as soon as
the window is gone or hidden. A "/jas" chat command turns the plugin's
Enabled flag on or off, flips it, or shows or hides the configuration window.

The model has five modules:

- `Wrappers`: the `Option` type that stands for a pointer that may be null.
- `JobManager`: decoding the job, choosing the gearset, and the retry loop.
- `Config`: the plugin's configuration, of which only `Enabled` is modelled.
- `Commands`: the chat command and the `Enabled` flag it changes.
- `Plugin`: the listener's gate in front of the job manager.

The game is turned into inputs:

- the window's values, as a sequence of 32-bit integers;
- the local player's job, as an `Option` (None when there is no local player);
- the gearset module, `None` when it is null, otherwise its slots, each `None` when empty;
- one `Observation` per retry attempt: the window's state, the player's job and the gearsets at that moment.

Every effect on the game becomes an `Action` in a returned trace: the
"Switching to ..." announcement, equipping a gearset, a delay, focusing the
window, and firing its callback. Each method is proved equal to a
specification function of its inputs (`EquipEffects`, `CommenceLoop`,
`CommenceWindowEffects`, `CommandEffects`). The lemmas state what those
functions guarantee.

`CommandHandler` updates the shared configuration in place, so it is a
class. It holds a reference to a `Configuration` object, and the effects it
causes (saving, chat lines, toggling the window) build up in a field.

`Configuration.Enabled` is read only by the /jas command. Neither
`Plugin.OnAddonEvent` nor `JobManager.OnCommenceWindow` reads it
(JobAutoSwitcher/Plugin.cs:44-53, JobAutoSwitcher/JobManager.cs:36-50), so
the flag changes what the command saves and prints, not what a click on the
window does.

## Model

| member | source | states |
|---|---|---|
| JobManager.DecodeJob | JobAutoSwitcher/JobManager.cs:38-43 | A job is decoded exactly when the window has at least 25 values and value 24 lies in 62100..63000. The job plus 62100 equals the icon, so the subtraction never wraps, and the job is at most 900. |
| JobManager.DecodeJobInverse | JobAutoSwitcher/JobManager.cs:40-43 | Every job in 0..900 is decoded back from icon job + 62100 in a long enough window. |
| JobManager.BestSlotUnique | JobAutoSwitcher/JobManager.cs:67-80 | At most one slot is the scan's winner: the highest item level, the earliest among equals. |
| JobManager.ScanSlotsMeaning | JobAutoSwitcher/JobManager.cs:64-80 | After the first n slots, the scan's state holds no id exactly when no qualifying slot has a non-negative item level. Otherwise it holds the id and item level of the winning slot among them. |
| JobManager.EquipBestGearset | JobAutoSwitcher/JobManager.cs:59-93 | A null module equips nothing. Otherwise the 100-slot loop keeps the qualifying gearset (present, flagged as existing, of the target job) with the strictly highest item level above -1. The method returns true exactly when such a slot exists, and then announces the switch and equips the winning slot's gearset. When it returns false it does nothing. |
| JobManager.FirstHiddenFrom | JobAutoSwitcher/JobManager.cs:109-116 | The first attempt at or after the given one whose window is missing or hidden (5 when none is). Every attempt before it sees the window visible. |
| JobManager.LoopCallbackCount | JobAutoSwitcher/JobManager.cs:99-137 | From any attempt on, the loop clicks once per attempt up to the first attempt that finds the window missing or hidden. |
| JobManager.LoopDelaySchedule | JobAutoSwitcher/JobManager.cs:99-101 | The loop waits once per attempt it runs, including the attempt that stops it. The wait before attempt n is 500 ms for n = 0 and 2000 ms otherwise. |
| JobManager.LoopClicksCommence | JobAutoSwitcher/JobManager.cs:128-133 | Every callback the loop fires carries exactly one argument, the Int value 8. |
| JobManager.LoopEquipsOnDrift | JobAutoSwitcher/JobManager.cs:118-123 | Every equip in the loop comes from a visible attempt where the player was on another job, and it equips the gearset chosen at that attempt. Conversely, the gearset chosen at every such attempt appears among the loop's equips. |
| JobManager.EquipEffectsCount | JobAutoSwitcher/JobManager.cs:82-92 | Equipping the best gearset equips exactly once when a gearset was chosen and never otherwise. |
| JobManager.AttemptEquipCount | JobAutoSwitcher/JobManager.cs:118-133 | An attempt that runs equips exactly once when the player is present on another job and a gearset exists for the target, and never otherwise. |
| JobManager.LoopEquipCount | JobAutoSwitcher/JobManager.cs:99-137 | The loop equips exactly as many times as there are attempts, up to the first hidden window, that find the player on another job with a gearset to equip: it re-equips at every such attempt, not just once. |
| JobManager.CommenceLoopBounded | JobAutoSwitcher/JobManager.cs:99-101 | The loop clicks at most 5 times and waits 1 to 5 times: first 500 ms, then 2000 ms each time. |
| JobManager.CommenceLoopStopsAtHiddenWindow | JobAutoSwitcher/JobManager.cs:112-116 | If attempt k is the first to find the window missing or hidden, the loop clicks k times, waits k + 1 times and runs no later attempt. |
| JobManager.CommenceLoopExhausts | JobAutoSwitcher/JobManager.cs:99-138 | A window that stays visible gets exactly 5 clicks and 5 waits. |
| JobManager.CommenceAttempt | JobAutoSwitcher/JobManager.cs:105-135 | The loop continues exactly when the window is visible. Then the attempt re-equips only if the player is present and on another job, and ends with a focus and the Commence click. A missing or hidden window causes no effect. |
| JobManager.StartCommenceLoop | JobAutoSwitcher/JobManager.cs:95-140 | The loop's trace equals the specification of the loop. It clicks once per attempt before the first hidden window, at most 5 times, each time with argument [8]. |
| JobManager.SwitchAndCommence | JobAutoSwitcher/JobManager.cs:52-57 | Nothing happens when no gearset was equipped. Otherwise the trace starts with the announcement and the equip, followed by the retry loop. |
| JobManager.OnCommenceWindow | JobAutoSwitcher/JobManager.cs:36-50 | Nothing happens in three cases: a window with fewer than 25 values, an icon outside 62100..63000, or no local player or a player already on the decoded job. Otherwise the trace is the switch-and-commence trace for the decoded job. |
| JobManager.CommenceWindowClicksBounded | JobAutoSwitcher/JobManager.cs:36-57 | One click on the window leads to at most 5 Commence clicks, each with argument [8]. |
| JobManager.LoopEquipsNothingWithoutDrift | JobAutoSwitcher/JobManager.cs:118-123 | If no attempt the loop runs from the given one on finds the player on another job, the loop equips nothing. |
| JobManager.CommenceWindowEquipsOnce | JobAutoSwitcher/JobManager.cs:52-93 | If no attempt the loop runs finds the player on another job, the trace holds exactly one equip when a gearset was chosen for the target job and none otherwise, and that equip is the chosen gearset. |
| JobManager.HighestItemLevelScenario | JobAutoSwitcher/JobManager.cs:36-93 | Icon 62105 with the player on job 3 and two job-5 gearsets of item levels 450 (id 2) and 520 (id 7) leads to: announce job 5, equip gearset 7, then the loop. |
| Commands.TrimStart | JobAutoSwitcher/Commands/CommandHandler.cs:29 | The result is a suffix of the input that does not start with white space, and everything removed was white space. |
| Commands.TrimEnd | JobAutoSwitcher/Commands/CommandHandler.cs:29 | The result is a prefix of the input that does not end with white space, and everything removed was white space. |
| Commands.TrimPadding | JobAutoSwitcher/Commands/CommandHandler.cs:29 | Trimming ignores any white space added before and after the argument. |
| Commands.LowerTrimStart | JobAutoSwitcher/Commands/CommandHandler.cs:29 | Lower-casing commutes with trimming the front. |
| Commands.LowerTrimEnd | JobAutoSwitcher/Commands/CommandHandler.cs:29 | Lower-casing commutes with trimming the end. |
| Commands.ParseIgnoresCase | JobAutoSwitcher/Commands/CommandHandler.cs:29-46 | Two arguments with the same lower case select the same branch. |
| Commands.ParseIgnoresPadding | JobAutoSwitcher/Commands/CommandHandler.cs:29-46 | Adding white space around an argument does not change the branch it selects. |
| Commands.PaddedUpperCaseOn | JobAutoSwitcher/Commands/CommandHandler.cs:29-33 | "  ON " selects the "on" branch. |
| Commands.DispatchOutcome | JobAutoSwitcher/Commands/CommandHandler.cs:29-46 | "on" sets Enabled and "off" clears it, whatever its value. "config" and "settings" leave it unchanged and only toggle the configuration window. Any other argument negates it. |
| Commands.FlipTwiceRestores | JobAutoSwitcher/Commands/CommandHandler.cs:44-46 | Two commands that both hit the default branch restore Enabled. |
| Commands.EffectsAnnounceNewValue | JobAutoSwitcher/Commands/CommandHandler.cs:50-55 | Every command that changes Enabled saves once and then prints "[JobAutoSwitcher] Enabled." or "[JobAutoSwitcher] Disabled.", matching the new value. |
| Commands.CommandHandler.OnCommand | JobAutoSwitcher/Commands/CommandHandler.cs:27-48 | Enabled becomes its next value under the branch the normalized argument selects, and the command's effects are appended to those already recorded. |
| Commands.CommandHandler.SetEnabled | JobAutoSwitcher/Commands/CommandHandler.cs:50-55 | Enabled is set to the given value, and a save and the matching chat line are appended. |
| Commands.CommandHandler.constructor | JobAutoSwitcher/Commands/CommandHandler.cs:16-19 | The handler refers to the given configuration and has recorded no effect. |
| Config.Configuration.constructor | JobAutoSwitcher/Configuration.cs:11 | A fresh configuration is enabled. |
| Plugin.OnAddonEvent | JobAutoSwitcher/Plugin.cs:44-53 | Nothing happens for an event that is not a receive-event, for an event type other than 25, or for a null window. For a click on a live window, the trace is the job manager's trace for that window. |

## Left out

- Threads and timing: the retry loop runs on a background task and each attempt on the framework thread. The model runs them in sequence, records each wait as a `Delay` action, and gives each attempt one `Observation` taken when it runs.
- Cancellation or disposal while the loop runs: the source has none, and nothing outside the loop stops it.
- Overlapping clicks: each button click on the window starts its own retry loop. A second click that arrives while the player is still on the old job runs a second loop beside the first, since the source has no cancel-and-replace. The model treats each click on its own, so the bound of 5 Commence clicks in `CommenceWindowClicksBounded` holds per click, not across clicks.
- The job name in the "Switching to ..." line comes from a game data sheet. The model records only `AnnounceSwitch(job)`.
- Logging (`PluginLog.Info`) changes nothing the model observes, so it is left out.
- Unsafe memory access: pointers are modelled as `Option`s and the window's values as a sequence. The `AtkValue` type tags are not checked, matching the source, which reads `.UInt` without checking.
- Plugin construction, listener registration and `Dispose` are wiring only. So are the names the source hands to the framework, the window name "ContentsFinderConfirm" and the command name "/jas": the model receives the events they select and never uses the names.
- Exceptions: the player's job is read through `ClassJob.Value`, which can throw. In the event handler (JobAutoSwitcher/JobManager.cs:46) that would abandon the click before any switch. Inside the retry task (JobAutoSwitcher/JobManager.cs:119) the background task would end silently and run no further attempt. The model has no throwing path: the player's job is an input that is either absent or a job id, and every attempt completes.
- `PluginUI` (ImGui drawing) is not part of this model. Its `Toggle` appears only as the `ToggleConfigUi` effect.
- The configuration fields `RetryCount`, `RetryDelayFirst`, `RetryDelayLoop` and `GearsetPreferences` are not read by the code. The job manager uses its own constants, so the model does the same.
- `Configuration.Save` does its own I/O. The model records it as the `Save` effect.
- `Commands.ToLowerChar`: does not cover all of .NET's invariant-culture lower-casing. It maps only A-Z and the Latin-1 capitals (U+00C0-U+00DE except U+00D7) to lower case and leaves every other character as is. The only character outside Latin-1 that .NET's invariant lower-casing turns into an ASCII letter is U+212A (Kelvin sign), which becomes 'k'. No keyword contains 'k', so the model selects the same branch as the source for every argument.
- `Commands.CommandHandler.OnCommand`: the `command` parameter is unused, as in the source.
