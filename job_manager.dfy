/**
 * The job-switching engine that runs when the duty-confirmation window
 * ("ContentsFinderConfirm") receives a button click: it decodes the job the
 * duty asks for from the window's values, equips the best gearset for that
 * job and then clicks "Commence" a bounded number of times.
 *
 * The game is abstracted away. The window's value array, the local player's
 * job and the gearset module are inputs; what the retry loop reads from the
 * game at each attempt is one Observation; and every effect on the game is an
 * Action appended to a trace, in the order the source performs it.
 */
module JobManager {
  import opened Wrappers

  // The C# integer widths the source works with.
  type uint32 = x: int | 0 <= x < 0x1_0000_0000
  type byte = x: int | 0 <= x < 0x100
  type int16 = x: int | -0x8000 <= x < 0x8000

  const AtkValuesMinCount: nat := 25
  const JobIconIndex: nat := 24

  const IconBaseOffset: uint32 := 62100
  const MinJobIconId: uint32 := 62100
  const MaxJobIconId: uint32 := 63000

  const MaxGearsetSlots: nat := 100

  const CommenceButtonId: int := 8
  const RetryCount: nat := 5
  const RetryDelayFirst: nat := 500
  const RetryDelayLoop: nat := 2000
  const CallbackArgCount: nat := 1

  /** The value the gearset scan starts its running best item level from. */
  const NoItemLevel: int := -1

  /** One gearset entry of the game's gearset module. */
  datatype Gearset = Gearset(id: byte, flagExists: bool, classJob: byte, itemLevel: int16)

  /**
   * The gearset module: None when the module instance is null, otherwise its
   * slot table, where slot i is what GetGearset(i) returns (None for a null
   * entry). A slot past the end of the table reads as null.
   */
  type GearsetModule = Option<seq<Option<Gearset>>>

  /** A callback argument; the engine only ever sends Int values. */
  datatype AtkValue = IntValue(i: int)

  /** The confirmation window as the retry loop finds it. */
  datatype Window = Missing | Hidden | Visible

  /** What one attempt of the retry loop reads from the game. */
  datatype Observation = Observation(window: Window, playerJob: Option<uint32>, gearsets: GearsetModule)

  datatype Action =
    | AnnounceSwitch(job: uint32)      // the "Switching to <job name>..." chat line
    | Equip(gearsetId: byte)
    | Delay(ms: nat)
    | Focus
    | FireCallback(values: seq<AtkValue>)

  // ---------------------------------------------------------------------------
  // Decoding the target job
  // ---------------------------------------------------------------------------

  /**
   * The job encoded in the window's job-icon value, or None when the window
   * has too few values or the icon is not a job icon. The subtraction cannot
   * underflow: the icon is at least the base offset.
   */
  function DecodeJob(values: seq<uint32>): (job: Option<uint32>)
    ensures job.Some? <==>
      |values| >= AtkValuesMinCount && MinJobIconId <= values[JobIconIndex] <= MaxJobIconId
    ensures job.Some? ==> job.value + IconBaseOffset == values[JobIconIndex]
    ensures job.Some? ==> job.value <= MaxJobIconId - MinJobIconId
  {
    if |values| < AtkValuesMinCount then None
    else
      var targetIconId := values[JobIconIndex];
      if targetIconId < MinJobIconId || targetIconId > MaxJobIconId then None
      else Some(targetIconId - IconBaseOffset)
  }

  /** Every job in range is decoded back from the icon that stands for it. */
  lemma DecodeJobInverse(values: seq<uint32>, job: uint32)
    requires |values| >= AtkValuesMinCount
    requires job <= MaxJobIconId - MinJobIconId
    requires values[JobIconIndex] == job + IconBaseOffset
    ensures DecodeJob(values) == Some(job)
  {
  }

  /** The job to switch to: the decoded job, when a local player exists and is on another job. */
  function SwitchTarget(values: seq<uint32>, playerJob: Option<uint32>): Option<uint32>
  {
    match DecodeJob(values)
    case None => None
    case Some(job) => if playerJob.None? || playerJob.value == job then None else Some(job)
  }

  // ---------------------------------------------------------------------------
  // Choosing the gearset
  // ---------------------------------------------------------------------------

  function SlotAt(slots: seq<Option<Gearset>>, i: nat): Option<Gearset>
  {
    if i < |slots| then slots[i] else None
  }

  /** A slot the scan considers: non-null, flagged as existing, and for the target job. */
  predicate Qualifies(g: Option<Gearset>, target: uint32)
  {
    g.Some? && g.value.flagExists && g.value.classJob == target
  }

  /** The scan's running state: the best item level so far and the id of the gearset holding it. */
  datatype ScanState = ScanState(bestItemLevel: int, bestGearsetId: Option<byte>)

  /** The running state of the scan once it has looked at slots 0 .. n-1. */
  function ScanSlots(slots: seq<Option<Gearset>>, target: uint32, n: nat): ScanState
  {
    if n == 0 then ScanState(NoItemLevel, None)
    else
      var s := ScanSlots(slots, target, n - 1);
      var g := SlotAt(slots, n - 1);
      if Qualifies(g, target) && g.value.itemLevel > s.bestItemLevel
      then ScanState(g.value.itemLevel, Some(g.value.id))
      else s
  }

  /** The id of the gearset the scan of all slots settles on. */
  function BestGearsetId(slots: seq<Option<Gearset>>, target: uint32): Option<byte>
  {
    ScanSlots(slots, target, MaxGearsetSlots).bestGearsetId
  }

  /**
   * Slot k is the winner among slots 0 .. n-1: it qualifies, its item level
   * beats the scan's starting value, no qualifying slot has a higher item
   * level, and every qualifying slot before it has a strictly lower one.
   */
  ghost predicate IsBestSlot(slots: seq<Option<Gearset>>, target: uint32, n: nat, k: nat)
  {
    && k < n
    && Qualifies(SlotAt(slots, k), target)
    && SlotAt(slots, k).value.itemLevel > NoItemLevel
    && (forall j :: 0 <= j < n && Qualifies(SlotAt(slots, j), target) ==>
          SlotAt(slots, j).value.itemLevel <= SlotAt(slots, k).value.itemLevel)
    && (forall j :: 0 <= j < k && Qualifies(SlotAt(slots, j), target) ==>
          SlotAt(slots, j).value.itemLevel < SlotAt(slots, k).value.itemLevel)
  }

  /** There is at most one winner, so the scan's choice is fully determined. */
  lemma BestSlotUnique(slots: seq<Option<Gearset>>, target: uint32, n: nat, k1: nat, k2: nat)
    requires IsBestSlot(slots, target, n, k1) && IsBestSlot(slots, target, n, k2)
    ensures k1 == k2
  {
  }

  /**
   * What the scan's running state means: no id means no qualifying slot so far
   * has a non-negative item level; an id is that of the winning slot, whose
   * item level is the running best.
   */
  lemma {:induction false} ScanSlotsMeaning(slots: seq<Option<Gearset>>, target: uint32, n: nat)
    ensures var s := ScanSlots(slots, target, n);
      && (s.bestGearsetId.None? ==>
            && s.bestItemLevel == NoItemLevel
            && forall j :: 0 <= j < n && Qualifies(SlotAt(slots, j), target) ==>
                 SlotAt(slots, j).value.itemLevel < 0)
      && (s.bestGearsetId.Some? ==>
            exists k :: IsBestSlot(slots, target, n, k)
              && SlotAt(slots, k).value.id == s.bestGearsetId.value
              && SlotAt(slots, k).value.itemLevel == s.bestItemLevel)
  {
    if n > 0 {
      ScanSlotsMeaning(slots, target, n - 1);
      var s := ScanSlots(slots, target, n - 1);
      var g := SlotAt(slots, n - 1);
      if Qualifies(g, target) && g.value.itemLevel > s.bestItemLevel {
        if s.bestGearsetId.Some? {
          var k :| IsBestSlot(slots, target, n - 1, k)
            && SlotAt(slots, k).value.itemLevel == s.bestItemLevel;
        }
        assert IsBestSlot(slots, target, n, n - 1);
      } else if s.bestGearsetId.Some? {
        var k :| IsBestSlot(slots, target, n - 1, k)
          && SlotAt(slots, k).value.id == s.bestGearsetId.value
          && SlotAt(slots, k).value.itemLevel == s.bestItemLevel;
        assert IsBestSlot(slots, target, n, k);
      }
    }
  }

  /** The gearset id equipped for the target job, or None when nothing is equipped. */
  function EquippedId(target: uint32, rapture: GearsetModule): Option<byte>
  {
    if rapture.None? then None else BestGearsetId(rapture.value, target)
  }

  /** The effects of equipping the best gearset: the chat line, then the equip. */
  function EquipEffects(target: uint32, rapture: GearsetModule): seq<Action>
  {
    match EquippedId(target, rapture)
    case None => []
    case Some(id) => [AnnounceSwitch(target), Equip(id)]
  }

  /**
   * Scans slots 0 .. MaxGearsetSlots-1, keeping the qualifying gearset with the
   * strictly highest item level, and equips it if there is one.
   */
  method EquipBestGearset(target: uint32, rapture: GearsetModule) returns (equipped: bool, effects: seq<Action>)
    ensures effects == EquipEffects(target, rapture)
    ensures equipped <==> rapture.Some? && exists j ::
      && 0 <= j < MaxGearsetSlots
      && Qualifies(SlotAt(rapture.value, j), target)
      && SlotAt(rapture.value, j).value.itemLevel >= 0
    ensures equipped ==> exists k ::
      && IsBestSlot(rapture.value, target, MaxGearsetSlots, k)
      && effects == [AnnounceSwitch(target), Equip(SlotAt(rapture.value, k).value.id)]
    ensures !equipped ==> effects == []
  {
    if rapture.None? {
      return false, [];
    }
    var slots := rapture.value;
    var bestItemLevel: int16 := -1;
    var bestGearsetId: Option<byte> := None;
    for i := 0 to MaxGearsetSlots
      invariant ScanState(bestItemLevel, bestGearsetId) == ScanSlots(slots, target, i)
    {
      var gearset := SlotAt(slots, i);
      if gearset.Some? && gearset.value.flagExists && gearset.value.classJob == target {
        if gearset.value.itemLevel > bestItemLevel {
          bestItemLevel := gearset.value.itemLevel;
          bestGearsetId := Some(gearset.value.id);
        }
      }
    }
    ScanSlotsMeaning(slots, target, MaxGearsetSlots);
    if bestGearsetId.Some? {
      effects := [AnnounceSwitch(target), Equip(bestGearsetId.value)];
      equipped := true;
    } else {
      effects := [];
      equipped := false;
    }
  }

  // ---------------------------------------------------------------------------
  // The retry loop
  // ---------------------------------------------------------------------------

  /** The wait before an attempt. */
  function DelayBefore(attempt: nat): nat
  {
    if attempt == 0 then RetryDelayFirst else RetryDelayLoop
  }

  /** The player is present and on a job other than the target. */
  predicate Drifted(o: Observation, target: uint32)
  {
    o.playerJob.Some? && o.playerJob.value != target
  }

  /** One attempt that finds the window visible: re-equip if drifted, then focus and click. */
  function AttemptEffects(target: uint32, o: Observation): seq<Action>
  {
    (if Drifted(o, target) then EquipEffects(target, o.gearsets) else [])
      + [Focus, FireCallback([IntValue(CommenceButtonId)])]
  }

  /** The trace of the loop from the given attempt on, with one observation per attempt. */
  function CommenceLoop(target: uint32, obs: seq<Observation>, attempt: nat): seq<Action>
    requires |obs| >= RetryCount
    decreases RetryCount - attempt
  {
    if attempt >= RetryCount then []
    else if obs[attempt].window != Visible then [Delay(DelayBefore(attempt))]
    else
      [Delay(DelayBefore(attempt))] + AttemptEffects(target, obs[attempt]) + CommenceLoop(target, obs, attempt + 1)
  }

  lemma AppendAssoc(a: seq<Action>, b: seq<Action>, c: seq<Action>)
    ensures (a + b) + c == a + (b + c)
  {
  }

  lemma CommenceLoopStep(target: uint32, obs: seq<Observation>, attempt: nat)
    requires |obs| >= RetryCount && attempt < RetryCount
    ensures CommenceLoop(target, obs, attempt) == [Delay(DelayBefore(attempt))] +
      if obs[attempt].window == Visible
      then AttemptEffects(target, obs[attempt]) + CommenceLoop(target, obs, attempt + 1)
      else []
  {
  }

  /** The first attempt, from the given one on, that finds the window missing or hidden (RetryCount if none does). */
  function FirstHiddenFrom(obs: seq<Observation>, attempt: nat): (k: nat)
    requires |obs| >= RetryCount && attempt <= RetryCount
    ensures attempt <= k <= RetryCount
    ensures forall j :: attempt <= j < k ==> obs[j].window == Visible
    ensures k < RetryCount ==> obs[k].window != Visible
    decreases RetryCount - attempt
  {
    if attempt == RetryCount then RetryCount
    else if obs[attempt].window != Visible then attempt
    else FirstHiddenFrom(obs, attempt + 1)
  }

  predicate IsCallback(a: Action)
  {
    a.FireCallback?
  }

  predicate IsEquip(a: Action)
  {
    a.Equip?
  }

  /** The number of actions of a trace that satisfy p. */
  function CountOf(t: seq<Action>, p: Action -> bool): nat
  {
    if t == [] then 0 else (if p(t[0]) then 1 else 0) + CountOf(t[1..], p)
  }

  lemma {:induction false} CountOfAppend(a: seq<Action>, b: seq<Action>, p: Action -> bool)
    ensures CountOf(a + b, p) == CountOf(a, p) + CountOf(b, p)
  {
    if a == [] {
      assert a + b == b;
    } else {
      assert (a + b)[1..] == a[1..] + b;
      CountOfAppend(a[1..], b, p);
    }
  }

  /** The waits of a trace, in order. */
  function Delays(t: seq<Action>): seq<nat>
  {
    if t == [] then [] else (if t[0].Delay? then [t[0].ms] else []) + Delays(t[1..])
  }

  lemma {:induction false} DelaysAppend(a: seq<Action>, b: seq<Action>)
    ensures Delays(a + b) == Delays(a) + Delays(b)
  {
    if a == [] {
      assert a + b == b;
    } else {
      assert (a + b)[1..] == a[1..] + b;
      DelaysAppend(a[1..], b);
    }
  }

  /** Equipping neither clicks nor waits. */
  lemma EquipEffectsQuiet(target: uint32, rapture: GearsetModule)
    ensures CountOf(EquipEffects(target, rapture), IsCallback) == 0
    ensures Delays(EquipEffects(target, rapture)) == []
  {
    match EquippedId(target, rapture)
    case None =>
    case Some(id) =>
      var e := [AnnounceSwitch(target), Equip(id)];
      assert EquipEffects(target, rapture) == e;
      assert e[1..] == [Equip(id)] && e[1..][1..] == [];
      assert CountOf(e[1..], IsCallback) == 0 && Delays(e[1..]) == [];
  }

  /** The part of an attempt after its wait clicks exactly once and waits no more. */
  lemma AttemptEffectsCounts(target: uint32, o: Observation)
    ensures CountOf(AttemptEffects(target, o), IsCallback) == 1
    ensures Delays(AttemptEffects(target, o)) == []
  {
    var e := if Drifted(o, target) then EquipEffects(target, o.gearsets) else [];
    var click := [Focus, FireCallback([IntValue(CommenceButtonId)])];
    assert click[1..] == [FireCallback([IntValue(CommenceButtonId)])];
    assert click[1..][1..] == [];
    assert CountOf(click[1..], IsCallback) == 1 && Delays(click[1..]) == [];
    assert CountOf(click, IsCallback) == 1 && Delays(click) == [];
    assert CountOf(e, IsCallback) == 0 && Delays(e) == [] by {
      EquipEffectsQuiet(target, o.gearsets);
    }
    CountOfAppend(e, click, IsCallback);
    DelaysAppend(e, click);
  }

  /** The loop clicks once per attempt that finds the window visible, up to the first that does not. */
  lemma {:induction false} LoopCallbackCount(target: uint32, obs: seq<Observation>, attempt: nat)
    requires |obs| >= RetryCount && attempt <= RetryCount
    ensures CountOf(CommenceLoop(target, obs, attempt), IsCallback) == FirstHiddenFrom(obs, attempt) - attempt
    decreases RetryCount - attempt
  {
    if attempt < RetryCount {
      var d := [Delay(DelayBefore(attempt))];
      assert CountOf(d, IsCallback) == 0 by { assert d[1..] == []; }
      if obs[attempt].window == Visible {
        var e := AttemptEffects(target, obs[attempt]);
        var rest := CommenceLoop(target, obs, attempt + 1);
        LoopCallbackCount(target, obs, attempt + 1);
        AttemptEffectsCounts(target, obs[attempt]);
        CountOfAppend(d, e, IsCallback);
        CountOfAppend(d + e, rest, IsCallback);
      }
    }
  }

  /** The loop waits once per attempt it makes, DelayBefore(n) before attempt n. */
  lemma {:induction false} LoopDelaySchedule(target: uint32, obs: seq<Observation>, attempt: nat)
    requires |obs| >= RetryCount && attempt <= RetryCount
    ensures var d := Delays(CommenceLoop(target, obs, attempt));
      var k := FirstHiddenFrom(obs, attempt);
      && |d| == (if k < RetryCount then k + 1 else RetryCount) - attempt
      && forall n :: 0 <= n < |d| ==> d[n] == DelayBefore(attempt + n)
    decreases RetryCount - attempt
  {
    if attempt < RetryCount {
      var d := [Delay(DelayBefore(attempt))];
      assert Delays(d) == [DelayBefore(attempt)] by { assert d[1..] == []; }
      if obs[attempt].window == Visible {
        var e := AttemptEffects(target, obs[attempt]);
        var rest := CommenceLoop(target, obs, attempt + 1);
        LoopDelaySchedule(target, obs, attempt + 1);
        AttemptEffectsCounts(target, obs[attempt]);
        DelaysAppend(d, e);
        DelaysAppend(d + e, rest);
        assert Delays(CommenceLoop(target, obs, attempt)) == [DelayBefore(attempt)] + Delays(rest);
      }
    }
  }

  /** Every click of the loop sends exactly one Int argument, the Commence button id. */
  lemma {:induction false} LoopClicksCommence(target: uint32, obs: seq<Observation>, attempt: nat)
    requires |obs| >= RetryCount
    ensures forall a :: a in CommenceLoop(target, obs, attempt) && a.FireCallback? ==>
      |a.values| == CallbackArgCount && a.values == [IntValue(CommenceButtonId)]
    decreases RetryCount - attempt
  {
    if attempt < RetryCount && obs[attempt].window == Visible {
      LoopClicksCommence(target, obs, attempt + 1);
    }
  }

  /**
   * Every equip of the loop comes from an attempt that finds the window visible
   * and the player on another job, and is the gearset chosen at that attempt;
   * the gearset chosen at each such attempt appears among the loop's equips.
   * LoopEquipCount gives the number of equips, one per such attempt.
   */
  lemma {:induction false} LoopEquipsOnDrift(target: uint32, obs: seq<Observation>, attempt: nat)
    requires |obs| >= RetryCount && attempt <= RetryCount
    ensures forall a :: a in CommenceLoop(target, obs, attempt) && a.Equip? ==> exists j ::
      && attempt <= j < FirstHiddenFrom(obs, attempt)
      && Drifted(obs[j], target)
      && EquippedId(target, obs[j].gearsets) == Some(a.gearsetId)
    ensures forall j ::
      (&& attempt <= j < FirstHiddenFrom(obs, attempt)
       && Drifted(obs[j], target)
       && EquippedId(target, obs[j].gearsets).Some?) ==>
      Equip(EquippedId(target, obs[j].gearsets).value) in CommenceLoop(target, obs, attempt)
    decreases RetryCount - attempt
  {
    if attempt < RetryCount && obs[attempt].window == Visible {
      LoopEquipsOnDrift(target, obs, attempt + 1);
      var o := obs[attempt];
      var t := CommenceLoop(target, obs, attempt);
      var rest := CommenceLoop(target, obs, attempt + 1);
      assert t == [Delay(DelayBefore(attempt))] + AttemptEffects(target, o) + rest;
      forall a | a in t && a.Equip?
        ensures exists j ::
          && attempt <= j < FirstHiddenFrom(obs, attempt)
          && Drifted(obs[j], target)
          && EquippedId(target, obs[j].gearsets) == Some(a.gearsetId)
      {
        if a in AttemptEffects(target, o) {
          assert Drifted(obs[attempt], target) && EquippedId(target, obs[attempt].gearsets) == Some(a.gearsetId);
        } else {
          assert a in rest;
        }
      }
      forall j | attempt <= j < FirstHiddenFrom(obs, attempt) && Drifted(obs[j], target)
          && EquippedId(target, obs[j].gearsets).Some?
        ensures Equip(EquippedId(target, obs[j].gearsets).value) in t
      {
        if j == attempt {
          assert Equip(EquippedId(target, o.gearsets).value) in AttemptEffects(target, o);
        }
      }
    }
  }

  /**
   * Attempt 0 waits RetryDelayFirst and every later attempt RetryDelayLoop;
   * there are at most RetryCount attempts and so at most RetryCount clicks.
   */
  lemma CommenceLoopBounded(target: uint32, obs: seq<Observation>)
    requires |obs| >= RetryCount
    ensures var t := CommenceLoop(target, obs, 0);
      && CountOf(t, IsCallback) <= RetryCount
      && 1 <= |Delays(t)| <= RetryCount
      && Delays(t)[0] == RetryDelayFirst
      && forall n :: 1 <= n < |Delays(t)| ==> Delays(t)[n] == RetryDelayLoop
  {
    LoopCallbackCount(target, obs, 0);
    LoopDelaySchedule(target, obs, 0);
  }

  /**
   * When attempt k is the first to find the window missing or hidden, the loop
   * makes k clicks and k + 1 waits: attempt k clicks nothing and no later
   * attempt runs.
   */
  lemma CommenceLoopStopsAtHiddenWindow(target: uint32, obs: seq<Observation>, k: nat)
    requires |obs| >= RetryCount && k < RetryCount
    requires obs[k].window != Visible
    requires forall j :: 0 <= j < k ==> obs[j].window == Visible
    ensures CountOf(CommenceLoop(target, obs, 0), IsCallback) == k
    ensures |Delays(CommenceLoop(target, obs, 0))| == k + 1
  {
    assert FirstHiddenFrom(obs, 0) == k;
    LoopCallbackCount(target, obs, 0);
    LoopDelaySchedule(target, obs, 0);
  }

  /** A window that stays visible gets exactly RetryCount clicks, after which the loop ends. */
  lemma CommenceLoopExhausts(target: uint32, obs: seq<Observation>)
    requires |obs| >= RetryCount
    requires forall j :: 0 <= j < RetryCount ==> obs[j].window == Visible
    ensures CountOf(CommenceLoop(target, obs, 0), IsCallback) == RetryCount
    ensures |Delays(CommenceLoop(target, obs, 0))| == RetryCount
  {
    assert FirstHiddenFrom(obs, 0) == RetryCount;
    LoopCallbackCount(target, obs, 0);
    LoopDelaySchedule(target, obs, 0);
  }

  /**
   * The part of one attempt that runs on the framework thread: stop if the
   * window is missing or hidden; otherwise re-equip if the player has drifted
   * to another job, then focus the window and click Commence.
   */
  method CommenceAttempt(target: uint32, o: Observation) returns (keepRetrying: bool, effects: seq<Action>)
    ensures keepRetrying <==> o.window == Visible
    ensures effects == if keepRetrying then AttemptEffects(target, o) else []
    ensures keepRetrying ==> effects[|effects| - 1] == FireCallback([IntValue(CommenceButtonId)])
    ensures keepRetrying && Drifted(o, target) ==> effects[..|effects| - 2] == EquipEffects(target, o.gearsets)
    ensures keepRetrying && !Drifted(o, target) ==> effects == [Focus, FireCallback([IntValue(CommenceButtonId)])]
  {
    if o.window == Missing || o.window == Hidden {
      return false, [];
    }
    effects := [];
    if o.playerJob.Some? && o.playerJob.value != target {
      var reequipped;
      reequipped, effects := EquipBestGearset(target, o.gearsets);
    }
    ghost var reequip := effects;
    effects := effects + [Focus, FireCallback([IntValue(CommenceButtonId)])];
    assert effects[..|effects| - 2] == reequip;
    keepRetrying := true;
  }

  /**
   * Makes at most RetryCount attempts, waiting RetryDelayFirst before the
   * first and RetryDelayLoop before each later one, and stops after the first
   * attempt that finds the window missing or hidden. Re-equipping does not
   * reset the attempt counter.
   */
  method StartCommenceLoop(target: uint32, obs: seq<Observation>) returns (trace: seq<Action>)
    requires |obs| >= RetryCount
    ensures trace == CommenceLoop(target, obs, 0)
    ensures CountOf(trace, IsCallback) == FirstHiddenFrom(obs, 0) <= RetryCount
    ensures forall a :: a in trace && a.FireCallback? ==> a.values == [IntValue(CommenceButtonId)]
  {
    trace := [];
    for i := 0 to RetryCount
      invariant trace + CommenceLoop(target, obs, i) == CommenceLoop(target, obs, 0)
    {
      ghost var before := trace;
      trace := trace + [Delay(if i == 0 then RetryDelayFirst else RetryDelayLoop)];
      var keepRetrying, effects := CommenceAttempt(target, obs[i]);
      trace := trace + effects;
      CommenceLoopStep(target, obs, i);
      ghost var wait := [Delay(DelayBefore(i))];
      AppendAssoc(before, wait, effects);
      if !keepRetrying {
        assert effects == [] && CommenceLoop(target, obs, i) == wait + effects;
        break;
      }
      ghost var rest := CommenceLoop(target, obs, i + 1);
      AppendAssoc(wait, effects, rest);
      AppendAssoc(before, wait + effects, rest);
    }
    LoopCallbackCount(target, obs, 0);
    LoopClicksCommence(target, obs, 0);
  }

  // ---------------------------------------------------------------------------
  // Switching and commencing
  // ---------------------------------------------------------------------------

  /** Equip the best gearset and, only if one was equipped, run the retry loop. */
  function SwitchAndCommenceEffects(target: uint32, rapture: GearsetModule, obs: seq<Observation>): seq<Action>
    requires |obs| >= RetryCount
  {
    EquipEffects(target, rapture) + (if EquippedId(target, rapture).Some? then CommenceLoop(target, obs, 0) else [])
  }

  /** The whole trace of one click on the confirmation window. */
  function CommenceWindowEffects(values: seq<uint32>, playerJob: Option<uint32>, rapture: GearsetModule,
                                 obs: seq<Observation>): seq<Action>
    requires |obs| >= RetryCount
  {
    match SwitchTarget(values, playerJob)
    case None => []
    case Some(target) => SwitchAndCommenceEffects(target, rapture, obs)
  }

  method SwitchAndCommence(target: uint32, rapture: GearsetModule, obs: seq<Observation>) returns (trace: seq<Action>)
    requires |obs| >= RetryCount
    ensures trace == SwitchAndCommenceEffects(target, rapture, obs)
    ensures EquippedId(target, rapture).None? ==> trace == []
    ensures EquippedId(target, rapture).Some? ==>
      trace[..2] == [AnnounceSwitch(target), Equip(EquippedId(target, rapture).value)]
  {
    var equipped, effects := EquipBestGearset(target, rapture);
    trace := effects;
    if !equipped {
      return;
    }
    var loop := StartCommenceLoop(target, obs);
    trace := trace + loop;
  }

  /**
   * Handles a click on the confirmation window: decodes the job, does nothing
   * when there is no local player or the player is already on that job, and
   * otherwise switches gearset and runs the retry loop.
   */
  method OnCommenceWindow(values: seq<uint32>, playerJob: Option<uint32>, rapture: GearsetModule,
                          obs: seq<Observation>) returns (trace: seq<Action>)
    requires |obs| >= RetryCount
    ensures trace == CommenceWindowEffects(values, playerJob, rapture, obs)
    ensures |values| < AtkValuesMinCount ==> trace == []
    ensures (&& |values| >= AtkValuesMinCount
             && (values[JobIconIndex] < MinJobIconId || values[JobIconIndex] > MaxJobIconId)) ==> trace == []
    ensures playerJob.None? || playerJob == DecodeJob(values) ==> trace == []
  {
    var job := DecodeJob(values);
    if job.None? {
      return [];
    }
    var calculatedJobId := job.value;
    if playerJob.None? || playerJob.value == calculatedJobId {
      return [];
    }
    trace := SwitchAndCommence(calculatedJobId, rapture, obs);
  }

  /**
   * A click that switches makes at most RetryCount Commence clicks, each with
   * the single Int argument 8, and a click that does not switch does nothing.
   */
  lemma CommenceWindowClicksBounded(values: seq<uint32>, playerJob: Option<uint32>, rapture: GearsetModule,
                                    obs: seq<Observation>)
    requires |obs| >= RetryCount
    ensures CountOf(CommenceWindowEffects(values, playerJob, rapture, obs), IsCallback) <= RetryCount
    ensures forall a :: a in CommenceWindowEffects(values, playerJob, rapture, obs) && a.FireCallback? ==>
      a.values == [IntValue(CommenceButtonId)]
  {
    var t := CommenceWindowEffects(values, playerJob, rapture, obs);
    if t != [] {
      var target := SwitchTarget(values, playerJob).value;
      var e := EquipEffects(target, rapture);
      var loop := CommenceLoop(target, obs, 0);
      assert e == [AnnounceSwitch(target), Equip(EquippedId(target, rapture).value)];
      assert t == e + loop;
      EquipEffectsQuiet(target, rapture);
      CountOfAppend(e, loop, IsCallback);
      LoopCallbackCount(target, obs, 0);
      LoopClicksCommence(target, obs, 0);
    } else {
      assert CountOf(t, IsCallback) == 0;
    }
  }

  /** Equipping the best gearset equips once when there is one and never otherwise. */
  lemma EquipEffectsCount(target: uint32, rapture: GearsetModule)
    ensures CountOf(EquipEffects(target, rapture), IsEquip) == if EquippedId(target, rapture).Some? then 1 else 0
  {
    match EquippedId(target, rapture)
    case None =>
    case Some(id) =>
      var e := [AnnounceSwitch(target), Equip(id)];
      assert EquipEffects(target, rapture) == e;
      assert e[1..] == [Equip(id)] && e[1..][1..] == [];
      assert CountOf(e[1..][1..], IsEquip) == 0;
      assert CountOf(e[1..], IsEquip) == 1;
  }

  /** An attempt that finds the window visible equips once exactly when it re-equips. */
  lemma AttemptEquipCount(target: uint32, o: Observation)
    ensures CountOf(AttemptEffects(target, o), IsEquip)
      == if Drifted(o, target) && EquippedId(target, o.gearsets).Some? then 1 else 0
  {
    var e := if Drifted(o, target) then EquipEffects(target, o.gearsets) else [];
    var click := [Focus, FireCallback([IntValue(CommenceButtonId)])];
    assert click[1..] == [FireCallback([IntValue(CommenceButtonId)])] && click[1..][1..] == [];
    assert CountOf(click[1..], IsEquip) == 0;
    assert CountOf(click, IsEquip) == 0;
    EquipEffectsCount(target, o.gearsets);
    CountOfAppend(e, click, IsEquip);
  }

  /**
   * The number of attempts, from the given one up to the first that finds the
   * window missing or hidden, at which the player is on another job and a
   * gearset for the target exists: the attempts that re-equip.
   */
  function ReequipAttempts(target: uint32, obs: seq<Observation>, attempt: nat): nat
    requires |obs| >= RetryCount
    decreases RetryCount - attempt
  {
    if attempt >= RetryCount || obs[attempt].window != Visible then 0
    else
      (if Drifted(obs[attempt], target) && EquippedId(target, obs[attempt].gearsets).Some? then 1 else 0)
        + ReequipAttempts(target, obs, attempt + 1)
  }

  /** The loop equips once per attempt that runs with the player on another job and a gearset to equip. */
  lemma {:induction false} LoopEquipCount(target: uint32, obs: seq<Observation>, attempt: nat)
    requires |obs| >= RetryCount
    ensures CountOf(CommenceLoop(target, obs, attempt), IsEquip) == ReequipAttempts(target, obs, attempt)
    decreases RetryCount - attempt
  {
    if attempt < RetryCount {
      var d := [Delay(DelayBefore(attempt))];
      assert CountOf(d, IsEquip) == 0 by { assert d[1..] == []; }
      if obs[attempt].window == Visible {
        var e := AttemptEffects(target, obs[attempt]);
        var rest := CommenceLoop(target, obs, attempt + 1);
        AttemptEquipCount(target, obs[attempt]);
        LoopEquipCount(target, obs, attempt + 1);
        CountOfAppend(d, e, IsEquip);
        CountOfAppend(d + e, rest, IsEquip);
      }
    }
  }

  /** Without drift at any attempt it runs, the loop never equips. */
  lemma {:induction false} LoopEquipsNothingWithoutDrift(target: uint32, obs: seq<Observation>, attempt: nat)
    requires |obs| >= RetryCount && attempt <= RetryCount
    requires forall j :: attempt <= j < FirstHiddenFrom(obs, attempt) ==> !Drifted(obs[j], target)
    ensures CountOf(CommenceLoop(target, obs, attempt), IsEquip) == 0
    decreases RetryCount - attempt
  {
    LoopEquipCount(target, obs, attempt);
    if attempt < RetryCount && obs[attempt].window == Visible {
      assert FirstHiddenFrom(obs, attempt) == FirstHiddenFrom(obs, attempt + 1);
      LoopEquipsNothingWithoutDrift(target, obs, attempt + 1);
      LoopEquipCount(target, obs, attempt + 1);
    }
  }

  /**
   * When no attempt the loop runs finds the player on another job, a click
   * that switches equips exactly once, the gearset chosen for the target job.
   */
  lemma CommenceWindowEquipsOnce(values: seq<uint32>, playerJob: Option<uint32>, rapture: GearsetModule,
                                 obs: seq<Observation>)
    requires |obs| >= RetryCount
    requires SwitchTarget(values, playerJob).Some?
    requires forall j :: 0 <= j < FirstHiddenFrom(obs, 0) ==> !Drifted(obs[j], SwitchTarget(values, playerJob).value)
    ensures var target := SwitchTarget(values, playerJob).value;
      forall a :: a in CommenceWindowEffects(values, playerJob, rapture, obs) && a.Equip? ==>
        Some(a.gearsetId) == EquippedId(target, rapture)
    ensures var target := SwitchTarget(values, playerJob).value;
      EquippedId(target, rapture).Some? ==>
        Equip(EquippedId(target, rapture).value) in CommenceWindowEffects(values, playerJob, rapture, obs)
    ensures var target := SwitchTarget(values, playerJob).value;
      CountOf(CommenceWindowEffects(values, playerJob, rapture, obs), IsEquip)
        == if EquippedId(target, rapture).Some? then 1 else 0
  {
    var target := SwitchTarget(values, playerJob).value;
    LoopEquipsOnDrift(target, obs, 0);
    var t := CommenceWindowEffects(values, playerJob, rapture, obs);
    if EquippedId(target, rapture).Some? {
      var e := EquipEffects(target, rapture);
      assert t == e + CommenceLoop(target, obs, 0);
      assert e == [AnnounceSwitch(target), Equip(EquippedId(target, rapture).value)];
      EquipEffectsCount(target, rapture);
      LoopEquipsNothingWithoutDrift(target, obs, 0);
      CountOfAppend(e, CommenceLoop(target, obs, 0), IsEquip);
      forall a | a in t && a.Equip? ensures Some(a.gearsetId) == EquippedId(target, rapture) {
      }
    }
  }

  /**
   * Two gearsets for job 5 with item levels 450 (id 2) and 520 (id 7): a click
   * on a window showing icon 62105, with the player on job 3, announces job 5
   * and equips gearset 7 before the retry loop starts.
   */
  lemma HighestItemLevelScenario(obs: seq<Observation>)
    requires |obs| >= RetryCount
    ensures var values := seq(25, i => if i == 24 then 62105 else 0);
      var slots := [Some(Gearset(2, true, 5, 450)), Some(Gearset(7, true, 5, 520))];
      CommenceWindowEffects(values, Some(3), Some(slots), obs)
        == [AnnounceSwitch(5), Equip(7)] + CommenceLoop(5, obs, 0)
  {
    var values: seq<uint32> := seq(25, i => if i == 24 then 62105 else 0);
    var slots := [Some(Gearset(2, true, 5, 450)), Some(Gearset(7, true, 5, 520))];
    assert DecodeJob(values) == Some(5);
    ScanSlotsMeaning(slots, 5, MaxGearsetSlots);
    var s := ScanSlots(slots, 5, MaxGearsetSlots);
    if s.bestGearsetId.None? {
      assert Qualifies(SlotAt(slots, 0), 5);
      assert false;
    }
    var k :| IsBestSlot(slots, 5, MaxGearsetSlots, k) && SlotAt(slots, k).value.id == s.bestGearsetId.value;
    if k == 0 {
      assert Qualifies(SlotAt(slots, 1), 5);
      assert false;
    }
    assert k == 1;
    assert EquippedId(5, Some(slots)) == Some(7);
  }
}
