/** CPU frequency limits by power profile and display state (power/power.cpp:32-48, 125-241).  A frequency list is the
    sequence of its already parsed words, `None` for one that is no number, and no list at all when reading fails. */
module PowerPolicy {
  import opened Wrappers

  const TOTAL_CPUS: nat := 4
  const POWERSAVE_MIN_FREQ := 800000
  const POWERSAVE_MAX_FREQ := 933000
  const BIAS_PERF_MIN_FREQ := 1333000
  const NORMAL_MAX_FREQ := 1600000
  const SCREEN_OFF_TARGET_MAX_FREQ := 933000
  const INT_MAX := 0x7fff_ffff

  const PROFILE_POWER_SAVE := 0
  const PROFILE_BALANCED := 1
  const PROFILE_HIGH_PERFORMANCE := 2
  const PROFILE_BIAS_POWER := 3
  const PROFILE_BIAS_PERFORMANCE := 4
  const PROFILE_MAX := 5

  type Tokens = seq<Option<int>>

  datatype Limits = Limits(min: int, max: int)

  // ---------------------------------------------------------------- limits while the screen is off

  predicate IsFrequency(t: Option<int>) {
    t.Some? && 0 < t.value <= INT_MAX
  }

  /** `f` is the lowest frequency listed. */
  ghost predicate IsLowest(tokens: Tokens, f: int) {
    && (exists i :: 0 <= i < |tokens| && IsFrequency(tokens[i]) && tokens[i].value == f)
    && forall i :: 0 <= i < |tokens| && IsFrequency(tokens[i]) ==> f <= tokens[i].value
  }

  /** `f` is the highest frequency listed that is not above the screen-off target. */
  ghost predicate IsCapped(tokens: Tokens, f: int) {
    && (exists i :: 0 <= i < |tokens| && IsFrequency(tokens[i]) && tokens[i].value == f)
    && f <= SCREEN_OFF_TARGET_MAX_FREQ
    && forall i :: 0 <= i < |tokens| && IsFrequency(tokens[i]) && tokens[i].value <= SCREEN_OFF_TARGET_MAX_FREQ
         ==> tokens[i].value <= f
  }

  predicate HasSlowFrequency(tokens: Tokens) {
    exists i :: 0 <= i < |tokens| && IsFrequency(tokens[i]) && tokens[i].value <= SCREEN_OFF_TARGET_MAX_FREQ
  }

  function Lowest(tokens: Tokens): int {
    if tokens == [] then INT_MAX
    else
      var t, lowest := tokens[|tokens| - 1], Lowest(tokens[..|tokens| - 1]);
      if IsFrequency(t) && t.value < lowest then t.value else lowest
  }

  function Capped(tokens: Tokens): int {
    if tokens == [] then 0
    else
      var t, capped := tokens[|tokens| - 1], Capped(tokens[..|tokens| - 1]);
      if IsFrequency(t) && t.value <= SCREEN_OFF_TARGET_MAX_FREQ && t.value > capped then t.value else capped
  }

  /** The limits, unless the list is missing or names nothing below the largest int. */
  function ScreenOffLimits(list: Option<Tokens>): Option<Limits> {
    if list.None? || Lowest(list.value) == INT_MAX then None
    else Some(Limits(Lowest(list.value), if Capped(list.value) != 0 then Capped(list.value) else Lowest(list.value)))
  }

  lemma {:induction false} LowestBounds(tokens: Tokens)
    ensures 0 < Lowest(tokens) <= INT_MAX
    ensures Lowest(tokens) < INT_MAX ==> IsLowest(tokens, Lowest(tokens))
    ensures Lowest(tokens) == INT_MAX ==>
              forall i :: 0 <= i < |tokens| && IsFrequency(tokens[i]) ==> tokens[i].value == INT_MAX
  {
    if tokens != [] {
      LowestBounds(tokens[..|tokens| - 1]);
      assert forall i :: 0 <= i < |tokens| - 1 ==> tokens[..|tokens| - 1][i] == tokens[i];
    }
  }

  lemma {:induction false} CappedBounds(tokens: Tokens)
    ensures 0 <= Capped(tokens)
    ensures Capped(tokens) == 0 <==> !HasSlowFrequency(tokens)
    ensures Capped(tokens) != 0 ==> IsCapped(tokens, Capped(tokens))
  {
    if tokens != [] {
      CappedBounds(tokens[..|tokens| - 1]);
      assert forall i :: 0 <= i < |tokens| - 1 ==> tokens[..|tokens| - 1][i] == tokens[i];
    }
  }

  /** With a frequency low enough, the limits are the lowest frequency and the highest one within the target;
      otherwise both are the lowest frequency. */
  lemma ScreenOffLimitsAre(tokens: Tokens)
    ensures HasSlowFrequency(tokens) ==>
              && ScreenOffLimits(Some(tokens)).Some?
              && IsLowest(tokens, ScreenOffLimits(Some(tokens)).value.min)
              && IsCapped(tokens, ScreenOffLimits(Some(tokens)).value.max)
    ensures !HasSlowFrequency(tokens) && ScreenOffLimits(Some(tokens)).Some? ==>
              var l := ScreenOffLimits(Some(tokens)).value;
              IsLowest(tokens, l.min) && l.max == l.min > SCREEN_OFF_TARGET_MAX_FREQ
  {
    LowestBounds(tokens);
    CappedBounds(tokens);
  }

  method GetScreenOffLimits(list: Option<Tokens>) returns (r: Option<Limits>)
    ensures r == ScreenOffLimits(list)
  {
    if list.None? {
      return None;
    }
    var tokens := list.value;
    var lowest, capped := INT_MAX, 0;
    for i := 0 to |tokens|
      invariant lowest == Lowest(tokens[..i]) && capped == Capped(tokens[..i])
    {
      assert tokens[..i + 1][..i] == tokens[..i];
      if !IsFrequency(tokens[i]) {
        continue;
      }
      var freq := tokens[i].value;
      if freq < lowest {
        lowest := freq;
      }
      if freq <= SCREEN_OFF_TARGET_MAX_FREQ && freq > capped {
        capped := freq;
      }
    }
    assert tokens[..|tokens|] == tokens;
    if lowest == INT_MAX {
      return None;
    }
    return Some(Limits(lowest, if capped != 0 then capped else lowest));
  }

  // ---------------------------------------------------------------- the policy

  function ProfileLimits(profile: int): Limits {
    if profile == PROFILE_HIGH_PERFORMANCE then Limits(NORMAL_MAX_FREQ, NORMAL_MAX_FREQ)
    else if profile == PROFILE_BIAS_PERFORMANCE then Limits(BIAS_PERF_MIN_FREQ, NORMAL_MAX_FREQ)
    else if profile == PROFILE_BIAS_POWER || profile == PROFILE_POWER_SAVE then
      Limits(POWERSAVE_MIN_FREQ, POWERSAVE_MAX_FREQ)
    else Limits(POWERSAVE_MIN_FREQ, NORMAL_MAX_FREQ)
  }

  /** The switch over the profiles, in kHz. */
  method GetProfileLimits(profile: int) returns (l: Limits)
    ensures l == ProfileLimits(profile)
    ensures profile == 0 || profile == 3 ==> l == Limits(800000, 933000)
    ensures profile == 2 ==> l == Limits(1600000, 1600000)
    ensures profile == 4 ==> l == Limits(1333000, 1600000)
    ensures profile !in {0, 2, 3, 4} ==> l == Limits(800000, 1600000)
  {
    l := Limits(POWERSAVE_MIN_FREQ, NORMAL_MAX_FREQ);
    if profile == PROFILE_HIGH_PERFORMANCE {
      l := Limits(NORMAL_MAX_FREQ, NORMAL_MAX_FREQ);
    } else if profile == PROFILE_BIAS_PERFORMANCE {
      l := Limits(BIAS_PERF_MIN_FREQ, NORMAL_MAX_FREQ);
    } else if profile == PROFILE_BIAS_POWER || profile == PROFILE_POWER_SAVE {
      l := l.(max := POWERSAVE_MAX_FREQ);
    }
  }

  /** The limits the policy wants. */
  function Target(interactive: bool, profile: int, list: Option<Tokens>): Limits {
    var off := ScreenOffLimits(list);
    var l := if !interactive && off.Some? then off.value else ProfileLimits(profile);
    if l.min > l.max then Limits(l.max, l.max) else l
  }

  /** With the screen on, or while no screen-off limits are known, the profile's own; with it off, from the lowest
      frequency listed to the highest one up to 933 MHz, or the lowest alone when that is above. */
  lemma TargetIs(interactive: bool, profile: int, tokens: Tokens)
    ensures Target(true, profile, Some(tokens)) == Target(interactive, profile, None) == ProfileLimits(profile)
    ensures (exists f :: IsLowest(tokens, f) && f < 0x7fff_ffff) ==>
              var l := Target(false, profile, Some(tokens));
              && IsLowest(tokens, l.min)
              && if HasSlowFrequency(tokens)
                 then IsCapped(tokens, l.max) && l.max <= 933000
                      && forall i :: 0 <= i < |tokens| && IsFrequency(tokens[i]) && tokens[i].value <= 933000 ==>
                           tokens[i].value <= l.max
                 else l.max == l.min > 933000
    ensures (forall i :: 0 <= i < |tokens| && IsFrequency(tokens[i]) ==> tokens[i].value == 0x7fff_ffff) ==>
              Target(false, profile, Some(tokens)) == ProfileLimits(profile)
  {
    LowestBounds(tokens);
    ScreenOffLimitsAre(tokens);
    if ScreenOffLimits(Some(tokens)).Some? {
      ScreenOffLimitsOrdered(Some(tokens));
    }
  }

  /** One CPU's limits in order, and the CPUs' limits after each single write. */
  datatype CpuLimits = CpuLimits(mins: seq<int>, maxs: seq<int>)

  ghost predicate Ordered(c: CpuLimits) {
    |c.mins| == |c.maxs| == TOTAL_CPUS && forall i :: 0 <= i < TOTAL_CPUS ==> c.mins[i] <= c.maxs[i]
  }

  ghost predicate AllOrdered(history: seq<CpuLimits>) {
    forall k :: 0 <= k < |history| ==> Ordered(history[k])
  }

  /** Whether moving to `to` keeps every CPU's limits in order: going up writes the maximum first, going down the
      minimum. */
  ghost predicate Fits(now: CpuLimits, interactive: bool, to: Limits)
    requires |now.mins| == |now.maxs| == TOTAL_CPUS
  {
    forall i :: 0 <= i < TOTAL_CPUS ==> if interactive then now.mins[i] <= to.max else to.min <= now.maxs[i]
  }

  /** A row of limits with the first `n` CPUs already set. */
  function Upto(freq: int, n: nat, row: seq<int>): (r: seq<int>)
    requires n <= |row|
    ensures |r| == |row|
    ensures forall i :: 0 <= i < |row| ==> r[i] == if i < n then freq else row[i]
  {
    seq(n, _ => freq) + row[n..]
  }

  /** What the limits are after each of the first `n` writes of a new minimum. */
  function MinWrites(freq: int, c: CpuLimits, n: nat): (r: seq<CpuLimits>)
    requires n <= |c.mins|
    ensures |r| == n
    ensures forall k :: 0 <= k < n ==> r[k] == CpuLimits(Upto(freq, k + 1, c.mins), c.maxs)
  {
    if n == 0 then [] else MinWrites(freq, c, n - 1) + [CpuLimits(Upto(freq, n, c.mins), c.maxs)]
  }

  function MaxWrites(freq: int, c: CpuLimits, n: nat): (r: seq<CpuLimits>)
    requires n <= |c.maxs|
    ensures |r| == n
    ensures forall k :: 0 <= k < n ==> r[k] == CpuLimits(c.mins, Upto(freq, k + 1, c.maxs))
  {
    if n == 0 then [] else MaxWrites(freq, c, n - 1) + [CpuLimits(c.mins, Upto(freq, n, c.maxs))]
  }

  function Row(freq: int): (r: seq<int>) {
    seq(TOTAL_CPUS, _ => freq)
  }

  lemma MinWritesOrdered(freq: int, c: CpuLimits)
    requires Ordered(c)
    ensures AllOrdered(MinWrites(freq, c, TOTAL_CPUS)) <==> forall i :: 0 <= i < TOTAL_CPUS ==> freq <= c.maxs[i]
  {
    var writes := MinWrites(freq, c, TOTAL_CPUS);
    if AllOrdered(writes) {
      forall i | 0 <= i < TOTAL_CPUS
        ensures freq <= c.maxs[i]
      {
        assert Ordered(writes[i]) && writes[i].mins[i] == freq;
      }
    }
  }

  lemma MaxWritesOrdered(freq: int, c: CpuLimits)
    requires Ordered(c)
    ensures AllOrdered(MaxWrites(freq, c, TOTAL_CPUS)) <==> forall i :: 0 <= i < TOTAL_CPUS ==> c.mins[i] <= freq
  {
    var writes := MaxWrites(freq, c, TOTAL_CPUS);
    if AllOrdered(writes) {
      forall i | 0 <= i < TOTAL_CPUS
        ensures c.mins[i] <= freq
      {
        assert Ordered(writes[i]) && writes[i].maxs[i] == freq;
      }
    }
  }

  /** The eight writes of a change to `to`, in the order its direction asks for. */
  function Writes(interactive: bool, c: CpuLimits, to: Limits): seq<CpuLimits>
    requires |c.mins| == |c.maxs| == TOTAL_CPUS
  {
    if interactive then
      MaxWrites(to.max, c, TOTAL_CPUS) + MinWrites(to.min, c.(maxs := Row(to.max)), TOTAL_CPUS)
    else
      MinWrites(to.min, c, TOTAL_CPUS) + MaxWrites(to.max, c.(mins := Row(to.min)), TOTAL_CPUS)
  }

  /** After each of the eight writes every CPU's minimum is at most its maximum exactly when the first four do not
      cross the limits standing. */
  lemma WritesOrdered(interactive: bool, c: CpuLimits, to: Limits)
    requires Ordered(c) && to.min <= to.max
    ensures AllOrdered(Writes(interactive, c, to)) <==> Fits(c, interactive, to)
  {
    var first := if interactive then MaxWrites(to.max, c, TOTAL_CPUS) else MinWrites(to.min, c, TOTAL_CPUS);
    var mid := if interactive then c.(maxs := Row(to.max)) else c.(mins := Row(to.min));
    MinWritesOrdered(to.min, c);
    MaxWritesOrdered(to.max, c);
    if Fits(c, interactive, to) {
      MinWritesOrdered(to.min, mid);
      MaxWritesOrdered(to.max, mid);
    } else {
      var k :| 0 <= k < |first| && !Ordered(first[k]);
      assert Writes(interactive, c, to)[k] == first[k];
    }
  }

  class PowerHal {
    var interactive: bool
    var profile: int
    const mins: array<int>
    const maxs: array<int>
    ghost var history: seq<CpuLimits>

    ghost predicate Valid()
      reads this
    {
      mins != maxs && mins.Length == maxs.Length == TOTAL_CPUS
    }

    ghost function Now(): CpuLimits
      reads this, mins, maxs
    {
      CpuLimits(mins[..], maxs[..])
    }

    /** What the calls below move. */
    ghost function Status(): State
      reads this, mins, maxs
    {
      State(interactive, profile, Now())
    }

    /** The module as loaded: display on, balanced profile, with whatever limits the kernel has. */
    constructor (mins: array<int>, maxs: array<int>)
      requires mins != maxs && mins.Length == maxs.Length == TOTAL_CPUS
      ensures Valid() && this.mins == mins && this.maxs == maxs
      ensures interactive && profile == PROFILE_BALANCED && history == []
    {
      this.mins, this.maxs := mins, maxs;
      interactive, profile := true, PROFILE_BALANCED;
      history := [];
    }

    method SetMinFreq(freq: int)
      requires Valid()
      modifies this`history, mins
      ensures mins[..] == Row(freq)
      ensures history == old(history) + MinWrites(freq, old(Now()), TOTAL_CPUS)
    {
      hide Upto;
      ghost var was := Now();
      for cpu := 0 to TOTAL_CPUS
        invariant mins[..] == Upto(freq, cpu, was.mins)
        invariant history == old(history) + MinWrites(freq, was, cpu)
      {
        mins[cpu] := freq;
        assert mins[..] == Upto(freq, cpu + 1, was.mins) && maxs[..] == was.maxs;
        history := history + [Now()];
      }
    }

    method SetMaxFreq(freq: int)
      requires Valid()
      modifies this`history, maxs
      ensures maxs[..] == Row(freq)
      ensures history == old(history) + MaxWrites(freq, old(Now()), TOTAL_CPUS)
    {
      hide Upto;
      ghost var was := Now();
      for cpu := 0 to TOTAL_CPUS
        invariant maxs[..] == Upto(freq, cpu, was.maxs)
        invariant history == old(history) + MaxWrites(freq, was, cpu)
      {
        maxs[cpu] := freq;
        assert maxs[..] == Upto(freq, cpu + 1, was.maxs) && mins[..] == was.mins;
        history := history + [Now()];
      }
    }

    /** Bring every CPU to the limits the policy wants. */
    method ApplyPowerProfile(list: Option<Tokens>)
      requires Valid()
      modifies this`history, mins, maxs
      ensures var to := Target(interactive, profile, list);
              && Now() == CpuLimits(Row(to.min), Row(to.max))
              && history == old(history) + Writes(interactive, old(Now()), to)
    {
      hide MinWrites;
      hide MaxWrites;
      hide Row;
      hide ScreenOffLimits;
      hide ProfileLimits;
      var l := GetProfileLimits(profile);
      if !interactive {
        var off := GetScreenOffLimits(list);
        if off.Some? {
          l := off.value;
        }
      }
      if l.min > l.max {
        l := Limits(l.max, l.max);
      }
      ghost var was := Now();
      if interactive {
        SetMaxFreq(l.max);
        SetMinFreq(l.min);
      } else {
        SetMinFreq(l.min);
        SetMaxFreq(l.max);
      }
    }

    method SetInteractive(on: int, list: Option<Tokens>)
      requires Valid()
      modifies this`interactive, this`history, mins, maxs
      ensures Status() == After(old(Status()), Call.SetInteractive(on != 0), list)
      ensures history == old(history) + CallWrites(old(Status()), Call.SetInteractive(on != 0), list)
      ensures interactive == (on != 0)
      ensures var to := Target(interactive, profile, list);
              && Now() == CpuLimits(Row(to.min), Row(to.max))
              && history == old(history) + Writes(interactive, old(Now()), to)
    {
      interactive := on != 0;
      ApplyPowerProfile(list);
    }

    /** An unknown profile changes nothing. */
    method SetPowerProfile(newProfile: int, list: Option<Tokens>)
      requires Valid()
      modifies this`profile, this`history, mins, maxs
      ensures Status() == After(old(Status()), SetProfile(newProfile), list)
      ensures history == old(history) + CallWrites(old(Status()), SetProfile(newProfile), list)
      ensures newProfile < 0 || newProfile > 4 ==> profile == old(profile) && Now() == old(Now()) && history == old(history)
      ensures 0 <= newProfile <= 4 ==>
                var to := Target(interactive, newProfile, list);
                && profile == newProfile
                && Now() == CpuLimits(Row(to.min), Row(to.max))
                && history == old(history) + Writes(interactive, old(Now()), to)
    {
      if newProfile < PROFILE_POWER_SAVE || newProfile >= PROFILE_MAX {
        return;
      }
      profile := newProfile;
      ApplyPowerProfile(list);
    }
  }

  // ---------------------------------------------------------------- runs

  predicate IsProfile(p: int) {
    PROFILE_POWER_SAVE <= p < PROFILE_MAX
  }

  datatype Call = SetInteractive(on: bool) | SetProfile(profile: int)
  datatype State = State(interactive: bool, profile: int, cpus: CpuLimits)

  /** The state after a call. */
  function After(s: State, call: Call, list: Option<Tokens>): State {
    match call
    case SetProfile(p) =>
      if IsProfile(p) then Applied(s.interactive, p, list) else s
    case SetInteractive(on) => Applied(on, s.profile, list)
  }

  /** A state the policy itself has brought about. */
  function Applied(interactive: bool, profile: int, list: Option<Tokens>): State {
    var to := Target(interactive, profile, list);
    State(interactive, profile, CpuLimits(Row(to.min), Row(to.max)))
  }

  /** The limits after each write of a call. */
  function CallWrites(s: State, call: Call, list: Option<Tokens>): seq<CpuLimits>
    requires |s.cpus.mins| == |s.cpus.maxs| == TOTAL_CPUS
  {
    match call
    case SetProfile(p) =>
      if IsProfile(p) then Writes(s.interactive, s.cpus, Target(s.interactive, p, list)) else []
    case SetInteractive(on) => Writes(on, s.cpus, Target(on, s.profile, list))
  }

  /** Every write of every call leaves every CPU's limits in order. */
  ghost predicate RunOrdered(s: State, calls: seq<Call>, list: Option<Tokens>)
    requires |s.cpus.mins| == |s.cpus.maxs| == TOTAL_CPUS
    decreases |calls|
  {
    calls == [] || (AllOrdered(CallWrites(s, calls[0], list)) && RunOrdered(After(s, calls[0], list), calls[1..], list))
  }

  predicate RaisesMinimum(profile: int) {
    profile in {PROFILE_HIGH_PERFORMANCE, PROFILE_BIAS_PERFORMANCE}
  }

  predicate LowersMaximum(profile: int) {
    profile in {PROFILE_POWER_SAVE, PROFILE_BIAS_POWER}
  }

  /** A call that takes some CPU's minimum above its maximum for a moment.  Going up, or staying up: from a profile with
      a raised minimum to one with a lowered maximum.  Going down, or coming back: a lowest frequency above the
      profile's maximum.  While off, when the screen-off limits are unknown and those of the profile stand in: from a
      lowered maximum to a raised minimum. */
  predicate Crosses(s: State, call: Call, list: Option<Tokens>) {
    var off := ScreenOffLimits(list);
    match call
    case SetProfile(p) =>
      if s.interactive then RaisesMinimum(s.profile) && LowersMaximum(p)
      else off.None? && LowersMaximum(s.profile) && RaisesMinimum(p)
    case SetInteractive(on) =>
      on != s.interactive && off.Some? && off.value.min > ProfileLimits(s.profile).max
  }

  predicate CrossesOver(s: State, calls: seq<Call>, list: Option<Tokens>)
    decreases |calls|
  {
    calls != [] && (Crosses(s, calls[0], list) || CrossesOver(After(s, calls[0], list), calls[1..], list))
  }

  lemma TargetIsOrdered(interactive: bool, profile: int, list: Option<Tokens>)
    ensures Target(interactive, profile, list).min <= Target(interactive, profile, list).max
    ensures Ordered(Applied(interactive, profile, list).cpus)
  {
  }

  /** The screen-off limits lie between the lowest and the highest limits of every profile. */
  lemma SlowLimits(tokens: Tokens)
    requires HasSlowFrequency(tokens)
    ensures ScreenOffLimits(Some(tokens)).Some?
    ensures var l := ScreenOffLimits(Some(tokens)).value; l.min <= l.max <= SCREEN_OFF_TARGET_MAX_FREQ
  {
    ScreenOffLimitsAre(tokens);
    var l := ScreenOffLimits(Some(tokens)).value;
    var i :| 0 <= i < |tokens| && IsFrequency(tokens[i]) && tokens[i].value == l.max;
  }

  lemma ScreenOffLimitsOrdered(list: Option<Tokens>)
    requires ScreenOffLimits(list).Some?
    ensures ScreenOffLimits(list).value.min <= ScreenOffLimits(list).value.max
  {
    ScreenOffLimitsAre(list.value);
    var l := ScreenOffLimits(list).value;
    if HasSlowFrequency(list.value) {
      var i :| 0 <= i < |list.value| && IsFrequency(list.value[i]) && list.value[i].value == l.max;
    }
  }

  /** From limits the policy itself applied, a call keeps every CPU in order after every write exactly unless it
      crosses, whatever frequencies are listed. */
  lemma CallOrdered(interactive: bool, profile: int, call: Call, list: Option<Tokens>)
    requires IsProfile(profile)
    ensures var s := Applied(interactive, profile, list);
            AllOrdered(CallWrites(s, call, list)) <==> !Crosses(s, call, list)
  {
    hide ScreenOffLimits;
    hide Writes;
    hide AllOrdered;
    var s := Applied(interactive, profile, list);
    var on := if call.SetInteractive? then call.on else interactive;
    var p := if call.SetProfile? then call.profile else profile;
    if ScreenOffLimits(list).Some? {
      ScreenOffLimitsOrdered(list);
    }
    if IsProfile(p) {
      var to := Target(on, p, list);
      TargetIsOrdered(interactive, profile, list);
      TargetIsOrdered(on, p, list);
      WritesOrdered(on, s.cpus, to);
      assert Fits(s.cpus, on, to) <==> if on then s.cpus.mins[0] <= to.max else to.min <= s.cpus.maxs[0];
    } else {
      NoWritesOrdered();
    }
  }

  lemma NoWritesOrdered()
    ensures AllOrdered([])
  {
  }

  /** A run of calls from limits the policy itself applied keeps every CPU's limits in order after every single write
      exactly when no call crosses, whatever frequencies are listed. */
  lemma {:induction false} RunOrderedExactly(interactive: bool, profile: int, calls: seq<Call>, list: Option<Tokens>)
    requires IsProfile(profile)
    ensures var s := Applied(interactive, profile, list);
            RunOrdered(s, calls, list) <==> !CrossesOver(s, calls, list)
    decreases |calls|
  {
    if calls != [] {
      CallOrdered(interactive, profile, calls[0], list);
      var on := if calls[0].SetInteractive? then calls[0].on else interactive;
      var p := if calls[0].SetProfile? && IsProfile(calls[0].profile) then calls[0].profile else profile;
      RunOrderedExactly(on, p, calls[1..], list);
    }
  }

  /** Profile changes arrive only while the screen is off. */
  predicate ChangesOnlyWhileOff(interactive: bool, calls: seq<Call>)
    decreases |calls|
  {
    calls == [] ||
    match calls[0]
    case SetProfile(_) => !interactive && ChangesOnlyWhileOff(interactive, calls[1..])
    case SetInteractive(on) => ChangesOnlyWhileOff(on, calls[1..])
  }

  lemma {:induction false} NoCrossingWhileOff(s: State, calls: seq<Call>, tokens: Tokens)
    requires ChangesOnlyWhileOff(s.interactive, calls) && HasSlowFrequency(tokens)
    ensures !CrossesOver(s, calls, Some(tokens))
    decreases |calls|
  {
    if calls != [] {
      SlowLimits(tokens);
      NoCrossingWhileOff(After(s, calls[0], Some(tokens)), calls[1..], tokens);
    }
  }

  /** So screen changes with profile changes only in between are always safe, exactly when the list read has a
      frequency low enough; without one, some such run is not. */
  lemma ScreenRunsOrderedExactly(list: Option<Tokens>)
    ensures (forall interactive, profile, calls ::
               IsProfile(profile) && ChangesOnlyWhileOff(interactive, calls) ==>
                 RunOrdered(Applied(interactive, profile, list), calls, list))
            <==> list.Some? && HasSlowFrequency(list.value)
  {
    if list.Some? && HasSlowFrequency(list.value) {
      forall interactive, profile, calls | IsProfile(profile) && ChangesOnlyWhileOff(interactive, calls)
        ensures RunOrdered(Applied(interactive, profile, list), calls, list)
      {
        RunOrderedExactly(interactive, profile, calls, list);
        NoCrossingWhileOff(Applied(interactive, profile, list), calls, list.value);
      }
    } else {
      UnsafeWithoutSlowFrequency(list);
    }
  }

  /** Without a low frequency: if the list is usable at all, switching off in power-save mode raises the minimum above
      the maximum; otherwise changing, while off, from power-save to high performance does. */
  lemma UnsafeWithoutSlowFrequency(list: Option<Tokens>)
    requires list.None? || !HasSlowFrequency(list.value)
    ensures exists interactive, calls ::
              ChangesOnlyWhileOff(interactive, calls)
              && !RunOrdered(Applied(interactive, PROFILE_POWER_SAVE, list), calls, list)
  {
    var off := ScreenOffLimits(list);
    var interactive := off.Some?;
    var call := if off.Some? then SetInteractive(false) else SetProfile(PROFILE_HIGH_PERFORMANCE);
    if off.Some? {
      ScreenOffLimitsAre(list.value);
    }
    RunOrderedExactly(interactive, PROFILE_POWER_SAVE, [call], list);
    assert [call][1..] == [];
    assert ChangesOnlyWhileOff(interactive, [call]);
  }
}
