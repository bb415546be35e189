# Entity effect lifecycle and NPC idle greeting, in Dafny

This project models two small parts of Daggerfall Unity's game code.

**`BaseEntityEffect`** is the base class of every magic effect. The model covers:
- the default properties and settings its constructor assigns;
- `SetDuration`, which turns the duration coefficients and a caster level into a count of magic rounds;
- `RemoveRound`, which counts those rounds down and runs the `End` hook once, when the count reaches 0;
- `GetMagnitude`, which adds a random base to a random bonus times the caster level divided by the levels per increment;
- `GetDisplayName`, which builds a name from the group and subgroup names and stores it back into the properties;
- the static `MakeClassicKey` / `ReverseClasicKey` pair, which packs and unpacks classic group and subgroup indices.

**`MobileNPCSound`** plays a greeting when an idle NPC is near the player. It then suppresses further greetings for an 8-second cooldown. The greeting re-arms only after the NPC leaves range or stops being idle.

Files:
- `csharp_int.dfy` (module `CSharpInt`): C# 32-bit `int` arithmetic. It covers unchecked wrap-around (`Wrap32`), division that truncates toward zero (`TruncDiv`), and the conditions under which C# division throws (`DivisionDefined`). It also covers `<<` with the count masked to five bits.
- `entity_effect.dfy` (module `EntityEffects`): effect properties and settings as datatypes. `BaseEntityEffect` is a class whose fields are `properties`, `settings`, `roundsRemaining` and the two modifier arrays. A ghost counter `endCalls` records how often `End` has run. Each state-changing method is specified by a pure function: `DurationRounds`, `RoundsAfterRemove`, `Magnitude` and `DisplayNameOf`. The lemmas are stated about those functions.
- `mobile_npc_sound.dfy` (module `NpcGreeting`): the class `MobileNPCSound` with its two flags and three methods: `Tick` (one frame), `StartCooldown` (the coroutine up to its wait) and `CooldownElapsed` (the end of the wait). A pure transition function over events (`Step`, `Run`) carries the lemmas about whole runs.

Inputs from the engine are parameters:
- For the caster, the model takes only its level (`Caster`).
- For `Random.Range`, it takes the two drawn integers. `RangeDraw` states what the engine can return.
- For the localised "no name" text, it takes a string argument.
- For `DistanceToPlayer <= 2.5f` and `IsIdle`, it takes two booleans.

Two behaviours of the code are worth stating plainly:
- An empty group name gives the no-name text even when a subgroup name is set (EntityEffect.cs:310-311).
- The classic key as written does not pack bytes the way `ReverseClasicKey` (EntityEffect.cs:326-327) unpacks them (see Findings).

## Model

| member | source | states |
|---|---|---|
| `EntityEffects.DefaultProperties` | Assets/Scripts/Game/MagicAndEffects/EntityEffect.cs:130-137 | a new effect supports no duration, chance or magnitude, targets the caster only, uses the magic element, the spell maker and no magic skill |
| `EntityEffects.DefaultSettings` | Assets/Scripts/Game/MagicAndEffects/EntityEffect.cs:273-295 | the default coefficients are all 32-bit values, every levels-per-increment is positive (so the default formulas never divide by zero), and each magnitude range is a single value |
| `EntityEffects.BaseEntityEffect.constructor` | Assets/Scripts/Game/MagicAndEffects/EntityEffect.cs:114-144 | the new effect holds the default settings, the effect's own properties applied over the defaults, zeroed stat and skill modifier arrays of the engine's counts, and 0 rounds with End never called |
| `EntityEffects.BaseEntityEffect.SetSettings` | Assets/Scripts/Game/MagicAndEffects/EntityEffect.cs:155-159 | the settings setter replaces the settings and nothing else |
| `EntityEffects.CasterLevel` | Assets/Scripts/Game/MagicAndEffects/EntityEffect.cs:198 | the level the formulas use is the caster's level, or 1 when there is no caster |
| `CSharpInt.TruncDiv` | Assets/Scripts/Game/MagicAndEffects/EntityEffect.cs:200 | `int / int` truncates toward zero: the remainder is smaller than the divisor in absolute value and has the dividend's sign; on non-negative operands it is ordinary division; the quotient is a 32-bit value unless C# would throw |
| `EntityEffects.DurationRounds` | Assets/Scripts/Game/MagicAndEffects/EntityEffect.cs:197-205 | without duration support the effect lasts exactly 1 round whatever the settings and caster; with it, the rounds are `DurationBase + DurationPlus * (level / DurationPerLevel)`, exact when that fits in an int and otherwise congruent to it modulo 2^32, with level 1 when there is no caster |
| `EntityEffects.DefaultDuration` | Assets/Scripts/Game/MagicAndEffects/EntityEffect.cs:277-280 | with the default settings the effect lasts 1 + caster level rounds (2 with no caster); at level int.MaxValue the model wraps the sum to int.MinValue, a case inside the float rounding gap that "## Left out" names |
| `EntityEffects.BaseEntityEffect.SetDuration` | Assets/Scripts/Game/MagicAndEffects/EntityEffect.cs:192-208 | the round counter becomes `DurationRounds` of the current properties, settings and caster, and is exactly 1 when duration is unsupported |
| `EntityEffects.RoundsAfterRemove` | Assets/Scripts/Game/MagicAndEffects/EntityEffect.cs:222-236 | removing a round leaves 0 at 0 and otherwise decrements by exactly one; a negative counter keeps falling and wraps only at int.MinValue |
| `EntityEffects.BaseEntityEffect.End` | Assets/Scripts/Game/MagicAndEffects/EntityEffect.cs:214-216 | each run of the End hook is counted once |
| `EntityEffects.BaseEntityEffect.RemoveRound` | Assets/Scripts/Game/MagicAndEffects/EntityEffect.cs:222-236 | at 0 it returns 0, leaves the counter and does not call End; otherwise it decrements, calls End exactly when the new value is 0, and returns the new value; a non-negative counter stays non-negative |
| `EntityEffects.Countdown` | Assets/Scripts/Game/MagicAndEffects/EntityEffect.cs:94-98 | from N >= 0 rounds, k calls leave max(N - k, 0) rounds, so the calls return N-1, ..., 0 and then 0 forever, and End has run once if N > 0 and k >= N, and never otherwise |
| `EntityEffects.EndOnLastCall` | Assets/Scripts/Game/MagicAndEffects/EntityEffect.cs:230-234 | End runs on call k exactly when k == N, which is the call that returns 0 |
| `EntityEffects.Magnitude` | Assets/Scripts/Game/MagicAndEffects/EntityEffect.cs:250-266 | without magnitude support the result is 0; with it, the result is `base + plus * (level / MagnitudePerLevel)` for the two draws, exact when that fits in an int and congruent modulo 2^32 otherwise |
| `EntityEffects.ExclusiveBound` | Assets/Scripts/Game/MagicAndEffects/EntityEffect.cs:259-260 | the exclusive bound `Max + 1` is one above the maximum for every int maximum below int.MaxValue, and wraps to int.MinValue at int.MaxValue |
| `EntityEffects.DrawInClosedRange` | Assets/Scripts/Game/MagicAndEffects/EntityEffect.cs:259-260 | because of the `+ 1` on the exclusive bound, a draw is possible exactly when it lies in the closed range [min, max] (for max below int.MaxValue) |
| `EntityEffects.MagnitudeBounds` | Assets/Scripts/Game/MagicAndEffects/EntityEffect.cs:257-262 | for a multiplier m >= 0 and no overflow at the ends, the magnitude lies between `BaseMin + PlusMin * m` and `BaseMax + PlusMax * m` |
| `EntityEffects.DefaultMagnitude` | Assets/Scripts/Game/MagicAndEffects/EntityEffect.cs:287-292 | with the default settings both draws are 1 and the magnitude is 1 + caster level; at level int.MaxValue the model wraps it to int.MinValue, a case inside the float rounding gap that "## Left out" names |
| `EntityEffects.BaseEntityEffect.GetMagnitude` | Assets/Scripts/Game/MagicAndEffects/EntityEffect.cs:250-266 | returns `Magnitude` of the current properties, settings, caster and draws, and 0 when magnitude is unsupported |
| `EntityEffects.DisplayNameOf` | Assets/Scripts/Game/MagicAndEffects/EntityEffect.cs:297-313 | the chosen name is empty only if the no-name text is |
| `EntityEffects.DisplayNameMemoised` | Assets/Scripts/Game/MagicAndEffects/EntityEffect.cs:306-311 | once the chosen name is stored as the display name, the next choice returns the same string; a non-empty stored name is returned whatever the no-name text is later; with a non-empty no-name text the name is never empty |
| `EntityEffects.BaseEntityEffect.GetDisplayName` | Assets/Scripts/Game/MagicAndEffects/EntityEffect.cs:297-313 | a set display name is returned unchanged; otherwise group and subgroup give "Group SubGroup", group alone gives Group, and an empty group gives the no-name text; the result is stored as the display name and nothing else in the properties changes |
| `EntityEffects.MakeClassicKey` | Assets/Scripts/Game/MagicAndEffects/EntityEffect.cs:319-322 | the key as written, `g << ((8 + s) & 31)` in 32-bit arithmetic, is an int |
| `EntityEffects.ClassicKeyShape` | Assets/Scripts/Game/MagicAndEffects/EntityEffect.cs:321 | the key as written is g * 256 when s is a multiple of 32, a multiple of 256 when s mod 32 is 1 to 23, and g * 2^(s mod 32 - 24), at most 128 * g, when s mod 32 is 24 to 31 |
| `EntityEffects.ReverseClasicKey` | Assets/Scripts/Game/MagicAndEffects/EntityEffect.cs:324-328 | the two bytes are bits 8-15 and bits 0-7 of the key: key = 65536 * (key div 65536) + 256 * group + subgroup |
| `EntityEffects.ClassicKeyDecodes` | Assets/Scripts/Game/MagicAndEffects/EntityEffect.cs:324-328 | a key of the form g * 256 + s decodes to (g, s) |
| `EntityEffects.ClassicKeyRoundTripIff` | Assets/Scripts/Game/MagicAndEffects/EntityEffect.cs:319-328 | decoding the key as written gives back (g, s) if and only if s == 0 |
| `EntityEffects.ClassicKeyCounterexample` | Assets/Scripts/Game/MagicAndEffects/EntityEffect.cs:321 | (1, 1) encodes to 512, which decodes to (2, 0) |
| `EntityEffects.MakeClassicKeyIntended` | Assets/Scripts/Game/MagicAndEffects/EntityEffect.cs:319-322 | the intended key, `g << 8` bitwise-or `s`, is a 16-bit key that decodes to (g, s) |
| `EntityEffects.IntendedKeyInverse` | Assets/Scripts/Game/MagicAndEffects/EntityEffect.cs:324-328 | every 16-bit key is the intended encoding of the pair it decodes to |
| `NpcGreeting.AfterFrame` | Assets/Scripts/Game/MobileNPCSound.cs:46-52 | after a frame the cooldown is on exactly when it was on or the frame greeted, and the greeted flag is set exactly when the frame greeted or it was set and the NPC is still near and idle |
| `NpcGreeting.Step` | Assets/Scripts/Game/MobileNPCSound.cs:46-58 | a greeting sets both flags; a frame out of range or not idle clears the greeted flag and keeps the cooldown; the end of the wait clears the cooldown and keeps the greeted flag; any other frame changes nothing |
| `NpcGreeting.MobileNPCSound.constructor` | Assets/Scripts/Game/MobileNPCSound.cs:24-25 | a new component has not greeted, is not in cooldown and has no wait pending |
| `NpcGreeting.MobileNPCSound.Tick` | Assets/Scripts/Game/MobileNPCSound.cs:45-53 | a frame greets if and only if not in cooldown, not yet greeted, near and idle, and then both flags are set; a frame out of range or not idle plays nothing, clears the greeted flag and leaves the cooldown; a near idle frame in cooldown or already greeted changes nothing; no frame in cooldown greets |
| `NpcGreeting.MobileNPCSound.StartCooldown` | Assets/Scripts/Game/MobileNPCSound.cs:55-56 | the cooldown coroutine sets the cooldown at once and leaves one wait pending |
| `NpcGreeting.MobileNPCSound.CooldownElapsed` | Assets/Scripts/Game/MobileNPCSound.cs:57-58 | the end of the pending 8-second wait clears the cooldown and nothing else |
| `NpcGreeting.CooldownHolds` | Assets/Scripts/Game/MobileNPCSound.cs:46-58 | while no wait ends the cooldown stays set and no frame greets: only the end of the wait clears it |
| `NpcGreeting.GreetedHolds` | Assets/Scripts/Game/MobileNPCSound.cs:46-51 | the greeted flag is cleared only by a frame out of range or not idle |
| `NpcGreeting.GreetingsSeparated` | Assets/Scripts/Game/MobileNPCSound.cs:46-58 | between any two greetings of any run there is at least one end of a cooldown wait and at least one frame out of range or not idle |
| `NpcGreeting.IdleApproachScenario` | Assets/Scripts/Game/MobileNPCSound.cs:45-59 | near and idle greets once; a second idle frame in cooldown does not; after leaving and the end of the cooldown, the next approach greets again |

## Left out

- Logging (`Debug.LogWarningFormat` for a missing caster, `Debug.LogError` for a failed asset lookup) has no effect on state and is not modelled.
- `TextManager.Instance.GetText("ClassicEffect", "noName")` is a localisation lookup; it is the `noName` argument of `GetDisplayName`.
- `Random.Range` is the engine's global generator; its two results are arguments of `GetMagnitude`. The model does not say what the engine returns when the lower bound exceeds the exclusive upper bound. That happens when a maximum is below its minimum, or is int.MaxValue so that `+ 1` wraps. In that case any int is allowed.
- `caster.Entity.Level` and `GetPeeredEntityBehaviour` (a component lookup on the manager) are engine queries; the caster is reduced to an optional level.
- `(int)Mathf.Floor(...)` is modelled as the identity on the integer quotient. The quotient passes through a 32-bit float, so it is exact only up to 2^24 in magnitude. Quotients beyond that, like caster levels above 16,777,216, are rounded by the float in the code but not in the model.
- `SetDuration` and `GetMagnitude` require that the division does not throw: a levels-per-increment of 0, or int.MinValue divided by -1. The code has no handling for either case.
- `MakeEffectCosts` copies four floats into a cost value; floating point is not modelled.
- The `Start` and `MagicRound` hooks are empty in the base class and are not modelled; `End` only counts its calls in a ghost counter.
- `SetProperties` is abstract and belongs to each concrete effect; the constructor takes it as a function on properties, so a hook that also changed the settings is not covered.
- The property getters (`Properties`, `Settings`, `RoundsRemaining`, `StatMods`, `SkillMods`, `Key`, `DisplayName`) are field reads (the last one is `GetDisplayName`); the model's fields are public.
- `DaggerfallStats.Count` and `DaggerfallSkills.Count` are not part of this model; the modifier array lengths are constructor parameters.
- The enumerations `TargetTypes`, `ElementTypes`, `MagicCraftingStations` and `DFCareer.MagicSkills` are not part of this model. Each keeps its default member and folds all other members into one alternative.
- A null string counts as empty, as `string.IsNullOrEmpty` treats it. The properties are held by value, so aliasing of a shared properties object is not modelled.
- `Awake` (audio source setup, clip lookup), `PlayOneShot` and `FindMobilePersonAsset` (mod asset lookup, destroying and reparenting objects) are engine and asset calls. A played greeting is the boolean result of `Tick`.
- The 8-second `WaitForSeconds` and the coroutine scheduler are replaced by the `CooldownElapsed` event. The destruction of the object, which would cancel a pending wait, is not modelled.
- The distance test is the boolean `near`. The code compares one float twice (`<= 2.5f`, then `> 2.5f`), and the model takes the second test as the negation of the first. A NaN distance, which fails both tests, is not modelled.

## Findings

| source | as written | input that shows it | evidently intended | confidence | as-written member | corrected member |
|---|---|---|---|---|---|---|
| Assets/Scripts/Game/MagicAndEffects/EntityEffect.cs:321 | `groupIndex << 8 + subgroupIndex`, which C# parses as `groupIndex << (8 + subgroupIndex)` | group 1, subgroup 1 gives key 512, which `ReverseClasicKey` reads as group 2, subgroup 0 | `(groupIndex << 8)` bitwise-or `subgroupIndex`, so that `ReverseClasicKey` inverts it | high; not executed | `EntityEffects.ClassicKeyCounterexample` | `EntityEffects.MakeClassicKeyIntended` |
