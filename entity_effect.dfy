/**
 * The lifecycle arithmetic of `BaseEntityEffect`: default properties and
 * settings, the duration a caster level buys, the per-round countdown that
 * ends the effect, the magnitude roll, the display name and the classic
 * group/subgroup key.
 */
module EntityEffects {
  import opened CSharpInt

  // The flag enumerations are declared outside this source. The model names
  // the member the constructor assigns and folds every other value into one
  // alternative, since no modelled operation looks at them.
  datatype TargetTypes = CasterOnly | OtherTargetTypes
  datatype ElementTypes = Magic | OtherElementTypes
  datatype MagicCraftingStations = SpellMaker | OtherCraftingStations
  datatype MagicSkill = NoMagicSkill | OtherMagicSkill

  /** What an effect supports and how it is named; strings that C# leaves null are empty. */
  datatype EffectProperties = EffectProperties(
    key: string,
    displayName: string,
    groupName: string,
    subGroupName: string,
    supportDuration: bool,
    supportChance: bool,
    supportMagnitude: bool,
    allowedTargets: TargetTypes,
    allowedElements: ElementTypes,
    allowedCraftingStations: MagicCraftingStations,
    magicSkill: MagicSkill)

  /** The tunable coefficients of the duration, chance and magnitude formulas. */
  datatype EffectSettings = EffectSettings(
    durationBase: int,
    durationPlus: int,
    durationPerLevel: int,
    chanceBase: int,
    chancePlus: int,
    chancePerLevel: int,
    magnitudeBaseMin: int,
    magnitudeBaseMax: int,
    magnitudePlusMin: int,
    magnitudePlusMax: int,
    magnitudePerLevel: int)

  predicate SettingsInt32(s: EffectSettings) {
    && IsInt32(s.durationBase) && IsInt32(s.durationPlus) && IsInt32(s.durationPerLevel)
    && IsInt32(s.chanceBase) && IsInt32(s.chancePlus) && IsInt32(s.chancePerLevel)
    && IsInt32(s.magnitudeBaseMin) && IsInt32(s.magnitudeBaseMax)
    && IsInt32(s.magnitudePlusMin) && IsInt32(s.magnitudePlusMax)
    && IsInt32(s.magnitudePerLevel)
  }

  /** The caster passed to SetDuration and GetMagnitude, reduced to its level. */
  datatype Caster = NoCaster | Caster(level: int)

  predicate CasterInt32(c: Caster) {
    c.Caster? ==> IsInt32(c.level)
  }

  /** Without a caster the formulas use level 1. */
  function CasterLevel(c: Caster): (level: int)
    ensures c.NoCaster? ==> level == 1
    ensures c.Caster? ==> level == c.level
  {
    match c
    case NoCaster => 1
    case Caster(l) => l
  }

  /** The properties the base constructor assigns before the effect sets its own. */
  function DefaultProperties(): (p: EffectProperties)
    ensures !p.supportDuration && !p.supportChance && !p.supportMagnitude
    ensures p.allowedTargets == CasterOnly && p.allowedElements == Magic
    ensures p.allowedCraftingStations == SpellMaker && p.magicSkill == NoMagicSkill
  {
    EffectProperties("", "", "", "", false, false, false, CasterOnly, Magic, SpellMaker, NoMagicSkill)
  }

  /** Duration and chance are 1 + 1 per level; magnitude is 1-1 + 1-1 per level. */
  function DefaultSettings(): (s: EffectSettings)
    ensures SettingsInt32(s)
    ensures s.durationPerLevel > 0 && s.chancePerLevel > 0 && s.magnitudePerLevel > 0
    ensures s.magnitudeBaseMin == s.magnitudeBaseMax && s.magnitudePlusMin == s.magnitudePlusMax
  {
    EffectSettings(1, 1, 1, 1, 1, 1, 1, 1, 1, 1, 1)
  }

  // ---------------------------------------------------------------------------
  // Duration

  /** The total lifetime in magic rounds that SetDuration assigns. */
  function DurationRounds(p: EffectProperties, s: EffectSettings, c: Caster): (rounds: int)
    requires SettingsInt32(s) && CasterInt32(c)
    requires p.supportDuration ==> DivisionDefined(CasterLevel(c), s.durationPerLevel)
    ensures IsInt32(rounds)
    ensures !p.supportDuration ==> rounds == 1
    ensures p.supportDuration ==>
      var exact := s.durationBase + s.durationPlus * TruncDiv(CasterLevel(c), s.durationPerLevel);
      (exact - rounds) % TwoTo32 == 0 && (IsInt32(exact) ==> rounds == exact)
  {
    if p.supportDuration then
      var q := TruncDiv(CasterLevel(c), s.durationPerLevel);
      Wrap32Inner(s.durationBase, s.durationPlus * q);
      Add32(s.durationBase, Mul32(s.durationPlus, q))
    else
      1
  }

  /**
   * With the default settings an effect lasts one round plus one per caster
   * level. The int.MaxValue case is the model's result: the engine code passes
   * the quotient through a float, which is not modelled beyond 2^24.
   */
  lemma DefaultDuration(p: EffectProperties, c: Caster)
    requires p.supportDuration && CasterInt32(c)
    ensures CasterLevel(c) < MaxInt32 ==> DurationRounds(p, DefaultSettings(), c) == 1 + CasterLevel(c)
    ensures CasterLevel(c) == MaxInt32 ==> DurationRounds(p, DefaultSettings(), c) == MinInt32
    ensures c.NoCaster? ==> DurationRounds(p, DefaultSettings(), c) == 2
  {
    var level := CasterLevel(c);
    assert TruncDiv(level, 1) == level;
  }

  // ---------------------------------------------------------------------------
  // Rounds

  /** The counter after one RemoveRound: unchanged at 0, otherwise one less (wrapping at int.MinValue). */
  function RoundsAfterRemove(rounds: int): (next: int)
    requires IsInt32(rounds)
    ensures IsInt32(next)
    ensures rounds == 0 ==> next == 0
    ensures rounds > 0 ==> next == rounds - 1
    ensures rounds < 0 ==> next < rounds || (rounds == MinInt32 && next == MaxInt32)
  {
    if rounds == 0 then 0 else Wrap32(rounds - 1)
  }

  /** RemoveRound calls End when it has decremented the counter to 0. */
  predicate EndFires(rounds: int)
    requires IsInt32(rounds)
  {
    rounds != 0 && RoundsAfterRemove(rounds) == 0
  }

  /** The counter after `k` calls of RemoveRound. */
  function RoundsAfter(rounds: int, k: nat): (r: int)
    requires IsInt32(rounds)
    ensures IsInt32(r)
    decreases k
  {
    if k == 0 then rounds else RoundsAfter(RoundsAfterRemove(rounds), k - 1)
  }

  /** How many times End runs during `k` calls of RemoveRound. */
  function EndCallsDuring(rounds: int, k: nat): nat
    requires IsInt32(rounds)
    decreases k
  {
    if k == 0 then 0
    else (if EndFires(rounds) then 1 else 0) + EndCallsDuring(RoundsAfterRemove(rounds), k - 1)
  }

  /**
   * From a counter n >= 0 the calls return n-1, ..., 1, 0 and then 0 forever;
   * End runs exactly once when n > 0, and never when n == 0.
   */
  lemma {:induction false} Countdown(n: int, k: nat)
    requires 0 <= n <= MaxInt32
    ensures RoundsAfter(n, k) == if k <= n then n - k else 0
    ensures EndCallsDuring(n, k) == if 0 < n <= k then 1 else 0
  {
    if k > 0 {
      Countdown(RoundsAfterRemove(n), k - 1);
    }
  }

  /** The call that runs End is call number n, the one that returns 0. */
  lemma EndOnLastCall(n: int, k: nat)
    requires 0 <= n <= MaxInt32 && k >= 1
    ensures EndFires(RoundsAfter(n, k - 1)) <==> k == n
    ensures k == n ==> RoundsAfter(n, k) == 0
  {
    Countdown(n, k - 1);
    Countdown(n, k);
  }

  // ---------------------------------------------------------------------------
  // Magnitude

  /**
   * What the engine's `Random.Range(lo, hiExclusive)` on integers may return:
   * a value in [lo, hiExclusive) when that is non-empty, lo when the bounds
   * are equal. For lo > hiExclusive the draw is any int.
   */
  predicate RangeDraw(lo: int, hiExclusive: int, v: int) {
    && IsInt32(v)
    && (lo < hiExclusive ==> lo <= v < hiExclusive)
    && (lo == hiExclusive ==> v == lo)
  }

  /** `settings.MagnitudeBaseMax + 1` and `MagnitudePlusMax + 1`, the exclusive bounds of the draws. */
  function ExclusiveBound(max: int): (bound: int)
    ensures MinInt32 <= max < MaxInt32 ==> bound == max + 1
    ensures max == MaxInt32 ==> bound == MinInt32
  {
    Add32(max, 1)
  }

  /** Both draws are what Random.Range can produce for these settings. */
  predicate ValidDraws(s: EffectSettings, baseDraw: int, plusDraw: int) {
    && RangeDraw(s.magnitudeBaseMin, ExclusiveBound(s.magnitudeBaseMax), baseDraw)
    && RangeDraw(s.magnitudePlusMin, ExclusiveBound(s.magnitudePlusMax), plusDraw)
  }

  /** The magnitude GetMagnitude returns for the given draws. */
  function Magnitude(p: EffectProperties, s: EffectSettings, c: Caster, baseDraw: int, plusDraw: int): (m: int)
    requires SettingsInt32(s) && CasterInt32(c) && IsInt32(baseDraw) && IsInt32(plusDraw)
    requires p.supportMagnitude ==> DivisionDefined(CasterLevel(c), s.magnitudePerLevel)
    ensures IsInt32(m)
    ensures !p.supportMagnitude ==> m == 0
    ensures p.supportMagnitude ==>
      var exact := baseDraw + plusDraw * TruncDiv(CasterLevel(c), s.magnitudePerLevel);
      (exact - m) % TwoTo32 == 0 && (IsInt32(exact) ==> m == exact)
  {
    if p.supportMagnitude then
      var multiplier := TruncDiv(CasterLevel(c), s.magnitudePerLevel);
      Wrap32Inner(baseDraw, plusDraw * multiplier);
      Add32(baseDraw, Mul32(plusDraw, multiplier))
    else
      0
  }

  /** The `+ 1` makes both ends of a configured range reachable and nothing outside it. */
  lemma DrawInClosedRange(min: int, max: int, v: int)
    requires IsInt32(min) && IsInt32(max) && min <= max < MaxInt32
    ensures RangeDraw(min, ExclusiveBound(max), v) <==> min <= v <= max
  {
  }

  lemma ProductBetween(lo: int, v: int, hi: int, m: nat)
    requires lo <= v <= hi
    ensures lo * m <= v * m <= hi * m
  {
    assert v * m - lo * m == (v - lo) * m;
    assert hi * m - v * m == (hi - v) * m;
  }

  lemma QuotientNonNegative(n: int, d: int)
    requires n >= 0 && d > 0
    ensures n / d >= 0
  {
    NatDivision(n, d);
  }

  lemma SumBetween(baseMin: int, b: int, baseMax: int, plusMin: int, p: int, plusMax: int, m: nat)
    requires baseMin <= b <= baseMax && plusMin <= p <= plusMax
    ensures baseMin + plusMin * m <= b + p * m <= baseMax + plusMax * m
  {
    ProductBetween(plusMin, p, plusMax, m);
  }

  /**
   * For a non-negative multiplier and no overflow at the ends of the ranges,
   * the magnitude lies between BaseMin + PlusMin * m and BaseMax + PlusMax * m.
   */
  lemma MagnitudeBounds(p: EffectProperties, s: EffectSettings, c: Caster, baseDraw: int, plusDraw: int)
    requires p.supportMagnitude && SettingsInt32(s) && CasterInt32(c)
    requires CasterLevel(c) >= 0 && s.magnitudePerLevel > 0
    requires s.magnitudeBaseMin <= s.magnitudeBaseMax < MaxInt32
    requires s.magnitudePlusMin <= s.magnitudePlusMax < MaxInt32
    requires ValidDraws(s, baseDraw, plusDraw)
    requires var m := CasterLevel(c) / s.magnitudePerLevel;
      IsInt32(s.magnitudeBaseMin + s.magnitudePlusMin * m) && IsInt32(s.magnitudeBaseMax + s.magnitudePlusMax * m)
    ensures var m := CasterLevel(c) / s.magnitudePerLevel;
      s.magnitudeBaseMin + s.magnitudePlusMin * m
        <= Magnitude(p, s, c, baseDraw, plusDraw)
        <= s.magnitudeBaseMax + s.magnitudePlusMax * m
  {
    var m := CasterLevel(c) / s.magnitudePerLevel;
    assert TruncDiv(CasterLevel(c), s.magnitudePerLevel) == m;
    QuotientNonNegative(CasterLevel(c), s.magnitudePerLevel);
    DrawInClosedRange(s.magnitudeBaseMin, s.magnitudeBaseMax, baseDraw);
    DrawInClosedRange(s.magnitudePlusMin, s.magnitudePlusMax, plusDraw);
    SumBetween(s.magnitudeBaseMin, baseDraw, s.magnitudeBaseMax, s.magnitudePlusMin, plusDraw, s.magnitudePlusMax, m);
    var exact := baseDraw + plusDraw * m;
    assert IsInt32(exact);
    assert Magnitude(p, s, c, baseDraw, plusDraw) == exact;
  }

  /**
   * With the default settings the roll always gives one plus the caster level.
   * As with DefaultDuration, the int.MaxValue case is the model's result only.
   */
  lemma DefaultMagnitude(p: EffectProperties, c: Caster, baseDraw: int, plusDraw: int)
    requires p.supportMagnitude && CasterInt32(c)
    requires ValidDraws(DefaultSettings(), baseDraw, plusDraw)
    ensures baseDraw == 1 && plusDraw == 1
    ensures CasterLevel(c) < MaxInt32 ==> Magnitude(p, DefaultSettings(), c, baseDraw, plusDraw) == 1 + CasterLevel(c)
    ensures CasterLevel(c) == MaxInt32 ==> Magnitude(p, DefaultSettings(), c, baseDraw, plusDraw) == MinInt32
  {
    var level := CasterLevel(c);
    assert TruncDiv(level, 1) == level;
  }

  // ---------------------------------------------------------------------------
  // Display name

  /** The name GetDisplayName returns; `noName` is the localised "no name" text. */
  function DisplayNameOf(p: EffectProperties, noName: string): (name: string)
    ensures name == [] ==> noName == []
  {
    if p.displayName != [] then p.displayName
    else if p.groupName != [] && p.subGroupName != [] then p.groupName + " " + p.subGroupName
    else if p.groupName != [] then p.groupName
    else noName
  }

  /**
   * Storing the name back is memoisation: the next call returns the same
   * string, and a non-empty stored name survives a change of the no-name text.
   */
  lemma DisplayNameMemoised(p: EffectProperties, noName: string, laterNoName: string)
    ensures var name := DisplayNameOf(p, noName);
      DisplayNameOf(p.(displayName := name), noName) == name
    ensures var name := DisplayNameOf(p, noName);
      name != [] ==> DisplayNameOf(p.(displayName := name), laterNoName) == name
    ensures noName != [] ==> DisplayNameOf(p, noName) != []
  {
  }

  // ---------------------------------------------------------------------------
  // The effect object

  class BaseEntityEffect {
    var properties: EffectProperties
    var settings: EffectSettings
    /** One modifier per stat and one per skill; their lengths are the engine's stat and skill counts. */
    const statMods: array<int>
    const skillMods: array<int>
    var roundsRemaining: int
    /** How many times the End hook has run. */
    ghost var endCalls: nat

    ghost predicate Valid()
      reads this
    {
      SettingsInt32(settings) && IsInt32(roundsRemaining)
    }

    /**
     * The base constructor: default properties, default settings, zeroed
     * modifier arrays, then the concrete effect's SetProperties hook, given
     * here as the function it applies to the properties.
     */
    constructor (statCount: nat, skillCount: nat, setProperties: EffectProperties -> EffectProperties)
      ensures Valid()
      ensures properties == setProperties(DefaultProperties())
      ensures settings == DefaultSettings()
      ensures roundsRemaining == 0 && endCalls == 0
      ensures fresh(statMods) && fresh(skillMods)
      ensures statMods.Length == statCount && skillMods.Length == skillCount
      ensures forall i :: 0 <= i < statCount ==> statMods[i] == 0
      ensures forall i :: 0 <= i < skillCount ==> skillMods[i] == 0
    {
      statMods := new int[statCount](_ => 0);
      skillMods := new int[skillCount](_ => 0);
      roundsRemaining := 0;
      endCalls := 0;
      settings := DefaultSettings();
      properties := setProperties(DefaultProperties());
    }

    /** The Settings setter. */
    method SetSettings(s: EffectSettings)
      requires Valid() && SettingsInt32(s)
      modifies this`settings
      ensures Valid() && settings == s
    {
      settings := s;
    }

    /** Assigns the total lifetime in magic rounds. */
    method SetDuration(caster: Caster)
      requires Valid() && CasterInt32(caster)
      requires properties.supportDuration ==> DivisionDefined(CasterLevel(caster), settings.durationPerLevel)
      modifies this`roundsRemaining
      ensures Valid()
      ensures roundsRemaining == DurationRounds(properties, settings, caster)
      ensures !properties.supportDuration ==> roundsRemaining == 1
    {
      if properties.supportDuration {
        var casterLevel := CasterLevel(caster);
        var multiplier := TruncDiv(casterLevel, settings.durationPerLevel);
        roundsRemaining := Add32(settings.durationBase, Mul32(settings.durationPlus, multiplier));
      } else {
        roundsRemaining := 1;
      }
    }

    /** The wrap-up hook; the base version does nothing but is counted here. */
    method End()
      modifies this`endCalls
      ensures endCalls == old(endCalls) + 1
    {
      endCalls := endCalls + 1;
    }

    /** Removes a magic round; 0 means the effect has expired. */
    method RemoveRound() returns (remaining: int)
      requires Valid()
      modifies this`roundsRemaining, this`endCalls
      ensures Valid()
      ensures roundsRemaining == RoundsAfterRemove(old(roundsRemaining)) && remaining == roundsRemaining
      ensures endCalls == old(endCalls) + (if EndFires(old(roundsRemaining)) then 1 else 0)
      ensures old(roundsRemaining) == 0 ==> remaining == 0 && endCalls == old(endCalls)
      ensures old(roundsRemaining) > 0 ==> remaining == old(roundsRemaining) - 1
      ensures old(roundsRemaining) >= 0 ==> roundsRemaining >= 0
    {
      if roundsRemaining == 0 {
        return 0;
      }
      roundsRemaining := Wrap32(roundsRemaining - 1);
      if roundsRemaining == 0 {
        End();
      }
      remaining := roundsRemaining;
    }

    /** Rolls a magnitude; `baseDraw` and `plusDraw` are the two Random.Range results. */
    method GetMagnitude(caster: Caster, baseDraw: int, plusDraw: int) returns (magnitude: int)
      requires Valid() && CasterInt32(caster)
      requires properties.supportMagnitude ==> DivisionDefined(CasterLevel(caster), settings.magnitudePerLevel)
      requires ValidDraws(settings, baseDraw, plusDraw)
      ensures magnitude == Magnitude(properties, settings, caster, baseDraw, plusDraw)
      ensures !properties.supportMagnitude ==> magnitude == 0
    {
      magnitude := 0;
      if properties.supportMagnitude {
        var casterLevel := CasterLevel(caster);
        var multiplier := TruncDiv(casterLevel, settings.magnitudePerLevel);
        magnitude := Add32(baseDraw, Mul32(plusDraw, multiplier));
      }
    }

    /** Gets the display name, building and storing one from the group names when none is set. */
    method GetDisplayName(noName: string) returns (name: string)
      modifies this`properties
      ensures name == DisplayNameOf(old(properties), noName)
      ensures properties == old(properties).(displayName := name)
      ensures old(properties.displayName) != [] ==> name == old(properties.displayName)
      ensures old(properties.displayName) == [] ==>
        if old(properties.groupName) != [] && old(properties.subGroupName) != [] then
          name == old(properties.groupName) + " " + old(properties.subGroupName)
        else if old(properties.groupName) != [] then name == old(properties.groupName)
        else name == noName
    {
      if properties.displayName != [] {
        return properties.displayName;
      }
      if properties.groupName != [] && properties.subGroupName != [] {
        name := properties.groupName + " " + properties.subGroupName;
      } else if properties.groupName != [] && properties.subGroupName == [] {
        name := properties.groupName;
      } else {
        name := noName;
      }
      properties := properties.(displayName := name);
    }
  }

  // ---------------------------------------------------------------------------
  // Classic keys

  type byte = x: int | 0 <= x < 256

  /**
   * The key as the source writes it, `groupIndex << 8 + subgroupIndex`: `+`
   * binds tighter than `<<`, so the group index is shifted by 8 + subgroup,
   * a count that C# masks to five bits. The key is the group index times 256
   * when the masked count is 8; a multiple of 256 for counts 9 to 31; and the
   * group index shifted by fewer than 8 bits, with no wrap-around, for counts
   * 0 to 7.
   */
  function MakeClassicKey(groupIndex: byte, subgroupIndex: byte): (key: int)
    ensures IsInt32(key)
  {
    ShiftLeft32(groupIndex, 8 + subgroupIndex)
  }

  /** What the key as written is, by the masked shift count (see MakeClassicKey). */
  lemma ClassicKeyShape(g: byte, s: byte)
    ensures s % 32 == 0 ==> MakeClassicKey(g, s) == 256 * g
    ensures 0 < s % 32 < 24 ==> MakeClassicKey(g, s) % 256 == 0
    ensures s % 32 >= 24 ==>
      MakeClassicKey(g, s) == g * Pow2(s % 32 - 24) && 0 <= MakeClassicKey(g, s) <= 128 * g
  {
    var key := MakeClassicKey(g, s);
    var shift := MaskedCount(s);
    ClassicKeyResidue(g, s);
    if s % 32 < 24 {
      ShiftedByteHigh(g, shift, key);
    } else {
      ShiftedByteLow(g, shift, key);
    }
  }

  /** The count `(8 + s) & 31` that the shift uses. */
  lemma MaskedCount(s: byte) returns (shift: nat)
    ensures shift == (8 + s) % 32
    ensures s % 32 < 24 ==> shift == s % 32 + 8
    ensures s % 32 >= 24 ==> shift == s % 32 - 24
  {
    shift := (8 + s) % 32;
  }

  lemma ClassicKeyResidue(g: byte, s: byte)
    ensures (g * Pow2((8 + s) % 32) - MakeClassicKey(g, s)) % TwoTo32 == 0
  {
    assert MakeClassicKey(g, s) == ShiftLeft32(g, 8 + s);
  }

  lemma ShiftedByteHigh(g: byte, shift: nat, key: int)
    requires 8 <= shift < 32
    requires IsInt32(key) && (g * Pow2(shift) - key) % TwoTo32 == 0
    ensures key % 256 == 0
    ensures shift == 8 ==> key == 256 * g
  {
    var p := Pow2(shift - 8);
    Pow2Add(8, shift - 8);
    Pow2Eight();
    var gp := g * p;
    assert g * Pow2(shift) == 256 * gp by {
      assert Pow2(shift) == 256 * p;
      MulShift(g, p);
    }
    LowByteOfWrapped(gp, key);
  }

  lemma Pow2Eight()
    ensures Pow2(7) == 128 && Pow2(8) == 256
  {
  }

  lemma MulShift(g: int, p: int)
    ensures g * (256 * p) == 256 * (g * p)
  {
  }

  lemma ShiftedByteLow(g: byte, shift: nat, key: int)
    requires shift < 8
    requires IsInt32(key) && (g * Pow2(shift) - key) % TwoTo32 == 0
    ensures key == g * Pow2(shift) && 0 <= key <= 128 * g
  {
    var p := Pow2(shift);
    Pow2Monotone(shift, 7);
    Pow2Eight();
    ProductBetween(0, p, 128, g);
    assert g * p <= 128 * g;
    assert 128 * g <= 128 * 255;
    Wrap32Unique(g * p, key);
    Wrap32Unique(g * p, g * p);
  }

  /** A wrapped multiple of 256 is still a multiple of 256. */
  lemma LowByteOfWrapped(y: int, key: int)
    requires IsInt32(key) && (256 * y - key) % TwoTo32 == 0
    ensures key % 256 == 0
    ensures IsInt32(256 * y) ==> key == 256 * y
  {
    var t := (256 * y - key) / TwoTo32;
    assert 256 * y - key == TwoTo32 * t;
    assert key == 256 * (y - 16777216 * t);
    if IsInt32(256 * y) {
      Wrap32Unique(256 * y, key);
      Wrap32Unique(256 * y, 256 * y);
    }
  }

  /**
   * Splits a key into its group index (bits 8 to 15, `(byte)(key >> 8)`) and
   * subgroup index (the low byte, `(byte)(key & 0xff)`). The source spells
   * the name this way.
   */
  function ReverseClasicKey(key: int): (parts: (byte, byte))
    requires IsInt32(key)
    ensures key == 65536 * (key / 65536) + 256 * parts.0 + parts.1
  {
    // On a two's-complement int, `>> 8` is floor division by 256 and a byte
    // cast or `& 0xff` keeps the residue modulo 256.
    ((key / 256) % 256, key % 256)
  }

  /** A key of the form g * 256 + s decodes to (g, s). */
  lemma ClassicKeyDecodes(g: byte, s: byte)
    ensures ReverseClasicKey(256 * g + s) == (g, s)
  {
    var key := 256 * g + s;
    var parts := ReverseClasicKey(key);
    assert key / 65536 == 0;
    assert 256 * parts.0 + parts.1 == 256 * g + s;
  }

  /** The key as written round-trips exactly when the subgroup index is 0. */
  lemma ClassicKeyRoundTripIff(g: byte, s: byte)
    ensures ReverseClasicKey(MakeClassicKey(g, s)) == (g, s) <==> s == 0
  {
    ClassicKeyShape(g, s);
    if s == 0 {
      ClassicKeyDecodes(g, 0);
    } else if s % 32 < 24 {
      LowByteZeroMismatch(g, s, MakeClassicKey(g, s));
    } else {
      SmallKeyMismatch(g, s, MakeClassicKey(g, s));
    }
  }

  lemma LowByteZeroMismatch(g: byte, s: byte, key: int)
    requires s != 0 && IsInt32(key) && key % 256 == 0
    ensures ReverseClasicKey(key) != (g, s)
  {
    assert ReverseClasicKey(key).1 == 0;
  }

  lemma SmallKeyMismatch(g: byte, s: byte, key: int)
    requires s != 0 && 0 <= key <= 128 * g
    ensures ReverseClasicKey(key) != (g, s)
  {
    var parts := ReverseClasicKey(key);
    assert key / 65536 == 0;
    assert 256 * parts.0 + parts.1 == key;
  }

  /** With subgroup 1 the group index is shifted by 9 bits. */
  lemma ClassicKeySubgroupOne(g: byte)
    ensures MakeClassicKey(g, 1) == 512 * g
  {
    var k := MakeClassicKey(g, 1);
    Pow2Add(8, 1);
    Pow2Eight();
    assert (g * Pow2(9) - k) % TwoTo32 == 0;
    Wrap32Unique(512 * g, k);
    Wrap32Unique(512 * g, 512 * g);
  }

  /** The smallest pair on which the key as written fails: (1, 1) encodes to 512, which decodes to (2, 0). */
  lemma ClassicKeyCounterexample()
    ensures MakeClassicKey(1, 1) == 512
    ensures ReverseClasicKey(512) == (2, 0)
  {
    ClassicKeySubgroupOne(1);
  }

  /** The evidently intended key, `(groupIndex << 8) | subgroupIndex`, which for bytes is g * 256 + s. */
  function MakeClassicKeyIntended(groupIndex: byte, subgroupIndex: byte): (key: int)
    ensures 0 <= key < 65536
    ensures ReverseClasicKey(key) == (groupIndex, subgroupIndex)
  {
    ClassicKeyDecodes(groupIndex, subgroupIndex);
    256 * groupIndex + subgroupIndex
  }

  /** Every key of 16 bits is the intended encoding of its decoded pair. */
  lemma IntendedKeyInverse(key: int)
    requires 0 <= key < 65536
    ensures MakeClassicKeyIntended(ReverseClasicKey(key).0, ReverseClasicKey(key).1) == key
  {
    assert key / 65536 == 0;
  }
}
