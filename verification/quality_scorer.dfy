/**
 * The quality scorer. Free-text specifications are normalised per category
 * into numeric features; a weighted scorecard turns the features into a
 * 0-100 quality score; the user rating then scales it into the final score.
 */
module QualityScorer {
  import opened Base
  import opened Chars
  import opened Dicts
  import opened Numbers
  import Regex

  /** A product's specifications: free-text values by attribute name. */
  type Specs = Dict<string, string>

  /** Feature name and the maximum points it can earn, in table order. */
  type Scorecard = seq<(string, real)>

  /** Normalised features of one product. */
  type Features = map<string, real>

  const HeadphonesCard: Scorecard := [("battery_life", 30.0), ("driver_size", 25.0),
    ("noise_cancellation", 20.0), ("build_quality", 15.0), ("frequency_response", 10.0)]
  const TrimmerCard: Scorecard := [("runtime", 30.0), ("blade_material", 25.0),
    ("waterproof", 20.0), ("attachments", 15.0), ("charging_time", 10.0)]
  const MixerCard: Scorecard := [("power_output", 30.0), ("jar_count", 25.0),
    ("speed_settings", 20.0), ("warranty", 15.0), ("safety_features", 10.0)]
  const SmartphoneCard: Scorecard := [("camera", 25.0), ("battery", 25.0),
    ("processor", 20.0), ("ram", 15.0), ("storage", 15.0)]
  const LaptopCard: Scorecard := [("processor", 30.0), ("ram", 25.0),
    ("storage", 20.0), ("display", 15.0), ("battery", 10.0)]
  const ClothingCard: Scorecard := [("material", 30.0), ("fit", 25.0),
    ("durability", 20.0), ("comfort", 15.0), ("design", 10.0)]
  const GeneralCard: Scorecard := [("quality", 40.0), ("features", 30.0),
    ("durability", 20.0), ("value", 10.0)]

  /** Share of a feature's points awarded when the feature is missing. */
  const MissingShare: real := 0.6

  /** Score returned when the computation fails. */
  const FallbackScore: real := 60.0

  /** The only feature for which a lower value is better. */
  const InvertedFeature: string := "charging_time"

  /** The saturation value of each feature. Categories without an entry
      (laptop, clothing, general and any custom one) have none. */
  function ReferenceValues(category: string): map<string, real> {
    if category == "headphones" then
      map["battery_life" := 40.0, "driver_size" := 50.0, "noise_cancellation" := 1.0,
          "build_quality" := 5.0, "frequency_response" := 40000.0]
    else if category == "trimmer" then
      map["runtime" := 120.0, "blade_material" := 5.0, "waterproof" := 1.0,
          "attachments" := 10.0, "charging_time" := 8.0]
    else if category == "mixer" then
      map["power_output" := 1000.0, "jar_count" := 5.0, "speed_settings" := 10.0,
          "warranty" := 5.0, "safety_features" := 5.0]
    else if category == "smartphone" then
      map["camera" := 108.0, "battery" := 5000.0, "processor" := 5.0,
          "ram" := 12.0, "storage" := 256.0]
    else map[]
  }

  /** Every reference value is positive, so no division by zero can come from
      the reference table. */
  lemma ReferenceValuesPositive(category: string, feature: string)
    requires feature in ReferenceValues(category)
    ensures ReferenceValues(category)[feature] > 0.0
  {
  }

  /** The scorer's registry of scorecards by category. It always holds the
      `general` scorecard, which unknown categories fall back to. */
  datatype ScorerState = ScorerState(cards: map<string, Scorecard>)

  type Scorer = s: ScorerState | "general" in s.cards witness ScorerState(map["general" := GeneralCard])

  const BuiltinCategories: set<string> :=
    {"headphones", "trimmer", "mixer", "smartphone", "laptop", "clothing", "general"}

  /** A freshly constructed scorer with the seven built-in scorecards. */
  function NewScorer(): (s: Scorer)
    ensures s.cards.Keys == BuiltinCategories
  {
    ScorerState(map["headphones" := HeadphonesCard, "trimmer" := TrimmerCard,
                    "mixer" := MixerCard, "smartphone" := SmartphoneCard,
                    "laptop" := LaptopCard, "clothing" := ClothingCard,
                    "general" := GeneralCard])
  }

  function TotalWeight(card: Scorecard): real {
    if |card| == 0 then 0.0 else card[0].1 + TotalWeight(card[1..])
  }

  /** Every built-in scorecard hands out 100 points in all. */
  lemma BuiltinWeightsSumTo100(category: string)
    requires category in BuiltinCategories
    ensures TotalWeight(NewScorer().cards[category]) == 100.0
  {
  }

  /** `get_category_scorecard`: the category's scorecard, else `general`'s. */
  function GetCategoryScorecard(s: Scorer, category: string): (card: Scorecard)
    ensures category in s.cards ==> card == s.cards[category]
    ensures category !in s.cards ==> card == s.cards["general"]
  {
    if category in s.cards then s.cards[category] else s.cards["general"]
  }

  /** `add_custom_scorecard`: registers or replaces exactly one category. */
  function AddCustomScorecard(s: Scorer, category: string, card: Scorecard): (s': Scorer)
    ensures s'.cards.Keys == s.cards.Keys + {category}
    ensures s'.cards[category] == card
    ensures forall c :: c in s.cards && c != category ==> s'.cards[c] == s.cards[c]
  {
    ScorerState(s.cards[category := card])
  }

  /** After registration the scorer hands out the new scorecard for that
      category and nothing changes for the others. */
  lemma AddThenGet(s: Scorer, category: string, card: Scorecard, other: string)
    ensures GetCategoryScorecard(AddCustomScorecard(s, category, card), category) == card
    ensures other != category && other in s.cards ==>
              GetCategoryScorecard(AddCustomScorecard(s, category, card), other) == GetCategoryScorecard(s, other)
  {
  }

  // ---------------------------------------------------------------------
  // Normalisation

  function LowerAll(xs: seq<string>): (r: seq<string>)
    ensures |r| == |xs|
  {
    seq(|xs|, i requires 0 <= i < |xs| => LowerStr(xs[i]))
  }

  /** `' '.join(str(v).lower() for v in specs.values())`. */
  function SpecsText(sp: Specs): string {
    Join(LowerAll(Values(sp)), " ")
  }

  /** `specs.get(a, specs.get(b, ''))`. */
  function GetEither(sp: Specs, a: string, b: string): (v: string)
    ensures HasKey(sp, a) ==> Get(sp, a) == Some(v)
    ensures !HasKey(sp, a) && HasKey(sp, b) ==> Get(sp, b) == Some(v)
    ensures !HasKey(sp, a) && !HasKey(sp, b) ==> v == ""
  {
    match Get(sp, a)
    case Some(v) => v
    case None => Get(sp, b).GetOr("")
  }

  /** The patterns of `_extract_numeric_value` tried in order on the lower-cased
      text; a value is multiplied by 1000 when "khz" occurs anywhere in it. */
  function FirstUnitMatch(t: string, units: seq<string>, khz: bool): (r: Option<real>)
    ensures r.Some? ==> r.value >= 0.0
  {
    if |units| == 0 then None
    else
      match Regex.Search(Regex.UnitPattern(units[0]), t)
      case Some(c) =>
        (match ParseFloat(c)
         case Some(v) => Some(if khz then v * 1000.0 else v)
         case None => FirstUnitMatch(t, units[1..], khz))
      case None => FirstUnitMatch(t, units[1..], khz)
  }

  /** `_extract_numeric_value(text, patterns)` where each pattern is
      `(\d+)\s*unit` (`(\d+)` for the empty unit). */
  function ExtractNumeric(text: string, units: seq<string>): (r: Option<real>)
    ensures text == "" ==> r == None
    ensures r.Some? ==> r.value >= 0.0
  {
    if text == "" then None
    else
      var t := LowerStr(text);
      FirstUnitMatch(t, units, Contains(t, "khz"))
  }

  /** Reference reading of `_extract_numeric_value`: the value of the first
      maximal digit run followed by optional whitespace and the first unit
      that has one, scaled by 1000 when "khz" occurs in the text. */
  function ScanNumeric(t: string, units: seq<string>, khz: bool): Option<real> {
    if |units| == 0 then None
    else
      match Regex.ScanUnit(t, units[0], 0)
      case Some(c) => Some(DigitsValue(c) as real * (if khz then 1000.0 else 1.0))
      case None => ScanNumeric(t, units[1..], khz)
  }

  lemma {:induction false} FirstUnitMatchIsScan(t: string, units: seq<string>, khz: bool)
    requires forall i :: 0 <= i < |units| ==> Regex.ValidUnit(units[i])
    ensures FirstUnitMatch(t, units, khz) == ScanNumeric(t, units, khz)
    decreases |units|
  {
    if |units| > 0 {
      Regex.UnitSearchIsScan(units[0], t, 0);
      match Regex.ScanUnit(t, units[0], 0)
      case Some(c) =>
        assert ParseFloat(c) == Some(DigitsValue(c) as real);
      case None =>
        FirstUnitMatchIsScan(t, units[1..], khz);
    }
  }

  /** The regular-expression search finds the first digit run followed by the
      unit: extraction is the reference scan of the lower-cased text. */
  lemma ExtractNumericIsScan(text: string, units: seq<string>)
    requires text != ""
    requires forall i :: 0 <= i < |units| ==> Regex.ValidUnit(units[i])
    ensures ExtractNumeric(text, units)
            == ScanNumeric(LowerStr(text), units, Contains(LowerStr(text), "khz"))
  {
    FirstUnitMatchIsScan(LowerStr(text), units, Contains(LowerStr(text), "khz"));
  }

  /** Whether `f` holds `key` as `if value: normalized[key] = value` leaves a
      fresh dictionary: with the value when it is present and non-zero,
      otherwise not at all. */
  predicate Recorded(f: Features, key: string, v: Option<real>) {
    if v.Some? && v.value != 0.0 then key in f && f[key] == v.value else key !in f
  }

  /** The reference reading of a specification value: nothing for an empty
      value, otherwise the reference scan of its lower-cased text. */
  function ScanValue(text: string, units: seq<string>): Option<real> {
    if text == "" then None
    else ScanNumeric(LowerStr(text), units, Contains(LowerStr(text), "khz"))
  }

  /** A feature measured by `_extract_numeric_value` holds the reference
      reading of its value. */
  lemma MeasuredIsScan(f: Features, key: string, text: string, units: seq<string>)
    requires forall i :: 0 <= i < |units| ==> Regex.ValidUnit(units[i])
    requires Recorded(f, key, ExtractNumeric(text, units))
    ensures Recorded(f, key, ScanValue(text, units))
  {
    if text != "" {
      ExtractNumericIsScan(text, units);
    }
  }

  /** `if value: normalized[key] = value`: a missing or zero value is dropped. */
  function Record(f: Features, key: string, v: Option<real>): (f': Features)
    ensures f'.Keys <= f.Keys + {key}
    ensures key in f' && key !in f ==> v == Some(f'[key]) && f'[key] != 0.0
    ensures key !in f ==> Recorded(f', key, v)
    ensures v.Some? && v.value != 0.0 ==> key in f' && f'[key] == v.value
    ensures !(v.Some? && v.value != 0.0) ==> f' == f
    ensures forall k :: k != key ==> (k in f' <==> k in f)
    ensures forall k :: k != key && k in f ==> f'[k] == f[k]
  {
    if v.Some? && v.value != 0.0 then f[key := v.value] else f
  }

  /** Recording under another key keeps what was recorded. */
  lemma RecordKeeps(f: Features, key: string, v: Option<real>, other: string, w: Option<real>)
    requires other != key && Recorded(f, other, w)
    ensures Recorded(Record(f, key, v), other, w)
  {
  }

  /** Two features recorded, under distinct keys new to `f0`, onto `f0`:
      each is recorded and every feature of `f0` keeps its value. */
  lemma RecordTwo(f0: Features, k1: string, v1: Option<real>, k2: string, v2: Option<real>)
    requires k1 != k2 && k1 !in f0 && k2 !in f0
    ensures var f := Record(Record(f0, k1, v1), k2, v2);
            f.Keys <= f0.Keys + {k1, k2} && Recorded(f, k1, v1) && Recorded(f, k2, v2)
            && forall k :: k in f0 ==> k in f && f[k] == f0[k]
  {
    var f1 := Record(f0, k1, v1);
    RecordKeeps(f1, k2, v2, k1, v1);
  }

  /** Three features recorded, under distinct keys new to `f0`, onto `f0`:
      each is recorded and every feature of `f0` keeps its value. */
  lemma RecordThree(f0: Features, k1: string, v1: Option<real>, k2: string, v2: Option<real>,
                    k3: string, v3: Option<real>)
    requires k1 != k2 && k1 != k3 && k2 != k3 && k1 !in f0 && k2 !in f0 && k3 !in f0
    ensures var f := Record(Record(Record(f0, k1, v1), k2, v2), k3, v3);
            f.Keys <= f0.Keys + {k1, k2, k3} && Recorded(f, k1, v1) && Recorded(f, k2, v2) && Recorded(f, k3, v3)
            && forall k :: k in f0 ==> k in f && f[k] == f0[k]
  {
    var f1 := Record(f0, k1, v1);
    var f2 := Record(f1, k2, v2);
    RecordTwo(f0, k1, v1, k2, v2);
    RecordKeeps(f2, k3, v3, k1, v1);
    RecordKeeps(f2, k3, v3, k2, v2);
  }

  /** An ordinal read from vocabulary: 5 for a premium word, otherwise 2 for a
      basic word, otherwise 3; premium words are looked for first. */
  function Ordinal(text: string, premium: seq<string>, basic: seq<string>): (v: real)
    ensures v in {2.0, 3.0, 5.0}
    ensures ContainsAny(text, premium) ==> v == 5.0
    ensures !ContainsAny(text, premium) && ContainsAny(text, basic) ==> v == 2.0
    ensures !ContainsAny(text, premium) && !ContainsAny(text, basic) ==> v == 3.0
  {
    if ContainsAny(text, premium) then 5.0 else if ContainsAny(text, basic) then 2.0 else 3.0
  }

  /** 1 when a keyword occurs, else 0: the feature is never missing. */
  function Flag(text: string, keywords: seq<string>): (v: real)
    ensures v == 1.0 <==> ContainsAny(text, keywords)
    ensures v == 0.0 <==> !ContainsAny(text, keywords)
  {
    if ContainsAny(text, keywords) then 1.0 else 0.0
  }

  const NoiseKeywords: seq<string> := ["noise cancellation", "anc", "active noise"]
  const BuildPremium: seq<string> := ["metal", "aluminum", "premium", "steel"]
  const BuildBasic: seq<string> := ["plastic", "basic"]
  const WaterKeywords: seq<string> := ["waterproof", "water resistant", "ipx"]
  const FabricPremium: seq<string> := ["cotton", "silk", "wool", "linen", "organic"]
  const FabricBasic: seq<string> := ["polyester", "synthetic", "blend"]

  /** A measurement read only when one of its two keys is present: then it
      is the number extracted from the value `specs.get(a, specs.get(b))`. */
  function KeyedValue(sp: Specs, a: string, b: string, units: seq<string>): (r: Option<real>)
    ensures r.Some? ==> (HasKey(sp, a) || HasKey(sp, b)) && r.value >= 0.0
    ensures HasKey(sp, a) || HasKey(sp, b) ==> r == ExtractNumeric(GetEither(sp, a, b), units)
  {
    if HasKey(sp, a) || HasKey(sp, b) then ExtractNumeric(GetEither(sp, a, b), units) else None
  }

  lemma HeadphoneKeysDistinct()
    ensures "battery_life" != "driver_size" && "battery_life" != "frequency_response"
    ensures "driver_size" != "frequency_response"
    ensures "noise_cancellation" != "battery_life" && "noise_cancellation" != "driver_size"
    ensures "noise_cancellation" != "frequency_response"
    ensures "build_quality" != "battery_life" && "build_quality" != "driver_size"
    ensures "build_quality" != "frequency_response" && "noise_cancellation" != "build_quality"
  {
    assert "battery_life"[0] != "driver_size"[0] && "battery_life"[0] != "frequency_response"[0];
    assert "driver_size"[0] != "frequency_response"[0];
    assert "noise_cancellation"[0] != "battery_life"[0] && "noise_cancellation"[0] != "driver_size"[0];
    assert "noise_cancellation"[0] != "frequency_response"[0];
    assert "build_quality"[1] != "battery_life"[1] && "build_quality"[0] != "driver_size"[0];
    assert "build_quality"[0] != "frequency_response"[0];
    assert "noise_cancellation"[0] != "build_quality"[0];
  }

  /** `_normalize_headphones_specs`: noise cancellation and build quality
      read from the text of all values, battery life and driver size
      measured only when one of their keys is present, and the frequency
      response measured from its value. */
  function NormalizeHeadphones(sp: Specs): (f: Features)
    ensures f.Keys <= {"battery_life", "driver_size", "noise_cancellation", "build_quality", "frequency_response"}
    ensures "noise_cancellation" in f && f["noise_cancellation"] in {0.0, 1.0}
    ensures "build_quality" in f && f["build_quality"] in {2.0, 3.0, 5.0}
    ensures "battery_life" in f ==> (HasKey(sp, "battery_life") || HasKey(sp, "Battery Life")) && f["battery_life"] > 0.0
    ensures "driver_size" in f ==> (HasKey(sp, "driver_size") || HasKey(sp, "Driver Size")) && f["driver_size"] > 0.0
    ensures "frequency_response" in f ==> f["frequency_response"] > 0.0
    ensures f["noise_cancellation"] == Flag(SpecsText(sp), NoiseKeywords)
    ensures f["build_quality"] == Ordinal(SpecsText(sp), BuildPremium, BuildBasic)
    ensures Recorded(f, "battery_life", KeyedValue(sp, "battery_life", "Battery Life", ["h"]))
    ensures Recorded(f, "driver_size", KeyedValue(sp, "driver_size", "Driver Size", ["mm"]))
    ensures Recorded(f, "frequency_response",
                     ExtractNumeric(GetEither(sp, "frequency_response", "Frequency Response"), ["hz", "khz"]))
  {
    var text := SpecsText(sp);
    var noise := Flag(text, NoiseKeywords);
    var build := Ordinal(text, BuildPremium, BuildBasic);
    var battery := KeyedValue(sp, "battery_life", "Battery Life", ["h"]);
    var driver := KeyedValue(sp, "driver_size", "Driver Size", ["mm"]);
    var response := ExtractNumeric(GetEither(sp, "frequency_response", "Frequency Response"), ["hz", "khz"]);
    var f0 := map["noise_cancellation" := noise, "build_quality" := build];
    HeadphoneKeysDistinct();
    RecordThree(f0, "battery_life", battery, "driver_size", driver, "frequency_response", response);
    Record(Record(Record(f0, "battery_life", battery), "driver_size", driver), "frequency_response", response)
  }

  /** Blade material: 5 for stainless steel or titanium, else 4 for steel,
      else 4 for ceramic, else 3. */
  function BladeQuality(text: string): (v: real)
    ensures v in {3.0, 4.0, 5.0}
    ensures (Contains(text, "stainless steel") || Contains(text, "titanium")) <==> v == 5.0
    ensures v == 3.0 <==> !Contains(text, "stainless steel") && !Contains(text, "titanium")
                          && !Contains(text, "steel") && !Contains(text, "ceramic")
  {
    if Contains(text, "stainless steel") || Contains(text, "titanium") then 5.0
    else if Contains(text, "steel") then 4.0
    else if Contains(text, "ceramic") then 4.0
    else 3.0
  }

  /** `_normalize_trimmer_specs`: blade material and waterproofing read from
      the text of all values; runtime and attachments measured from their
      values. */
  function NormalizeTrimmer(sp: Specs): (f: Features)
    ensures f.Keys <= {"runtime", "blade_material", "waterproof", "attachments"}
    ensures "blade_material" in f && f["blade_material"] in {3.0, 4.0, 5.0}
    ensures "waterproof" in f && f["waterproof"] in {0.0, 1.0}
    ensures "runtime" in f ==> f["runtime"] > 0.0
    ensures "attachments" in f ==> f["attachments"] > 0.0
    ensures f["blade_material"] == BladeQuality(SpecsText(sp))
    ensures f["waterproof"] == Flag(SpecsText(sp), WaterKeywords)
    ensures Recorded(f, "runtime", ExtractNumeric(GetEither(sp, "runtime", "Battery Life"), ["min"]))
    ensures Recorded(f, "attachments", ExtractNumeric(GetEither(sp, "attachments", "Accessories"), [""]))
  {
    var text := SpecsText(sp);
    var runtime := ExtractNumeric(GetEither(sp, "runtime", "Battery Life"), ["min"]);
    var attachments := ExtractNumeric(GetEither(sp, "attachments", "Accessories"), [""]);
    var f0: Features := map["blade_material" := BladeQuality(text),
                            "waterproof" := Flag(text, WaterKeywords)];
    assert "runtime"[0] != "blade_material"[0] && "runtime"[0] != "waterproof"[0];
    assert "attachments"[0] != "blade_material"[0] && "attachments"[0] != "waterproof"[0];
    RecordTwo(f0, "runtime", runtime, "attachments", attachments);
    Record(Record(f0, "runtime", runtime), "attachments", attachments)
  }

  /** `_normalize_mixer_specs`: power, jar count and speed settings, each
      measured from its value. */
  function NormalizeMixer(sp: Specs): (f: Features)
    ensures f.Keys <= {"power_output", "jar_count", "speed_settings"}
    ensures forall k :: k in f ==> f[k] > 0.0
    ensures Recorded(f, "power_output", ExtractNumeric(GetEither(sp, "power", "Power"), ["w"]))
    ensures Recorded(f, "jar_count", ExtractNumeric(GetEither(sp, "jars", "Jars"), [""]))
    ensures Recorded(f, "speed_settings", ExtractNumeric(GetEither(sp, "speeds", "Speed Settings"), [""]))
  {
    var power := ExtractNumeric(GetEither(sp, "power", "Power"), ["w"]);
    var jars := ExtractNumeric(GetEither(sp, "jars", "Jars"), [""]);
    var speeds := ExtractNumeric(GetEither(sp, "speeds", "Speed Settings"), [""]);
    assert "power_output"[0] != "jar_count"[0] && "power_output"[0] != "speed_settings"[0];
    assert "jar_count"[0] != "speed_settings"[0];
    RecordThree(map[], "power_output", power, "jar_count", jars, "speed_settings", speeds);
    Record(Record(Record(map[], "power_output", power), "jar_count", jars), "speed_settings", speeds)
  }

  /** `_normalize_smartphone_specs`: camera, battery and RAM, each measured
      from its value. */
  function NormalizeSmartphone(sp: Specs): (f: Features)
    ensures f.Keys <= {"camera", "battery", "ram"}
    ensures forall k :: k in f ==> f[k] > 0.0
    ensures Recorded(f, "camera", ExtractNumeric(GetEither(sp, "camera", "Camera"), ["mp"]))
    ensures Recorded(f, "battery", ExtractNumeric(GetEither(sp, "battery", "Battery"), ["mah"]))
    ensures Recorded(f, "ram", ExtractNumeric(GetEither(sp, "ram", "RAM"), ["gb"]))
  {
    var camera := ExtractNumeric(GetEither(sp, "camera", "Camera"), ["mp"]);
    var battery := ExtractNumeric(GetEither(sp, "battery", "Battery"), ["mah"]);
    var ram := ExtractNumeric(GetEither(sp, "ram", "RAM"), ["gb"]);
    assert "camera"[0] != "battery"[0] && "camera"[0] != "ram"[0] && "battery"[0] != "ram"[0];
    RecordThree(map[], "camera", camera, "battery", battery, "ram", ram);
    Record(Record(Record(map[], "camera", camera), "battery", battery), "ram", ram)
  }

  /** `_normalize_clothing_specs`: the material rated from the text of all
      values. */
  function NormalizeClothing(sp: Specs): (f: Features)
    ensures f.Keys == {"material"}
    ensures f["material"] in {2.0, 3.0, 5.0}
    ensures f["material"] == Ordinal(SpecsText(sp), FabricPremium, FabricBasic)
  {
    map["material" := Ordinal(SpecsText(sp), FabricPremium, FabricBasic)]
  }

  /** `_normalize_general_specs`: three fixed defaults and the number of
      specification entries. */
  function NormalizeGeneral(sp: Specs): (f: Features)
    ensures f.Keys == {"quality", "features", "durability", "value"}
    ensures f["quality"] == f["durability"] == f["value"] == 3.0
    ensures f["features"] == |sp| as real
  {
    map["quality" := 3.0, "features" := |sp| as real, "durability" := 3.0, "value" := 3.0]
  }

  /** Every measured headphone feature is the reference reading of its
      value; battery life and driver size only when one of their keys is
      present. */
  lemma HeadphonesAreScans(sp: Specs)
    ensures Recorded(NormalizeHeadphones(sp), "battery_life",
                     if HasKey(sp, "battery_life") || HasKey(sp, "Battery Life")
                     then ScanValue(GetEither(sp, "battery_life", "Battery Life"), ["h"]) else None)
    ensures Recorded(NormalizeHeadphones(sp), "driver_size",
                     if HasKey(sp, "driver_size") || HasKey(sp, "Driver Size")
                     then ScanValue(GetEither(sp, "driver_size", "Driver Size"), ["mm"]) else None)
    ensures Recorded(NormalizeHeadphones(sp), "frequency_response",
                     ScanValue(GetEither(sp, "frequency_response", "Frequency Response"), ["hz", "khz"]))
  {
    HeadphoneBatteryIsScan(sp);
    HeadphoneDriverIsScan(sp);
    var f := NormalizeHeadphones(sp);
    MeasuredIsScan(f, "frequency_response", GetEither(sp, "frequency_response", "Frequency Response"), ["hz", "khz"]);
  }

  lemma HeadphoneBatteryIsScan(sp: Specs)
    ensures Recorded(NormalizeHeadphones(sp), "battery_life",
                     if HasKey(sp, "battery_life") || HasKey(sp, "Battery Life")
                     then ScanValue(GetEither(sp, "battery_life", "Battery Life"), ["h"]) else None)
  {
    KeyedIsScan(NormalizeHeadphones(sp), "battery_life", sp, "battery_life", "Battery Life", ["h"]);
  }

  lemma HeadphoneDriverIsScan(sp: Specs)
    ensures Recorded(NormalizeHeadphones(sp), "driver_size",
                     if HasKey(sp, "driver_size") || HasKey(sp, "Driver Size")
                     then ScanValue(GetEither(sp, "driver_size", "Driver Size"), ["mm"]) else None)
  {
    KeyedIsScan(NormalizeHeadphones(sp), "driver_size", sp, "driver_size", "Driver Size", ["mm"]);
  }

  /** A feature measured only when one of its keys is present holds the
      reference reading of the keyed value, or nothing. */
  lemma KeyedIsScan(f: Features, key: string, sp: Specs, a: string, b: string, units: seq<string>)
    requires forall i :: 0 <= i < |units| ==> Regex.ValidUnit(units[i])
    requires Recorded(f, key, KeyedValue(sp, a, b, units))
    ensures Recorded(f, key, if HasKey(sp, a) || HasKey(sp, b) then ScanValue(GetEither(sp, a, b), units) else None)
  {
    if HasKey(sp, a) || HasKey(sp, b) {
      MeasuredIsScan(f, key, GetEither(sp, a, b), units);
    }
  }

  /** Runtime and attachments of a trimmer are the reference readings of
      their values. */
  lemma TrimmerAreScans(sp: Specs)
    ensures var f := NormalizeTrimmer(sp);
            Recorded(f, "runtime", ScanValue(GetEither(sp, "runtime", "Battery Life"), ["min"]))
            && Recorded(f, "attachments", ScanValue(GetEither(sp, "attachments", "Accessories"), [""]))
  {
    var f := NormalizeTrimmer(sp);
    MeasuredIsScan(f, "runtime", GetEither(sp, "runtime", "Battery Life"), ["min"]);
    MeasuredIsScan(f, "attachments", GetEither(sp, "attachments", "Accessories"), [""]);
  }

  /** Power, jar count and speed settings of a mixer are the reference
      readings of their values. */
  lemma MixerAreScans(sp: Specs)
    ensures var f := NormalizeMixer(sp);
            Recorded(f, "power_output", ScanValue(GetEither(sp, "power", "Power"), ["w"]))
            && Recorded(f, "jar_count", ScanValue(GetEither(sp, "jars", "Jars"), [""]))
            && Recorded(f, "speed_settings", ScanValue(GetEither(sp, "speeds", "Speed Settings"), [""]))
  {
    var f := NormalizeMixer(sp);
    MeasuredIsScan(f, "power_output", GetEither(sp, "power", "Power"), ["w"]);
    MeasuredIsScan(f, "jar_count", GetEither(sp, "jars", "Jars"), [""]);
    MeasuredIsScan(f, "speed_settings", GetEither(sp, "speeds", "Speed Settings"), [""]);
  }

  /** Camera, battery and RAM of a smartphone are the reference readings of
      their values. */
  lemma SmartphoneAreScans(sp: Specs)
    ensures var f := NormalizeSmartphone(sp);
            Recorded(f, "camera", ScanValue(GetEither(sp, "camera", "Camera"), ["mp"]))
            && Recorded(f, "battery", ScanValue(GetEither(sp, "battery", "Battery"), ["mah"]))
            && Recorded(f, "ram", ScanValue(GetEither(sp, "ram", "RAM"), ["gb"]))
  {
    var f := NormalizeSmartphone(sp);
    MeasuredIsScan(f, "camera", GetEither(sp, "camera", "Camera"), ["mp"]);
    MeasuredIsScan(f, "battery", GetEither(sp, "battery", "Battery"), ["mah"]);
    MeasuredIsScan(f, "ram", GetEither(sp, "ram", "RAM"), ["gb"]);
  }

  /** `_normalize_specs`: dispatch on the (already resolved) category; the
      laptop normaliser produces nothing and any other category is general. */
  function Normalize(sp: Specs, category: string): (f: Features)
    ensures category == "headphones" ==> f == NormalizeHeadphones(sp)
    ensures category == "trimmer" ==> f == NormalizeTrimmer(sp)
    ensures category == "mixer" ==> f == NormalizeMixer(sp)
    ensures category == "smartphone" ==> f == NormalizeSmartphone(sp)
    ensures category == "laptop" ==> f == map[]
    ensures category == "clothing" ==> f == NormalizeClothing(sp)
    ensures category !in BuiltinCategories ==> f == NormalizeGeneral(sp)
  {
    if category == "headphones" then NormalizeHeadphones(sp)
    else if category == "trimmer" then NormalizeTrimmer(sp)
    else if category == "mixer" then NormalizeMixer(sp)
    else if category == "smartphone" then NormalizeSmartphone(sp)
    else if category == "laptop" then map[]
    else if category == "clothing" then NormalizeClothing(sp)
    else NormalizeGeneral(sp)
  }

  // ---------------------------------------------------------------------
  // Scoring

  /** The share of its reference value a feature reaches, capped at 1. */
  function Share(value: real, ref: real): (t: real)
    requires ref != 0.0
    ensures t <= 1.0
    ensures ref > 0.0 && value >= 0.0 ==> t >= 0.0
    ensures ref > 0.0 && value >= ref ==> t == 1.0
  {
    assert ref > 0.0 && value >= ref ==> value / ref >= 1.0;
    Min(value / ref, 1.0)
  }

  lemma ShareMonotone(v1: real, v2: real, ref: real)
    requires v1 <= v2 && ref > 0.0
    ensures Share(v1, ref) <= Share(v2, ref)
  {
    DivMonotone(v1, v2, ref);
  }

  /** Points for a share of the reference value: the weight times the share,
      or times its complement for the inverted feature. */
  function SharePoints(inverted: bool, weight: real, t: real): (p: real)
    ensures weight >= 0.0 && 0.0 <= t <= 1.0 ==> 0.0 <= p <= weight
    ensures t == 1.0 ==> p == (if inverted then 0.0 else weight)
    ensures t == 0.0 ==> p == (if inverted then weight else 0.0)
  {
    ShareBounds(weight, t);
    var earned := weight * t;
    if inverted then weight - earned else earned
  }

  lemma ShareBounds(weight: real, t: real)
    ensures weight >= 0.0 && 0.0 <= t <= 1.0 ==> 0.0 <= weight * t <= weight
  {
    if weight >= 0.0 && 0.0 <= t <= 1.0 {
      ShareOf(weight, weight, t);
    }
  }

  /** A larger share never earns fewer points, except for the inverted
      feature, where it never earns more. */
  lemma SharePointsMonotone(inverted: bool, weight: real, t1: real, t2: real)
    requires weight >= 0.0 && t1 <= t2
    ensures !inverted ==> SharePoints(inverted, weight, t1) <= SharePoints(inverted, weight, t2)
    ensures inverted ==> SharePoints(inverted, weight, t1) >= SharePoints(inverted, weight, t2)
  {
    MulLeftMonotone(weight, t1, t2);
    var a := SharePoints(inverted, weight, t1);
    var b := SharePoints(inverted, weight, t2);
    var m1 := weight * t1;
    var m2 := weight * t2;
    assert m1 <= m2;
    assert a == if inverted then weight - m1 else m1;
    assert b == if inverted then weight - m2 else m2;
    if inverted { assert a >= b; } else { assert a <= b; }
  }

  /** Points a present feature earns against a non-zero reference value. */
  function PresentPoints(inverted: bool, weight: real, value: real, ref: real): real
    requires ref != 0.0
  {
    SharePoints(inverted, weight, Share(value, ref))
  }

  /** More of an ordinary feature never earns fewer points, and more of the
      inverted one never earns more. */
  lemma PresentPointsMonotone(inverted: bool, weight: real, v1: real, v2: real, ref: real)
    requires weight >= 0.0 && v1 <= v2 && ref > 0.0
    ensures !inverted ==> PresentPoints(inverted, weight, v1, ref) <= PresentPoints(inverted, weight, v2, ref)
    ensures inverted ==> PresentPoints(inverted, weight, v1, ref) >= PresentPoints(inverted, weight, v2, ref)
  {
    ShareMonotone(v1, v2, ref);
    SharePointsMonotone(inverted, weight, Share(v1, ref), Share(v2, ref));
  }

  /** Points one scorecard feature earns; `None` is the division by zero the
      source would catch. A present feature is measured against its reference
      value, or against 1 when the table has none; a missing feature earns 60%
      of its weight. */
  function FeaturePoints(feature: string, weight: real, f: Features, refs: map<string, real>): (p: Option<real>)
    ensures feature !in f ==> p == Some(MissingShare * weight)
    ensures p.None? <==> feature in f && feature in refs && refs[feature] == 0.0
    ensures feature in f && feature !in refs ==> p == Some(PresentPoints(feature == InvertedFeature, weight, f[feature], 1.0))
    ensures feature in f && feature in refs && refs[feature] != 0.0
            ==> p == Some(PresentPoints(feature == InvertedFeature, weight, f[feature], refs[feature]))
  {
    if feature in f then
      var ref := if feature in refs then refs[feature] else 1.0;
      if ref == 0.0 then None
      else Some(PresentPoints(feature == InvertedFeature, weight, f[feature], ref))
    else Some(MissingShare * weight)
  }

  /** Sum of the points over a scorecard, in order; `None` if any fails. */
  function TotalPoints(card: Scorecard, f: Features, refs: map<string, real>): Option<real> {
    if |card| == 0 then Some(0.0)
    else
      var p :- FeaturePoints(card[0].0, card[0].1, f, refs);
      var rest :- TotalPoints(card[1..], f, refs);
      Some(p + rest)
  }

  function Clamp(x: real): (r: real)
    ensures 0.0 <= r <= 100.0
    ensures 0.0 <= x <= 100.0 ==> r == x
  {
    Max(0.0, Min(100.0, x))
  }

  /** The category a product is scored under: its own when it has a
      scorecard, else `general`. */
  function ResolveCategory(s: Scorer, category: string): (c: string)
    ensures c in s.cards
  {
    if category in s.cards then category else "general"
  }

  /** `calculate_quality_score`. */
  function QualityScore(s: Scorer, sp: Specs, category: string): (q: real)
    ensures 0.0 <= q <= 100.0
    ensures TotalWeight(s.cards[ResolveCategory(s, category)]) == 0.0 ==> q == FallbackScore
  {
    var cat := ResolveCategory(s, category);
    var card := s.cards[cat];
    var total := TotalPoints(card, Normalize(sp, cat), ReferenceValues(cat));
    var maxPoints := TotalWeight(card);
    if total.None? || maxPoints == 0.0 then FallbackScore
    else Clamp(total.value / maxPoints * 100.0)
  }

  /** An unknown category is scored exactly as `general`. */
  lemma UnknownCategoryIsGeneral(s: Scorer, sp: Specs, category: string)
    requires category !in s.cards
    ensures QualityScore(s, sp, category) == QualityScore(s, sp, "general")
  {
  }

  /** A scorecard none of whose features was found earns 60% of its total. */
  lemma {:induction false} AllMissing(card: Scorecard, f: Features, refs: map<string, real>)
    requires forall i :: 0 <= i < |card| ==> card[i].0 !in f
    ensures TotalPoints(card, f, refs) == Some(MissingShare * TotalWeight(card))
    decreases |card|
  {
    if |card| > 0 {
      AllMissing(card[1..], f, refs);
    }
  }

  /** A feature found at or above its reference value (and not inverted)
      earns its full weight. */
  lemma FullPoints(feature: string, weight: real, f: Features, refs: map<string, real>)
    requires feature in f && feature != InvertedFeature
    requires feature in refs ==> 0.0 < refs[feature] <= f[feature]
    requires feature !in refs ==> f[feature] >= 1.0
    ensures FeaturePoints(feature, weight, f, refs) == Some(weight)
  {
  }

  /** The laptop normaliser finds nothing, so every laptop scores 60 with the
      built-in laptop scorecard, whatever its specifications. */
  lemma LaptopScoresSixty(s: Scorer, sp: Specs)
    requires "laptop" in s.cards && s.cards["laptop"] == LaptopCard
    ensures QualityScore(s, sp, "laptop") == 60.0
  {
    AllMissing(LaptopCard, map[], ReferenceValues("laptop"));
  }

  /** Clothing reads only the material, which is always at least the implicit
      reference 1, so every clothing product scores 72 with the built-in
      clothing scorecard. */
  lemma ClothingScoresSeventyTwo(s: Scorer, sp: Specs)
    requires "clothing" in s.cards && s.cards["clothing"] == ClothingCard
    ensures QualityScore(s, sp, "clothing") == 72.0
  {
    var f := Normalize(sp, "clothing");
    var refs := ReferenceValues("clothing");
    assert refs == map[];
    assert "material" != InvertedFeature;
    FullPoints("material", 30.0, f, refs);
    var rest := ClothingCard[1..];
    assert rest == [("fit", 25.0), ("durability", 20.0), ("comfort", 15.0), ("design", 10.0)];
    AllMissing(rest, f, refs);
    BuiltinWeightsSumTo100("clothing");
    assert TotalWeight(rest) == 70.0;
    assert TotalPoints(ClothingCard, f, refs) == Some(72.0);
  }

  /** With the built-in general scorecard a product with at least one
      specification scores 100 and one without any scores 70. */
  lemma GeneralScore(s: Scorer, sp: Specs)
    requires s.cards["general"] == GeneralCard
    ensures QualityScore(s, sp, "general") == if |sp| > 0 then 100.0 else 70.0
  {
    var f := Normalize(sp, "general");
    var refs := ReferenceValues("general");
    assert refs == map[];
    var c := GeneralCard;
    assert "quality" != InvertedFeature && "features" != InvertedFeature;
    assert "durability" != InvertedFeature && "value" != InvertedFeature;
    FullPoints("quality", 40.0, f, refs);
    FullPoints("durability", 20.0, f, refs);
    FullPoints("value", 10.0, f, refs);
    var featurePoints := if |sp| > 0 then 30.0 else 0.0;
    assert FeaturePoints("features", 30.0, f, refs) == Some(featurePoints);
    assert c[3..] == [("value", 10.0)];
    assert TotalPoints(c[3..], f, refs) == Some(10.0);
    assert c[2..] == [("durability", 20.0)] + c[3..];
    assert TotalPoints(c[2..], f, refs) == Some(30.0);
    assert c[1..] == [("features", 30.0)] + c[2..];
    assert TotalPoints(c[1..], f, refs) == Some(featurePoints + 30.0);
    assert TotalPoints(c, f, refs) == Some(70.0 + featurePoints);
  }

  /** Without specifications the headphone normaliser finds only the two
      features it always records, at their defaults. */
  lemma EmptyHeadphonesFeatures()
    ensures NormalizeHeadphones([]) == map["noise_cancellation" := 0.0, "build_quality" := 3.0]
  {
    var sp: Specs := [];
    assert SpecsText(sp) == "";
    assert !ContainsAny("", NoiseKeywords) by { NothingInEmpty(NoiseKeywords); }
    assert !ContainsAny("", BuildPremium) by { NothingInEmpty(BuildPremium); }
    assert !ContainsAny("", BuildBasic) by { NothingInEmpty(BuildBasic); }
    assert !HasKey(sp, "battery_life") && !HasKey(sp, "Battery Life");
    assert !HasKey(sp, "driver_size") && !HasKey(sp, "Driver Size");
    assert GetEither(sp, "frequency_response", "Frequency Response") == "";
  }

  lemma NothingInEmpty(ps: seq<string>)
    requires forall i :: 0 <= i < |ps| ==> |ps[i]| > 0
    ensures !ContainsAny("", ps)
  {
  }

  /** Headphones without specifications: no measurement, no noise
      cancellation, middling build quality, which gives 48. */
  lemma EmptyHeadphonesScoreFortyEight(s: Scorer)
    requires "headphones" in s.cards && s.cards["headphones"] == HeadphonesCard
    ensures QualityScore(s, [], "headphones") == 48.0
  {
    EmptyHeadphonesFeatures();
    var f := Normalize([], "headphones");
    assert f == map["noise_cancellation" := 0.0, "build_quality" := 3.0];
    EmptyHeadphonesPoints(f);
  }

  /** The headphone scorecard on the two default features totals 48 points. */
  lemma EmptyHeadphonesPoints(f: Features)
    requires f == map["noise_cancellation" := 0.0, "build_quality" := 3.0]
    ensures TotalPoints(HeadphonesCard, f, ReferenceValues("headphones")) == Some(48.0)
  {
    var refs := ReferenceValues("headphones");
    var c := HeadphonesCard;
    assert "noise_cancellation" != InvertedFeature && "build_quality" != InvertedFeature;
    assert "battery_life" !in f && "driver_size" !in f && "frequency_response" !in f;
    assert FeaturePoints("noise_cancellation", 20.0, f, refs) == Some(0.0);
    assert Share(3.0, 5.0) == 0.6;
    assert FeaturePoints("build_quality", 15.0, f, refs) == Some(9.0);
    assert c[4..] == [("frequency_response", 10.0)];
    assert TotalPoints(c[4..], f, refs) == Some(6.0);
    assert c[3..] == [("build_quality", 15.0)] + c[4..];
    assert TotalPoints(c[3..], f, refs) == Some(15.0);
    assert c[2..] == [("noise_cancellation", 20.0)] + c[3..];
    assert TotalPoints(c[2..], f, refs) == Some(15.0);
    assert c[1..] == [("driver_size", 25.0)] + c[2..];
    assert TotalPoints(c[1..], f, refs) == Some(30.0);
    assert TotalPoints(c, f, refs) == Some(48.0);
  }

  /** `calculate_final_score`: the quality score scaled by rating / 5 and
      rounded to two places. `None` stands for a rating the arithmetic fails
      on, which falls back to 80% of the quality score. */
  function FinalScore(q: real, rating: Option<real>): (r: real)
    ensures rating.None? ==> r == q * 0.8
    ensures rating == Some(5.0) ==> r == Round(q, 2)
    ensures rating == Some(0.0) ==> r == 0.0
  {
    match rating
    case Some(x) =>
      RoundGrid(0, 2);
      Round(RatingScaled(q, x), 2)
    case None => q * 0.8
  }

  /** The quality score times rating / 5. */
  function RatingScaled(q: real, rating: real): real {
    q * (rating / 5.0)
  }

  /** A quality score in [0,100] with a rating in [0,5] gives a final score
      in [0,100]. */
  lemma FinalScoreBounds(q: real, rating: real)
    requires 0.0 <= q <= 100.0 && 0.0 <= rating <= 5.0
    ensures 0.0 <= FinalScore(q, Some(rating)) <= 100.0
  {
    var x := RatingScaled(q, rating);
    ShareOf(100.0, q, rating / 5.0);
    assert Pow10(2) == 100;
    assert 0 as real / Pow10(2) as real == 0.0;
    assert 10000 as real / Pow10(2) as real == 100.0;
    RoundBetween(x, 0, 10000, 2);
  }

  /** With a non-negative rating, a better quality score never gives a worse
      final score, and with a non-negative quality score neither does a
      better rating. */
  lemma FinalScoreMonotone(q1: real, q2: real, r1: real, r2: real)
    requires 0.0 <= q1 <= q2 && 0.0 <= r1 <= r2
    ensures FinalScore(q1, Some(r1)) <= FinalScore(q2, Some(r2))
  {
    var a, b := RatingScaled(q1, r1), RatingScaled(q2, r2);
    ScaledMonotone(q1, q2, r1, r2);
    assert a <= b;
    RoundMonotone(a, b, 2);
    assert FinalScore(q1, Some(r1)) == Round(a, 2);
    assert FinalScore(q2, Some(r2)) == Round(b, 2);
  }

  lemma ScaledMonotone(q1: real, q2: real, r1: real, r2: real)
    requires 0.0 <= q1 <= q2 && 0.0 <= r1 <= r2
    ensures RatingScaled(q1, r1) <= RatingScaled(q2, r2)
  {
    var t1 := r1 / 5.0;
    var t2 := r2 / 5.0;
    DivMonotone(0.0, r1, 5.0);
    DivMonotone(r1, r2, 5.0);
    assert 0.0 <= t1 <= t2;
    MulLeftMonotone(t1, q1, q2);
    assert t1 * q1 <= t1 * q2;
    MulLeftMonotone(q2, t1, t2);
    assert q2 * t1 <= q2 * t2;
    assert RatingScaled(q1, r1) == q1 * t1;
    assert RatingScaled(q2, r2) == q2 * t2;
  }

  /** The case of the unit tests: quality 80 with rating 4.5 gives 72. */
  lemma FinalScoreExample()
    ensures FinalScore(80.0, Some(4.5)) == 72.0
  {
    assert RatingScaled(80.0, 4.5) == 7200 as real / 100 as real;
    assert Pow10(2) == 100;
    RoundGrid(7200, 2);
  }
}
