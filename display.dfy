/**
 * The small pure helpers the result page uses to show predictions and
 * feature maps: the emoji of a class label, the top three predictions, the
 * readable form of a label, and the title of a child layer.
 */
module Display {
  import opened Wrappers
  import opened Layers

  /** The 50 class labels of the ESC-50 data set that have an emoji of their own. */
  const Esc50Labels: set<string> := {
    "dog", "rain", "crying_baby", "door_wood_knock", "helicopter",
    "rooster", "sea_waves", "sneezing", "mouse_click", "chainsaw",
    "pig", "crackling_fire", "clapping", "keyboard_typing", "siren",
    "cow", "crickets", "breathing", "door_wood_creaks", "car_horn",
    "frog", "chirping_birds", "coughing", "can_opening", "engine",
    "cat", "water_drops", "footsteps", "washing_machine", "train",
    "hen", "wind", "laughing", "vacuum_cleaner", "church_bells",
    "insects", "pouring_water", "brushing_teeth", "clock_alarm", "airplane",
    "sheep", "toilet_flush", "snoring", "clock_tick", "fireworks",
    "crow", "thunderstorm", "drinking_sipping", "glass_breaking", "hand_saw"
  }

  /**
   * `ESC50_EMOJI_MAP`: one glyph per label. The glyph bytes are not
   * modelled; each entry is a placeholder that names its label.
   */
  const Esc50EmojiMap: map<string, string> := map l | l in Esc50Labels :: "<" + l + ">"

  /** The fallback glyph, U+1F508 SPEAKER. */
  const Speaker: string := "\U{1F508}"

  /**
   * `ESC50_EMOJI_MAP[className] || fallback`: a missing key gives
   * `undefined` and an empty string is falsy; both fall back to the speaker.
   */
  function EmojiForClass(className: string): string {
    if className in Esc50EmojiMap && Esc50EmojiMap[className] != "" then Esc50EmojiMap[className]
    else Speaker
  }

  /** No table entry is falsy, and none is the fallback glyph. */
  lemma TableGlyphsAreTruthy(className: string)
    requires className in Esc50EmojiMap
    ensures Esc50EmojiMap[className] != ""
    ensures Esc50EmojiMap[className] != Speaker
  {
    assert |Esc50EmojiMap[className]| >= 2;
  }

  /**
   * The lookup gives the table's entry for a known label and the speaker
   * exactly for every other label; it never gives the empty string.
   */
  lemma EmojiLookup(className: string)
    ensures className in Esc50EmojiMap ==> EmojiForClass(className) == Esc50EmojiMap[className]
    ensures EmojiForClass(className) == Speaker <==> className !in Esc50EmojiMap
    ensures EmojiForClass(className) != ""
  {
    if className in Esc50EmojiMap {
      TableGlyphsAreTruthy(className);
    }
  }

  /** A prediction as the API sends it; the confidence is taken as a real. */
  datatype Prediction = Prediction(className: string, confidence: real)

  /** `predictions.slice(0, 3)`. */
  function TopPredictions(predictions: seq<Prediction>): (shown: seq<Prediction>)
    ensures |shown| == if |predictions| < 3 then |predictions| else 3
    ensures shown == predictions[..|shown|]
  {
    if |predictions| < 3 then predictions else predictions[..3]
  }

  /** The API lists predictions from the most to the least confident. */
  ghost predicate ByConfidence(predictions: seq<Prediction>) {
    forall i, j :: 0 <= i < j < |predictions| ==> predictions[j].confidence <= predictions[i].confidence
  }

  /**
   * When the API keeps its promised order, no hidden prediction is more
   * confident than a shown one.
   */
  lemma TopAreMostConfident(predictions: seq<Prediction>, i: nat, j: nat)
    requires ByConfidence(predictions)
    requires i < |TopPredictions(predictions)| <= j < |predictions|
    ensures predictions[j].confidence <= TopPredictions(predictions)[i].confidence
  {
  }

  /** `pred.class.replaceAll("_", " ")`: the readable class label. */
  function UnderscoresToSpaces(className: string): (text: string)
    ensures |text| == |className|
    ensures forall k :: 0 <= k < |className| ==>
      text[k] == if className[k] == '_' then ' ' else className[k]
  {
    if className == [] then []
    else [if className[0] == '_' then ' ' else className[0]] + UnderscoresToSpaces(className[1..])
  }

  /**
   * The readable label has no underscore left, is a fixed point, and leaves
   * a label without underscores as it is.
   */
  lemma UnderscoresGone(className: string)
    ensures '_' !in UnderscoresToSpaces(className)
    ensures UnderscoresToSpaces(UnderscoresToSpaces(className)) == UnderscoresToSpaces(className)
    ensures '_' !in className ==> UnderscoresToSpaces(className) == className
  {
    var text := UnderscoresToSpaces(className);
    assert forall k :: 0 <= k < |text| ==> text[k] != '_';
  }

  /** Whether `pat` occurs in `s` at index `i`. */
  predicate OccursAt(s: string, pat: string, i: nat) {
    i + |pat| <= |s| && s[i..i + |pat|] == pat
  }

  /** The first index at or after `from` where `pat` occurs, as `indexOf` finds it. */
  function IndexOfFrom(s: string, pat: string, from: nat): (r: Option<nat>)
    ensures r.Some? ==> from <= r.value && OccursAt(s, pat, r.value)
    ensures r.Some? ==> forall i :: from <= i < r.value ==> !OccursAt(s, pat, i)
    ensures r.None? ==> forall i :: from <= i ==> !OccursAt(s, pat, i)
    decreases |s| - from
  {
    if from + |pat| > |s| then None
    else if s[from..from + |pat|] == pat then Some(from)
    else IndexOfFrom(s, pat, from + 1)
  }

  /**
   * `s.replace(pat, rep)` with a string pattern: only the first occurrence.
   * JavaScript also expands `$&`, `$$`, `` $` `` and `$'` inside `rep`, so this
   * is `replace` only for a `rep` without `$`, such as the `""` of the one use.
   */
  function ReplaceFirst(s: string, pat: string, rep: string): (r: string)
    ensures IndexOfFrom(s, pat, 0).None? ==> r == s
    ensures IndexOfFrom(s, pat, 0).Some? ==>
      var i := IndexOfFrom(s, pat, 0).value;
      s == s[..i] + pat + s[i + |pat|..] && r == s[..i] + rep + s[i + |pat|..]
  {
    match IndexOfFrom(s, pat, 0)
    case None => s
    case Some(i) => s[..i] + rep + s[i + |pat|..]
  }

  /** ``layerName.replace(`${mainName}.`, "")``: the title of a child feature map. */
  function ChildTitle(mainName: string, layerName: string): string {
    ReplaceFirst(layerName, mainName + ".", "")
  }

  /**
   * For a name that starts with `mainName + "."` the replacement removes
   * exactly that prefix: the first occurrence is the one at index 0.
   */
  lemma ChildTitleDropsPrefix(mainName: string, layerName: string)
    requires |mainName| + 1 <= |layerName| && layerName[..|mainName| + 1] == mainName + "."
    ensures ChildTitle(mainName, layerName) == layerName[|mainName| + 1..]
    ensures mainName + "." + ChildTitle(mainName, layerName) == layerName
  {
    var pat := mainName + ".";
    assert OccursAt(layerName, pat, 0);
    assert IndexOfFrom(layerName, pat, 0) == Some(0);
    assert layerName[..|pat|] + layerName[|pat|..] == layerName;
  }

  /**
   * Every child the page lists under `mainName` is titled by what follows
   * the first '.' of its name.
   */
  lemma ChildTitlesOfGroup<D>(entries: seq<Entry<D>>, mainName: string, j: nat)
    requires j < |Pick(entries, ChildOf(mainName))|
    ensures var name := Pick(entries, ChildOf(mainName))[j].0;
      mainName + "." + ChildTitle(mainName, name) == name
    ensures var name := Pick(entries, ChildOf(mainName))[j].0;
      ChildTitle(mainName, name) == JoinWithDot(SplitOnDot(name)[1..])
  {
    var name := Pick(entries, ChildOf(mainName))[j].0;
    ChildrenStartWithParent(entries, mainName, j);
    ChildTitleDropsPrefix(mainName, name);
    var parts := SplitOnDot(name);
    PickedAreSelected(entries, ChildOf(mainName), j);
    assert name == mainName + "." + JoinWithDot(parts[1..]);
    assert name[|mainName| + 1..] == JoinWithDot(parts[1..]);
  }
}
