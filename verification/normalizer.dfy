/** `TheMealDBClient.parse_meal_data`: a raw recipe record from the recipe API,
    turned into the fields a stored recipe is built from. */
module Normalizer {
  import opened Wrappers
  import opened Text

  /** A record as the API returns it: each key maps to a string or to JSON
      `null`, which is `None` here. A key that is not in the map is absent. */
  type RawRecord = map<string, Option<string>>

  /** The number of indexed ingredient/measure slots the parser visits. */
  const SlotCount: nat := 20

  /** The normaliser's output, before the store assigns an id. Scalar fields
      keep `None` when the record holds `null` under their key. */
  datatype ParsedMeal = ParsedMeal(
    mealId: Option<string>,
    name: Option<string>,
    category: Option<string>,
    area: Option<string>,
    instructions: Option<string>,
    imageUrl: Option<string>,
    youtubeUrl: Option<string>,
    ingredients: seq<string>,
    measures: seq<string>,
    tags: seq<string>)

  /** `m.get(key, default)`. */
  function Lookup(m: RawRecord, key: string, default: Option<string>): Option<string> {
    if key in m then m[key] else default
  }

  /** `(v or '').strip()`. */
  function Clean(v: Option<string>): string {
    match v
    case None => ""
    case Some(s) => Trim(s)
  }

  /** `s.lower() == 'null'`, spelled out letter by letter. */
  predicate IsNullWord(s: string) {
    |s| == 4 && LowerChar(s[0]) == 'n' && LowerChar(s[1]) == 'u'
    && LowerChar(s[2]) == 'l' && LowerChar(s[3]) == 'l'
  }

  lemma IsNullWordIsLowerNull(s: string)
    ensures IsNullWord(s) <==> Lower(s) == "null"
  {
    if |s| == 4 {
      LowerAt(s, 0);
      LowerAt(s, 1);
      LowerAt(s, 2);
      LowerAt(s, 3);
      assert Lower(s) == [LowerChar(s[0]), LowerChar(s[1]), LowerChar(s[2]), LowerChar(s[3])];
    }
  }

  /** A slot value that survives: non-empty and not "null" in any letter case. */
  predicate Present(s: string) {
    s != "" && !IsNullWord(s)
  }

  function IngredientKey(i: nat): string {
    "strIngredient" + NatToString(i)
  }

  function MeasureKey(i: nat): string {
    "strMeasure" + NatToString(i)
  }

  /** The stripped ingredient of slot `i`; "" when absent or null. */
  function SlotIngredient(m: RawRecord, i: nat): string {
    Clean(Lookup(m, IngredientKey(i), Some("")))
  }

  /** The stripped measure of slot `i`; "" when absent, null, empty or "null". */
  function SlotMeasure(m: RawRecord, i: nat): string {
    var t := Clean(Lookup(m, MeasureKey(i), Some("")));
    if Present(t) then t else ""
  }

  predicate KeepsSlot(m: RawRecord, i: nat) {
    Present(SlotIngredient(m, i))
  }

  /** The slots in `from..20` whose ingredient is kept, in increasing order:
      the reference the parser's output is aligned with. */
  function KeptSlots(m: RawRecord, from: nat): (r: seq<nat>)
    ensures forall k :: 0 <= k < |r| ==> from <= r[k] <= SlotCount && KeepsSlot(m, r[k])
    ensures forall k, l :: 0 <= k < l < |r| ==> r[k] < r[l]
    decreases SlotCount + 1 - from
  {
    if from > SlotCount then []
    else if KeepsSlot(m, from) then [from] + KeptSlots(m, from + 1)
    else KeptSlots(m, from + 1)
  }

  /** Every slot from `from` on whose ingredient is present is among the kept slots. */
  lemma {:induction false} KeptSlotsComplete(m: RawRecord, from: nat, i: nat)
    requires from <= i <= SlotCount && KeepsSlot(m, i)
    ensures i in KeptSlots(m, from)
    decreases SlotCount + 1 - from
  {
    var rest := KeptSlots(m, from + 1);
    if i == from {
      assert KeptSlots(m, from) == [from] + rest;
    } else {
      KeptSlotsComplete(m, from + 1, i);
      if KeepsSlot(m, from) {
        assert KeptSlots(m, from) == [from] + rest;
      }
    }
  }

  /** Every entry is a kept ingredient: present and stripped. */
  predicate CleanIngredients(xs: seq<string>) {
    forall k :: 0 <= k < |xs| ==> Present(xs[k]) && IsTrimmed(xs[k])
  }

  /** Every entry is a stripped measure, empty when there was none. */
  predicate CleanMeasures(ys: seq<string>) {
    forall k :: 0 <= k < |ys| ==> IsTrimmed(ys[k]) && (ys[k] == "" || Present(ys[k]))
  }

  /** A kept slot's values extend clean lists to clean lists. */
  lemma SlotExtendsClean(m: RawRecord, i: nat, xs: seq<string>, ys: seq<string>)
    requires KeepsSlot(m, i) && CleanIngredients(xs) && CleanMeasures(ys)
    ensures CleanIngredients([SlotIngredient(m, i)] + xs)
    ensures CleanMeasures([SlotMeasure(m, i)] + ys)
  {
    IngredientExtendsClean(SlotIngredient(m, i), xs);
    MeasureExtendsClean(SlotMeasure(m, i), ys);
  }

  lemma IngredientExtendsClean(g: string, xs: seq<string>)
    requires Present(g) && IsTrimmed(g) && CleanIngredients(xs)
    ensures CleanIngredients([g] + xs)
  {
    forall k | 0 <= k < |xs| + 1 ensures Present(([g] + xs)[k]) && IsTrimmed(([g] + xs)[k]) {
      if k > 0 {
        assert ([g] + xs)[k] == xs[k - 1];
      }
    }
  }

  lemma MeasureExtendsClean(h: string, ys: seq<string>)
    requires IsTrimmed(h) && (h == "" || Present(h)) && CleanMeasures(ys)
    ensures CleanMeasures([h] + ys)
  {
    forall k | 0 <= k < |ys| + 1
      ensures IsTrimmed(([h] + ys)[k]) && (([h] + ys)[k] == "" || Present(([h] + ys)[k]))
    {
      if k > 0 {
        assert ([h] + ys)[k] == ys[k - 1];
      }
    }
  }

  /** The slot loop of the parser from slot `from` on: a kept slot contributes
      its ingredient and its measure together, a skipped slot neither. */
  function CollectSlots(m: RawRecord, from: nat): (r: (seq<string>, seq<string>))
    ensures |r.0| == |r.1|
    ensures from <= SlotCount + 1 ==> |r.0| <= SlotCount + 1 - from
    ensures CleanIngredients(r.0) && CleanMeasures(r.1)
    decreases SlotCount + 1 - from
  {
    if from > SlotCount then ([], [])
    else
      var rest := CollectSlots(m, from + 1);
      if KeepsSlot(m, from) then
        SlotExtendsClean(m, from, rest.0, rest.1);
        ([SlotIngredient(m, from)] + rest.0, [SlotMeasure(m, from)] + rest.1)
      else rest
  }

  /** Every tag is non-empty and stripped. */
  predicate CleanTags(ts: seq<string>) {
    forall k :: 0 <= k < |ts| ==> ts[k] != "" && IsTrimmed(ts[k])
  }

  lemma TagExtendsClean(t: string, ts: seq<string>)
    requires t != "" && IsTrimmed(t) && CleanTags(ts)
    ensures CleanTags([t] + ts)
  {
    forall k | 0 <= k < |ts| + 1 ensures ([t] + ts)[k] != "" && IsTrimmed(([t] + ts)[k]) {
      if k > 0 {
        assert ([t] + ts)[k] == ts[k - 1];
      }
    }
  }

  /** The pieces of a split, stripped, with the empty ones dropped. */
  function KeepTags(pieces: seq<string>): (r: seq<string>)
    ensures |r| <= |pieces|
    ensures CleanTags(r)
  {
    if pieces == [] then []
    else
      var t := Trim(pieces[0]);
      var rest := KeepTags(pieces[1..]);
      if t != "" then
        TagExtendsClean(t, rest);
        [t] + rest
      else rest
  }

  /** No entry holds a comma. */
  predicate NoCommas(ts: seq<string>) {
    forall k :: 0 <= k < |ts| ==> ',' !in ts[k]
  }

  /** Stripping never brings in a character, so comma-free pieces give comma-free tags. */
  lemma {:induction false} KeepTagsNoComma(pieces: seq<string>)
    requires NoCommas(pieces)
    ensures NoCommas(KeepTags(pieces))
  {
    if pieces != [] {
      var t := Trim(pieces[0]);
      var rest := KeepTags(pieces[1..]);
      assert NoCommas(pieces[1..]) by {
        forall k | 0 <= k < |pieces| - 1 ensures ',' !in pieces[1..][k] {
          assert pieces[1..][k] == pieces[k + 1];
        }
      }
      KeepTagsNoComma(pieces[1..]);
      if t != "" {
        assert ',' !in pieces[0];
        TrimIsSlice(pieces[0]);
        assert KeepTags(pieces) == [t] + rest;
        forall k | 0 <= k < |rest| + 1 ensures ',' !in ([t] + rest)[k] {
          if k > 0 {
            assert ([t] + rest)[k] == rest[k - 1];
          }
        }
      }
    }
  }

  /** The tag list built from `strTags`: `[]` when it is absent, null or empty. */
  function ParseTags(v: Option<string>): (r: seq<string>)
    ensures forall k :: 0 <= k < |r| ==> r[k] != "" && IsTrimmed(r[k]) && ',' !in r[k]
  {
    match v
    case None => []
    case Some(s) =>
      if s == "" then []
      else
        KeepTagsNoComma(Split(s, ','));
        KeepTags(Split(s, ','))
  }

  /** `parse_meal_data`. */
  function ParseMealData(m: RawRecord): (p: ParsedMeal)
    ensures |p.ingredients| == |p.measures| <= SlotCount
    ensures forall k :: 0 <= k < |p.ingredients| ==>
              Present(p.ingredients[k]) && IsTrimmed(p.ingredients[k])
    ensures forall k :: 0 <= k < |p.measures| ==>
              IsTrimmed(p.measures[k]) && (p.measures[k] == "" || Present(p.measures[k]))
    ensures p.mealId == Lookup(m, "idMeal", None)
    ensures p.name == Lookup(m, "strMeal", Some(""))
    ensures p.category == Lookup(m, "strCategory", Some(""))
    ensures p.area == Lookup(m, "strArea", Some(""))
    ensures p.instructions == Lookup(m, "strInstructions", Some(""))
    ensures p.imageUrl == Lookup(m, "strMealThumb", Some(""))
    ensures p.youtubeUrl == Lookup(m, "strYoutube", Some(""))
    ensures p.tags == ParseTags(Lookup(m, "strTags", None))
  {
    var slots := CollectSlots(m, 1);
    ParsedMeal(
      Lookup(m, "idMeal", None),
      Lookup(m, "strMeal", Some("")),
      Lookup(m, "strCategory", Some("")),
      Lookup(m, "strArea", Some("")),
      Lookup(m, "strInstructions", Some("")),
      Lookup(m, "strMealThumb", Some("")),
      Lookup(m, "strYoutube", Some("")),
      slots.0,
      slots.1,
      ParseTags(Lookup(m, "strTags", None)))
  }

  /** The stripped ingredients of the given slots, in the given order. */
  function IngredientsOf(m: RawRecord, slots: seq<nat>): (r: seq<string>)
    ensures |r| == |slots|
  {
    if slots == [] then [] else [SlotIngredient(m, slots[0])] + IngredientsOf(m, slots[1..])
  }

  /** The cleaned measures of the given slots, in the given order. */
  function MeasuresOf(m: RawRecord, slots: seq<nat>): (r: seq<string>)
    ensures |r| == |slots|
  {
    if slots == [] then [] else [SlotMeasure(m, slots[0])] + MeasuresOf(m, slots[1..])
  }

  lemma {:induction false} IngredientsAt(m: RawRecord, slots: seq<nat>, k: nat)
    requires k < |slots|
    ensures IngredientsOf(m, slots)[k] == SlotIngredient(m, slots[k])
  {
    if k > 0 {
      var tail := IngredientsOf(m, slots[1..]);
      IngredientsAt(m, slots[1..], k - 1);
      assert IngredientsOf(m, slots) == [SlotIngredient(m, slots[0])] + tail;
      assert slots[1..][k - 1] == slots[k];
    }
  }

  lemma {:induction false} MeasuresAt(m: RawRecord, slots: seq<nat>, k: nat)
    requires k < |slots|
    ensures MeasuresOf(m, slots)[k] == SlotMeasure(m, slots[k])
  {
    if k > 0 {
      var tail := MeasuresOf(m, slots[1..]);
      MeasuresAt(m, slots[1..], k - 1);
      assert MeasuresOf(m, slots) == [SlotMeasure(m, slots[0])] + tail;
      assert slots[1..][k - 1] == slots[k];
    }
  }

  /** The slot loop yields the ingredients and the measures of the kept slots. */
  lemma {:induction false} CollectSlotsAligned(m: RawRecord, from: nat)
    ensures CollectSlots(m, from) == (IngredientsOf(m, KeptSlots(m, from)), MeasuresOf(m, KeptSlots(m, from)))
    decreases SlotCount + 1 - from
  {
    if from <= SlotCount {
      CollectSlotsAligned(m, from + 1);
      var ks := KeptSlots(m, from + 1);
      if KeepsSlot(m, from) {
        assert KeptSlots(m, from) == [from] + ks;
        assert ([from] + ks)[1..] == ks;
      }
    }
  }

  /** Slot alignment of the parser: entry `k` of `ingredients` and of
      `measures` both come from the `k`-th kept slot, the kept slots increase,
      lie in 1..20, and are exactly the slots whose ingredient is present. */
  lemma ParseAlignment(m: RawRecord)
    ensures var p := ParseMealData(m);
            var ks := KeptSlots(m, 1);
            && |ks| == |p.ingredients| == |p.measures|
            && (forall k :: 0 <= k < |ks| ==> 1 <= ks[k] <= SlotCount)
            && (forall k, l :: 0 <= k < l < |ks| ==> ks[k] < ks[l])
            && (forall i :: 1 <= i <= SlotCount ==> (i in ks <==> KeepsSlot(m, i)))
            && (forall k :: 0 <= k < |ks| ==> p.ingredients[k] == SlotIngredient(m, ks[k]))
            && (forall k :: 0 <= k < |ks| ==> p.measures[k] == SlotMeasure(m, ks[k]))
  {
    var ks := KeptSlots(m, 1);
    CollectSlotsAligned(m, 1);
    forall i | 1 <= i <= SlotCount && KeepsSlot(m, i)
      ensures i in ks
    {
      KeptSlotsComplete(m, 1, i);
    }
    forall k | 0 <= k < |ks|
      ensures ParseMealData(m).ingredients[k] == SlotIngredient(m, ks[k])
      ensures ParseMealData(m).measures[k] == SlotMeasure(m, ks[k])
    {
      IngredientsAt(m, ks, k);
      MeasuresAt(m, ks, k);
    }
  }

  /** `m1` and `m2` hold the same thing under `key`. */
  predicate AgreeOn(m1: RawRecord, m2: RawRecord, key: string) {
    Lookup(m1, key, None) == Lookup(m2, key, None) && (key in m1 <==> key in m2)
  }

  /** The keys the parser reads besides the slot keys. */
  const ScalarKeys: set<string> :=
    {"idMeal", "strMeal", "strCategory", "strArea", "strInstructions",
     "strMealThumb", "strYoutube", "strTags"}

  /** `m1` and `m2` agree on every slot key. */
  predicate SlotsAgree(m1: RawRecord, m2: RawRecord) {
    forall i :: 1 <= i <= SlotCount ==> AgreeOn(m1, m2, IngredientKey(i)) && AgreeOn(m1, m2, MeasureKey(i))
  }

  lemma SlotAgrees(m1: RawRecord, m2: RawRecord, i: nat)
    requires AgreeOn(m1, m2, IngredientKey(i)) && AgreeOn(m1, m2, MeasureKey(i))
    ensures SlotIngredient(m1, i) == SlotIngredient(m2, i)
    ensures SlotMeasure(m1, i) == SlotMeasure(m2, i)
    ensures KeepsSlot(m1, i) == KeepsSlot(m2, i)
  {
  }

  lemma {:induction false} CollectSlotsLocal(m1: RawRecord, m2: RawRecord, from: nat)
    requires SlotsAgree(m1, m2) && from >= 1
    ensures CollectSlots(m1, from) == CollectSlots(m2, from)
    decreases SlotCount + 1 - from
  {
    if from <= SlotCount {
      CollectSlotsLocal(m1, m2, from + 1);
      assert AgreeOn(m1, m2, IngredientKey(from)) && AgreeOn(m1, m2, MeasureKey(from));
      SlotAgrees(m1, m2, from);
    }
  }

  /** The parser reads nothing but the eight scalar keys and the slot keys
      1..20: two records that agree there parse alike, whatever else they hold
      (a `strIngredient21`, say). */
  lemma ParseReadsOnlyKnownKeys(m1: RawRecord, m2: RawRecord)
    requires forall i :: 1 <= i <= SlotCount ==>
               AgreeOn(m1, m2, IngredientKey(i)) && AgreeOn(m1, m2, MeasureKey(i))
    requires forall k :: k in ScalarKeys ==> AgreeOn(m1, m2, k)
    ensures ParseMealData(m1) == ParseMealData(m2)
  {
    CollectSlotsLocal(m1, m2, 1);
    assert AgreeOn(m1, m2, "idMeal") && AgreeOn(m1, m2, "strMeal") && AgreeOn(m1, m2, "strCategory");
    assert AgreeOn(m1, m2, "strArea") && AgreeOn(m1, m2, "strInstructions");
    assert AgreeOn(m1, m2, "strMealThumb") && AgreeOn(m1, m2, "strYoutube") && AgreeOn(m1, m2, "strTags");
  }

  lemma CleanTagsTail(ts: seq<string>)
    requires ts != [] && CleanTags(ts)
    ensures ts[0] != "" && IsTrimmed(ts[0]) && CleanTags(ts[1..])
  {
    forall k | 0 <= k < |ts| - 1 ensures ts[1..][k] != "" && IsTrimmed(ts[1..][k]) {
      assert ts[1..][k] == ts[k + 1];
    }
  }

  lemma {:induction false} KeepTagsOfClean(ts: seq<string>)
    requires CleanTags(ts)
    ensures KeepTags(ts) == ts
  {
    if ts != [] {
      CleanTagsTail(ts);
      TrimOfTrimmed(ts[0]);
      KeepTagsOfClean(ts[1..]);
      assert KeepTags(ts) == [ts[0]] + KeepTags(ts[1..]);
      assert ts == [ts[0]] + ts[1..];
    }
  }

  /** Tags round trip: writing a tag list as `strTags` (comma-joined) and
      parsing it gives back the same tags, in order and with duplicates, as
      long as each tag is non-empty, stripped and free of commas. */
  lemma TagsRoundTrip(ts: seq<string>)
    requires forall k :: 0 <= k < |ts| ==> ts[k] != "" && IsTrimmed(ts[k]) && ',' !in ts[k]
    ensures ParseTags(Some(Join(ts, ','))) == ts
  {
    if ts != [] {
      assert Join(ts, ',') != "" by {
        if |ts| == 1 { } else { assert |Join(ts, ',')| >= |ts[0]|; }
      }
      SplitJoin(ts, ',');
      KeepTagsOfClean(ts);
    }
  }

  /** The tags are exactly the stripped non-empty comma pieces of `strTags`;
      since pieces never hold a comma, no tag does. */
  lemma TagsArePieces(s: string)
    requires s != ""
    ensures ParseTags(Some(s)) == KeepTags(Split(s, ','))
    ensures |ParseTags(Some(s))| <= |Split(s, ',')|
    ensures Join(Split(s, ','), ',') == s
  {
    JoinSplit(s, ',');
  }
}
