/** The `image_features` table and the defaulting policy applied to every write
    (models/featureModel.js). */
module FeatureModel {

  import opened Tables
  import opened JsValues

  /** A colour-presence flag as stored: 1 or 0. */
  type Flag = x: int | 0 <= x <= 1

  /** The twelve feature columns of one row. Asymmetry and the five categorical descriptors
      keep whatever truthy value they were given. */
  datatype FeatureRecord = FeatureRecord(
    asymmetry: JsValue,
    pigmentNetwork: JsValue,
    dotsGlobules: JsValue,
    streaks: JsValue,
    regressionAreas: JsValue,
    blueWhitishVeil: JsValue,
    colorWhite: Flag,
    colorRed: Flag,
    colorLightBrown: Flag,
    colorDarkBrown: Flag,
    colorBlueGray: Flag,
    colorBlack: Flag)

  datatype FeatureRow = FeatureRow(id: nat, imageId: nat, record: FeatureRecord)

  const Unknown := Str("unknown")

  /** The keys read from a features object, matched exactly (in lower case). */
  const CategoricalKeys := ["pigment_network", "dots_globules", "streaks", "regression_areas", "blue_whitish_veil"]
  const ColourKeys := ["color_white", "color_red", "color_light_brown", "color_dark_brown", "color_blue_gray", "color_black"]
  const FeatureKeys := ["asymmetry"] + CategoricalKeys + ColourKeys

  /** `v || 'unknown'`. */
  function Categorical(v: JsValue): JsValue { Or(v, Unknown) }

  /** `v ? 1 : 0`. */
  function ColourFlag(v: JsValue): (r: Flag)
    ensures r == 1 <==> Truthy(v)
  {
    if Truthy(v) then 1 else 0
  }

  /** A record that the defaulting policy can have produced: asymmetry truthy or 0, every
      categorical truthy. */
  predicate IsNormalized(r: FeatureRecord) {
    && (Truthy(r.asymmetry) || r.asymmetry == Num(0.0))
    && Truthy(r.pigmentNetwork) && Truthy(r.dotsGlobules) && Truthy(r.streaks)
    && Truthy(r.regressionAreas) && Truthy(r.blueWhitishVeil)
  }

  /** The values bound into the INSERT and into the UPDATE: `asymmetry || 0`, each categorical
      `|| 'unknown'`, each colour flag `? 1 : 0`. Destructuring null or undefined throws, so
      both callers pass an object. */
  function Normalize(features: JsValue): (r: FeatureRecord)
    requires !features.IsNullish()
    ensures IsNormalized(r)
    ensures Truthy(Prop(features, "asymmetry")) ==> r.asymmetry == Prop(features, "asymmetry")
    ensures !Truthy(Prop(features, "asymmetry")) ==> r.asymmetry == Num(0.0)
    ensures Truthy(Prop(features, "pigment_network")) ==> r.pigmentNetwork == Prop(features, "pigment_network")
    ensures !Truthy(Prop(features, "pigment_network")) ==> r.pigmentNetwork == Unknown
    ensures Truthy(Prop(features, "dots_globules")) ==> r.dotsGlobules == Prop(features, "dots_globules")
    ensures !Truthy(Prop(features, "dots_globules")) ==> r.dotsGlobules == Unknown
    ensures Truthy(Prop(features, "streaks")) ==> r.streaks == Prop(features, "streaks")
    ensures !Truthy(Prop(features, "streaks")) ==> r.streaks == Unknown
    ensures Truthy(Prop(features, "regression_areas")) ==> r.regressionAreas == Prop(features, "regression_areas")
    ensures !Truthy(Prop(features, "regression_areas")) ==> r.regressionAreas == Unknown
    ensures Truthy(Prop(features, "blue_whitish_veil")) ==> r.blueWhitishVeil == Prop(features, "blue_whitish_veil")
    ensures !Truthy(Prop(features, "blue_whitish_veil")) ==> r.blueWhitishVeil == Unknown
    ensures r.colorWhite == 1 <==> Truthy(Prop(features, "color_white"))
    ensures r.colorRed == 1 <==> Truthy(Prop(features, "color_red"))
    ensures r.colorLightBrown == 1 <==> Truthy(Prop(features, "color_light_brown"))
    ensures r.colorDarkBrown == 1 <==> Truthy(Prop(features, "color_dark_brown"))
    ensures r.colorBlueGray == 1 <==> Truthy(Prop(features, "color_blue_gray"))
    ensures r.colorBlack == 1 <==> Truthy(Prop(features, "color_black"))
  {
    FeatureRecord(
      Or(Prop(features, "asymmetry"), Num(0.0)),
      Categorical(Prop(features, "pigment_network")),
      Categorical(Prop(features, "dots_globules")),
      Categorical(Prop(features, "streaks")),
      Categorical(Prop(features, "regression_areas")),
      Categorical(Prop(features, "blue_whitish_veil")),
      ColourFlag(Prop(features, "color_white")),
      ColourFlag(Prop(features, "color_red")),
      ColourFlag(Prop(features, "color_light_brown")),
      ColourFlag(Prop(features, "color_dark_brown")),
      ColourFlag(Prop(features, "color_blue_gray")),
      ColourFlag(Prop(features, "color_black")))
  }

  /** The record as a JavaScript object with the column names as keys (the shape of the
      `featureData` literal built by the upload handler). */
  function AsObject(r: FeatureRecord): JsValue {
    Obj(map[
      "asymmetry" := r.asymmetry,
      "pigment_network" := r.pigmentNetwork,
      "dots_globules" := r.dotsGlobules,
      "streaks" := r.streaks,
      "regression_areas" := r.regressionAreas,
      "blue_whitish_veil" := r.blueWhitishVeil,
      "color_white" := Num(r.colorWhite as real),
      "color_red" := Num(r.colorRed as real),
      "color_light_brown" := Num(r.colorLightBrown as real),
      "color_dark_brown" := Num(r.colorDarkBrown as real),
      "color_blue_gray" := Num(r.colorBlueGray as real),
      "color_black" := Num(r.colorBlack as real)])
  }

  /** Normalising an already normalised record gives the same record; in particular an object
      that carries all twelve keys with truthy values and 0/1 colour numbers is stored unchanged. */
  lemma NormalizeIdempotent(r: FeatureRecord)
    requires IsNormalized(r)
    ensures Normalize(AsObject(r)) == r
  {
    ReadsBackDescriptors(r);
    ReadsBackWarmColours(r);
    ReadsBackDarkColours(r);
  }

  lemma ReadsBackDescriptors(r: FeatureRecord)
    ensures var o := AsObject(r);
      && Prop(o, "asymmetry") == r.asymmetry && Prop(o, "pigment_network") == r.pigmentNetwork
      && Prop(o, "dots_globules") == r.dotsGlobules && Prop(o, "streaks") == r.streaks
      && Prop(o, "regression_areas") == r.regressionAreas && Prop(o, "blue_whitish_veil") == r.blueWhitishVeil
  {
  }

  lemma ReadsBackWarmColours(r: FeatureRecord)
    ensures var o := AsObject(r);
      && Prop(o, "color_white") == Num(r.colorWhite as real) && Prop(o, "color_red") == Num(r.colorRed as real)
      && Prop(o, "color_light_brown") == Num(r.colorLightBrown as real)
  {
  }

  lemma ReadsBackDarkColours(r: FeatureRecord)
    ensures var o := AsObject(r);
      && Prop(o, "color_dark_brown") == Num(r.colorDarkBrown as real)
      && Prop(o, "color_blue_gray") == Num(r.colorBlueGray as real) && Prop(o, "color_black") == Num(r.colorBlack as real)
  {
  }

  /** Applying the policy twice is applying it once. */
  lemma NormalizeTwice(features: JsValue)
    requires !features.IsNullish()
    ensures Normalize(AsObject(Normalize(features))) == Normalize(features)
  {
    NormalizeIdempotent(Normalize(features));
  }

  /** The record written when none of the twelve keys is present. */
  const Defaults := FeatureRecord(Num(0.0), Unknown, Unknown, Unknown, Unknown, Unknown, 0, 0, 0, 0, 0, 0)

  /** An object that has none of the expected keys, such as one whose keys are capitalised,
      is stored as all defaults. */
  lemma MissingKeysGiveDefaults(m: map<string, JsValue>)
    requires forall k :: k in FeatureKeys ==> k !in m
    ensures Normalize(Obj(m)) == Defaults
  {
    assert "asymmetry" !in m;
    assert forall k :: k in CategoricalKeys + ColourKeys ==> k !in m;
  }

  /** The `image_features` table, with its auto-increment counter. */
  class FeatureTable {
    var rows: seq<FeatureRow>
    var nextId: nat

    function Ids(): seq<nat>
      reads this
    {
      seq(|rows|, i requires 0 <= i < |rows| reads this => rows[i].id)
    }

    ghost predicate Valid()
      reads this
    {
      1 <= nextId && FreshIds(Ids(), nextId)
    }

    constructor ()
      ensures Valid() && rows == [] && nextId == 1
    {
      rows := [];
      nextId := 1;
    }

    /** `create`: inserts the normalised row for `imageId` and returns its new id. */
    method Create(imageId: nat, features: JsValue) returns (id: nat)
      requires Valid() && !features.IsNullish()
      modifies this
      ensures Valid()
      ensures id == old(nextId) && nextId == id + 1
      ensures rows == old(rows) + [FeatureRow(id, imageId, Normalize(features))]
    {
      id := nextId;
      FreshIdsAppend(Ids(), nextId);
      rows := rows + [FeatureRow(id, imageId, Normalize(features))];
      nextId := nextId + 1;
      assert Ids() == old(Ids()) + [id];
    }

    /** `findByImageId`: the first row for `imageId`, or nothing. */
    function FindByImageId(imageId: nat): (r: Option<FeatureRow>)
      reads this
      ensures r.Some? ==> r.value in rows && r.value.imageId == imageId
      ensures r.Some? ==> exists i :: 0 <= i < |rows| && rows[i] == r.value &&
                            forall j :: 0 <= j < i ==> rows[j].imageId != imageId
      ensures r.None? <==> forall i :: 0 <= i < |rows| ==> rows[i].imageId != imageId
    {
      var k := FirstIndex(rows, (row: FeatureRow) => row.imageId == imageId);
      if k.Some? then Some(rows[k.value]) else None
    }

    /** `update`: overwrites the columns of the row whose id is `featureId` with the normalised
      values and leaves every other row as it was; answers true whether or not a row matched. */
    method Update(featureId: nat, features: JsValue) returns (ok: bool)
      requires Valid() && !features.IsNullish()
      modifies this
      ensures Valid() && nextId == old(nextId) && ok
      ensures |rows| == |old(rows)|
      ensures forall i :: 0 <= i < |rows| && old(rows)[i].id == featureId ==>
                rows[i] == old(rows)[i].(record := Normalize(features))
      ensures forall i :: 0 <= i < |rows| && old(rows)[i].id != featureId ==> rows[i] == old(rows)[i]
    {
      var rec := Normalize(features);
      rows := seq(|rows|, i requires 0 <= i < |rows| reads this =>
        if rows[i].id == featureId then rows[i].(record := rec) else rows[i]);
      assert Ids() == old(Ids());
      ok := true;
    }
  }
}
