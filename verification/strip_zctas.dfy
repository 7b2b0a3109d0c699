/**
 * The pruner: deletes a caller-named layer from `objects`, then strips the
 * `properties` field from every geometry of the merged MHA layer.
 */
module StripZctas {
  import opened Results
  import opened TopoJson

  /** Name of the merged MHA layer whose geometries lose their properties. */
  const MhaLayer: string := "us_dod_mha"

  /** The pruner throws when the MHA layer is gone after the deletion. */
  datatype PruneError = MissingMhaLayer

  /** `delete objects[key]`: the key is gone and every other layer is kept. */
  function DeleteObject(objects: map<string, Layer>, key: string): (r: map<string, Layer>)
    ensures key !in r
    ensures SameExcept(objects, r, key)
    ensures key !in objects ==> r == objects
  {
    objects - {key}
  }

  /** Every geometry with its `properties` field deleted, in the same order. */
  function StripProperties(gs: seq<Geometry>): (r: seq<Geometry>)
    ensures |r| == |gs|
    ensures forall i :: 0 <= i < |r| ==> r[i].properties.None? && r[i].fields == gs[i].fields
    decreases |gs|
  {
    if |gs| == 0 then [] else [gs[0].(properties := None)] + StripProperties(gs[1..])
  }

  /** Stripping geometries that have no properties changes nothing. */
  lemma {:induction false} StripPropertiesIdempotent(gs: seq<Geometry>)
    ensures StripProperties(StripProperties(gs)) == StripProperties(gs)
    decreases |gs|
  {
    if |gs| > 0 {
      var r := StripProperties(gs);
      StripPropertiesIdempotent(gs[1..]);
      assert r[1..] == StripProperties(gs[1..]);
      assert r[0].(properties := None) == r[0];
    }
  }

  /** The pruner's work on an already-parsed document. */
  function Prune(doc: Document, key: string): (r: Result<Document, PruneError>)
    ensures r.Err? <==> key == MhaLayer || MhaLayer !in doc.objects
    ensures r.Ok? ==> key !in r.value.objects && MhaLayer in r.value.objects
    ensures r.Ok? ==> r.value.fields == doc.fields
    ensures r.Ok? ==> forall k :: k != key && k != MhaLayer ==>
      (k in r.value.objects <==> k in doc.objects) && (k in doc.objects ==> r.value.objects[k] == doc.objects[k])
    ensures r.Ok? ==>
      var before, after := doc.objects[MhaLayer], r.value.objects[MhaLayer];
      && after.fields == before.fields
      && |after.geometries| == |before.geometries|
      && forall i :: 0 <= i < |after.geometries| ==>
           after.geometries[i].properties.None? && after.geometries[i].fields == before.geometries[i].fields
  {
    var objects := DeleteObject(doc.objects, key);
    if MhaLayer !in objects then Err(MissingMhaLayer)
    else
      var layer := objects[MhaLayer];
      Ok(doc.(objects := objects[MhaLayer := layer.(geometries := StripProperties(layer.geometries))]))
  }

  /** Pruning keeps a well-formed document well-formed, so on such a document
      no geometry of `us_dod_mha` carries `properties` in any form. */
  lemma PruneWellFormed(doc: Document, key: string)
    requires WellFormed(doc) && Prune(doc, key).Ok?
    ensures WellFormed(Prune(doc, key).value)
    ensures forall g :: g in Prune(doc, key).value.objects[MhaLayer].geometries ==>
      g.properties.None? && "properties" !in g.fields
  {
  }

  /** Pruning a pruned document with the same key reproduces it. */
  lemma PruneIdempotent(doc: Document, key: string)
    requires Prune(doc, key).Ok?
    ensures Prune(Prune(doc, key).value, key) == Prune(doc, key)
  {
    var d := Prune(doc, key).value;
    var layer := doc.objects[MhaLayer];
    StripPropertiesIdempotent(layer.geometries);
    assert DeleteObject(d.objects, key) == d.objects;
    var layer2 := d.objects[MhaLayer];
    assert layer2.(geometries := StripProperties(layer2.geometries)) == layer2;
    assert d.objects[MhaLayer := layer2] == d.objects;
  }
}
