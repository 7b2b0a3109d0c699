/**
 * The annotation pass: every geometry of the ZCTA layer is tagged with the MHA
 * its ZIP code is assigned to, or with "unused".
 */
module ImputeRates {
  import opened Results
  import opened TopoJson

  /** Name of the ZCTA layer under `objects`. */
  const ZctaLayer: string := "us_zcta"
  /** Property holding a geometry's 5-digit ZIP code. */
  const ZipKey: string := "GEOID20"
  /** Property the pass writes the MHA id into. */
  const MhaKey: string := "DOD_BAH_MHA"
  /** Tag for a geometry whose ZIP code has no MHA. */
  const Unused: string := "unused"

  /** Why the pass throws: no ZCTA layer, a geometry without `properties`
      (reading `GEOID20` off `undefined`), or no geometry matched at all. */
  datatype AnnotateError = MissingLayer | MissingProperties(index: nat) | NoMatches

  /** The tagged geometries of a pass over a suffix of the layer, and how many matched. */
  datatype Pass = Pass(geometries: seq<Geometry>, matched: nat)

  /** The annotated document and the number of matched geometries. */
  datatype Annotated = Annotated(doc: Document, matched: nat)

  /** The MHA id indexed for the `GEOID20` property, if that property is present,
      is a string, and is a key of the index. */
  function Lookup(props: Properties, zips: map<string, string>): (r: Option<string>)
    ensures r.Some? <==> ZipKey in props && props[ZipKey].Str? && props[ZipKey].s in zips
    ensures r.Some? ==> r.value == zips[props[ZipKey].s]
  {
    if ZipKey in props then
      match props[ZipKey]
      case Str(zip) => if zip in zips then Some(zips[zip]) else None
      case Opaque(_) => None
    else None
  }

  /** The value the pass writes into `DOD_BAH_MHA`. */
  function TagFor(props: Properties, zips: map<string, string>): (tag: string)
    ensures ZipKey in props && props[ZipKey].Str? && props[ZipKey].s in zips ==> tag == zips[props[ZipKey].s]
    ensures !(ZipKey in props && props[ZipKey].Str? && props[ZipKey].s in zips) ==> tag == Unused
  {
    match Lookup(props, zips)
    case Some(mha) => mha
    case None => Unused
  }

  /** Geometry `g` has properties and its ZIP code is in the index. */
  predicate IsMatch(g: Geometry, zips: map<string, string>) {
    g.properties.Some? && Lookup(g.properties.value, zips).Some?
  }

  /** The indices from `i` on whose geometry matches. */
  ghost function MatchedFrom(gs: seq<Geometry>, zips: map<string, string>, i: nat): set<nat> {
    set j: nat | i <= j < |gs| && IsMatch(gs[j], zips)
  }

  /** The loop of the pass over `gs[i..]`, in order: tags each geometry and counts
      the matches; the first geometry without properties aborts the pass. */
  function AnnotateFrom(gs: seq<Geometry>, zips: map<string, string>, i: nat): (r: Result<Pass, AnnotateError>)
    requires i <= |gs|
    ensures r.Ok? <==> forall j :: i <= j < |gs| ==> gs[j].properties.Some?
    ensures r.Err? ==>
      && r.error.MissingProperties? && i <= r.error.index < |gs|
      && gs[r.error.index].properties.None?
      && (forall j :: i <= j < r.error.index ==> gs[j].properties.Some?)
    ensures r.Ok? ==> |r.value.geometries| == |gs| - i && r.value.matched <= |gs| - i
    decreases |gs| - i
  {
    if i == |gs| then Ok(Pass([], 0))
    else
      match gs[i].properties
      case None => Err(MissingProperties(i))
      case Some(props) =>
        var tagged := gs[i].(properties := Some(props[MhaKey := Str(TagFor(props, zips))]));
        var rest :- AnnotateFrom(gs, zips, i + 1);
        Ok(Pass([tagged] + rest.geometries, rest.matched + if Lookup(props, zips).Some? then 1 else 0))
  }

  /** `g'` is `g` with `DOD_BAH_MHA` set to the indexed MHA id of its ZIP code, or
      to "unused": every other property and every other field is kept. */
  ghost predicate TaggedAs(g: Geometry, g': Geometry, zips: map<string, string>) {
    && g.properties.Some? && g'.properties.Some?
    && g'.fields == g.fields
    && var p, p' := g.properties.value, g'.properties.value;
    && MhaKey in p'
    && p'[MhaKey] == Str(if ZipKey in p && p[ZipKey].Str? && p[ZipKey].s in zips then zips[p[ZipKey].s] else Unused)
    && SameExcept(p, p', MhaKey)
  }

  /** The first geometry of a successful pass is the first input geometry, tagged. */
  lemma AnnotateFromHead(gs: seq<Geometry>, zips: map<string, string>, i: nat)
    requires i < |gs| && AnnotateFrom(gs, zips, i).Ok?
    ensures TaggedAs(gs[i], AnnotateFrom(gs, zips, i).value.geometries[0], zips)
    ensures AnnotateFrom(gs, zips, i).value.geometries[1..] == AnnotateFrom(gs, zips, i + 1).value.geometries
    ensures AnnotateFrom(gs, zips, i).value.matched
         == AnnotateFrom(gs, zips, i + 1).value.matched + if IsMatch(gs[i], zips) then 1 else 0
  {
  }

  /** A successful pass tags each geometry in place. */
  lemma {:induction false} AnnotateFromTags(gs: seq<Geometry>, zips: map<string, string>, i: nat)
    requires i <= |gs| && AnnotateFrom(gs, zips, i).Ok?
    ensures forall j :: i <= j < |gs| ==> TaggedAs(gs[j], AnnotateFrom(gs, zips, i).value.geometries[j - i], zips)
    decreases |gs| - i
  {
    if i < |gs| {
      AnnotateFromHead(gs, zips, i);
      AnnotateFromTags(gs, zips, i + 1);
      var p := AnnotateFrom(gs, zips, i).value;
      var rest := AnnotateFrom(gs, zips, i + 1).value;
      forall j | i < j < |gs|
        ensures TaggedAs(gs[j], p.geometries[j - i], zips)
      {
        assert p.geometries[j - i] == rest.geometries[j - (i + 1)];
      }
    }
  }

  /** A successful pass counts exactly the geometries that match. */
  lemma {:induction false} AnnotateFromCount(gs: seq<Geometry>, zips: map<string, string>, i: nat)
    requires i <= |gs| && AnnotateFrom(gs, zips, i).Ok?
    ensures AnnotateFrom(gs, zips, i).value.matched == |MatchedFrom(gs, zips, i)|
    decreases |gs| - i
  {
    if i < |gs| {
      AnnotateFromHead(gs, zips, i);
      AnnotateFromCount(gs, zips, i + 1);
      var now: set<nat> := if IsMatch(gs[i], zips) then {i} else {};
      assert MatchedFrom(gs, zips, i) == now + MatchedFrom(gs, zips, i + 1);
      assert i !in MatchedFrom(gs, zips, i + 1);
    }
  }

  /** Tagging a geometry that is already tagged with the same index changes nothing,
      and does not change whether it matches. */
  lemma {:induction false} AnnotateFromStable(gs: seq<Geometry>, gs2: seq<Geometry>, zips: map<string, string>, i: nat)
    requires i <= |gs| && AnnotateFrom(gs, zips, i).Ok?
    requires |gs2| == |gs|
    requires forall j :: i <= j < |gs| ==> gs2[j] == AnnotateFrom(gs, zips, i).value.geometries[j - i]
    ensures AnnotateFrom(gs2, zips, i) == AnnotateFrom(gs, zips, i)
    decreases |gs| - i
  {
    if i < |gs| {
      var p := AnnotateFrom(gs, zips, i).value;
      var rest := AnnotateFrom(gs, zips, i + 1).value;
      assert p.geometries == [p.geometries[0]] + rest.geometries;
      forall j | i + 1 <= j < |gs|
        ensures gs2[j] == rest.geometries[j - (i + 1)]
      {
        assert p.geometries[j - i] == rest.geometries[j - (i + 1)];
      }
      AnnotateFromStable(gs, gs2, zips, i + 1);
      var props := gs[i].properties.value;
      var props2 := props[MhaKey := Str(TagFor(props, zips))];
      assert gs2[i] == gs[i].(properties := Some(props2));
      assert Lookup(props2, zips) == Lookup(props, zips);
      assert props2[MhaKey := Str(TagFor(props2, zips))] == props2;
    }
  }

  /** The pass over the document's ZCTA layer, then the zero-match check. */
  function Annotate(doc: Document, zips: map<string, string>): (r: Result<Annotated, AnnotateError>)
    ensures r.Ok? ==> r.value.doc.fields == doc.fields
    ensures r.Ok? ==> ZctaLayer in doc.objects && ZctaLayer in r.value.doc.objects
    ensures r.Ok? ==> SameExcept(doc.objects, r.value.doc.objects, ZctaLayer)
    ensures r.Ok? ==> r.value.doc.objects[ZctaLayer].fields == doc.objects[ZctaLayer].fields
    ensures r.Ok? ==> |r.value.doc.objects[ZctaLayer].geometries| == |doc.objects[ZctaLayer].geometries|
    ensures r.Ok? ==> 0 < r.value.matched <= |doc.objects[ZctaLayer].geometries|
    ensures r == Err(MissingLayer) <==> ZctaLayer !in doc.objects
  {
    if ZctaLayer !in doc.objects then Err(MissingLayer)
    else
      var layer := doc.objects[ZctaLayer];
      var pass :- AnnotateFrom(layer.geometries, zips, 0);
      if pass.matched == 0 then Err(NoMatches)
      else Ok(Annotated(doc.(objects := doc.objects[ZctaLayer := layer.(geometries := pass.geometries)]), pass.matched))
  }

  /** Every geometry of the annotated layer is the original geometry, in the same
      position, tagged with its MHA id or "unused"; the count is the number of
      geometries whose ZIP code is in the index. */
  lemma AnnotateTagsEveryGeometry(doc: Document, zips: map<string, string>)
    requires Annotate(doc, zips).Ok?
    ensures var before := doc.objects[ZctaLayer].geometries;
      var after := Annotate(doc, zips).value.doc.objects[ZctaLayer].geometries;
      && |after| == |before|
      && (forall j :: 0 <= j < |before| ==> TaggedAs(before[j], after[j], zips))
      && Annotate(doc, zips).value.matched == |MatchedFrom(before, zips, 0)|
  {
    var gs := doc.objects[ZctaLayer].geometries;
    AnnotateIsPass(doc, zips);
    var p := AnnotateFrom(gs, zips, 0).value;
    var after := Annotate(doc, zips).value.doc.objects[ZctaLayer].geometries;
    AnnotateFromTags(gs, zips, 0);
    AnnotateFromCount(gs, zips, 0);
    forall j | 0 <= j < |gs|
      ensures TaggedAs(gs[j], after[j], zips)
    {
      assert after[j] == p.geometries[j - 0];
    }
  }

  /** A successful annotation carries the geometries and count of its pass. */
  /** Annotating keeps a well-formed document well-formed: no opaque field
      starts to shadow a modelled key. */
  lemma AnnotateWellFormed(doc: Document, zips: map<string, string>)
    requires WellFormed(doc) && Annotate(doc, zips).Ok?
    ensures WellFormed(Annotate(doc, zips).value.doc)
  {
    var out := Annotate(doc, zips).value.doc;
    var before, after := doc.objects[ZctaLayer].geometries, out.objects[ZctaLayer].geometries;
    AnnotateTagsEveryGeometry(doc, zips);
    forall g | g in after
      ensures "properties" !in g.fields
    {
      var j :| 0 <= j < |after| && after[j] == g;
      assert TaggedAs(before[j], after[j], zips);
      assert before[j] in before;
    }
    assert LayerWellFormed(doc.objects[ZctaLayer]);
    assert LayerWellFormed(out.objects[ZctaLayer]);
  }

  lemma AnnotateIsPass(doc: Document, zips: map<string, string>)
    requires Annotate(doc, zips).Ok?
    ensures ZctaLayer in doc.objects && AnnotateFrom(doc.objects[ZctaLayer].geometries, zips, 0).Ok?
    ensures var p := AnnotateFrom(doc.objects[ZctaLayer].geometries, zips, 0).value;
      && Annotate(doc, zips).value.doc.objects[ZctaLayer].geometries == p.geometries
      && Annotate(doc, zips).value.matched == p.matched
  {
  }

  /** The pass fails exactly when the layer is missing, some geometry has no
      properties, or no geometry's ZIP code is in the index; the first failure in
      source order is the one reported. */
  lemma AnnotateFailure(doc: Document, zips: map<string, string>)
    ensures Annotate(doc, zips).Err? <==>
      || ZctaLayer !in doc.objects
      || (exists j :: 0 <= j < |doc.objects[ZctaLayer].geometries| && doc.objects[ZctaLayer].geometries[j].properties.None?)
      || |MatchedFrom(doc.objects[ZctaLayer].geometries, zips, 0)| == 0
    ensures Annotate(doc, zips) == Err(NoMatches) <==>
      && ZctaLayer in doc.objects
      && (forall j :: 0 <= j < |doc.objects[ZctaLayer].geometries| ==> doc.objects[ZctaLayer].geometries[j].properties.Some?)
      && |MatchedFrom(doc.objects[ZctaLayer].geometries, zips, 0)| == 0
  {
    if ZctaLayer in doc.objects {
      var gs := doc.objects[ZctaLayer].geometries;
      if AnnotateFrom(gs, zips, 0).Ok? {
        AnnotateFromCount(gs, zips, 0);
      }
    }
  }

  /** An empty ZCTA layer matches nothing, so the pass fails. */
  lemma EmptyLayerFails(doc: Document, zips: map<string, string>)
    requires ZctaLayer in doc.objects && |doc.objects[ZctaLayer].geometries| == 0
    ensures Annotate(doc, zips) == Err(NoMatches)
  {
    AnnotateFailure(doc, zips);
  }

  /** Annotating an annotated document with the same index reproduces it, with the
      same count. */
  lemma AnnotateIdempotent(doc: Document, zips: map<string, string>)
    requires Annotate(doc, zips).Ok?
    ensures Annotate(Annotate(doc, zips).value.doc, zips) == Annotate(doc, zips)
  {
    var a := Annotate(doc, zips).value;
    var layer := doc.objects[ZctaLayer];
    var p := AnnotateFrom(layer.geometries, zips, 0).value;
    var layer2 := a.doc.objects[ZctaLayer];
    assert layer2 == layer.(geometries := p.geometries);
    AnnotateFromStable(layer.geometries, p.geometries, zips, 0);
    assert layer2.(geometries := p.geometries) == layer2;
    assert a.doc.objects[ZctaLayer := layer2] == a.doc.objects;
  }
}
