/**
 * The parts of a parsed TopoJSON document the scripts touch. Everything they
 * never inspect (arcs, transforms, geometry types and coordinates, ids) is kept
 * as opaque fields so that "nothing else changes" can be stated.
 */
module TopoJson {
  import opened Results

  /** A JSON value. Only strings matter here: a ZIP lookup against a map keyed by
      strings can hit only a string. Every other JSON value is an opaque token. */
  datatype Value = Str(s: string) | Opaque(token: nat)

  /** A `properties` object: string keys to JSON values. */
  type Properties = map<string, Value>

  /** One geometry of a layer: its `properties` object, when it has one, and all
      its other fields. */
  datatype Geometry = Geometry(properties: Option<Properties>, fields: map<string, Value>)

  /** A geometry collection: its `geometries` array and its other fields. */
  datatype Layer = Layer(geometries: seq<Geometry>, fields: map<string, Value>)

  /** A document: its `objects` map of named layers and its other top-level fields.
      Every entry of `objects` is a geometry collection; a single geometry stored
      directly under `objects` is not representable. */
  datatype Document = Document(objects: map<string, Layer>, fields: map<string, Value>)

  /** The opaque fields of a layer and of its geometries do not repeat the keys
      the model keeps in their own slots. */
  ghost predicate LayerWellFormed(layer: Layer) {
    && "geometries" !in layer.fields
    && forall g :: g in layer.geometries ==> "properties" !in g.fields
  }

  /** A document whose opaque fields never shadow `objects`, `geometries` or
      `properties`, so each of those keys lives only in its own slot. */
  ghost predicate WellFormed(doc: Document) {
    && "objects" !in doc.fields
    && forall name :: name in doc.objects ==> LayerWellFormed(doc.objects[name])
  }

  /** `m2` agrees with `m1` on every key other than `except`. */
  ghost predicate SameExcept<V>(m1: map<string, V>, m2: map<string, V>, except: string) {
    forall k :: k != except ==> (k in m1 <==> k in m2) && (k in m1 ==> m1[k] == m2[k])
  }
}
