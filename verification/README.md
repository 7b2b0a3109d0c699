# bah-rate-map: ZIP-to-MHA join and TopoJSON pruning, in Dafny

This project models the data transformations in two command-line scripts. The
scripts prepare TopoJSON maps of Military Housing Areas (MHAs), the regions
used to set the Basic Allowance for Housing:

- **The assignment loader** (`loadMHAAssignmentData` in `impute-rates.js`). It
  reads a text of `<zip> <mha-id>` lines and builds two things: the set of MHA
  ids, and a map from ZIP code to MHA id.
- **The annotator** (`buildAugmentedZCTAData` in `impute-rates.js`). It tags
  every geometry of the `us_zcta` layer with `properties.DOD_BAH_MHA`. The tag
  is the MHA id indexed for the geometry's `properties.GEOID20`, or `"unused"`
  when there is none. It counts the matches and throws when there are none.
- **The pruner** (`mainWork` in `strip-zctas.js`). It deletes a caller-named
  layer from `objects`. It then deletes `properties` from every geometry of the
  `us_dod_mha` layer.

Files:

- `results.dfy`: the `Option` and `Result` wrappers. A thrown JavaScript error
  becomes an `Err`.
- `text_split.dfy`: the two string splits the loader uses. `SplitOn` is
  `s.split(c)` for one character `c`, and `Join` is its inverse. `SplitLines`
  is `text.split(/\r?\n/)`. `RegexLines` is that same split written as a
  left-to-right regular-expression scan, and a lemma proves the two equal.
- `mha_assignments.dfy`: the loader and its properties.
- `topojson.dfy`: the parts of a parsed document that the scripts touch. Every
  other field is kept as an opaque value, so "nothing else changes" can be
  stated.
- `impute_rates.dfy`: the annotator.
- `strip_zctas.dfy`: the pruner.
- `example.dfy`: a worked example. The lines `12345 R1`, `67890 R1` and
  `11111 R2` load into two MHAs. ZCTAs 12345, 67890 and 99999 are then tagged
  `R1`, `R1` and `"unused"`, with 2 matches.

Blank lines are not skipped: the code splits on `\r?\n` and checks every
piece, so an empty line fails the whole load, and so does a text that ends in a
line feed (`MhaAssignments.TrailingLineFeedRejected`).

## Model

| member | source | states |
|---|---|---|
| TextSplit.SplitOn | impute-rates.js:29 | `line.split(' ')` always returns at least one field, and no field contains the separator |
| TextSplit.JoinSplitOn | impute-rates.js:29 | joining the fields with the separator gives back the original line, so splitting loses nothing |
| TextSplit.SplitOnJoin | impute-rates.js:29 | separator-free fields joined with the separator split back into exactly those fields, so the split is the unique decomposition of this kind |
| TextSplit.EndsWithSeparator | impute-rates.js:28 | a text ending in a separator splits into the pieces of the text without it, plus one empty piece |
| TextSplit.SplitLines | impute-rates.js:28 | the `\r?\n` split gives one line per piece of the split on line feeds, at least one, and no line contains a line feed |
| TextSplit.RegexLines | impute-rates.js:28 | a left-to-right scan for `\r?\n` matches, preferring the two-character match, always yields at least one line |
| TextSplit.SplitLinesIsRegexSplit | impute-rates.js:28 | splitting on line feeds and dropping one carriage return before each equals the regular-expression scan on every input |
| MhaAssignments.ParseRecord | impute-rates.js:29-32 | a parsed line yields a non-empty, space-free ZIP code and MHA id; a failing line raises an error naming that line |
| MhaAssignments.ParseRecordSound | impute-rates.js:29-32 | a parsed record is the head of its line: ZIP, one space, MHA id, then the end of the line or another space |
| MhaAssignments.ParseRecordComplete | impute-rates.js:29-32 | every line headed by a ZIP, one space and an MHA id (both non-empty) parses to exactly that record, whatever fields follow |
| MhaAssignments.LoadLines | impute-rates.js:28-36 | a successful run only adds to the MHA set and the ZIP keys it starts from, and a non-empty run that succeeds leaves both non-empty; a failure names a line of the input that does not parse |
| MhaAssignments.LoadAssignments | impute-rates.js:20-39 | on success the MHA set and the ZIP map are both non-empty, since there is always at least one line; a failure names a `\r?\n` line of the text that does not parse |
| MhaAssignments.LoadLinesOutcome | impute-rates.js:28-36 | the loop succeeds iff every remaining line parses; otherwise it reports the first line that does not |
| MhaAssignments.LoadLinesContents | impute-rates.js:28-36 | the loop adds the ZIP codes and MHA ids of all lines; the last line naming a ZIP decides its MHA; ZIP codes no line names keep their binding |
| MhaAssignments.LoadLinesValuesInRegions | impute-rates.js:34-35 | every MHA id the loop binds a ZIP to is also added to the MHA set, and the set grows by at most one per line |
| MhaAssignments.LoadSucceedsIff | impute-rates.js:20-39 | loading succeeds iff every `\r?\n` line has a non-empty first and second space-separated field; a failure names the first bad line |
| MhaAssignments.EmptyLineRejected | impute-rates.js:28-32 | any empty line makes the whole load fail |
| MhaAssignments.TrailingLineFeedRejected | impute-rates.js:28-32 | a text ending in a line feed has an empty last line, so it always fails to load |
| MhaAssignments.LoadContents | impute-rates.js:24-38 | on success, the map's keys are exactly the first fields of the lines and the set is exactly the second fields; every map value is in the set; the set has no more members than there are lines |
| MhaAssignments.LoadLastWins | impute-rates.js:28-35 | on success, a ZIP code named on several lines maps to the MHA id from the last of them |
| ImputeRates.Lookup | impute-rates.js:54-57 | a geometry's properties are found in the index iff `GEOID20` is present, holds a string and that string is a key; the result is then the indexed MHA id |
| ImputeRates.TagFor | impute-rates.js:56-61 | the tag is the indexed MHA id when `GEOID20` is a string key of the index, and `"unused"` otherwise |
| ImputeRates.AnnotateFrom | impute-rates.js:53-62 | the loop succeeds iff every geometry has `properties`; otherwise it fails at the first geometry without them; on success it keeps the length and the count is at most the number of geometries |
| ImputeRates.AnnotateFromTags | impute-rates.js:53-61 | each output geometry is the input geometry at the same position, with `DOD_BAH_MHA` set to the indexed MHA id or `"unused"` and every other property and field kept |
| ImputeRates.AnnotateFromCount | impute-rates.js:50-58 | the match count equals the number of geometries whose `GEOID20` is in the index |
| ImputeRates.AnnotateFromStable | impute-rates.js:53-61 | running the loop again over its own output reproduces the same geometries and the same count |
| ImputeRates.Annotate | impute-rates.js:48-72 | on success, top-level fields, every other layer and the layer's own fields are unchanged, the geometry count is kept, and 0 < matches <= geometries; it fails with a missing-layer error iff `us_zcta` is absent |
| ImputeRates.AnnotateTagsEveryGeometry | impute-rates.js:51-61 | on success, the layer keeps its length and order, every geometry is tagged by lookup or `"unused"`, and the count is the number of matching geometries |
| ImputeRates.AnnotateFailure | impute-rates.js:50-69 | the pass fails iff the layer is missing, some geometry has no properties, or no geometry matches; the zero-match error comes exactly in the last case |
| ImputeRates.AnnotateWellFormed | impute-rates.js:53-61 | annotating a document whose opaque fields never shadow `objects`, `geometries` or `properties` gives a document with the same guarantee, since only `properties` entries are written |
| ImputeRates.EmptyLayerFails | impute-rates.js:51-69 | an empty `us_zcta` layer fails with the zero-match error |
| ImputeRates.AnnotateIdempotent | impute-rates.js:53-61 | annotating the annotated document again with the same index gives the same document and count |
| StripZctas.DeleteObject | strip-zctas.js:16 | after deletion the key is absent and every other layer is kept; deleting an absent key changes nothing |
| StripZctas.StripProperties | strip-zctas.js:19-21 | the geometries keep their number, order and other fields, and none has `properties` |
| StripZctas.StripPropertiesIdempotent | strip-zctas.js:19-21 | stripping twice is the same as stripping once |
| StripZctas.Prune | strip-zctas.js:16-21 | fails iff `us_dod_mha` is gone after the deletion (also when it is the deleted key); on success the key is gone, other layers and top-level fields are unchanged, and `us_dod_mha` keeps its geometries without `properties` |
| StripZctas.PruneWellFormed | strip-zctas.js:16-21 | pruning keeps a well-formed document well-formed, and on such a document no `us_dod_mha` geometry keeps `properties` in its slot or among its other fields |
| StripZctas.PruneIdempotent | strip-zctas.js:16-21 | pruning the pruned document with the same key gives the same document |
| JoinExample.ExampleLoad | impute-rates.js:20-39 | the three example lines load into MHAs {R1, R2} and the map 12345→R1, 67890→R1, 11111→R2 |
| JoinExample.ExampleAnnotate | impute-rates.js:48-72 | with that map, ZCTAs 12345, 67890 and 99999 are tagged R1, R1 and "unused", with 2 matches |

## Left out

- Argument-count checks and usage messages (impute-rates.js:9-12, strip-zctas.js:8-11): process plumbing.
- File reads and writes, and the hard-coded assignment file name (impute-rates.js:22,43,87; strip-zctas.js:14,23): I/O. The loader starts from the text, and the annotator and pruner start from an already-parsed document.
- `JSON.parse` and `JSON.stringify`: foreign library calls. The document is an abstract value, and the order of keys in the written JSON is not modelled.
- The `Promise.all` fan-in of the two loads (impute-rates.js:74-91): asynchronous orchestration. A failure in either load aborts the run, which the `Result` of each operation already expresses.
- Console logging of counts and `process.exit` (impute-rates.js:64-65,81-82,89-90; strip-zctas.js:24): reporting only. The match count itself is returned.
- Geometry coordinates, arcs, transforms, ids and types: opaque fields that are never inspected, only preserved.
- JSON values other than strings are collapsed into opaque tokens. Only a string `GEOID20` can be found in a map whose keys are strings.
- Every object under `objects` is modelled as a geometry collection. A missing `geometries` raises a `TypeError` only on the layer a script loops over: `us_zcta` in the annotator (impute-rates.js:51,53) and `us_dod_mha` in the pruner (strip-zctas.js:19). Any other object without one, such as a single Polygon or MultiPolygon, passes through both scripts untouched, and the pruner deletes it without error when it is the named key (strip-zctas.js:16). Such objects are not representable here, so the "every other layer is kept" results of `ImputeRates.Annotate` and `StripZctas.Prune` are proved only for documents whose every object is a collection.
- A document without `objects` is not representable; both scripts raise a `TypeError` on it. So does a `us_zcta` geometry whose `properties` is `null` or absent; the model gives that case its own error, as it does a missing `us_zcta` or `us_dod_mha` layer.
- The opaque `fields` maps are not kept free of the modelled keys by the datatypes themselves. `TopoJson.WellFormed` states that they are, and `ImputeRates.AnnotateWellFormed` and `StripZctas.PruneWellFormed` show that both passes keep it. On a document that breaks it, "no geometry has `properties`" speaks of the modelled slot only.
- A `us_zcta` geometry whose `properties` holds a non-null primitive is not representable. In the annotator, reading `GEOID20` from it gives `undefined` and the write of `DOD_BAH_MHA` is silently dropped, so the geometry is neither tagged nor counted (impute-rates.js:54,60).
- A `us_dod_mha` geometry whose `properties` is `null` is not representable. The pruner deletes that field without error (strip-zctas.js:20); the model only has present or absent `properties`.
- The pruner's missing-layer failure is an unhandled rejection in the script. The model returns it as an `Err`.
