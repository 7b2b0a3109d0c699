/** The worked example of the ZIP join: three assignment lines and three ZCTAs. */
module JoinExample {
  import opened Results
  import opened TextSplit
  import opened MhaAssignments
  import opened TopoJson
  import opened ImputeRates

  const Text: string := "12345 R1\n67890 R1\n11111 R2"
  const Lines: seq<string> := ["12345 R1", "67890 R1", "11111 R2"]

  /** Three lines without line feeds or final carriage returns, joined by line feeds,
      split back into those lines. */
  lemma ThreeLines(a: string, b: string, c: string)
    requires '\n' !in a && '\n' !in b && '\n' !in c
    requires DropCR(a) == a && DropCR(b) == b
    ensures SplitLines(a + "\n" + b + "\n" + c) == [a, b, c]
  {
    var parts := [a, b, c];
    assert parts[1..] == [b, c] && parts[1..][1..] == [c];
    assert Join([b, c], '\n') == b + "\n" + c;
    assert Join(parts, '\n') == a + "\n" + (b + "\n" + c);
    assert Join(parts, '\n') == a + "\n" + b + "\n" + c;
    SplitOnJoin(parts, '\n');
    assert DropCRs([c]) == [c];
    assert DropCRs([b, c]) == [b, c];
  }

  lemma ExampleLines()
    ensures SplitLines(Text) == Lines
  {
    assert Text == "12345 R1" + "\n" + "67890 R1" + "\n" + "11111 R2";
    ThreeLines("12345 R1", "67890 R1", "11111 R2");
  }

  lemma ExampleRecord(line: string, zip: string, mha: string)
    requires line == zip + " " + mha && zip != "" && mha != "" && ' ' !in zip && ' ' !in mha
    ensures ParseRecord(line) == Ok(Record(zip, mha))
  {
    assert line[..|line|] == line;
    ParseRecordComplete(line, Record(zip, mha));
  }

  /** One iteration of the loader's loop on a line that parses. */
  lemma LoadStep(lines: seq<string>, acc: Assignments, rec: Record)
    requires |lines| > 0 && ParseRecord(lines[0]) == Ok(rec)
    ensures LoadLines(lines, acc) == LoadLines(lines[1..], Assignments(acc.regions + {rec.mha}, acc.zips[rec.zip := rec.mha]))
  {
  }

  /** Three lines that parse load into the records' MHA ids and ZIP bindings. */
  lemma LoadThree(l0: string, l1: string, l2: string, r0: Record, r1: Record, r2: Record)
    requires ParseRecord(l0) == Ok(r0) && ParseRecord(l1) == Ok(r1) && ParseRecord(l2) == Ok(r2)
    ensures LoadLines([l0, l1, l2], Assignments({}, map[]))
         == Ok(Assignments({r0.mha, r1.mha, r2.mha}, map[r0.zip := r0.mha, r1.zip := r1.mha, r2.zip := r2.mha]))
  {
    var a0 := Assignments({}, map[]);
    var a1 := Assignments({r0.mha}, map[r0.zip := r0.mha]);
    var a2 := Assignments({r0.mha, r1.mha}, map[r0.zip := r0.mha, r1.zip := r1.mha]);
    LoadStep([l0, l1, l2], a0, r0);
    LoadStep([l1, l2], a1, r1);
    LoadStep([l2], a2, r2);
    assert [l0, l1, l2][1..] == [l1, l2];
    assert [l1, l2][1..] == [l2];
    assert [l2][1..] == [];
    assert a0.regions + {r0.mha} == a1.regions;
    assert a0.zips[r0.zip := r0.mha] == a1.zips;
    assert a1.regions + {r1.mha} == a2.regions;
    assert a2.regions + {r2.mha} == {r0.mha, r1.mha, r2.mha};
  }

  /** Three lines of the form `<zip> <mha>` load into their MHA ids and ZIP bindings. */
  lemma LoadThreeRecords(z0: string, m0: string, z1: string, m1: string, z2: string, m2: string)
    requires z0 != "" && m0 != "" && ' ' !in z0 && ' ' !in m0
    requires z1 != "" && m1 != "" && ' ' !in z1 && ' ' !in m1
    requires z2 != "" && m2 != "" && ' ' !in z2 && ' ' !in m2
    ensures LoadLines([z0 + " " + m0, z1 + " " + m1, z2 + " " + m2], Assignments({}, map[]))
         == Ok(Assignments({m0, m1, m2}, map[z0 := m0, z1 := m1, z2 := m2]))
  {
    ExampleRecord(z0 + " " + m0, z0, m0);
    ExampleRecord(z1 + " " + m1, z1, m1);
    ExampleRecord(z2 + " " + m2, z2, m2);
    LoadThree(z0 + " " + m0, z1 + " " + m1, z2 + " " + m2, Record(z0, m0), Record(z1, m1), Record(z2, m2));
  }

  /** The three example lines, read by the loader's loop. */
  lemma ExampleLoadLines()
    ensures LoadLines(Lines, Assignments({}, map[]))
         == Ok(Assignments({"R1", "R2"}, map["12345" := "R1", "67890" := "R1", "11111" := "R2"]))
  {
    assert "12345 R1" == "12345" + " " + "R1";
    assert "67890 R1" == "67890" + " " + "R1";
    assert "11111 R2" == "11111" + " " + "R2";
    assert Lines == ["12345" + " " + "R1", "67890" + " " + "R1", "11111" + " " + "R2"];
    LoadThreeRecords("12345", "R1", "67890", "R1", "11111", "R2");
    assert {"R1", "R1", "R2"} == {"R1", "R2"};
  }

  /** The three lines load into two MHAs over three ZIP codes. */
  lemma ExampleLoad()
    ensures LoadAssignments(Text) == Ok(Assignments({"R1", "R2"}, map["12345" := "R1", "67890" := "R1", "11111" := "R2"]))
  {
    ExampleLines();
    ExampleLoadLines();
  }

  /** A ZCTA with the given ZIP code and no other properties or fields. */
  function Zcta(zip: string): Geometry {
    Geometry(Some(map[ZipKey := Str(zip)]), map[])
  }

  /** A ZCTA tagged with an MHA id. */
  function TaggedZcta(zip: string, mha: string): Geometry {
    Geometry(Some(map[ZipKey := Str(zip), MhaKey := Str(mha)]), map[])
  }

  /** The tag `TagFor` gives a ZCTA with ZIP code `zip`. */
  function TagOfZcta(zip: string, zips: map<string, string>): string {
    TagFor(Zcta(zip).properties.value, zips)
  }

  /** 1 when a ZCTA with ZIP code `zip` matches, else 0. */
  function HitOf(zip: string, zips: map<string, string>): nat {
    if IsMatch(Zcta(zip), zips) then 1 else 0
  }

  /** Tagging one ZCTA yields the tagged ZCTA. */
  lemma TagZcta(zip: string, zips: map<string, string>)
    ensures var props := Zcta(zip).properties.value;
      Zcta(zip).(properties := Some(props[MhaKey := Str(TagFor(props, zips))])) == TaggedZcta(zip, TagOfZcta(zip, zips))
  {
  }

  /** One iteration of the pass over a geometry with properties. */
  lemma AnnotateStep(gs: seq<Geometry>, zips: map<string, string>, i: nat, rest: Pass)
    requires i < |gs| && gs[i].properties.Some? && AnnotateFrom(gs, zips, i + 1) == Ok(rest)
    ensures var props := gs[i].properties.value;
      AnnotateFrom(gs, zips, i)
      == Ok(Pass([gs[i].(properties := Some(props[MhaKey := Str(TagFor(props, zips))]))] + rest.geometries,
                 rest.matched + if Lookup(props, zips).Some? then 1 else 0))
  {
  }

  /** The pass over three ZCTAs. */
  lemma AnnotateThree(z0: string, z1: string, z2: string, zips: map<string, string>)
    ensures AnnotateFrom([Zcta(z0), Zcta(z1), Zcta(z2)], zips, 0)
         == Ok(Pass([TaggedZcta(z0, TagOfZcta(z0, zips)), TaggedZcta(z1, TagOfZcta(z1, zips)), TaggedZcta(z2, TagOfZcta(z2, zips))],
                    HitOf(z0, zips) + HitOf(z1, zips) + HitOf(z2, zips)))
  {
    var gs := [Zcta(z0), Zcta(z1), Zcta(z2)];
    TagZcta(z0, zips);
    TagZcta(z1, zips);
    TagZcta(z2, zips);
    var t0, t1, t2 := TaggedZcta(z0, TagOfZcta(z0, zips)), TaggedZcta(z1, TagOfZcta(z1, zips)), TaggedZcta(z2, TagOfZcta(z2, zips));
    var c1, c2 := HitOf(z1, zips), HitOf(z2, zips);
    assert AnnotateFrom(gs, zips, 3) == Ok(Pass([], 0));
    AnnotateStep(gs, zips, 2, Pass([], 0));
    assert [t2] + [] == [t2];
    AnnotateStep(gs, zips, 1, Pass([t2], c2));
    assert [t1] + [t2] == [t1, t2];
    AnnotateStep(gs, zips, 0, Pass([t1, t2], c2 + c1));
    assert [t0] + [t1, t2] == [t0, t1, t2];
  }

  /** ZCTAs 12345, 67890 and 99999 are tagged R1, R1 and "unused"; two match. */
  lemma ExampleAnnotate()
    ensures
      var zips := map["12345" := "R1", "67890" := "R1", "11111" := "R2"];
      var doc := Document(map[ZctaLayer := Layer([Zcta("12345"), Zcta("67890"), Zcta("99999")], map[])], map[]);
      var out := Document(map[ZctaLayer := Layer([TaggedZcta("12345", "R1"), TaggedZcta("67890", "R1"), TaggedZcta("99999", Unused)], map[])], map[]);
      Annotate(doc, zips) == Ok(Annotated(out, 2))
  {
    var zips := map["12345" := "R1", "67890" := "R1", "11111" := "R2"];
    AnnotateThree("12345", "67890", "99999", zips);
    assert TagOfZcta("12345", zips) == "R1" && TagOfZcta("67890", zips) == "R1";
    assert "99999" !in zips && TagOfZcta("99999", zips) == Unused;
    assert HitOf("12345", zips) == 1 && HitOf("67890", zips) == 1 && HitOf("99999", zips) == 0;
    var gs := [Zcta("12345"), Zcta("67890"), Zcta("99999")];
    var tagged := [TaggedZcta("12345", "R1"), TaggedZcta("67890", "R1"), TaggedZcta("99999", Unused)];
    assert AnnotateFrom(gs, zips, 0) == Ok(Pass(tagged, 2));
    var doc := Document(map[ZctaLayer := Layer(gs, map[])], map[]);
    assert doc.objects[ZctaLayer := Layer(tagged, map[])] == map[ZctaLayer := Layer(tagged, map[])];
  }
}
