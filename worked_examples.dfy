/** Concrete inputs, proved byte by byte. */
module BencodeWorkedExamples {
  import opened BencodeValues
  import opened BencodeGrammar
  import opened BencodeGrammarProperties
  import opened BencodeProjection
  import opened BencodeCompositeProperties
  import opened BencodeProjectionProperties
  import opened BencodeDecoder

  /** "i1ei2ei3e": three top-level integers. */
  const ThreeInts: seq<byte> := [0x69, 0x31, 0x65, 0x69, 0x32, 0x65, 0x69, 0x33, 0x65]

  /** "d3:agei30e4:name3:Joee": a dictionary with two entries. */
  const Person: seq<byte> := [0x64, 0x33, 0x3A, 0x61, 0x67, 0x65, 0x69, 0x33, 0x30, 0x65,
    0x34, 0x3A, 0x6E, 0x61, 0x6D, 0x65, 0x33, 0x3A, 0x4A, 0x6F, 0x65, 0x65]

  const Age: seq<byte> := [0x61, 0x67, 0x65]
  const Name: seq<byte> := [0x6E, 0x61, 0x6D, 0x65]
  const Joe: seq<byte> := [0x4A, 0x6F, 0x65]

  const OmitEmpty: seq<byte> := [0x6F, 0x6D, 0x69, 0x74, 0x65, 0x6D, 0x70, 0x74, 0x79]

  /** struct { Age int `bencode:"age"`; Name string `bencode:"name,omitempty"`; note string } */
  const PersonShape: Shape := Struct([
    Field([0x41, 0x67, 0x65], Age, true, SignedInt),
    Field([0x4E, 0x61, 0x6D, 0x65], Name + [Comma] + OmitEmpty, true, Text),
    Field([0x6E, 0x6F, 0x74, 0x65], [], false, Text)])

  /** Several top-level values are collected in order. */
  lemma ThreeIntsStream()
    ensures ParseAll(ThreeInts, 0, []) == Step(Ok([Int(1), Int(2), Int(3)]), |ThreeInts|)
  {
    var values := [Int(1), Int(2), Int(3)];
    var whole := List(values);
    assert EncodeItems(whole, 3) == [];
    assert EncodeItems(whole, 2) == [0x69, 0x33, 0x65];
    assert EncodeItems(whole, 1) == [0x69, 0x32, 0x65, 0x69, 0x33, 0x65];
    assert EncodeItems(whole, 0) == ThreeInts;
    DecodeStream(values);
  }

  /** ... and reach a []int destination as one list. */
  lemma ThreeIntsSlice()
    ensures FillStruct(Slice(SignedInt), TopLevel([Int(1), Int(2), Int(3)]), DSlice([])) == Ok(DSlice([DInt(1), DInt(2), DInt(3)]))
  {
    var values := [Int(1), Int(2), Int(3)];
    SliceRule(SignedInt, values, DSlice([]));
    var r := SetValue(Slice(SignedInt), List(values), DSlice([]));
    assert SetValue(SignedInt, values[0], Zero(SignedInt)).Ok?;
    assert SetValue(SignedInt, values[1], Zero(SignedInt)).Ok?;
    assert SetValue(SignedInt, values[2], Zero(SignedInt)).Ok?;
    assert r.value.elems == [DInt(1), DInt(2), DInt(3)];
  }

  /** The whole driver on the same bytes. */
  method DecodeThreeInts() returns (r: Outcome<Dest>)
    ensures r == Ok(DSlice([DInt(1), DInt(2), DInt(3)]))
  {
    var d := new Decoder(ThreeInts);
    ThreeIntsStream();
    ThreeIntsSlice();
    r := d.Decode(Slice(SignedInt), DSlice([]));
  }

  /** "3:agei30e" and "4:name3:Joe": the encodings of the two entries. */
  lemma PersonEntryBytes()
    ensures EncodeStr(Age) + Encode(Int(30)) == [0x33, 0x3A, 0x61, 0x67, 0x65, 0x69, 0x33, 0x30, 0x65]
    ensures EncodeStr(Name) + Encode(Str(Joe)) == [0x34, 0x3A, 0x6E, 0x61, 0x6D, 0x65, 0x33, 0x3A, 0x4A, 0x6F, 0x65]
  {
    assert Decimal(30) == [0x33, 0x30];
  }

  /** The bytes of Person are the encoding of its two entries, in order, ... */
  lemma PersonLayout()
    ensures Person == [DictMark] + EncodePairs(PersonPairs, 0) + [EndMark]
  {
    var ps := PersonPairs;
    PersonEntryBytes();
    assert EncodePairs(ps, 2) == [];
    assert EncodePairs(ps, 1) == EncodeStr(Name) + Encode(Str(Joe)) + [];
    assert EncodePairs(ps, 0) == EncodeStr(Age) + Encode(Int(30)) + EncodePairs(ps, 1);
  }

  /** ... whose keys are distinct, so the dictionary holds both. */
  lemma PersonEntries()
    ensures Assign(map[], PersonPairs, 0) == map[Age := Int(30), Name := Str(Joe)]
  {
    var ps := PersonPairs;
    assert Assign(map[], ps, 0) == Assign(map[Age := Int(30)], ps, 1) == Assign(map[Age := Int(30)][Name := Str(Joe)], ps, 2);
  }

  /** A buffer holding exactly one value decodes to the list of that value. */
  lemma SingleValue(buf: seq<byte>, v: Value)
    requires |buf| > 0 && ParseValue(buf, 0) == Step(Ok(v), |buf|)
    ensures ParseAll(buf, 0, []) == Step(Ok([v]), |buf|)
  {
    AllStep(buf, 0, [], v, |buf|);
    assert [] + [v] == [v];
    assert ParseAll(buf, |buf|, [v]) == Step(Ok([v]), |buf|);
  }

  const PersonPairs: seq<(seq<byte>, Value)> := [(Age, Int(30)), (Name, Str(Joe))]

  lemma PersonAt(buf: seq<byte>)
    requires buf == Person
    ensures At(buf, 0, [DictMark] + EncodePairs(PersonPairs, 0) + [EndMark])
  {
    PersonLayout();
    AtSuffix(buf, 0);
    assert buf[0..] == buf;
  }

  /** A single top-level dictionary. */
  lemma PersonParses(buf: seq<byte>)
    requires buf == Person
    ensures ParseAll(buf, 0, []) == Step(Ok([Dict(map[Age := Int(30), Name := Str(Joe)])]), |buf|)
  {
    PersonAt(buf);
    assert PairsEncodable(PersonPairs);
    DecodePairs(buf, 0, PersonPairs);
    PersonEntries();
    SingleValue(buf, Dict(map[Age := Int(30), Name := Str(Joe)]));
  }

  /** The wire names of the two exported fields. */
  lemma PersonWireNames()
    ensures WireName(PersonShape.fields[0]) == Age && WireName(PersonShape.fields[1]) == Name
  {
    TagName(PersonShape.fields[0].name, Age, []);
    TagName(PersonShape.fields[1].name, Name, OmitEmpty);
  }

  /** Both selected fields accept their entries. */
  lemma PersonAccepted(note: seq<byte>)
    ensures FillStruct(PersonShape, Dict(map[Age := Int(30), Name := Str(Joe)]), DStruct([DInt(0), DText([]), DText(note)])).Ok?
  {
    PersonWireNames();
    StructRule(PersonShape.fields, map[Age := Int(30), Name := Str(Joe)], DStruct([DInt(0), DText([]), DText(note)]));
  }

  /** It fills the exported fields named by their tags and leaves the unexported field alone. */
  lemma PersonFills(note: seq<byte>)
    ensures FillStruct(PersonShape, Dict(map[Age := Int(30), Name := Str(Joe)]), DStruct([DInt(0), DText([]), DText(note)]))
      == Ok(DStruct([DInt(30), DText(Joe), DText(note)]))
  {
    var d := map[Age := Int(30), Name := Str(Joe)];
    var fs := PersonShape.fields;
    var cur := DStruct([DInt(0), DText([]), DText(note)]);
    PersonAccepted(note);
    var r := FillStruct(PersonShape, Dict(d), cur);
    PersonWireNames();
    StructField(fs, d, cur, 0);
    StructField(fs, d, cur, 1);
    StructField(fs, d, cur, 2);
    assert r.value.fields == [DInt(30), DText(Joe), DText(note)];
  }

  /** The whole driver on Person: a single top-level value reaches the destination alone. */
  method DecodePerson(note: seq<byte>) returns (r: Outcome<Dest>)
    ensures r == Ok(DStruct([DInt(30), DText(Joe), DText(note)]))
  {
    var d := new Decoder(Person);
    PersonParses(d.rawBytes);
    PersonFills(note);
    r := d.Decode(PersonShape, DStruct([DInt(0), DText([]), DText(note)]));
  }

  /** A field tagged "-" or ",omitempty" is matched by the wire names "-" and its own
      name: the first is never written, even when the dictionary has a key "-". */
  lemma TagExamples(name: seq<byte>, shape: Shape, d: map<seq<byte>, Value>)
    ensures ParseTag(name, Dash) == Dash && !Selected(Field(name, Dash, true, shape), d)
    ensures ParseTag(name, [Comma] + OmitEmpty) == name
  {
    TagName(name, Dash, []);
    TagName(name, [], OmitEmpty);
    assert [] + [Comma] + OmitEmpty == [Comma] + OmitEmpty;
  }
}
