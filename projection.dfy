/** The projection of a decoded value onto a destination (fillStruct,
    setReflectValue and parseTag of bencode.go). The Go destination is reached
    through reflection; here its static type is a Shape and its current contents a
    Dest of that shape, and each operation returns the new contents or an error. */
module BencodeProjection {
  import opened BencodeValues

  /** The destination kinds setReflectValue distinguishes (floats are not modelled). */
  datatype Shape =
    | Text                       // string
    | SignedInt                  // int, int8, int16, int32, int64
    | Unsigned(byteSized: bool)  // uint, uint16, uint32, uint64; uint8 when byteSized
    | Boolean
    | Slice(elem: Shape)
    | MapOf(key: Shape, elem: Shape)
    | Struct(fields: seq<Field>)
    | Ptr(target: Shape)
    | Interface(numMethods: nat) // `any` when numMethods == 0
    | Other                      // every kind with no case in setReflectValue

  /** A struct field: its Go name, the value of its `bencode` tag ("" when absent),
      whether it is exported (settable through reflection), and its type. */
  datatype Field = Field(name: seq<byte>, tag: seq<byte>, exported: bool, shape: Shape)

  /** The contents of a destination. Nil and empty slices are not distinguished. */
  datatype Dest =
    | DText(s: seq<byte>)
    | DInt(i: int)
    | DUint(u: nat)
    | DBool(b: bool)
    | DSlice(elems: seq<Dest>)
    | DNilMap
    | DMap(entries: map<Dest, Dest>)
    | DStruct(fields: seq<Dest>)
    | DNilPtr
    | DPtr(target: Dest)
    | DNilIface
    | DIface(held: Value)
    | DOpaque                    // a value the projector never inspects

  /** The contents d are a value of Go type s. */
  ghost predicate Conforms(d: Dest, s: Shape)
    decreases s
  {
    match s
    case Text => d.DText?
    case SignedInt => d.DInt?
    case Unsigned(_) => d.DUint?
    case Boolean => d.DBool?
    case Slice(e) => d.DSlice? && forall i :: 0 <= i < |d.elems| ==> Conforms(d.elems[i], e)
    case MapOf(k, e) =>
      d.DNilMap? || (d.DMap? && forall x :: x in d.entries ==> Conforms(x, k) && Conforms(d.entries[x], e))
    case Struct(fs) => d.DStruct? && |d.fields| == |fs| && forall i :: 0 <= i < |fs| ==> Conforms(d.fields[i], fs[i].shape)
    case Ptr(t) => d.DNilPtr? || (d.DPtr? && Conforms(d.target, t))
    case Interface(n) => if n == 0 then d.DNilIface? || d.DIface? else d.DOpaque?
    case Other => d.DOpaque?
  }

  /** The zero value of a type, as reflect.New(t).Elem() and reflect.MakeSlice give it. */
  function Zero(s: Shape): (d: Dest)
    ensures Conforms(d, s)
    decreases s, 1
  {
    match s
    case Text => DText([])
    case SignedInt => DInt(0)
    case Unsigned(_) => DUint(0)
    case Boolean => DBool(false)
    case Slice(_) => DSlice([])
    case MapOf(_, _) => DNilMap
    case Struct(fs) => DStruct(ZeroFields(fs, 0))
    case Ptr(_) => DNilPtr
    case Interface(n) => if n == 0 then DNilIface else DOpaque
    case Other => DOpaque
  }

  function ZeroFields(fs: seq<Field>, i: nat): (ds: seq<Dest>)
    requires i <= |fs|
    ensures |ds| == |fs| - i
    ensures forall j :: 0 <= j < |ds| ==> Conforms(ds[j], fs[i + j].shape)
    decreases Struct(fs), 0, |fs| - i
  {
    if i == |fs| then [] else [Zero(fs[i].shape)] + ZeroFields(fs, i + 1)
  }

  /** The text of a tag up to its first comma (strings.Split(tag, ",")[0]). */
  function FirstPart(tag: seq<byte>): (p: seq<byte>)
    ensures p <= tag && Comma !in p
    ensures |p| == |tag| || tag[|p|] == Comma
  {
    if tag == [] || tag[0] == Comma then [] else [tag[0]] + FirstPart(tag[1..])
  }

  /** parseTag: the wire name of a field is the first comma-separated part of its
      tag, or the field's own name when the tag or that part is empty. */
  function ParseTag(name: seq<byte>, tag: seq<byte>): (r: seq<byte>)
    ensures tag == [] || tag[0] == Comma ==> r == name
    ensures tag != [] && tag[0] != Comma ==>
      0 < |r| <= |tag| && r == tag[..|r|] && Comma !in r && (|r| == |tag| || tag[|r|] == Comma)
  {
    if tag == [] then name
    else
      var part := FirstPart(tag);
      if part == [] then name else part
  }

  const Dash: seq<byte> := [Minus]

  /** The key a field is looked up under: its own name, or a non-empty prefix of its
      tag that holds no comma. */
  function WireName(f: Field): (r: seq<byte>)
    ensures r == f.name || (r != [] && r <= f.tag && Comma !in r)
  {
    ParseTag(f.name, f.tag)
  }

  /** The fields the struct loop of fillStruct writes from dictionary d. */
  predicate Selected(f: Field, d: map<seq<byte>, Value>)
  {
    f.exported && WireName(f) != Dash && WireName(f) in d
  }

  /** A byte string as the contents of a []byte (SetBytes). */
  function BytesDest(s: seq<byte>): (ds: seq<Dest>)
    ensures |ds| == |s| && forall i :: 0 <= i < |s| ==> ds[i] == DUint(s[i] as nat)
  {
    seq(|s|, i requires 0 <= i < |s| => DUint(s[i] as nat))
  }

  /** fillStruct: pointers are followed (allocating a nil one); a dictionary may only
      land on a struct; anything else is handed to setReflectValue. */
  function FillStruct(s: Shape, data: Value, cur: Dest): (r: Outcome<Dest>)
    requires Conforms(cur, s)
    ensures r.Ok? ==> Conforms(r.value, s)
    ensures !r.Diverges?
    decreases s
  {
    if s.Ptr? then
      var target := if cur.DNilPtr? then Zero(s.target) else cur.target;
      var inner := FillStruct(s.target, data, target);
      if inner.Ok? then Ok(DPtr(inner.value)) else Propagate(inner)
    else if !data.Dict? then SetValue(s, data, cur)
    else if !s.Struct? then Err(DictIntoNonStruct)
    else
      var fs := FillFields(s.fields, data.entries, cur.fields, 0);
      if fs.Ok? then Ok(DStruct(fs.value)) else Propagate(fs)
  }

  /** setReflectValue: the per-kind conversion rules. */
  function SetValue(s: Shape, data: Value, cur: Dest): (r: Outcome<Dest>)
    requires Conforms(cur, s)
    ensures r.Ok? ==> Conforms(r.value, s)
    ensures !r.Diverges?
    decreases s, 1, 0
  {
    match s
    case Text =>
      if data.Str? then Ok(DText(data.s)) else Err(TypeMismatch)
    case SignedInt =>
      if data.Int? then Ok(DInt(data.i))
      else if data.Str? then
        match Atoi(data.s)
        case Some(n) => Ok(DInt(n))
        case None => Err(NumericStringInvalid)
      else Err(TypeMismatch)
    case Unsigned(_) =>
      if data.Int? && data.i >= 0 then Ok(DUint(data.i)) else Err(TypeMismatch)
    case Boolean =>
      if data.Int? then Ok(DBool(data.i != 0)) else Err(TypeMismatch)
    case Slice(e) =>
      if data.List? then
        var elems := SetElems(e, data.items, 0);
        if elems.Ok? then Ok(DSlice(elems.value)) else Propagate(elems)
      else if data.Str? && e == Unsigned(true) then Ok(DSlice(BytesDest(data.s)))
      else Err(TypeMismatch)
    case MapOf(k, e) =>
      if data.Dict? then
        var base := if cur.DNilMap? then map[] else cur.entries;
        var entries := SetEntries(k, e, SortedKeys(data.entries.Keys), data.entries, base);
        if entries.Ok? then Ok(DMap(entries.value)) else Propagate(entries)
      else Err(TypeMismatch)
    case Struct(fields) =>
      if data.Dict? then
        var fs := FillFields(fields, data.entries, cur.fields, 0);
        if fs.Ok? then Ok(DStruct(fs.value)) else Propagate(fs)
      else Err(TypeMismatch)
    case Interface(n) =>
      if n != 0 then Err(NonEmptyInterface)
      else if data == Nothing then Err(NilValue)
      else Ok(DIface(data))
    case Ptr(t) =>
      var target := if cur.DNilPtr? then Zero(t) else cur.target;
      var inner := SetValue(t, data, target);
      if inner.Ok? then Ok(DPtr(inner.value)) else Propagate(inner)
    case Other => Err(UnsupportedType)
  }

  /** The element loop of the slice case, from index i on: each element starts from
      the zero value of the element type; the first failure is returned. */
  function SetElems(e: Shape, items: seq<Value>, i: nat): (r: Outcome<seq<Dest>>)
    requires i <= |items|
    ensures r.Ok? ==> |r.value| == |items| - i && forall j :: 0 <= j < |r.value| ==> Conforms(r.value[j], e)
    ensures !r.Diverges?
    decreases Slice(e), 0, |items| - i
  {
    if i == |items| then Ok([])
    else
      var x := SetValue(e, items[i], Zero(e));
      if !x.Ok? then Propagate(x)
      else
        var rest := SetElems(e, items, i + 1);
        if rest.Ok? then Ok([x.value] + rest.value) else Propagate(rest)
  }

  /** Every key of the enumeration ks is a key of d. */
  predicate KeysIn(ks: seq<seq<byte>>, d: map<seq<byte>, Value>)
  {
    forall key :: key in ks ==> key in d
  }

  /** Every entry of m is a key of Go type k with a value of Go type e. */
  ghost predicate EntriesConform(m: map<Dest, Dest>, k: Shape, e: Shape)
  {
    forall x :: x in m ==> Conforms(x, k) && Conforms(m[x], e)
  }

  /** The entry loop of the map case over the keys ks: key and value each start from
      a zero value and the projected pair is inserted into acc. */
  function SetEntries(k: Shape, e: Shape, ks: seq<seq<byte>>, d: map<seq<byte>, Value>, acc: map<Dest, Dest>): (r: Outcome<map<Dest, Dest>>)
    requires KeysIn(ks, d) && EntriesConform(acc, k, e)
    ensures r.Ok? ==> EntriesConform(r.value, k, e)
    ensures !r.Diverges?
    decreases MapOf(k, e), 0, |ks|
  {
    if ks == [] then Ok(acc)
    else
      var pk := SetValue(k, Str(ks[0]), Zero(k));
      if !pk.Ok? then Propagate(pk)
      else
        var pv := SetValue(e, d[ks[0]], Zero(e));
        if !pv.Ok? then Propagate(pv)
        else SetEntries(k, e, ks[1..], d, acc[pk.value := pv.value])
  }

  /** The field loop of fillStruct from field i on, over the current field contents. */
  function FillFields(fields: seq<Field>, d: map<seq<byte>, Value>, olds: seq<Dest>, i: nat): (r: Outcome<seq<Dest>>)
    requires i <= |fields| && |olds| == |fields|
    requires forall j :: 0 <= j < |fields| ==> Conforms(olds[j], fields[j].shape)
    ensures r.Ok? ==> |r.value| == |fields| && forall j :: 0 <= j < |fields| ==> Conforms(r.value[j], fields[j].shape)
    ensures !r.Diverges?
    decreases Struct(fields), 0, |fields| - i
  {
    if i == |fields| then Ok(olds)
    else if !Selected(fields[i], d) then FillFields(fields, d, olds, i + 1)
    else
      var x := SetValue(fields[i].shape, d[WireName(fields[i])], olds[i]);
      if !x.Ok? then Propagate(x)
      else FillFields(fields, d, olds[i := x.value], i + 1)
  }
}
