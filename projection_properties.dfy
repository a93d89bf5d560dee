/** What fillStruct and setReflectValue promise, stated over the functions of
    BencodeProjection: which struct fields are written, how slices and maps are
    built, the per-kind conversion rules, and where a dictionary may land. */
module BencodeProjectionProperties {
  import opened BencodeValues
  import opened BencodeProjection

  // ----- Tags -----

  /** The first comma-separated part of part + rest is part, when part holds no comma
      and rest is empty or starts a new part. */
  lemma {:induction false} FirstPartOf(part: seq<byte>, rest: seq<byte>)
    requires Comma !in part && (rest == [] || rest[0] == Comma)
    ensures FirstPart(part + rest) == part
  {
    if part != [] {
      assert (part + rest)[1..] == part[1..] + rest;
      FirstPartOf(part[1..], rest);
    }
  }

  /** parseTag on a tag "part" or "part,options": the part, or the field's own name when
      the part is empty; so ",omitempty" and "" both keep the field's name. */
  lemma TagName(name: seq<byte>, part: seq<byte>, options: seq<byte>)
    requires Comma !in part
    ensures ParseTag(name, part) == (if part == [] then name else part)
    ensures ParseTag(name, part + [Comma] + options) == (if part == [] then name else part)
  {
    FirstPartOf(part, []);
    assert part + [] == part;
    FirstPartOf(part, [Comma] + options);
    assert part + [Comma] + options == part + ([Comma] + options);
  }

  // ----- Struct fields -----

  /** Field j after the field loop from i on: a selected field at or after i holds
      the projection of its entry onto its current contents, which succeeded; every
      other field keeps its contents. */
  lemma {:induction false} FillFieldsAt(fields: seq<Field>, d: map<seq<byte>, Value>, olds: seq<Dest>, i: nat, j: nat)
    requires i <= |fields| && |olds| == |fields| && j < |fields|
    requires forall l :: 0 <= l < |fields| ==> Conforms(olds[l], fields[l].shape)
    requires FillFields(fields, d, olds, i).Ok?
    ensures var r := FillFields(fields, d, olds, i).value;
      if i <= j && Selected(fields[j], d) then
        var x := SetValue(fields[j].shape, d[WireName(fields[j])], olds[j]); x.Ok? && r[j] == x.value
      else r[j] == olds[j]
    decreases |fields| - i
  {
    if i < |fields| {
      if !Selected(fields[i], d) {
        FillFieldsAt(fields, d, olds, i + 1, j);
      } else {
        var x := SetValue(fields[i].shape, d[WireName(fields[i])], olds[i]);
        FillFieldsAt(fields, d, olds[i := x.value], i + 1, j);
      }
    }
  }

  /** The field loop from i on succeeds when every selected field from i on does. */
  lemma {:induction false} FillFieldsSucceeds(fields: seq<Field>, d: map<seq<byte>, Value>, olds: seq<Dest>, i: nat)
    requires i <= |fields| && |olds| == |fields|
    requires forall l :: 0 <= l < |fields| ==> Conforms(olds[l], fields[l].shape)
    requires forall l :: i <= l < |fields| && Selected(fields[l], d) ==> SetValue(fields[l].shape, d[WireName(fields[l])], olds[l]).Ok?
    ensures FillFields(fields, d, olds, i).Ok?
    decreases |fields| - i
  {
    if i < |fields| {
      if !Selected(fields[i], d) {
        FillFieldsSucceeds(fields, d, olds, i + 1);
      } else {
        var x := SetValue(fields[i].shape, d[WireName(fields[i])], olds[i]);
        var olds' := olds[i := x.value];
        assert forall l :: i < l < |fields| ==> olds'[l] == olds[l];
        FillFieldsSucceeds(fields, d, olds', i + 1);
      }
    }
  }

  /** Field j fails and every selected field from i up to it succeeds. */
  ghost predicate FirstFieldError(fields: seq<Field>, d: map<seq<byte>, Value>, olds: seq<Dest>, i: nat, j: nat)
    requires i <= j < |fields| && |olds| == |fields| && Selected(fields[j], d)
    requires forall l :: 0 <= l < |fields| ==> Conforms(olds[l], fields[l].shape)
  {
    SetValue(fields[j].shape, d[WireName(fields[j])], olds[j]).Err? &&
    forall l :: i <= l < j && Selected(fields[l], d) ==> SetValue(fields[l].shape, d[WireName(fields[l])], olds[l]).Ok?
  }

  /** A failing field loop reports the error of the first selected field that fails. */
  lemma {:induction false} FillFieldsFails(fields: seq<Field>, d: map<seq<byte>, Value>, olds: seq<Dest>, i: nat)
    requires i <= |fields| && |olds| == |fields|
    requires forall l :: 0 <= l < |fields| ==> Conforms(olds[l], fields[l].shape)
    requires !FillFields(fields, d, olds, i).Ok?
    ensures exists j :: (i <= j < |fields| && Selected(fields[j], d) && FirstFieldError(fields, d, olds, i, j) &&
      FillFields(fields, d, olds, i) == Err(SetValue(fields[j].shape, d[WireName(fields[j])], olds[j]).error))
    decreases |fields| - i
  {
    if !Selected(fields[i], d) {
      FillFieldsFails(fields, d, olds, i + 1);
      var j :| i + 1 <= j < |fields| && Selected(fields[j], d) && FirstFieldError(fields, d, olds, i + 1, j) &&
        FillFields(fields, d, olds, i + 1) == Err(SetValue(fields[j].shape, d[WireName(fields[j])], olds[j]).error);
      assert FirstFieldError(fields, d, olds, i, j);
    } else {
      var x := SetValue(fields[i].shape, d[WireName(fields[i])], olds[i]);
      if x.Ok? {
        var olds' := olds[i := x.value];
        FillFieldsFails(fields, d, olds', i + 1);
        var j :| i + 1 <= j < |fields| && Selected(fields[j], d) && FirstFieldError(fields, d, olds', i + 1, j) &&
          FillFields(fields, d, olds', i + 1) == Err(SetValue(fields[j].shape, d[WireName(fields[j])], olds'[j]).error);
        assert olds'[j] == olds[j];
        assert forall l :: i < l < j ==> olds'[l] == olds[l];
        assert FirstFieldError(fields, d, olds, i, j);
      } else {
        assert FirstFieldError(fields, d, olds, i, i);
      }
    }
  }

  /** A dictionary fills a struct exactly when every selected field accepts its entry. */
  lemma StructRule(fs: seq<Field>, d: map<seq<byte>, Value>, cur: Dest)
    requires Conforms(cur, Struct(fs))
    ensures FillStruct(Struct(fs), Dict(d), cur).Ok? <==>
      forall j :: 0 <= j < |fs| && Selected(fs[j], d) ==> SetValue(fs[j].shape, d[WireName(fs[j])], cur.fields[j]).Ok?
  {
    if FillStruct(Struct(fs), Dict(d), cur).Ok? {
      forall j | 0 <= j < |fs| && Selected(fs[j], d) ensures SetValue(fs[j].shape, d[WireName(fs[j])], cur.fields[j]).Ok? {
        FillFieldsAt(fs, d, cur.fields, 0, j);
      }
    } else if forall j :: 0 <= j < |fs| && Selected(fs[j], d) ==> SetValue(fs[j].shape, d[WireName(fs[j])], cur.fields[j]).Ok? {
      FillFieldsSucceeds(fs, d, cur.fields, 0);
    }
  }

  /** Unexported fields, fields tagged "-" and fields whose wire name is not a key keep
      their contents; every other field holds the projection of its entry. */
  lemma StructField(fs: seq<Field>, d: map<seq<byte>, Value>, cur: Dest, j: nat)
    requires Conforms(cur, Struct(fs)) && j < |fs|
    requires FillStruct(Struct(fs), Dict(d), cur).Ok?
    ensures var r := FillStruct(Struct(fs), Dict(d), cur).value;
      (!fs[j].exported || WireName(fs[j]) == Dash || WireName(fs[j]) !in d ==> r.fields[j] == cur.fields[j]) &&
      (Selected(fs[j], d) ==> Ok(r.fields[j]) == SetValue(fs[j].shape, d[WireName(fs[j])], cur.fields[j]))
  {
    FillFieldsAt(fs, d, cur.fields, 0, j);
  }

  /** A dictionary handed to fillStruct lands on a struct, through any number of
      pointers; on every other kind, maps and `any` included, it is an error. */
  lemma DictOnlyIntoStruct(s: Shape, d: map<seq<byte>, Value>, cur: Dest)
    requires Conforms(cur, s) && !s.Ptr? && !s.Struct?
    ensures FillStruct(s, Dict(d), cur) == Err(DictIntoNonStruct)
  {
  }

  /** A nil pointer is allocated, and the value is projected onto the pointee. */
  lemma NilPointerAllocated(t: Shape, data: Value)
    ensures var r := FillStruct(Ptr(t), data, DNilPtr); var inner := FillStruct(t, data, Zero(t));
      r.Ok? == inner.Ok? && (r.Ok? ==> r.value == DPtr(inner.value))
  {
  }

  // ----- Scalars -----

  /** A string destination takes only a byte string, which replaces whatever string
      it held. */
  lemma TextRule(data: Value, cur: Dest)
    requires Conforms(cur, Text)
    ensures SetValue(Text, data, cur).Ok? <==> data.Str?
    ensures data.Str? ==> SetValue(Text, data, cur).value == DText(data.s)
  {
  }

  /** A signed destination takes any integer, negative ones included, or a byte string
      holding the decimal spelling of an int, with or without a minus sign, whatever
      int it held. A digit run, leading zeros allowed, is read by its value and
      refused above the int range. */
  lemma SignedIntRule(i: int, n: nat, ds: seq<byte>, cur: Dest)
    requires Conforms(cur, SignedInt)
    ensures SetValue(SignedInt, Int(i), cur) == Ok(DInt(i))
    ensures n <= MaxInt64 ==> SetValue(SignedInt, Str(Decimal(n)), cur) == Ok(DInt(n))
    ensures n <= -MinInt64 ==> SetValue(SignedInt, Str([Minus] + Decimal(n)), cur) == Ok(DInt(-(n as int)))
    ensures n > MaxInt64 ==> SetValue(SignedInt, Str(Decimal(n)), cur) == Err(NumericStringInvalid)
    ensures |ds| > 0 && AllDigits(ds) ==>
      SetValue(SignedInt, Str(ds), cur) ==
        if DigitsValue(ds) <= MaxInt64 then Ok(DInt(DigitsValue(ds))) else Err(NumericStringInvalid)
  {
    if n <= MaxInt64 {
      AtoiDecimal(n);
    } else {
      DigitsValueOfDecimal(n);
      AtoiRejectsOverflow(Decimal(n));
    }
    if n <= -MinInt64 {
      AtoiNegativeDecimal(n);
    }
    if |ds| > 0 && AllDigits(ds) {
      SignedIntDigits(ds, cur);
    }
  }

  /** A digit run, leading zeros allowed, is read by its value and refused above the
      int range. */
  lemma SignedIntDigits(ds: seq<byte>, cur: Dest)
    requires Conforms(cur, SignedInt)
    requires |ds| > 0 && AllDigits(ds)
    ensures DigitsValue(ds) <= MaxInt64 ==> SetValue(SignedInt, Str(ds), cur) == Ok(DInt(DigitsValue(ds)))
    ensures DigitsValue(ds) > MaxInt64 ==> SetValue(SignedInt, Str(ds), cur) == Err(NumericStringInvalid)
  {
    ParseDigitsValue(ds);
    assert IsDigit(ds[0]);
  }

  /** A byte string whose last byte is not a digit is not a number. */
  lemma SignedIntRejectsText(s: seq<byte>, cur: Dest)
    requires Conforms(cur, SignedInt)
    requires s == [] || !IsDigit(s[|s| - 1])
    ensures SetValue(SignedInt, Str(s), cur) == Err(NumericStringInvalid)
  {
    if s != [] && |s| > 1 && (s[0] == Minus || s[0] == Plus) {
      assert s[1..][|s| - 2] == s[|s| - 1];
    }
  }

  /** Anything but an integer or a byte string does not fit a signed destination. */
  lemma SignedIntMismatch(data: Value, cur: Dest)
    requires Conforms(cur, SignedInt) && !data.Int? && !data.Str?
    ensures SetValue(SignedInt, data, cur) == Err(TypeMismatch)
  {
  }

  /** An unsigned destination takes only a non-negative integer, whatever it held. */
  lemma UnsignedRule(data: Value, byteSized: bool, cur: Dest)
    requires Conforms(cur, Unsigned(byteSized))
    ensures SetValue(Unsigned(byteSized), data, cur).Ok? <==> data.Int? && data.i >= 0
    ensures data.Int? && data.i >= 0 ==> SetValue(Unsigned(byteSized), data, cur).value == DUint(data.i)
  {
  }

  /** A boolean destination takes an integer: true exactly when it is not zero,
      whatever it held. */
  lemma BooleanRule(data: Value, cur: Dest)
    requires Conforms(cur, Boolean)
    ensures SetValue(Boolean, data, cur).Ok? <==> data.Int?
    ensures data.Int? ==> SetValue(Boolean, data, cur).value == DBool(data.i != 0)
  {
  }

  /** An empty interface holds the decoded value as it is; a missing value has no
      reflect representation. A non-empty interface takes nothing. */
  lemma InterfaceRule(data: Value, n: nat, cur: Dest)
    requires Conforms(cur, Interface(n))
    ensures n == 0 && data != Nothing ==> SetValue(Interface(n), data, cur) == Ok(DIface(data))
    ensures n == 0 && data == Nothing ==> SetValue(Interface(n), data, cur) == Err(NilValue)
    ensures n != 0 ==> SetValue(Interface(n), data, cur) == Err(NonEmptyInterface)
  {
  }

  // ----- Slices -----

  /** An element can be projected from the zero value of the element type. */
  predicate ElemFits(e: Shape, v: Value)
  {
    SetValue(e, v, Zero(e)).Ok?
  }

  /** One round of a successful element loop: the element at i fits and is put
      in front of the rest. */
  lemma SetElemsHead(e: Shape, items: seq<Value>, i: nat)
    requires i < |items| && SetElems(e, items, i).Ok?
    ensures ElemFits(e, items[i]) && SetElems(e, items, i + 1).Ok?
    ensures SetElems(e, items, i).value == [SetValue(e, items[i], Zero(e)).value] + SetElems(e, items, i + 1).value
  {
  }

  /** Element j after the element loop from i on: projected from the zero value. */
  lemma {:induction false} SetElemsAt(e: Shape, items: seq<Value>, i: nat, j: nat)
    requires i <= j < |items| && SetElems(e, items, i).Ok?
    ensures var r := SetElems(e, items, i).value; var x := SetValue(e, items[j], Zero(e));
      |r| == |items| - i && x.Ok? && r[j - i] == x.value
    decreases |items| - i
  {
    SetElemsHead(e, items, i);
    if i < j {
      SetElemsAt(e, items, i + 1, j);
      var rest := SetElems(e, items, i + 1).value;
      assert SetElems(e, items, i).value[j - i] == rest[j - i - 1];
    }
  }

  /** Every item from i on fits. */
  predicate AllFit(e: Shape, items: seq<Value>, i: nat)
  {
    forall l :: i <= l < |items| ==> ElemFits(e, items[l])
  }

  lemma {:induction false} SetElemsSucceeds(e: Shape, items: seq<Value>, i: nat)
    requires i <= |items| && AllFit(e, items, i)
    ensures SetElems(e, items, i).Ok?
    decreases |items| - i
  {
    if i < |items| {
      assert ElemFits(e, items[i]) && AllFit(e, items, i + 1);
      SetElemsSucceeds(e, items, i + 1);
      SetElemsCons(e, items, i);
    }
  }

  /** An element that fits, followed by a successful rest, is a successful round. */
  lemma SetElemsCons(e: Shape, items: seq<Value>, i: nat)
    requires i < |items| && ElemFits(e, items[i]) && SetElems(e, items, i + 1).Ok?
    ensures SetElems(e, items, i).Ok?
  {
  }

  /** A failing element loop reports the error of the first element that fails. */
  lemma {:induction false} SetElemsFails(e: Shape, items: seq<Value>, i: nat)
    requires i <= |items| && !SetElems(e, items, i).Ok?
    ensures exists j :: (i <= j < |items| && !ElemFits(e, items[j]) &&
      (forall l :: i <= l < j ==> ElemFits(e, items[l])) &&
      SetElems(e, items, i) == Propagate(SetValue(e, items[j], Zero(e))))
    decreases |items| - i
  {
    if ElemFits(e, items[i]) {
      SetElemsFails(e, items, i + 1);
      var j :| i + 1 <= j < |items| && !ElemFits(e, items[j]) &&
        (forall l :: i + 1 <= l < j ==> ElemFits(e, items[l])) &&
        SetElems(e, items, i + 1) == Propagate(SetValue(e, items[j], Zero(e)));
      assert forall l :: i <= l < j ==> ElemFits(e, items[l]);
    }
  }

  /** A list fills a slice with a new slice of exactly its length, in order, whatever
      the slice held before, and only when every element succeeds. */
  lemma SliceRule(e: Shape, items: seq<Value>, cur: Dest)
    requires Conforms(cur, Slice(e))
    ensures var r := SetValue(Slice(e), List(items), cur);
      (r.Ok? <==> forall j :: 0 <= j < |items| ==> ElemFits(e, items[j])) &&
      (r.Ok? ==> |r.value.elems| == |items| && forall j :: 0 <= j < |items| ==> Ok(r.value.elems[j]) == SetValue(e, items[j], Zero(e)))
  {
    var r := SetElems(e, items, 0);
    if r.Ok? {
      forall j | 0 <= j < |items| ensures Ok(r.value[j]) == SetValue(e, items[j], Zero(e)) {
        SetElemsAt(e, items, 0, j);
      }
    } else if forall j :: 0 <= j < |items| ==> ElemFits(e, items[j]) {
      assert AllFit(e, items, 0);
      SetElemsSucceeds(e, items, 0);
    }
  }

  /** A byte string fills a []byte verbatim. */
  lemma ByteSliceRule(s: seq<byte>, cur: Dest)
    requires Conforms(cur, Slice(Unsigned(true)))
    ensures var r := SetValue(Slice(Unsigned(true)), Str(s), cur);
      r.Ok? && |r.value.elems| == |s| && forall j :: 0 <= j < |s| ==> r.value.elems[j] == DUint(s[j] as nat)
  {
  }

  // ----- Maps -----

  /** Both the key and the value of an entry can be projected from zero values. */
  predicate EntryFits(k: Shape, e: Shape, key: seq<byte>, d: map<seq<byte>, Value>)
    requires key in d
  {
    SetValue(k, Str(key), Zero(k)).Ok? && SetValue(e, d[key], Zero(e)).Ok?
  }

  /** Some key of ks projects to x. */
  ghost predicate Projected(k: Shape, ks: seq<seq<byte>>, x: Dest)
  {
    exists j :: 0 <= j < |ks| && SetValue(k, Str(ks[j]), Zero(k)) == Ok(x)
  }

  lemma ProjectedTail(k: Shape, ks: seq<seq<byte>>, x: Dest)
    requires ks != []
    ensures Projected(k, ks, x) <==> SetValue(k, Str(ks[0]), Zero(k)) == Ok(x) || Projected(k, ks[1..], x)
  {
    if Projected(k, ks, x) && SetValue(k, Str(ks[0]), Zero(k)) != Ok(x) {
      var j :| 0 <= j < |ks| && SetValue(k, Str(ks[j]), Zero(k)) == Ok(x);
      assert ks[1..][j - 1] == ks[j];
    }
    if Projected(k, ks[1..], x) {
      var j :| 0 <= j < |ks[1..]| && SetValue(k, Str(ks[1..][j]), Zero(k)) == Ok(x);
      assert ks[j + 1] == ks[1..][j];
    }
  }

  /** The entry loop gets past its first key only when that entry fits. */
  lemma EntriesHeadFits(k: Shape, e: Shape, ks: seq<seq<byte>>, d: map<seq<byte>, Value>, acc: map<Dest, Dest>)
    requires KeysIn(ks, d) && EntriesConform(acc, k, e) && ks != []
    ensures SetEntries(k, e, ks, d, acc).Ok? ==> EntryFits(k, e, ks[0], d)
  {
  }

  /** An entry that fits, projected to pk and pv, is added and the loop goes on. */
  lemma EntriesHead(k: Shape, e: Shape, ks: seq<seq<byte>>, d: map<seq<byte>, Value>, acc: map<Dest, Dest>, pk: Dest, pv: Dest)
    requires KeysIn(ks, d) && EntriesConform(acc, k, e)
    requires ks != [] && SetValue(k, Str(ks[0]), Zero(k)) == Ok(pk) && SetValue(e, d[ks[0]], Zero(e)) == Ok(pv)
    ensures KeysIn(ks[1..], d) && EntriesConform(acc[pk := pv], k, e)
    ensures SetEntries(k, e, ks, d, acc) == SetEntries(k, e, ks[1..], d, acc[pk := pv])
  {
    assert KeysIn(ks[1..], d) by {
      forall key | key in ks[1..] ensures key in d { assert key in ks; }
    }
    InsertConforms(acc, k, e, pk, pv);
  }

  /** Inserting a key and a value of the right types keeps a map's entries typed. */
  lemma InsertConforms(acc: map<Dest, Dest>, k: Shape, e: Shape, pk: Dest, pv: Dest)
    requires EntriesConform(acc, k, e) && Conforms(pk, k) && Conforms(pv, e)
    ensures EntriesConform(acc[pk := pv], k, e)
  {
  }

  /** The same round with the projected key and value named by the entry itself. */
  lemma HeadStep(k: Shape, e: Shape, ks: seq<seq<byte>>, d: map<seq<byte>, Value>, acc: map<Dest, Dest>) returns (acc': map<Dest, Dest>)
    requires KeysIn(ks, d) && EntriesConform(acc, k, e)
    requires ks != [] && EntryFits(k, e, ks[0], d)
    ensures KeysIn(ks[1..], d) && EntriesConform(acc', k, e)
    ensures SetEntries(k, e, ks, d, acc) == SetEntries(k, e, ks[1..], d, acc')
    ensures acc' == acc[SetValue(k, Str(ks[0]), Zero(k)).value := SetValue(e, d[ks[0]], Zero(e)).value]
  {
    var pk := SetValue(k, Str(ks[0]), Zero(k)).value;
    var pv := SetValue(e, d[ks[0]], Zero(e)).value;
    EntriesHead(k, e, ks, d, acc, pk, pv);
    acc' := acc[pk := pv];
  }

  /** The entry loop over any enumeration ks of the keys fails unless every entry fits. */
  lemma {:induction false} SetEntriesFits(k: Shape, e: Shape, ks: seq<seq<byte>>, d: map<seq<byte>, Value>, acc: map<Dest, Dest>, r: map<Dest, Dest>, j: nat)
    requires KeysIn(ks, d) && EntriesConform(acc, k, e)
    requires j < |ks| && SetEntries(k, e, ks, d, acc) == Ok(r)
    ensures EntryFits(k, e, ks[j], d)
    decreases |ks|
  {
    EntriesHeadFits(k, e, ks, d, acc);
    if j > 0 {
      var acc' := HeadStep(k, e, ks, d, acc);
      assert ks[1..][j - 1] == ks[j];
      SetEntriesFits(k, e, ks[1..], d, acc', r, j - 1);
    }
  }

  lemma {:induction false} SetEntriesSucceeds(k: Shape, e: Shape, ks: seq<seq<byte>>, d: map<seq<byte>, Value>, acc: map<Dest, Dest>)
    requires KeysIn(ks, d) && EntriesConform(acc, k, e)
    requires forall j :: 0 <= j < |ks| ==> EntryFits(k, e, ks[j], d)
    ensures SetEntries(k, e, ks, d, acc).Ok?
    decreases |ks|
  {
    if ks != [] {
      assert EntryFits(k, e, ks[0], d);
      var acc' := HeadStep(k, e, ks, d, acc);
      assert forall j :: 0 <= j < |ks| - 1 ==> ks[1..][j] == ks[j + 1];
      SetEntriesSucceeds(k, e, ks[1..], d, acc');
    }
  }

  /** After an entry loop over any enumeration ks that yields r, x is a key exactly when
      it was one before or some key of ks projects to it, and a key no key of ks
      projects to keeps its value. */
  lemma {:induction false} SetEntriesDomain(k: Shape, e: Shape, ks: seq<seq<byte>>, d: map<seq<byte>, Value>, acc: map<Dest, Dest>, r: map<Dest, Dest>, x: Dest)
    requires KeysIn(ks, d) && EntriesConform(acc, k, e)
    requires SetEntries(k, e, ks, d, acc) == Ok(r)
    ensures x in r <==> x in acc || Projected(k, ks, x)
    ensures x in acc && !Projected(k, ks, x) ==> r[x] == acc[x]
    decreases |ks|
  {
    if ks != [] {
      EntriesHeadFits(k, e, ks, d, acc);
      var acc' := HeadStep(k, e, ks, d, acc);
      SetEntriesDomain(k, e, ks[1..], d, acc', r, x);
      ProjectedTail(k, ks, x);
    }
  }

  /** The entry under key projects to the key x and the value y. */
  predicate ProjectsTo(k: Shape, e: Shape, key: seq<byte>, d: map<seq<byte>, Value>, x: Dest, y: Dest)
    requires key in d
  {
    SetValue(k, Str(key), Zero(k)) == Ok(x) && SetValue(e, d[key], Zero(e)) == Ok(y)
  }

  /** After an entry loop that yields r, a key that some key of ks projects to holds the
      projection of the value of one such key. */
  lemma {:induction false} SetEntriesValue(k: Shape, e: Shape, ks: seq<seq<byte>>, d: map<seq<byte>, Value>, acc: map<Dest, Dest>, r: map<Dest, Dest>, x: Dest)
    requires KeysIn(ks, d) && EntriesConform(acc, k, e)
    requires SetEntries(k, e, ks, d, acc) == Ok(r) && Projected(k, ks, x)
    ensures x in r && exists j :: 0 <= j < |ks| && ProjectsTo(k, e, ks[j], d, x, r[x])
    decreases |ks|
  {
    EntriesHeadFits(k, e, ks, d, acc);
    var acc' := HeadStep(k, e, ks, d, acc);
    var tail := ks[1..];
    ProjectedTail(k, ks, x);
    if Projected(k, tail, x) {
      SetEntriesValue(k, e, tail, d, acc', r, x);
      var j :| 0 <= j < |tail| && ProjectsTo(k, e, tail[j], d, x, r[x]);
      assert ks[j + 1] == tail[j];
    } else {
      SetEntriesDomain(k, e, tail, d, acc', r, x);
      var pv := SetValue(e, d[ks[0]], Zero(e)).value;
      assert r[x] == acc'[x] == pv;
      assert ProjectsTo(k, e, ks[0], d, x, r[x]);
    }
  }

  /** A dictionary fills a map exactly when every entry fits. A nil map is allocated and
      holds one entry per projected key; a map that exists is merged into and keeps
      every entry no projected key replaces. */
  lemma MapRule(k: Shape, e: Shape, d: map<seq<byte>, Value>, cur: Dest)
    requires Conforms(cur, MapOf(k, e))
    ensures var r := SetValue(MapOf(k, e), Dict(d), cur); var ks := SortedKeys(d.Keys);
      (r.Ok? <==> forall key :: key in d ==> EntryFits(k, e, key, d)) &&
      (r.Ok? && cur.DNilMap? ==> forall x :: x in r.value.entries <==> Projected(k, ks, x)) &&
      (r.Ok? && cur.DMap? ==> forall x :: x in cur.entries && !Projected(k, ks, x) ==> x in r.value.entries && r.value.entries[x] == cur.entries[x])
  {
    var base := if cur.DNilMap? then map[] else cur.entries;
    MapLoop(k, e, SortedKeys(d.Keys), d, base);
  }

  /** The entry loop over an enumeration of all of d's keys, on top of base. */
  lemma MapLoop(k: Shape, e: Shape, ks: seq<seq<byte>>, d: map<seq<byte>, Value>, base: map<Dest, Dest>)
    requires KeysIn(ks, d) && EntriesConform(base, k, e)
    requires forall key :: key in d ==> key in ks
    ensures var r := SetEntries(k, e, ks, d, base);
      (r.Ok? <==> forall key :: key in d ==> EntryFits(k, e, key, d)) &&
      (r.Ok? ==> forall x :: (x in r.value <==> x in base || Projected(k, ks, x)) && (x in base && !Projected(k, ks, x) ==> r.value[x] == base[x]))
  {
    var r := SetEntries(k, e, ks, d, base);
    if r.Ok? {
      forall key | key in d ensures EntryFits(k, e, key, d) {
        var j :| 0 <= j < |ks| && ks[j] == key;
        SetEntriesFits(k, e, ks, d, base, r.value, j);
      }
      forall x ensures (x in r.value <==> x in base || Projected(k, ks, x)) && (x in base && !Projected(k, ks, x) ==> r.value[x] == base[x]) {
        SetEntriesDomain(k, e, ks, d, base, r.value, x);
      }
    } else if forall key :: key in d ==> EntryFits(k, e, key, d) {
      assert forall j :: 0 <= j < |ks| ==> EntryFits(k, e, ks[j], d) by {
        forall j | 0 <= j < |ks| ensures EntryFits(k, e, ks[j], d) { assert ks[j] in d; }
      }
      SetEntriesSucceeds(k, e, ks, d, base);
    }
  }

  /** A key of the filled map that some dictionary key projects to holds the
      projection of that key's value. */
  lemma MapEntry(k: Shape, e: Shape, d: map<seq<byte>, Value>, cur: Dest, x: Dest)
    requires Conforms(cur, MapOf(k, e))
    requires SetValue(MapOf(k, e), Dict(d), cur).Ok? && Projected(k, SortedKeys(d.Keys), x)
    ensures var r := SetValue(MapOf(k, e), Dict(d), cur).value;
      x in r.entries && exists key :: key in d && ProjectsTo(k, e, key, d, x, r.entries[x])
  {
    var base := if cur.DNilMap? then map[] else cur.entries;
    var ks := SortedKeys(d.Keys);
    var r := SetEntries(k, e, ks, d, base).value;
    SetEntriesValue(k, e, ks, d, base, r, x);
    var j :| 0 <= j < |ks| && ProjectsTo(k, e, ks[j], d, x, r[x]);
    assert ks[j] in d;
  }
}
