/** What the decoder promises, stated over the functions of BencodeGrammar: the
    encoding of every well-formed value decodes back to it, alone, inside a list or
    dictionary, and as one of a stream of concatenated values. The step lemmas here
    are shared with BencodeTokenProperties and BencodeCompositeProperties. */
module BencodeGrammarProperties {
  import opened BencodeValues
  import opened BencodeGrammar

  /** The bytes e lie in buf from position p on, one byte at a time. */
  ghost predicate At(buf: seq<byte>, p: nat, e: seq<byte>)
    decreases |e|
  {
    p + |e| <= |buf| && (e == [] || (buf[p] == e[0] && At(buf, p + 1, e[1..])))
  }

  lemma {:induction false} AtSplit(buf: seq<byte>, p: nat, a: seq<byte>, b: seq<byte>)
    requires At(buf, p, a + b)
    ensures At(buf, p, a) && At(buf, p + |a|, b)
    decreases |a|
  {
    if a == [] {
      assert a + b == b;
    } else {
      assert (a + b)[1..] == a[1..] + b;
      AtSplit(buf, p + 1, a[1..], b);
    }
  }

  lemma {:induction false} AtSlice(buf: seq<byte>, p: nat, e: seq<byte>)
    requires At(buf, p, e)
    ensures buf[p..p + |e|] == e
    decreases |e|
  {
    if e != [] {
      AtSlice(buf, p + 1, e[1..]);
      assert buf[p..p + |e|] == [buf[p]] + buf[p + 1..p + |e|];
      assert e == [e[0]] + e[1..];
    }
  }

  lemma {:induction false} AtSuffix(buf: seq<byte>, p: nat)
    requires p <= |buf|
    ensures At(buf, p, buf[p..])
    decreases |buf| - p
  {
    if p < |buf| {
      assert buf[p..][1..] == buf[p + 1..];
      AtSuffix(buf, p + 1);
    }
  }

  lemma AtFirst(buf: seq<byte>, p: nat, e: seq<byte>)
    requires At(buf, p, e) && |e| > 0
    ensures p < |buf| && buf[p] == e[0]
  {
  }

  // ----- A reference encoder: the token grammar written forwards -----

  /** Values the encoder can write and the decoder can read back: no Nothing,
      integers in the int64 range, byte strings whose length Atoi accepts. */
  ghost predicate Encodable(v: Value)
  {
    match v
    case Nothing => false
    case Int(n) => InInt64(n)
    case Str(s) => |s| <= MaxInt64
    case List(items) => forall i :: 0 <= i < |items| ==> Encodable(items[i])
    case Dict(d) => forall k :: k in d ==> |k| <= MaxInt64 && Encodable(d[k])
  }

  function EncodeStr(s: seq<byte>): seq<byte> { Decimal(|s|) + [Colon] + s }

  function EncodeInt(n: int): seq<byte>
  {
    [IntegerMark] + (if n < 0 then [Minus] + Decimal(-n) else Decimal(n)) + [EndMark]
  }

  /** The encoding of a value; dictionary keys are written in ascending byte order. */
  function Encode(v: Value): seq<byte>
    decreases v, 1
  {
    match v
    case Nothing => []
    case Int(n) => EncodeInt(n)
    case Str(s) => EncodeStr(s)
    case List(items) => [ListMark] + EncodeItems(v, 0) + [EndMark]
    case Dict(d) => [DictMark] + EncodeEntries(v, SortedKeys(d.Keys), 0) + [EndMark]
  }

  /** The encodings of the items of a list from index i on, back to back. */
  function EncodeItems(whole: Value, i: nat): seq<byte>
    requires whole.List? && i <= |whole.items|
    decreases whole, 0, |whole.items| - i
  {
    if i == |whole.items| then [] else Encode(whole.items[i]) + EncodeItems(whole, i + 1)
  }

  /** The key/value encodings of a dictionary for the keys ks from index i on. */
  function EncodeEntries(whole: Value, ks: seq<seq<byte>>, i: nat): seq<byte>
    requires whole.Dict? && i <= |ks| && forall j :: 0 <= j < |ks| ==> ks[j] in whole.entries
    decreases whole, 0, |ks| - i
  {
    if i == |ks| then [] else EncodeEntry(whole, ks[i]) + EncodeEntries(whole, ks, i + 1)
  }

  /** One dictionary entry: the key as a byte string, then the value. */
  function EncodeEntry(whole: Value, k: seq<byte>): seq<byte>
    requires whole.Dict? && k in whole.entries
    decreases whole, 0, 0
  {
    EncodeStr(k) + Encode(whole.entries[k])
  }

  /** acc after inserting the entries of d for the keys ks[i..], in that order. */
  function InsertAll(acc: map<seq<byte>, Value>, d: map<seq<byte>, Value>, ks: seq<seq<byte>>, i: nat): map<seq<byte>, Value>
    requires i <= |ks| && forall k :: k in ks ==> k in d
    decreases |ks| - i
  {
    if i == |ks| then acc else InsertAll(acc[ks[i] := d[ks[i]]], d, ks, i + 1)
  }

  lemma {:induction false} InsertAllContents(acc: map<seq<byte>, Value>, d: map<seq<byte>, Value>, ks: seq<seq<byte>>, i: nat)
    requires i <= |ks| && forall k :: k in ks ==> k in d
    ensures forall k :: k in InsertAll(acc, d, ks, i) <==> k in acc || k in ks[i..]
    ensures forall k :: k in ks[i..] ==> InsertAll(acc, d, ks, i)[k] == d[k]
    ensures forall k :: k in acc && k !in ks[i..] ==> InsertAll(acc, d, ks, i)[k] == acc[k]
    decreases |ks| - i
  {
    if i < |ks| {
      InsertAllContents(acc[ks[i] := d[ks[i]]], d, ks, i + 1);
      assert ks[i..] == [ks[i]] + ks[i + 1..];
    }
  }

  /** Inserting every key of d, in any enumeration, starting from nothing gives d. */
  lemma InsertAllKeys(d: map<seq<byte>, Value>, ks: seq<seq<byte>>)
    requires forall k :: k in ks <==> k in d
    ensures InsertAll(map[], d, ks, 0) == d
  {
    InsertAllContents(map[], d, ks, 0);
    assert ks[0..] == ks;
  }

  lemma EncodeFirstByte(v: Value)
    requires Encodable(v)
    ensures |Encode(v)| > 0
    ensures var b := Encode(v)[0]; b != EndMark && b != Null
  {
    match v
    case Int(n) =>
    case Str(s) =>
    case List(_) =>
    case Dict(_) =>
  }

  // ----- Digit runs and the two scalar tokens -----

  /** A run of digits lying at q, followed by a non-digit or the end, is the digit
      run DigitRunEnd finds. */
  lemma {:induction false} DigitRunAt(buf: seq<byte>, q: nat, ds: seq<byte>)
    requires At(buf, q, ds) && AllDigits(ds)
    requires q + |ds| < |buf| ==> !IsDigit(buf[q + |ds|])
    ensures DigitRunEnd(buf, q) == q + |ds|
    decreases |ds|
  {
    if ds != [] {
      assert IsDigit(ds[0]);
      assert AllDigits(ds[1..]) by {
        forall k | 0 <= k < |ds| - 1 ensures IsDigit(ds[1..][k]) { assert ds[1..][k] == ds[k + 1]; }
      }
      DigitRunAt(buf, q + 1, ds[1..]);
    }
  }

  /** A byte string token: the declared length, a colon, exactly that many bytes. */
  lemma ParseStringAt(buf: seq<byte>, p: nat, s: seq<byte>)
    requires |s| <= MaxInt64 && At(buf, p, EncodeStr(s))
    ensures ParseString(buf, p) == Step(Ok(s), p + |EncodeStr(s)|)
  {
    var ds := Decimal(|s|);
    AtoiDecimal(|s|);
    AtSplit(buf, p, ds + [Colon], s);
    AtSplit(buf, p, ds, [Colon]);
    ParseStringToken(buf, p, ds, s);
  }

  lemma ParseStringToken(buf: seq<byte>, p: nat, ds: seq<byte>, s: seq<byte>)
    requires AllDigits(ds) && Atoi(ds) == Some(|s|)
    requires At(buf, p, ds) && p + |ds| < |buf| && buf[p + |ds|] == Colon && At(buf, p + |ds| + 1, s)
    ensures ParseString(buf, p) == Step(Ok(s), p + |ds| + 1 + |s|)
  {
    var j := p + |ds|;
    DigitRunAt(buf, p, ds);
    AtSlice(buf, p, ds);
    AtSlice(buf, j + 1, s);
    ParseStringOk(buf, p, j, |s|);
  }

  /** The success path of decodeString once the length digits have been read. */
  lemma ParseStringOk(buf: seq<byte>, p: nat, j: nat, length: nat)
    requires p <= j < |buf| && DigitRunEnd(buf, p) == j && buf[j] == Colon
    requires Atoi(buf[p..j]) == Some(length) && j + 1 + length <= |buf|
    ensures ParseString(buf, p) == Step(Ok(buf[j + 1..j + 1 + length]), j + 1 + length)
  {
  }

  /** An integer token: 'i', an optional '-', the digits, 'e'. */
  lemma ParseIntegerAt(buf: seq<byte>, p: nat, n: int)
    requires InInt64(n) && At(buf, p, EncodeInt(n))
    ensures ParseInteger(buf, p) == Step(Ok(n), p + |EncodeInt(n)|)
  {
    if n < 0 {
      var ds := Decimal(-n);
      assert EncodeInt(n) == [IntegerMark] + ([Minus] + ds) + [EndMark];
      AtoiNegativeDecimal(-n);
      ParseIntegerToken(buf, p, true, ds, n);
    } else {
      var ds := Decimal(n);
      assert EncodeInt(n) == [IntegerMark] + ([] + ds) + [EndMark];
      AtoiDecimal(n);
      ParseIntegerToken(buf, p, false, ds, n);
    }
  }

  lemma ParseIntegerToken(buf: seq<byte>, p: nat, negative: bool, ds: seq<byte>, n: int)
    requires |ds| > 0 && AllDigits(ds)
    requires Atoi(if negative then [Minus] + ds else ds) == Some(n)
    requires At(buf, p, [IntegerMark] + ((if negative then [Minus] else []) + ds) + [EndMark])
    ensures ParseInteger(buf, p) == Step(Ok(n), p + (if negative then 3 else 2) + |ds|)
  {
    var sign := if negative then [Minus] else [];
    AtSplit(buf, p, [IntegerMark] + (sign + ds), [EndMark]);
    AtSplit(buf, p, [IntegerMark], sign + ds);
    AtSplit(buf, p + 1, sign, ds);
    var q := p + 1 + |sign|;
    assert q < |buf| && buf[q] == ds[0] && buf[q + |ds|] == EndMark;
    ParseIntegerDigitsOk(buf, q, negative, ds, n);
  }

  /** The success path of the digit loop of decodeInteger. */
  lemma ParseIntegerDigitsOk(buf: seq<byte>, q: nat, negative: bool, ds: seq<byte>, n: int)
    requires AllDigits(ds) && Atoi(if negative then [Minus] + ds else ds) == Some(n)
    requires At(buf, q, ds) && q + |ds| < |buf| && buf[q + |ds|] == EndMark
    ensures ParseIntegerDigits(buf, q, negative) == Step(Ok(n), q + |ds| + 1)
  {
    DigitRunAt(buf, q, ds);
    AtSlice(buf, q, ds);
  }

  // ----- One step of each decoding loop -----

  lemma ValueOfInteger(buf: seq<byte>, p: nat, n: int, q: nat)
    requires p < |buf| && buf[p] == IntegerMark && ParseInteger(buf, p) == Step(Ok(n), q)
    ensures ParseValue(buf, p) == Step(Ok(Int(n)), q)
  {
  }

  lemma ValueOfString(buf: seq<byte>, p: nat, s: seq<byte>, q: nat)
    requires p < |buf| && IsDigit(buf[p]) && ParseString(buf, p) == Step(Ok(s), q)
    ensures ParseValue(buf, p) == Step(Ok(Str(s)), q)
  {
  }

  lemma ValueOfList(buf: seq<byte>, p: nat, items: seq<Value>, q: nat)
    requires p < |buf| && buf[p] == ListMark && ParseListItems(buf, p + 1, []) == Step(Ok(items), q)
    ensures ParseValue(buf, p) == Step(Ok(List(items)), q)
  {
  }

  lemma ValueOfDict(buf: seq<byte>, p: nat, d: map<seq<byte>, Value>, q: nat)
    requires p < |buf| && buf[p] == DictMark && ParseDictEntries(buf, p + 1, map[]) == Step(Ok(d), q)
    ensures ParseValue(buf, p) == Step(Ok(Dict(d)), q)
  {
  }

  lemma ListItemsStep(buf: seq<byte>, p: nat, acc: seq<Value>, v: Value, q: nat)
    requires p < |buf| && buf[p] != EndMark && ParseValue(buf, p) == Step(Ok(v), q) && q != p
    ensures ParseListItems(buf, p, acc) == ParseListItems(buf, q, acc + [v])
  {
  }

  lemma DictEntriesStep(buf: seq<byte>, p: nat, acc: map<seq<byte>, Value>, k: seq<byte>, q: nat, v: Value, r: nat)
    requires p < |buf| && IsDigit(buf[p]) && ParseString(buf, p) == Step(Ok(k), q)
    requires q <= |buf| && ParseValue(buf, q) == Step(Ok(v), r)
    ensures ParseDictEntries(buf, p, acc) == ParseDictEntries(buf, r, acc[k := v])
  {
  }

  lemma ListItemsClose(buf: seq<byte>, p: nat, acc: seq<Value>)
    requires p < |buf| && buf[p] == EndMark
    ensures ParseListItems(buf, p, acc) == Step(Ok(acc), p + 1)
  {
  }

  lemma DictEntriesClose(buf: seq<byte>, p: nat, acc: map<seq<byte>, Value>)
    requires p < |buf| && buf[p] == EndMark
    ensures ParseDictEntries(buf, p, acc) == Step(Ok(acc), p + 1)
  {
  }

  lemma AllStep(buf: seq<byte>, p: nat, acc: seq<Value>, v: Value, q: nat)
    requires p < |buf| && ParseValue(buf, p) == Step(Ok(v), q) && q != p
    ensures ParseAll(buf, p, acc) == ParseAll(buf, q, acc + [v])
  {
  }

  /** The opening byte of an encoding, the closing 'e' of a list or dictionary. */
  lemma AtBracketed(buf: seq<byte>, p: nat, m: byte, e: seq<byte>)
    requires At(buf, p, [m] + e + [EndMark])
    ensures buf[p] == m && At(buf, p + 1, e) && buf[p + 1 + |e|] == EndMark
  {
    AtSplit(buf, p, [m] + e, [EndMark]);
    AtSplit(buf, p, [m], e);
  }

  lemma AppendNext<T>(acc: seq<T>, xs: seq<T>, i: nat)
    requires i < |xs|
    ensures acc + [xs[i]] + xs[i + 1..] == acc + xs[i..]
  {
    assert xs[i..] == [xs[i]] + xs[i + 1..];
  }

  lemma AppendAll<T>(xs: seq<T>)
    ensures [] + xs[0..] == xs
  {
    assert xs[0..] == xs;
  }

  lemma AppendRest<T>(acc: seq<T>, xs: seq<T>)
    ensures acc + xs[|xs|..] == acc
  {
    assert xs[|xs|..] == [];
  }

  // ----- Round trip -----

  /** Every encodable value decodes from its encoding, wherever it sits in the
      buffer, and the cursor ends just past it. */
  lemma RoundTrip(buf: seq<byte>, p: nat, v: Value)
    requires Encodable(v) && At(buf, p, Encode(v))
    ensures ParseValue(buf, p) == Step(Ok(v), p + |Encode(v)|)
    decreases v, 2
  {
    match v
    case Int(n) => IntegerRoundTrip(buf, p, n);
    case Str(s) => StringRoundTrip(buf, p, s);
    case List(items) => ListRoundTrip(buf, p, v);
    case Dict(d) => DictRoundTrip(buf, p, v);
  }

  lemma IntegerRoundTrip(buf: seq<byte>, p: nat, n: int)
    requires InInt64(n) && At(buf, p, EncodeInt(n))
    ensures ParseValue(buf, p) == Step(Ok(Int(n)), p + |EncodeInt(n)|)
  {
    ParseIntegerAt(buf, p, n);
    AtFirst(buf, p, EncodeInt(n));
    ValueOfInteger(buf, p, n, p + |EncodeInt(n)|);
  }

  lemma StringRoundTrip(buf: seq<byte>, p: nat, s: seq<byte>)
    requires |s| <= MaxInt64 && At(buf, p, EncodeStr(s))
    ensures ParseValue(buf, p) == Step(Ok(Str(s)), p + |EncodeStr(s)|)
  {
    ParseStringAt(buf, p, s);
    AtFirst(buf, p, EncodeStr(s));
    assert EncodeStr(s)[0] == Decimal(|s|)[0];
    ValueOfString(buf, p, s, p + |EncodeStr(s)|);
  }

  lemma ListRoundTrip(buf: seq<byte>, p: nat, v: Value)
    requires v.List? && Encodable(v) && At(buf, p, Encode(v))
    ensures ParseValue(buf, p) == Step(Ok(v), p + |Encode(v)|)
    decreases v, 1
  {
    var e := EncodeItems(v, 0);
    var end := p + 1 + |e|;
    assert Encode(v) == [ListMark] + e + [EndMark];
    AtBracketed(buf, p, ListMark, e);
    ItemsSkip(buf, p + 1, end, v, 0, []);
    AppendAll(v.items);
    ListItemsClose(buf, end, v.items);
    ValueOfList(buf, p, v.items, end + 1);
  }

  lemma DictRoundTrip(buf: seq<byte>, p: nat, v: Value)
    requires v.Dict? && Encodable(v) && At(buf, p, Encode(v))
    ensures ParseValue(buf, p) == Step(Ok(v), p + |Encode(v)|)
    decreases v, 1
  {
    var ks := SortedKeys(v.entries.Keys);
    DictEncoding(v);
    var e := EncodeEntries(v, ks, 0);
    var end := p + 1 + |e|;
    AtBracketed(buf, p, DictMark, e);
    EntriesSkip(buf, p + 1, end, v, ks, 0, map[]);
    InsertAllKeys(v.entries, ks);
    DictEntriesClose(buf, end, v.entries);
    ValueOfDict(buf, p, v.entries, end + 1);
  }

  /** The encoding of a dictionary: its entries in ascending key order, bracketed. */
  lemma DictEncoding(v: Value)
    requires v.Dict?
    ensures var ks := SortedKeys(v.entries.Keys);
      (forall k :: k in ks <==> k in v.entries) && (forall j :: 0 <= j < |ks| ==> ks[j] in v.entries) &&
      Encode(v) == [DictMark] + EncodeEntries(v, ks, 0) + [EndMark]
  {
  }

  /** One item of a list: its encoding is read back and the loop moves past it. */
  lemma ItemStep(buf: seq<byte>, p: nat, acc: seq<Value>, item: Value, q: nat)
    requires Encodable(item) && At(buf, p, Encode(item)) && q == p + |Encode(item)|
    ensures ParseListItems(buf, p, acc) == ParseListItems(buf, q, acc + [item])
    decreases item, 3
  {
    EncodeFirstByte(item);
    AtFirst(buf, p, Encode(item));
    RoundTrip(buf, p, item);
    ListItemsStep(buf, p, acc, item, q);
  }

  /** The encoding of the items from i on: the item at i, then the rest from q on. */
  lemma ItemsSplit(buf: seq<byte>, p: nat, whole: Value, i: nat) returns (q: nat)
    requires whole.List? && i < |whole.items|
    requires At(buf, p, EncodeItems(whole, i))
    ensures q == p + |Encode(whole.items[i])|
    ensures At(buf, p, Encode(whole.items[i]))
    ensures At(buf, q, EncodeItems(whole, i + 1))
    ensures p + |EncodeItems(whole, i)| == q + |EncodeItems(whole, i + 1)|
  {
    AtSplitAt(buf, p, EncodeItems(whole, i), Encode(whole.items[i]), EncodeItems(whole, i + 1));
    q := p + |Encode(whole.items[i])|;
  }

  lemma AtSplitAt(buf: seq<byte>, p: nat, all: seq<byte>, a: seq<byte>, b: seq<byte>)
    requires At(buf, p, all) && all == a + b
    ensures At(buf, p, a) && At(buf, p + |a|, b) && |all| == |a| + |b|
  {
    AtSplit(buf, p, a, b);
  }

  /** The step of ItemsSkip: the item at i is read back and the rest starts at q. */
  lemma ItemsNext(buf: seq<byte>, p: nat, end: nat, whole: Value, i: nat, acc: seq<Value>) returns (q: nat)
    requires whole.List? && Encodable(whole) && i < |whole.items|
    requires At(buf, p, EncodeItems(whole, i)) && end == p + |EncodeItems(whole, i)|
    ensures At(buf, q, EncodeItems(whole, i + 1)) && end == q + |EncodeItems(whole, i + 1)|
    ensures ParseListItems(buf, p, acc) == ParseListItems(buf, q, acc + [whole.items[i]])
    decreases whole, 0, |whole.items| - i, 0
  {
    q := ItemsSplit(buf, p, whole, i);
    ItemStep(buf, p, acc, whole.items[i], q);
  }

  /** The list loop reads the encodings of the items back one after another and
      reaches end with all of them collected, whatever follows. */
  lemma {:induction false} ItemsSkip(buf: seq<byte>, p: nat, end: nat, whole: Value, i: nat, acc: seq<Value>)
    requires whole.List? && Encodable(whole) && i <= |whole.items|
    requires At(buf, p, EncodeItems(whole, i)) && end == p + |EncodeItems(whole, i)|
    ensures ParseListItems(buf, p, acc) == ParseListItems(buf, end, acc + whole.items[i..])
    decreases whole, 0, |whole.items| - i
  {
    if i < |whole.items| {
      var item := whole.items[i];
      var q := ItemsNext(buf, p, end, whole, i, acc);
      ItemsSkip(buf, q, end, whole, i + 1, acc + [item]);
      AppendNext(acc, whole.items, i);
    } else {
      AppendRest(acc, whole.items);
    }
  }

  /** The encoding of one entry: the key as a byte string, then the value. */
  lemma EntryParts(buf: seq<byte>, p: nat, whole: Value, k: seq<byte>)
    requires whole.Dict? && k in whole.entries && At(buf, p, EncodeEntry(whole, k))
    ensures At(buf, p, EncodeStr(k)) && At(buf, p + |EncodeStr(k)|, Encode(whole.entries[k]))
    ensures |EncodeEntry(whole, k)| == |EncodeStr(k)| + |Encode(whole.entries[k])|
  {
    AtSplitAt(buf, p, EncodeEntry(whole, k), EncodeStr(k), Encode(whole.entries[k]));
  }

  /** One entry of a dictionary: its key and value encodings are read back and the
      loop moves past both, inserting the pair. */
  lemma EntryStep(buf: seq<byte>, p: nat, acc: map<seq<byte>, Value>, k: seq<byte>, v: Value, q: nat, r: nat)
    requires |k| <= MaxInt64 && Encodable(v)
    requires At(buf, p, EncodeStr(k)) && q == p + |EncodeStr(k)|
    requires At(buf, q, Encode(v)) && r == q + |Encode(v)|
    ensures ParseDictEntries(buf, p, acc) == ParseDictEntries(buf, r, acc[k := v])
    decreases v, 3
  {
    KeyAt(buf, p, k, EncodeStr(k));
    RoundTrip(buf, q, v);
    DictEntriesStep(buf, p, acc, k, q, v, r);
  }

  /** A dictionary key: a byte string token starting with a digit. */
  lemma KeyAt(buf: seq<byte>, p: nat, k: seq<byte>, ek: seq<byte>)
    requires |k| <= MaxInt64 && ek == EncodeStr(k) && At(buf, p, ek)
    ensures p < |buf| && IsDigit(buf[p]) && ParseString(buf, p) == Step(Ok(k), p + |ek|)
  {
    AtFirst(buf, p, ek);
    assert ek[0] == Decimal(|k|)[0];
    ParseStringAt(buf, p, k);
  }

  /** The encoding of the entries from i on: the entry for ks[i], then the rest from r on. */
  lemma EntriesSplit(buf: seq<byte>, p: nat, whole: Value, ks: seq<seq<byte>>, i: nat) returns (r: nat)
    requires whole.Dict? && i < |ks| && forall j :: 0 <= j < |ks| ==> ks[j] in whole.entries
    requires At(buf, p, EncodeEntries(whole, ks, i))
    ensures r == p + |EncodeEntry(whole, ks[i])|
    ensures At(buf, p, EncodeEntry(whole, ks[i]))
    ensures At(buf, r, EncodeEntries(whole, ks, i + 1))
    ensures p + |EncodeEntries(whole, ks, i)| == r + |EncodeEntries(whole, ks, i + 1)|
  {
    AtSplitAt(buf, p, EncodeEntries(whole, ks, i), EncodeEntry(whole, ks[i]), EncodeEntries(whole, ks, i + 1));
    r := p + |EncodeEntry(whole, ks[i])|;
  }

  /** The step of EntriesSkip: the entry for ks[i] is read back and the rest starts at r. */
  lemma EntriesNext(buf: seq<byte>, p: nat, whole: Value, ks: seq<seq<byte>>, i: nat, acc: map<seq<byte>, Value>) returns (r: nat)
    requires whole.Dict? && i < |ks| && forall j :: 0 <= j < |ks| ==> ks[j] in whole.entries
    requires |ks[i]| <= MaxInt64 && Encodable(whole.entries[ks[i]])
    requires At(buf, p, EncodeEntries(whole, ks, i))
    ensures At(buf, r, EncodeEntries(whole, ks, i + 1))
    ensures p + |EncodeEntries(whole, ks, i)| == r + |EncodeEntries(whole, ks, i + 1)|
    ensures ParseDictEntries(buf, p, acc) == ParseDictEntries(buf, r, acc[ks[i] := whole.entries[ks[i]]])
    decreases whole, 0, |ks| - i, 0
  {
    r := EntriesSplit(buf, p, whole, ks, i);
    EntryParts(buf, p, whole, ks[i]);
    var q := p + |EncodeStr(ks[i])|;
    EntryStep(buf, p, acc, ks[i], whole.entries[ks[i]], q, r);
  }

  /** The dictionary loop reads the key/value encodings back, one entry at a time,
      and reaches end with all of them inserted, whatever follows. */
  lemma {:induction false} EntriesSkip(buf: seq<byte>, p: nat, end: nat, whole: Value, ks: seq<seq<byte>>, i: nat, acc: map<seq<byte>, Value>)
    requires whole.Dict? && Encodable(whole) && i <= |ks| && forall j :: 0 <= j < |ks| ==> ks[j] in whole.entries
    requires At(buf, p, EncodeEntries(whole, ks, i)) && end == p + |EncodeEntries(whole, ks, i)|
    ensures ParseDictEntries(buf, p, acc) == ParseDictEntries(buf, end, InsertAll(acc, whole.entries, ks, i))
    decreases whole, 0, |ks| - i
  {
    if i < |ks| {
      var k := ks[i];
      assert k in whole.entries;
      var r := EntriesNext(buf, p, whole, ks, i, acc);
      EntriesSkip(buf, r, end, whole, ks, i + 1, acc[k := whole.entries[k]]);
    }
  }

  /** One top-level value: its encoding is read back and the driver moves past it. */
  lemma StreamStep(buf: seq<byte>, p: nat, acc: seq<Value>, item: Value, q: nat)
    requires Encodable(item) && At(buf, p, Encode(item)) && q == p + |Encode(item)|
    ensures ParseAll(buf, p, acc) == ParseAll(buf, q, acc + [item])
  {
    EncodeFirstByte(item);
    AtFirst(buf, p, Encode(item));
    RoundTrip(buf, p, item);
    AllStep(buf, p, acc, item, q);
  }

  /** The step of StreamSkip: the value at i is read back and the rest starts at q. */
  lemma StreamNext(buf: seq<byte>, p: nat, end: nat, whole: Value, i: nat, acc: seq<Value>) returns (q: nat)
    requires whole.List? && Encodable(whole) && i < |whole.items|
    requires At(buf, p, EncodeItems(whole, i)) && end == p + |EncodeItems(whole, i)|
    ensures At(buf, q, EncodeItems(whole, i + 1)) && end == q + |EncodeItems(whole, i + 1)|
    ensures ParseAll(buf, p, acc) == ParseAll(buf, q, acc + [whole.items[i]])
  {
    q := ItemsSplit(buf, p, whole, i);
    StreamStep(buf, p, acc, whole.items[i], q);
  }

  /** The Decode driver reads back-to-back encodings as separate top-level values. */
  lemma {:induction false} StreamSkip(buf: seq<byte>, p: nat, end: nat, whole: Value, i: nat, acc: seq<Value>)
    requires whole.List? && Encodable(whole) && i <= |whole.items|
    requires At(buf, p, EncodeItems(whole, i)) && end == p + |EncodeItems(whole, i)|
    ensures ParseAll(buf, p, acc) == ParseAll(buf, end, acc + whole.items[i..])
    decreases |whole.items| - i
  {
    if i < |whole.items| {
      var item := whole.items[i];
      var q := StreamNext(buf, p, end, whole, i, acc);
      StreamSkip(buf, q, end, whole, i + 1, acc + [item]);
      AppendNext(acc, whole.items, i);
    } else {
      AppendRest(acc, whole.items);
    }
  }

  /** A stream of concatenated encodings decodes to the ordered list of its values. */
  lemma DecodeStream(values: seq<Value>)
    requires forall i :: 0 <= i < |values| ==> Encodable(values[i])
    ensures var buf := EncodeItems(List(values), 0);
      ParseAll(buf, 0, []) == Step(Ok(values), |buf|)
  {
    var buf := EncodeItems(List(values), 0);
    AtSuffix(buf, 0);
    assert buf[0..] == buf;
    StreamSkip(buf, 0, |buf|, List(values), 0, []);
    AppendAll(values);
  }
}
