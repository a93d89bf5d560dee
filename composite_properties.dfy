/** decodeList, decodeDict and the Decode driver beyond the round trip: lists and
    dictionaries cut short, malformed keys, repeated keys, the 0 byte on which the
    source's loops never return, and what every successful decode produces. */
module BencodeCompositeProperties {
  import opened BencodeValues
  import opened BencodeGrammar
  import opened BencodeGrammarProperties
  import opened BencodeTokenProperties

  /** An opening byte, a body and what follows it. */
  lemma Opened(buf: seq<byte>, p: nat, m: byte, e: seq<byte>, tail: seq<byte>) returns (q: nat)
    requires At(buf, p, [m] + e + tail)
    ensures q == p + 1 + |e| && q <= |buf|
    ensures p < |buf| && buf[p] == m && At(buf, p + 1, e) && At(buf, q, tail)
  {
    AtSplit(buf, p, [m] + e, tail);
    AtSplit(buf, p, [m], e);
    q := p + 1 + |e|;
  }

  // ----- Lists -----

  /** decode on an 'l' is the list loop started just after it. */
  lemma ListValue(buf: seq<byte>, p: nat)
    requires p < |buf| && buf[p] == ListMark
    ensures var r := ParseListItems(buf, p + 1, []); ParseValue(buf, p) == Step(AsList(r.out), r.pos)
  {
  }

  /** The items of a list encoding are read back up to where they end, whatever the
      bytes that follow. */
  lemma ListOpen(buf: seq<byte>, p: nat, v: Value, tail: seq<byte>) returns (q: nat)
    requires v.List? && Encodable(v) && At(buf, p, [ListMark] + EncodeItems(v, 0) + tail)
    ensures q == p + 1 + |EncodeItems(v, 0)| && q <= |buf| && At(buf, q, tail)
    ensures var r := ParseListItems(buf, q, v.items); ParseValue(buf, p) == Step(AsList(r.out), r.pos)
  {
    q := Opened(buf, p, ListMark, EncodeItems(v, 0), tail);
    ItemsSkip(buf, p + 1, q, v, 0, []);
    AppendAll(v.items);
    ListValue(buf, p);
  }

  /** A list whose items are read back up to the end of the buffer, with no 'e'. */
  lemma ListCutShort(buf: seq<byte>, p: nat, v: Value)
    requires v.List? && Encodable(v) && At(buf, p, [ListMark] + EncodeItems(v, 0))
    requires |buf| == p + 1 + |EncodeItems(v, 0)|
    ensures ParseValue(buf, p) == Step(Err(ListUnterminated), |buf|)
  {
    assert [ListMark] + EncodeItems(v, 0) + [] == [ListMark] + EncodeItems(v, 0);
    var q := ListOpen(buf, p, v, []);
  }

  /** A 0 byte where a list item should start: decode yields nothing without moving
      and the list loop of the source repeats that iteration forever. */
  lemma ListZeroDiverges(buf: seq<byte>, p: nat, v: Value)
    requires v.List? && Encodable(v) && At(buf, p, [ListMark] + EncodeItems(v, 0) + [Null])
    ensures ParseValue(buf, p) == Step(Diverges, p + 1 + |EncodeItems(v, 0)|)
  {
    var q := ListOpen(buf, p, v, [Null]);
    AtFirst(buf, q, [Null]);
  }

  // ----- Dictionaries -----

  /** A dictionary loop that succeeds has just read its closing 'e'. */
  lemma {:induction false} DictEntriesClosed(buf: seq<byte>, p: nat, acc: map<seq<byte>, Value>)
    requires p <= |buf|
    ensures var r := ParseDictEntries(buf, p, acc); r.out.Ok? ==> buf[r.pos - 1] == EndMark
    decreases |buf| - p
  {
    if p < |buf| && buf[p] == EndMark {
      DictEntriesClose(buf, p, acc);
    } else if p < |buf| && IsDigit(buf[p]) {
      var key := ParseString(buf, p);
      var value := ParseValue(buf, key.pos);
      if key.out.Ok? && value.out.Ok? {
        DictEntriesStep(buf, p, acc, key.out.value, key.pos, value.out.value, value.pos);
        DictEntriesClosed(buf, value.pos, acc[key.out.value := value.out.value]);
      }
    }
  }

  /** decode on a 'd' is the dictionary loop started just after it. */
  lemma DictValue(buf: seq<byte>, p: nat)
    requires p < |buf| && buf[p] == DictMark
    ensures var r := ParseDictEntries(buf, p + 1, map[]); ParseValue(buf, p) == Step(AsDict(r.out), r.pos)
  {
  }

  /** The entries of a dictionary encoding are read back up to where they end,
      whatever the bytes that follow. */
  lemma DictOpen(buf: seq<byte>, p: nat, v: Value, ks: seq<seq<byte>>, tail: seq<byte>) returns (q: nat)
    requires v.Dict? && Encodable(v) && forall j :: 0 <= j < |ks| ==> ks[j] in v.entries
    requires At(buf, p, [DictMark] + EncodeEntries(v, ks, 0) + tail)
    ensures q == p + 1 + |EncodeEntries(v, ks, 0)| && q <= |buf| && At(buf, q, tail)
    ensures var r := ParseDictEntries(buf, q, InsertAll(map[], v.entries, ks, 0));
      ParseValue(buf, p) == Step(AsDict(r.out), r.pos)
  {
    var e := EncodeEntries(v, ks, 0);
    q := Opened(buf, p, DictMark, e, tail);
    EntriesSkip(buf, p + 1, q, v, ks, 0, map[]);
    DictValue(buf, p);
  }

  /** A dictionary whose entries are read back up to the end of the buffer, with no 'e'. */
  lemma DictCutShort(buf: seq<byte>, p: nat, v: Value, ks: seq<seq<byte>>)
    requires v.Dict? && Encodable(v) && forall j :: 0 <= j < |ks| ==> ks[j] in v.entries
    requires At(buf, p, [DictMark] + EncodeEntries(v, ks, 0)) && |buf| == p + 1 + |EncodeEntries(v, ks, 0)|
    ensures ParseValue(buf, p) == Step(Err(DictUnterminated), |buf|)
  {
    assert [DictMark] + EncodeEntries(v, ks, 0) + [] == [DictMark] + EncodeEntries(v, ks, 0);
    var q := DictOpen(buf, p, v, ks, []);
  }

  /** Where a key should start, a byte that is neither a digit nor 'e' is an error
      and the cursor stays on it. */
  lemma KeyBadStart(buf: seq<byte>, p: nat, v: Value, ks: seq<seq<byte>>, c: byte)
    requires v.Dict? && Encodable(v) && forall j :: 0 <= j < |ks| ==> ks[j] in v.entries
    requires !IsDigit(c) && c != EndMark && At(buf, p, [DictMark] + EncodeEntries(v, ks, 0) + [c])
    ensures ParseValue(buf, p) == Step(Err(KeyNotString), p + 1 + |EncodeEntries(v, ks, 0)|)
  {
    var q := DictOpen(buf, p, v, ks, [c]);
    AtFirst(buf, q, [c]);
  }

  /** The dictionary loop on a key that is the last token of the buffer. */
  lemma EntriesKeyAtEnd(buf: seq<byte>, q: nat, acc: map<seq<byte>, Value>, k: seq<byte>)
    requires q < |buf| && IsDigit(buf[q]) && ParseString(buf, q) == Step(Ok(k), |buf|)
    ensures ParseDictEntries(buf, q, acc) == Step(Err(EndOfInput), |buf|)
  {
  }

  /** A key that ends the buffer: decode is asked for its value at the end of input. */
  lemma KeyAtEnd(buf: seq<byte>, p: nat, v: Value, ks: seq<seq<byte>>, k: seq<byte>)
    requires v.Dict? && Encodable(v) && forall j :: 0 <= j < |ks| ==> ks[j] in v.entries
    requires |k| <= MaxInt64 && At(buf, p, [DictMark] + EncodeEntries(v, ks, 0) + EncodeStr(k))
    requires |buf| == p + 1 + |EncodeEntries(v, ks, 0)| + |EncodeStr(k)|
    ensures ParseValue(buf, p) == Step(Err(EndOfInput), |buf|)
  {
    var q := DictOpen(buf, p, v, ks, EncodeStr(k));
    KeyAt(buf, q, k, EncodeStr(k));
    EntriesKeyAtEnd(buf, q, InsertAll(map[], v.entries, ks, 0), k);
  }

  /** The dictionary loop on a key followed by a 0 byte. */
  lemma EntriesKeyZero(buf: seq<byte>, q: nat, acc: map<seq<byte>, Value>, k: seq<byte>, r: nat)
    requires q < |buf| && IsDigit(buf[q]) && ParseString(buf, q) == Step(Ok(k), r)
    requires r < |buf| && buf[r] == Null
    ensures ParseDictEntries(buf, q, acc) == Step(Err(KeyNotString), r)
  {
    assert ParseDictEntries(buf, q, acc) == ParseDictEntries(buf, r, acc[k := Nothing]);
  }

  /** A 0 byte where a value should follow its key: decode yields nothing, which is
      stored under the key, and the next iteration finds the same 0 byte where a key
      should start. */
  lemma DictZeroValue(buf: seq<byte>, p: nat, v: Value, ks: seq<seq<byte>>, k: seq<byte>)
    requires v.Dict? && Encodable(v) && forall j :: 0 <= j < |ks| ==> ks[j] in v.entries
    requires |k| <= MaxInt64 && At(buf, p, [DictMark] + EncodeEntries(v, ks, 0) + (EncodeStr(k) + [Null]))
    ensures ParseValue(buf, p) == Step(Err(KeyNotString), p + 1 + |EncodeEntries(v, ks, 0)| + |EncodeStr(k)|)
  {
    var q := DictOpen(buf, p, v, ks, EncodeStr(k) + [Null]);
    AtSplit(buf, q, EncodeStr(k), [Null]);
    var r := q + |EncodeStr(k)|;
    KeyAt(buf, q, k, EncodeStr(k));
    AtFirst(buf, r, [Null]);
    EntriesKeyZero(buf, q, InsertAll(map[], v.entries, ks, 0), k, r);
  }

  /** Key/value pairs in the order they are written, repeats allowed. */
  function EncodePairs(ps: seq<(seq<byte>, Value)>, i: nat): seq<byte>
    requires i <= |ps|
    decreases |ps| - i
  {
    if i == |ps| then [] else EncodeStr(ps[i].0) + Encode(ps[i].1) + EncodePairs(ps, i + 1)
  }

  /** acc after assigning the pairs from index i on, one after another. */
  function Assign(acc: map<seq<byte>, Value>, ps: seq<(seq<byte>, Value)>, i: nat): map<seq<byte>, Value>
    requires i <= |ps|
    decreases |ps| - i
  {
    if i == |ps| then acc else Assign(acc[ps[i].0 := ps[i].1], ps, i + 1)
  }

  ghost predicate PairsEncodable(ps: seq<(seq<byte>, Value)>)
  {
    forall j :: 0 <= j < |ps| ==> |ps[j].0| <= MaxInt64 && Encodable(ps[j].1)
  }

  lemma PairSplit(buf: seq<byte>, p: nat, ps: seq<(seq<byte>, Value)>, i: nat) returns (q: nat, r: nat)
    requires i < |ps| && At(buf, p, EncodePairs(ps, i))
    ensures q == p + |EncodeStr(ps[i].0)| && r == q + |Encode(ps[i].1)|
    ensures At(buf, p, EncodeStr(ps[i].0)) && At(buf, q, Encode(ps[i].1)) && At(buf, r, EncodePairs(ps, i + 1))
    ensures p + |EncodePairs(ps, i)| == r + |EncodePairs(ps, i + 1)|
  {
    var ek := EncodeStr(ps[i].0);
    var ev := Encode(ps[i].1);
    AtSplit(buf, p, ek + ev, EncodePairs(ps, i + 1));
    AtSplit(buf, p, ek, ev);
    q := p + |ek|;
    r := q + |ev|;
  }

  /** The dictionary loop assigns the pairs it reads in the order they come. */
  lemma {:induction false} PairsSkip(buf: seq<byte>, p: nat, end: nat, ps: seq<(seq<byte>, Value)>, i: nat, acc: map<seq<byte>, Value>)
    requires i <= |ps| && PairsEncodable(ps)
    requires At(buf, p, EncodePairs(ps, i)) && end == p + |EncodePairs(ps, i)|
    ensures ParseDictEntries(buf, p, acc) == ParseDictEntries(buf, end, Assign(acc, ps, i))
    decreases |ps| - i
  {
    if i < |ps| {
      var q, r := PairSplit(buf, p, ps, i);
      EntryStep(buf, p, acc, ps[i].0, ps[i].1, q, r);
      PairsSkip(buf, r, end, ps, i + 1, acc[ps[i].0 := ps[i].1]);
    }
  }

  /** A dictionary may list its keys in any order and repeat them. */
  lemma DecodePairs(buf: seq<byte>, p: nat, ps: seq<(seq<byte>, Value)>)
    requires PairsEncodable(ps) && At(buf, p, [DictMark] + EncodePairs(ps, 0) + [EndMark])
    ensures ParseValue(buf, p) == Step(Ok(Dict(Assign(map[], ps, 0))), p + 2 + |EncodePairs(ps, 0)|)
  {
    var e := EncodePairs(ps, 0);
    AtBracketed(buf, p, DictMark, e);
    PairsSkip(buf, p + 1, p + 1 + |e|, ps, 0, map[]);
    DictEntriesClose(buf, p + 1 + |e|, Assign(map[], ps, 0));
    ValueOfDict(buf, p, Assign(map[], ps, 0), p + 2 + |e|);
  }

  /** The keys after the assignments: those of acc and those of the pairs. */
  lemma {:induction false} AssignKeys(acc: map<seq<byte>, Value>, ps: seq<(seq<byte>, Value)>, i: nat, k: seq<byte>)
    requires i <= |ps|
    ensures k in Assign(acc, ps, i) <==> k in acc || exists j :: i <= j < |ps| && ps[j].0 == k
    ensures (forall j :: i <= j < |ps| ==> ps[j].0 != k) ==> k in acc ==> Assign(acc, ps, i)[k] == acc[k]
    decreases |ps| - i
  {
    if i < |ps| {
      AssignKeys(acc[ps[i].0 := ps[i].1], ps, i + 1, k);
      if k in acc || exists j :: i <= j < |ps| && ps[j].0 == k {
        if k !in acc && ps[i].0 != k {
          var j :| i <= j < |ps| && ps[j].0 == k;
          assert i + 1 <= j;
        }
      }
    }
  }

  /** Last write wins: a key holds the value of its last occurrence. */
  lemma {:induction false} AssignLast(acc: map<seq<byte>, Value>, ps: seq<(seq<byte>, Value)>, i: nat, j: nat)
    requires i <= j < |ps| && forall l :: j < l < |ps| ==> ps[l].0 != ps[j].0
    ensures ps[j].0 in Assign(acc, ps, i) && Assign(acc, ps, i)[ps[j].0] == ps[j].1
    decreases |ps| - i
  {
    if i < j {
      AssignLast(acc[ps[i].0 := ps[i].1], ps, i + 1, j);
    } else {
      AssignKeys(acc[ps[j].0 := ps[j].1], ps, j + 1, ps[j].0);
    }
  }

  /** The encoding and the assignment of two entries under the same key. */
  lemma TwoPairs(k: seq<byte>, v1: Value, v2: Value)
    ensures EncodePairs([(k, v1), (k, v2)], 0) == EncodeStr(k) + Encode(v1) + (EncodeStr(k) + Encode(v2))
    ensures Assign(map[], [(k, v1), (k, v2)], 0) == map[k := v2]
  {
    TwoPairsEncoding([(k, v1), (k, v2)], k, v1, v2);
    TwoPairsAssign([(k, v1), (k, v2)], k, v1, v2);
  }

  lemma TwoPairsEncoding(ps: seq<(seq<byte>, Value)>, k: seq<byte>, v1: Value, v2: Value)
    requires ps == [(k, v1), (k, v2)]
    ensures EncodePairs(ps, 0) == EncodeStr(k) + Encode(v1) + (EncodeStr(k) + Encode(v2))
  {
    var last := EncodeStr(k) + Encode(v2);
    assert EncodePairs(ps, 2) == [];
    assert EncodePairs(ps, 1) == last + [] == last;
  }

  lemma TwoPairsAssign(ps: seq<(seq<byte>, Value)>, k: seq<byte>, v1: Value, v2: Value)
    requires ps == [(k, v1), (k, v2)]
    ensures Assign(map[], ps, 0) == map[k := v2]
  {
    assert Assign(map[k := v1][k := v2], ps, 2) == map[k := v1][k := v2] == map[k := v2];
    assert Assign(map[k := v1], ps, 1) == map[k := v2];
  }

  /** d<k><v1><k><v2>e decodes to the dictionary holding k with v2. */
  lemma DuplicateKeyLastWins(buf: seq<byte>, p: nat, k: seq<byte>, v1: Value, v2: Value)
    requires |k| <= MaxInt64 && Encodable(v1) && Encodable(v2)
    requires At(buf, p, [DictMark] + (EncodeStr(k) + Encode(v1) + (EncodeStr(k) + Encode(v2))) + [EndMark])
    ensures ParseValue(buf, p).out == Ok(Dict(map[k := v2]))
  {
    TwoPairs(k, v1, v2);
    DecodePairs(buf, p, [(k, v1), (k, v2)]);
  }

  // ----- The Decode driver -----

  /** A 0 byte at the top level after some values: the driver loop repeats forever. */
  lemma StreamZeroDiverges(buf: seq<byte>, values: seq<Value>)
    requires forall i :: 0 <= i < |values| ==> Encodable(values[i])
    requires At(buf, 0, EncodeItems(List(values), 0) + [Null])
    ensures ParseAll(buf, 0, []) == Step(Diverges, |EncodeItems(List(values), 0)|)
  {
    var e := EncodeItems(List(values), 0);
    AtSplit(buf, 0, e, [Null]);
    StreamSkip(buf, 0, |e|, List(values), 0, []);
  }

  // ----- What a successful decode produces -----

  /** Every value decode returns, other than the Nothing of a 0 byte, is one the
      encoder can write: a successful list or dictionary never holds Nothing. */
  lemma {:induction false} DecodedValue(buf: seq<byte>, p: nat)
    requires p <= |buf| && ParseValue(buf, p).out.Ok? && ParseValue(buf, p).out.value != Nothing
    ensures Encodable(ParseValue(buf, p).out.value)
    decreases |buf| - p, 1
  {
    var b := buf[p];
    if b == ListMark {
      DecodedItems(buf, p + 1, []);
    } else if b == DictMark {
      DecodedEntries(buf, p + 1, map[]);
    } else if IsDigit(b) {
      ParseStringLength(buf, p);
    }
  }

  lemma {:induction false} DecodedItems(buf: seq<byte>, p: nat, acc: seq<Value>)
    requires p <= |buf| && (forall i :: 0 <= i < |acc| ==> Encodable(acc[i]))
    requires ParseListItems(buf, p, acc).out.Ok?
    ensures var items := ParseListItems(buf, p, acc).out.value; forall i :: 0 <= i < |items| ==> Encodable(items[i])
    decreases |buf| - p, 2
  {
    if buf[p] != EndMark {
      var item := ParseValue(buf, p);
      DecodedValue(buf, p);
      var acc' := acc + [item.out.value];
      assert forall i :: 0 <= i < |acc'| ==> Encodable(acc'[i]) by {
        forall i | 0 <= i < |acc'| ensures Encodable(acc'[i]) {
          if i < |acc| { assert acc'[i] == acc[i]; }
        }
      }
      DecodedItems(buf, item.pos, acc');
    }
  }

  lemma {:induction false} DecodedEntries(buf: seq<byte>, p: nat, acc: map<seq<byte>, Value>)
    requires p <= |buf| && (forall k :: k in acc ==> |k| <= MaxInt64 && Encodable(acc[k]))
    requires ParseDictEntries(buf, p, acc).out.Ok?
    ensures var d := ParseDictEntries(buf, p, acc).out.value; forall k :: k in d ==> |k| <= MaxInt64 && Encodable(d[k])
    decreases |buf| - p, 2
  {
    if buf[p] != EndMark {
      var key := ParseString(buf, p);
      ParseStringShape(buf, p);
      var value := ParseValue(buf, key.pos);
      DecodedValue(buf, key.pos);
      DecodedEntries(buf, value.pos, acc[key.out.value := value.out.value]);
    }
  }

  lemma {:induction false} DecodedStream(buf: seq<byte>, p: nat, acc: seq<Value>)
    requires p <= |buf| && (forall i :: 0 <= i < |acc| ==> Encodable(acc[i]))
    requires ParseAll(buf, p, acc).out.Ok?
    ensures var vs := ParseAll(buf, p, acc).out.value; forall i :: 0 <= i < |vs| ==> Encodable(vs[i])
    decreases |buf| - p
  {
    if p < |buf| {
      var item := ParseValue(buf, p);
      DecodedValue(buf, p);
      var acc' := acc + [item.out.value];
      assert forall i :: 0 <= i < |acc'| ==> Encodable(acc'[i]) by {
        forall i | 0 <= i < |acc'| ensures Encodable(acc'[i]) {
          if i < |acc| { assert acc'[i] == acc[i]; }
        }
      }
      DecodedStream(buf, item.pos, acc');
    }
  }

  /** Whatever the driver decodes, it decodes again from the canonical encoding of
      the values it found. */
  lemma Redecode(buf: seq<byte>)
    requires ParseAll(buf, 0, []).out.Ok?
    ensures var vs := ParseAll(buf, 0, []).out.value; var canon := EncodeItems(List(vs), 0);
      ParseAll(canon, 0, []) == Step(Ok(vs), |canon|)
  {
    DecodedStream(buf, 0, []);
    DecodeStream(ParseAll(buf, 0, []).out.value);
  }

  /** What the driver hands to the projector for a stream of encodings: the value
      alone when there is exactly one, and otherwise the list of all of them. */
  lemma DecodedTopLevel(values: seq<Value>)
    requires forall i :: 0 <= i < |values| ==> Encodable(values[i])
    ensures var s := ParseAll(EncodeItems(List(values), 0), 0, []);
      s.out.Ok? && TopLevel(s.out.value) == if |values| == 1 then values[0] else List(values)
  {
    DecodeStream(values);
  }

  /** So the projector cannot tell a stream of several values (or none) from the one
      list that holds them: `i1ei2e` and `li1ei2ee` reach it as the same value. */
  lemma StreamLikeList(values: seq<Value>)
    requires |values| != 1 && forall i :: 0 <= i < |values| ==> Encodable(values[i])
    ensures var s := ParseAll(EncodeItems(List(values), 0), 0, []);
      var t := ParseAll(EncodeItems(List([List(values)]), 0), 0, []);
      s.out.Ok? && t.out.Ok? && TopLevel(s.out.value) == TopLevel(t.out.value)
  {
    DecodedTopLevel(values);
    assert Encodable(List(values));
    DecodedTopLevel([List(values)]);
  }
}
