/** The decoder of bencode.go as pure functions of the buffer and a cursor
    position: what each of decode, decodeString, decodeInteger, decodeList,
    decodeDict and the Decode driver loop computes, and where it leaves the
    cursor, on success and on every error path. */
module BencodeGrammar {
  import opened BencodeValues

  /** The end of the run of ASCII digits that starts at pos. */
  function DigitRunEnd(buf: seq<byte>, pos: nat): (j: nat)
    requires pos <= |buf|
    ensures pos <= j <= |buf|
    ensures j < |buf| ==> !IsDigit(buf[j])
    decreases |buf| - pos
  {
    if pos < |buf| && IsDigit(buf[pos]) then DigitRunEnd(buf, pos + 1) else pos
  }

  /** decodeString with the cursor at pos: digits up to a colon give the length,
      then that many raw bytes follow. */
  function ParseString(buf: seq<byte>, pos: nat): (r: Step<seq<byte>>)
    requires pos <= |buf|
    ensures pos <= r.pos <= |buf|
    ensures !r.out.Diverges?
  {
    var j := DigitRunEnd(buf, pos);
    if j == |buf| then Step(Err(LengthUnterminated), j)
    else if buf[j] != Colon then Step(Err(LengthCharInvalid(buf[j])), j)
    else
      match Atoi(buf[pos..j])
      case None => Step(Err(LengthInvalid), j + 1)
      case Some(length) =>
        if length < 0 || (j + 1) + length > |buf| then Step(Err(LengthOutOfRange), j + 1)
        else Step(Ok(buf[j + 1..j + 1 + length]), j + 1 + length)
  }

  /** decodeInteger with the cursor at the 'i' (advanced over unconditionally). */
  function ParseInteger(buf: seq<byte>, pos: nat): (r: Step<int>)
    requires pos <= |buf|
    ensures pos <= r.pos <= |buf|
    ensures !r.out.Diverges?
    ensures r.out.Ok? ==> pos < r.pos && InInt64(r.out.value)
  {
    var p1 := if pos < |buf| then pos + 1 else pos;
    var negative := p1 < |buf| && buf[p1] == Minus;
    if negative then ParseIntegerDigits(buf, p1 + 1, true) else ParseIntegerDigits(buf, p1, false)
  }

  /** The digit loop of decodeInteger from start on, after the optional sign. */
  function ParseIntegerDigits(buf: seq<byte>, start: nat, negative: bool): (r: Step<int>)
    requires start <= |buf|
    ensures start <= r.pos <= |buf|
    ensures !r.out.Diverges?
    ensures r.out.Ok? ==> start < r.pos && InInt64(r.out.value)
  {
    var j := DigitRunEnd(buf, start);
    if j == |buf| then Step(Err(IntegerUnterminated), j)
    else if buf[j] != EndMark then Step(Err(IntegerCharInvalid(buf[j])), j)
    else
      match Atoi(if negative then [Minus] + buf[start..j] else buf[start..j])
      case None => Step(Err(IntegerInvalid), j + 1)
      case Some(n) => Step(Ok(n), j + 1)
  }

  // Wrapping the typed results of the sub-decoders as values, as `decode` does
  // when it returns them as `any`.
  function AsInt(o: Outcome<int>): Outcome<Value> { if o.Ok? then Ok(Int(o.value)) else Propagate(o) }
  function AsStr(o: Outcome<seq<byte>>): Outcome<Value> { if o.Ok? then Ok(Str(o.value)) else Propagate(o) }
  function AsList(o: Outcome<seq<Value>>): Outcome<Value> { if o.Ok? then Ok(List(o.value)) else Propagate(o) }
  function AsDict(o: Outcome<map<seq<byte>, Value>>): Outcome<Value> { if o.Ok? then Ok(Dict(o.value)) else Propagate(o) }

  /** decode with the cursor at pos: an LL(1) dispatch on the current byte.
      A 0 byte yields Nothing and is the only success that does not move the cursor. */
  function ParseValue(buf: seq<byte>, pos: nat): (r: Step<Value>)
    requires pos <= |buf|
    ensures pos <= r.pos <= |buf|
    ensures r.out == Ok(Nothing) <==> pos < |buf| && buf[pos] == Null
    ensures r.out == Ok(Nothing) ==> r.pos == pos
    ensures r.out.Ok? && r.out.value != Nothing ==> pos < r.pos
    decreases |buf| - pos, 1
  {
    if pos == |buf| then Step(Err(EndOfInput), pos)
    else
      var b := buf[pos];
      if b == Null then Step(Ok(Nothing), pos)
      else if b == IntegerMark then var s := ParseInteger(buf, pos); Step(AsInt(s.out), s.pos)
      else if b == ListMark then var s := ParseListItems(buf, pos + 1, []); Step(AsList(s.out), s.pos)
      else if b == DictMark then var s := ParseDictEntries(buf, pos + 1, map[]); Step(AsDict(s.out), s.pos)
      else if IsDigit(b) then var s := ParseString(buf, pos); Step(AsStr(s.out), s.pos)
      else Step(Err(UnknownToken(b)), pos)
  }

  /** The loop of decodeList from pos on, with the items collected so far in acc.
      An item that decodes without moving the cursor (a 0 byte) makes the source
      repeat the same iteration forever: that is reported as Diverges. */
  function ParseListItems(buf: seq<byte>, pos: nat, acc: seq<Value>): (r: Step<seq<Value>>)
    requires pos <= |buf|
    ensures pos <= r.pos <= |buf|
    ensures r.out.Ok? ==> pos < r.pos && buf[r.pos - 1] == EndMark
    decreases |buf| - pos, 2
  {
    if pos == |buf| then Step(Err(ListUnterminated), pos)
    else if buf[pos] == EndMark then Step(Ok(acc), pos + 1)
    else
      var item := ParseValue(buf, pos);
      if !item.out.Ok? then Step(Propagate(item.out), item.pos)
      else if item.pos == pos then Step(Diverges, pos)
      else ParseListItems(buf, item.pos, acc + [item.out.value])
  }

  /** The loop of decodeDict from pos on, with the entries collected so far in acc.
      A repeated key overwrites the earlier entry. */
  function ParseDictEntries(buf: seq<byte>, pos: nat, acc: map<seq<byte>, Value>): (r: Step<map<seq<byte>, Value>>)
    requires pos <= |buf|
    ensures pos <= r.pos <= |buf|
    ensures r.out.Ok? ==> pos < r.pos
    decreases |buf| - pos, 2
  {
    if pos == |buf| then Step(Err(DictUnterminated), pos)
    else if buf[pos] == EndMark then Step(Ok(acc), pos + 1)
    else if !IsDigit(buf[pos]) then Step(Err(KeyNotString), pos)
    else
      var key := ParseString(buf, pos);
      if !key.out.Ok? then Step(Propagate(key.out), key.pos)
      else
        var value := ParseValue(buf, key.pos);
        if !value.out.Ok? then Step(Propagate(value.out), value.pos)
        else ParseDictEntries(buf, value.pos, acc[key.out.value := value.out.value])
  }

  /** The loop of the Decode driver from pos on: top-level values until the buffer
      is exhausted. */
  function ParseAll(buf: seq<byte>, pos: nat, acc: seq<Value>): (r: Step<seq<Value>>)
    requires pos <= |buf|
    ensures pos <= r.pos <= |buf|
    ensures r.out.Ok? ==> r.pos == |buf|
    decreases |buf| - pos
  {
    if pos == |buf| then Step(Ok(acc), pos)
    else
      var item := ParseValue(buf, pos);
      if !item.out.Ok? then Step(Propagate(item.out), item.pos)
      else if item.pos == pos then Step(Diverges, pos)
      else ParseAll(buf, item.pos, acc + [item.out.value])
  }

  /** What the driver hands to the projector: the single value, or all of them as a list. */
  function TopLevel(values: seq<Value>): Value
  {
    if |values| == 1 then values[0] else List(values)
  }
}
