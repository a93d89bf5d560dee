/** The Decoder of bencode.go: an immutable byte buffer and a mutable cursor.
    Every method is proved against the matching function of BencodeGrammar: the
    outcome it returns and the cursor it leaves are exactly those of the function. */
module BencodeDecoder {
  import opened BencodeValues
  import opened BencodeGrammar
  import opened BencodeProjection

  /** A token collected byte by byte: one more byte extends the prefix by one. */
  lemma SliceGrows(s: seq<byte>, prefix: seq<byte>, i: nat, j: nat)
    requires i <= j < |s|
    ensures prefix + s[i..j + 1] == prefix + s[i..j] + [s[j]]
  {
    assert s[i..j + 1] == s[i..j] + [s[j]];
  }

  class Decoder {
    const rawBytes: seq<byte>
    var curToken: int

    /** The cursor invariant: the cursor never leaves [0, len(rawBytes)]. */
    ghost predicate Valid()
      reads this
    {
      0 <= curToken <= |rawBytes|
    }

    constructor (bytes: seq<byte>)
      ensures Valid() && rawBytes == bytes && curToken == 0
    {
      rawBytes := bytes;
      curToken := 0;
    }

    /** NewDecoder once the source has been read: an empty buffer is refused with io.EOF,
        the same error decode gives at the end of the buffer. */
    static method NewDecoder(bytes: seq<byte>) returns (r: Outcome<Decoder>)
      ensures r.Err? <==> |bytes| == 0
      ensures r.Err? ==> r.error == EndOfInput
      ensures r.Ok? ==> fresh(r.value) && r.value.Valid() && r.value.rawBytes == bytes && r.value.curToken == 0
      ensures !r.Diverges?
    {
      if |bytes| == 0 {
        return Err(EndOfInput);
      }
      var d := new Decoder(bytes);
      return Ok(d);
    }

    /** The byte under the cursor, or 0 once the cursor is at the end. */
    method CurTokenIs() returns (b: byte)
      requires Valid()
      ensures curToken >= |rawBytes| ==> b == Null
      ensures curToken < |rawBytes| ==> b == rawBytes[curToken]
    {
      if curToken >= |rawBytes| {
        return Null;
      }
      return rawBytes[curToken];
    }

    /** One byte forward, saturating at the end of the buffer. */
    method Advance()
      requires Valid()
      modifies this
      ensures Valid()
      ensures curToken == if old(curToken) < |rawBytes| then old(curToken) + 1 else old(curToken)
    {
      if curToken < |rawBytes| {
        curToken := curToken + 1;
      }
    }

    method DecodeString() returns (r: Outcome<seq<byte>>)
      requires Valid()
      modifies this
      ensures Valid()
      ensures Step(r, curToken) == ParseString(rawBytes, old(curToken))
    {
      ghost var start: nat := curToken;
      ghost var stop := DigitRunEnd(rawBytes, start);
      var lengthStr: seq<byte> := [];
      var b := CurTokenIs();
      while curToken < |rawBytes| && b != Colon
        invariant Valid()
        invariant start <= curToken <= stop == DigitRunEnd(rawBytes, curToken)
        invariant lengthStr == rawBytes[start..curToken]
        invariant b == if curToken < |rawBytes| then rawBytes[curToken] else Null
        decreases |rawBytes| - curToken
      {
        if b < AsciiZero || b > AsciiNine {
          return Err(LengthCharInvalid(b));
        }
        SliceGrows(rawBytes, [], start, curToken);
        lengthStr := lengthStr + [b];
        Advance();
        b := CurTokenIs();
      }
      if curToken >= |rawBytes| {
        return Err(LengthUnterminated);
      }
      Advance();
      var length := Atoi(lengthStr);
      if length.None? {
        return Err(LengthInvalid);
      }
      if length.value < 0 || curToken + length.value > |rawBytes| {
        return Err(LengthOutOfRange);
      }
      var data := rawBytes[curToken..curToken + length.value];
      curToken := curToken + length.value;
      return Ok(data);
    }

    method DecodeInteger() returns (r: Outcome<int>)
      requires Valid()
      modifies this
      ensures Valid()
      ensures Step(r, curToken) == ParseInteger(rawBytes, old(curToken))
    {
      Advance();
      var numStr: seq<byte> := [];
      var b := CurTokenIs();
      if b == Minus {
        numStr := [Minus];
        Advance();
      }
      r := DecodeIntegerDigits(numStr);
    }

    /** The digit loop of decodeInteger, after the optional sign already in numStr. */
    method DecodeIntegerDigits(sign: seq<byte>) returns (r: Outcome<int>)
      requires Valid() && (sign == [] || sign == [Minus])
      modifies this
      ensures Valid()
      ensures Step(r, curToken) == ParseIntegerDigits(rawBytes, old(curToken), sign == [Minus])
    {
      ghost var start: nat := curToken;
      ghost var stop := DigitRunEnd(rawBytes, start);
      var numStr := sign;
      var b := CurTokenIs();
      while curToken < |rawBytes| && b != EndMark
        invariant Valid()
        invariant start <= curToken <= stop == DigitRunEnd(rawBytes, curToken)
        invariant numStr == sign + rawBytes[start..curToken]
        invariant b == if curToken < |rawBytes| then rawBytes[curToken] else Null
        decreases |rawBytes| - curToken
      {
        if b < AsciiZero || b > AsciiNine {
          return Err(IntegerCharInvalid(b));
        }
        SliceGrows(rawBytes, sign, start, curToken);
        numStr := numStr + [b];
        Advance();
        b := CurTokenIs();
      }
      if curToken >= |rawBytes| {
        return Err(IntegerUnterminated);
      }
      assert numStr == if sign == [Minus] then [Minus] + rawBytes[start..stop] else rawBytes[start..stop];
      Advance();
      var num := Atoi(numStr);
      if num.None? {
        return Err(IntegerInvalid);
      }
      return Ok(num.value);
    }

    method DecodeList() returns (r: Outcome<seq<Value>>)
      requires Valid()
      modifies this
      ensures Valid()
      ensures Step(r, curToken) == ParseListItems(rawBytes, if old(curToken) < |rawBytes| then old(curToken) + 1 else old(curToken), [])
      decreases |rawBytes| - curToken, 0
    {
      Advance();
      ghost var first: nat := curToken;
      var result: seq<Value> := [];
      var b := CurTokenIs();
      while curToken < |rawBytes| && b != EndMark
        invariant Valid()
        invariant curToken < |rawBytes| ==> old(curToken) < curToken
        invariant ParseListItems(rawBytes, curToken, result) == ParseListItems(rawBytes, first, [])
        invariant b == if curToken < |rawBytes| then rawBytes[curToken] else Null
        decreases |rawBytes| - curToken
      {
        var before := curToken;
        var value := DecodeValue();
        if !value.Ok? {
          return Propagate(value);
        }
        if curToken == before {
          // decode read a 0 byte without moving: the source repeats this iteration forever
          return Diverges;
        }
        result := result + [value.value];
        b := CurTokenIs();
      }
      if curToken >= |rawBytes| {
        return Err(ListUnterminated);
      }
      Advance();
      return Ok(result);
    }

    method DecodeDict() returns (r: Outcome<map<seq<byte>, Value>>)
      requires Valid()
      modifies this
      ensures Valid()
      ensures Step(r, curToken) == ParseDictEntries(rawBytes, if old(curToken) < |rawBytes| then old(curToken) + 1 else old(curToken), map[])
      decreases |rawBytes| - curToken, 0
    {
      Advance();
      ghost var first: nat := curToken;
      var result: map<seq<byte>, Value> := map[];
      var b := CurTokenIs();
      while curToken < |rawBytes| && b != EndMark
        invariant Valid()
        invariant curToken < |rawBytes| ==> old(curToken) < curToken
        invariant ParseDictEntries(rawBytes, curToken, result) == ParseDictEntries(rawBytes, first, map[])
        invariant b == if curToken < |rawBytes| then rawBytes[curToken] else Null
        decreases |rawBytes| - curToken
      {
        if !(b >= AsciiZero && b <= AsciiNine) {
          return Err(KeyNotString);
        }
        var key := DecodeString();
        if !key.Ok? {
          return Propagate(key);
        }
        var value := DecodeValue();
        if !value.Ok? {
          return Propagate(value);
        }
        result := result[key.value := value.value];
        b := CurTokenIs();
      }
      if curToken >= |rawBytes| {
        return Err(DictUnterminated);
      }
      Advance();
      return Ok(result);
    }

    method DecodeValue() returns (r: Outcome<Value>)
      requires Valid()
      modifies this
      ensures Valid()
      ensures Step(r, curToken) == ParseValue(rawBytes, old(curToken))
      decreases |rawBytes| - curToken, 1
    {
      if curToken >= |rawBytes| {
        return Err(EndOfInput);
      }
      var token := CurTokenIs();
      if token == Null {
        return Ok(Nothing);
      } else if token == IntegerMark {
        var n := DecodeInteger();
        return AsInt(n);
      } else if token == ListMark {
        var items := DecodeList();
        return AsList(items);
      } else if token == DictMark {
        var entries := DecodeDict();
        return AsDict(entries);
      } else if token >= AsciiZero && token <= AsciiNine {
        var s := DecodeString();
        return AsStr(s);
      } else {
        return Err(UnknownToken(token));
      }
    }

    /** The Decode driver: every top-level value up to the end of the buffer, then
        one projection of the single value or of the list of all of them. */
    method Decode(shape: Shape, dest: Dest) returns (r: Outcome<Dest>)
      requires Valid() && Conforms(dest, shape)
      modifies this
      ensures Valid()
      ensures var s := ParseAll(rawBytes, old(curToken), []);
        curToken == s.pos && r == (if s.out.Ok? then FillStruct(shape, TopLevel(s.out.value), dest) else Propagate(s.out))
    {
      ghost var start: nat := curToken;
      var results: seq<Value> := [];
      while curToken < |rawBytes|
        invariant Valid()
        invariant ParseAll(rawBytes, curToken, results) == ParseAll(rawBytes, start, [])
        decreases |rawBytes| - curToken
      {
        var before := curToken;
        var val := DecodeValue();
        if !val.Ok? {
          return Propagate(val);
        }
        if curToken == before {
          // decode read a 0 byte without moving: the source repeats this iteration forever
          return Diverges;
        }
        results := results + [val.value];
      }
      if |results| == 1 {
        r := FillStruct(shape, results[0], dest);
      } else {
        r := FillStruct(shape, List(results), dest);
      }
    }
  }
}
