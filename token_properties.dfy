/** The two scalar tokens of the decoder, decodeString and decodeInteger, beyond
    the round trip: what a successful byte string looks like, every error path
    with the cursor it leaves, and the spellings of integers that are accepted
    although no encoder writes them. */
module BencodeTokenProperties {
  import opened BencodeValues
  import opened BencodeGrammar
  import opened BencodeGrammarProperties

  // ----- decodeString -----

  /** The bytes from pos up to the end of its digit run are all digits. */
  lemma {:induction false} DigitRunDigits(buf: seq<byte>, pos: nat)
    requires pos <= |buf|
    ensures AllDigits(buf[pos..DigitRunEnd(buf, pos)])
    decreases |buf| - pos
  {
    var j := DigitRunEnd(buf, pos);
    if pos < j {
      DigitRunDigits(buf, pos + 1);
      var run := buf[pos..j];
      forall k | 0 <= k < |run| ensures IsDigit(run[k]) {
        if k > 0 { assert run[k] == buf[pos + 1..j][k - 1]; }
      }
    }
  }

  /** A successful decodeString read a digit run, a colon, and then exactly as many
      bytes as the digits say; the result is those bytes and the cursor is past them. */
  lemma ParseStringShape(buf: seq<byte>, p: nat)
    requires p <= |buf| && ParseString(buf, p).out.Ok?
    ensures var j := DigitRunEnd(buf, p); var r := ParseString(buf, p); var s := r.out.value;
      j < |buf| && buf[j] == Colon && AllDigits(buf[p..j]) && Atoi(buf[p..j]) == Some(|s|) &&
      r.pos == j + 1 + |s| && s == buf[j + 1..r.pos]
  {
    DigitRunDigits(buf, p);
  }

  /** A decoded byte string is never longer than the largest int. */
  lemma ParseStringLength(buf: seq<byte>, p: nat)
    requires p <= |buf| && ParseString(buf, p).out.Ok?
    ensures |ParseString(buf, p).out.value| <= MaxInt64
  {
    ParseStringShape(buf, p);
  }

  /** A byte that is neither a digit nor the colon ends the length with an error,
      and the cursor stays on it. */
  lemma StringLengthCharInvalid(buf: seq<byte>, p: nat, ds: seq<byte>, c: byte)
    requires AllDigits(ds) && !IsDigit(c) && c != Colon && At(buf, p, ds + [c])
    ensures ParseString(buf, p) == Step(Err(LengthCharInvalid(c)), p + |ds|)
  {
    AtSplit(buf, p, ds, [c]);
    DigitRunAt(buf, p, ds);
  }

  /** Digits up to the end of the buffer: the colon is missing. */
  lemma StringUnterminated(buf: seq<byte>, p: nat)
    requires p <= |buf| && AllDigits(buf[p..])
    ensures ParseString(buf, p) == Step(Err(LengthUnterminated), |buf|)
  {
    AtSuffix(buf, p);
    DigitRunAt(buf, p, buf[p..]);
  }

  /** A declared length, written with any digits (leading zeros included), larger
      than what is left after the colon is refused. */
  lemma StringTooLong(buf: seq<byte>, p: nat, ds: seq<byte>)
    requires |ds| > 0 && AllDigits(ds) && DigitsValue(ds) <= MaxInt64 && At(buf, p, ds + [Colon])
    requires p + |ds| + 1 + DigitsValue(ds) > |buf|
    ensures ParseString(buf, p) == Step(Err(LengthOutOfRange), p + |ds| + 1)
  {
    AtSplit(buf, p, ds, [Colon]);
    DigitRunAt(buf, p, ds);
    AtSlice(buf, p, ds);
    ParseDigitsValue(ds);
    assert IsDigit(ds[0]);
  }

  /** A declared length beyond the int range does not parse at all. */
  lemma StringLengthInvalid(buf: seq<byte>, p: nat, ds: seq<byte>)
    requires |ds| > 0 && AllDigits(ds) && DigitsValue(ds) > MaxInt64 && At(buf, p, ds + [Colon])
    ensures ParseString(buf, p) == Step(Err(LengthInvalid), p + |ds| + 1)
  {
    AtSplit(buf, p, ds, [Colon]);
    DigitRunAt(buf, p, ds);
    AtSlice(buf, p, ds);
    AtoiRejectsOverflow(ds);
    assert IsDigit(ds[0]);
  }

  // ----- The length check of decodeString in 64-bit arithmetic -----

  const TwoTo64: int := 0x1_0000_0000_0000_0000

  /** Go's int addition on a 64-bit platform: the exact sum wrapped into the int64 range. */
  function Wrap64(x: int): (w: int)
    ensures InInt64(w) && (InInt64(x) ==> w == x)
    ensures (w - x) % TwoTo64 == 0
  {
    (x - MinInt64) % TwoTo64 + MinInt64
  }

  /** The length check of decodeString as the source writes it: curToken + length is
      an int sum, so it wraps around for lengths close to the largest int. */
  predicate LengthRefusedAsWritten(cur: int, length: int, size: int)
  {
    length < 0 || Wrap64(cur + length) > size
  }

  /** The largest int as a declared length wraps the sum to a negative number, which
      passes the check although the slice it guards ends far beyond the buffer. */
  lemma LengthCheckWraps(cur: nat, size: nat)
    requires 0 < cur <= size <= MaxInt64
    ensures !LengthRefusedAsWritten(cur, MaxInt64, size) && cur + MaxInt64 > size
  {
    var x := cur + MaxInt64;
    assert x - MinInt64 == (cur - 1) + TwoTo64;
    assert (x - MinInt64) % TwoTo64 == cur - 1;
  }

  lemma {:induction false} DecimalShorter(n: nat)
    requires n >= 10
    ensures |Decimal(n)| < n
  {
    if n / 10 >= 10 {
      DecimalShorter(n / 10);
    }
  }

  /** The 20 bytes "9223372036854775807:": the source's check lets the length through
      and the slice that follows is out of range (a run-time panic in Go), while the
      model refuses the length with LengthOutOfRange. */
  lemma LengthOverflowInput()
    ensures var buf := Decimal(MaxInt64) + [Colon];
      !LengthRefusedAsWritten(|buf|, MaxInt64, |buf|) && |buf| + MaxInt64 > |buf| &&
      ParseString(buf, 0) == Step(Err(LengthOutOfRange), |buf|)
  {
    var buf := Decimal(MaxInt64) + [Colon];
    DecimalShorter(MaxInt64);
    LengthCheckWraps(|buf|, |buf|);
    AtSuffix(buf, 0);
    assert buf[0..] == buf;
    DigitsValueOfDecimal(MaxInt64);
    StringTooLong(buf, 0, Decimal(MaxInt64));
  }

  // ----- decodeInteger -----

  /** The sign decodeInteger collects before the digits. */
  function Sign(negative: bool): (s: seq<byte>)
    ensures |s| == if negative then 1 else 0
  {
    if negative then [Minus] else []
  }

  /** decodeInteger skips the 'i', takes an optional '-', then runs its digit loop. */
  lemma IntegerSign(buf: seq<byte>, p: nat, negative: bool)
    requires At(buf, p, [IntegerMark] + Sign(negative))
    requires !negative && p + 1 < |buf| ==> buf[p + 1] != Minus
    ensures ParseInteger(buf, p) == ParseIntegerDigits(buf, p + 1 + |Sign(negative)|, negative)
  {
    AtSplit(buf, p, [IntegerMark], Sign(negative));
    if negative {
      assert buf[p + 1] == Minus;
    }
  }

  /** Up to the end of its digit run, an integer token is 'i', the sign, the digits;
      decodeInteger then is its digit loop, started just after the sign. */
  lemma IntegerPrefix(buf: seq<byte>, p: nat, negative: bool, ds: seq<byte>)
    requires AllDigits(ds) && At(buf, p, [IntegerMark] + Sign(negative) + ds)
    requires p + 1 + |Sign(negative)| + |ds| < |buf| ==> !IsDigit(buf[p + 1 + |Sign(negative)| + |ds|])
    requires !negative && ds == [] && p + 1 < |buf| ==> buf[p + 1] != Minus
    ensures var q := p + 1 + |Sign(negative)|;
      ParseInteger(buf, p) == ParseIntegerDigits(buf, q, negative) &&
      DigitRunEnd(buf, q) == q + |ds| && buf[q..q + |ds|] == ds
  {
    var q := p + 1 + |Sign(negative)|;
    AtSplit(buf, p, [IntegerMark] + Sign(negative), ds);
    DigitRunAt(buf, q, ds);
    AtSlice(buf, q, ds);
    NoSignBeforeDigits(buf, p, negative, ds);
    IntegerSign(buf, p, negative);
  }

  /** Without a sign, the byte after the 'i' is the first digit, or whatever follows
      an empty run, which the caller guarantees is not a '-'. */
  lemma NoSignBeforeDigits(buf: seq<byte>, p: nat, negative: bool, ds: seq<byte>)
    requires AllDigits(ds) && At(buf, p + 1 + |Sign(negative)|, ds)
    requires !negative && ds == [] && p + 1 < |buf| ==> buf[p + 1] != Minus
    ensures !negative && p + 1 < |buf| ==> buf[p + 1] != Minus
  {
    if !negative && ds != [] {
      AtFirst(buf, p + 1, ds);
      assert IsDigit(ds[0]);
    }
  }

  /** Zero digits padding a number. */
  function Zeros(z: nat): (zs: seq<byte>)
    ensures |zs| == z && forall k :: 0 <= k < z ==> zs[k] == AsciiZero
  {
    seq(z, k => AsciiZero)
  }

  lemma {:induction false} ZerosValue(z: nat, ds: seq<byte>)
    requires AllDigits(ds)
    ensures AllDigits(Zeros(z) + ds) && DigitsValue(Zeros(z) + ds) == DigitsValue(ds)
  {
    if z > 0 {
      var rest := Zeros(z - 1) + ds;
      ZerosValue(z - 1, ds);
      assert Zeros(z) + ds == [AsciiZero] + rest;
      DigitsValueLeadingZero(rest);
      assert DigitsValue([AsciiZero] + rest) == DigitsValue(ds);
    } else {
      assert Zeros(z) + ds == ds;
    }
  }

  /** Leading zeros are accepted and ignored, with or without a minus sign. */
  lemma IntegerLeadingZeros(buf: seq<byte>, p: nat, negative: bool, z: nat, n: nat)
    requires if negative then n <= -MinInt64 else n <= MaxInt64
    requires At(buf, p, [IntegerMark] + (Sign(negative) + (Zeros(z) + Decimal(n))) + [EndMark])
    ensures ParseInteger(buf, p) == Step(Ok(if negative then -(n as int) else n as int), p + 2 + |Sign(negative)| + z + |Decimal(n)|)
  {
    var ds := Zeros(z) + Decimal(n);
    ZerosValue(z, Decimal(n));
    ParseDigitsValue(ds);
    DigitsValueOfDecimal(n);
    if negative {
      assert ([Minus] + ds)[1..] == ds;
    }
    ParseIntegerToken(buf, p, negative, ds, if negative then -(n as int) else n as int);
  }

  /** i007e is 7. */
  lemma IntegerZeroPadded(buf: seq<byte>, p: nat)
    requires At(buf, p, [0x69, 0x30, 0x30, 0x37, 0x65])
    ensures ParseInteger(buf, p) == Step(Ok(7), p + 5)
  {
    assert Decimal(7) == [0x37];
    assert [0x69, 0x30, 0x30, 0x37, 0x65] == [IntegerMark] + (Sign(false) + (Zeros(2) + Decimal(7))) + [EndMark];
    IntegerLeadingZeros(buf, p, false, 2, 7);
  }

  /** i-0e is 0. */
  lemma IntegerNegativeZero(buf: seq<byte>, p: nat)
    requires At(buf, p, [0x69, 0x2D, 0x30, 0x65])
    ensures ParseInteger(buf, p) == Step(Ok(0), p + 4)
  {
    assert Decimal(0) == [0x30];
    assert [0x69, 0x2D, 0x30, 0x65] == [IntegerMark] + (Sign(true) + (Zeros(0) + Decimal(0))) + [EndMark];
    IntegerLeadingZeros(buf, p, true, 0, 0);
  }

  /** ie and i-e: no digits at all fail at Atoi, after the closing 'e'. */
  lemma IntegerNoDigits(buf: seq<byte>, p: nat, negative: bool)
    requires At(buf, p, [IntegerMark] + Sign(negative) + [EndMark])
    ensures ParseInteger(buf, p) == Step(Err(IntegerInvalid), p + 2 + |Sign(negative)|)
  {
    var sign := Sign(negative);
    AtSplit(buf, p, [IntegerMark] + sign, [EndMark]);
    assert [IntegerMark] + sign + [] == [IntegerMark] + sign;
    IntegerPrefix(buf, p, negative, []);
    AtoiRejectsNoDigits();
    if negative {
      assert [Minus] + buf[p + 2..p + 2] == [Minus];
    }
  }

  /** A byte that is neither a digit nor 'e' inside the token is an error, and the
      cursor stays on it. */
  lemma IntegerBadChar(buf: seq<byte>, p: nat, negative: bool, ds: seq<byte>, c: byte)
    requires AllDigits(ds) && !IsDigit(c) && c != EndMark
    requires !negative && ds == [] ==> c != Minus
    requires At(buf, p, [IntegerMark] + Sign(negative) + ds + [c])
    ensures ParseInteger(buf, p) == Step(Err(IntegerCharInvalid(c)), p + 1 + |Sign(negative)| + |ds|)
  {
    AtSplit(buf, p, [IntegerMark] + Sign(negative) + ds, [c]);
    IntegerPrefix(buf, p, negative, ds);
  }

  /** The buffer ends inside the token, before its 'e'. */
  lemma IntegerMissingEnd(buf: seq<byte>, p: nat, negative: bool, ds: seq<byte>)
    requires AllDigits(ds) && At(buf, p, [IntegerMark] + Sign(negative) + ds)
    requires |buf| == p + 1 + |Sign(negative)| + |ds|
    ensures ParseInteger(buf, p) == Step(Err(IntegerUnterminated), |buf|)
  {
    IntegerPrefix(buf, p, negative, ds);
  }

  /** A number outside the int64 range is refused by Atoi, after the closing 'e'. */
  lemma IntegerOverflow(buf: seq<byte>, p: nat, negative: bool, ds: seq<byte>)
    requires |ds| > 0 && AllDigits(ds)
    requires if negative then DigitsValue(ds) > -MinInt64 else DigitsValue(ds) > MaxInt64
    requires At(buf, p, [IntegerMark] + Sign(negative) + ds + [EndMark])
    ensures ParseInteger(buf, p) == Step(Err(IntegerInvalid), p + 2 + |Sign(negative)| + |ds|)
  {
    AtSplit(buf, p, [IntegerMark] + Sign(negative) + ds, [EndMark]);
    IntegerPrefix(buf, p, negative, ds);
    if negative {
      AtoiRejectsNegativeOverflow(ds);
    } else {
      AtoiRejectsOverflow(ds);
    }
  }
}
