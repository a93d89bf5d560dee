/** Shared vocabulary of the Bencode decoder: the decoded value tree, the error
    taxonomy, outcomes of a decoding step, and the decimal number handling that
    the decoder borrows from Go's strconv.Atoi / strconv.ParseInt (64-bit int). */
module BencodeValues {

  /** An octet of the input. */
  newtype byte = x: int | 0 <= x < 0x100

  /** The decoded value tree. `Nothing` is what `decode` yields for a 0 byte. */
  datatype Value =
    | Nothing
    | Int(i: int)
    | Str(s: seq<byte>)
    | List(items: seq<Value>)
    | Dict(entries: map<seq<byte>, Value>)

  datatype Option<T> = None | Some(value: T)

  /** One constructor per kind of error the source can return. The io.EOF sentinel is
      EndOfInput wherever the source returns it; each fmt.Errorf site is a constructor of
      its own, except that the "cannot set <kind> with value of type" errors of the
      projection share TypeMismatch. */
  datatype Error =
    | EndOfInput                  // decode called with the cursor at the end (io.EOF)
    | LengthCharInvalid(b: byte)   // a non-digit before the colon of a byte string
    | LengthUnterminated          // the buffer ended before the colon
    | LengthInvalid               // the length digits do not parse as an int
    | LengthOutOfRange            // the declared length is negative or exceeds the rest
    | IntegerCharInvalid(b: byte)  // a non-digit inside an integer token
    | IntegerUnterminated         // the buffer ended before the closing 'e'
    | IntegerInvalid              // the collected digits do not parse as an int
    | ListUnterminated
    | DictUnterminated
    | KeyNotString                // a dictionary key does not start with a digit
    | UnknownToken(b: byte)
    | DictIntoNonStruct           // a dictionary projected at top level onto a non-struct
    | TypeMismatch                // the value's kind does not fit the destination kind
    | NumericStringInvalid        // a byte string projected onto a signed int is not a number
    | NonEmptyInterface
    | UnsupportedType
    | NilValue                    // reflect.ValueOf(nil) stored into an interface (a panic in Go)

  /** The result of an operation. `Diverges` is not returned by the source: it marks
      the inputs on which the source's loop repeats the same iteration forever. */
  datatype Outcome<T> = Ok(value: T) | Err(error: Error) | Diverges

  /** Re-types a failed or diverging outcome. */
  function Propagate<T, U>(o: Outcome<T>): (r: Outcome<U>)
    requires !o.Ok?
    ensures r.Err? == o.Err? && (r.Err? ==> r.error == o.error)
  {
    match o
    case Err(e) => Err(e)
    case Diverges => Diverges
  }

  /** An outcome together with the cursor position the operation leaves behind. */
  datatype Step<T> = Step(out: Outcome<T>, pos: nat)

  // Byte constants of the wire format.
  const Null: byte := 0x00
  const IntegerMark: byte := 0x69   // 'i'
  const ListMark: byte := 0x6C      // 'l'
  const DictMark: byte := 0x64      // 'd'
  const EndMark: byte := 0x65       // 'e'
  const Colon: byte := 0x3A         // ':'
  const Minus: byte := 0x2D         // '-'
  const Plus: byte := 0x2B          // '+'
  const Comma: byte := 0x2C         // ','
  const AsciiZero: byte := 0x30     // '0'
  const AsciiNine: byte := 0x39     // '9'

  const MaxInt64: int := 0x7FFF_FFFF_FFFF_FFFF
  const MinInt64: int := -0x8000_0000_0000_0000

  predicate InInt64(n: int) { MinInt64 <= n <= MaxInt64 }

  predicate IsDigit(b: byte) { AsciiZero <= b <= AsciiNine }

  predicate AllDigits(s: seq<byte>) { forall k :: 0 <= k < |s| ==> IsDigit(s[k]) }

  /** The numeric value of a run of ASCII digits, most significant first. */
  function DigitsValue(ds: seq<byte>): (n: nat)
    requires AllDigits(ds)
  {
    if ds == [] then 0
    else DigitsValue(ds[..|ds| - 1]) * 10 + (ds[|ds| - 1] - AsciiZero) as int
  }

  /** The ASCII digit of 0 <= d < 10. */
  function DigitByte(d: nat): (b: byte)
    requires d < 10
    ensures IsDigit(b) && (b - AsciiZero) as int == d
  {
    (d + 0x30) as byte
  }

  /** The shortest decimal spelling of n, as Go's strconv.Itoa writes it. */
  function Decimal(n: nat): (ds: seq<byte>)
    ensures |ds| > 0 && AllDigits(ds)
  {
    if n < 10 then [DigitByte(n)] else Decimal(n / 10) + [DigitByte(n % 10)]
  }

  /** The value of a run of bytes read as decimal digits, most significant first,
      or None as soon as one of them is not a digit. */
  function ParseDigits(ds: seq<byte>): (r: Option<nat>)
    ensures r.Some? && ds != [] ==> IsDigit(ds[0])
  {
    if ds == [] then Some(0)
    else
      match ParseDigits(ds[..|ds| - 1])
      case None => None
      case Some(n) =>
        var b := ds[|ds| - 1];
        if IsDigit(b) then Some(n * 10 + (b - AsciiZero) as int) else None
  }

  /** strconv.Atoi / strconv.ParseInt(s, 10, 64) with a 64-bit int: an optional sign,
      then a non-empty run of decimal digits whose value fits the int64 range. */
  function Atoi(s: seq<byte>): (r: Option<int>)
    ensures r.Some? ==> InInt64(r.value)
    ensures r.Some? ==> |s| > 0 && (IsDigit(s[0]) || s[0] == Minus || s[0] == Plus)
  {
    var signed := |s| > 0 && (s[0] == Minus || s[0] == Plus);
    var ds := if signed then s[1..] else s;
    if |ds| == 0 then None
    else
      match ParseDigits(ds)
      case None => None
      case Some(m) =>
        var n: int := if signed && s[0] == Minus then 0 - m else m;
        if InInt64(n) then Some(n) else None
  }

  /** ParseDigits accepts exactly the runs of digits, with their value. */
  lemma {:induction false} ParseDigitsValue(ds: seq<byte>)
    ensures ParseDigits(ds).Some? <==> AllDigits(ds)
    ensures ParseDigits(ds).Some? ==> ParseDigits(ds).value == DigitsValue(ds)
  {
    if ds != [] {
      var init := ds[..|ds| - 1];
      ParseDigitsValue(init);
      if AllDigits(ds) {
        assert AllDigits(init) by {
          forall k | 0 <= k < |init| ensures IsDigit(init[k]) { assert init[k] == ds[k]; }
        }
      } else if AllDigits(init) {
        assert !IsDigit(ds[|ds| - 1]) by {
          forall k | 0 <= k < |ds| - 1 ensures IsDigit(ds[k]) { assert init[k] == ds[k]; }
        }
      }
    }
  }

  /** Reading back what Decimal writes gives the number. */
  lemma {:induction false} DigitsValueOfDecimal(n: nat)
    ensures DigitsValue(Decimal(n)) == n
  {
    if n >= 10 {
      var ds := Decimal(n);
      assert ds[..|ds| - 1] == Decimal(n / 10);
      DigitsValueOfDecimal(n / 10);
    }
  }

  /** Leading zeros do not change the value of a digit run. */
  lemma {:induction false} DigitsValueLeadingZero(ds: seq<byte>)
    requires AllDigits(ds)
    ensures AllDigits([AsciiZero] + ds) && DigitsValue([AsciiZero] + ds) == DigitsValue(ds)
  {
    var zs := [AsciiZero] + ds;
    if ds != [] {
      assert zs[..|zs| - 1] == [AsciiZero] + ds[..|ds| - 1];
      DigitsValueLeadingZero(ds[..|ds| - 1]);
    }
  }

  /** Atoi accepts the decimal spelling of every non-negative int. */
  lemma AtoiDecimal(n: nat)
    requires n <= MaxInt64
    ensures Atoi(Decimal(n)) == Some(n)
  {
    ParseDigitsValue(Decimal(n));
    DigitsValueOfDecimal(n);
  }

  /** Atoi accepts "-" followed by the decimal spelling, down to the smallest int. */
  lemma AtoiNegativeDecimal(n: nat)
    requires n <= -MinInt64
    ensures Atoi([Minus] + Decimal(n)) == Some(-(n as int))
  {
    var s := [Minus] + Decimal(n);
    assert s[1..] == Decimal(n);
    ParseDigitsValue(Decimal(n));
    DigitsValueOfDecimal(n);
  }

  /** Atoi rejects the empty string and a lone sign. */
  lemma AtoiRejectsNoDigits()
    ensures Atoi([]) == None && Atoi([Minus]) == None && Atoi([Plus]) == None
  {
    assert [Minus][1..] == [];
    assert [Plus][1..] == [];
  }

  /** Atoi rejects digit runs whose value exceeds the int64 range, with or without
      leading zeros. */
  lemma AtoiRejectsOverflow(ds: seq<byte>)
    requires |ds| > 0 && AllDigits(ds) && DigitsValue(ds) > MaxInt64
    ensures Atoi(ds) == None
  {
    ParseDigitsValue(ds);
    assert IsDigit(ds[0]);
  }

  /** Atoi rejects "-" followed by digits whose value is below the int64 range, with or
      without leading zeros. */
  lemma AtoiRejectsNegativeOverflow(ds: seq<byte>)
    requires |ds| > 0 && AllDigits(ds) && DigitsValue(ds) > -MinInt64
    ensures Atoi([Minus] + ds) == None
  {
    var s := [Minus] + ds;
    assert s[1..] == ds;
    ParseDigitsValue(ds);
  }

  // Go ranges over a map in an unspecified order; where the model has to fix one
  // it visits the keys in ascending byte order, which is one of those orders.

  predicate LexLe(a: seq<byte>, b: seq<byte>)
  {
    a == [] || (b != [] && (a[0] < b[0] || (a[0] == b[0] && LexLe(a[1..], b[1..]))))
  }

  predicate IsLeast(k: seq<byte>, s: set<seq<byte>>)
  {
    k in s && forall j :: j in s ==> LexLe(k, j)
  }

  lemma {:induction false} LexLeReflexive(a: seq<byte>)
    ensures LexLe(a, a)
  {
    if a != [] { LexLeReflexive(a[1..]); }
  }

  lemma {:induction false} LexLeAntisymmetric(a: seq<byte>, b: seq<byte>)
    requires LexLe(a, b) && LexLe(b, a)
    ensures a == b
  {
    if a != [] && b != [] {
      LexLeAntisymmetric(a[1..], b[1..]);
      assert a == [a[0]] + a[1..] && b == [b[0]] + b[1..];
    }
  }

  lemma {:induction false} LexLeTotal(a: seq<byte>, b: seq<byte>)
    ensures LexLe(a, b) || LexLe(b, a)
  {
    if a != [] && b != [] && a[0] == b[0] { LexLeTotal(a[1..], b[1..]); }
  }

  lemma {:induction false} LexLeTransitive(a: seq<byte>, b: seq<byte>, c: seq<byte>)
    requires LexLe(a, b) && LexLe(b, c)
    ensures LexLe(a, c)
  {
    if a != [] && b != [] && c != [] && a[0] == b[0] && b[0] == c[0] {
      LexLeTransitive(a[1..], b[1..], c[1..]);
    }
  }

  lemma {:induction false} LeastExists(s: set<seq<byte>>)
    requires s != {}
    ensures exists k :: IsLeast(k, s)
    decreases |s|
  {
    var x :| x in s;
    LexLeReflexive(x);
    if s - {x} == {} {
      assert s == {x};
      assert IsLeast(x, s);
    } else {
      LeastExists(s - {x});
      var m :| IsLeast(m, s - {x});
      LexLeTotal(m, x);
      if LexLe(m, x) {
        assert IsLeast(m, s);
      } else {
        forall j | j in s ensures LexLe(x, j) {
          if j != x { LexLeTransitive(x, m, j); }
        }
        assert IsLeast(x, s);
      }
    }
  }

  lemma LeastUnique(s: set<seq<byte>>)
    ensures forall k1, k2 :: IsLeast(k1, s) && IsLeast(k2, s) ==> k1 == k2
  {
    forall k1, k2 | IsLeast(k1, s) && IsLeast(k2, s) ensures k1 == k2 {
      LexLeAntisymmetric(k1, k2);
    }
  }

  /** The smallest of a non-empty set of keys. */
  function Least(s: set<seq<byte>>): (k: seq<byte>)
    requires s != {}
    ensures k in s
  {
    LeastExists(s);
    LeastUnique(s);
    var k :| IsLeast(k, s); k
  }

  lemma LeastIsLeast(s: set<seq<byte>>)
    requires s != {}
    ensures IsLeast(Least(s), s)
  {
  }

  /** The keys of a dictionary, each once, in ascending byte order. */
  function SortedKeys(s: set<seq<byte>>): (ks: seq<seq<byte>>)
    ensures forall key :: key in ks <==> key in s
    ensures |ks| == |s|
    decreases |s|
  {
    if s == {} then [] else [Least(s)] + SortedKeys(s - {Least(s)})
  }

  /** The keys come out in strictly ascending order. */
  lemma {:induction false} SortedKeysAscending(s: set<seq<byte>>, i: nat, j: nat)
    requires i < j < |SortedKeys(s)|
    ensures LexLe(SortedKeys(s)[i], SortedKeys(s)[j]) && SortedKeys(s)[i] != SortedKeys(s)[j]
    decreases |s|
  {
    var ks := SortedKeys(s);
    var k := Least(s);
    var rest := SortedKeys(s - {k});
    assert ks == [k] + rest;
    assert ks[j] == rest[j - 1];
    if i == 0 {
      var x := rest[j - 1];
      assert x in s - {k};
      LeastIsLeast(s);
      assert LexLe(k, x);
    } else {
      SortedKeysAscending(s - {k}, i - 1, j - 1);
      assert ks[i] == rest[i - 1];
    }
  }
}
