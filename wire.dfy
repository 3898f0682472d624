/** Bytes on the wire: the byte type, the ASCII constants the RESP framing
    uses, and decimal numerals together with their inverse. */
module Wire {

  newtype byte = x: int | 0 <= x < 256

  /** A `Vec<u8>` (and, as its UTF-8 bytes, a Rust `String`). */
  type Bytes = seq<byte>

  /** Rust's `i64`. */
  type i64 = x: int | -0x8000_0000_0000_0000 <= x < 0x8000_0000_0000_0000

  datatype Option<+T> = None | Some(value: T)

  const CR: byte := 13
  const LF: byte := 10
  const CRLF: Bytes := [CR, LF]

  const PLUS: byte := 43        // '+'  SimpleString tag, and the explicit sign
  const MINUS: byte := 45       // '-'  SimpleError tag, and the negative sign
  const COLON: byte := 58       // ':'  Integer
  const DOLLAR: byte := 36      // '$'  BulkString
  const STAR: byte := 42        // '*'  Array (and, here, Map)
  const UNDERSCORE: byte := 95  // '_'  Null
  const HASH: byte := 35        // '#'  Boolean
  const COMMA: byte := 44       // ','  Double
  const TILDE: byte := 126      // '~'  Set
  const LOWER_T: byte := 116    // 't'
  const LOWER_F: byte := 102    // 'f'
  const ZERO: byte := 48        // '0'
  const ONE: byte := 49         // '1'

  predicate IsDigit(b: byte) {
    ZERO <= b <= ZERO + 9
  }

  predicate AllDigits(s: Bytes) {
    forall i :: 0 <= i < |s| ==> IsDigit(s[i])
  }

  /** The number a string of decimal digits denotes, most significant first. */
  function DigitsValue(s: Bytes): nat
    requires AllDigits(s)
  {
    if s == [] then 0 else DigitsValue(s[..|s| - 1]) * 10 + (s[|s| - 1] - ZERO) as int
  }

  /** Rust's `{}` formatting of a non-negative integer: its decimal digits,
      with no sign and no leading zero. */
  function Decimal(n: nat): Bytes
    decreases n
  {
    if n < 10 then [ZERO + n as byte]
    else Decimal(n / 10) + [ZERO + (n % 10) as byte]
  }

  /** The numeral is a non-empty string of digits that denotes `n`, with a
      leading zero only for zero itself. */
  lemma {:induction false} DecimalIsNumeral(n: nat)
    ensures var r := Decimal(n);
      |r| >= 1 && AllDigits(r) &&
      (r[0] == ZERO <==> n == 0) &&
      (n == 0 ==> r == [ZERO]) &&
      DigitsValue(r) == n
    decreases n
  {
    var r := Decimal(n);
    if n < 10 {
      assert r[..0] == [];
    } else {
      DecimalIsNumeral(n / 10);
      assert r[..|r| - 1] == Decimal(n / 10);
    }
  }

  /** A digit string with no superfluous leading zero is the numeral of its value. */
  lemma {:induction false} DecimalOfDigitsValue(s: Bytes)
    requires |s| >= 1 && AllDigits(s)
    requires s[0] == ZERO ==> |s| == 1
    ensures Decimal(DigitsValue(s)) == s
    decreases |s|
  {
    var n := DigitsValue(s);
    if |s| == 1 {
      assert s[..0] == [];
      assert DigitsValue(s[..0]) == 0;
      assert n == DigitsValue(s[..0]) * 10 + (s[0] - ZERO) as int;
    } else {
      var init := s[..|s| - 1];
      assert AllDigits(init);
      DecimalOfDigitsValue(init);
      var m := DigitsValue(init);
      DecimalIsNumeral(m);
      assert init[0] != ZERO;
      assert m != 0;
      assert n == m * 10 + (s[|s| - 1] - ZERO) as int;
      assert n / 10 == m && n % 10 == (s[|s| - 1] - ZERO) as int;
      assert s == init + [s[|s| - 1]];
    }
  }

  /** Distinct numbers have distinct numerals. */
  lemma DecimalInjective(m: nat, n: nat)
    requires Decimal(m) == Decimal(n)
    ensures m == n
  {
    DecimalIsNumeral(m);
    DecimalIsNumeral(n);
  }

  lemma AppendAssoc(a: Bytes, b: Bytes, c: Bytes)
    ensures a + (b + c) == a + b + c
  {
  }

  /** Rust's `{}` formatting of a signed integer: a `-` only when negative. */
  function SignedDecimal(n: int): Bytes {
    if n < 0 then [MINUS] + Decimal(-n) else Decimal(n)
  }

  /** Reads back an unsigned numeral: digits only, at least one. */
  function ParseDecimal(s: Bytes): Option<nat> {
    if |s| >= 1 && AllDigits(s) then Some(DigitsValue(s)) else None
  }
}
