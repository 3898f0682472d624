/** `RespEncode` for every frame variant: one framing rule per variant, each
    ending in CRLF, and recursion through `Array`, `Set` and `Map`. The pure
    impls are functions; the impls that fill a local buffer with
    `extend_from_slice` are methods proved equal to the function that
    specifies them. */
module Encoder {
  import opened Wire
  import opened Resp

  /** Rust's formatting of an `f64` in `impl RespEncode for f64`: the bytes
      before the closing CRLF. For magnitudes up to 1e8 that is `,`, a `+`
      unless negative, and `{}` of the value; above, `$,` and `{:+e}`. Float
      comparison and float printing are outside this model, so the encoder
      takes this formatter as a parameter. */
  type DoubleFormat = bv64 -> Bytes

  /** The header of a length- or count-prefixed frame: tag, decimal, CRLF. */
  function Header(tag: byte, n: nat): Bytes {
    [tag] + Decimal(n) + CRLF
  }

  predicate EndsWithCrlf(s: Bytes) {
    |s| >= 2 && s[|s| - 2..] == CRLF
  }

  /** `impl RespEncode for i64`: `:`, then `+` unless negative, then the
      value as Rust prints it (which carries its own `-`), then CRLF. So
      exactly one sign byte follows the tag, and then only digits. */
  function EncodeInteger(n: i64): Bytes {
    [COLON] + (if n < 0 then [] else [PLUS]) + SignedDecimal(n) + CRLF
  }

  /** `impl RespEncode for SimpleString`: `+`, the text unchecked, CRLF. */
  function EncodeSimpleString(s: SimpleString): Bytes {
    [PLUS] + s.Deref() + CRLF
  }

  /** `impl RespEncode for SimpleError`: `-`, the text unchecked, CRLF. */
  function EncodeSimpleError(e: SimpleError): Bytes {
    [MINUS] + e.Deref() + CRLF
  }

  /** What `impl RespEncode for BulkString` builds: the length header, the
      bytes verbatim, CRLF. */
  function BulkStringBytes(b: BulkString): Bytes {
    Header(DOLLAR, b.Len()) + b.Deref() + CRLF
  }

  /** `impl RespEncode for BulkString`, three appends to a fresh buffer. */
  method EncodeBulkString(b: BulkString) returns (buf: Bytes)
    ensures buf == BulkStringBytes(b)
  {
    buf := [];
    buf := buf + Header(DOLLAR, b.Len());
    buf := buf + b.Deref();
    buf := buf + CRLF;
  }

  /** `impl RespEncode for RespNullBulkString`: `$-1` CRLF. */
  function EncodeNullBulkString(n: RespNullBulkString): (r: Bytes)
    ensures r == [DOLLAR, MINUS, ONE, CR, LF]
  {
    [DOLLAR, MINUS, ONE] + CRLF
  }

  /** `impl RespEncode for RespNullArray`: `*-1` CRLF. */
  function EncodeNullArray(n: RespNullArray): (r: Bytes)
    ensures r == [STAR, MINUS, ONE, CR, LF]
  {
    [STAR, MINUS, ONE] + CRLF
  }

  /** `impl RespEncode for RespNull`: `_` CRLF. */
  function EncodeNull(n: RespNull): (r: Bytes)
    ensures r == [UNDERSCORE, CR, LF]
  {
    [UNDERSCORE] + CRLF
  }

  /** `impl RespEncode for bool`: `#t` or `#f`, CRLF. */
  function EncodeBool(b: bool): (r: Bytes)
    ensures r == [HASH, if b then LOWER_T else LOWER_F, CR, LF]
  {
    if b then [HASH, LOWER_T] + CRLF else [HASH, LOWER_F] + CRLF
  }

  /** `impl RespEncode for f64`: both of its format strings end in CRLF. */
  function EncodeDouble(d: bv64, fmt: DoubleFormat): (r: Bytes)
    ensures EndsWithCrlf(r) && r[..|r| - 2] == fmt(d)
  {
    fmt(d) + CRLF
  }

  /** `impl RespEncode for RespFrame`: dispatch on the variant. */
  function Encode(f: RespFrame, fmt: DoubleFormat): Bytes
    decreases f
  {
    match f
    case SimpleString(s) => EncodeSimpleString(s)
    case Error(e) => EncodeSimpleError(e)
    case Integer(i) => EncodeInteger(i)
    case BulkString(b) => BulkStringBytes(b)
    case NullBulkString(n) => EncodeNullBulkString(n)
    case Array(a) => ArrayBytes(a, fmt)
    case Null(n) => EncodeNull(n)
    case NullArray(n) => EncodeNullArray(n)
    case Boolean(b) => EncodeBool(b)
    case Double(d) => EncodeDouble(d, fmt)
    case Map(m) => MapBytes(m, fmt)
    case Set(s) => SetBytes(s, fmt)
  }

  /** The encodings of the frames, one after the other, in order. */
  function EncodeAll(items: seq<RespFrame>, fmt: DoubleFormat): Bytes
    decreases items
  {
    if items == [] then [] else Encode(items[0], fmt) + EncodeAll(items[1..], fmt)
  }

  /** What `impl RespEncode for RespArray` builds: `*`, the element count,
      CRLF, then every element's encoding in order. */
  function ArrayBytes(a: RespArray, fmt: DoubleFormat): Bytes
    decreases a
  {
    Header(STAR, a.Len()) + EncodeAll(a.items, fmt)
  }

  /** What `impl RespEncode for RespSet` builds: as an array, tagged `~`. */
  function SetBytes(s: RespSet, fmt: DoubleFormat): Bytes
    decreases s
  {
    Header(TILDE, s.Len()) + EncodeAll(s.items, fmt)
  }

  /** Each entry as its key encoded as a `SimpleString`, then its value. */
  function EncodeEntries(es: seq<(Bytes, RespFrame)>, fmt: DoubleFormat): Bytes
    decreases es
  {
    if es == [] then []
    else
      var e := es[0];
      assert e in es;
      EntryBytes(e, fmt) + EncodeEntries(es[1..], fmt)
  }

  /** One map entry on the wire: its key as a `SimpleString`, then its value. */
  function EntryBytes(e: (Bytes, RespFrame), fmt: DoubleFormat): Bytes
    decreases e
  {
    assert e.1 < e;
    EncodeSimpleString(SimpleString.New(e.0)) + Encode(e.1, fmt)
  }

  /** What `impl RespEncode for RespMap` builds: `*` (not `%`), the number
      of PAIRS, CRLF, then key and value of every entry in key order. */
  function MapBytes(m: RespMap, fmt: DoubleFormat): Bytes
    decreases m
  {
    Header(STAR, m.Len()) + EncodeEntries(m.entries, fmt)
  }

  /** `impl RespEncode for RespArray`: the header, then one append per
      element. */
  method EncodeArray(a: RespArray, fmt: DoubleFormat) returns (buf: Bytes)
    ensures buf == ArrayBytes(a, fmt)
  {
    buf := [];
    buf := buf + Header(STAR, a.Len());
    FramesPrefixStart(STAR, a.items, fmt);
    for i := 0 to |a.items|
      invariant buf == FramesPrefix(STAR, a.items, i, fmt)
    {
      FramesPrefixStep(STAR, a.items, i, fmt);
      buf := buf + Encode(a.items[i], fmt);
    }
    FramesPrefixDone(STAR, a.items, fmt);
  }

  /** `impl RespEncode for RespSet`: the header, then one append per
      element. */
  method EncodeSet(s: RespSet, fmt: DoubleFormat) returns (buf: Bytes)
    ensures buf == SetBytes(s, fmt)
  {
    buf := [];
    buf := buf + Header(TILDE, s.Len());
    FramesPrefixStart(TILDE, s.items, fmt);
    for i := 0 to |s.items|
      invariant buf == FramesPrefix(TILDE, s.items, i, fmt)
    {
      FramesPrefixStep(TILDE, s.items, i, fmt);
      buf := buf + Encode(s.items[i], fmt);
    }
    FramesPrefixDone(TILDE, s.items, fmt);
  }

  /** `impl RespEncode for RespMap`: the pair-count header, then two appends
      per entry, key first. */
  method EncodeMap(m: RespMap, fmt: DoubleFormat) returns (buf: Bytes)
    ensures buf == MapBytes(m, fmt)
  {
    buf := [];
    buf := buf + Header(STAR, m.Len());
    MapPrefixStart(m, fmt);
    for i := 0 to |m.entries|
      invariant buf == MapPrefix(m, i, fmt)
    {
      var k := m.entries[i].0;
      var v := m.entries[i].1;
      MapPrefixStep(m, i, fmt);
      buf := buf + EncodeSimpleString(SimpleString.New(k));
      buf := buf + Encode(v, fmt);
    }
    MapPrefixDone(m, fmt);
  }

  // ---------------------------------------------------------------------------
  // What the loops have appended so far

  /** The array or set loop after its first `i` elements. */
  function FramesPrefix(tag: byte, items: seq<RespFrame>, i: nat, fmt: DoubleFormat): Bytes
    requires i <= |items|
  {
    Header(tag, |items|) + EncodeAll(items[..i], fmt)
  }

  lemma FramesPrefixStart(tag: byte, items: seq<RespFrame>, fmt: DoubleFormat)
    ensures [] + Header(tag, |items|) == FramesPrefix(tag, items, 0, fmt)
  {
    assert items[..0] == [];
    assert Header(tag, |items|) + [] == Header(tag, |items|);
  }

  lemma FramesPrefixStep(tag: byte, items: seq<RespFrame>, i: nat, fmt: DoubleFormat)
    requires i < |items|
    ensures FramesPrefix(tag, items, i + 1, fmt) == FramesPrefix(tag, items, i, fmt) + Encode(items[i], fmt)
  {
    assert items[..i + 1] == items[..i] + [items[i]];
    EncodeAllSnoc(items[..i], items[i], fmt);
    AppendAssoc(Header(tag, |items|), EncodeAll(items[..i], fmt), Encode(items[i], fmt));
  }

  lemma FramesPrefixDone(tag: byte, items: seq<RespFrame>, fmt: DoubleFormat)
    ensures FramesPrefix(tag, items, |items|, fmt) == Header(tag, |items|) + EncodeAll(items, fmt)
  {
    assert items[..|items|] == items;
  }

  /** The map loop after its first `i` entries. */
  function MapPrefix(m: RespMap, i: nat, fmt: DoubleFormat): Bytes
    requires i <= |m.entries|
  {
    Header(STAR, m.Len()) + EncodeEntries(m.entries[..i], fmt)
  }

  lemma MapPrefixStart(m: RespMap, fmt: DoubleFormat)
    ensures [] + Header(STAR, m.Len()) == MapPrefix(m, 0, fmt)
  {
    assert m.entries[..0] == [];
    assert Header(STAR, m.Len()) + [] == Header(STAR, m.Len());
  }

  lemma MapPrefixStep(m: RespMap, i: nat, fmt: DoubleFormat)
    requires i < |m.entries|
    ensures MapPrefix(m, i + 1, fmt)
      == MapPrefix(m, i, fmt) + EncodeSimpleString(SimpleString.New(m.entries[i].0)) + Encode(m.entries[i].1, fmt)
  {
    var es := m.entries;
    var head := Header(STAR, m.Len());
    var key := EncodeSimpleString(SimpleString.New(es[i].0));
    var value := Encode(es[i].1, fmt);
    assert es[..i + 1] == es[..i] + [(es[i].0, es[i].1)];
    EncodeEntriesSnoc(es[..i], es[i].0, es[i].1, fmt);
    AppendAssoc(head, EncodeEntries(es[..i], fmt), EntryBytes(es[i], fmt));
    AppendAssoc(MapPrefix(m, i, fmt), key, value);
  }

  lemma MapPrefixDone(m: RespMap, fmt: DoubleFormat)
    ensures MapPrefix(m, |m.entries|, fmt) == MapBytes(m, fmt)
  {
    assert m.entries[..|m.entries|] == m.entries;
  }

  // ---------------------------------------------------------------------------
  // Concatenation

  /** Encoding a sequence of frames is a homomorphism from `+` to `+`. */
  lemma {:induction false} EncodeAllAppend(xs: seq<RespFrame>, ys: seq<RespFrame>, fmt: DoubleFormat)
    ensures EncodeAll(xs + ys, fmt) == EncodeAll(xs, fmt) + EncodeAll(ys, fmt)
    decreases |xs|
  {
    if xs != [] {
      assert (xs + ys)[0] == xs[0] && (xs + ys)[1..] == xs[1..] + ys;
      EncodeAllAppend(xs[1..], ys, fmt);
      AppendAssoc(Encode(xs[0], fmt), EncodeAll(xs[1..], fmt), EncodeAll(ys, fmt));
    } else {
      assert xs + ys == ys;
      assert [] + EncodeAll(ys, fmt) == EncodeAll(ys, fmt);
    }
  }

  lemma EncodeAllSnoc(xs: seq<RespFrame>, x: RespFrame, fmt: DoubleFormat)
    ensures EncodeAll(xs + [x], fmt) == EncodeAll(xs, fmt) + Encode(x, fmt)
  {
    EncodeAllAppend(xs, [x], fmt);
    assert [x][1..] == [];
    assert EncodeAll([x], fmt) == Encode(x, fmt) + EncodeAll([], fmt);
    assert Encode(x, fmt) + [] == Encode(x, fmt);
  }

  lemma {:induction false} EncodeEntriesSnoc(es: seq<(Bytes, RespFrame)>, k: Bytes, v: RespFrame, fmt: DoubleFormat)
    ensures EncodeEntries(es + [(k, v)], fmt) == EncodeEntries(es, fmt) + EntryBytes((k, v), fmt)
    decreases |es|
  {
    var xs := es + [(k, v)];
    if es != [] {
      assert xs[0] == es[0] && xs[1..] == es[1..] + [(k, v)];
      EncodeEntriesSnoc(es[1..], k, v, fmt);
      var first := EntryBytes(es[0], fmt);
      assert EncodeEntries(xs, fmt) == first + EncodeEntries(xs[1..], fmt);
      assert EncodeEntries(es, fmt) == first + EncodeEntries(es[1..], fmt);
      AppendAssoc(first, EncodeEntries(es[1..], fmt), EntryBytes((k, v), fmt));
    } else {
      assert xs == [(k, v)] && xs[1..] == [];
      assert EncodeEntries(xs, fmt) == EntryBytes((k, v), fmt) + [];
      assert EntryBytes((k, v), fmt) + [] == [] + EntryBytes((k, v), fmt);
    }
  }

  // ---------------------------------------------------------------------------
  // Framing

  /** The tag byte each variant's frame starts with. A `Map` shares `*` with
      `Array`. For a `Double` this is the tag of the small-magnitude path
      only (the large-magnitude path starts with `$`); `FramingShape` claims
      nothing about the first byte of a `Double`. */
  function TagByte(f: RespFrame): byte {
    match f
    case SimpleString(_) => PLUS
    case Error(_) => MINUS
    case Integer(_) => COLON
    case BulkString(_) => DOLLAR
    case NullBulkString(_) => DOLLAR
    case Array(_) => STAR
    case Null(_) => UNDERSCORE
    case NullArray(_) => STAR
    case Boolean(_) => HASH
    case Double(_) => COMMA
    case Map(_) => STAR
    case Set(_) => TILDE
  }

  lemma EndsWithCrlfAppend(a: Bytes, b: Bytes)
    requires EndsWithCrlf(b)
    ensures EndsWithCrlf(a + b)
  {
    assert (a + b)[|a + b| - 2..] == b[|b| - 2..];
  }

  /** Every frame's encoding ends with CRLF; every frame but a `Double`
      starts with its variant's tag byte and is at least three bytes long. */
  lemma {:induction false} FramingShape(f: RespFrame, fmt: DoubleFormat)
    ensures EndsWithCrlf(Encode(f, fmt))
    ensures !f.Double? ==> |Encode(f, fmt)| >= 3 && Encode(f, fmt)[0] == TagByte(f)
    decreases f
  {
    match f
    case SimpleString(s) => SimpleTextLayout(s, SimpleError.New([]));
    case Error(e) => SimpleTextLayout(SimpleString.New([]), e);
    case Integer(n) => IntegerLayout(n);
    case BulkString(b) =>
      HeaderFraming(DOLLAR, b.Len(), b.Deref() + CRLF);
    case NullBulkString(_) =>
    case Array(a) =>
      FramingShapeAll(a.items, fmt);
      HeaderFraming(STAR, a.Len(), EncodeAll(a.items, fmt));
    case Null(_) =>
    case NullArray(_) =>
    case Boolean(_) =>
    case Double(d) =>
    case Map(m) =>
      FramingShapeEntries(m.entries, fmt);
      HeaderFraming(STAR, m.Len(), EncodeEntries(m.entries, fmt));
    case Set(x) =>
      FramingShapeAll(x.items, fmt);
      HeaderFraming(TILDE, x.Len(), EncodeAll(x.items, fmt));
  }

  /** A header followed by nothing, or by something ending in CRLF. */
  lemma HeaderFraming(tag: byte, n: nat, body: Bytes)
    requires body == [] || EndsWithCrlf(body)
    ensures var r := Header(tag, n) + body;
      EndsWithCrlf(r) && |r| >= 3 && r[0] == tag
  {
    if body != [] {
      EndsWithCrlfAppend(Header(tag, n), body);
    }
  }

  lemma {:induction false} FramingShapeAll(items: seq<RespFrame>, fmt: DoubleFormat)
    ensures items != [] ==> EndsWithCrlf(EncodeAll(items, fmt))
    decreases items
  {
    if items != [] {
      FramingShapeAll(items[1..], fmt);
      FramingShape(items[0], fmt);
      if items[1..] == [] {
        assert EncodeAll(items, fmt) == Encode(items[0], fmt);
      } else {
        EndsWithCrlfAppend(Encode(items[0], fmt), EncodeAll(items[1..], fmt));
      }
    }
  }

  lemma {:induction false} FramingShapeEntries(es: seq<(Bytes, RespFrame)>, fmt: DoubleFormat)
    ensures es != [] ==> EndsWithCrlf(EncodeEntries(es, fmt))
    decreases es
  {
    if es != [] {
      var e := es[0];
      assert e in es && e.1 < e;
      FramingShapeEntries(es[1..], fmt);
      FramingShape(e.1, fmt);
      var head := EncodeSimpleString(SimpleString.New(e.0)) + Encode(e.1, fmt);
      EndsWithCrlfAppend(EncodeSimpleString(SimpleString.New(e.0)), Encode(e.1, fmt));
      if es[1..] == [] {
        assert EncodeEntries(es, fmt) == head;
      } else {
        EndsWithCrlfAppend(head, EncodeEntries(es[1..], fmt));
      }
    }
  }

  /** An integer's frame: `:`, exactly one sign byte (`+` unless negative),
      then the digits of its magnitude, then CRLF. */
  lemma IntegerLayout(n: i64)
    ensures var r := EncodeInteger(n);
      |r| >= 5 && r[0] == COLON && EndsWithCrlf(r) &&
      r[1] == (if n < 0 then MINUS else PLUS) &&
      AllDigits(r[2..|r| - 2]) && |r[2..|r| - 2]| >= 1 &&
      DigitsValue(r[2..|r| - 2]) == (if n < 0 then -(n as int) else n as int)
  {
    var d := Decimal(if n < 0 then -(n as int) else n as int);
    DecimalIsNumeral(if n < 0 then -(n as int) else n as int);
    IntegerAsSignAndDigits(n);
    TwoByteLine(COLON, if n < 0 then MINUS else PLUS, d);
  }

  lemma IntegerAsSignAndDigits(n: i64)
    ensures EncodeInteger(n) == [COLON, if n < 0 then MINUS else PLUS] + Decimal(if n < 0 then -(n as int) else n as int) + CRLF
  {
    if n < 0 {
      assert EncodeInteger(n) == [COLON] + [] + ([MINUS] + Decimal(-(n as int))) + CRLF;
    } else {
      assert EncodeInteger(n) == [COLON] + [PLUS] + Decimal(n as int) + CRLF;
    }
  }

  lemma TwoByteLine(a: byte, b: byte, d: Bytes)
    ensures var r := [a, b] + d + CRLF;
      |r| == |d| + 4 && r[0] == a && r[1] == b && r[2..|r| - 2] == d && r[|r| - 2..] == CRLF
  {
    var r := [a, b] + d + CRLF;
    assert r[2..|r| - 2] == d;
  }

  /** Simple strings and simple errors carry their text verbatim between the
      tag and CRLF, whatever bytes it holds. */
  lemma SimpleTextLayout(s: SimpleString, e: SimpleError)
    ensures var r := EncodeSimpleString(s);
      |r| == |s.Deref()| + 3 && r[0] == PLUS && r[1..|r| - 2] == s.Deref() && EndsWithCrlf(r)
    ensures var r := EncodeSimpleError(e);
      |r| == |e.Deref()| + 3 && r[0] == MINUS && r[1..|r| - 2] == e.Deref() && EndsWithCrlf(r)
  {
    var r := EncodeSimpleString(s);
    assert r[1..|r| - 2] == s.Deref();
    var q := EncodeSimpleError(e);
    assert q[1..|q| - 2] == e.Deref();
  }

  /** A bulk string's frame is its bytes plus the digits of its length plus
      five framing bytes, and the bytes sit verbatim right after the header. */
  lemma BulkStringLayout(b: BulkString)
    ensures var r, n := BulkStringBytes(b), |Decimal(b.Len())|;
      |r| == b.Len() + n + 5 &&
      r[0] == DOLLAR && AllDigits(r[1..n + 1]) && DigitsValue(r[1..n + 1]) == b.Len() && r[n + 1..n + 3] == CRLF &&
      r[n + 3..n + 3 + b.Len()] == b.Deref() && r[n + 3 + b.Len()..] == CRLF
  {
    var r, n := BulkStringBytes(b), |Decimal(b.Len())|;
    DecimalIsNumeral(b.Len());
    assert r[1..n + 1] == Decimal(b.Len());
  }

  // ---------------------------------------------------------------------------
  // Maps

  /** The frames a map's body consists of: per entry, its key as a
      `SimpleString`, then its value. */
  function SubFrames(es: seq<(Bytes, RespFrame)>): seq<RespFrame> {
    if es == [] then []
    else [RespFrame.SimpleString(SimpleString.New(es[0].0)), es[0].1] + SubFrames(es[1..])
  }

  /** Two sub-frames per entry, key then value, in entry order, and the body
      is exactly their encodings. */
  lemma EntriesAsSubFrames(es: seq<(Bytes, RespFrame)>, fmt: DoubleFormat)
    ensures |SubFrames(es)| == 2 * |es|
    ensures forall i :: 0 <= i < |es| ==>
      SubFrames(es)[2 * i] == RespFrame.SimpleString(SimpleString.New(es[i].0)) &&
      SubFrames(es)[2 * i + 1] == es[i].1
    ensures EncodeEntries(es, fmt) == EncodeAll(SubFrames(es), fmt)
  {
    SubFramesLayout(es);
    SubFramesEncoding(es, fmt);
  }

  lemma {:induction false} SubFramesLayout(es: seq<(Bytes, RespFrame)>)
    ensures |SubFrames(es)| == 2 * |es|
    ensures forall i :: 0 <= i < |es| ==>
      SubFrames(es)[2 * i] == RespFrame.SimpleString(SimpleString.New(es[i].0)) &&
      SubFrames(es)[2 * i + 1] == es[i].1
  {
    if es != [] {
      var key := RespFrame.SimpleString(SimpleString.New(es[0].0));
      var rest := SubFrames(es[1..]);
      SubFramesLayout(es[1..]);
      assert SubFrames(es) == [key, es[0].1] + rest;
      forall i | 1 <= i < |es|
        ensures SubFrames(es)[2 * i] == RespFrame.SimpleString(SimpleString.New(es[i].0))
        ensures SubFrames(es)[2 * i + 1] == es[i].1
      {
        assert es[1..][i - 1] == es[i];
        assert SubFrames(es)[2 * i] == rest[2 * (i - 1)];
        assert SubFrames(es)[2 * i + 1] == rest[2 * (i - 1) + 1];
      }
    }
  }

  lemma {:induction false} SubFramesEncoding(es: seq<(Bytes, RespFrame)>, fmt: DoubleFormat)
    ensures EncodeEntries(es, fmt) == EncodeAll(SubFrames(es), fmt)
  {
    if es != [] {
      var key := RespFrame.SimpleString(SimpleString.New(es[0].0));
      var pair := [key, es[0].1];
      var rest := SubFrames(es[1..]);
      SubFramesEncoding(es[1..], fmt);
      assert SubFrames(es) == pair + rest;
      EncodeAllAppend(pair, rest, fmt);
      assert pair[1..] == [es[0].1] && [es[0].1][1..] == [];
      assert EncodeAll([es[0].1], fmt) == Encode(es[0].1, fmt) + [];
      assert Encode(es[0].1, fmt) + [] == Encode(es[0].1, fmt);
      assert EncodeAll(pair, fmt) == Encode(key, fmt) + Encode(es[0].1, fmt);
    }
  }

  /** A map's frame: `*`, the number of PAIRS, CRLF, then twice that many
      sub-frames, the keys among them in strictly ascending order. */
  lemma MapFraming(m: RespMap, fmt: DoubleFormat)
    requires m.Valid()
    ensures var subs := SubFrames(m.entries);
      MapBytes(m, fmt) == Header(STAR, m.Len()) + EncodeAll(subs, fmt) &&
      |subs| == 2 * m.Len() &&
      (forall i :: 0 <= i < m.Len() ==>
        subs[2 * i] == RespFrame.SimpleString(SimpleString.New(m.Keys()[i])) &&
        subs[2 * i + 1] == m.Get(m.Keys()[i]).value)
  {
    EntriesAsSubFrames(m.entries, fmt);
    forall i | 0 <= i < m.Len() ensures m.Get(m.Keys()[i]) == Some(m.entries[i].1) {
      GetAtIndex(m, i);
    }
  }

  /** The declared count covers only the first half of what follows: the
      bytes of a non-empty map are exactly an `Array` frame of its first
      `Len()` sub-frames, followed by the encodings of the remaining ones. */
  lemma MapIsShortArrayThenLeftover(m: RespMap, fmt: DoubleFormat)
    ensures var subs := SubFrames(m.entries);
      |subs| == 2 * m.Len() &&
      MapBytes(m, fmt)
        == Encode(RespFrame.Array(RespArray.New(subs[..m.Len()])), fmt) + EncodeAll(subs[m.Len()..], fmt)
  {
    var subs := SubFrames(m.entries);
    EntriesAsSubFrames(m.entries, fmt);
    assert subs == subs[..m.Len()] + subs[m.Len()..];
    EncodeAllAppend(subs[..m.Len()], subs[m.Len()..], fmt);
  }

  // ---------------------------------------------------------------------------
  // Fixed encodings

  /** Integers carry exactly one sign byte, `+` for zero too. */
  lemma IntegerExamples()
    ensures EncodeInteger(5) == [COLON, PLUS, ZERO + 5, CR, LF]
    ensures EncodeInteger(-5) == [COLON, MINUS, ZERO + 5, CR, LF]
    ensures EncodeInteger(0) == [COLON, PLUS, ZERO, CR, LF]
  {
    assert Decimal(5) == [ZERO + 5];
    assert SignedDecimal(5) == [ZERO + 5];
    assert SignedDecimal(-5) == [MINUS, ZERO + 5];
    assert Decimal(0) == [ZERO];
  }

  /** The null sentinels differ from the empty bulk string and the empty
      array. */
  lemma NullsAreNotEmpty(fmt: DoubleFormat)
    ensures BulkStringBytes(BulkString.New([])) == [DOLLAR, ZERO, CR, LF, CR, LF]
    ensures ArrayBytes(RespArray.New([]), fmt) == [STAR, ZERO, CR, LF]
    ensures EncodeNullBulkString(RespNullBulkString) != BulkStringBytes(BulkString.New([]))
    ensures EncodeNullArray(RespNullArray) != ArrayBytes(RespArray.New([]), fmt)
  {
    assert Decimal(0) == [ZERO];
    assert EncodeAll([], fmt) == [];
  }
}
