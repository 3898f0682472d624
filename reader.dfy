/** A reference reading of the RESP2 wire grammar (tag byte, CRLF-terminated
    line, length-prefixed bulk payload, count-prefixed aggregates), used to
    state what the encoder's output means: every frame it writes is
    self-delimiting and reads back as the frame it came from, except where
    the encoder departs from the grammar. It is not this repository's
    decoder, which is not part of this model. */
module Reader {
  import opened Wire
  import opened Resp
  import opened Encoder

  datatype Parsed = Parsed(frame: RespFrame, used: nat)

  /** The index of the first CR LF pair at or after `from`. */
  function FindCrlf(s: Bytes, from: nat): (r: Option<nat>)
    ensures r.Some? ==> from <= r.value && r.value + 1 < |s|
    decreases |s| - from
  {
    if from + 1 >= |s| then None
    else if s[from] == CR && s[from + 1] == LF then Some(from)
    else FindCrlf(s, from + 1)
  }

  /** No CR immediately followed by LF: text that can stand on one line. */
  predicate LineSafe(t: Bytes) {
    forall i :: 0 <= i < |t| - 1 ==> !(t[i] == CR && t[i + 1] == LF)
  }

  /** An integer line: an optional sign, then at least one digit; the value
      must fit an `i64`. */
  function ParseInteger(line: Bytes): Option<i64> {
    var negative := |line| > 0 && line[0] == MINUS;
    var digits := if |line| > 0 && (line[0] == PLUS || line[0] == MINUS) then line[1..] else line;
    match ParseDecimal(digits)
    case None => None
    case Some(v) =>
      var n: int := if negative then -(v as int) else v;
      if -0x8000_0000_0000_0000 <= n < 0x8000_0000_0000_0000 then Some(n) else None
  }

  /** Reads one frame from the front of `s`: the frame and the number of
      bytes it takes, or nothing when `s` does not start with a whole frame. */
  function Read(s: Bytes): (r: Option<Parsed>)
    ensures r.Some? ==> 0 < r.value.used <= |s|
    decreases |s|, 1
  {
    match FindCrlf(s, 1)
    case None => None
    case Some(e) => ReadFrame(s, e)
  }

  /** The frame whose first line, after the tag, ends at `e`. */
  function ReadFrame(s: Bytes, e: nat): (r: Option<Parsed>)
    requires 1 <= e && e + 1 < |s|
    ensures r.Some? ==> 0 < r.value.used <= |s|
    decreases |s|, 0
  {
    var tag, line, next := s[0], s[1..e], e + 2;
    if tag == PLUS then
      Some(Parsed(RespFrame.SimpleString(SimpleString.New(line)), next))
    else if tag == MINUS then
      Some(Parsed(RespFrame.Error(SimpleError.New(line)), next))
    else if tag == COLON then
      match ParseInteger(line)
      case None => None
      case Some(n) => Some(Parsed(RespFrame.Integer(n), next))
    else if tag == UNDERSCORE then
      if line == [] then Some(Parsed(RespFrame.Null(RespNull), next)) else None
    else if tag == HASH then
      if line == [LOWER_T] then Some(Parsed(RespFrame.Boolean(true), next))
      else if line == [LOWER_F] then Some(Parsed(RespFrame.Boolean(false), next))
      else None
    else if tag == DOLLAR then
      if line == [MINUS, ONE] then Some(Parsed(RespFrame.NullBulkString(RespNullBulkString), next))
      else ReadBulkBody(s, next, ParseDecimal(line))
    else if tag == STAR && line == [MINUS, ONE] then
      Some(Parsed(RespFrame.NullArray(RespNullArray), next))
    else if tag == STAR || tag == TILDE then
      ReadAggregateBody(s, next, tag == STAR, ParseDecimal(line))
    else
      None
  }

  /** The payload of a bulk string of declared length `n` starting at `next`,
      and its CRLF. */
  function ReadBulkBody(s: Bytes, next: nat, n: Option<nat>): (r: Option<Parsed>)
    requires 0 < next <= |s|
    ensures r.Some? ==> 0 < r.value.used <= |s|
  {
    match n
    case None => None
    case Some(n) =>
      if next + n + 2 <= |s| && s[next + n..next + n + 2] == CRLF
      then Some(Parsed(RespFrame.BulkString(BulkString.New(s[next..next + n])), next + n + 2))
      else None
  }

  /** The `n` elements of an array (or set) starting at `next`. */
  function ReadAggregateBody(s: Bytes, next: nat, isArray: bool, n: Option<nat>): (r: Option<Parsed>)
    requires 0 < next <= |s|
    ensures r.Some? ==> 0 < r.value.used <= |s|
    decreases |s| - next + 1, 3
  {
    match n
    case None => None
    case Some(n) =>
      match ReadMany(s[next..], n)
      case None => None
      case Some(items) =>
        var frame := if isArray then RespFrame.Array(RespArray.New(items.0))
                     else RespFrame.Set(RespSet.New(items.0));
        Some(Parsed(frame, next + items.1))
  }

  /** Reads `n` frames one after another: the frames and the bytes they take. */
  function ReadMany(s: Bytes, n: nat): (r: Option<(seq<RespFrame>, nat)>)
    ensures r.Some? ==> |r.value.0| == n && r.value.1 <= |s|
    decreases |s|, 2, n
  {
    if n == 0 then Some(([], 0))
    else
      match Read(s)
      case None => None
      case Some(p) =>
        match ReadMany(s[p.used..], n - 1)
        case None => None
        case Some(more) => Some(([p.frame] + more.0, p.used + more.1))
  }

  // ---------------------------------------------------------------------------
  // What the reader gets back from the encoder

  /** The frames this grammar can carry unchanged: no `Double` (its text is
      not modelled), no `Map` (it shares `*` with `Array`, see
      `MapReadsAsShortArray`), and single-line text in simple strings and
      errors. */
  predicate Readable(f: RespFrame)
    decreases f
  {
    match f
    case SimpleString(s) => LineSafe(s.Deref())
    case Error(e) => LineSafe(e.Deref())
    case Double(_) => false
    case Map(_) => false
    case Array(a) => AllReadable(a.items)
    case Set(x) => AllReadable(x.items)
    case _ => true
  }

  predicate AllReadable(items: seq<RespFrame>)
    decreases items
  {
    items == [] || (Readable(items[0]) && AllReadable(items[1..]))
  }

  lemma {:induction false} FindCrlfFrom(s: Bytes, j: nat, e: nat)
    requires j <= e && e + 1 < |s| && s[e] == CR && s[e + 1] == LF
    requires forall i :: j <= i < e ==> !(s[i] == CR && s[i + 1] == LF)
    ensures FindCrlf(s, j) == Some(e)
    decreases e - j
  {
    if j < e {
      FindCrlfFrom(s, j + 1, e);
    }
  }

  /** The line of a frame ends at the CRLF the encoder put after it. */
  lemma FindLineEnd(tag: byte, line: Bytes, tail: Bytes)
    requires LineSafe(line)
    ensures var s := [tag] + line + CRLF + tail;
      FindCrlf(s, 1) == Some(|line| + 1) && s[0] == tag && s[1..|line| + 1] == line &&
      s[|line| + 3..] == tail
  {
    var s := [tag] + line + CRLF + tail;
    forall i | 1 <= i < |line| + 1 ensures !(s[i] == CR && s[i + 1] == LF) {
      if i < |line| {
        assert s[i] == line[i - 1] && s[i + 1] == line[i];
      } else {
        assert s[i + 1] == CR;
      }
    }
    FindCrlfFrom(s, 1, |line| + 1);
    assert s[1..|line| + 1] == line;
    assert s[|line| + 3..] == tail;
  }

  lemma DigitsLineSafe(d: Bytes)
    requires AllDigits(d)
    ensures LineSafe(d)
  {
  }

  /** A count or length header: its line ends where the encoder put CRLF,
      and it parses back to the number (and is not the null marker `-1`). */
  lemma ReadHeader(tag: byte, n: nat, tail: Bytes)
    ensures var s, d := Header(tag, n) + tail, Decimal(n);
      FindCrlf(s, 1) == Some(|d| + 1) && s[0] == tag && s[1..|d| + 1] == d &&
      s[|d| + 3..] == tail && ParseDecimal(d) == Some(n) && d != [MINUS, ONE]
  {
    DecimalIsNumeral(n);
    DigitsLineSafe(Decimal(n));
    FindLineEnd(tag, Decimal(n), tail);
    assert Header(tag, n) + tail == [tag] + Decimal(n) + CRLF + tail;
    assert IsDigit(Decimal(n)[0]);
  }

  /** A `$` line holding a length, then that many bytes and CRLF. */
  lemma ReadBulkFrame(s: Bytes, e: nat, n: nat)
    requires FindCrlf(s, 1) == Some(e) && s[0] == DOLLAR
    requires s[1..e] != [MINUS, ONE] && ParseDecimal(s[1..e]) == Some(n)
    requires e + n + 4 <= |s| && s[e + n + 2..e + n + 4] == CRLF
    ensures Read(s) == Some(Parsed(RespFrame.BulkString(BulkString.New(s[e + 2..e + n + 2])), e + n + 4))
  {
    ReadBulkLine(s, e, n);
    ReadBulkBodyOk(s, e + 2, n);
  }

  lemma ReadBulkLine(s: Bytes, e: nat, n: nat)
    requires 1 <= e && e + 1 < |s| && s[0] == DOLLAR
    requires s[1..e] != [MINUS, ONE] && ParseDecimal(s[1..e]) == Some(n)
    ensures ReadFrame(s, e) == ReadBulkBody(s, e + 2, Some(n))
  {
  }

  lemma ReadBulkBodyOk(s: Bytes, next: nat, n: nat)
    requires 0 < next && next + n + 2 <= |s| && s[next + n..next + n + 2] == CRLF
    ensures ReadBulkBody(s, next, Some(n)) == Some(Parsed(RespFrame.BulkString(BulkString.New(s[next..next + n])), next + n + 2))
  {
  }

  /** A `*` or `~` line holding a count, then that many frames. */
  lemma ReadAggregateFrame(s: Bytes, e: nat, items: seq<RespFrame>, used: nat)
    requires FindCrlf(s, 1) == Some(e) && (s[0] == STAR || s[0] == TILDE)
    requires s[1..e] != [MINUS, ONE] && ParseDecimal(s[1..e]) == Some(|items|)
    requires ReadMany(s[e + 2..], |items|) == Some((items, used))
    ensures Read(s) == Some(Parsed(
      if s[0] == STAR then RespFrame.Array(RespArray.New(items)) else RespFrame.Set(RespSet.New(items)),
      e + 2 + used))
  {
    ReadAggregateLine(s, e, |items|);
    ReadAggregateBodyOk(s, e + 2, s[0] == STAR, items, used);
  }

  lemma ReadAggregateLine(s: Bytes, e: nat, n: nat)
    requires 1 <= e && e + 1 < |s| && (s[0] == STAR || s[0] == TILDE)
    requires s[1..e] != [MINUS, ONE] && ParseDecimal(s[1..e]) == Some(n)
    ensures ReadFrame(s, e) == ReadAggregateBody(s, e + 2, s[0] == STAR, Some(n))
  {
  }

  lemma ReadAggregateBodyOk(s: Bytes, next: nat, isArray: bool, items: seq<RespFrame>, used: nat)
    requires 0 < next <= |s| && ReadMany(s[next..], |items|) == Some((items, used))
    ensures ReadAggregateBody(s, next, isArray, Some(|items|)) == Some(Parsed(
      if isArray then RespFrame.Array(RespArray.New(items)) else RespFrame.Set(RespSet.New(items)),
      next + used))
  {
  }

  /** Reading an encoded frame, whatever follows it, gives back exactly that
      frame and exactly the bytes of its encoding. */
  lemma {:induction false} ReadEncode(f: RespFrame, fmt: DoubleFormat, rest: Bytes)
    requires Readable(f)
    ensures Read(Encode(f, fmt) + rest) == Some(Parsed(f, |Encode(f, fmt)|))
    decreases f, 0
  {
    match f
    case SimpleString(t) =>
      ReadSimpleString(t, rest);
      assert Encode(f, fmt) == EncodeSimpleString(t);
    case Error(t) =>
      ReadSimpleError(t, rest);
      assert Encode(f, fmt) == EncodeSimpleError(t);
    case Integer(n) =>
      ReadInteger(n, rest);
      assert Encode(f, fmt) == EncodeInteger(n);
    case BulkString(b) =>
      ReadBulkString(b, rest);
      assert Encode(f, fmt) == BulkStringBytes(b);
    case NullBulkString(x) =>
      ReadNullBulkString(rest);
      assert x == RespNullBulkString;
      assert Encode(f, fmt) == EncodeNullBulkString(RespNullBulkString);
    case Null(x) =>
      ReadNull(rest);
      assert x == RespNull;
      assert Encode(f, fmt) == EncodeNull(RespNull);
    case NullArray(x) =>
      ReadNullArray(rest);
      assert x == RespNullArray;
      assert Encode(f, fmt) == EncodeNullArray(RespNullArray);
    case Boolean(b) =>
      ReadBoolean(b, rest);
      assert Encode(f, fmt) == EncodeBool(b);
    case Array(a) =>
      ReadAggregate(STAR, a.items, fmt, rest);
      assert Encode(f, fmt) == Header(STAR, |a.items|) + EncodeAll(a.items, fmt);
    case Set(x) =>
      ReadAggregate(TILDE, x.items, fmt, rest);
      assert Encode(f, fmt) == Header(TILDE, |x.items|) + EncodeAll(x.items, fmt);
  }

  lemma ReadSimpleString(t: SimpleString, rest: Bytes)
    requires LineSafe(t.Deref())
    ensures Read(EncodeSimpleString(t) + rest)
      == Some(Parsed(RespFrame.SimpleString(t), |EncodeSimpleString(t)|))
  {
    var s := EncodeSimpleString(t) + rest;
    FindLineEnd(PLUS, t.Deref(), rest);
    assert s == [PLUS] + t.Deref() + CRLF + rest;
    assert Read(s) == ReadFrame(s, |t.Deref()| + 1);
  }

  lemma ReadSimpleError(t: SimpleError, rest: Bytes)
    requires LineSafe(t.Deref())
    ensures Read(EncodeSimpleError(t) + rest)
      == Some(Parsed(RespFrame.Error(t), |EncodeSimpleError(t)|))
  {
    var s := EncodeSimpleError(t) + rest;
    FindLineEnd(MINUS, t.Deref(), rest);
    assert s == [MINUS] + t.Deref() + CRLF + rest;
    assert Read(s) == ReadFrame(s, |t.Deref()| + 1);
  }

  lemma ReadNullBulkString(rest: Bytes)
    ensures Read(EncodeNullBulkString(RespNullBulkString) + rest)
      == Some(Parsed(RespFrame.NullBulkString(RespNullBulkString), 5))
  {
    var s := EncodeNullBulkString(RespNullBulkString) + rest;
    FindLineEnd(DOLLAR, [MINUS, ONE], rest);
    assert s == [DOLLAR] + [MINUS, ONE] + CRLF + rest;
    assert Read(s) == ReadFrame(s, 3);
  }

  lemma ReadNullArray(rest: Bytes)
    ensures Read(EncodeNullArray(RespNullArray) + rest)
      == Some(Parsed(RespFrame.NullArray(RespNullArray), 5))
  {
    var s := EncodeNullArray(RespNullArray) + rest;
    FindLineEnd(STAR, [MINUS, ONE], rest);
    assert s == [STAR] + [MINUS, ONE] + CRLF + rest;
    assert Read(s) == ReadFrame(s, 3);
  }

  lemma ReadNull(rest: Bytes)
    ensures Read(EncodeNull(RespNull) + rest) == Some(Parsed(RespFrame.Null(RespNull), 3))
  {
    var s := EncodeNull(RespNull) + rest;
    FindLineEnd(UNDERSCORE, [], rest);
    assert s == [UNDERSCORE] + [] + CRLF + rest;
    assert Read(s) == ReadFrame(s, 1);
  }

  lemma ReadBoolean(b: bool, rest: Bytes)
    ensures Read(EncodeBool(b) + rest) == Some(Parsed(RespFrame.Boolean(b), 4))
  {
    var s := EncodeBool(b) + rest;
    var line := [if b then LOWER_T else LOWER_F];
    FindLineEnd(HASH, line, rest);
    assert s == [HASH] + line + CRLF + rest;
    assert Read(s) == ReadFrame(s, 2);
  }

  /** An integer's line, one sign byte and its digits, parses back to it. */
  lemma ParseSignedLine(n: i64)
    ensures ParseInteger([if n < 0 then MINUS else PLUS] + Decimal(if n < 0 then -(n as int) else n as int)) == Some(n)
  {
    var digits := Decimal(if n < 0 then -(n as int) else n as int);
    DecimalIsNumeral(if n < 0 then -(n as int) else n as int);
    var line := [if n < 0 then MINUS else PLUS] + digits;
    assert line[1..] == digits;
    assert ParseDecimal(digits) == Some(if n < 0 then -(n as int) else n as int);
  }

  lemma ReadIntegerLine(s: Bytes, e: nat, n: i64)
    requires 1 <= e && e + 1 < |s| && s[0] == COLON && ParseInteger(s[1..e]) == Some(n)
    ensures ReadFrame(s, e) == Some(Parsed(RespFrame.Integer(n), e + 2))
  {
  }

  /** A sign byte in front of digits keeps the line free of CR LF. */
  lemma SignedLineSafe(sign: byte, d: Bytes)
    requires sign == PLUS || sign == MINUS
    requires AllDigits(d)
    ensures LineSafe([sign] + d)
  {
    var line := [sign] + d;
    forall i | 0 <= i < |line| - 1 ensures line[i] != CR {
      if i > 0 {
        assert line[i] == d[i - 1];
      }
    }
  }

  lemma ReadInteger(n: i64, rest: Bytes)
    ensures Read(EncodeInteger(n) + rest) == Some(Parsed(RespFrame.Integer(n), |EncodeInteger(n)|))
  {
    var sign := if n < 0 then MINUS else PLUS;
    var d := Decimal(if n < 0 then -(n as int) else n as int);
    var line := [sign] + d;
    var s := EncodeInteger(n) + rest;
    DecimalIsNumeral(if n < 0 then -(n as int) else n as int);
    IntegerAsSignAndDigits(n);
    assert [COLON, sign] + d == [COLON] + line;
    SignedLineSafe(sign, d);
    FindLineEnd(COLON, line, rest);
    ParseSignedLine(n);
    ReadIntegerLine(s, |line| + 1, n);
    assert Read(s) == ReadFrame(s, |line| + 1);
  }

  lemma ReadBulkString(b: BulkString, rest: Bytes)
    ensures Read(BulkStringBytes(b) + rest) == Some(Parsed(RespFrame.BulkString(b), |BulkStringBytes(b)|))
  {
    var n := b.Len();
    var tail := b.Deref() + CRLF + rest;
    var s := Header(DOLLAR, n) + tail;
    AppendAssoc(Header(DOLLAR, n), b.Deref() + CRLF, rest);
    AppendAssoc(Header(DOLLAR, n), b.Deref(), CRLF);
    ReadHeader(DOLLAR, n, tail);
    var e := |Decimal(n)| + 1;
    assert s[e + 2..] == tail;
    assert tail[..n] == b.Deref() && tail[n..n + 2] == CRLF;
    assert s[e + 2..e + 2 + n] == tail[..n];
    assert s[e + 2 + n..e + 4 + n] == tail[n..n + 2];
    ReadBulkFrame(s, e, n);
  }

  /** An `Array` or `Set` header with its count, then the elements. */
  lemma ReadAggregate(tag: byte, items: seq<RespFrame>, fmt: DoubleFormat, rest: Bytes)
    requires tag == STAR || tag == TILDE
    requires AllReadable(items)
    ensures var s := Header(tag, |items|) + EncodeAll(items, fmt) + rest;
      Read(s) == Some(Parsed(
        if tag == STAR then RespFrame.Array(RespArray.New(items)) else RespFrame.Set(RespSet.New(items)),
        |Header(tag, |items|)| + |EncodeAll(items, fmt)|))
    decreases items, 1
  {
    ReadManyEncodeAll(items, fmt, rest);
    ReadAggregateOf(tag, items, EncodeAll(items, fmt), rest);
  }

  /** The same, for any body that reads as the elements. */
  lemma ReadAggregateOf(tag: byte, items: seq<RespFrame>, body: Bytes, rest: Bytes)
    requires tag == STAR || tag == TILDE
    requires ReadMany(body + rest, |items|) == Some((items, |body|))
    ensures Read(Header(tag, |items|) + body + rest) == Some(Parsed(
      if tag == STAR then RespFrame.Array(RespArray.New(items)) else RespFrame.Set(RespSet.New(items)),
      |Header(tag, |items|)| + |body|))
  {
    var n := |items|;
    var tail := body + rest;
    var s := Header(tag, n) + tail;
    AppendAssoc(Header(tag, n), body, rest);
    ReadHeader(tag, n, tail);
    var e := |Decimal(n)| + 1;
    assert s[e + 2..] == tail;
    ReadAggregateFrame(s, e, items, |body|);
  }

  lemma {:induction false} ReadManyEncodeAll(items: seq<RespFrame>, fmt: DoubleFormat, rest: Bytes)
    requires AllReadable(items)
    ensures ReadMany(EncodeAll(items, fmt) + rest, |items|) == Some((items, |EncodeAll(items, fmt)|))
    decreases items, 0
  {
    if items != [] {
      var head := Encode(items[0], fmt);
      var tail := EncodeAll(items[1..], fmt) + rest;
      AppendAssoc(head, EncodeAll(items[1..], fmt), rest);
      ReadEncode(items[0], fmt, tail);
      ReadManyEncodeAll(items[1..], fmt, rest);
      assert (head + tail)[|head|..] == tail;
      ReadManyCons(head + tail, items[0], items[1..], |head|, |EncodeAll(items[1..], fmt)|);
      assert [items[0]] + items[1..] == items;
    }
  }

  /** A frame that reads as `f`, followed by bytes that read as `fs`. */
  lemma ReadManyCons(s: Bytes, f: RespFrame, fs: seq<RespFrame>, used: nat, more: nat)
    requires Read(s) == Some(Parsed(f, used))
    requires ReadMany(s[used..], |fs|) == Some((fs, more))
    ensures ReadMany(s, |fs| + 1) == Some(([f] + fs, used + more))
  {
  }

  lemma {:induction false} AllReadableTake(items: seq<RespFrame>, n: nat)
    requires AllReadable(items) && n <= |items|
    ensures AllReadable(items[..n])
    decreases n
  {
    if n > 0 {
      assert items[..n][0] == items[0];
      assert items[..n][1..] == items[1..][..n - 1];
      AllReadableTake(items[1..], n - 1);
    }
  }

  /** Read by the RESP grammar, a map's bytes are an `Array` of only its
      first `Len()` sub-frames (for a map of one entry: just the key); the
      encodings of the other sub-frames are left over, to be taken for
      frames of their own. */
  lemma MapReadsAsShortArray(m: RespMap, fmt: DoubleFormat, rest: Bytes)
    requires AllReadable(SubFrames(m.entries))
    ensures var subs, n := SubFrames(m.entries), m.Len();
      |subs| == 2 * n &&
      var leftover := EncodeAll(subs[n..], fmt);
      |leftover| <= |MapBytes(m, fmt)| &&
      Read(MapBytes(m, fmt) + rest)
        == Some(Parsed(RespFrame.Array(RespArray.New(subs[..n])), |MapBytes(m, fmt)| - |leftover|))
  {
    var subs, n := SubFrames(m.entries), m.Len();
    EntriesAsSubFrames(m.entries, fmt);
    var leftover := EncodeAll(subs[n..], fmt);
    MapIsShortArrayThenLeftover(m, fmt);
    AllReadableTake(subs, n);
    var arr := RespFrame.Array(RespArray.New(subs[..n]));
    assert Readable(arr);
    ReadEncode(arr, fmt, leftover + rest);
    AppendAssoc(Encode(arr, fmt), leftover, rest);
  }

  /** For a map with at least one entry, what is read is not the map, and
      not all of its bytes are used. */
  lemma MapDoesNotReadBack(m: RespMap, fmt: DoubleFormat, rest: Bytes)
    requires AllReadable(SubFrames(m.entries)) && m.Len() > 0
    ensures var r := Read(MapBytes(m, fmt) + rest);
      r.Some? && r.value.frame != RespFrame.Map(m) && r.value.used < |MapBytes(m, fmt)|
  {
    var subs, n := SubFrames(m.entries), m.Len();
    EntriesAsSubFrames(m.entries, fmt);
    MapReadsAsShortArray(m, fmt, rest);
    FramingShapeAll(subs[n..], fmt);
  }

  // ---------------------------------------------------------------------------
  // Consequences

  /** Distinct readable frames have distinct encodings. */
  lemma EncodeInjective(f: RespFrame, g: RespFrame, fmt: DoubleFormat)
    requires Readable(f) && Readable(g) && Encode(f, fmt) == Encode(g, fmt)
    ensures f == g
  {
    ReadEncode(f, fmt, []);
    ReadEncode(g, fmt, []);
  }

  /** A simple string's text is not checked for CR LF, so one that contains
      CR LF is read back cut short at it: `a` CR LF `b` becomes `a`. */
  lemma SimpleStringWithCrlfIsCut()
    ensures Read(EncodeSimpleString(SimpleString.New([97, CR, LF, 98])))
      == Some(Parsed(RespFrame.SimpleString(SimpleString.New([97])), 4))
  {
    var s := EncodeSimpleString(SimpleString.New([97, CR, LF, 98]));
    assert s == [PLUS, 97, CR, LF, 98, CR, LF];
    assert FindCrlf(s, 1) == Some(2);
    assert s[1..2] == [97];
  }
}
