/**
AML data objects: the bytes the encoder emits, and a parser of the grammar in sections 20.2.2 to 20.2.4 of the
ACPI specification.  The parser is strict: a buffer and a package must hold exactly as many bytes or elements
as they announce.
*/
module AmlData {
  import opened Basics
  import opened ByteStrings
  import opened PkgLengths

  /** A name; its segments have four characters each. */
  datatype Path = Path(root: bool, parent: bool, parts: seq<Bytes>)

  datatype Data =
    | Integer(value: nat)
    | Str(chars: Bytes)
    | Buffer(data: Bytes)
    | Package(elements: seq<Data>)
    | Name(path: Path)

  const ZERO_OP: Byte := 0x00
  const ONE_OP: Byte := 0x01
  const BYTE_PREFIX: Byte := 0x0a
  const WORD_PREFIX: Byte := 0x0b
  const DWORD_PREFIX: Byte := 0x0c
  const STRING_OP: Byte := 0x0d
  const QWORD_PREFIX: Byte := 0x0e
  const SCOPE_OP: Byte := 0x10
  const BUFFER_OP: Byte := 0x11
  const PACKAGE_OP: Byte := 0x12
  const DUAL_NAME_PREFIX: Byte := 0x2e
  const MULTI_NAME_PREFIX: Byte := 0x2f
  const ROOT_CHAR: Byte := 0x5c
  const PARENT_CHAR: Byte := 0x5e

  // ----- The encoder -----

  function EncodeInteger(v: nat): Bytes {
    if v == 0 then [ZERO_OP]
    else if v == 1 then [ONE_OP]
    else if v <= 0xff then [BYTE_PREFIX] + Le(v, 1)
    else if v <= 0xffff then [WORD_PREFIX] + Le(v, 2)
    else if v <= 0xffff_ffff then [DWORD_PREFIX] + Le(v, 4)
    else [QWORD_PREFIX] + Le(v, 8)
  }

  function PathPrefix(p: Path): Bytes {
    if p.root then [ROOT_CHAR] else if p.parent then [PARENT_CHAR] else []
  }

  function PartsPrefix(n: nat): Bytes {
    if n == 1 then [] else if n == 2 then [DUAL_NAME_PREFIX] else [MULTI_NAME_PREFIX, n % 256]
  }

  function EncodePath(p: Path): Bytes {
    PathPrefix(p) + PartsPrefix(|p.parts|) + Concat(p.parts)
  }

  /** An opcode, a package length that includes itself, and what it covers. */
  function Frame(op: Byte, body: Bytes): Bytes {
    [op] + PkgLength(|body|, true) + body
  }

  function EncodeString(chars: Bytes): Bytes {
    [STRING_OP] + chars + [0]
  }

  function Encode(d: Data): Bytes {
    match d
    case Integer(v) => EncodeInteger(v)
    case Str(chars) => EncodeString(chars)
    case Buffer(data) => Frame(BUFFER_OP, EncodeInteger(|data|) + data)
    case Package(elements) => Frame(PACKAGE_OP, [|elements| % 256] + EncodeAll(elements))
    case Name(path) => EncodePath(path)
  }

  function EncodeAll(ds: seq<Data>): Bytes {
    if ds == [] then [] else Encode(ds[0]) + EncodeAll(ds[1..])
  }

  // ----- The parser -----

  /** A width in bytes follows each integer prefix. */
  function Width(op: Byte): Option<nat> {
    if op == BYTE_PREFIX then Some(1)
    else if op == WORD_PREFIX then Some(2)
    else if op == DWORD_PREFIX then Some(4)
    else if op == QWORD_PREFIX then Some(8)
    else None
  }

  function ParseInteger(b: Bytes): (r: Option<(nat, Bytes)>)
    ensures r.Some? ==> |r.value.1| < |b|
  {
    if b == [] then None
    else if b[0] == ZERO_OP then Some((0, b[1..]))
    else if b[0] == ONE_OP then Some((1, b[1..]))
    else
      match Width(b[0])
      case None => None
      case Some(w) => if |b| <= w then None else Some((FromLe(b[1..w + 1]), b[w + 1..]))
  }

  /** What a string may hold, besides the NUL character that ends it. */
  predicate AsciiChar(c: Byte) {
    0x01 <= c <= 0x7f
  }

  predicate Ascii(chars: Bytes) {
    forall i :: 0 <= i < |chars| ==> AsciiChar(chars[i])
  }

  /** Everything up to the first NUL character. */
  function ParseChars(b: Bytes): (r: Option<(Bytes, Bytes)>)
    ensures r.Some? ==> |r.value.1| < |b|
  {
    if b == [] then None
    else if b[0] == 0 then Some(([], b[1..]))
    else if !AsciiChar(b[0]) then None
    else
      match ParseChars(b[1..])
      case None => None
      case Some((chars, rest)) => Some(([b[0]] + chars, rest))
  }

  predicate LeadNameChar(c: Byte) {
    'A' as int <= c <= 'Z' as int || c == '_' as int
  }

  predicate NameChar(c: Byte) {
    LeadNameChar(c) || '0' as int <= c <= '9' as int
  }

  predicate NameSegment(s: Bytes) {
    |s| == 4 && LeadNameChar(s[0]) && NameChar(s[1]) && NameChar(s[2]) && NameChar(s[3])
  }

  function ParseSegments(n: nat, b: Bytes): (r: Option<(seq<Bytes>, Bytes)>)
    ensures r.Some? ==> |r.value.0| == n && |b| == |r.value.1| + 4 * n
  {
    if n == 0 then Some(([], b))
    else if |b| < 4 || !NameSegment(b[..4]) then None
    else
      match ParseSegments(n - 1, b[4..])
      case None => None
      case Some((parts, rest)) => Some(([b[..4]] + parts, rest))
  }

  function ParseParts(b: Bytes): (r: Option<(seq<Bytes>, Bytes)>)
    ensures r.Some? ==> |r.value.1| < |b|
  {
    if b == [] then None
    else if b[0] == DUAL_NAME_PREFIX then ParseSegments(2, b[1..])
    else if b[0] == MULTI_NAME_PREFIX then (if |b| < 2 || b[1] == 0 then None else ParseSegments(b[1], b[2..]))
    else ParseSegments(1, b)
  }

  function ParsePath(b: Bytes): (r: Option<(Path, Bytes)>)
    ensures r.Some? ==> |r.value.1| < |b|
  {
    var prefixed := b != [] && (b[0] == ROOT_CHAR || b[0] == PARENT_CHAR);
    match ParseParts(if prefixed then b[1..] else b)
    case None => None
    case Some((parts, rest)) =>
      Some((Path(prefixed && b[0] == ROOT_CHAR, prefixed && b[0] == PARENT_CHAR, parts), rest))
  }

  /** Reads what follows an opcode: the bytes its package length covers, and the rest. */
  function Unframe(b: Bytes): (r: Option<(Bytes, Bytes)>)
    ensures r.Some? ==> |r.value.0| + |r.value.1| < |b|
  {
    match DecodeLength(b)
    case None => None
    case Some((length, size)) =>
      if length < size || length > |b| then None else Some((b[size..length], b[length..]))
  }

  function ParseBuffer(body: Bytes): Option<Bytes> {
    match ParseInteger(body)
    case None => None
    case Some((size, data)) => if size == |data| then Some(data) else None
  }

  function Parse(b: Bytes): (r: Option<(Data, Bytes)>)
    ensures r.Some? ==> |r.value.1| < |b|
    decreases |b|, 0
  {
    if b == [] then None
    else if b[0] == STRING_OP then
      match ParseChars(b[1..])
      case None => None
      case Some((chars, rest)) => Some((Str(chars), rest))
    else if b[0] == BUFFER_OP then
      match Unframe(b[1..])
      case None => None
      case Some((body, rest)) =>
        match ParseBuffer(body)
        case None => None
        case Some(data) => Some((Buffer(data), rest))
    else if b[0] == PACKAGE_OP then
      match Unframe(b[1..])
      case None => None
      case Some((body, rest)) =>
        if body == [] then None
        else
          match ParseAll(body[1..])
          case None => None
          case Some(elements) => if |elements| == body[0] then Some((Package(elements), rest)) else None
    else
      match ParseInteger(b)
      case Some((v, rest)) => Some((Integer(v), rest))
      case None =>
        match ParsePath(b)
        case None => None
        case Some((path, rest)) => Some((Name(path), rest))
  }

  function ParseAll(b: Bytes): Option<seq<Data>>
    decreases |b|, 1
  {
    if b == [] then Some([])
    else
      match Parse(b)
      case None => None
      case Some((d, rest)) =>
        match ParseAll(rest)
        case None => None
        case Some(ds) => Some([d] + ds)
  }

  // ----- Which objects can be encoded -----

  predicate WellFormedPath(p: Path) {
    && !(p.root && p.parent)
    && 1 <= |p.parts| <= 255
    && forall i :: 0 <= i < |p.parts| ==> NameSegment(p.parts[i])
  }

  predicate Frameable(len: nat) {
    len + LengthSize(len) < MAX_LENGTH
  }

  predicate WellFormed(d: Data) {
    match d
    case Integer(v) => v < TWO64
    case Str(chars) => Ascii(chars)
    case Buffer(data) => Frameable(|EncodeInteger(|data|)| + |data|)
    case Package(elements) => |elements| <= 255 && WellFormedAll(elements) && Frameable(1 + |EncodeAll(elements)|)
    case Name(path) => WellFormedPath(path)
  }

  predicate WellFormedAll(ds: seq<Data>) {
    ds == [] || (WellFormed(ds[0]) && WellFormedAll(ds[1..]))
  }

  // ----- Encoding, then parsing -----

  lemma FrameParses(op: Byte, body: Bytes, rest: Bytes)
    requires Frameable(|body|)
    ensures Frame(op, body) + rest != [] && (Frame(op, body) + rest)[0] == op
    ensures Unframe((Frame(op, body) + rest)[1..]) == Some((body, rest))
  {
    var size := LengthSize(|body|);
    var b := (Frame(op, body) + rest)[1..];
    assert b == PkgLength(|body|, true) + (body + rest);
    LengthExact(|body|, true, body + rest);
    assert b[size..size + |body|] == body && b[size + |body|..] == rest;
  }

  lemma IntegerParses(v: nat, rest: Bytes)
    requires v < TWO64
    ensures ParseInteger(EncodeInteger(v) + rest) == Some((v, rest))
  {
    Powers();
    var b := EncodeInteger(v) + rest;
    var w := if v <= 0xff then 1 else if v <= 0xffff then 2 else if v <= 0xffff_ffff then 4 else 8;
    if v > 1 {
      assert EncodeInteger(v) == [b[0]] + Le(v, w) && Width(b[0]) == Some(w);
      assert b[1..w + 1] == Le(v, w) && b[w + 1..] == rest;
      LeRoundTrip(v, w);
      Remainder(v, Pow256(w), 0, v);
    } else {
      assert b[1..] == rest;
    }
  }

  lemma {:induction false} CharsParse(chars: Bytes, rest: Bytes)
    requires Ascii(chars)
    ensures ParseChars(chars + [0] + rest) == Some((chars, rest))
  {
    var b := chars + [0] + rest;
    if chars == [] {
      assert b[1..] == rest;
    } else {
      CharsParse(chars[1..], rest);
      assert b[1..] == chars[1..] + [0] + rest;
      assert [chars[0]] + chars[1..] == chars;
    }
  }

  lemma {:induction false} SegmentsParse(parts: seq<Bytes>, rest: Bytes)
    requires forall i :: 0 <= i < |parts| ==> NameSegment(parts[i])
    ensures ParseSegments(|parts|, Concat(parts) + rest) == Some((parts, rest))
  {
    if parts == [] {
      assert Concat(parts) + rest == rest;
    } else {
      var b := Concat(parts) + rest;
      assert b[..4] == parts[0] && b[4..] == Concat(parts[1..]) + rest;
      SegmentsParse(parts[1..], rest);
      assert [parts[0]] + parts[1..] == parts;
    }
  }

  lemma PartsParse(parts: seq<Bytes>, rest: Bytes)
    requires 1 <= |parts| <= 255 && forall i :: 0 <= i < |parts| ==> NameSegment(parts[i])
    ensures var b := PartsPrefix(|parts|) + Concat(parts) + rest;
            && ParseParts(b) == Some((parts, rest))
            && b != [] && StartsName(b[0]) && b[0] != ROOT_CHAR && b[0] != PARENT_CHAR
  {
    hide ParseParts, ParseSegments, PartsPrefix, Concat, NameSegment;
    SegmentsParse(parts, rest);
    FirstChar(parts, rest);
    PrefixThen(|parts|, Concat(parts) + rest);
    assert PartsPrefix(|parts|) + Concat(parts) + rest == PartsPrefix(|parts|) + (Concat(parts) + rest);
  }

  lemma PrefixThen(n: nat, tail: Bytes)
    requires 1 <= n <= 255 && tail != [] && LeadNameChar(tail[0])
    ensures var b := PartsPrefix(n) + tail;
            && ParseParts(b) == ParseSegments(n, tail)
            && b != [] && StartsName(b[0]) && b[0] != ROOT_CHAR && b[0] != PARENT_CHAR
  {
    hide ParseSegments, LeadNameChar, ParseParts;
    var b := PartsPrefix(n) + tail;
    NamePrefixes(tail[0]);
    ParseByPrefix(b);
    if n == 1 {
      assert b == tail;
    } else if n == 2 {
      assert b == [DUAL_NAME_PREFIX] + tail && b[1..] == tail;
    } else {
      assert n % 256 == n;
      assert b == [MULTI_NAME_PREFIX, n] + tail && b[2..] == tail && b[1] == n;
    }
  }

  lemma ParseByPrefix(b: Bytes)
    requires b != []
    ensures b[0] == DUAL_NAME_PREFIX ==> ParseParts(b) == ParseSegments(2, b[1..])
    ensures b[0] == MULTI_NAME_PREFIX && |b| >= 2 && b[1] != 0 ==> ParseParts(b) == ParseSegments(b[1], b[2..])
    ensures b[0] != DUAL_NAME_PREFIX && b[0] != MULTI_NAME_PREFIX ==> ParseParts(b) == ParseSegments(1, b)
  {
    hide ParseSegments;
  }

  lemma NamePrefixes(c: Byte)
    requires LeadNameChar(c)
    ensures c !in {DUAL_NAME_PREFIX, MULTI_NAME_PREFIX, ROOT_CHAR, PARENT_CHAR}
  {
  }

  lemma FirstChar(parts: seq<Bytes>, rest: Bytes)
    requires 1 <= |parts| && NameSegment(parts[0])
    ensures Concat(parts) + rest != [] && LeadNameChar((Concat(parts) + rest)[0])
  {
  }

  predicate StartsName(c: Byte) {
    LeadNameChar(c) || c in {ROOT_CHAR, PARENT_CHAR, DUAL_NAME_PREFIX, MULTI_NAME_PREFIX}
  }

  lemma PathParses(p: Path, rest: Bytes)
    requires WellFormedPath(p)
    ensures var b := EncodePath(p) + rest;
            && ParsePath(b) == Some((p, rest))
            && b != [] && StartsName(b[0]) && ParseInteger(b).None?
  {
    hide ParseParts, Concat, PartsPrefix;
    var b := EncodePath(p) + rest;
    var inner := PartsPrefix(|p.parts|) + Concat(p.parts) + rest;
    PartsParse(p.parts, rest);
    assert b == PathPrefix(p) + inner;
    if p.root || p.parent {
      assert b[1..] == inner;
    } else {
      assert b == inner;
    }
  }

  lemma IntegerLead(v: nat, rest: Bytes)
    ensures var b := EncodeInteger(v) + rest; b != [] && b[0] !in {STRING_OP, BUFFER_OP, PACKAGE_OP}
  {
  }

  lemma {:induction false} EncodeParses(d: Data, rest: Bytes)
    requires WellFormed(d)
    ensures Parse(Encode(d) + rest) == Some((d, rest))
    decreases d
  {
    hide ParseInteger, ParseChars, ParsePath, Unframe, ParseAll, EncodeInteger, EncodePath, Frame;
    var b := Encode(d) + rest;
    match d
    case Integer(v) =>
      IntegerLead(v, rest);
      IntegerParses(v, rest);
    case Str(chars) =>
      CharsParse(chars, rest);
      assert b[1..] == chars + [0] + rest;
    case Buffer(data) =>
      BufferParses(data, rest);
    case Package(elements) =>
      var body := [|elements| % 256] + EncodeAll(elements);
      FrameParses(PACKAGE_OP, body, rest);
      EncodeAllParses(elements);
      assert body[1..] == EncodeAll(elements);
    case Name(path) =>
      PathParses(path, rest);
  }

  lemma BufferParses(data: Bytes, rest: Bytes)
    requires WellFormed(Buffer(data))
    ensures Parse(Encode(Buffer(data)) + rest) == Some((Buffer(data), rest))
  {
    hide ParseInteger, Unframe, ParseAll, EncodeInteger, Frame;
    var body := EncodeInteger(|data|) + data;
    FrameParses(BUFFER_OP, body, rest);
    assert |data| < TWO64;
    IntegerParses(|data|, data);
    assert ParseBuffer(body) == Some(data);
    assert Encode(Buffer(data)) == Frame(BUFFER_OP, body);
  }

  lemma {:induction false} EncodeAllParses(ds: seq<Data>)
    requires WellFormedAll(ds)
    ensures ParseAll(EncodeAll(ds)) == Some(ds)
    decreases ds
  {
    if ds != [] {
      EncodeParses(ds[0], EncodeAll(ds[1..]));
      EncodeAllParses(ds[1..]);
      assert [ds[0]] + ds[1..] == ds;
    }
  }

  // ----- What the parser accepts -----

  lemma FrameShortest(op: Byte, body: Bytes, b: Bytes)
    requires Unframe(b).Some? && |body| <= |Unframe(b).value.0|
    ensures Frameable(|body|) && |Frame(op, body)| <= 1 + |b| - |Unframe(b).value.1|
  {
    LengthShortest(|body|, b);
  }

  lemma IntegerShortest(b: Bytes)
    requires ParseInteger(b).Some?
    ensures ParseInteger(b).value.0 < TWO64
    ensures |EncodeInteger(ParseInteger(b).value.0)| <= |b| - |ParseInteger(b).value.1|
  {
    Powers();
    if b[0] > 1 { FromLeBound(b[1..Width(b[0]).value + 1]); }
  }

  lemma {:induction false} CharsSound(b: Bytes)
    requires ParseChars(b).Some?
    ensures var (chars, rest) := ParseChars(b).value; Ascii(chars) && b == chars + [0] + rest
  {
    if b[0] == 0 {
      assert b == [] + [0] + b[1..];
    } else {
      CharsSound(b[1..]);
      assert b == [b[0]] + b[1..];
    }
  }

  lemma {:induction false} SegmentsSound(n: nat, b: Bytes)
    requires ParseSegments(n, b).Some?
    ensures var (parts, rest) := ParseSegments(n, b).value;
            && (forall i :: 0 <= i < |parts| ==> NameSegment(parts[i])) && |Concat(parts)| == 4 * n
  {
    if n > 0 {
      SegmentsSound(n - 1, b[4..]);
      var (parts, _) := ParseSegments(n, b).value;
      assert parts == [b[..4]] + parts[1..];
    }
  }

  lemma PathShortest(b: Bytes)
    requires ParsePath(b).Some?
    ensures var (p, rest) := ParsePath(b).value; WellFormedPath(p) && |EncodePath(p)| <= |b| - |rest|
  {
    hide ParseSegments, Concat;
    var prefixed := b[0] == ROOT_CHAR || b[0] == PARENT_CHAR;
    var inner := if prefixed then b[1..] else b;
    if inner[0] == DUAL_NAME_PREFIX {
      SegmentsSound(2, inner[1..]);
    } else if inner[0] == MULTI_NAME_PREFIX {
      SegmentsSound(inner[1], inner[2..]);
    } else {
      SegmentsSound(1, inner);
    }
  }

  /** Whatever the parser accepts is encodable, and the encoder never needs more bytes for it. */
  lemma {:induction false} ParseShortest(b: Bytes)
    requires Parse(b).Some?
    ensures var (d, rest) := Parse(b).value; WellFormed(d) && |Encode(d)| <= |b| - |rest|
    decreases |b|, 0
  {
    hide ParseInteger, ParseChars, ParsePath, Unframe, ParseAll, EncodeInteger, EncodePath, Frame, Frameable, EncodeAll;
    if b[0] == STRING_OP {
      CharsSound(b[1..]);
    } else if b[0] == BUFFER_OP {
      var (body, _) := Unframe(b[1..]).value;
      var data := ParseBuffer(body).value;
      IntegerShortest(body);
      FrameShortest(BUFFER_OP, EncodeInteger(|data|) + data, b[1..]);
    } else if b[0] == PACKAGE_OP {
      var (body, _) := Unframe(b[1..]).value;
      var elements := ParseAll(body[1..]).value;
      ParseAllShortest(body[1..]);
      FrameShortest(PACKAGE_OP, [|elements| % 256] + EncodeAll(elements), b[1..]);
    } else if ParseInteger(b).Some? {
      IntegerShortest(b);
    } else {
      PathShortest(b);
    }
  }

  lemma {:induction false} ParseAllShortest(b: Bytes)
    requires ParseAll(b).Some?
    ensures WellFormedAll(ParseAll(b).value) && |EncodeAll(ParseAll(b).value)| <= |b|
    decreases |b|, 1
  {
    hide Parse, Encode, WellFormed;
    if b != [] {
      ParseShortest(b);
      var (d, rest) := Parse(b).value;
      ParseAllShortest(rest);
      assert ([d] + ParseAll(rest).value)[1..] == ParseAll(rest).value;
    }
  }

  // ----- Some objects byte by byte -----

  /** Names are _SB_ and PCI0, not 0PCI, sb__ or the three letters SB_; strings are printable, and more. */
  lemma Spelling()
    ensures NameSegment([0x5f, 0x53, 0x42, 0x5f]) && NameSegment([0x50, 0x43, 0x49, 0x30])
    ensures !NameSegment([0x30, 0x50, 0x43, 0x49]) && !NameSegment([0x73, 0x62, 0x5f, 0x5f])
    ensures !NameSegment([0x53, 0x42, 0x5f])
    ensures Ascii([0x01, 0x20, 0x7e, 0x7f]) && !Ascii([0]) && !Ascii([0x80])
  {
    assert !AsciiChar([0][0]) && !AsciiChar([0x80][0]);
  }

  lemma IntegerBytes()
    ensures EncodeInteger(0) == [0x00] && EncodeInteger(1) == [0x01] && EncodeInteger(0xfe) == [0x0a, 0xfe]
    ensures EncodeInteger(0x1234) == [0x0b, 0x34, 0x12] && EncodeInteger(0x1234_5678) == [0x0c, 0x78, 0x56, 0x34, 0x12]
    ensures EncodeInteger(0x1_0203_0405) == [0x0e, 5, 4, 3, 2, 1, 0, 0, 0]
  {
    hide Le;
    LowFirst(0x34, 0x12, 2);
    LowFirst(0x12, 0, 1);
    LowFirst(0xfe, 0, 1);
    LowFour(0x78, 0x56, 0x34, 0x12, 0, 4);
    LowFour(5, 4, 3, 2, 1, 8);
    LowFour(1, 0, 0, 0, 0, 4);
  }

  lemma LowFour(a: Byte, b: Byte, c: Byte, d: Byte, more: nat, n: nat)
    requires n >= 4
    ensures Le(a + 256 * (b + 256 * (c + 256 * (d + 256 * more))), n) == [a, b, c, d] + Le(more, n - 4)
  {
    hide Le;
    LowFirst(d, more, n - 3);
    LowFirst(c, d + 256 * more, n - 2);
    LowFirst(b, c + 256 * (d + 256 * more), n - 1);
    LowFirst(a, b + 256 * (c + 256 * (d + 256 * more)), n);
  }

  lemma LowFirst(a: Byte, rest: nat, n: nat)
    requires n > 0
    ensures Le(a + 256 * rest, n) == [a] + Le(rest, n - 1)
  {
    Remainder(a + 256 * rest, 256, rest, a);
  }

  /** The opcodes of the ACPI specification, sections 20.2.2 to 20.2.5. */
  lemma ObjectBytes()
    ensures Encode(Str([0x41])) == [0x0d, 0x41, 0x00]
    ensures Encode(Buffer([7])) == [0x11, 0x03, 0x01, 7]
    ensures Encode(Package([])) == [0x12, 0x02, 0x00]
    ensures Encode(Package([Integer(0), Str([])])) == [0x12, 0x05, 0x02, 0x00, 0x0d, 0x00]
  {
  }

  lemma NameBytes(a: Bytes, b: Bytes, c: Bytes)
    ensures EncodePath(Path(true, false, [a])) == [0x5c] + a
    ensures EncodePath(Path(false, true, [a])) == [0x5e] + a
    ensures EncodePath(Path(false, false, [a, b])) == [0x2e] + a + b
    ensures EncodePath(Path(true, false, [a, b, c])) == [0x5c, 0x2f, 3] + a + b + c
  {
    hide Concat;
    ConcatStep([]);
    ConcatStep([c]);
    ConcatStep([b, c]);
    ConcatStep([a, b, c]);
    ConcatStep([b]);
    ConcatStep([a, b]);
    ConcatStep([a]);
    assert [a][1..] == [] && [a, b][1..] == [b] && [b][1..] == [] && [c][1..] == [];
    assert [a, b, c][1..] == [b, c] && [b, c][1..] == [c];
  }

  // ----- The main results -----

  /** An object is parsed back from its bytes, whatever follows them, exactly when it is well formed. */
  lemma RoundTrip(d: Data, rest: Bytes)
    ensures Parse(Encode(d) + rest) == Some((d, rest)) <==> WellFormed(d)
  {
    hide Parse, Encode, WellFormed;
    if WellFormed(d) {
      EncodeParses(d, rest);
    } else if Parse(Encode(d) + rest).Some? {
      ParseShortest(Encode(d) + rest);
    }
  }

  /** Text outside ASCII is emitted as it is, and is no string to a parser. */
  lemma AccentedString(rest: Bytes)
    ensures Parse(Encode(Str([0xc3, 0xa9])) + rest) == None
  {
    var b := Encode(Str([0xc3, 0xa9])) + rest;
    assert b[..3] == [STRING_OP, 0xc3, 0xa9] && b[1] == 0xc3;
  }

  /** From 256 elements on the count byte wraps around, and no parser accepts the package. */
  lemma TooManyElements(elements: seq<Data>, rest: Bytes)
    requires |elements| > 255 && WellFormedAll(elements) && Frameable(1 + |EncodeAll(elements)|)
    ensures Parse(Encode(Package(elements)) + rest) == None
  {
    hide Unframe, ParseAll, EncodeAll, Frame;
    var body := [|elements| % 256] + EncodeAll(elements);
    FrameParses(PACKAGE_OP, body, rest);
    EncodeAllParses(elements);
    assert body[1..] == EncodeAll(elements);
    assert Encode(Package(elements)) == Frame(PACKAGE_OP, body);
  }

  function Zeros(n: nat): (r: seq<Data>)
    ensures |r| == n
  {
    seq(n, _ => Integer(0))
  }

  lemma {:induction false} ZerosEncode(n: nat)
    ensures WellFormedAll(Zeros(n)) && |EncodeAll(Zeros(n))| == n
  {
    if n > 0 {
      ZerosEncode(n - 1);
      assert Zeros(n)[1..] == Zeros(n - 1);
    }
  }

  /** A package of 256 zeros. */
  lemma LargePackage(rest: Bytes)
    ensures Parse(Encode(Package(Zeros(256))) + rest) == None
  {
    hide WellFormedAll, EncodeAll, Parse, Encode, Zeros;
    ZerosEncode(256);
    TooManyElements(Zeros(256), rest);
  }

  /** No accepted encoding of an object is shorter than the emitted one. */
  lemma Shortest(d: Data, b: Bytes)
    requires Parse(b) == Some((d, []))
    ensures |Encode(d)| <= |b|
  {
    ParseShortest(b);
  }

  /** Emitted objects are self-delimiting: two different ones never start the same byte string. */
  lemma PrefixFree(d: Data, e: Data, x: Bytes, y: Bytes)
    requires WellFormed(d) && WellFormed(e) && Encode(d) + x == Encode(e) + y
    ensures d == e && x == y
  {
    EncodeParses(d, x);
    EncodeParses(e, y);
  }
}
