/** The encoder proper: objects push bytes into sinks, and two shortcuts build the same bytes another way. */
module AmlEncoders {
  import opened Basics
  import opened ByteStrings
  import opened PkgLengths
  import opened AmlData

  class Sink {
    var bytes: Bytes

    constructor ()
      ensures bytes == []
    {
      bytes := [];
    }

    method PushByte(b: Byte)
      modifies this
      ensures bytes == old(bytes) + [b]
    {
      bytes := bytes + [b];
    }

    method PushVec(v: Bytes)
      modifies this
      ensures bytes == old(bytes) + v
    {
      bytes := bytes + v;
    }
  }

  /** The values the encoder's types can hold; a path always has a segment, encoding one without is a panic. */
  predicate Encodable(d: Data) {
    match d
    case Integer(v) => v < TWO64
    case Str(_) => true
    case Buffer(data) => |data| < TWO64
    case Package(elements) => AllEncodable(elements)
    case Name(path) => path.parts != []
  }

  predicate AllEncodable(ds: seq<Data>) {
    ds == [] || (Encodable(ds[0]) && AllEncodable(ds[1..]))
  }

  lemma {:induction false} EncodableAt(ds: seq<Data>, i: nat)
    requires AllEncodable(ds) && i < |ds|
    ensures Encodable(ds[i])
  {
    if i > 0 { EncodableAt(ds[1..], i - 1); }
  }

  lemma {:induction false} EncodeAllAppend(ds: seq<Data>, d: Data)
    ensures EncodeAll(ds + [d]) == EncodeAll(ds) + Encode(d)
  {
    hide Encode;
    if ds == [] {
      assert ds + [d] == [d] && [d][1..] == [];
    } else {
      EncodeAllAppend(ds[1..], d);
      assert (ds + [d])[1..] == ds[1..] + [d];
    }
  }

  lemma Assoc(a: Bytes, b: Bytes, c: Bytes)
    ensures a + b + c == a + (b + c)
  {
  }

  method PutPrefixed(op: Byte, v: nat, width: nat, sink: Sink)
    modifies sink
    ensures sink.bytes == old(sink.bytes) + ([op] + Le(v, width))
  {
    hide Le;
    sink.PushByte(op);
    sink.PushVec(Le(v, width));
  }

  method PutByte(v: Byte, sink: Sink)
    modifies sink
    ensures sink.bytes == old(sink.bytes) + EncodeInteger(v)
  {
    hide Le;
    if v == 0 {
      sink.PushByte(ZERO_OP);
    } else if v == 1 {
      sink.PushByte(ONE_OP);
    } else {
      PutPrefixed(BYTE_PREFIX, v, 1, sink);
    }
  }

  method PutWord(v: nat, sink: Sink)
    requires v < 0x1_0000
    modifies sink
    ensures sink.bytes == old(sink.bytes) + EncodeInteger(v)
  {
    hide Le;
    if v <= 0xff {
      PutByte(v, sink);
    } else {
      PutPrefixed(WORD_PREFIX, v, 2, sink);
    }
  }

  method PutDWord(v: nat, sink: Sink)
    requires v < TWO32
    modifies sink
    ensures sink.bytes == old(sink.bytes) + EncodeInteger(v)
  {
    hide Le;
    if v <= 0xffff {
      PutWord(v, sink);
    } else {
      PutPrefixed(DWORD_PREFIX, v, 4, sink);
    }
  }

  method PutQWord(v: nat, sink: Sink)
    requires v < TWO64
    modifies sink
    ensures sink.bytes == old(sink.bytes) + EncodeInteger(v)
  {
    hide Le;
    if v <= 0xffff_ffff {
      PutDWord(v, sink);
    } else {
      PutPrefixed(QWORD_PREFIX, v, 8, sink);
    }
  }

  method PutPathPrefix(p: Path, sink: Sink)
    requires p.parts != []
    modifies sink
    ensures sink.bytes == old(sink.bytes) + (PathPrefix(p) + PartsPrefix(|p.parts|))
  {
    if p.root {
      sink.PushByte(ROOT_CHAR);
    } else if p.parent {
      sink.PushByte(PARENT_CHAR);
    }
    assert sink.bytes == old(sink.bytes) + PathPrefix(p);
    label prefixed:
    if |p.parts| == 2 {
      sink.PushByte(DUAL_NAME_PREFIX);
    } else if |p.parts| > 2 {
      sink.PushByte(MULTI_NAME_PREFIX);
      sink.PushByte(|p.parts| % 256);
    }
    assert sink.bytes == old@prefixed(sink.bytes) + PartsPrefix(|p.parts|);
    Assoc(old(sink.bytes), PathPrefix(p), PartsPrefix(|p.parts|));
  }

  method PutPath(p: Path, sink: Sink)
    requires p.parts != []
    modifies sink
    ensures sink.bytes == old(sink.bytes) + EncodePath(p)
  {
    hide PathPrefix, PartsPrefix;
    ghost var prefix := PathPrefix(p) + PartsPrefix(|p.parts|);
    PutPathPrefix(p, sink);
    for i := 0 to |p.parts|
      invariant sink.bytes == old(sink.bytes) + prefix + Concat(p.parts[..i])
    {
      ConcatAppend(p.parts[..i], p.parts[i]);
      assert p.parts[..i + 1] == p.parts[..i] + [p.parts[i]];
      Assoc(old(sink.bytes) + prefix, Concat(p.parts[..i]), p.parts[i]);
      sink.PushVec(p.parts[i]);
    }
    assert p.parts[..|p.parts|] == p.parts;
    Assoc(old(sink.bytes), prefix, Concat(p.parts));
  }

  method PutFrame(op: Byte, body: Bytes, sink: Sink)
    modifies sink
    ensures sink.bytes == old(sink.bytes) + Frame(op, body)
  {
    hide PkgLength;
    var pkgLength := CreatePkgLength(|body|, true);
    sink.PushByte(op);
    sink.PushVec(pkgLength);
    sink.PushVec(body);
  }

  method PutString(chars: Bytes, sink: Sink)
    modifies sink
    ensures sink.bytes == old(sink.bytes) + EncodeString(chars)
  {
    sink.PushByte(STRING_OP);
    sink.PushVec(chars);
    sink.PushByte(0);
  }

  /** Pushes an object's bytes. */
  method Put(d: Data, sink: Sink)
    requires Encodable(d)
    modifies sink
    ensures sink.bytes == old(sink.bytes) + Encode(d)
    decreases d
  {
    hide EncodeInteger, EncodePath, Frame;
    match d
    case Integer(v) => PutQWord(v, sink);
    case Str(chars) => PutString(chars, sink);
    case Name(path) => PutPath(path, sink);
    case Buffer(data) =>
      var inner := new Sink();
      PutQWord(|data|, inner);
      inner.PushVec(data);
      assert inner.bytes == EncodeInteger(|data|) + data;
      PutFrame(BUFFER_OP, inner.bytes, sink);
    case Package(elements) =>
      var inner := new Sink();
      inner.PushByte(|elements| % 256);
      PutAll(elements, inner);
      assert inner.bytes == [|elements| % 256] + EncodeAll(elements);
      PutFrame(PACKAGE_OP, inner.bytes, sink);
  }

  lemma NoData()
    ensures EncodeAll([]) == []
  {
  }

  method PutAll(ds: seq<Data>, sink: Sink)
    requires AllEncodable(ds)
    modifies sink
    ensures sink.bytes == old(sink.bytes) + EncodeAll(ds)
    decreases ds
  {
    hide EncodeAll, Encode, AllEncodable, Encodable;
    NoData();
    for i := 0 to |ds|
      invariant sink.bytes == old(sink.bytes) + EncodeAll(ds[..i])
    {
      EncodableAt(ds, i);
      EncodeAllAppend(ds[..i], ds[i]);
      assert ds[..i + 1] == ds[..i] + [ds[i]];
      Assoc(old(sink.bytes), EncodeAll(ds[..i]), Encode(ds[i]));
      Put(ds[i], sink);
    }
    assert ds[..|ds|] == ds;
  }

  // ----- Building a package step by step -----

  class PackageBuilder {
    var data: Sink
    var elements: nat
    ghost var added: seq<Data>

    ghost predicate Valid()
      reads this, data
    {
      data.bytes == EncodeAll(added) && elements == |added|
    }

    constructor ()
      ensures Valid() && fresh(data) && added == []
    {
      data := new Sink();
      elements := 0;
      added := [];
    }

    method AddElement(d: Data)
      requires Valid() && Encodable(d)
      modifies this, data
      ensures Valid() && data == old(data) && added == old(added) + [d]
    {
      hide Encode;
      EncodeAllAppend(added, d);
      Put(d, data);
      elements := elements + 1;
      added := added + [d];
    }

    /** A package built step by step has the same bytes as one made at once. */
    method ToAmlBytes(sink: Sink)
      requires Valid() && sink != data
      modifies sink
      ensures Valid() && sink.bytes == old(sink.bytes) + Encode(Package(added))
    {
      hide PkgLength, EncodeAll;
      var pkgLength := CreatePkgLength(|data.bytes| + 1, true);
      sink.PushByte(PACKAGE_OP);
      sink.PushVec(pkgLength);
      sink.PushByte(elements % 256);
      sink.PushVec(data.bytes);
    }
  }

  // ----- Scopes -----

  function EncodeScope(path: Path, children: Bytes): Bytes {
    Frame(SCOPE_OP, EncodePath(path) + children)
  }

  lemma ScopeBytes(children: Bytes)
    requires |children| < 50
    ensures EncodeScope(Path(false, false, [[0x5f, 0x53, 0x42, 0x5f]]), children) ==
            [0x10, |children| + 5, 0x5f, 0x53, 0x42, 0x5f] + children
  {
    var name: Bytes := [0x5f, 0x53, 0x42, 0x5f];
    ConcatStep([name]);
    ConcatStep([]);
    assert [name][1..] == [] && name + [] == name;
    var path := Path(false, false, [name]);
    assert EncodePath(path) == name;
    assert PkgLength(4 + |children|, true) == [|children| + 5];
  }

  method PutScope(path: Path, children: seq<Data>, sink: Sink)
    requires path.parts != [] && AllEncodable(children)
    modifies sink
    ensures sink.bytes == old(sink.bytes) + EncodeScope(path, EncodeAll(children))
  {
    hide EncodePath, EncodeAll, Frame, AllEncodable;
    var inner := new Sink();
    PutPath(path, inner);
    PutAll(children, inner);
    assert inner.bytes == EncodePath(path) + EncodeAll(children);
    PutFrame(SCOPE_OP, inner.bytes, sink);
  }

  /**
  Scope::raw: appends first, then makes room for the package length by moving everything after the opcode; the
  result is that of `PutScope` for children with these bytes.
  */
  method ScopeRaw(path: Path, children: Bytes) returns (bytes: array<Byte>)
    requires path.parts != []
    ensures fresh(bytes) && bytes[..] == EncodeScope(path, children)
  {
    hide EncodePath, PkgLength;
    var sink := new Sink();
    sink.PushByte(SCOPE_OP);
    PutPath(path, sink);
    sink.PushVec(children);
    ghost var body := EncodePath(path) + children;
    assert sink.bytes == [SCOPE_OP] + body;
    var n := |sink.bytes|;
    var pkgLength := CreatePkgLength(n - 1, true);
    var m := |pkgLength|;

    bytes := Resized(sink.bytes, n + m, 0xff);
    ghost var filled := bytes[..];
    CopyWithin(bytes, 1, n, m + 1);
    ghost var moved := bytes[..];
    CopyFromSlice(bytes, 1, pkgLength);
    Shifted(SCOPE_OP, body, pkgLength, filled, moved, bytes[..]);
  }

  lemma Shifted(op: Byte, body: Bytes, length: Bytes, filled: Bytes, moved: Bytes, result: Bytes)
    requires |filled| == 1 + |body| + |length| && filled[..1 + |body|] == [op] + body
    requires moved == filled[..|length| + 1] + filled[1..1 + |body|] + filled[|length| + 1 + |body|..]
    requires result == moved[..1] + length + moved[1 + |length|..]
    ensures result == [op] + length + body
  {
    assert filled[1..1 + |body|] == filled[..1 + |body|][1..] == body;
    assert moved[1 + |length|..] == body;
    assert filled[0] == filled[..1 + |body|][0] == op;
  }

  method Resized(s: Bytes, size: nat, fill: Byte) returns (a: array<Byte>)
    requires |s| <= size
    ensures fresh(a) && a.Length == size && a[..|s|] == s
    ensures forall i :: |s| <= i < size ==> a[i] == fill
  {
    a := new Byte[size](i => if 0 <= i < |s| then s[i] else fill);
  }

  /** Overlapping source and target are allowed. */
  method CopyWithin(a: array<Byte>, from: nat, to: nat, dest: nat)
    requires from <= to <= a.Length && dest + (to - from) <= a.Length
    modifies a
    ensures a[..] == old(a[..dest]) + old(a[from..to]) + old(a[dest + (to - from)..])
  {
    forall k | 0 <= k < to - from {
      a[dest + k] := a[from + k];
    }
  }

  method CopyFromSlice(a: array<Byte>, at: nat, s: Bytes)
    requires at + |s| <= a.Length
    modifies a
    ensures a[..] == old(a[..at]) + s + old(a[at + |s|..])
  {
    forall k | 0 <= k < |s| {
      a[at + k] := s[k];
    }
  }

  /** Reads a scope back: its name, the bytes of its children, and what follows it. */
  function ParseScope(b: Bytes): Option<(Path, Bytes, Bytes)> {
    if b == [] || b[0] != SCOPE_OP then None
    else
      match Unframe(b[1..])
      case None => None
      case Some((body, rest)) =>
        match ParsePath(body)
        case None => None
        case Some((path, children)) => Some((path, children, rest))
  }

  lemma ScopeRoundTrip(path: Path, children: Bytes, rest: Bytes)
    ensures ParseScope(EncodeScope(path, children) + rest) == Some((path, children, rest))
            <==> WellFormedPath(path) && Frameable(|EncodePath(path)| + |children|)
  {
    hide ParsePath, Unframe, EncodePath, Frame, Frameable;
    var body := EncodePath(path) + children;
    if WellFormedPath(path) && Frameable(|EncodePath(path)| + |children|) {
      PathParses(path, children);
      FrameParses(SCOPE_OP, body, rest);
    } else if ParseScope(EncodeScope(path, children) + rest) == Some((path, children, rest)) {
      var b := EncodeScope(path, children) + rest;
      PathShortest(Unframe(b[1..]).value.0);
      FrameShortest(SCOPE_OP, body, b[1..]);
      assert false;
    }
  }
}
