/** The processor properties topology table. */
module Pptts {
  import opened Basics
  import opened ByteStrings
  import opened Checksums
  import opened TableHeaders

  const PPTT: Kind := Kind([0x50, 0x50, 0x54, 0x54], 3)

  lemma SignatureIs()
    ensures PPTT.signature == Text("PPTT")
  {
    var t := Text("PPTT");
    assert t[0] == 0x50 && t[1] == 0x50 && t[2] == 0x54 && t[3] == 0x54;
  }

  // ----- Nodes -----

  datatype ProcessorNode = ProcessorNode(flags: nat, parent: nat, processorId: nat, resources: seq<nat>)

  function ProcessorLen(p: ProcessorNode): nat {
    20 + |p.resources| * 4
  }

  function ProcessorBytes(p: ProcessorNode): (r: Bytes)
    ensures |r| == ProcessorLen(p) && Announces(r, 1, 1)
  {
    var r := [0, ProcessorLen(p) % 256] + (ProcessorHead(p) + Dwords(p.resources));
    assert Le(ProcessorLen(p), 1) == [ProcessorLen(p) % 256] + Le(ProcessorLen(p) / 256, 0);
    r
  }

  function ProcessorHead(p: ProcessorNode): (r: Bytes)
    ensures |r| == 18
  {
    Le(0, 2) + Le(p.flags, 4) + Le(p.parent, 4) + Le(p.processorId, 4) + Le(|p.resources|, 4)
  }

  /** A processor names its parent at byte 8. */
  lemma ProcessorLayout(p: ProcessorNode)
    requires p.flags < TWO32 && p.parent < TWO32 && p.processorId < TWO32 && |p.resources| < TWO32
    ensures var r := ProcessorBytes(p);
            && r[0] == 0 && r[1] == |r| % 256 && Field(r, 4, 4) == p.flags && Field(r, 8, 4) == p.parent
            && Field(r, 12, 4) == p.processorId && Field(r, 16, 4) == |p.resources|
  {
    hide Le;
    Powers();
    var r, h := ProcessorBytes(p), ProcessorHead(p);
    assert r[4..8] == h[2..6] && r[8..12] == h[6..10] && r[12..16] == h[10..14] && r[16..20] == h[14..18];
    FieldReads(r, 4, 4, p.flags);
    FieldReads(r, 8, 4, p.parent);
    FieldReads(r, 12, 4, p.processorId);
    FieldReads(r, 16, 4, |p.resources|);
  }

  lemma ParentAt(p: ProcessorNode)
    ensures ProcessorBytes(p)[8..12] == Le(p.parent, 4)
  {
    hide Le;
    assert ProcessorBytes(p)[8..12] == ProcessorHead(p)[6..10] == Le(p.parent, 4);
  }

  /** Its caches follow from byte 20 on. */
  lemma ProcessorCache(p: ProcessorNode, k: nat)
    requires k < |p.resources|
    ensures ProcessorBytes(p)[20 + 4 * k..24 + 4 * k] == Le(p.resources[k], 4)
  {
    hide Le;
    DwordAt(p.resources, k);
    var r := ProcessorBytes(p);
    assert r[20..] == Dwords(p.resources);
    assert r[20 + 4 * k..24 + 4 * k] == r[20..][4 * k..4 * k + 4];
  }

  datatype CacheNode = CacheNode(
    flags: nat, nextLevel: nat, size: nat, setCount: nat, associativity: Byte, attributes: Byte, lineSize: nat, id: nat)

  function CacheBytes(c: CacheNode): (r: Bytes)
    ensures |r| == 28 && Announces(r, 1, 1)
  {
    var r := [1, 28] + CacheTail(c);
    assert Le(28, 1) == [28] + Le(0, 0);
    r
  }

  function CacheTail(c: CacheNode): (r: Bytes)
    ensures |r| == 26
  {
    Le(0, 2) + Le(c.flags, 4) + Le(c.nextLevel, 4) + Le(c.size, 4) + Le(c.setCount, 4)
    + [c.associativity, c.attributes] + Le(c.lineSize, 2) + Le(c.id, 4)
  }

  /** A cache names the next level at byte 8. */
  lemma CacheLayout(c: CacheNode)
    requires c.flags < TWO32 && c.nextLevel < TWO32 && c.size < TWO32 && c.setCount < TWO32
    requires c.lineSize < 0x1_0000 && c.id < TWO32
    ensures var r := CacheBytes(c);
            && r[0] == 1 && r[1] == 28 && Field(r, 4, 4) == c.flags && Field(r, 8, 4) == c.nextLevel
            && Field(r, 12, 4) == c.size && Field(r, 16, 4) == c.setCount && r[20] == c.associativity
            && r[21] == c.attributes && Field(r, 22, 2) == c.lineSize && Field(r, 24, 4) == c.id
  {
    hide Le;
    Powers();
    var r, t := CacheBytes(c), CacheTail(c);
    assert r[4..8] == t[2..6] && r[8..12] == t[6..10] && r[12..16] == t[10..14] && r[16..20] == t[14..18];
    assert r[20] == t[18] && r[21] == t[19] && r[22..24] == t[20..22] && r[24..28] == t[22..26];
    FieldReads(r, 4, 4, c.flags);
    FieldReads(r, 8, 4, c.nextLevel);
    FieldReads(r, 12, 4, c.size);
    FieldReads(r, 16, 4, c.setCount);
    FieldReads(r, 22, 2, c.lineSize);
    FieldReads(r, 24, 4, c.id);
  }

  lemma NextLevelAt(c: CacheNode)
    ensures CacheBytes(c)[8..12] == Le(c.nextLevel, 4)
  {
    hide Le;
    assert CacheBytes(c)[8..12] == CacheTail(c)[6..10] == Le(c.nextLevel, 4);
  }

  datatype Node = Processor(processor: ProcessorNode) | Cache(cache: CacheNode)

  function EncodeNode(n: Node): Bytes {
    match n
    case Processor(p) => ProcessorBytes(p)
    case Cache(c) => CacheBytes(c)
  }

  /** Reads a node by its type. */
  function DecodeNode(b: Bytes): Option<Node> {
    if |b| < 20 || b[1] != |b| then None
    else if b[0] == 0 && |b| == 20 + 4 * Field(b, 16, 4) then
      Some(Processor(ProcessorNode(
        Field(b, 4, 4), Field(b, 8, 4), Field(b, 12, 4), ReadDwords(b, 20, Field(b, 16, 4)))))
    else if b[0] == 1 && |b| == 28 then
      Some(Cache(CacheNode(
        Field(b, 4, 4), Field(b, 8, 4), Field(b, 12, 4), Field(b, 16, 4), b[20], b[21],
        Field(b, 22, 2), Field(b, 24, 4))))
    else None
  }

  predicate Representable(n: Node) {
    match n
    case Processor(p) =>
      && |p.resources| <= 58 && p.flags < TWO32 && p.parent < TWO32 && p.processorId < TWO32
      && forall k :: 0 <= k < |p.resources| ==> p.resources[k] < TWO32
    case Cache(c) =>
      && c.flags < TWO32 && c.nextLevel < TWO32 && c.size < TWO32 && c.setCount < TWO32
      && c.lineSize < 0x1_0000 && c.id < TWO32
  }

  /** A node is read back from its bytes exactly when its numbers fit their fields and it has at most 58 caches. */
  lemma NodeRoundTrip(n: Node)
    ensures DecodeNode(EncodeNode(n)) == Some(n) <==> Representable(n)
  {
    if Representable(n) { NodeReads(n); } else { NodeDoesNotRead(n); }
  }

  /** Reserved bytes are zero. */
  lemma ReservedZero(n: Node)
    ensures Field(EncodeNode(n), 2, 2) == 0
  {
    hide Le;
    SmallFits();
    var r := EncodeNode(n);
    if n.Processor? {
      assert r[2..4] == ProcessorHead(n.processor)[0..2];
    } else {
      assert r[2..4] == CacheTail(n.cache)[0..2];
    }
    FieldReads(r, 2, 2, 0);
  }

  lemma CachesTail(p: ProcessorNode)
    ensures ProcessorBytes(p)[20..] == Dwords(p.resources)
  {
    hide Le, Dwords;
  }

  lemma NodeReads(n: Node)
    requires Representable(n)
    ensures DecodeNode(EncodeNode(n)) == Some(n)
  {
    hide Field, ProcessorBytes, CacheBytes;
    match n
    case Processor(p) =>
      ProcessorLayout(p);
      CachesTail(p);
      DwordsRead(ProcessorBytes(p), 20, p.resources);
    case Cache(c) => CacheLayout(c);
  }

  lemma NodeDoesNotRead(n: Node)
    requires !Representable(n)
    ensures DecodeNode(EncodeNode(n)) != Some(n)
  {
    hide Field, ProcessorBytes, CacheBytes;
    var b := EncodeNode(n);
    Powers();
    FieldBound(b, 4, 4);
    FieldBound(b, 8, 4);
    FieldBound(b, 12, 4);
    FieldBound(b, 16, 4);
    if n.Processor? {
      CachesTail(n.processor);
      DwordsRead(b, 20, n.processor.resources);
    } else {
      FieldBound(b, 22, 2);
      FieldBound(b, 24, 4);
    }
  }

  // ----- The table -----

  class Pptt {
    const oem: Oem
    var length: nat
    var checksumByte: Byte
    var handleOffset: nat
    const checksum: Checksum
    var structures: seq<Bytes>
    ghost var handles: seq<nat>

    ghost function Emitted(): Bytes
      requires ValidOem(oem)
      reads this
    {
      Header(PPTT, length, checksumByte, oem) + Concat(structures)
    }

    ghost predicate Valid()
      reads this, checksum
    {
      && ValidOem(oem) && checksum.Valid()
      && length == handleOffset == |Emitted()| && AllAnnounce(structures, 1, 1)
      && Handles(HEADER_LEN, structures, handles) && length < TWO32
      && Congruent(checksum.total, FixedSum(PPTT, oem) + Sum(Le(length, 4)) + Sum(Concat(structures)))
      && (if structures == [] then checksumByte == 0 else (checksum.total + checksumByte) % 256 == 0)
    }

    constructor (oem_: Oem)
      requires ValidOem(oem_)
      ensures Valid() && structures == [] && handles == [] && oem == oem_ && length == HEADER_LEN && fresh(checksum)
    {
      hide Le, Sum, Congruent, FixedSum;
      SumNothing();
      var cksum := new Checksum();
      cksum.Append(Header(PPTT, HEADER_LEN, 0, oem_));
      HeaderSum(PPTT, HEADER_LEN, 0, oem_);
      CongruentSame(cksum.total, FixedSum(PPTT, oem_) + Sum(Le(HEADER_LEN, 4)) + Sum(Concat([])));
      oem, length, handleOffset, structures, handles := oem_, HEADER_LEN, HEADER_LEN, [], [];
      checksum, checksumByte := cksum, 0;
    }

    /** The emitted table starts with what the caller gave. */
    lemma HeaderHolds()
      requires Valid()
      ensures StartsAs(Emitted(), "PPTT", 3, oem)
    {
      hide Le, Concat, Field, Sum, Congruent, StartsAs, Header;
      SignatureIs();
      TableStarts(PPTT, length, checksumByte, oem, Concat(structures), "PPTT");
    }

    /**
    The constructor leaves the checksum byte zero; from the first addition on the bytes sum to zero.  An empty
    table sums to zero only if its header happens to.
    */
    lemma SumsToZeroIff()
      requires Valid()
      ensures ZeroSum(Emitted()) <==> structures != [] || ZeroSum(Header(PPTT, HEADER_LEN, 0, oem))
    {
      hide Le, FixedSum, Sum, Congruent;
      HeaderSum(PPTT, length, checksumByte, oem);
      HeaderSum(PPTT, HEADER_LEN, 0, oem);
      SumConcat(Header(PPTT, length, checksumByte, oem), Concat(structures));
      SumNothing();
      CongruentCloses(checksum.total, checksumByte, FixedSum(PPTT, oem) + Sum(Le(length, 4)) + Sum(Concat(structures)));
    }

    /** Nodes can be read back exactly when none is too long for its one-byte length field. */
    lemma ReadsBack()
      requires Valid()
      ensures Walk(Emitted()[HEADER_LEN..], 1, 1) == Some(structures) <==>
              forall i :: 0 <= i < |structures| ==> |structures[i]| < 256
    {
      assert Emitted()[HEADER_LEN..] == Concat(structures);
      Powers();
      WalkExact(structures, 1, 1);
    }

    /** A handle, once returned, is where its node starts in the emitted table, for ever. */
    lemma HandleStays(j: nat)
      requires Valid() && j < |structures|
      ensures Holds(Emitted(), handles[j], structures[j])
    {
      HandleHolds(Header(PPTT, length, checksumByte, oem), structures, handles, j);
    }

    /** A handle stored in node `i` leads to the node it was issued for. */
    lemma Reaches(i: nat, at: nat, j: nat)
      requires Valid() && i < |structures| && j < |structures|
      requires at + 4 <= |structures[i]| && structures[i][at..at + 4] == Le(handles[j], 4)
      ensures handles[i] + at + 4 <= |Emitted()|
      ensures Holds(Emitted(), Field(Emitted(), handles[i] + at, 4), structures[j])
    {
      hide Le;
      Powers();
      assert Announces(structures[j], 1, 1);
      FollowHandle(Header(PPTT, length, checksumByte, oem), structures, handles, i, at, 4, j);
    }

    /** Whoever follows a node's parent or next level, or a processor's cache, finds the node it was issued for. */
    lemma UpReaches(i: nat, n: Node, j: nat)
      requires Valid() && i < |structures| && j < |structures| && structures[i] == EncodeNode(n)
      requires handles[j] == if n.Processor? then n.processor.parent else n.cache.nextLevel
      ensures handles[i] + 12 <= |Emitted()|
      ensures Holds(Emitted(), Field(Emitted(), handles[i] + 8, 4), structures[j])
    {
      hide Valid, Le, ProcessorBytes, CacheBytes;
      if n.Processor? { ParentAt(n.processor); } else { NextLevelAt(n.cache); }
      Reaches(i, 8, j);
    }

    lemma CacheReaches(i: nat, p: ProcessorNode, k: nat, j: nat)
      requires Valid() && i < |structures| && j < |structures| && structures[i] == ProcessorBytes(p)
      requires k < |p.resources| && p.resources[k] == handles[j]
      ensures handles[i] + 20 + 4 * k + 4 <= |Emitted()|
      ensures Holds(Emitted(), Field(Emitted(), handles[i] + (20 + 4 * k), 4), structures[j])
    {
      hide Valid, Le, ProcessorBytes;
      ProcessorCache(p, k);
      Reaches(i, 20 + 4 * k, j);
    }

    method UpdateHeader(sum: Byte, len: nat)
      requires checksum.Valid() && length + len < TWO32
      modifies this`length, this`checksumByte, checksum
      ensures checksum.Valid() && length == old(length) + len
      ensures checksum.total == old(checksum.total) + sum + Sum(Le(length, 4)) - Sum(Le(old(length), 4))
      ensures (checksum.total + checksumByte) % 256 == 0
    {
      hide Le;
      var oldLen := length;
      var newLen := len + oldLen;
      length := newLen;
      checksum.Delete(Le(oldLen, 4));
      checksum.Append(Le(newLen, 4));
      checksum.Add(sum);
      checksumByte := checksum.Value();
    }

    method AddNode(node: Bytes, len: nat) returns (handle: nat)
      requires Valid() && len == |node| && Announces(node, 1, 1) && length + len < TWO32
      modifies this, checksum
      ensures Valid() && ZeroSum(Emitted()) && structures == old(structures) + [node]
      ensures handle == Offset(HEADER_LEN, structures, |old(structures)|)
      ensures handles == old(handles) + [handle]
    {
      hide Le, FixedSum, Sum, Concat, Congruent, ZeroSum;
      ConcatAppend(structures, node);
      SumConcat(Concat(structures), node);
      ghost var before := FixedSum(PPTT, oem) + Sum(Le(length, 4)) + Sum(Concat(structures));
      handle := handleOffset;
      handleOffset := handleOffset + len;
      var sum := U8Sum(node);
      UpdateHeader(sum, len);
      CongruentShift(old(checksum.total), sum, before, Sum(node), checksum.total - old(checksum.total) - sum);
      HandlesGrow(HEADER_LEN, structures, handles, node);
      structures, handles := structures + [node], handles + [handle];
      assert structures[..|old(structures)|] == old(structures);
      SumsToZeroIff();
    }

    method AddProcessor(p: ProcessorNode) returns (handle: nat)
      requires Valid() && length + ProcessorLen(p) < TWO32
      modifies this, checksum
      ensures Valid() && ZeroSum(Emitted()) && structures == old(structures) + [ProcessorBytes(p)]
      ensures handle == Offset(HEADER_LEN, structures, |old(structures)|)
      ensures handles == old(handles) + [handle]
    {
      handle := AddNode(ProcessorBytes(p), ProcessorLen(p));
    }

    method AddCache(c: CacheNode) returns (handle: nat)
      requires Valid() && length + 28 < TWO32
      modifies this, checksum
      ensures Valid() && ZeroSum(Emitted()) && structures == old(structures) + [CacheBytes(c)]
      ensures handle == Offset(HEADER_LEN, structures, |old(structures)|)
      ensures handles == old(handles) + [handle]
    {
      handle := AddNode(CacheBytes(c), 28);
    }

    method ToAmlBytes() returns (r: Bytes)
      requires Valid()
      ensures r == Emitted() && |r| == length && (structures != [] ==> ZeroSum(r))
    {
      hide Le, Sum, FixedSum, ZeroSum;
      r := EmitNodes(Header(PPTT, length, checksumByte, oem), structures);
      SumsToZeroIff();
    }
  }

  // ----- Where the promises fail -----

  lemma SumOfFour(a: Byte, b: Byte, c: Byte, d: Byte)
    ensures Sum([a, b, c, d]) == a + b + c + d
  {
    SumConcat([a, b], [c, d]);
    SumAppend([a], b);
    SumAppend([c], d);
    assert [a] + [b] == [a, b] && [c] + [d] == [c, d] && [a, b] + [c, d] == [a, b, c, d];
  }

  lemma {:induction false} SumOfZeros(b: Bytes)
    requires forall i :: 0 <= i < |b| ==> b[i] == 0
    ensures Sum(b) == 0
  {
    if b != [] { SumOfZeros(b[1..]); }
  }

  function Blank(): Oem {
    Oem([0, 0, 0, 0, 0, 0], [0, 0, 0, 0, 0, 0, 0, 0], 0)
  }

  lemma BlankHeaderSum()
    ensures Sum(Header(PPTT, HEADER_LEN, 0, Blank())) % 256 == 0xad
  {
    hide Sum;
    HeaderSum(PPTT, HEADER_LEN, 0, Blank());
    SumOfFour(0x50, 0x50, 0x54, 0x54);
    SumOfZeros(Blank().id);
    SumOfZeros(Blank().table);
    ZeroLe();
    SumOfFour(0x52, 0x56, 0x41, 0x54);
    SumOfFour(0, 0, 0, 1);
    SumConcat([0x52, 0x56, 0x41, 0x54], [0, 0, 0, 1]);
    assert CREATOR == [0x52, 0x56, 0x41, 0x54] + [0, 0, 0, 1];
  }

  lemma ZeroLe()
    ensures Sum(Le(0, 4)) == 0 && Sum(Le(HEADER_LEN, 4)) == 36
  {
    assert Le(0, 3) == [0] + Le(0, 2) && Le(0, 2) == [0] + Le(0, 1) && Le(0, 1) == [0] + Le(0, 0);
    assert Le(0, 4) == [0, 0, 0, 0] && Le(36, 4) == [36, 0, 0, 0];
    SumOfFour(0, 0, 0, 0);
    SumOfFour(36, 0, 0, 0);
  }

  /** A new table whose bytes do not sum to zero. */
  method BareTable() returns (t: Pptt)
    ensures t.Valid() && t.structures == [] && !ZeroSum(t.Emitted())
  {
    t := new Pptt(Blank());
    BlankHeaderSum();
    t.SumsToZeroIff();
  }

  /** A processor with 59 caches: the node takes 256 bytes, its length field reads 0, and the walk ends there. */
  method FiftyNineCaches(oem: Oem) returns (t: Pptt)
    requires ValidOem(oem)
    ensures t.Valid() && |t.structures| == 1 && Walk(t.Emitted()[HEADER_LEN..], 1, 1) != Some(t.structures)
  {
    t := new Pptt(oem);
    var p := ProcessorNode(0, 0, 0, seq(59, _ => 0));
    var _ := t.AddProcessor(p);
    assert |t.structures[0]| == 256;
    t.ReadsBack();
  }
}
