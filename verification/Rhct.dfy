/** The RISC-V hart capabilities table. */
module Rhcts {
  import opened Basics
  import opened ByteStrings
  import opened Checksums
  import opened TableHeaders

  const RHCT: Kind := Kind([0x52, 0x48, 0x43, 0x54], 1)
  const BASE: nat := 56

  function RhctHeader(oem: Oem, timebase: nat, length: nat, checksum: Byte, nodes: nat): (r: Bytes)
    requires ValidOem(oem)
    ensures |r| == BASE
  {
    Header(RHCT, length, checksum, oem) + Le(0, 4) + Le(timebase, 8) + Le(nodes, 4) + Le(BASE, 4)
  }

  lemma RhctHeaderLayout(oem: Oem, timebase: nat, length: nat, checksum: Byte, nodes: nat)
    requires ValidOem(oem)
    ensures var r := RhctHeader(oem, timebase, length, checksum, nodes);
            && r[..HEADER_LEN] == Header(RHCT, length, checksum, oem)
            && Field(r, 36, 4) == 0 && (Field(r, 40, 8) == timebase <==> timebase < TWO64)
            && (Field(r, 48, 4) == nodes <==> nodes < TWO32) && Field(r, 52, 4) == |r|
  {
    hide Le, Header;
    Powers();
    var r := RhctHeader(oem, timebase, length, checksum, nodes);
    FieldReads(r, 36, 4, 0);
    FieldReadsIff(r, 40, 8, timebase);
    FieldReadsIff(r, 48, 4, nodes);
    var a := Header(RHCT, length, checksum, oem) + Le(0, 4) + Le(timebase, 8) + Le(nodes, 4);
    assert r == a + Le(BASE, 4) && |a| == 52 && (a + Le(BASE, 4))[52..] == Le(BASE, 4);
    assert r[..56] == r && r[52..56] == r[..56][52..];
    FieldReads(r, 52, 4, BASE);
  }

  lemma SignatureIs()
    ensures RHCT.signature == Text("RHCT")
  {
    var t := Text("RHCT");
    assert t[0] == 0x52 && t[1] == 0x48 && t[2] == 0x43 && t[3] == 0x54;
  }

  ghost function Fixed(oem: Oem, timebase: nat): nat
    requires ValidOem(oem)
  {
    FixedSum(RHCT, oem) + Sum(Le(0, 4)) + Sum(Le(timebase, 8)) + Sum(Le(BASE, 4))
  }

  lemma RhctHeaderSum(oem: Oem, timebase: nat, length: nat, checksum: Byte, nodes: nat)
    requires ValidOem(oem)
    ensures Sum(RhctHeader(oem, timebase, length, checksum, nodes)) ==
            Fixed(oem, timebase) + Sum(Le(length, 4)) + checksum + Sum(Le(nodes, 4))
  {
    hide Le;
    var a := Header(RHCT, length, checksum, oem);
    HeaderSum(RHCT, length, checksum, oem);
    SumConcat(a, Le(0, 4));
    SumConcat(a + Le(0, 4), Le(timebase, 8));
    SumConcat(a + Le(0, 4) + Le(timebase, 8), Le(nodes, 4));
    SumConcat(a + Le(0, 4) + Le(timebase, 8) + Le(nodes, 4), Le(BASE, 4));
  }

  // ----- Nodes -----

  function IsaStringLen(s: Bytes): nat {
    var len := 8 + |s| + 1;
    if len % 2 == 0 then len else len + 1
  }

  function IsaStringNode(s: Bytes): (r: Bytes)
    ensures |r| == IsaStringLen(s) && Announces(r, 2, 2)
  {
    var strlen := (|s| + 1) % 0x1_0000;
    NodeBytes(Le(0, 2), IsaStringLen(s), Le(1, 2) + Le(strlen, 2) + Padded(s, strlen))
  }

  function Padded(s: Bytes, strlen: nat): (r: Bytes)
    requires strlen % 2 == (|s| + 1) % 2
    ensures |r| == IsaStringLen(s) - 8
  {
    s + [0] + if strlen % 2 == 1 then [0] else []
  }

  function HartInfoNode(uid: nat, handles: seq<nat>): (r: Bytes)
    ensures |r| == 12 + 4 * |handles| && Announces(r, 2, 2)
  {
    NodeBytes(Le(65535, 2), 12 + 4 * |handles|, Le(1, 2) + Le(|handles|, 2) + Le(uid, 4) + Dwords(handles))
  }

  /** The handles follow the first 12 bytes. */
  lemma HartInfoHandle(uid: nat, handles: seq<nat>, k: nat)
    requires k < |handles|
    ensures HartInfoNode(uid, handles)[12 + 4 * k..16 + 4 * k] == Le(handles[k], 4)
  {
    hide Le;
    DwordAt(handles, k);
    var r := HartInfoNode(uid, handles);
    assert r[4..][8..] == Dwords(handles);
    assert r[12 + 4 * k..16 + 4 * k] == r[4..][8..][4 * k..4 * k + 4];
  }

  function CmoNode(cbom: Byte, cbop: Byte, cboz: Byte): (r: Bytes)
    ensures |r| == 10 && Announces(r, 2, 2)
  {
    NodeBytes(Le(1, 2), 10, Le(1, 2) + [0, cbom, cbop, cboz])
  }

  function MmuNode(scheme: Byte): (r: Bytes)
    ensures |r| == 8 && Announces(r, 2, 2)
  {
    NodeBytes(Le(2, 2), 8, Le(1, 2) + [0, scheme])
  }

  // ----- What a reader of the nodes finds -----

  lemma IsaStringParts(s: Bytes)
    requires |s| + 1 < 0x1_0000
    ensures var r := IsaStringNode(s);
            && r[0..2] == Le(0, 2) && r[2..4] == Le(|r|, 2) && r[4..6] == Le(1, 2) && r[6..8] == Le(|s| + 1, 2)
            && r[8..8 + |s|] == s && r[8 + |s|] == 0
  {
    hide Le;
    var r, tail := IsaStringNode(s), Padded(s, |s| + 1);
    assert r == Le(0, 2) + Le(|r|, 2) + (Le(1, 2) + Le(|s| + 1, 2) + tail);
    assert r[8..] == tail && tail[..|s|] == s && tail[|s|] == 0;
    assert r[8..8 + |s|] == r[8..][..|s|] && r[8 + |s|] == r[8..][|s|];
  }

  lemma IsaStringLayout(s: Bytes)
    requires IsaStringLen(s) < 0x1_0000
    ensures var r := IsaStringNode(s);
            && Field(r, 0, 2) == 0 && Field(r, 2, 2) == |r| && Field(r, 4, 2) == 1
            && Field(r, 6, 2) == |s| + 1 && r[8..8 + |s|] == s && r[8 + |s|] == 0 && |r| % 2 == 0
  {
    hide Le;
    SmallFits();
    var r := IsaStringNode(s);
    IsaStringParts(s);
    FieldReads(r, 0, 2, 0);
    FieldReads(r, 2, 2, |r|);
    FieldReads(r, 4, 2, 1);
    FieldReads(r, 6, 2, |s| + 1);
  }

  lemma HartInfoLayout(uid: nat, handles: seq<nat>)
    requires uid < TWO32 && 12 + 4 * |handles| < 0x1_0000
    ensures var r := HartInfoNode(uid, handles);
            && Field(r, 0, 2) == 65535 && Field(r, 2, 2) == |r| && Field(r, 4, 2) == 1
            && Field(r, 6, 2) == |handles| && Field(r, 8, 4) == uid
  {
    hide Le, Dwords;
    SmallFits();
    Powers();
    var r := HartInfoNode(uid, handles);
    var tail := Le(1, 2) + Le(|handles|, 2) + Le(uid, 4) + Dwords(handles);
    assert r[4..] == tail;
    assert r[0..2] == Le(65535, 2);
    assert r[4..6] == tail[..2] == Le(1, 2) && r[6..8] == tail[2..4] == Le(|handles|, 2);
    assert r[8..12] == tail[4..8] == Le(uid, 4);
    FieldReads(r, 0, 2, 65535);
    FieldReads(r, 2, 2, |r|);
    FieldReads(r, 4, 2, 1);
    FieldReads(r, 6, 2, |handles|);
    FieldReads(r, 8, 4, uid);
  }

  lemma CmoLayout(cbom: Byte, cbop: Byte, cboz: Byte)
    ensures var r := CmoNode(cbom, cbop, cboz);
            && Field(r, 0, 2) == 1 && Field(r, 2, 2) == 10 && Field(r, 4, 2) == 1
            && r[6..] == [0, cbom, cbop, cboz]
  {
    hide Le;
    SmallFits();
    var r := CmoNode(cbom, cbop, cboz);
    assert r[0..2] == Le(1, 2) && r[4..6] == r[4..][..2] == Le(1, 2) && r[6..] == r[4..][2..];
    FieldReads(r, 0, 2, 1);
    FieldReads(r, 2, 2, 10);
    FieldReads(r, 4, 2, 1);
  }

  lemma MmuLayout(scheme: Byte)
    ensures var r := MmuNode(scheme);
            && Field(r, 0, 2) == 2 && Field(r, 2, 2) == 8 && Field(r, 4, 2) == 1 && r[6..] == [0, scheme]
  {
    hide Le;
    SmallFits();
    var r := MmuNode(scheme);
    assert r[0..2] == Le(2, 2) && r[4..6] == r[4..][..2] == Le(1, 2) && r[6..] == r[4..][2..];
    FieldReads(r, 0, 2, 2);
    FieldReads(r, 2, 2, 8);
    FieldReads(r, 4, 2, 1);
  }

  datatype Node =
    | IsaString(string_: Bytes)
    | HartInfo(uid: nat, handles: seq<nat>)
    | Cmo(cbom: Byte, cbop: Byte, cboz: Byte)
    | Mmu(scheme: Byte)

  function EncodeNode(n: Node): Bytes {
    match n
    case IsaString(s) => IsaStringNode(s)
    case HartInfo(uid, handles) => HartInfoNode(uid, handles)
    case Cmo(cbom, cbop, cboz) => CmoNode(cbom, cbop, cboz)
    case Mmu(scheme) => MmuNode(scheme)
  }

  function DecodeIsaString(b: Bytes): Option<Node>
    requires |b| >= 8
  {
    var strlen := Field(b, 6, 2);
    if strlen == 0 || 8 + strlen > |b| || b[7 + strlen] != 0 then None
    else if |b| != IsaStringLen(b[8..7 + strlen]) then None
    else Some(IsaString(b[8..7 + strlen]))
  }

  function DecodeHartInfo(b: Bytes): Option<Node>
    requires |b| >= 8
  {
    var n := Field(b, 6, 2);
    if |b| != 12 + 4 * n then None else Some(HartInfo(Field(b, 8, 4), ReadDwords(b, 12, n)))
  }

  /** Reads a node by its type. */
  function DecodeNode(b: Bytes): Option<Node> {
    if |b| < 8 || Field(b, 2, 2) != |b| || Field(b, 4, 2) != 1 then None
    else if Field(b, 0, 2) == 0 then DecodeIsaString(b)
    else if Field(b, 0, 2) == 65535 then DecodeHartInfo(b)
    else if Field(b, 0, 2) == 1 && |b| == 10 && b[6] == 0 then Some(Cmo(b[7], b[8], b[9]))
    else if Field(b, 0, 2) == 2 && |b| == 8 && b[6] == 0 then Some(Mmu(b[7]))
    else None
  }

  predicate Representable(n: Node) {
    match n
    case IsaString(s) => IsaStringLen(s) < 0x1_0000
    case HartInfo(uid, handles) =>
      uid < TWO32 && 12 + 4 * |handles| < 0x1_0000 && forall k :: 0 <= k < |handles| ==> handles[k] < TWO32
    case Cmo(_, _, _) => true
    case Mmu(_) => true
  }

  /** A node is read back from its bytes exactly when its numbers and its size fit their fields. */
  lemma NodeRoundTrip(n: Node)
    ensures DecodeNode(EncodeNode(n)) == Some(n) <==> Representable(n)
  {
    if Representable(n) { NodeReads(n); } else { NodeDoesNotRead(n); }
  }

  lemma NodeReads(n: Node)
    requires Representable(n)
    ensures DecodeNode(EncodeNode(n)) == Some(n)
  {
    hide Field, IsaStringNode, HartInfoNode, CmoNode, MmuNode;
    match n
    case IsaString(s) => IsaStringLayout(s);
    case HartInfo(uid, handles) =>
      HartInfoLayout(uid, handles);
      HartInfoTail(uid, handles);
      DwordsRead(HartInfoNode(uid, handles), 12, handles);
    case Cmo(cbom, cbop, cboz) => CmoLayout(cbom, cbop, cboz);
    case Mmu(scheme) => MmuLayout(scheme);
  }

  /** Whatever its length, a string is followed by zeros only. */
  lemma PaddedWithZeros(s: Bytes)
    ensures var r := IsaStringNode(s); r[8..8 + |s|] == s && forall k :: 8 + |s| <= k < |r| ==> r[k] == 0
  {
    hide Le;
    var r, tail := IsaStringNode(s), Padded(s, (|s| + 1) % 0x1_0000);
    assert r[4..][4..] == tail && r[8..] == r[4..][4..];
    assert tail[..|s|] == s && forall k :: |s| <= k < |tail| ==> tail[k] == 0;
    assert r[8..8 + |s|] == r[8..][..|s|] && forall k :: 8 <= k < |r| ==> r[k] == r[8..][k - 8];
  }

  lemma HartInfoTail(uid: nat, handles: seq<nat>)
    ensures HartInfoNode(uid, handles)[12..] == Dwords(handles)
  {
    hide Le, Dwords;
    assert HartInfoNode(uid, handles)[4..][8..] == Dwords(handles);
  }

  lemma NodeDoesNotRead(n: Node)
    requires !Representable(n)
    ensures DecodeNode(EncodeNode(n)) != Some(n)
  {
    hide IsaStringNode, HartInfoNode, Field;
    var b := EncodeNode(n);
    Powers();
    FieldBound(b, 2, 2);
    if n.HartInfo? {
      FieldBound(b, 8, 4);
      HartInfoTail(n.uid, n.handles);
      DwordsRead(b, 12, n.handles);
    }
  }

  // ----- The table -----

  class Rhct {
    const oem: Oem
    const timebase: nat
    var length: nat
    var checksumByte: Byte
    var nodeCount: nat
    var handleOffset: nat
    const checksum: Checksum
    var structures: seq<Bytes>
    ghost var handles: seq<nat>

    ghost function Emitted(): Bytes
      requires ValidOem(oem)
      reads this
    {
      RhctHeader(oem, timebase, length, checksumByte, nodeCount) + Concat(structures)
    }

    ghost predicate Valid()
      reads this, checksum
    {
      && ValidOem(oem) && checksum.Valid()
      && length == handleOffset == |Emitted()| && nodeCount == |structures| && AllAnnounce(structures, 2, 2)
      && Handles(BASE, structures, handles) && length < TWO32
      && Congruent(checksum.total,
                   Fixed(oem, timebase) + Sum(Le(length, 4)) + Sum(Le(nodeCount, 4)) + Sum(Concat(structures)))
      && (checksum.total + checksumByte) % 256 == 0
    }

    constructor (oem_: Oem, timebase_: nat)
      requires ValidOem(oem_)
      ensures Valid() && structures == [] && handles == [] && length == BASE && fresh(checksum)
      ensures oem == oem_ && timebase == timebase_
    {
      hide Le, Fixed;
      var cksum := new Checksum();
      cksum.Append(RhctHeader(oem_, timebase_, BASE, 0, 0));
      RhctHeaderSum(oem_, timebase_, BASE, 0, 0);
      oem, timebase := oem_, timebase_;
      length, nodeCount, handleOffset := BASE, 0, BASE;
      structures, handles := [], [];
      checksum := cksum;
      checksumByte := 0;
      new;
      checksumByte := checksum.Value();
    }

    /** The header of the emitted table holds what the caller gave, and the number of nodes added. */
    lemma HeaderHolds()
      requires Valid()
      ensures StartsAs(Emitted(), "RHCT", 1, oem) && |Emitted()| >= 56
      ensures Field(Emitted(), 36, 4) == 0 && (Field(Emitted(), 40, 8) == timebase <==> timebase < TWO64)
      ensures Field(Emitted(), 48, 4) == |structures| && Field(Emitted(), 52, 4) == 56
    {
      hide Le, Concat, Field, Sum, Congruent, StartsAs, Header;
      NodesFit(structures, 2, 2);
      var front := RhctHeader(oem, timebase, length, checksumByte, nodeCount);
      var more := Le(0, 4) + Le(timebase, 8) + Le(nodeCount, 4) + Le(BASE, 4);
      assert Emitted() == Header(RHCT, length, checksumByte, oem) + (more + Concat(structures));
      SignatureIs();
      TableStarts(RHCT, length, checksumByte, oem, more + Concat(structures), "RHCT");
      RhctHeaderLayout(oem, timebase, length, checksumByte, nodeCount);
      FieldInFront(front, Concat(structures), 36, 4);
      FieldInFront(front, Concat(structures), 40, 8);
      FieldInFront(front, Concat(structures), 48, 4);
      FieldInFront(front, Concat(structures), 52, 4);
    }

    /** The running checksum is as good as a recomputed one. */
    lemma SumsToZero()
      requires Valid()
      ensures ZeroSum(Emitted())
    {
      hide Le, Fixed, Sum, Congruent;
      RhctHeaderSum(oem, timebase, length, checksumByte, nodeCount);
      SumConcat(RhctHeader(oem, timebase, length, checksumByte, nodeCount), Concat(structures));
      CongruentCloses(checksum.total, checksumByte,
                      Fixed(oem, timebase) + Sum(Le(length, 4)) + Sum(Le(nodeCount, 4)) + Sum(Concat(structures)));
    }

    /** The nodes can be read back exactly when none is too long for its length field. */
    lemma ReadsBack()
      requires Valid()
      ensures Walk(Emitted()[BASE..], 2, 2) == Some(structures) <==>
              forall i :: 0 <= i < |structures| ==> |structures[i]| < 0x1_0000
    {
      assert Emitted()[BASE..] == Concat(structures);
      Powers();
      WalkExact(structures, 2, 2);
    }

    /** A handle, once returned, is where its node starts in the emitted table, for ever. */
    lemma HandleStays(j: nat)
      requires Valid() && j < |structures|
      ensures Holds(Emitted(), handles[j], structures[j])
    {
      HandleHolds(RhctHeader(oem, timebase, length, checksumByte, nodeCount), structures, handles, j);
    }

    /** A handle stored in node `i` leads to the node it was issued for. */
    lemma Reaches(i: nat, at: nat, j: nat)
      requires Valid() && i < |structures| && j < |structures|
      requires at + 4 <= |structures[i]| && structures[i][at..at + 4] == Le(handles[j], 4)
      ensures handles[i] + at + 4 <= |Emitted()|
      ensures Holds(Emitted(), Field(Emitted(), handles[i] + at, 4), structures[j])
    {
      hide Le;
      Powers();
      assert Announces(structures[j], 2, 2);
      FollowHandle(RhctHeader(oem, timebase, length, checksumByte, nodeCount), structures, handles, i, at, 4, j);
    }

    /** Whoever follows an offset in a hart's node finds the node it was issued for. */
    lemma HartReaches(i: nat, uid: nat, offsets: seq<nat>, k: nat, j: nat)
      requires Valid() && i < |structures| && structures[i] == HartInfoNode(uid, offsets)
      requires j < |structures| && k < |offsets| && offsets[k] == handles[j]
      ensures handles[i] + 12 + 4 * k + 4 <= |Emitted()|
      ensures Holds(Emitted(), Field(Emitted(), handles[i] + (12 + 4 * k), 4), structures[j])
    {
      hide Valid, Le, HartInfoNode;
      HartInfoHandle(uid, offsets, k);
      Reaches(i, 12 + 4 * k, j);
    }

    method UpdateHeader(sum: Byte, len: nat)
      requires checksum.Valid() && length + len < TWO32
      modifies this`length, this`nodeCount, this`checksumByte, checksum
      ensures checksum.Valid() && length == old(length) + len && nodeCount == old(nodeCount) + 1
      ensures checksum.total == old(checksum.total) + sum
                                + Sum(Le(length, 4)) - Sum(Le(old(length), 4))
                                + Sum(Le(nodeCount, 4)) - Sum(Le(old(nodeCount), 4))
      ensures (checksum.total + checksumByte) % 256 == 0
    {
      hide Le;
      var oldLen := length;
      var newLen := len + oldLen;
      length := newLen;
      var oldNodeCount := nodeCount;
      var newNodeCount := oldNodeCount + 1;
      nodeCount := newNodeCount;
      checksum.Delete(Le(oldNodeCount, 4));
      checksum.Append(Le(newNodeCount, 4));
      checksum.Delete(Le(oldLen, 4));
      checksum.Append(Le(newLen, 4));
      checksum.Add(sum);
      checksumByte := checksum.Value();
    }

    /** Appends a node; the result is where it starts. */
    method AddNode(node: Bytes, len: nat) returns (handle: nat)
      requires Valid() && len == |node| && Announces(node, 2, 2) && length + len < TWO32
      modifies this, checksum
      ensures Valid() && ZeroSum(Emitted())
      ensures structures == old(structures) + [node] && length == old(length) + len
      ensures handle == Offset(BASE, structures, |old(structures)|)
      ensures handles == old(handles) + [handle]
    {
      hide Le, Fixed, Sum, Concat, Congruent, ZeroSum;
      ConcatAppend(structures, node);
      SumConcat(Concat(structures), node);
      ghost var before := Fixed(oem, timebase) + Sum(Le(length, 4)) + Sum(Le(nodeCount, 4)) + Sum(Concat(structures));
      handle := handleOffset;
      handleOffset := handleOffset + len;
      var sum := U8Sum(node);
      UpdateHeader(sum, len);
      CongruentShift(old(checksum.total), sum, before, Sum(node), checksum.total - old(checksum.total) - sum);
      HandlesGrow(BASE, structures, handles, node);
      structures, handles := structures + [node], handles + [handle];
      assert structures[..|old(structures)|] == old(structures);
      SumsToZero();
    }

    method AddIsaString(s: Bytes) returns (handle: nat)
      requires Valid() && length + IsaStringLen(s) < TWO32
      modifies this, checksum
      ensures Valid() && ZeroSum(Emitted())
      ensures structures == old(structures) + [IsaStringNode(s)] && length == old(length) + IsaStringLen(s)
      ensures handle == Offset(BASE, structures, |old(structures)|)
      ensures handles == old(handles) + [handle]
    {
      handle := AddNode(IsaStringNode(s), IsaStringLen(s));
    }

    method AddMmuNode(scheme: Byte)
      requires Valid() && scheme <= 2 && length + 8 < TWO32
      modifies this, checksum
      ensures Valid() && ZeroSum(Emitted())
      ensures structures == old(structures) + [MmuNode(scheme)]
      ensures old(handles) <= handles
    {
      var _ := AddNode(MmuNode(scheme), 8);
    }

    method AddCmo(cbom: Byte, cbop: Byte, cboz: Byte) returns (handle: nat)
      requires Valid() && length + 10 < TWO32
      modifies this, checksum
      ensures Valid() && ZeroSum(Emitted())
      ensures structures == old(structures) + [CmoNode(cbom, cbop, cboz)]
      ensures handle == Offset(BASE, structures, |old(structures)|)
      ensures handles == old(handles) + [handle]
    {
      handle := AddNode(CmoNode(cbom, cbop, cboz), 10);
    }

    method AddHartInfo(uid: nat, offsets: seq<nat>)
      requires Valid() && length + 12 + 4 * |offsets| < TWO32
      modifies this, checksum
      ensures Valid() && ZeroSum(Emitted())
      ensures structures == old(structures) + [HartInfoNode(uid, offsets)]
      ensures length == old(length) + 12 + 4 * |offsets|
      ensures old(handles) <= handles
    {
      var _ := AddNode(HartInfoNode(uid, offsets), 12 + 4 * |offsets|);
    }

    method ToAmlBytes() returns (r: Bytes)
      requires Valid()
      ensures r == Emitted() && |r| == length && ZeroSum(r)
    {
      r := EmitNodes(RhctHeader(oem, timebase, length, checksumByte, nodeCount), structures);
      SumsToZero();
    }
  }

  /** A hart that names its ISA string: the reader of the finished table gets from one to the other. */
  method HartWithIsa(oem: Oem, timebase: nat, isa: Bytes) returns (t: Rhct)
    requires ValidOem(oem) && IsaStringLen(isa) < 0x1_0000
    ensures t.Valid() && |t.structures| == 3 && t.handles[1] + 16 <= |t.Emitted()|
    ensures Holds(t.Emitted(), Field(t.Emitted(), t.handles[1] + 12, 4), IsaStringNode(isa))
  {
    hide Le, Sum, Concat, ZeroSum, Congruent, IsaStringNode, HartInfoNode, MmuNode;
    t := new Rhct(oem, timebase);
    var handle := t.AddIsaString(isa);
    t.AddHartInfo(0, [handle]);
    t.AddMmuNode(0);
    t.HartReaches(1, 0, [handle], 0, 0);
  }

  /** An ISA string of 65527 characters makes a node of 65536 bytes, which announces itself as empty. */
  method LongIsaString(oem: Oem, timebase: nat) returns (t: Rhct)
    requires ValidOem(oem)
    ensures t.Valid() && ZeroSum(t.Emitted()) && Walk(t.Emitted()[BASE..], 2, 2) != Some(t.structures)
  {
    hide Le, Sum, Concat, ZeroSum, Congruent, IsaStringNode, Walk;
    t := new Rhct(oem, timebase);
    var isa := seq(65527, _ => 'x' as int);
    var _ := t.AddIsaString(isa);
    assert |t.structures[0]| == IsaStringLen(isa) == 0x1_0000;
    t.ReadsBack();
  }
}
