/** The header all tables start with, and tables that are a header followed by nodes. */
module TableHeaders {
  import opened Basics
  import opened ByteStrings
  import opened Checksums

  const HEADER_LEN: nat := 36

  /** What the caller of a table constructor supplies. */
  datatype Oem = Oem(id: Bytes, table: Bytes, revision: nat)

  predicate ValidOem(oem: Oem) {
    |oem.id| == 6 && |oem.table| == 8 && oem.revision < TWO32
  }

  const CREATOR: Bytes := [0x52, 0x56, 0x41, 0x54, 0, 0, 0, 1]

  /** `kind` is the signature and the revision. */
  datatype Kind = Kind(signature: Bytes, revision: Byte)

  function Header(kind: Kind, length: nat, checksum: Byte, oem: Oem): (r: Bytes)
    requires |kind.signature| == 4 && ValidOem(oem)
    ensures |r| == HEADER_LEN && r[4..8] == Le(length, 4) && r[9] == checksum
  {
    kind.signature + Le(length, 4) + [kind.revision, checksum] + oem.id + oem.table + Le(oem.revision, 4) + CREATOR
  }

  /** Section 5.2.6 of the ACPI specification fixes where each field is. */
  lemma HeaderLayout(kind: Kind, length: nat, checksum: Byte, oem: Oem)
    requires |kind.signature| == 4 && ValidOem(oem) && length < TWO32
    ensures var r := Header(kind, length, checksum, oem);
            && r[..4] == kind.signature && Field(r, 4, 4) == length && r[8] == kind.revision && r[9] == checksum
            && r[10..16] == oem.id && r[16..24] == oem.table && Field(r, 24, 4) == oem.revision && r[28..36] == CREATOR
  {
    hide Le;
    Powers();
    var r := Header(kind, length, checksum, oem);
    var a := kind.signature + Le(length, 4) + [kind.revision, checksum];
    var b := oem.id + oem.table;
    assert r == a + b + Le(oem.revision, 4) + CREATOR;
    assert r[10..24] == b && r[10..16] == r[10..24][..6] && r[16..24] == r[10..24][6..];
    FieldReads(r, 4, 4, length);
    FieldReads(r, 24, 4, oem.revision);
  }

  /** ASCII text. */
  function Text(s: string): (r: Bytes)
    requires forall i :: 0 <= i < |s| ==> s[i] < 128 as char
    ensures |r| == |s| && forall i :: 0 <= i < |s| ==> r[i] == s[i] as int
  {
    seq(|s|, i requires 0 <= i < |s| => s[i] as int)
  }

  /** A whole table starts as section 5.2.6 of the ACPI specification says, with what its maker was given. */
  predicate StartsAs(table: Bytes, signature: string, revision: Byte, oem: Oem)
    requires |signature| == 4 && forall i :: 0 <= i < 4 ==> signature[i] < 128 as char
  {
    && |table| >= 36 && table[..4] == Text(signature) && Field(table, 4, 4) == |table| && table[8] == revision
    && table[10..16] == oem.id && table[16..24] == oem.table && Field(table, 24, 4) == oem.revision
    && table[28..36] == Text("RVAT") + [0, 0, 0, 1]
  }

  /** The fields of the front of a string of bytes are fields of the whole. */
  lemma FieldInFront(front: Bytes, rest: Bytes, at: nat, width: nat)
    requires at + width <= |front|
    ensures (front + rest)[at..at + width] == front[at..at + width]
    ensures Field(front + rest, at, width) == Field(front, at, width)
  {
    assert (front + rest)[at..at + width] == front[at..at + width];
  }

  lemma TableStarts(kind: Kind, length: nat, checksum: Byte, oem: Oem, rest: Bytes, signature: string)
    requires |signature| == 4 && forall i :: 0 <= i < 4 ==> signature[i] < 128 as char
    requires kind.signature == Text(signature) && ValidOem(oem) && length == HEADER_LEN + |rest| < TWO32
    ensures StartsAs(Header(kind, length, checksum, oem) + rest, signature, kind.revision, oem)
  {
    hide Header, Field, Text;
    var h := Header(kind, length, checksum, oem);
    HeaderLayout(kind, length, checksum, oem);
    FieldInFront(h, rest, 4, 4);
    FieldInFront(h, rest, 24, 4);
    FieldInFront(h, rest, 0, 4);
    FieldInFront(h, rest, 10, 6);
    FieldInFront(h, rest, 16, 8);
    FieldInFront(h, rest, 28, 8);
    assert (h + rest)[..4] == (h + rest)[0..4] && h[..4] == h[0..4];
    CreatorIs();
  }

  lemma CreatorIs()
    ensures CREATOR == Text("RVAT") + [0, 0, 0, 1]
  {
    var t := Text("RVAT");
    assert t[0] == 0x52 && t[1] == 0x56 && t[2] == 0x41 && t[3] == 0x54;
  }

  /** What the unchanging part of a header adds up to. */
  ghost function FixedSum(kind: Kind, oem: Oem): nat
    requires ValidOem(oem)
  {
    Sum(kind.signature) + kind.revision + Sum(oem.id) + Sum(oem.table) + Sum(Le(oem.revision, 4)) + Sum(CREATOR)
  }

  lemma HeaderSum(kind: Kind, length: nat, checksum: Byte, oem: Oem)
    requires |kind.signature| == 4 && ValidOem(oem)
    ensures Sum(Header(kind, length, checksum, oem)) == FixedSum(kind, oem) + Sum(Le(length, 4)) + checksum
  {
    hide Le;
    var a := kind.signature + Le(length, 4);
    var b := a + [kind.revision, checksum];
    var c := b + oem.id;
    var d := c + oem.table;
    SumConcat(kind.signature, Le(length, 4));
    SumConcat(a, [kind.revision, checksum]);
    SumAppend([kind.revision], checksum);
    assert [kind.revision] + [checksum] == [kind.revision, checksum];
    SumConcat(b, oem.id);
    SumConcat(c, oem.table);
    SumConcat(d, Le(oem.revision, 4));
    SumConcat(d + Le(oem.revision, 4), CREATOR);
  }

  // ----- Nodes -----

  /** Where the `i`th node of a table starts: behind the `base` bytes of header and the nodes before it. */
  function Offset(base: nat, nodes: seq<Bytes>, i: nat): nat
    requires i <= |nodes|
  {
    base + |Concat(nodes[..i])|
  }

  /** The bytes at a node's offset are the node's. */
  lemma NodeAt(header: Bytes, nodes: seq<Bytes>, i: nat)
    requires i < |nodes|
    ensures Holds(header + Concat(nodes), Offset(|header|, nodes, i), nodes[i])
  {
    hide Concat, Holds;
    ConcatAt(nodes, i);
    MiddleHolds(header, Concat(nodes[..i]), nodes[i], Concat(nodes[i + 1..]));
  }

  lemma ConcatAt(nodes: seq<Bytes>, i: nat)
    requires i < |nodes|
    ensures Concat(nodes) == Concat(nodes[..i]) + (nodes[i] + Concat(nodes[i + 1..]))
  {
    hide Concat;
    assert nodes == nodes[..i] + nodes[i..];
    ConcatSplit(nodes[..i], nodes[i..]);
    ConcatStep(nodes[i..]);
    assert nodes[i..][1..] == nodes[i + 1..];
  }

  lemma MiddleHolds(header: Bytes, before: Bytes, node: Bytes, after: Bytes)
    ensures Holds(header + (before + (node + after)), |header| + |before|, node)
  {
    assert header + (before + (node + after)) == (header + before) + node + after;
  }

  /** Later additions do not move a node. */
  lemma OffsetStable(base: nat, nodes: seq<Bytes>, more: seq<Bytes>, i: nat)
    requires i <= |nodes|
    ensures Offset(base, nodes + more, i) == Offset(base, nodes, i)
  {
    assert (nodes + more)[..i] == nodes[..i];
  }

  /** to_aml_bytes: the header, then node after node. */
  method EmitNodes(header: Bytes, nodes: seq<Bytes>) returns (r: Bytes)
    ensures r == header + Concat(nodes)
  {
    r := header;
    for i := 0 to |nodes|
      invariant r == header + Concat(nodes[..i])
    {
      ConcatAppend(nodes[..i], nodes[i]);
      assert nodes[..i + 1] == nodes[..i] + [nodes[i]];
      r := r + nodes[i];
    }
    assert nodes[..|nodes|] == nodes;
  }

  // ----- Reading a table back -----

  /** The node holds its own length, as far as it fits, in `width` bytes at `at`. */
  predicate Announces(node: Bytes, at: nat, width: nat) {
    0 < |node| && at + width <= |node| && node[at..at + width] == Le(|node|, width)
  }

  /** A node with its length in the two bytes after the first two; `len` is what the node's type claims it to be. */
  function NodeBytes(first: Bytes, len: nat, tail: Bytes): (r: Bytes)
    requires |first| == 2 && len == 4 + |tail|
    ensures |r| == len && Announces(r, 2, 2) && r[..2] == first && r[4..] == tail
  {
    first + Le(len, 2) + tail
  }

  function Dwords(vs: seq<nat>): (r: Bytes)
    ensures |r| == 4 * |vs|
  {
    if vs == [] then [] else Le(vs[0], 4) + Dwords(vs[1..])
  }

  /** Reads `n` consecutive double words. */
  function ReadDwords(b: Bytes, at: nat, n: nat): (r: seq<nat>)
    requires at + 4 * n <= |b|
    ensures |r| == n && forall k :: 0 <= k < n ==> r[k] == Field(b, at + 4 * k, 4)
  {
    seq(n, k requires 0 <= k < n => Field(b, at + 4 * k, 4))
  }

  lemma {:induction false} DwordAt(vs: seq<nat>, k: nat)
    requires k < |vs|
    ensures Dwords(vs)[4 * k..4 * k + 4] == Le(vs[k], 4)
  {
    hide Le;
    if k > 0 {
      DwordAt(vs[1..], k - 1);
      assert Dwords(vs)[4 * k..4 * k + 4] == Dwords(vs[1..])[4 * (k - 1)..4 * (k - 1) + 4];
    }
  }

  lemma DwordsRead(b: Bytes, at: nat, vs: seq<nat>)
    requires at + 4 * |vs| <= |b| && b[at..at + 4 * |vs|] == Dwords(vs)
    ensures ReadDwords(b, at, |vs|) == vs <==> forall k :: 0 <= k < |vs| ==> vs[k] < TWO32
  {
    hide Le, Dwords, Field, Holds;
    WholeHolds(b, at, Dwords(vs));
    forall k | 0 <= k < |vs| ensures Field(b, at + 4 * k, 4) == vs[k] <==> vs[k] < TWO32 {
      DwordReads(b, at, vs, k);
    }
  }

  lemma DwordReads(b: Bytes, at: nat, vs: seq<nat>, k: nat)
    requires Holds(b, at, Dwords(vs)) && at + 4 * |vs| <= |b| && k < |vs|
    ensures Field(b, at + 4 * k, 4) == vs[k] <==> vs[k] < TWO32
  {
    hide Le, Dwords, Field, Holds;
    DwordOf(vs, k);
    FieldHeld(b, at, Dwords(vs), 4 * k, 4);
  }

  lemma DwordOf(vs: seq<nat>, k: nat)
    requires k < |vs|
    ensures Field(Dwords(vs), 4 * k, 4) == vs[k] <==> vs[k] < TWO32
  {
    hide Le, Dwords, Field;
    Powers();
    DwordAt(vs, k);
    FieldReadsIff(Dwords(vs), 4 * k, 4, vs[k]);
  }

  // ----- Handles -----

  /** `handles[i]` is where node `i` starts. */
  ghost predicate Handles(base: nat, nodes: seq<Bytes>, handles: seq<nat>) {
    |handles| == |nodes| && forall i :: 0 <= i < |nodes| ==> handles[i] == Offset(base, nodes, i)
  }

  /** An addition leaves all handles good and gives one more: the end of the table so far. */
  lemma HandlesGrow(base: nat, nodes: seq<Bytes>, handles: seq<nat>, node: Bytes)
    requires Handles(base, nodes, handles)
    ensures Handles(base, nodes + [node], handles + [base + |Concat(nodes)|])
  {
    hide Concat, Offset;
    forall i | 0 <= i < |nodes| ensures Offset(base, nodes + [node], i) == handles[i] {
      OffsetStable(base, nodes, [node], i);
    }
    OffsetOfEnd(base, nodes);
    OffsetStable(base, nodes, [node], |nodes|);
  }

  lemma OffsetOfEnd(base: nat, nodes: seq<Bytes>)
    ensures Offset(base, nodes, |nodes|) == base + |Concat(nodes)|
  {
    assert nodes[..|nodes|] == nodes;
  }

  /** The table has the node at this place. */
  lemma HandleHolds(header: Bytes, nodes: seq<Bytes>, handles: seq<nat>, j: nat)
    requires Handles(|header|, nodes, handles) && j < |nodes|
    ensures Holds(header + Concat(nodes), handles[j], nodes[j])
  {
    hide Concat, Offset, Holds;
    NodeAt(header, nodes, j);
  }

  lemma HeldInside(b: Bytes, at: nat, part: Bytes)
    requires Holds(b, at, part)
    ensures at + |part| <= |b|
  {
  }

  /** A reader who follows a handle stored in one node arrives at the node it was issued for. */
  lemma FollowHandle(header: Bytes, nodes: seq<Bytes>, handles: seq<nat>, i: nat, at: nat, width: nat, j: nat)
    requires Handles(|header|, nodes, handles) && i < |nodes| && j < |nodes|
    requires at + width <= |nodes[i]| && nodes[i][at..at + width] == Le(handles[j], width)
    requires |header + Concat(nodes)| <= Pow256(width) && 0 < |nodes[j]|
    ensures var table := header + Concat(nodes);
            && handles[i] + at + width <= |table|
            && Holds(table, Field(table, handles[i] + at, width), nodes[j])
  {
    hide Concat, Le, Offset, Holds, Field;
    var table := header + Concat(nodes);
    HandleHolds(header, nodes, handles, i);
    HandleHolds(header, nodes, handles, j);
    PartHolds(table, handles[i], nodes[i], at, at + width);
    HeldField(table, handles[i] + at, width, handles[j]);
    HeldInside(table, handles[j], nodes[j]);
  }

  /** No more nodes than bytes. */
  lemma {:induction false} NodesFit(nodes: seq<Bytes>, at: nat, width: nat)
    requires AllAnnounce(nodes, at, width)
    ensures |nodes| <= |Concat(nodes)|
  {
    if nodes != [] { NodesFit(nodes[1..], at, width); }
  }

  predicate AllAnnounce(nodes: seq<Bytes>, at: nat, width: nat) {
    forall i :: 0 <= i < |nodes| ==> Announces(nodes[i], at, width)
  }

  /** Splits a string of nodes by their length fields. */
  function Walk(b: Bytes, at: nat, width: nat): Option<seq<Bytes>>
    decreases |b|
  {
    if b == [] then Some([])
    else if |b| < at + width then None
    else
      var len := FromLe(b[at..at + width]);
      if len == 0 || len > |b| then None
      else
        match Walk(b[len..], at, width)
        case None => None
        case Some(nodes) => Some([b[..len]] + nodes)
  }

  /**
  A reader that only looks at length fields finds the very nodes that were added, exactly when every node's
  length fits its field.
  */
  lemma {:induction false} WalkExact(nodes: seq<Bytes>, at: nat, width: nat)
    requires AllAnnounce(nodes, at, width)
    ensures Walk(Concat(nodes), at, width) == Some(nodes) <==>
            forall i :: 0 <= i < |nodes| ==> |nodes[i]| < Pow256(width)
  {
    if nodes != [] {
      var b, node := Concat(nodes), nodes[0];
      assert Announces(node, at, width);
      assert b == node + Concat(nodes[1..]);
      assert b[at..at + width] == node[at..at + width];
      LeRoundTrip(|node|, width);
      assert nodes == [node] + nodes[1..];
      if |node| < Pow256(width) {
        Remainder(|node|, Pow256(width), 0, |node|);
        WalkExact(nodes[1..], at, width);
        assert b[|node|..] == Concat(nodes[1..]) && b[..|node|] == node;
      } else {
        assert |node| % Pow256(width) < Pow256(width);
      }
    }
  }
}
