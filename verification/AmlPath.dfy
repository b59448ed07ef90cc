/** Names as text: `\_SB_.PCI0` and the like. */
module AmlPaths {
  import opened Basics
  import opened ByteStrings
  import opened AmlData

  const DOT: Byte := 0x2e

  function Split(s: Bytes): (r: seq<Bytes>)
    ensures r != []
  {
    if s == [] then [[]]
    else
      var rest := Split(s[1..]);
      if s[0] == DOT then [[]] + rest else [[s[0]] + rest[0]] + rest[1..]
  }

  function Join(parts: seq<Bytes>): Bytes
    requires parts != []
  {
    if |parts| == 1 then parts[0] else parts[0] + [DOT] + Join(parts[1..])
  }

  predicate NoDots(parts: seq<Bytes>) {
    forall i :: 0 <= i < |parts| ==> DOT !in parts[i]
  }

  lemma {:induction false} SplitSound(s: Bytes)
    ensures NoDots(Split(s)) && Join(Split(s)) == s
  {
    if s != [] {
      var rest := Split(s[1..]);
      SplitSound(s[1..]);
      var r := Split(s);
      if s[0] == DOT {
        assert r[1..] == rest;
      } else {
        assert r[1..] == rest[1..];
        assert r[0] == [s[0]] + rest[0];
      }
      assert [s[0]] + s[1..] == s;
    }
  }

  lemma {:induction false} JoinSplits(parts: seq<Bytes>)
    requires parts != [] && NoDots(parts)
    ensures Split(Join(parts)) == parts
    decreases |parts|, |parts[0]|
  {
    var s := Join(parts);
    if parts[0] != [] {
      var shorter := [parts[0][1..]] + parts[1..];
      JoinSplits(shorter);
      assert shorter[1..] == parts[1..];
      assert s[1..] == Join(shorter) && s[0] == parts[0][0];
      assert [s[0]] + shorter[0] == parts[0];
      assert parts == [parts[0]] + parts[1..];
    } else if |parts| > 1 {
      JoinSplits(parts[1..]);
      assert s == [DOT] + Join(parts[1..]);
      assert parts == [[]] + parts[1..];
    } else {
      assert parts == [[]];
    }
  }

  predicate FourEach(parts: seq<Bytes>) {
    forall i :: 0 <= i < |parts| ==> |parts[i]| == 4
  }

  /** Path::new; `None` where it panics. */
  method NewPath(name: Bytes) returns (r: Option<Path>)
    ensures r == PathOf(name)
  {
    var root := name != [] && name[0] == ROOT_CHAR;
    var parent := name != [] && name[0] == PARENT_CHAR;
    var offset := if root || parent then 1 else 0;
    var parts: seq<Bytes> := [];
    var all := Split(name[offset..]);
    assert name[0..] == name;
    for i := 0 to |all|
      invariant parts == all[..i] && FourEach(parts)
    {
      if |all[i]| != 4 {
        return None;
      }
      parts := parts + [all[i]];
    }
    assert all[..|all|] == all;
    r := Some(Path(root, parent, parts));
  }

  function PathOf(name: Bytes): Option<Path> {
    var root := name != [] && name[0] == ROOT_CHAR;
    var parent := name != [] && name[0] == PARENT_CHAR;
    var parts := Split(if root || parent then name[1..] else name);
    if FourEach(parts) then Some(Path(root, parent, parts)) else None
  }

  function Show(p: Path): Bytes
    requires p.parts != []
  {
    PathPrefix(p) + Join(p.parts)
  }

  /** Paths that a text can denote. */
  predicate Denoted(p: Path) {
    && p.parts != [] && FourEach(p.parts) && NoDots(p.parts) && !(p.root && p.parent)
    && (!p.root && !p.parent ==> p.parts[0][0] != ROOT_CHAR && p.parts[0][0] != PARENT_CHAR)
  }

  /** A text makes a path exactly when it is the text of that path. */
  lemma PathText(name: Bytes, p: Path)
    ensures PathOf(name) == Some(p) <==> Denoted(p) && name == Show(p)
  {
    var prefixed := name != [] && (name[0] == ROOT_CHAR || name[0] == PARENT_CHAR);
    var tail := if prefixed then name[1..] else name;
    if PathOf(name) == Some(p) {
      SplitSound(tail);
      assert name == PathPrefix(p) + tail;
      if !prefixed { FirstOfJoin(p.parts); }
    }
    if Denoted(p) && name == Show(p) {
      FirstOfJoin(p.parts);
      JoinSplits(p.parts);
      assert Show(p)[|PathPrefix(p)|..] == Join(p.parts);
      assert tail == Join(p.parts);
    }
  }

  lemma FirstOfJoin(parts: seq<Bytes>)
    requires parts != [] && FourEach(parts)
    ensures Join(parts) != [] && Join(parts)[0] == parts[0][0]
  {
  }

  /** Well-formed paths have a text. */
  lemma WellFormedDenoted(p: Path)
    requires WellFormedPath(p)
    ensures Denoted(p) && PathOf(Show(p)) == Some(p)
  {
    forall i | 0 <= i < |p.parts| ensures |p.parts[i]| == 4 && DOT !in p.parts[i] {
      assert NameSegment(p.parts[i]);
      forall k | 0 <= k < 4 ensures NameChar(p.parts[i][k]) {}
    }
    assert NameSegment(p.parts[0]);
    PathText(Show(p), p);
  }
}
