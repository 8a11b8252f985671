/**
 Node identifiers: six bytes, compared as the number they spell in network byte order.
 */
module NodeIdentifier {
  import opened Bytes

  const IDENTIFIER_SIZE := 6

  type NodeId = s: seq<Byte> | |s| == IDENTIFIER_SIZE witness [0, 0, 0, 0, 0, 0]

  function ToUint64(id: NodeId): (n: nat)
    ensures n < 0x1_0000_0000_0000
  {
    id[0] as int * 0x100_0000_0000 + id[1] as int * 0x1_0000_0000 + id[2] as int * 0x100_0000
    + id[3] as int * 0x1_0000 + id[4] as int * 0x100 + id[5]
  }

  // At the first byte where two identifiers differ
  ghost predicate SmallerAt(a: NodeId, b: NodeId, i: nat) {
    i < IDENTIFIER_SIZE && a[..i] == b[..i] && a[i] < b[i]
  }

  // The order is the lexicographic one, and it is total: two identifiers are either equal or ordered. So the
  // number can stand for the identifier as a search key.
  lemma OrderIsLexicographic(a: NodeId, b: NodeId)
    ensures ToUint64(a) < ToUint64(b) <==> exists i: nat :: SmallerAt(a, b, i)
    ensures ToUint64(a) == ToUint64(b) <==> a == b
  {
    if a != b {
      var i := FirstDifference(a, b);
      if a[i] < b[i] {
        SmallerIsLess(a, b, i);
        assert SmallerAt(a, b, i);
      } else {
        SmallerIsLess(b, a, i);
      }
    }
    forall i: nat | SmallerAt(a, b, i) ensures ToUint64(a) < ToUint64(b) {
      SmallerIsLess(a, b, i);
    }
  }

  lemma FirstDifference(a: NodeId, b: NodeId) returns (i: nat)
    requires a != b
    ensures i < IDENTIFIER_SIZE && a[..i] == b[..i] && a[i] != b[i]
  {
    i := 0;
    while i < IDENTIFIER_SIZE && a[i] == b[i]
      invariant i <= IDENTIFIER_SIZE && a[..i] == b[..i]
    {
      assert a[..i + 1] == a[..i] + [a[i]] && b[..i + 1] == b[..i] + [b[i]];
      i := i + 1;
    }
  }

  lemma SmallerIsLess(a: NodeId, b: NodeId, i: nat)
    requires SmallerAt(a, b, i)
    ensures ToUint64(a) < ToUint64(b)
  {
    assert forall j :: 0 <= j < i ==> a[j] == a[..i][j] == b[..i][j] == b[j];
  }
}
