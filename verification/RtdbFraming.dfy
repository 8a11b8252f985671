/**
 Which packets are read, and as what: exactly those that consist of sections in their fixed order, each with a header whose
 length ends within the last of its elements.
 */
module RtdbFraming {
  import opened Wrappers
  import opened RtdbTypes
  import opened RtdbPacket

  // The announced length is reached by the last element and not before; it need not be the exact length
  ghost predicate Announces<D>(list: seq<IE<D>>, read: nat, len: nat) {
    && list != [] && len <= read + TotalLen(list)
    && (|list| > 1 ==> read + TotalLen(list[..|list| - 1]) < len)
  }

  // The packet starts with the elements of the list
  ghost predicate StartsWith<D>(p: seq<Chunk<D>>, list: seq<IE<D>>) {
    |list| <= |p| && forall i :: 0 <= i < |list| ==> p[i] == Element(list[i])
  }

  // The packet consists of sections with these elements, in this order; an empty section is left out
  ghost predicate Framed<D>(kinds: seq<IEType>, lists: seq<seq<IE<D>>>, p: seq<Chunk<D>>)
    requires |kinds| == |lists|
  {
    if kinds == [] then p == []
    else if lists[0] == [] then Framed(kinds[1..], lists[1..], p)
    else
      && p != [] && p[0].Header? && p[0].kind == kinds[0] && p[0].len <= ByteLen(p)
      && StartsWith(p[1..], lists[0]) && AllOf(kinds[0], lists[0]) && Announces(lists[0], 0, p[0].len)
      && Framed(kinds[1..], lists[1..], p[1..][|lists[0]|..])
  }

  lemma ByteLenFirst<D>(p: seq<Chunk<D>>)
    ensures p == [] <==> ByteLen(p) == 0
    ensures p != [] ==> ByteLen(p) == p[0].Len() + ByteLen(p[1..])
  {
  }

  lemma {:induction false} ByteLenFrom<D>(p: seq<Chunk<D>>, k: nat)
    requires k <= |p|
    ensures ByteLen(p[k..]) <= ByteLen(p)
  {
    if k > 0 {
      ByteLenFrom(p[1..], k - 1);
      assert p[k..] == p[1..][k - 1..];
    }
  }

  lemma AllFirst<D>(kind: IEType, list: seq<IE<D>>)
    requires list != []
    ensures AllOf(kind, list) <==> list[0].Type() == kind && AllOf(kind, list[1..])
  {
    assert forall i :: 1 <= i < |list| ==> list[i] == list[1..][i - 1];
  }

  lemma StartsFirst<D>(p: seq<Chunk<D>>, list: seq<IE<D>>)
    requires list != []
    ensures StartsWith(p, list) <==> p != [] && p[0] == Element(list[0]) && StartsWith(p[1..], list[1..])
  {
    assert forall i :: 1 <= i < |list| ==> list[i] == list[1..][i - 1];
    if p != [] {
      assert forall i :: 1 <= i < |p| ==> p[i] == p[1..][i - 1];
    }
  }

  lemma AnnouncesFirst<D>(list: seq<IE<D>>, read: nat, len: nat)
    requires list != []
    ensures Announces(list, read, len) <==>
            if |list| == 1 then len <= read + list[0].Len()
            else read + list[0].Len() < len && Announces(list[1..], read + list[0].Len(), len)
  {
    if |list| == 1 {
      assert list[1..] == [];
    } else {
      var rest := list[1..];
      assert list[..|list| - 1][1..] == rest[..|rest| - 1] && list[..|list| - 1][0] == list[0];
      if |list| == 2 {
        assert rest[..0] == [] && TotalLen(list[..1]) == list[0].Len();
      }
    }
  }

  // Elements are read up to the one that reaches the announced length
  lemma {:induction false} ElementsExactly<D>(kind: IEType, p: seq<Chunk<D>>, read: nat, len: nat, list: seq<IE<D>>)
    requires read + ByteLen(p) < LEN_MODULUS
    ensures var r := ReadElements(kind, p, read, len);
            && (r.Ok? ==> r.value.0 != [] && |r.value.0| <= |p| && r.value.1 == p[|r.value.0|..])
            && (r.Ok? && r.value.0 == list <==> StartsWith(p, list) && AllOf(kind, list) && Announces(list, read, len))
  {
    hide TotalLen, StartsWith, AllOf, Announces;
    ByteLenFirst(p);
    if list != [] {
      AllFirst(kind, list);
      StartsFirst(p, list);
      AnnouncesFirst(list, read, len);
    } else {
      NothingIsAnnounced<D>(read, len);
    }
    if p != [] && p[0].Element? && p[0].ie.Type() == kind {
      var read' := read + p[0].ie.Len();
      assert read' % LEN_MODULUS == read';
      if read' < len {
        ElementsExactly(kind, p[1..], read', len, if list == [] then [] else list[1..]);
        NothingIsAnnounced<D>(read', len);
      } else if list != [] && list[0] == p[0].ie {
        LongEnough(list, read, len);
        NothingFollows(kind, p[1..]);
        assert |list| == 1 ==> list[1..] == [];
      }
    }
  }

  lemma NothingIsAnnounced<D>(read: nat, len: nat)
    ensures !Announces<D>([], read, len)
  {
  }

  lemma NothingFollows<D>(kind: IEType, p: seq<Chunk<D>>)
    ensures StartsWith(p, []) && AllOf<D>(kind, [])
  {
  }

  lemma LongEnough<D>(list: seq<IE<D>>, read: nat, len: nat)
    requires list != [] && len <= read + list[0].Len()
    ensures Announces(list, read, len) <==> |list| == 1
  {
    AnnouncesFirst(list, read, len);
    if |list| == 1 {
      assert list == [list[0]];
    }
  }

  // ---------- Sections ----------

  // What a cursor has still to read; a cursor at the end keeps the kind it has read last
  ghost function Ahead<D>(c: Cursor<D>): seq<Chunk<D>> {
    if c.total == 0 then [] else [Header(c.kind, c.len)] + c.rest
  }

  ghost predicate CursorOk<D>(c: Cursor<D>) {
    c.total == ByteLen(Ahead(c)) < LEN_MODULUS
  }

  lemma AheadParts<D>(c: Cursor<D>)
    requires CursorOk(c) && c.total > 0
    ensures Ahead(c)[0] == Header(c.kind, c.len) && Ahead(c)[1..] == c.rest && ByteLen(c.rest) < c.total
  {
  }

  // A packet that begins with another header is not framed by these kinds
  lemma {:induction false} WrongStart<D>(kinds: seq<IEType>, lists: seq<seq<IE<D>>>, p: seq<Chunk<D>>)
    requires |kinds| == |lists| && Framed(kinds, lists, p) && p != []
    ensures p[0].Header? && p[0].kind in kinds
  {
    if lists[0] == [] {
      WrongStart(kinds[1..], lists[1..], p);
    }
  }

  ghost predicate DifferentKinds(kinds: seq<IEType>) {
    forall i, j :: 0 <= i < j < |kinds| ==> kinds[i] != kinds[j]
  }

  // The rest of a packet after a section gives the next cursor
  lemma NextCursor<D>(kind: IEType, c: Cursor<D>)
    requires CursorOk(c) && c.total > 0 && c.kind == kind
    ensures var e, r := ReadElements(kind, c.rest, 0, c.len), ReadSection(kind, c);
            && (r.Ok? ==> e.Ok? && c.len <= c.total && r.value.0 == e.value.0 && CursorOk(r.value.1)
                          && Ahead(r.value.1) == e.value.1 && (r.value.1.total == 0 ==> r.value.1.kind == kind))
            && (e.Ok? && c.len <= c.total && (e.value.1 == [] || e.value.1[0].Header?) ==> r.Ok?)
  {
    hide ReadElements;
    var e := ReadElements(kind, c.rest, 0, c.len);
    AheadParts(c);
    if e.Ok? {
      assert e.value.1 == [] || e.value.1 == [e.value.1[0]] + e.value.1[1..];
      ElementsExactly(kind, c.rest, 0, c.len, e.value.0);
      ByteLenFrom(c.rest, |e.value.0|);
      ByteLenFirst(e.value.1);
    }
  }

  // Whether all of a packet is read as these lists
  ghost predicate AllReadAs<D>(kinds: seq<IEType>, c: Cursor<D>, lists: seq<seq<IE<D>>>) {
    var r := ReadSections(kinds, c);
    r.Ok? && r.value.0 == lists && r.value.1.total == 0
  }

  lemma ReadFirstSection<D>(kinds: seq<IEType>, c: Cursor<D>, lists: seq<seq<IE<D>>>)
    requires kinds != [] && |kinds| == |lists|
    ensures AllReadAs(kinds, c, lists) <==>
            var r := ReadSection(kinds[0], c);
            r.Ok? && r.value.0 == lists[0] && AllReadAs(kinds[1..], r.value.1, lists[1..])
  {
    hide ReadSection;
    var r := ReadSection(kinds[0], c);
    if r.Ok? {
      var others := ReadSections(kinds[1..], r.value.1);
      if others.Ok? {
        assert [r.value.0] + others.value.0 == lists <==> r.value.0 == lists[0] && others.value.0 == lists[1..];
      }
    }
  }

  lemma FramedHere<D>(kinds: seq<IEType>, lists: seq<seq<IE<D>>>, c: Cursor<D>)
    requires kinds != [] && |kinds| == |lists| && CursorOk(c) && c.total > 0 && c.kind == kinds[0] && DifferentKinds(kinds)
    ensures Framed(kinds, lists, Ahead(c)) <==>
            var e := ReadElements(c.kind, c.rest, 0, c.len);
            e.Ok? && e.value.0 == lists[0] && c.len <= c.total && Framed(kinds[1..], lists[1..], e.value.1)
  {
    hide ReadElements, StartsWith, AllOf, Announces;
    AheadParts(c);
    ElementsExactly(c.kind, c.rest, 0, c.len, lists[0]);
    if lists[0] == [] && Framed(kinds[1..], lists[1..], Ahead(c)) {
      WrongStart(kinds[1..], lists[1..], Ahead(c));
    }
  }

  lemma {:induction false} SectionsExactly<D>(kinds: seq<IEType>, c: Cursor<D>, lists: seq<seq<IE<D>>>)
    requires |kinds| == |lists| && CursorOk(c) && DifferentKinds(kinds) && (c.total == 0 ==> c.kind !in kinds)
    ensures AllReadAs(kinds, c, lists) <==> Framed(kinds, lists, Ahead(c))
  {
    hide ReadElements, ReadSection, AllReadAs, CursorOk, Ahead;
    if kinds == [] {
      NothingToRead(c, lists);
    } else {
      ReadFirstSection(kinds, c, lists);
      if c.total > 0 && c.kind == kinds[0] {
        FramedHere(kinds, lists, c);
        NextCursor(c.kind, c);
        var e, r := ReadElements(c.kind, c.rest, 0, c.len), ReadSection(kinds[0], c);
        if r.Ok? {
          SectionsExactly(kinds[1..], r.value.1, lists[1..]);
        } else if e.Ok? && Framed(kinds[1..], lists[1..], e.value.1) && e.value.1 != [] {
          WrongStart(kinds[1..], lists[1..], e.value.1);
        }
      } else {
        OtherKind(kinds[0], c);
        SectionsExactly(kinds[1..], c, lists[1..]);
        if lists[0] != [] {
          NotFramed(kinds, lists, c);
        }
      }
    }
  }

  lemma NothingToRead<D>(c: Cursor<D>, lists: seq<seq<IE<D>>>)
    requires lists == []
    ensures AllReadAs([], c, lists) <==> Ahead(c) == []
  {
  }

  lemma OtherKind<D>(kind: IEType, c: Cursor<D>)
    requires c.kind != kind
    ensures ReadSection(kind, c) == Ok(([], c))
  {
  }

  lemma NotFramed<D>(kinds: seq<IEType>, lists: seq<seq<IE<D>>>, c: Cursor<D>)
    requires kinds != [] && |kinds| == |lists| && lists[0] != [] && c.kind != kinds[0]
    ensures !Framed(kinds, lists, Ahead(c))
  {
  }

  // A packet of less than 64 KiB is read as five lists if and only if it consists of their sections in the fixed order,
  // each with a header whose length is reached by its last element and not before
  lemma ParsesExactly<D>(p: seq<Chunk<D>>, l: Lists<D>)
    requires ByteLen(p) < LEN_MODULUS
    ensures Parse(p) == Ok(l) <==> p != [] && Framed(ORDER, l.InOrder(), p)
  {
    hide ReadSections, Framed, ByteLen;
    ByteLenFirst(p);
    if p != [] && p[0].Header? {
      var c := PopHeader(p).value;
      assert [p[0]] + p[1..] == p;
      assert Ahead(c) == p && CursorOk(c);
      SectionsExactly(ORDER, c, l.InOrder());
      var r := ReadSections(ORDER, c);
      if r.Ok? {
        var s := r.value.0;
        assert s == l.InOrder() <==> Lists(s[0], s[1], s[2], s[3], s[4]) == l;
      }
    } else if p != [] && Framed(ORDER, l.InOrder(), p) {
      WrongStart(ORDER, l.InOrder(), p);
    }
  }
}
