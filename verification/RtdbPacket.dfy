/**
 Beacons as packets: a sequence of typed chunks with known lengths. For every non-empty list of elements the
 packet holds a header with the type and the total length, followed by the elements.
 */
module RtdbPacket {
  import opened Wrappers
  import opened RtdbTypes

  datatype Chunk<D> = Header(kind: IEType, len: nat) | Element(ie: IE<D>) {
    function Len(): nat {
      match this
      case Header(_, _) => HEADER_LEN
      case Element(ie) => ie.Len()
    }
  }

  function ByteLen<D>(p: seq<Chunk<D>>): nat {
    if p == [] then 0 else p[0].Len() + ByteLen(p[1..])
  }

  datatype ParseError = EmptyPacket | WrongChunk | SectionTooLong | LeftOver

  // Lengths in headers and the reader's byte counter have 16 bits
  const LEN_MODULUS := 0x1_0000

  function Elements<D>(list: seq<IE<D>>): (p: seq<Chunk<D>>)
    ensures |p| == |list|
  {
    if list == [] then [] else [Element(list[0])] + Elements(list[1..])
  }

  function Section<D>(kind: IEType, list: seq<IE<D>>): seq<Chunk<D>> {
    if list == [] then [] else [Header(kind, TotalLen(list) % LEN_MODULUS)] + Elements(list)
  }

  function Sections<D>(kinds: seq<IEType>, lists: seq<seq<IE<D>>>): seq<Chunk<D>>
    requires |kinds| == |lists|
  {
    if kinds == [] then [] else Section(kinds[0], lists[0]) + Sections(kinds[1..], lists[1..])
  }

  // The order in which a beacon carries its sections
  const ORDER := [CREATE_VARIABLES, UPDATES, SUMMARIES, REQUEST_VAR_CREATES, REQUEST_VAR_UPDATES]

  datatype Lists<D> = Lists(
    creates: seq<IE<D>>, updates: seq<IE<D>>, summaries: seq<IE<D>>, createReqs: seq<IE<D>>, updateReqs: seq<IE<D>>)
  {
    function InOrder(): (r: seq<seq<IE<D>>>)
      ensures |r| == |ORDER|
    {
      [creates, updates, summaries, createReqs, updateReqs]
    }

    ghost predicate Typed() {
      forall i :: 0 <= i < |ORDER| ==> AllOf(ORDER[i], InOrder()[i])
    }
  }

  ghost predicate AllOf<D>(kind: IEType, list: seq<IE<D>>) {
    forall i :: 0 <= i < |list| ==> list[i].Type() == kind
  }

  function Write<D>(l: Lists<D>): seq<Chunk<D>> {
    Sections(ORDER, l.InOrder())
  }

  // ---------- Reading ----------

  // Pops elements of one kind until the announced length has been read; at least one is popped
  function ReadElements<D>(kind: IEType, p: seq<Chunk<D>>, read: nat, expected: nat)
    : Result<(seq<IE<D>>, seq<Chunk<D>>), ParseError>
  {
    if p == [] then Err(EmptyPacket)
    else if !(p[0].Element? && p[0].ie.Type() == kind) then Err(WrongChunk)
    else
      var read' := (read + p[0].Len()) % LEN_MODULUS;
      if read' < expected then
        match ReadElements(kind, p[1..], read', expected)
        case Err(e) => Err(e)
        case Ok(r) => Ok(([p[0].ie] + r.0, r.1))
      else
        Ok(([p[0].ie], p[1..]))
  }

  // Where the reader is: the chunks that follow the header read last, the length of the packet before that
  // header was popped, and what the header says
  datatype Cursor<D> = Cursor(rest: seq<Chunk<D>>, total: nat, kind: IEType, len: nat)

  function PopHeader<D>(p: seq<Chunk<D>>): Result<Cursor<D>, ParseError> {
    if p == [] then Err(EmptyPacket)
    else if !p[0].Header? then Err(WrongChunk)
    else Ok(Cursor(p[1..], ByteLen(p), p[0].kind, p[0].len))
  }

  function ReadSection<D>(kind: IEType, c: Cursor<D>): Result<(seq<IE<D>>, Cursor<D>), ParseError> {
    if c.kind != kind then Ok(([], c))
    else if c.len > c.total then Err(SectionTooLong)
    else
      match ReadElements(kind, c.rest, 0, c.len)
      case Err(e) => Err(e)
      case Ok(r) =>
        if ByteLen(r.1) > 0 then
          match PopHeader(r.1)
          case Err(e) => Err(e)
          case Ok(c') => Ok((r.0, c'))
        else
          Ok((r.0, c.(rest := r.1, total := 0)))
  }

  function ReadSections<D>(kinds: seq<IEType>, c: Cursor<D>): (r: Result<(seq<seq<IE<D>>>, Cursor<D>), ParseError>)
    ensures r.Ok? ==> |r.value.0| == |kinds|
  {
    if kinds == [] then Ok(([], c))
    else
      match ReadSection(kinds[0], c)
      case Err(e) => Err(e)
      case Ok(first) =>
        match ReadSections(kinds[1..], first.1)
        case Err(e) => Err(e)
        case Ok(others) => Ok(([first.0] + others.0, others.1))
  }

  function Parse<D>(p: seq<Chunk<D>>): Result<Lists<D>, ParseError> {
    match PopHeader(p)
    case Err(e) => Err(e)
    case Ok(c) =>
      match ReadSections(ORDER, c)
      case Err(e) => Err(e)
      case Ok(r) =>
        if r.1.total > 0 then Err(LeftOver)
        else Ok(Lists(r.0[0], r.0[1], r.0[2], r.0[3], r.0[4]))
  }

  // The do-while loop of the program
  method ReadElementsLoop<D>(kind: IEType, p: seq<Chunk<D>>, expected: nat)
    returns (r: Result<(seq<IE<D>>, seq<Chunk<D>>), ParseError>)
    ensures r == ReadElements(kind, p, 0, expected)
  {
    var read: nat := 0;
    var list := [];
    var rest := p;
    ghost var whole := ReadElements(kind, p, 0, expected);
    assert whole.Ok? ==> [] + whole.value.0 == whole.value.0;
    while true
      invariant read < LEN_MODULUS
      invariant ReadElements(kind, p, 0, expected) ==
                match ReadElements(kind, rest, read, expected)
                case Err(e) => Err(e)
                case Ok(x) => Ok((list + x.0, x.1))
      decreases |rest|
    {
      if rest == [] {
        return Err(EmptyPacket);
      }
      if !(rest[0].Element? && rest[0].ie.Type() == kind) {
        return Err(WrongChunk);
      }
      read := (read + rest[0].Len()) % LEN_MODULUS;
      ghost var soFar := list;
      ghost var tail := ReadElements(kind, rest[1..], read, expected);
      list := list + [rest[0].ie];
      if tail.Ok? {
        assert soFar + ([rest[0].ie] + tail.value.0) == list + tail.value.0;
      }
      rest := rest[1..];
      if !(read < expected) {
        return Ok((list, rest));
      }
    }
  }

  // What is read as one kind of section has elements of that kind only
  lemma {:induction false} ReadElementsTyped<D>(kind: IEType, p: seq<Chunk<D>>, read: nat, expected: nat)
    requires ReadElements(kind, p, read, expected).Ok?
    ensures AllOf(kind, ReadElements(kind, p, read, expected).value.0)
  {
    var read' := (read + p[0].Len()) % LEN_MODULUS;
    if read' < expected {
      ReadElementsTyped(kind, p[1..], read', expected);
    }
  }

  lemma {:induction false} ReadSectionsTyped<D>(kinds: seq<IEType>, c: Cursor<D>)
    requires ReadSections(kinds, c).Ok?
    ensures forall i :: 0 <= i < |kinds| ==> AllOf(kinds[i], ReadSections(kinds, c).value.0[i])
  {
    if kinds != [] {
      if c.kind == kinds[0] {
        ReadElementsTyped(kinds[0], c.rest, 0, c.len);
      }
      var first := ReadSection(kinds[0], c).value;
      ReadSectionsTyped(kinds[1..], first.1);
      var others := ReadSections(kinds[1..], first.1).value.0;
      forall i | 0 <= i < |kinds| ensures AllOf(kinds[i], ([first.0] + others)[i]) {
        if i > 0 {
          assert AllOf(kinds[1..][i - 1], others[i - 1]);
        }
      }
    }
  }

  method ReadSectionAt<D>(kind: IEType, c: Cursor<D>) returns (r: Result<(seq<IE<D>>, Cursor<D>), ParseError>)
    ensures r == ReadSection(kind, c)
  {
    hide ReadElements;
    if c.kind != kind {
      return Ok(([], c));
    }
    if c.len > c.total {
      return Err(SectionTooLong);
    }
    var read := ReadElementsLoop(kind, c.rest, c.len);
    if read.Err? {
      return Err(read.error);
    }
    var total := ByteLen(read.value.1);
    if total > 0 {
      var next := PopHeader(read.value.1);
      if next.Err? {
        return Err(next.error);
      }
      r := Ok((read.value.0, next.value));
    } else {
      r := Ok((read.value.0, c.(rest := read.value.1, total := 0)));
    }
  }

  // The outcome of reading the remaining sections when some have been read already
  ghost function Resume<D>(lists: seq<seq<IE<D>>>, kinds: seq<IEType>, c: Cursor<D>)
    : Result<(seq<seq<IE<D>>>, Cursor<D>), ParseError>
  {
    match ReadSections(kinds, c)
    case Err(e) => Err(e)
    case Ok(x) => Ok((lists + x.0, x.1))
  }

  lemma ResumeStep<D>(lists: seq<seq<IE<D>>>, kinds: seq<IEType>, c: Cursor<D>)
    requires kinds != []
    ensures match ReadSection(kinds[0], c)
            case Err(e) => Resume(lists, kinds, c) == Err(e)
            case Ok(x) => Resume(lists, kinds, c) == Resume(lists + [x.0], kinds[1..], x.1)
  {
    hide ReadSection;
    match ReadSection(kinds[0], c)
    case Err(e) =>
    case Ok(x) =>
      var others := ReadSections(kinds[1..], x.1);
      if others.Ok? {
        assert lists + ([x.0] + others.value.0) == (lists + [x.0]) + others.value.0;
      }
  }

  lemma ResumeEnds<D>(lists: seq<seq<IE<D>>>, kinds: seq<IEType>, c: Cursor<D>)
    ensures Resume([], kinds, c) == ReadSections(kinds, c)
    ensures Resume(lists, [], c) == Ok((lists, c))
  {
    var r := ReadSections(kinds, c);
    assert r.Ok? ==> [] + r.value.0 == r.value.0;
    assert lists + [] == lists;
  }

  // Taking a packet apart, section by section in their fixed order
  method ParseLoop<D>(p: seq<Chunk<D>>) returns (r: Result<Lists<D>, ParseError>)
    ensures r == Parse(p)
  {
    hide ReadSections, ReadSection, Resume;
    var header := PopHeader(p);
    if header.Err? {
      return Err(header.error);
    }
    var c := header.value;
    var lists: seq<seq<IE<D>>> := [];
    ghost var whole := ReadSections(ORDER, c);
    ResumeEnds(lists, ORDER, c);
    assert ORDER[0..] == ORDER;
    for i := 0 to |ORDER|
      invariant |lists| == i
      invariant whole == Resume(lists, ORDER[i..], c)
    {
      assert ORDER[i..][0] == ORDER[i] && ORDER[i..][1..] == ORDER[i + 1..];
      ResumeStep(lists, ORDER[i..], c);
      var section := ReadSectionAt(ORDER[i], c);
      if section.Err? {
        return Err(section.error);
      }
      lists := lists + [section.value.0];
      c := section.value.1;
    }
    assert ORDER[|ORDER|..] == [];
    ResumeEnds(lists, [], c);
    if c.total > 0 {
      return Err(LeftOver);
    }
    r := Ok(Lists(lists[0], lists[1], lists[2], lists[3], lists[4]));
  }

  // ---------- Reading undoes writing ----------

  lemma {:induction false} ByteLenConcat<D>(a: seq<Chunk<D>>, b: seq<Chunk<D>>)
    ensures ByteLen(a + b) == ByteLen(a) + ByteLen(b)
  {
    if a == [] {
      assert a + b == b;
    } else {
      ByteLenConcat(a[1..], b);
      assert (a + b)[1..] == a[1..] + b;
    }
  }

  lemma {:induction false} ByteLenElements<D>(list: seq<IE<D>>)
    ensures ByteLen(Elements(list)) == TotalLen(list)
  {
    if list != [] {
      ByteLenElements(list[1..]);
      assert Elements(list)[1..] == Elements(list[1..]);
    }
  }

  lemma ByteLenSection<D>(kind: IEType, list: seq<IE<D>>)
    ensures ByteLen(Section(kind, list)) == if list == [] then 0 else HEADER_LEN + TotalLen(list)
  {
    if list != [] {
      ByteLenElements(list);
      assert Section(kind, list)[1..] == Elements(list);
    }
  }

  function SectionLen<D>(list: seq<IE<D>>): nat {
    if list == [] then 0 else HEADER_LEN + TotalLen(list)
  }

  lemma ByteLenWrite<D>(l: Lists<D>)
    ensures ByteLen(Write(l)) == SectionLen(l.creates) + SectionLen(l.updates) + SectionLen(l.summaries)
                                 + SectionLen(l.createReqs) + SectionLen(l.updateReqs)
  {
    hide ByteLen, Section, SectionLen;
    var s := l.InOrder();
    SectionsStep(ORDER, s);
    SectionsStep(ORDER[1..], s[1..]);
    SectionsStep(ORDER[1..][1..], s[1..][1..]);
    SectionsStep(ORDER[1..][1..][1..], s[1..][1..][1..]);
    SectionsStep(ORDER[1..][1..][1..][1..], s[1..][1..][1..][1..]);
    NothingLeft<D>(ORDER[1..][1..][1..][1..][1..], s[1..][1..][1..][1..][1..]);
  }

  lemma SectionsOfFive<D>(l: Lists<D>)
    ensures Write(l) ==
            [] + Section(CREATE_VARIABLES, l.creates) + Section(UPDATES, l.updates) + Section(SUMMARIES, l.summaries)
            + Section(REQUEST_VAR_CREATES, l.createReqs) + Section(REQUEST_VAR_UPDATES, l.updateReqs)
  {
    hide Section;
    var s := l.InOrder();
    assert Sections(ORDER, s) == Section(ORDER[0], s[0]) + Sections(ORDER[1..], s[1..]);
    assert Sections(ORDER[1..], s[1..]) == Section(ORDER[1], s[1]) + Sections(ORDER[2..], s[2..]) by {
      assert ORDER[1..][1..] == ORDER[2..] && s[1..][1..] == s[2..];
    }
    assert Sections(ORDER[2..], s[2..]) == Section(ORDER[2], s[2]) + Sections(ORDER[3..], s[3..]) by {
      assert ORDER[2..][1..] == ORDER[3..] && s[2..][1..] == s[3..];
    }
    assert Sections(ORDER[3..], s[3..]) == Section(ORDER[3], s[3]) + Sections(ORDER[4..], s[4..]) by {
      assert ORDER[3..][1..] == ORDER[4..] && s[3..][1..] == s[4..];
    }
    assert Sections(ORDER[4..], s[4..]) == Section(ORDER[4], s[4]) + Sections<D>([], []) by {
      assert ORDER[4..][1..] == [] && s[4..][1..] == [];
    }
  }

  lemma NothingLeft<D>(kinds: seq<IEType>, lists: seq<seq<IE<D>>>)
    requires kinds == [] && lists == []
    ensures ByteLen(Sections(kinds, lists)) == 0
  {
  }

  lemma SectionsStep<D>(kinds: seq<IEType>, lists: seq<seq<IE<D>>>)
    requires |kinds| == |lists| > 0
    ensures ByteLen(Sections(kinds, lists)) == SectionLen(lists[0]) + ByteLen(Sections(kinds[1..], lists[1..]))
  {
    ByteLenSection(kinds[0], lists[0]);
    ByteLenConcat(Section(kinds[0], lists[0]), Sections(kinds[1..], lists[1..]));
  }

  lemma {:induction false} ReadElementsBack<D>(kind: IEType, list: seq<IE<D>>, rest: seq<Chunk<D>>, read: nat)
    requires list != [] && AllOf(kind, list) && read + TotalLen(list) < LEN_MODULUS
    ensures ReadElements(kind, Elements(list) + rest, read, read + TotalLen(list)) == Ok((list, rest))
  {
    hide Elements, TotalLen, ReadElements;
    var read' := read + list[0].Len();
    TotalLenFirst(list);
    ReadElementsStep(kind, list, rest, read, read + TotalLen(list));
    if |list| > 1 {
      TotalLenFirst(list[1..]);
      ReadElementsBack(kind, list[1..], rest, read');
      assert [list[0]] + list[1..] == list;
    } else {
      assert list[1..] == [] && list == [list[0]];
    }
  }

  lemma TotalLenFirst<D>(list: seq<IE<D>>)
    requires list != []
    ensures TotalLen(list) == list[0].Len() + TotalLen(list[1..]) && list[0].Len() > 0
    ensures |list| == 1 ==> TotalLen(list[1..]) == 0
  {
  }

  lemma ReadElementsStep<D>(kind: IEType, list: seq<IE<D>>, rest: seq<Chunk<D>>, read: nat, expected: nat)
    requires list != [] && AllOf(kind, list)
    ensures var read' := (read + list[0].Len()) % LEN_MODULUS;
            ReadElements(kind, Elements(list) + rest, read, expected) ==
              if read' >= expected then Ok(([list[0]], Elements(list[1..]) + rest))
              else
                match ReadElements(kind, Elements(list[1..]) + rest, read', expected)
                case Err(e) => Err(e)
                case Ok(r) => Ok(([list[0]] + r.0, r.1))
    ensures |list| == 1 ==> Elements(list[1..]) + rest == rest
  {
    var p := Elements(list) + rest;
    assert p[0] == Element(list[0]) && list[0].Type() == kind;
    assert p[1..] == Elements(list[1..]) + rest;
    if |list| == 1 {
      assert list[1..] == [] && Elements(list[1..]) == [];
    }
  }

  lemma {:induction false} SectionsStart<D>(kinds: seq<IEType>, lists: seq<seq<IE<D>>>)
    requires |kinds| == |lists| && Sections(kinds, lists) != []
    ensures Sections(kinds, lists)[0].Header? && Sections(kinds, lists)[0].kind in kinds
    ensures ByteLen(Sections(kinds, lists)) > 0
  {
    if lists[0] == [] {
      SectionsStart(kinds[1..], lists[1..]);
      assert Sections(kinds, lists) == Sections(kinds[1..], lists[1..]);
    }
  }

  ghost predicate Writable<D>(kinds: seq<IEType>, lists: seq<seq<IE<D>>>) {
    && |kinds| == |lists|
    && (forall i, j :: 0 <= i < j < |kinds| ==> kinds[i] != kinds[j])
    && (forall i :: 0 <= i < |kinds| ==> AllOf(kinds[i], lists[i]) && TotalLen(lists[i]) < LEN_MODULUS)
  }

  lemma {:induction false} ReadNothing<D>(kinds: seq<IEType>, lists: seq<seq<IE<D>>>, c: Cursor<D>)
    requires |kinds| == |lists| && Sections(kinds, lists) == [] && c.kind !in kinds
    ensures ReadSections(kinds, c) == Ok((lists, c))
  {
    if kinds != [] {
      assert lists[0] == [];
      ReadNothing(kinds[1..], lists[1..], c);
      assert [lists[0]] + lists[1..] == lists;
    }
  }

  lemma NoSection<D>(kind: IEType, c: Cursor<D>)
    ensures Section<D>(kind, []) == []
    ensures c.kind != kind ==> ReadSection(kind, c) == Ok(([], c))
  {
  }

  lemma ReadSectionBack<D>(kind: IEType, list: seq<IE<D>>, rest: seq<Chunk<D>>)
    requires list != [] && AllOf(kind, list) && TotalLen(list) < LEN_MODULUS
    requires rest != [] ==> rest[0].Header?
    ensures var p := Section(kind, list) + rest;
            p != [] && p[0] == Header(kind, TotalLen(list)) && PopHeader(p).Ok?
            && ReadSection(kind, PopHeader(p).value) ==
               Ok((list, if rest != [] then PopHeader(rest).value else Cursor([], 0, kind, TotalLen(list))))
  {
    hide ReadElements, Elements, TotalLen;
    var p := Section(kind, list) + rest;
    ByteLenSection(kind, list);
    ByteLenConcat(Section(kind, list), rest);
    assert p[1..] == Elements(list) + rest;
    ReadElementsBack(kind, list, rest, 0);
  }

  lemma {:induction false} ReadSectionsBack<D>(kinds: seq<IEType>, lists: seq<seq<IE<D>>>)
    requires Writable(kinds, lists) && Sections(kinds, lists) != []
    ensures var p := Sections(kinds, lists);
            PopHeader(p).Ok?
            && ReadSections(kinds, PopHeader(p).value).Ok?
            && ReadSections(kinds, PopHeader(p).value).value.0 == lists
            && ReadSections(kinds, PopHeader(p).value).value.1.total == 0
  {
    hide ReadSection, Section;
    var p := Sections(kinds, lists);
    var rest := Sections(kinds[1..], lists[1..]);
    SectionsStart(kinds, lists);
    if lists[0] == [] {
      NoSection(kinds[0], PopHeader(p).value);
      assert p == rest;
      SectionsStart(kinds[1..], lists[1..]);
      ReadSectionsBack(kinds[1..], lists[1..]);
      assert [lists[0]] + lists[1..] == lists;
    } else {
      if rest != [] {
        SectionsStart(kinds[1..], lists[1..]);
        ReadSectionsBack(kinds[1..], lists[1..]);
      } else {
        ReadNothing(kinds[1..], lists[1..], Cursor([], 0, kinds[0], TotalLen(lists[0])));
      }
      ReadSectionBack(kinds[0], lists[0], rest);
      assert [lists[0]] + lists[1..] == lists;
    }
  }

  ghost predicate Fits<D>(l: Lists<D>) {
    forall i :: 0 <= i < |ORDER| ==> TotalLen(l.InOrder()[i]) < LEN_MODULUS
  }

  // The header in front of each list says its kind and its exact length
  lemma HeadersAreExact<D>(l: Lists<D>, i: nat)
    requires Fits(l) && i < |ORDER| && l.InOrder()[i] != []
    ensures Header(ORDER[i], TotalLen(l.InOrder()[i])) in Write(l)
  {
    hide TotalLen, Elements;
    SectionsOfFive(l);
    assert Section(ORDER[i], l.InOrder()[i])[0] == Header(ORDER[i], TotalLen(l.InOrder()[i]));
    assert l.InOrder()[i] == match i
                             case 0 => l.creates
                             case 1 => l.updates
                             case 2 => l.summaries
                             case 3 => l.createReqs
                             case _ => l.updateReqs;
  }

  lemma {:induction false} NoSections<D>(kinds: seq<IEType>, lists: seq<seq<IE<D>>>)
    requires |kinds| == |lists|
    ensures Sections(kinds, lists) == [] <==> forall i :: 0 <= i < |lists| ==> lists[i] == []
  {
    if kinds != [] {
      NoSections(kinds[1..], lists[1..]);
      assert forall i :: 1 <= i < |lists| ==> lists[i] == lists[1..][i - 1];
    }
  }

  // Whatever five lists are written, not all of them empty, they are read back with nothing left over
  lemma ParseUndoesWrite<D>(l: Lists<D>)
    requires l.Typed() && Fits(l)
    ensures Parse(Write(l)) ==
            if l == Lists([], [], [], [], []) then Err(EmptyPacket) else Ok(l)
  {
    hide ReadSections, Sections;
    var lists := l.InOrder();
    NoSections(ORDER, lists);
    if Sections(ORDER, lists) == [] {
      assert lists[0] == lists[1] == lists[2] == lists[3] == lists[4] == [];
    } else {
      assert Writable(ORDER, lists);
      ReadSectionsBack(ORDER, lists);
    }
  }
}
