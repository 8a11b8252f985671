/**
 Filling one section of a beacon from a queue.

 The program rotates the queue: it takes the front element, puts it back at the end when repetitions remain,
 and stops when it meets the first element it has put back. The specification is a plain walk over the queue
 as it was: how many elements are looked at, which of them are sent, and what the queue is afterwards.
 */
module RtdbPacking {
  import opened Wrappers
  import opened RtdbTypes

  // Elements that need no place in a beacon any more
  predicate Dead<D>(section: IEType, db: map<nat, Variable<D>>, ie: IE<D>) {
    if section == REQUEST_VAR_CREATES then ie.Id() in db else DropNonExistent(db, ie.Id())
  }

  // The test by which the program recognises an element it has put back
  predicate SameElement<D>(section: IEType, a: IE<D>, b: IE<D>) {
    a.Id() == b.Id() && (section == CREATE_VARIABLES || section == UPDATES ==> a.SeqNo() == b.SeqNo())
  }

  // How many elements of the queue are looked at: the walk passes dead elements and sends live ones until one
  // does not fit, or looks like the first one that was put back
  function Taken<D>(section: IEType, db: map<nat, Variable<D>>, q: seq<Queued<D>>, room: int,
                    first: Option<IE<D>>): (k: nat)
    ensures k <= |q|
  {
    if q == [] then 0
    else if Dead(section, db, q[0].ie) then 1 + Taken(section, db, q[1..], room, first)
    else if first.Some? && SameElement(section, first.value, q[0].ie) then 0
    else if q[0].ie.Len() > room then 0
    else
      1 + Taken(section, db, q[1..], room - q[0].ie.Len(),
                if first.None? && q[0].rep > 1 then Some(q[0].ie) else first)
  }

  function Live<D>(section: IEType, db: map<nat, Variable<D>>, q: seq<Queued<D>>): seq<Queued<D>>
  {
    if q == [] then []
    else (if Dead(section, db, q[0].ie) then [] else [q[0]]) + Live(section, db, q[1..])
  }

  function Elements<D>(q: seq<Queued<D>>): (r: seq<IE<D>>)
    ensures |r| == |q| && forall i :: 0 <= i < |q| ==> r[i] == q[i].ie
  {
    seq(|q|, i requires 0 <= i < |q| => q[i].ie)
  }

  // What is put back of the elements that were sent: those with repetitions left, one fewer each
  function Requeued<D>(q: seq<Queued<D>>): seq<Queued<D>>
  {
    if q == [] then []
    else (if q[0].rep - 1 > 0 then [Queued(q[0].ie, q[0].rep - 1)] else []) + Requeued(q[1..])
  }

  // The outcome of filling a section: the elements sent, the queue afterwards, and whether the walk was cut short
  datatype Filled<D> = Filled(sent: seq<IE<D>>, queue: seq<Queued<D>>, stop: bool)

  function Fill<D>(section: IEType, db: map<nat, Variable<D>>, q: seq<Queued<D>>, room: int): Filled<D> {
    var k := Taken(section, db, q, room, None);
    var live := Live(section, db, q[..k]);
    var rest := q[k..] + Requeued(live);
    Filled(Elements(live), rest, rest != [])
  }

  // A section that has no room at all, or follows one that was cut short, is skipped
  function Outcome<D>(section: IEType, db: map<nat, Variable<D>>, q: seq<Queued<D>>, size: int, maxSize: int,
                      stopIn: bool): Filled<D>
  {
    if !stopIn && (section == CREATE_VARIABLES || section == UPDATES ==> size < maxSize) then
      Fill(section, db, q, maxSize - size - HEADER_LEN)
    else
      Filled([], q, stopIn)
  }

  lemma SkippedWhenStopped<D>(section: IEType, db: map<nat, Variable<D>>, q: seq<Queued<D>>, size: int, maxSize: int)
    ensures Outcome(section, db, q, size, maxSize, true) == Filled([], q, true)
  {
  }

  function FirstOf<D>(q: seq<Queued<D>>): Option<IE<D>> {
    if q == [] then None else Some(q[0].ie)
  }

  lemma {:induction false} LiveSnoc<D>(section: IEType, db: map<nat, Variable<D>>, q: seq<Queued<D>>, x: Queued<D>)
    ensures Live(section, db, q + [x]) ==
            Live(section, db, q) + (if Dead(section, db, x.ie) then [] else [x])
  {
    if q == [] {
      assert q + [x] == [x];
      assert Live(section, db, [x][1..]) == [];
    } else {
      assert (q + [x])[1..] == q[1..] + [x];
      LiveSnoc(section, db, q[1..], x);
    }
  }

  lemma {:induction false} RequeuedSnoc<D>(q: seq<Queued<D>>, x: Queued<D>)
    ensures Requeued(q + [x]) == Requeued(q) + (if x.rep > 1 then [Queued(x.ie, x.rep - 1)] else [])
  {
    if q == [] {
      assert q + [x] == [x];
      assert Requeued([x][1..]) == [];
    } else {
      assert (q + [x])[1..] == q[1..] + [x];
      RequeuedSnoc(q[1..], x);
    }
  }

  // What has been put back, and sent, after k elements have been looked at
  ghost function PutBack<D>(section: IEType, db: map<nat, Variable<D>>, q: seq<Queued<D>>, k: nat): seq<Queued<D>>
    requires k <= |q|
  {
    Requeued(Live(section, db, q[..k]))
  }

  ghost function Sent<D>(section: IEType, db: map<nat, Variable<D>>, q: seq<Queued<D>>, k: nat): seq<IE<D>>
    requires k <= |q|
  {
    Elements(Live(section, db, q[..k]))
  }

  lemma OneMore<D>(section: IEType, db: map<nat, Variable<D>>, q: seq<Queued<D>>, k: nat)
    requires k < |q|
    ensures var x, dead := q[k], Dead(section, db, q[k].ie);
            && Sent(section, db, q, k + 1) == Sent(section, db, q, k) + (if dead then [] else [x.ie])
            && TotalLen(Sent(section, db, q, k + 1))
               == TotalLen(Sent(section, db, q, k)) + (if dead then 0 else x.ie.Len())
            && PutBack(section, db, q, k + 1)
               == PutBack(section, db, q, k) + (if !dead && x.rep > 1 then [Queued(x.ie, x.rep - 1)] else [])
  {
    var live := Live(section, db, q[..k]);
    assert q[..k + 1] == q[..k] + [q[k]];
    LiveSnoc(section, db, q[..k], q[k]);
    if !Dead(section, db, q[k].ie) {
      RequeuedSnoc(live, q[k]);
      assert Elements(live + [q[k]]) == Elements(live) + [q[k].ie];
      TotalLenConcat(Elements(live), [q[k].ie]);
      assert [q[k].ie][1..] == [];
    } else {
      assert live + [] == live;
    }
  }

  lemma RotateOnce<D>(a: seq<Queued<D>>, b: seq<Queued<D>>, x: Queued<D>)
    requires a != []
    ensures (a + b)[0] == a[0] && (a + b)[1..] == a[1..] + b
    ensures (a + b)[1..] + [x] == a[1..] + (b + [x])
  {
  }

  lemma PutBackLive<D>(section: IEType, db: map<nat, Variable<D>>, q: seq<Queued<D>>)
    ensures var r := PutBack(section, db, q, |q|); r != [] ==> !Dead(section, db, r[0].ie)
  {
    var live := Live(section, db, q[..|q|]);
    var r := Requeued(live);
    if r != [] {
      RequeuedMember(live, r[0]);
      LiveMember(section, db, q[..|q|], Queued(r[0].ie, r[0].rep + 1));
    }
  }

  // The loop of the program after k elements have been looked at
  ghost predicate Walk<D>(section: IEType, db: map<nat, Variable<D>>, q: seq<Queued<D>>, room: int, k: nat,
                          list: seq<IE<D>>, rest: seq<Queued<D>>, first: Option<IE<D>>)
  {
    && k <= |q|
    && rest == q[k..] + PutBack(section, db, q, k)
    && list == Sent(section, db, q, k)
    && first == FirstOf(PutBack(section, db, q, k))
    && Taken(section, db, q, room, None) == k + Taken(section, db, q[k..], room - TotalLen(list), first)
  }

  lemma WalkOnDead<D>(section: IEType, db: map<nat, Variable<D>>, q: seq<Queued<D>>, room: int, k: nat,
                      list: seq<IE<D>>, rest: seq<Queued<D>>, first: Option<IE<D>>)
    requires Walk(section, db, q, room, k, list, rest, first) && k < |q| && Dead(section, db, q[k].ie)
    ensures rest != [] && rest[0] == q[k]
    ensures Walk(section, db, q, room, k + 1, list, rest[1..], first)
  {
    hide TotalLen, Sent, PutBack;
    OneMore(section, db, q, k);
    RotateOnce(q[k..], PutBack(section, db, q, k), q[k]);
    assert q[k..][1..] == q[k + 1..];
    assert list + [] == list;
  }

  lemma WalkOnSend<D>(section: IEType, db: map<nat, Variable<D>>, q: seq<Queued<D>>, room: int, k: nat,
                      list: seq<IE<D>>, rest: seq<Queued<D>>, first: Option<IE<D>>)
    requires Walk(section, db, q, room, k, list, rest, first) && k < |q| && !Dead(section, db, q[k].ie)
    requires first.Some? ==> !SameElement(section, first.value, q[k].ie)
    requires TotalLen(list) + q[k].ie.Len() <= room
    ensures rest != [] && rest[0] == q[k]
    ensures var x := q[k];
            Walk(section, db, q, room, k + 1, list + [x.ie],
                 rest[1..] + (if x.rep > 1 then [Queued(x.ie, x.rep - 1)] else []),
                 if x.rep > 1 && first.None? then Some(x.ie) else first)
    ensures TotalLen(list + [q[k].ie]) == TotalLen(list) + q[k].ie.Len()
  {
    var x := q[k];
    OneMore(section, db, q, k);
    hide TotalLen, Sent, PutBack;
    RotateOnce(q[k..], PutBack(section, db, q, k), Queued(x.ie, x.rep - 1));
    assert q[k..][1..] == q[k + 1..];
  }

  lemma WalkOnStop<D>(section: IEType, db: map<nat, Variable<D>>, q: seq<Queued<D>>, room: int, k: nat,
                      list: seq<IE<D>>, rest: seq<Queued<D>>, first: Option<IE<D>>)
    requires Walk(section, db, q, room, k, list, rest, first) && k < |q| && !Dead(section, db, q[k].ie)
    requires (first.Some? && SameElement(section, first.value, q[k].ie)) || TotalLen(list) + q[k].ie.Len() > room
    ensures Taken(section, db, q, room, None) == k
  {
  }

  lemma WalkStart<D>(section: IEType, db: map<nat, Variable<D>>, q: seq<Queued<D>>, room: int)
    ensures Walk(section, db, q, room, 0, [], q, None)
  {
    assert q[..0] == [];
    assert q == q[0..] + PutBack(section, db, q, 0);
  }

  lemma WalkInRange<D>(section: IEType, db: map<nat, Variable<D>>, q: seq<Queued<D>>, room: int, k: nat,
                       list: seq<IE<D>>, rest: seq<Queued<D>>, first: Option<IE<D>>)
    requires Walk(section, db, q, room, k, list, rest, first)
    ensures k <= |q| && (k < |q| ==> rest != [] && rest[0] == q[k])
  {
  }

  lemma WalkDone<D>(section: IEType, db: map<nat, Variable<D>>, q: seq<Queued<D>>, room: int, k: nat,
                    list: seq<IE<D>>, rest: seq<Queued<D>>, first: Option<IE<D>>)
    requires Walk(section, db, q, room, k, list, rest, first) && k == Taken(section, db, q, room, None)
    ensures Filled(list, rest, rest != []) == Fill(section, db, q, room)
  {
  }

  lemma WalkOver<D>(section: IEType, db: map<nat, Variable<D>>, q: seq<Queued<D>>, room: int, list: seq<IE<D>>,
                    rest: seq<Queued<D>>, first: Option<IE<D>>)
    requires Walk(section, db, q, room, |q|, list, rest, first)
    ensures Taken(section, db, q, room, None) == |q|
    ensures rest != [] ==> !Dead(section, db, rest[0].ie) && first == Some(rest[0].ie)
  {
    PutBackLive(section, db, q);
    assert q[|q|..] == [];
  }

  // The loop of the program, for the queues of creates, updates and requests
  method FillSection<D>(section: IEType, db: map<nat, Variable<D>>, q: seq<Queued<D>>, size: int, maxSize: int,
                        stopIn: bool)
    returns (list: seq<IE<D>>, q': seq<Queued<D>>, typeLen: int, stop: bool)
    ensures Filled(list, q', stop) == Outcome(section, db, q, size, maxSize, stopIn)
    ensures typeLen == HEADER_LEN + TotalLen(list)
  {
    typeLen := HEADER_LEN;
    list := [];
    q' := q;
    stop := stopIn;
    var firstValid: Option<IE<D>> := None;
    ghost var k := 0;
    ghost var room := maxSize - size - HEADER_LEN;
    ghost var runs := !stopIn && (section == CREATE_VARIABLES || section == UPDATES ==> size < maxSize);
    WalkStart(section, db, q, room);
    hide Walk, Fill, Taken;
    while q' != [] && (section == CREATE_VARIABLES || section == UPDATES ==> size < maxSize) && !stop
      invariant Walk(section, db, q, room, k, list, q', firstValid)
      invariant typeLen == HEADER_LEN + TotalLen(list)
      invariant !runs ==> list == [] && q' == q && stop == stopIn
      invariant runs && stop ==> k == Taken(section, db, q, room, None) && q' != []
      decreases |q| - k, !stop
    {
      var req := q'[0];
      WalkInRange(section, db, q, room, k, list, q', firstValid);
      if k == |q| {
        WalkOver(section, db, q, room, list, q', firstValid);
      }
      if !Dead(section, db, req.ie) {
        var alreadyProcessed := firstValid.Some? && SameElement(section, firstValid.value, req.ie);
        if !alreadyProcessed {
          var addLen := req.ie.Len();
          if size + typeLen + addLen <= maxSize {
            WalkOnSend(section, db, q, room, k, list, q', firstValid);
            q' := q'[1..];
            list := list + [req.ie];
            typeLen := typeLen + addLen;
            assert q' + [] == q';
            if req.rep - 1 > 0 {
              q' := q' + [Queued(req.ie, req.rep - 1)];
              if firstValid.None? {
                firstValid := Some(req.ie);
              }
            }
            k := k + 1;
          } else {
            WalkOnStop(section, db, q, room, k, list, q', firstValid);
            stop := true;
          }
        } else {
          if k < |q| {
            WalkOnStop(section, db, q, room, k, list, q', firstValid);
          }
          stop := true;
        }
      } else {
        WalkOnDead(section, db, q, room, k, list, q', firstValid);
        q' := q'[1..];
        k := k + 1;
      }
    }
    if runs {
      if !stop {
        WalkInRange(section, db, q, room, k, list, q', firstValid);
        WalkOver(section, db, q, room, list, q', firstValid);
      }
      WalkDone(section, db, q, room, k, list, q', firstValid);
    }
  }

  // ---------- Properties of a filled section ----------

  lemma {:induction false} LiveMember<D>(section: IEType, db: map<nat, Variable<D>>, q: seq<Queued<D>>, x: Queued<D>)
    ensures x in Live(section, db, q) <==> x in q && !Dead(section, db, x.ie)
  {
    if q != [] {
      LiveMember(section, db, q[1..], x);
      assert x in q <==> x == q[0] || x in q[1..];
    }
  }

  lemma {:induction false} RequeuedMember<D>(q: seq<Queued<D>>, x: Queued<D>)
    ensures x in Requeued(q) <==> x.rep > 0 && Queued(x.ie, x.rep + 1) in q
  {
    if q != [] {
      RequeuedMember(q[1..], x);
      assert Queued(x.ie, x.rep + 1) in q <==> Queued(x.ie, x.rep + 1) == q[0] || Queued(x.ie, x.rep + 1) in q[1..];
    }
  }

  // One step of the walk, seen on what has been sent
  lemma SentStep<D>(section: IEType, db: map<nat, Variable<D>>, q: seq<Queued<D>>, k: nat)
    requires 0 < k <= |q|
    ensures TotalLen(Sent(section, db, q, k)) ==
            TotalLen(Sent(section, db, q[1..], k - 1)) + if Dead(section, db, q[0].ie) then 0 else q[0].ie.Len()
  {
    var live := Live(section, db, q[1..][..k - 1]);
    assert q[..k][1..] == q[1..][..k - 1];
    if !Dead(section, db, q[0].ie) {
      assert Elements([q[0]] + live) == [q[0].ie] + Elements(live);
      TotalLenConcat([q[0].ie], Elements(live));
      assert [q[0].ie][1..] == [];
    } else {
      assert Live(section, db, q[..k]) == live;
    }
  }

  // What was sent fits
  lemma {:induction false} TakenFits<D>(section: IEType, db: map<nat, Variable<D>>, q: seq<Queued<D>>, room: int,
                                        first: Option<IE<D>>)
    ensures var sent := TotalLen(Sent(section, db, q, Taken(section, db, q, room, first)));
            sent == 0 || sent <= room
  {
    hide TotalLen, Sent;
    var k := Taken(section, db, q, room, first);
    if k > 0 {
      SentStep(section, db, q, k);
      if Dead(section, db, q[0].ie) {
        TakenFits(section, db, q[1..], room, first);
      } else {
        TakenFits(section, db, q[1..], room - q[0].ie.Len(),
                  if first.None? && q[0].rep > 1 then Some(q[0].ie) else first);
      }
    } else {
      NothingSent(section, db, q);
    }
  }

  lemma NothingSent<D>(section: IEType, db: map<nat, Variable<D>>, q: seq<Queued<D>>)
    ensures Sent(section, db, q, 0) == [] && PutBack(section, db, q, 0) == []
    ensures TotalLen(Sent(section, db, q, 0)) == 0
  {
    assert q[..0] == [];
  }

  ghost predicate DistinctIds<D>(q: seq<Queued<D>>) {
    forall i, j :: 0 <= i < j < |q| ==> q[i].ie.Id() != q[j].ie.Id()
  }

  // With distinct variables in the queue the test for the first element put back never cuts the walk short:
  // the walk ends only at the end of the queue or at a live element that does not fit
  lemma {:induction false} TakenIsMaximal<D>(section: IEType, db: map<nat, Variable<D>>, q: seq<Queued<D>>, room: int,
                                             first: Option<IE<D>>)
    requires DistinctIds(q)
    requires first.Some? ==> forall i :: 0 <= i < |q| ==> q[i].ie.Id() != first.value.Id()
    ensures var k := Taken(section, db, q, room, first);
            k < |q| ==> !Dead(section, db, q[k].ie) && TotalLen(Sent(section, db, q, k)) + q[k].ie.Len() > room
  {
    hide TotalLen, Sent;
    var k := Taken(section, db, q, room, first);
    if k > 0 {
      SentStep(section, db, q, k);
      if Dead(section, db, q[0].ie) {
        TakenIsMaximal(section, db, q[1..], room, first);
      } else {
        TakenIsMaximal(section, db, q[1..], room - q[0].ie.Len(),
                       if first.None? && q[0].rep > 1 then Some(q[0].ie) else first);
      }
    } else {
      NothingSent(section, db, q);
    }
  }

  // Nor does it when no element has repetitions left after this beacon, whatever variables the queue names
  lemma {:induction false} TakenIsMaximalOnce<D>(section: IEType, db: map<nat, Variable<D>>, q: seq<Queued<D>>, room: int)
    requires forall i :: 0 <= i < |q| ==> q[i].rep <= 1
    ensures var k := Taken(section, db, q, room, None);
            k < |q| ==> !Dead(section, db, q[k].ie) && TotalLen(Sent(section, db, q, k)) + q[k].ie.Len() > room
  {
    hide TotalLen, Sent;
    var k := Taken(section, db, q, room, None);
    if k > 0 {
      SentStep(section, db, q, k);
      TakenIsMaximalOnce(section, db, q[1..], if Dead(section, db, q[0].ie) then room else room - q[0].ie.Len());
    } else {
      NothingSent(section, db, q);
    }
  }

  // ---------- Where the walk ends ----------

  // The first element that is put back: the first live one with repetitions left after this beacon
  ghost predicate FirstPutBack<D>(section: IEType, db: map<nat, Variable<D>>, q: seq<Queued<D>>, i: nat) {
    && i < |q| && !Dead(section, db, q[i].ie) && q[i].rep > 1
    && forall h :: 0 <= h < i ==> Dead(section, db, q[h].ie) || q[h].rep <= 1
  }

  // An element that looks like the first one put back before it
  ghost predicate Recognised<D>(section: IEType, db: map<nat, Variable<D>>, q: seq<Queued<D>>, j: nat)
    requires j < |q|
  {
    exists i :: 0 <= i < j && FirstPutBack(section, db, q, i)
                && q[i].ie.Id() == q[j].ie.Id()
                && (section == CREATE_VARIABLES || section == UPDATES ==> q[i].ie.SeqNo() == q[j].ie.SeqNo())
  }

  ghost predicate EndsAt<D>(section: IEType, db: map<nat, Variable<D>>, q: seq<Queued<D>>, room: int, j: nat)
    requires j < |q|
  {
    && !Dead(section, db, q[j].ie)
    && (Recognised(section, db, q, j) || TotalLen(Sent(section, db, q, j)) + q[j].ie.Len() > room)
  }

  lemma {:induction false} PutBackFirst<D>(section: IEType, db: map<nat, Variable<D>>, q: seq<Queued<D>>, k: nat)
    returns (i: nat)
    requires k <= |q|
    ensures var b := PutBack(section, db, q, k);
            if b == [] then forall h :: 0 <= h < k ==> Dead(section, db, q[h].ie) || q[h].rep <= 1
            else i < k && FirstPutBack(section, db, q, i) && b[0].ie == q[i].ie
  {
    hide PutBack, Sent, TotalLen, Dead;
    i := 0;
    if k == 0 {
      NothingSent(section, db, q);
    } else {
      i := PutBackFirst(section, db, q, k - 1);
      OneMore(section, db, q, k - 1);
      if PutBack(section, db, q, k - 1) == [] {
        i := k - 1;
      }
    }
  }

  lemma RecognisedExactly<D>(section: IEType, db: map<nat, Variable<D>>, q: seq<Queued<D>>, j: nat)
    requires j < |q|
    ensures Recognised(section, db, q, j) <==>
            var first := FirstOf(PutBack(section, db, q, j)); first.Some? && SameElement(section, first.value, q[j].ie)
  {
    hide PutBack, Dead;
    var i := PutBackFirst(section, db, q, j);
  }

  // While no element ends it, the walk goes on
  lemma {:induction false} WalkTo<D>(section: IEType, db: map<nat, Variable<D>>, q: seq<Queued<D>>, room: int, k: nat)
    requires k <= |q| && forall j :: 0 <= j < k ==> !EndsAt(section, db, q, room, j)
    ensures var b := PutBack(section, db, q, k);
            Walk(section, db, q, room, k, Sent(section, db, q, k), q[k..] + b, FirstOf(b))
  {
    hide Sent, PutBack, TotalLen, Dead, SameElement, Walk, Taken, Recognised;
    if k == 0 {
      NothingSent(section, db, q);
      WalkStart(section, db, q, room);
      assert q[0..] + [] == q;
    } else {
      var list, b := Sent(section, db, q, k - 1), PutBack(section, db, q, k - 1);
      var rest := q[k - 1..] + b;
      WalkTo(section, db, q, room, k - 1);
      assert !EndsAt(section, db, q, room, k - 1);
      RecognisedExactly(section, db, q, k - 1);
      if Dead(section, db, q[k - 1].ie) {
        WalkOnDead(section, db, q, room, k - 1, list, rest, FirstOf(b));
        WalkIs(section, db, q, room, k, list, rest[1..], FirstOf(b));
      } else {
        WalkOnSend(section, db, q, room, k - 1, list, rest, FirstOf(b));
        var x := q[k - 1];
        WalkIs(section, db, q, room, k, list + [x.ie], rest[1..] + (if x.rep > 1 then [Queued(x.ie, x.rep - 1)] else []),
               if x.rep > 1 && FirstOf(b).None? then Some(x.ie) else FirstOf(b));
      }
    }
  }

  lemma WalkIs<D>(section: IEType, db: map<nat, Variable<D>>, q: seq<Queued<D>>, room: int, k: nat,
                  list: seq<IE<D>>, rest: seq<Queued<D>>, first: Option<IE<D>>)
    requires Walk(section, db, q, room, k, list, rest, first)
    ensures k <= |q|
    ensures var b := PutBack(section, db, q, k);
            Walk(section, db, q, room, k, Sent(section, db, q, k), q[k..] + b, FirstOf(b))
  {
    hide Taken, Sent, PutBack;
  }

  lemma TakenWhere<D>(section: IEType, db: map<nat, Variable<D>>, q: seq<Queued<D>>, room: int, k: nat)
    requires k <= |q| && (forall j :: 0 <= j < k ==> !EndsAt(section, db, q, room, j))
    requires k < |q| ==> EndsAt(section, db, q, room, k)
    ensures Taken(section, db, q, room, None) == k
  {
    hide Sent, PutBack, TotalLen, Dead, SameElement, Walk, Taken, Recognised;
    var list, b := Sent(section, db, q, k), PutBack(section, db, q, k);
    WalkTo(section, db, q, room, k);
    if k < |q| {
      RecognisedExactly(section, db, q, k);
      WalkOnStop(section, db, q, room, k, list, q[k..] + b, FirstOf(b));
    } else {
      WalkOver(section, db, q, room, list, q[k..] + b, FirstOf(b));
    }
  }

  lemma {:induction false} FirstEnd<D>(section: IEType, db: map<nat, Variable<D>>, q: seq<Queued<D>>, room: int, from: nat)
    returns (k: nat)
    requires from <= |q| && forall j :: 0 <= j < from ==> !EndsAt(section, db, q, room, j)
    ensures k <= |q| && (forall j :: 0 <= j < k ==> !EndsAt(section, db, q, room, j))
    ensures k < |q| ==> EndsAt(section, db, q, room, k)
    decreases |q| - from
  {
    hide EndsAt;
    k := from;
    if from < |q| && !EndsAt(section, db, q, room, from) {
      k := FirstEnd(section, db, q, room, from + 1);
    }
  }

  // The walk ends at the first live element that does not fit, or that looks like the first element put back before it,
  // and nowhere else
  lemma TakenExactly<D>(section: IEType, db: map<nat, Variable<D>>, q: seq<Queued<D>>, room: int, k: nat)
    requires k <= |q|
    ensures Taken(section, db, q, room, None) == k <==>
            && (forall j :: 0 <= j < k ==> !EndsAt(section, db, q, room, j))
            && (k < |q| ==> EndsAt(section, db, q, room, k))
  {
    hide EndsAt, Taken;
    var e := FirstEnd(section, db, q, room, 0);
    TakenWhere(section, db, q, room, e);
  }

  // The same for a queue without dead elements, by places in the queue: place j names the variable of the first element
  // with repetitions left before it
  ghost predicate Repeats<D>(section: IEType, q: seq<Queued<D>>, j: nat)
    requires j < |q|
  {
    exists i :: 0 <= i < j && q[i].rep > 1 && (forall h :: 0 <= h < i ==> q[h].rep <= 1)
                && q[i].ie.Id() == q[j].ie.Id()
                && (section == CREATE_VARIABLES || section == UPDATES ==> q[i].ie.SeqNo() == q[j].ie.SeqNo())
  }

  // A queue up to and including place j fits behind size bytes, and place j does not repeat a variable
  ghost predicate GoesIn<D>(section: IEType, q: seq<Queued<D>>, size: int, max: int, j: nat)
    requires j < |q|
  {
    !Repeats(section, q, j) && size + HEADER_LEN + TotalLen(Elements(q[..j + 1])) <= max
  }

  // How much of a live queue is sent: all before the first element that does not fit or repeats a variable
  ghost predicate SentUpTo<D>(section: IEType, q: seq<Queued<D>>, size: int, max: int, k: nat) {
    && k <= |q|
    && (forall j :: 0 <= j < k ==> GoesIn(section, q, size, max, j))
    && (k < |q| ==> !GoesIn(section, q, size, max, k))
  }

  // What a section wants to send of a queue: requests for variables the database does not have, or else elements of
  // variables that it has and that are not being deleted
  function Wanted<D>(section: IEType, db: map<nat, Variable<D>>, q: seq<Queued<D>>): seq<IE<D>> {
    if q == [] then []
    else
      var id := q[0].ie.Id();
      var wanted := if section == REQUEST_VAR_CREATES then id !in db else id in db && !db[id].toBeDeleted;
      (if wanted then [q[0].ie] else []) + Wanted(section, db, q[1..])
  }

  lemma {:induction false} LiveIsWanted<D>(section: IEType, db: map<nat, Variable<D>>, q: seq<Queued<D>>)
    ensures Elements(Live(section, db, q)) == Wanted(section, db, q)
  {
    if q != [] {
      LiveIsWanted(section, db, q[1..]);
      var first, rest := if Dead(section, db, q[0].ie) then [] else [q[0]], Live(section, db, q[1..]);
      assert Elements(first + rest) == Elements(first) + Elements(rest);
    }
  }

  // Whatever the database and the queue, a section sends what is wanted of the elements it looks at, and takes exactly
  // these off the front of the queue
  lemma SendsWanted<D>(section: IEType, db: map<nat, Variable<D>>, q: seq<Queued<D>>, size: int, maxSize: int, stopIn: bool)
    returns (k: nat)
    ensures k <= |q|
    ensures var f := Outcome(section, db, q, size, maxSize, stopIn);
            && f.sent == Wanted(section, db, q[..k])
            && |q| - k <= |f.queue| && f.queue[..|q| - k] == q[k..]
  {
    hide Live, Taken, Requeued, Dead;
    var runs := !stopIn && (section == CREATE_VARIABLES || section == UPDATES ==> size < maxSize);
    k := if runs then Taken(section, db, q, maxSize - size - HEADER_LEN, None) else 0;
    LiveIsWanted(section, db, q[..k]);
    assert k == 0 ==> q[..k] == [] && q[k..] == q;
  }

  lemma {:induction false} AllLive<D>(section: IEType, db: map<nat, Variable<D>>, q: seq<Queued<D>>)
    requires forall i :: 0 <= i < |q| ==> !Dead(section, db, q[i].ie)
    ensures Live(section, db, q) == q
  {
    if q != [] {
      AllLive(section, db, q[1..]);
    }
  }

  lemma LenUpTo<D>(q: seq<Queued<D>>, j: nat)
    requires j < |q|
    ensures TotalLen(Elements(q[..j + 1])) == TotalLen(Elements(q[..j])) + q[j].ie.Len()
  {
    assert Elements(q[..j + 1]) == Elements(q[..j]) + [q[j].ie];
    TotalLenConcat(Elements(q[..j]), [q[j].ie]);
    assert [q[j].ie][1..] == [];
  }

  lemma RepeatsAreRecognised<D>(section: IEType, db: map<nat, Variable<D>>, q: seq<Queued<D>>, j: nat)
    requires j < |q| && forall i :: 0 <= i < |q| ==> !Dead(section, db, q[i].ie)
    ensures Recognised(section, db, q, j) <==> Repeats(section, q, j)
  {
    hide Dead;
    if Repeats(section, q, j) {
      var i :| 0 <= i < j && q[i].rep > 1 && (forall h :: 0 <= h < i ==> q[h].rep <= 1)
               && q[i].ie.Id() == q[j].ie.Id()
               && (section == CREATE_VARIABLES || section == UPDATES ==> q[i].ie.SeqNo() == q[j].ie.SeqNo());
      assert FirstPutBack(section, db, q, i);
    }
  }

  lemma LiveEnds<D>(section: IEType, db: map<nat, Variable<D>>, q: seq<Queued<D>>, size: int, max: int, j: nat)
    requires j < |q| && forall i :: 0 <= i < |q| ==> !Dead(section, db, q[i].ie)
    ensures EndsAt(section, db, q, max - size - HEADER_LEN, j) <==> !GoesIn(section, q, size, max, j)
  {
    hide TotalLen, Dead, Live, Elements, Recognised, Repeats;
    LenUpTo(q, j);
    AllLive(section, db, q[..j]);
    RepeatsAreRecognised(section, db, q, j);
  }

  lemma TakenIsUpTo<D>(section: IEType, db: map<nat, Variable<D>>, q: seq<Queued<D>>, size: int, max: int)
    requires forall i :: 0 <= i < |q| ==> !Dead(section, db, q[i].ie)
    ensures SentUpTo(section, q, size, max, Taken(section, db, q, max - size - HEADER_LEN, None))
  {
    hide Dead, GoesIn, EndsAt, Taken;
    var room := max - size - HEADER_LEN;
    var k := Taken(section, db, q, room, None);
    TakenExactly(section, db, q, room, k);
    forall j | 0 <= j < |q| ensures EndsAt(section, db, q, room, j) <==> !GoesIn(section, q, size, max, j) {
      LiveEnds(section, db, q, size, max, j);
    }
  }

  // A section that is not skipped sends exactly this much of a queue of live elements
  lemma SentExactly<D>(section: IEType, db: map<nat, Variable<D>>, q: seq<Queued<D>>, size: int, max: int) returns (k: nat)
    requires forall i :: 0 <= i < |q| ==> !Dead(section, db, q[i].ie)
    ensures k <= |q| && SentUpTo(section, q, size, max, k)
    ensures Outcome(section, db, q, size, max, false).sent == Elements(q[..k])
    ensures Outcome(section, db, q, size, max, false).queue == q[k..] + Requeued(q[..k])
  {
    hide Dead, Repeats, Taken, Live;
    k := Taken(section, db, q, max - size - HEADER_LEN, None);
    TakenIsUpTo(section, db, q, size, max);
    AllLive(section, db, q[..k]);
    assert k > 0 ==> GoesIn(section, q, size, max, 0);
    assert k == 0 ==> q[..k] == [] && q[k..] == q;
  }

  // With distinct variables, none of them dropped, a section carries a prefix of its queue, and the first element it
  // leaves out did not fit
  lemma PrefixIsSent<D>(section: IEType, db: map<nat, Variable<D>>, q: seq<Queued<D>>, size: int, maxSize: int)
    returns (k: nat)
    requires DistinctIds(q) && forall i :: 0 <= i < |q| ==> !Dead(section, db, q[i].ie)
    ensures k <= |q|
    ensures var f := Outcome(section, db, q, size, maxSize, false);
            && f.sent == Elements(q[..k])
            && (k < |q| ==> size + HEADER_LEN + TotalLen(f.sent) + q[k].ie.Len() > maxSize)
  {
    hide TotalLen, Dead;
    var room := maxSize - size - HEADER_LEN;
    k := if section == CREATE_VARIABLES || section == UPDATES ==> size < maxSize then Taken(section, db, q, room, None) else 0;
    TakenIsMaximal(section, db, q, room, None);
    AllLive(section, db, q[..k]);
    NothingSent(section, db, q);
  }

  // ---------- What a queue keeps ----------

  ghost function Ies<D>(q: seq<Queued<D>>): set<IE<D>> {
    set i | 0 <= i < |q| :: q[i].ie
  }

  lemma RotateDistinct<D>(a: seq<Queued<D>>, b: seq<Queued<D>>, x: seq<Queued<D>>)
    requires a != [] && DistinctIds(a + b)
    requires x == [] || (|x| == 1 && x[0].ie == a[0].ie)
    ensures DistinctIds(a[1..] + (b + x))
    ensures Ies(a[1..] + (b + x)) <= Ies(a + b)
  {
    var u, v := a + b, a[1..] + (b + x);
    assert forall i :: 0 <= i < |u| - 1 ==> v[i] == u[i + 1];
    assert |v| == |u| ==> v[|v| - 1].ie == u[0].ie;
    forall e | e in Ies(v) ensures e in Ies(u) {
      var i :| 0 <= i < |v| && v[i].ie == e;
      assert if i < |u| - 1 then u[i + 1].ie == e else u[0].ie == e;
    }
  }

  lemma {:induction false} WalkKeepsIds<D>(section: IEType, db: map<nat, Variable<D>>, q: seq<Queued<D>>, k: nat)
    requires DistinctIds(q) && k <= |q|
    ensures DistinctIds(q[k..] + PutBack(section, db, q, k))
    ensures Ies(q[k..] + PutBack(section, db, q, k)) <= Ies(q)
  {
    hide Dead, Sent, PutBack, TotalLen, DistinctIds, Ies;
    if k == 0 {
      NothingSent(section, db, q);
      assert q[0..] + [] == q;
    } else {
      WalkKeepsIds(section, db, q, k - 1);
      OneMore(section, db, q, k - 1);
      var x, dead := q[k - 1], Dead(section, db, q[k - 1].ie);
      RotateDistinct(q[k - 1..], PutBack(section, db, q, k - 1),
                     if !dead && x.rep > 1 then [Queued(x.ie, x.rep - 1)] else []);
      assert q[k - 1..][1..] == q[k..];
    }
  }

  // Filling a section keeps the variables of the queue distinct, and neither sends nor keeps anything new
  lemma FillKeeps<D>(section: IEType, db: map<nat, Variable<D>>, q: seq<Queued<D>>, size: int, maxSize: int,
                     stopIn: bool)
    requires DistinctIds(q)
    ensures var f := Outcome(section, db, q, size, maxSize, stopIn);
            DistinctIds(f.queue) && Ies(f.queue) <= Ies(q)
  {
    WalkKeepsIds(section, db, q, Taken(section, db, q, maxSize - size - HEADER_LEN, None));
  }

  lemma PutBackMember<D>(section: IEType, db: map<nat, Variable<D>>, q: seq<Queued<D>>, k: nat, x: Queued<D>)
    requires k <= |q| && x in PutBack(section, db, q, k)
    ensures x.rep > 0 && Queued(x.ie, x.rep + 1) in q
  {
    RequeuedMember(Live(section, db, q[..k]), x);
    LiveMember(section, db, q[..k], Queued(x.ie, x.rep + 1));
  }

  lemma SentMember<D>(section: IEType, db: map<nat, Variable<D>>, q: seq<Queued<D>>, k: nat, i: nat)
    requires k <= |q| && i < |Sent(section, db, q, k)|
    ensures Sent(section, db, q, k)[i] in Ies(q) && !Dead(section, db, Sent(section, db, q, k)[i])
  {
    LiveMember(section, db, q[..k], Live(section, db, q[..k])[i]);
  }

  lemma OutcomeIs<D>(section: IEType, db: map<nat, Variable<D>>, q: seq<Queued<D>>, size: int, maxSize: int,
                     stopIn: bool) returns (k: nat)
    ensures k <= |q|
    ensures var f := Outcome(section, db, q, size, maxSize, stopIn);
            || (f.queue == q && f.sent == [])
            || (f.queue == q[k..] + PutBack(section, db, q, k) && f.sent == Sent(section, db, q, k))
  {
    k := Taken(section, db, q, maxSize - size - HEADER_LEN, None);
  }

  // Filling a section neither sends nor keeps anything new, and sends nothing that is to be dropped
  lemma FillNothingNew<D>(section: IEType, db: map<nat, Variable<D>>, q: seq<Queued<D>>, size: int, maxSize: int,
                          stopIn: bool)
    ensures var f := Outcome(section, db, q, size, maxSize, stopIn);
            && Ies(f.queue) <= Ies(q)
            && (forall i :: 0 <= i < |f.sent| ==> f.sent[i] in Ies(q) && !Dead(section, db, f.sent[i]))
            && (forall i :: 0 <= i < |f.queue| ==>
                  f.queue[i] in q || (f.queue[i].rep > 0 && Queued(f.queue[i].ie, f.queue[i].rep + 1) in q))
  {
    var f := Outcome(section, db, q, size, maxSize, stopIn);
    var k := OutcomeIs(section, db, q, size, maxSize, stopIn);
    hide Outcome, Sent, PutBack, Dead;
    forall i | 0 <= i < |f.sent| ensures f.sent[i] in Ies(q) && !Dead(section, db, f.sent[i]) {
      SentMember(section, db, q, k, i);
    }
    forall i | 0 <= i < |f.queue|
      ensures f.queue[i] in q || (f.queue[i].rep > 0 && Queued(f.queue[i].ie, f.queue[i].rep + 1) in q)
      ensures f.queue[i].ie in Ies(q)
    {
      if f.queue[i] !in q {
        PutBackMember(section, db, q, k, f.queue[i]);
      }
    }
  }

  // ---------- Repetitions ----------

  // How many beacons are to carry an element with rep repetitions left: each takes one away, and an element is put
  // into one beacon before its repetitions are looked at
  function Due(rep: int): nat {
    if rep <= 1 then 1 else rep
  }

  // The beacons a queue still owes a variable
  function Owed<D>(q: seq<Queued<D>>, id: nat): nat {
    if q == [] then 0 else (if q[0].ie.Id() == id then Due(q[0].rep) else 0) + Owed(q[1..], id)
  }

  // How often a list of elements names a variable
  function Named<D>(list: seq<IE<D>>, id: nat): nat {
    if list == [] then 0 else (if list[0].Id() == id then 1 else 0) + Named(list[1..], id)
  }

  lemma {:induction false} OwedConcat<D>(a: seq<Queued<D>>, b: seq<Queued<D>>, id: nat)
    ensures Owed(a + b, id) == Owed(a, id) + Owed(b, id)
  {
    if a == [] {
      assert a + b == b;
    } else {
      OwedConcat(a[1..], b, id);
      assert (a + b)[1..] == a[1..] + b;
    }
  }

  lemma {:induction false} NamedConcat<D>(a: seq<IE<D>>, b: seq<IE<D>>, id: nat)
    ensures Named(a + b, id) == Named(a, id) + Named(b, id)
  {
    if a == [] {
      assert a + b == b;
    } else {
      NamedConcat(a[1..], b, id);
      assert (a + b)[1..] == a[1..] + b;
    }
  }

  // A queue owes a variable nothing exactly when it has no element of it
  lemma {:induction false} OwedNothing<D>(q: seq<Queued<D>>, id: nat)
    ensures Owed(q, id) == 0 <==> forall i :: 0 <= i < |q| ==> q[i].ie.Id() != id
  {
    if q != [] {
      OwedNothing(q[1..], id);
      assert forall i :: 1 <= i < |q| ==> q[i] == q[1..][i - 1];
      if q[0].ie.Id() != id && Owed(q[1..], id) > 0 {
        var i :| 0 <= i < |q[1..]| && q[1..][i].ie.Id() == id;
        assert q[i + 1].ie.Id() == id;
      }
    }
  }

  lemma {:induction false} WalkConserves<D>(section: IEType, db: map<nat, Variable<D>>, q: seq<Queued<D>>, k: nat,
                                            id: nat)
    requires k <= |q|
    requires forall i :: 0 <= i < |q| && q[i].ie.Id() == id ==> !Dead(section, db, q[i].ie)
    ensures Owed(q, id) ==
            Named(Sent(section, db, q, k), id) + Owed(q[k..], id) + Owed(PutBack(section, db, q, k), id)
  {
    hide Dead, Sent, PutBack, TotalLen;
    if k == 0 {
      NothingSent(section, db, q);
      assert q[0..] == q;
    } else {
      WalkConserves(section, db, q, k - 1, id);
      OneMore(section, db, q, k - 1);
      var x, dead := q[k - 1], Dead(section, db, q[k - 1].ie);
      var s, b := if dead then [] else [x.ie], if !dead && x.rep > 1 then [Queued(x.ie, x.rep - 1)] else [];
      NamedConcat(Sent(section, db, q, k - 1), s, id);
      OwedConcat(PutBack(section, db, q, k - 1), b, id);
      OwedFirst(q, k - 1, id);
      hide Named, Owed;
      SingleNamed(s, b, id);
    }
  }

  lemma OwedFirst<D>(q: seq<Queued<D>>, k: nat, id: nat)
    requires k < |q|
    ensures Owed(q[k..], id) == (if q[k].ie.Id() == id then Due(q[k].rep) else 0) + Owed(q[k + 1..], id)
  {
    assert q[k..][1..] == q[k + 1..] && q[k..][0] == q[k];
  }

  lemma SingleNamed<D>(s: seq<IE<D>>, b: seq<Queued<D>>, id: nat)
    requires |s| <= 1 && |b| <= 1
    ensures Named(s, id) == if s != [] && s[0].Id() == id then 1 else 0
    ensures Owed(b, id) == if b != [] && b[0].ie.Id() == id then Due(b[0].rep) else 0
  {
    if s != [] {
      assert s[1..] == [];
    }
    if b != [] {
      assert b[1..] == [];
    }
  }

  // Each time a beacon carries a variable the queue owes it one beacon less; nothing else changes what it owes
  lemma FillConserves<D>(section: IEType, db: map<nat, Variable<D>>, q: seq<Queued<D>>, size: int, maxSize: int,
                         stopIn: bool, id: nat)
    requires forall i :: 0 <= i < |q| && q[i].ie.Id() == id ==> !Dead(section, db, q[i].ie)
    ensures var f := Outcome(section, db, q, size, maxSize, stopIn);
            Owed(q, id) == Named(f.sent, id) + Owed(f.queue, id)
  {
    var k := Taken(section, db, q, maxSize - size - HEADER_LEN, None);
    WalkConserves(section, db, q, k, id);
    OwedConcat(q[k..], PutBack(section, db, q, k), id);
  }

  lemma {:induction false} NamedBound<D>(q: seq<Queued<D>>, id: nat)
    requires DistinctIds(q)
    ensures Named(Elements(q), id) <= 1
    ensures (forall i :: 0 <= i < |q| ==> q[i].ie.Id() != id) ==> Named(Elements(q), id) == 0
  {
    if q != [] {
      NamedBound(q[1..], id);
      assert Elements(q)[1..] == Elements(q[1..]);
      assert forall i :: 1 <= i < |q| ==> q[i] == q[1..][i - 1];
    }
  }

  lemma {:induction false} LiveDistinct<D>(section: IEType, db: map<nat, Variable<D>>, q: seq<Queued<D>>)
    requires DistinctIds(q)
    ensures DistinctIds(Live(section, db, q))
  {
    if q != [] {
      var rest := Live(section, db, q[1..]);
      LiveDistinct(section, db, q[1..]);
      forall i | 0 <= i < |rest| ensures rest[i].ie.Id() != q[0].ie.Id() {
        LiveMember(section, db, q[1..], rest[i]);
        var j :| 0 <= j < |q[1..]| && q[1..][j] == rest[i];
        assert q[j + 1] == rest[i];
      }
    }
  }

  // One beacon names a variable at most once in a section filled from a queue of distinct variables
  lemma SentOnce<D>(section: IEType, db: map<nat, Variable<D>>, q: seq<Queued<D>>, size: int, maxSize: int,
                    stopIn: bool, id: nat)
    requires DistinctIds(q)
    ensures Named(Outcome(section, db, q, size, maxSize, stopIn).sent, id) <= 1
  {
    var k := Taken(section, db, q, maxSize - size - HEADER_LEN, None);
    LiveDistinct(section, db, q[..k]);
    NamedBound(Live(section, db, q[..k]), id);
  }
}
