/**
 Summaries of all known variables are announced in a round-robin fashion: the front of the summary queue is
 announced and moves to the end, up to a number of summaries and as far as space allows.
 */
module RtdbSummaries {
  import opened RtdbTypes

  const SUMMARY_LEN := ID_LEN + SEQ_NO_LEN

  // How many variables of the queue are looked at. Unlike in the other sections, a summary must leave at
  // least one byte of the packet unused
  function Taken<D>(db: map<nat, Variable<D>>, q: seq<nat>, slots: int, room: int): (k: nat)
    ensures k <= |q|
  {
    if q == [] || slots <= 0 || room <= 0 then 0
    else if DropNonExistent(db, q[0]) then 1 + Taken(db, q[1..], slots, room)
    else if room > SUMMARY_LEN then 1 + Taken(db, q[1..], slots - 1, room - SUMMARY_LEN)
    else 0
  }

  function LiveIds<D>(db: map<nat, Variable<D>>, q: seq<nat>): (r: seq<nat>)
    ensures forall x :: x in r <==> x in q && !DropNonExistent(db, x)
    ensures |r| <= |q|
  {
    if q == [] then []
    else (if DropNonExistent(db, q[0]) then [] else [q[0]]) + LiveIds(db, q[1..])
  }

  function SummariesOf<D>(db: map<nat, Variable<D>>, ids: seq<nat>): (r: seq<IE<D>>)
    requires forall x :: x in ids ==> x in db
    ensures |r| == |ids|
    ensures forall i :: 0 <= i < |ids| ==> r[i] == Summary(ids[i], db[ids[i]].seqNo)
  {
    seq(|ids|, i requires 0 <= i < |ids| => Summary(ids[i], db[ids[i]].seqNo))
  }

  ghost predicate Distinct(q: seq<nat>) {
    forall i, j :: 0 <= i < j < |q| ==> q[i] != q[j]
  }

  lemma {:induction false} AsManyAsListed(q: seq<nat>, s: set<nat>)
    requires Distinct(q) && forall x :: x in q <==> x in s
    ensures |q| == |s|
  {
    if q != [] {
      var rest, last := q[..|q| - 1], q[|q| - 1];
      assert forall x :: x in q <==> x in rest || x == last;
      AsManyAsListed(rest, s - {last});
    } else {
      assert s == {};
    }
  }

  lemma {:induction false} LiveIdsSnoc<D>(db: map<nat, Variable<D>>, q: seq<nat>, x: nat)
    ensures LiveIds(db, q + [x]) == LiveIds(db, q) + (if DropNonExistent(db, x) then [] else [x])
  {
    if q == [] {
      assert q + [x] == [x];
      assert LiveIds(db, [x][1..]) == [];
    } else {
      assert (q + [x])[1..] == q[1..] + [x];
      LiveIdsSnoc(db, q[1..], x);
    }
  }

  lemma {:induction false} LiveIdsAll<D>(db: map<nat, Variable<D>>, q: seq<nat>)
    requires forall x :: x in q ==> !DropNonExistent(db, x)
    ensures LiveIds(db, q) == q
  {
    if q != [] {
      assert forall x :: x in q[1..] ==> x in q;
      LiveIdsAll(db, q[1..]);
    }
  }

  lemma {:induction false} SummariesLen<D>(list: seq<IE<D>>)
    requires forall i :: 0 <= i < |list| ==> list[i].Summary?
    ensures TotalLen(list) == SUMMARY_LEN * |list|
  {
    if list != [] {
      SummariesLen(list[1..]);
    }
  }

  lemma LiveIdsFirst<D>(db: map<nat, Variable<D>>, q: seq<nat>, k: nat)
    requires k <= |q|
    ensures k == 0 ==> |LiveIds(db, q[..k])| == 0
    ensures k > 0 ==>
              |LiveIds(db, q[..k])| == (if DropNonExistent(db, q[0]) then 0 else 1) + |LiveIds(db, q[1..][..k - 1])|
  {
    if k > 0 {
      assert q[..k][1..] == q[1..][..k - 1] && q[..k][0] == q[0];
    }
  }

  // What is announced fits, and is not more than allowed
  lemma {:induction false} TakenFits<D>(db: map<nat, Variable<D>>, q: seq<nat>, slots: int, room: int)
    ensures var n := |LiveIds(db, q[..Taken(db, q, slots, room)])|;
            n == 0 || (n <= slots && SUMMARY_LEN * n < room)
  {
    hide LiveIds;
    var k := Taken(db, q, slots, room);
    LiveIdsFirst(db, q, k);
    if k > 0 {
      if DropNonExistent(db, q[0]) {
        TakenFits(db, q[1..], slots, room);
      } else {
        TakenFits(db, q[1..], slots - 1, room - SUMMARY_LEN);
      }
    }
  }

  // With distinct variables the walk ends only when all of them have been looked at, when enough have been
  // announced, or when no further summary fits
  lemma {:induction false} TakenIsMaximal<D>(db: map<nat, Variable<D>>, q: seq<nat>, slots: int, room: int)
    ensures var k := Taken(db, q, slots, room);
            var n := |LiveIds(db, q[..k])|;
            k < |q| ==> n >= slots || SUMMARY_LEN * (n + 1) >= room
  {
    hide LiveIds;
    var k := Taken(db, q, slots, room);
    LiveIdsFirst(db, q, k);
    if k > 0 {
      if DropNonExistent(db, q[0]) {
        TakenIsMaximal(db, q[1..], slots, room);
      } else {
        TakenIsMaximal(db, q[1..], slots - 1, room - SUMMARY_LEN);
      }
    }
  }

  lemma {:induction false} LiveIdsDistinct<D>(db: map<nat, Variable<D>>, q: seq<nat>)
    requires Distinct(q)
    ensures Distinct(LiveIds(db, q))
  {
    if q != [] {
      LiveIdsDistinct(db, q[1..]);
      assert forall i :: 0 <= i < |LiveIds(db, q[1..])| ==> LiveIds(db, q[1..])[i] in q[1..];
    }
  }

  // Announcing keeps the queue free of duplicates and loses only variables that are being deleted
  lemma AnnouncingKeeps<D>(db: map<nat, Variable<D>>, q: seq<nat>, k: nat)
    requires Distinct(q) && k <= |q|
    ensures var r := q[k..] + LiveIds(db, q[..k]);
            && Distinct(r)
            && (forall x :: x in r ==> x in q)
            && (forall x :: x in q && !DropNonExistent(db, x) ==> x in r)
  {
    var a, b := q[k..], LiveIds(db, q[..k]);
    LiveIdsDistinct(db, q[..k]);
    forall i, j | 0 <= i < |a| && 0 <= j < |b| ensures a[i] != b[j] {
      assert b[j] in q[..k];
    }
    forall x | x in q && !DropNonExistent(db, x) ensures x in a + b {
      if x !in a {
        assert q == q[..k] + q[k..];
        assert x in b;
      }
    }
  }

  // The loop of the program after k variables have been looked at
  ghost predicate Walk<D>(db: map<nat, Variable<D>>, q: seq<nat>, slots: int, room: int, k: nat, sent: seq<nat>,
                          rest: seq<nat>)
  {
    && k <= |q|
    && sent == LiveIds(db, q[..k])
    && rest == q[k..] + sent
    && Taken(db, q, slots, room) == k + Taken(db, q[k..], slots - |sent|, room - SUMMARY_LEN * |sent|)
  }

  lemma WalkOn<D>(db: map<nat, Variable<D>>, q: seq<nat>, slots: int, room: int, k: nat, sent: seq<nat>,
                  rest: seq<nat>)
    requires Walk(db, q, slots, room, k, sent, rest) && k < |q|
    requires slots - |sent| > 0 && room - SUMMARY_LEN * |sent| > 0
    ensures rest != [] && rest[0] == q[k]
    ensures DropNonExistent(db, q[k]) ==> Walk(db, q, slots, room, k + 1, sent, rest[1..])
    ensures !DropNonExistent(db, q[k]) ==>
              if room - SUMMARY_LEN * |sent| > SUMMARY_LEN then
                Walk(db, q, slots, room, k + 1, sent + [q[k]], rest[1..] + [q[k]])
              else
                Taken(db, q, slots, room) == k
  {
    hide LiveIds, DropNonExistent;
    assert q[..k + 1] == q[..k] + [q[k]];
    LiveIdsSnoc(db, q[..k], q[k]);
    assert sent + [] == sent;
    assert q[k..][0] == q[k] && q[k..][1..] == q[k + 1..];
    assert (q[k..] + sent)[1..] == q[k + 1..] + sent;
    assert (q[k + 1..] + sent) + [q[k]] == q[k + 1..] + (sent + [q[k]]);
  }

  lemma WalkedAll<D>(db: map<nat, Variable<D>>, q: seq<nat>, slots: int, room: int, sent: seq<nat>, rest: seq<nat>)
    requires Walk(db, q, slots, room, |q|, sent, rest)
    ensures rest == sent && Taken(db, q, slots, room) == |q|
  {
    assert q[|q|..] == [];
  }

  lemma WalkKeeps<D>(db: map<nat, Variable<D>>, q: seq<nat>, slots: int, room: int, k: nat, sent: seq<nat>,
                     rest: seq<nat>)
    requires Walk(db, q, slots, room, k, sent, rest) && rest != []
    ensures k == |q| ==> sent != []
    ensures k < |q| && sent != [] && Distinct(q) ==> sent[0] != q[k]
  {
    if sent != [] && k < |q| {
      assert sent[0] in q[..k];
    }
  }

  lemma WalkStart<D>(db: map<nat, Variable<D>>, q: seq<nat>, slots: int, room: int)
    ensures Walk(db, q, slots, room, 0, [], q)
    ensures LiveIds(db, q[..0]) == [] && q[0..] + [] == q
  {
    assert q[..0] == [] && q[0..] == q;
  }

  lemma WalkDone<D>(db: map<nat, Variable<D>>, q: seq<nat>, slots: int, room: int, k: nat, sent: seq<nat>,
                    rest: seq<nat>)
    requires Walk(db, q, slots, room, k, sent, rest)
    requires slots - |sent| <= 0 || room - SUMMARY_LEN * |sent| <= 0 || k == Taken(db, q, slots, room)
    ensures k <= |q| && k == Taken(db, q, slots, room) && sent == LiveIds(db, q[..k]) && rest == q[k..] + sent
  {
  }

  lemma WalkInRange<D>(db: map<nat, Variable<D>>, q: seq<nat>, slots: int, room: int, k: nat, sent: seq<nat>,
                       rest: seq<nat>)
    requires Walk(db, q, slots, room, k, sent, rest)
    ensures k <= |q| && forall i :: 0 <= i < |sent| ==> !DropNonExistent(db, sent[i])
  {
  }

  // The queue runs empty only when everything in it has been dropped
  lemma WalkedIntoNothing<D>(db: map<nat, Variable<D>>, q: seq<nat>, slots: int, room: int, k: nat, sent: seq<nat>)
    requires Walk(db, q, slots, room, k, sent, [])
    ensures k == |q| == Taken(db, q, slots, room) && LiveIds(db, q[..k]) == [] && q[k..] == [] && sent == []
    ensures forall x :: x in q ==> DropNonExistent(db, x)
  {
    assert sent == [];
    forall x | x in q ensures DropNonExistent(db, x) {
      assert q[..k] == q;
      assert x in LiveIds(db, q) || DropNonExistent(db, x);
    }
  }

  // When the walk ends with something left in the queue, something in it was worth announcing
  lemma WalkedToSomething<D>(db: map<nat, Variable<D>>, q: seq<nat>, slots: int, room: int, k: nat, sent: seq<nat>,
                             rest: seq<nat>)
    requires Walk(db, q, slots, room, k, sent, rest) && rest != [] && slots > 0 && room > 0
    requires slots - |sent| <= 0 || room - SUMMARY_LEN * |sent| <= 0 || k == Taken(db, q, slots, room)
    ensures exists x :: x in q && !DropNonExistent(db, x)
  {
    if sent != [] {
      assert sent[0] in q[..k];
      assert sent[0] in q;
    } else {
      assert q[k..][0] == q[k] && q[k] in q;
    }
  }

  // Whether the loop would read the front of an empty queue: it is entered, and has nothing to announce
  ghost predicate Starves<D>(db: map<nat, Variable<D>>, q: seq<nat>, slots: int, room: int, stopIn: bool) {
    q != [] && slots > 0 && room > 0 && !stopIn && forall x :: x in q ==> DropNonExistent(db, x)
  }

  // The loop of the program; fault stands for reading the front of an empty queue
  method FillSummaries<D>(db: map<nat, Variable<D>>, q: seq<nat>, size: int, maxNum: int, maxSize: int, stopIn: bool)
    returns (list: seq<IE<D>>, q': seq<nat>, typeLen: int, num: int, fault: bool)
    requires Distinct(q)
    ensures fault <==> Starves(db, q, maxNum, maxSize - size - HEADER_LEN, stopIn)
    ensures var k := if stopIn then 0 else Taken(db, q, maxNum, maxSize - size - HEADER_LEN);
            var ids := LiveIds(db, q[..k]);
            list == SummariesOf(db, ids) && q' == q[k..] + ids && num == |ids|
    ensures typeLen == HEADER_LEN + TotalLen(list)
  {
    typeLen := HEADER_LEN;
    list := [];
    q' := q;
    num := 0;
    fault := false;
    ghost var k := 0;
    ghost var sent: seq<nat> := [];
    ghost var room := maxSize - size - HEADER_LEN;
    WalkStart(db, q, maxNum, room);
    hide Walk, Taken, LiveIds;
    var stop := stopIn;
    if q' != [] {
      var firstId := 0;
      var id := q'[0];
      while num < maxNum && size + typeLen < maxSize && !stop
        invariant Walk(db, q, maxNum, room, k, sent, q')
        invariant forall x :: x in sent ==> x in db
        invariant list == SummariesOf(db, sent) && num == |sent| && typeLen == HEADER_LEN + SUMMARY_LEN * num
        invariant q' != [] && id == q'[0]
        invariant sent != [] ==> firstId == sent[0]
        invariant stopIn ==> k == 0 && stop && sent == [] && q' == q
        invariant stop && !stopIn ==> k == Taken(db, q, maxNum, room)
        decreases |q| - k, !stop
      {
        WalkInRange(db, q, maxNum, room, k, sent, q');
        WalkKeeps(db, q, maxNum, room, k, sent, q');
        if k < |q| {
          WalkOn(db, q, maxNum, room, k, sent, q');
        } else {
          WalkedAll(db, q, maxNum, room, sent, q');
        }
        if !DropNonExistent(db, id) {
          var sum := Summary(id, db[id].seqNo);
          if |list| == 0 {
            firstId := id;
          } else if firstId == id {
            stop := true;
          }
          if !stop {
            if size + typeLen + sum.Len() < maxSize {
              list := list + [sum];
              num := num + 1;
              typeLen := typeLen + sum.Len();
              q' := q'[1..];
              q' := q' + [id];
              sent := sent + [id];
              k := k + 1;
            } else {
              stop := true;
            }
          }
        } else {
          q' := q'[1..];
          k := k + 1;
        }
        if q' == [] {
          WalkedIntoNothing(db, q, maxNum, room, k, sent);
          SummariesLen(list);
          return list, q', typeLen, num, true;
        }
        id := q'[0];
      }
      if !stopIn {
        WalkDone(db, q, maxNum, room, k, sent, q');
        if maxNum > 0 && room > 0 {
          WalkedToSomething(db, q, maxNum, room, k, sent, q');
        }
      }
    } else {
      TakenOfNone(db, maxNum, room);
    }
    SummariesLen(list);
  }

  lemma TakenOfNone<D>(db: map<nat, Variable<D>>, slots: int, room: int)
    ensures Taken(db, [], slots, room) == 0
  {
  }

  // ---------- Round robin ----------

  function Rotate(q: seq<nat>, k: nat): (r: seq<nat>)
    requires k <= |q|
    ensures |r| == |q|
  {
    q[k..] + q[..k]
  }

  // With nothing to drop, a section announces a prefix of the queue and rotates it to the end
  lemma NothingDropped<D>(db: map<nat, Variable<D>>, q: seq<nat>, slots: int, room: int)
    requires forall x :: x in q ==> !DropNonExistent(db, x)
    ensures var k := Taken(db, q, slots, room);
            LiveIds(db, q[..k]) == q[..k] && q[k..] + LiveIds(db, q[..k]) == Rotate(q, k)
  {
    LiveIdsAll(db, q[..Taken(db, q, slots, room)]);
  }

  // What successive beacons announce when the i-th of them announces ks[i] variables
  function Announced(q: seq<nat>, ks: seq<nat>): (r: seq<nat>)
    requires forall i :: 0 <= i < |ks| ==> ks[i] <= |q|
    decreases |ks|
  {
    if ks == [] then [] else q[..ks[0]] + Announced(Rotate(q, ks[0]), ks[1..])
  }

  // The announcements begin with the queue and then repeat
  lemma {:induction false} AnnouncedRepeats(q: seq<nat>, ks: seq<nat>, j: nat)
    requires forall i :: 0 <= i < |ks| ==> ks[i] <= |q|
    requires j < |Announced(q, ks)|
    ensures j < |q| ==> Announced(q, ks)[j] == q[j]
    ensures j >= |q| ==> Announced(q, ks)[j] == Announced(q, ks)[j - |q|]
    decreases |ks|
  {
    var k, n := ks[0], |q|;
    var rest := Announced(Rotate(q, k), ks[1..]);
    assert Announced(q, ks) == q[..k] + rest;
    if j >= k {
      AnnouncedRepeats(Rotate(q, k), ks[1..], j - k);
    }
  }

  lemma RotateNext(q: seq<nat>, r: nat)
    requires r < |q|
    ensures Rotate(q, r)[1..] + [Rotate(q, r)[0]] == Rotate(q, r + 1)
  {
  }

  // Any |q| consecutive announcements are a rotation of the queue
  lemma {:induction false} EveryWindowIsARotation(q: seq<nat>, ks: seq<nat>, from: nat) returns (r: nat)
    requires q != [] && forall i :: 0 <= i < |ks| ==> ks[i] <= |q|
    requires from + |q| <= |Announced(q, ks)|
    ensures r < |q| && Announced(q, ks)[from..from + |q|] == Rotate(q, r)
  {
    var a, n := Announced(q, ks), |q|;
    if from == 0 {
      r := 0;
      forall j | 0 <= j < n ensures a[j] == q[j] {
        AnnouncedRepeats(q, ks, j);
      }
    } else {
      var p := EveryWindowIsARotation(q, ks, from - 1);
      AnnouncedRepeats(q, ks, from + n - 1);
      RotateNext(q, p);
      assert a[from..from + n] == a[from - 1..from - 1 + n][1..] + [a[from - 1..from - 1 + n][0]];
      r := if p + 1 < n then p + 1 else 0;
    }
  }

  // While no variable is added, any |q| consecutive announcements name every variable exactly once
  lemma EveryVariableOncePerRound(q: seq<nat>, ks: seq<nat>, from: nat)
    requires q != [] && Distinct(q) && forall i :: 0 <= i < |ks| ==> ks[i] <= |q|
    requires from + |q| <= |Announced(q, ks)|
    ensures var window := Announced(q, ks)[from..from + |q|];
            Distinct(window) && forall x :: x in window <==> x in q
  {
    var r := EveryWindowIsARotation(q, ks, from);
    assert q == q[..r] + q[r..];
  }
}
