/**
 Eight-bit sequence numbers of the real-time database. A producer numbers its values 1, 2, .., 255, 1, 2, ..
 and a receiver decides by arithmetic modulo 256 which of two numbers is the more recent one.
 */
module RtdbSerial {

  // The number of the next value: zero is skipped when the counter rolls over
  function NextSeqNo(s: nat): (r: nat)
    requires s < 256
    ensures r == if s == 255 then 1 else s + 1
  {
    var t := (s + 1) % 256;
    if t == 0 then (t + 1) % 256 else t
  }

  // The number of the value a producer holds after u updates
  function SeqNoOf(u: nat): (r: nat)
    ensures 0 < r < 256
  {
    u % 255 + 1
  }

  // As coded: the gaps are unsigned, so they are taken modulo 256
  predicate SeqNoMoreRecent(ours: nat, new_: nat)
    requires ours < 256 && new_ < 256
  {
    if ours != new_ then
      var gap1 := (new_ - ours) % 256;
      var gap2 := (ours - new_) % 256;
      gap1 < gap2
    else
      false
  }

  // Quotient and remainder are determined
  lemma RemainderIs(x: int, q: int, r: int)
    requires x == 255 * q + r && 0 <= r < 255
    ensures x % 255 == r
  {
    assert x == 255 * (x / 255) + x % 255;
    assert 255 * (q - x / 255) == x % 255 - r;
  }

  lemma SmallRemainder(x: int)
    requires -256 <= x <= 256
    ensures x % 256 == if x == 256 || x == -256 then 0 else if x < 0 then x + 256 else x
  {
  }

  // The number a producer holds after one more update is the next one
  lemma NextSeqNoOf(u: nat)
    ensures NextSeqNo(SeqNoOf(u)) == SeqNoOf(u + 1)
  {
    var q, r := u / 255, u % 255;
    if r == 254 {
      RemainderIs(u + 1, q + 1, 0);
    } else {
      RemainderIs(u + 1, q, r + 1);
    }
    SmallRemainder(r + 2);
  }

  // Going from update m to update n moves the number forward by their distance modulo 255
  lemma NumberMoves(m: nat, n: nat)
    ensures var r := (n - m) % 255;
            SeqNoOf(n) == if SeqNoOf(m) + r <= 255 then SeqNoOf(m) + r else SeqNoOf(m) + r - 255
  {
    var s, r := m % 255, (n - m) % 255;
    var q := m / 255 + (n - m) / 255;
    assert m == 255 * (m / 255) + s && n - m == 255 * ((n - m) / 255) + r;
    assert n == 255 * q + (s + r);
    if s + r < 255 {
      RemainderIs(n, q, s + r);
    } else {
      RemainderIs(n, q + 1, s + r - 255);
    }
  }

  // For any two updates m and n: n counts as more recent exactly when going forward from the number of m to
  // the number of n takes between 1 and 127 steps on the circle of 256, a step across zero counting twice
  lemma MoreRecentExactly(m: nat, n: nat)
    ensures var r := (n - m) % 255;
            SeqNoMoreRecent(SeqNoOf(m), SeqNoOf(n)) <==>
              0 < r && r + (if SeqNoOf(m) + r > 255 then 1 else 0) <= 127
  {
    hide SeqNoOf;
    NumberMoves(m, n);
    SmallRemainder(SeqNoOf(n) - SeqNoOf(m));
    SmallRemainder(SeqNoOf(m) - SeqNoOf(n));
  }

  // Up to 126 updates apart, in either direction, the comparison agrees with the true order of the updates
  lemma MoreRecentWithinWindow(m: nat, n: nat)
    requires -126 <= n - m <= 126
    ensures SeqNoMoreRecent(SeqNoOf(m), SeqNoOf(n)) <==> m < n
  {
    hide SeqNoMoreRecent, SeqNoOf;
    MoreRecentExactly(m, n);
    if m <= n {
      RemainderIs(n - m, 0, n - m);
    } else {
      RemainderIs(n - m, -1, n - m + 255);
    }
  }

  // The window is as wide as it can be: 127 updates ahead is recognised exactly when zero is not crossed
  lemma MoreRecentAt127(m: nat)
    ensures SeqNoMoreRecent(SeqNoOf(m), SeqNoOf(m + 127)) <==> SeqNoOf(m) <= 128
    ensures !SeqNoMoreRecent(SeqNoOf(254), SeqNoOf(381))
  {
    MoreRecentExactly(m, m + 127);
    MoreRecentExactly(254, 381);
  }

  // In the other direction, a value that is 127 updates old is never taken for a new one, one that is 128
  // updates old is exactly when the way forward does not cross zero, and one that is 129 updates old always
  lemma StaleTakenForNew(n: nat)
    ensures !SeqNoMoreRecent(SeqNoOf(n + 127), SeqNoOf(n))
    ensures SeqNoMoreRecent(SeqNoOf(n + 128), SeqNoOf(n)) <==> SeqNoOf(n + 128) <= 128
    ensures SeqNoMoreRecent(SeqNoOf(n + 129), SeqNoOf(n))
  {
    hide SeqNoMoreRecent, SeqNoOf;
    MoreRecentExactly(n + 127, n);
    RemainderIs(-127, -1, 128);
    MoreRecentExactly(n + 128, n);
    RemainderIs(-128, -1, 127);
    MoreRecentExactly(n + 129, n);
    RemainderIs(-129, -1, 126);
  }

  // Serial number comparison of RFC 1982, section 3.2, for SERIAL_BITS equal to 8
  predicate Rfc1982Less(i1: nat, i2: nat)
    requires i1 < 256 && i2 < 256
  {
    i1 != i2 && ((i1 < i2 && i2 - i1 < 128) || (i1 > i2 && i1 - i2 > 128))
  }

  // The comparison is the one of RFC 1982 wherever that is defined, and false where it is not
  lemma MoreRecentIsRfc1982(ours: nat, new_: nat)
    requires ours < 256 && new_ < 256
    ensures ours - new_ != 128 && new_ - ours != 128 ==> (SeqNoMoreRecent(ours, new_) <==> Rfc1982Less(ours, new_))
    ensures ours - new_ == 128 || new_ - ours == 128 ==> !SeqNoMoreRecent(ours, new_)
    ensures !(SeqNoMoreRecent(ours, new_) && SeqNoMoreRecent(new_, ours))
  {
    SmallRemainder(new_ - ours);
    SmallRemainder(ours - new_);
  }
}
