/** Serial number arithmetic on 32-bit message sequence numbers, as in RFC 1982 with SERIAL_BITS = 32. */
module SerialNumber {
  import opened Bytes

  const LIMIT: int := 0x8000_0000

  predicate IsGreaterThan(s1: uint32, s2: uint32) {
    s1 != s2 &&
    ((s1 < s2 && s2 - s1 > LIMIT) || (s1 > s2 && s1 - s2 < LIMIT))
  }

  /** `++msn` on an unsigned 32-bit field. */
  function Increment(s: uint32): uint32 {
    (s + 1) % TWO_32
  }

  /** How far s1 lies ahead of s2 on the circle of 2^32 numbers. */
  function Distance(s1: uint32, s2: uint32): uint32 {
    (s1 - s2) % TWO_32
  }

  /** Section 3.2 of RFC 1982 in one formula: s1 is at most 2^31 - 1 steps ahead. */
  lemma GreaterIsForwardDistance(s1: uint32, s2: uint32)
    ensures IsGreaterThan(s1, s2) <==> 0 < Distance(s1, s2) < LIMIT
  {
    if s1 < s2 {
      assert Distance(s1, s2) == s1 - s2 + TWO_32;
    } else {
      assert Distance(s1, s2) == s1 - s2;
    }
  }

  lemma DistanceOfResidues(a: int, b: int)
    ensures Distance(a % TWO_32, b % TWO_32) == (a - b) % TWO_32
  {
    var qa, qb := a / TWO_32, b / TWO_32;
    assert a == qa * TWO_32 + a % TWO_32 && b == qb * TWO_32 + b % TWO_32;
    assert a - b == (qa - qb) * TWO_32 + (a % TWO_32 - b % TWO_32);
    ModShift(a % TWO_32 - b % TWO_32, qa - qb);
  }

  lemma ModShift(x: int, q: int)
    ensures (q * TWO_32 + x) % TWO_32 == x % TWO_32
  {
    var y := q * TWO_32 + x;
    assert y == (q + x / TWO_32) * TWO_32 + x % TWO_32;
    ModUnique(y, q + x / TWO_32, x % TWO_32);
  }

  lemma ModUnique(y: int, q: int, r: int)
    requires y == q * TWO_32 + r && 0 <= r < TWO_32
    ensures y % TWO_32 == r
  {
  }

  /** An unwrapped counter between 1 and 2^31 - 1 steps ahead compares greater, whatever the wrap-around. */
  lemma FreshAhead(u: nat, d: int)
    requires 0 < d < LIMIT
    ensures IsGreaterThan((u + d) % TWO_32, u % TWO_32)
  {
    DistanceOfResidues(u + d, u);
    GreaterIsForwardDistance((u + d) % TWO_32, u % TWO_32);
  }

  /** A number at most 2^31 steps behind the current one never compares greater. */
  lemma StaleBehind(u: nat, d: int)
    requires 0 <= d <= LIMIT
    ensures !IsGreaterThan(u % TWO_32, (u + d) % TWO_32)
  {
    DistanceOfResidues(u, u + d);
    GreaterIsForwardDistance(u % TWO_32, (u + d) % TWO_32);
    assert d > 0 ==> (-d) % TWO_32 == TWO_32 - d;
  }

  // A session's sequence number over a run

  /** Each number of the run is the one before, or compares greater. */
  predicate Ascends(ms: seq<uint32>) {
    forall i :: 0 < i < |ms| ==> ms[i] == ms[i - 1] || IsGreaterThan(ms[i], ms[i - 1])
  }

  /** The counter whose residue the session number is: it never wraps around. */
  function Unwrapped(ms: seq<uint32>): nat
    requires ms != []
  {
    var n := |ms| - 1;
    if n == 0 then ms[0] else Unwrapped(ms[..n]) + Distance(ms[n], ms[n - 1])
  }

  lemma {:induction false} UnwrappedResidue(ms: seq<uint32>)
    requires ms != []
    ensures Unwrapped(ms) % TWO_32 == ms[|ms| - 1]
  {
    var n := |ms| - 1;
    if n > 0 {
      UnwrappedResidue(ms[..n]);
      AddDistance(Unwrapped(ms[..n]), ms[n - 1], ms[n]);
    }
  }

  lemma AddDistance(u: nat, s: uint32, s': uint32)
    requires u % TWO_32 == s
    ensures (u + Distance(s', s)) % TWO_32 == s'
  {
    var q := u / TWO_32;
    assert u == q * TWO_32 + s;
    if s' >= s {
      ModUnique(u + Distance(s', s), q, s');
    } else {
      assert Distance(s', s) == s' - s + TWO_32;
      ModUnique(u + Distance(s', s), q + 1, s');
    }
  }

  /** The counter never falls, and it strictly rises with every number that is accepted. */
  lemma UnwrappedRises(ms: seq<uint32>)
    requires |ms| > 1 && Ascends(ms)
    ensures var n := |ms| - 1;
            if ms[n] == ms[n - 1] then Unwrapped(ms) == Unwrapped(ms[..n])
            else Unwrapped(ms[..n]) < Unwrapped(ms) < Unwrapped(ms[..n]) + LIMIT
  {
    var n := |ms| - 1;
    if ms[n] != ms[n - 1] {
      GreaterIsForwardDistance(ms[n], ms[n - 1]);
    }
  }

  /** A number accepted earlier no longer compares greater until the counter has advanced by more than 2^31. */
  lemma {:induction false} OldNumberIsStale(ms: seq<uint32>, i: nat)
    requires i < |ms| && Ascends(ms) && Unwrapped(ms) <= Unwrapped(ms[..i + 1]) + LIMIT
    ensures !IsGreaterThan(ms[i], ms[|ms| - 1])
  {
    UnwrappedResidue(ms);
    UnwrappedResidue(ms[..i + 1]);
    UnwrappedMonotone(ms, i);
    StaleBehind(Unwrapped(ms[..i + 1]), Unwrapped(ms) - Unwrapped(ms[..i + 1]));
  }

  lemma {:induction false} UnwrappedMonotone(ms: seq<uint32>, i: nat)
    requires i < |ms| && Ascends(ms)
    ensures Unwrapped(ms[..i + 1]) <= Unwrapped(ms)
  {
    var n := |ms| - 1;
    if i == n {
      assert ms[..i + 1] == ms;
    } else {
      UnwrappedMonotone(ms[..n], i);
      assert ms[..n][..i + 1] == ms[..i + 1];
      UnwrappedRises(ms);
    }
  }
}
