/** The turn-rotation search: starting after the current seat, go round the
    table to the first player who has not fallen, for at most one lap. */
module Rotation {
  import opened Players

  /** The seat `k` steps after the one after `cur`, going round `n` seats. */
  function Seat(n: nat, cur: int, k: int): nat
    requires n > 0
  {
    (cur + 1 + k) % n
  }

  /** How many steps after the seat after `cur` seat `i` comes. */
  function Dist(n: nat, cur: int, i: int): nat
    requires n > 0
  {
    (i - cur - 1) % n
  }

  /** Remainders of numbers within one lap of the range [0, n). */
  lemma ModWithinLap(a: int, n: int)
    requires n > 0 && -n <= a < 2 * n
    ensures 0 <= a < n ==> a % n == a
    ensures n <= a ==> a % n == a - n
    ensures a < 0 ==> a % n == a + n
  {
    var q, r := a / n, a % n;
    assert a == n * q + r && 0 <= r < n;
    assert -1 <= q <= 1;
    if q == 1 {
      assert n * q == n;
    } else if q == -1 {
      assert n * q == -n;
    }
  }

  /** Every seat is reached within one lap... */
  lemma SeatOfDist(n: nat, cur: int, i: int)
    requires 0 <= cur < n && 0 <= i < n
    ensures Dist(n, cur, i) < n
    ensures Seat(n, cur, Dist(n, cur, i)) == i
  {
    ModWithinLap(i - cur - 1, n);
    var k := Dist(n, cur, i);
    ModWithinLap(cur + 1 + k, n);
  }

  /** ... and exactly once. */
  lemma DistOfSeat(n: nat, cur: int, k: int)
    requires 0 <= cur < n && 0 <= k < n
    ensures Dist(n, cur, Seat(n, cur, k)) == k
  {
    ModWithinLap(cur + 1 + k, n);
    var s := Seat(n, cur, k);
    ModWithinLap(s - cur - 1, n);
  }

  lemma SeatsCoverTable(n: nat, cur: int)
    requires 0 <= cur < n
    ensures forall i :: 0 <= i < n ==> Dist(n, cur, i) < n && Seat(n, cur, Dist(n, cur, i)) == i
  {
    forall i | 0 <= i < n
      ensures Dist(n, cur, i) < n && Seat(n, cur, Dist(n, cur, i)) == i
    {
      SeatOfDist(n, cur, i);
    }
  }

  /** The search loop: `attempts` is the number of fallen seats passed so far.
      The result is the first step count, from `attempts` on, whose seat is
      alive, or `|ps|` when a whole lap found nobody. */
  function Rotate(ps: seq<Player>, cur: nat, attempts: nat): (stop: nat)
    requires 0 < |ps| && attempts <= |ps|
    ensures attempts <= stop <= |ps|
    ensures stop < |ps| ==> Alive(ps[Seat(|ps|, cur, stop)])
    ensures forall k :: attempts <= k < stop ==> !Alive(ps[Seat(|ps|, cur, k)])
    decreases |ps| - attempts
  {
    if ps[Seat(|ps|, cur, attempts)].hp <= 0 && attempts < |ps| then Rotate(ps, cur, attempts + 1)
    else attempts
  }

  /** Every player has fallen. */
  predicate NoneAlive(ps: seq<Player>) {
    forall i :: 0 <= i < |ps| ==> !Alive(ps[i])
  }

  /** The number of players still standing. */
  function AliveCount(ps: seq<Player>): (c: nat)
    ensures c <= |ps|
    ensures c == 0 <==> NoneAlive(ps)
  {
    if |ps| == 0 then 0
    else
      assert forall i :: 1 <= i < |ps| ==> ps[1..][i - 1] == ps[i];
      (if Alive(ps[0]) then 1 else 0) + AliveCount(ps[1..])
  }

  /** A full lap finds nobody exactly when every player has fallen; otherwise
      the seat found is alive and every seat passed before it has fallen. */
  lemma {:induction false} RotateFindsFirstAlive(ps: seq<Player>, cur: nat)
    requires 0 <= cur < |ps|
    ensures Rotate(ps, cur, 0) == |ps| <==> NoneAlive(ps)
    ensures Rotate(ps, cur, 0) < |ps| ==>
      var j := Seat(|ps|, cur, Rotate(ps, cur, 0));
      && Alive(ps[j])
      && forall i :: 0 <= i < |ps| && Dist(|ps|, cur, i) < Dist(|ps|, cur, j) ==> !Alive(ps[i])
  {
    var n := |ps|;
    var stop := Rotate(ps, cur, 0);
    SeatsCoverTable(n, cur);
    if stop < n {
      DistOfSeat(n, cur, stop);
    } else {
      forall i | 0 <= i < n
        ensures !Alive(ps[i])
      {
        var k := Dist(n, cur, i);
        assert Seat(n, cur, k) == i;
        assert !Alive(ps[Seat(n, cur, k)]);
      }
    }
  }
}
