/** Seat arithmetic around the table. Seats are 0 to 3 in playing order; when a
    player goes alone, that player's partner (two seats on) sits the hand out,
    so a trick then has three cards. */
module Seating {

  predicate IsSeat(s: int) { 0 <= s < 4 }

  /** Whether somebody is going alone: any value outside [0,3] means nobody. */
  predicate IsAlone(alone: int) { 0 <= alone < 4 }

  /** The seat that sits out: the partner of the player going alone. */
  function Absent(alone: int): (e: int)
    requires IsAlone(alone)
    ensures IsSeat(e) && e != alone
  {
    (alone + 2) % 4
  }

  predicate SitsOut(alone: int, s: int) { IsAlone(alone) && s == Absent(alone) }

  /** The seat after `s` in playing order. */
  function Next(s: int): (r: int)
    requires IsSeat(s)
    ensures IsSeat(r) && r == (s + 1) % 4
  {
    if s == 3 then 0 else s + 1
  }

  /** Clockwise distance from seat `from` to seat `to`. */
  function Dist(from: int, to: int): (d: int)
    requires IsSeat(from) && IsSeat(to)
    ensures 0 <= d < 4
    ensures d == 0 <==> from == to
  {
    if from <= to then to - from else to - from + 4
  }

  /** Whether seat `s` lies on the clockwise half-open arc [from, to): the
      seats visited by a walk that starts at `from` and stops on reaching `to`. */
  predicate Before(from: int, to: int, s: int)
    requires IsSeat(from) && IsSeat(to) && IsSeat(s)
  {
    Dist(from, s) < Dist(from, to)
  }

  /** `seats` with every occurrence of `x` removed, order kept. */
  function Without(seats: seq<int>, x: int): (r: seq<int>)
    ensures forall s :: s in r <==> s in seats && s != x
    ensures |r| <= |seats|
  {
    if seats == [] then [] else (if seats[0] == x then [] else [seats[0]]) + Without(seats[1..], x)
  }

  /** Reference definition of the seats that play a trick, in playing order:
      the four seats clockwise from the leader, less the one sitting out. */
  function PlayOrder(led: int, alone: int): (order: seq<int>)
    requires IsSeat(led)
    ensures |order| == TrickSize(alone)
  {
    var ring := [led, (led + 1) % 4, (led + 2) % 4, (led + 3) % 4];
    WithoutFour(led, (led + 1) % 4, (led + 2) % 4, (led + 3) % 4, if IsAlone(alone) then Absent(alone) else 0);
    if IsAlone(alone) then Without(ring, Absent(alone)) else ring
  }

  /** The number of cards a complete trick has. */
  function TrickSize(alone: int): (n: nat)
    ensures n == 3 || n == 4
  {
    if IsAlone(alone) then 3 else 4
  }

  /** The seat that played the card found at offset `seat - led` when the
      offsets are counted as if all four seats played: one seat further on
      when the seat sitting out lies on the arc from the leader up to and
      including `seat`. */
  function SkipAbsent(led: int, seat: int, alone: int): (r: int)
    requires IsSeat(led) && IsSeat(seat)
    ensures IsSeat(r)
    ensures !IsAlone(alone) ==> r == seat
    ensures r == seat || r == (seat + 1) % 4
  {
    if IsAlone(alone) && Before(led, Next(seat), Absent(alone)) then Next(seat) else seat
  }

  /** For a winning seat at most two seats on from the leader (every trick
      of three cards), SkipAbsent moves it one seat on exactly when the seat
      sitting out lies on the arc from the leader to it, both ends included. */
  lemma SkipAbsentArc(led: int, seat: int, alone: int)
    requires IsSeat(led) && IsSeat(seat) && Dist(led, seat) < 3
    ensures SkipAbsent(led, seat, alone) ==
      if IsAlone(alone) && Dist(led, Absent(alone)) <= Dist(led, seat) then Next(seat) else seat
  {
  }


  /** The position in a trick of the card played by `seat`: its clockwise
      distance from the leader, one less when the seat sitting out comes
      between them. */
  function CardOffset(led: int, alone: int, seat: int): (k: int)
    requires IsSeat(led) && IsSeat(seat)
    ensures 0 <= k < 4
    ensures seat == led ==> k == 0
    ensures !SitsOut(alone, seat) ==> k < TrickSize(alone)
  {
    var adjust := if IsAlone(alone) && Before(led, seat, Absent(alone)) then -1 else 0;
    if adjust == -1 then Dist(led, seat) - 1 else Dist(led, seat)
  }

  /** `Without` on a four-seat ring, spelled out. */
  lemma WithoutFour(a: int, b: int, c: int, d: int, x: int)
    ensures Without([a, b, c, d], x) ==
      (if a == x then [] else [a]) + (if b == x then [] else [b]) +
      (if c == x then [] else [c]) + (if d == x then [] else [d])
  {
    assert [a, b, c, d][1..] == [b, c, d];
    assert [b, c, d][1..] == [c, d];
    assert [c, d][1..] == [d];
    assert [d][1..] == [];
    assert Without([d], x) == (if d == x then [] else [d]);
    assert Without([c, d], x) == (if c == x then [] else [c]) + Without([d], x);
    assert Without([b, c, d], x) == (if b == x then [] else [b]) + Without([c, d], x);
  }

  /** The playing order spelled out, with the seat sitting out at clockwise
      distance 1, 2 or 3 from the leader left out. */
  lemma PlayOrderExplicit(led: int, alone: int)
    requires IsSeat(led) && !SitsOut(alone, led)
    ensures IsAlone(alone) && Dist(led, Absent(alone)) == 1 ==>
      PlayOrder(led, alone) == [led, (led + 2) % 4, (led + 3) % 4]
    ensures IsAlone(alone) && Dist(led, Absent(alone)) == 2 ==>
      PlayOrder(led, alone) == [led, (led + 1) % 4, (led + 3) % 4]
    ensures IsAlone(alone) && Dist(led, Absent(alone)) == 3 ==>
      PlayOrder(led, alone) == [led, (led + 1) % 4, (led + 2) % 4]
    ensures IsAlone(alone) ==> 1 <= Dist(led, Absent(alone)) <= 3
  {
    WithoutFour(led, (led + 1) % 4, (led + 2) % 4, (led + 3) % 4, if IsAlone(alone) then Absent(alone) else 0);
  }

  lemma PlayOrderShape(led: int, alone: int)
    requires IsSeat(led) && !SitsOut(alone, led)
    ensures |PlayOrder(led, alone)| == TrickSize(alone)
    ensures PlayOrder(led, alone)[0] == led
    ensures forall k :: 0 <= k < |PlayOrder(led, alone)| ==>
      IsSeat(PlayOrder(led, alone)[k]) && !SitsOut(alone, PlayOrder(led, alone)[k])
    ensures forall j, k :: 0 <= j < k < |PlayOrder(led, alone)| ==> PlayOrder(led, alone)[j] != PlayOrder(led, alone)[k]
  {
    PlayOrderExplicit(led, alone);
  }

  /** The seat of the `k`-th card: Winner's correction of the naive seat
      `(led + k) % 4` is exactly the playing order. */
  lemma PlayOrderSkip(led: int, alone: int, k: nat)
    requires IsSeat(led) && !SitsOut(alone, led) && k < TrickSize(alone)
    ensures |PlayOrder(led, alone)| == TrickSize(alone)
    ensures PlayOrder(led, alone)[k] == SkipAbsent(led, (led + k) % 4, alone)
  {
    PlayOrderExplicit(led, alone);
  }

  /** The card offset used for a seat picks that seat's card out of the
      playing order. */
  lemma PlayOrderOffset(led: int, alone: int, seat: int)
    requires IsSeat(led) && !SitsOut(alone, led)
    requires IsSeat(seat) && !SitsOut(alone, seat)
    ensures |PlayOrder(led, alone)| == TrickSize(alone)
    ensures PlayOrder(led, alone)[CardOffset(led, alone, seat)] == seat
  {
    PlayOrderExplicit(led, alone);
  }
}
