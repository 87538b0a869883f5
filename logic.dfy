/** Trick resolution for Euchre: which card beats which, the legal plays, the
    winner and the leader of a trick, and the suits a seat has shown it lacks. */
module Logic {
  import opened Deck
  import opened Seating
  import opened GoArith

  predicate IsTrump(c: Card, trump: Suit) { c.AdjSuit(trump) == trump }

  /** Whether `a`, played before `b`, beats `b` under `trump`. */
  function Beat(a: Card, b: Card, trump: Suit): (r: bool)
    // exactly one of the two is trump: the trump card wins
    ensures IsTrump(a, trump) != IsTrump(b, trump) ==> (r <==> IsTrump(a, trump))
    // both trump: the bowers, then face rank
    ensures IsTrump(a, trump) && IsTrump(b, trump) && a.IsRightBower(trump) ==> r
    ensures IsTrump(a, trump) && IsTrump(b, trump) && a.IsLeftBower(trump) ==> (r <==> b.value != Jack)
    ensures IsTrump(a, trump) && IsTrump(b, trump) && a.value != Jack && b.value == Jack ==> !r
    ensures IsTrump(a, trump) && IsTrump(b, trump) && a.value != Jack && b.value != Jack ==>
      (r <==> a.value.Rank() > b.value.Rank())
    // neither trump: the higher card of one suit wins, and the led card wins against another suit
    ensures !IsTrump(a, trump) && !IsTrump(b, trump) && a.suit == b.suit ==> (r <==> a.value.Rank() > b.value.Rank())
    ensures !IsTrump(a, trump) && !IsTrump(b, trump) && a.suit != b.suit ==> r
  {
    var aTrump, bTrump := a.AdjSuit(trump) == trump, b.AdjSuit(trump) == trump;
    if aTrump != bTrump then aTrump
    else if aTrump && bTrump then
      if a.value == Jack || b.value == Jack then
        if a.value == Jack && a.suit == trump then true
        else if a.value == Jack && a.suit == trump.Left() then b.value != Jack
        else false
      else a.value.Compare(b.value) > 0
    else if a.suit == b.suit then a.value.Compare(b.value) > 0
    else true
  }

  /** Reference ranking of a card in a trick whose led suit is `ledSuit`: the
      right bower, the left bower, the other trumps by rank, then the led suit
      by rank; every other card counts for nothing. */
  function Strength(c: Card, trump: Suit, ledSuit: Suit): (s: int)
    ensures 0 <= s <= 41
    ensures c.IsRightBower(trump) <==> s == 41
    ensures IsTrump(c, trump) <==> s >= 34
  {
    if c.IsRightBower(trump) then 41
    else if c.IsLeftBower(trump) then 40
    else if c.suit == trump then 25 + c.value.Rank()
    else if c.suit == ledSuit then c.value.Rank()
    else 0
  }

  /** Beat is the strength order of the trick `a` leads, for two different cards. */
  lemma BeatIsStrength(a: Card, b: Card, trump: Suit)
    requires a != b
    ensures Beat(a, b, trump) <==> Strength(a, trump, a.AdjSuit(trump)) > Strength(b, trump, a.AdjSuit(trump))
  {
  }

  /** Two different cards are strictly ordered by Beat unless they are of two
      different non-trump suits, where whichever leads wins. */
  lemma BeatAntisymmetric(a: Card, b: Card, trump: Suit)
    requires a != b
    requires IsTrump(a, trump) || IsTrump(b, trump) || a.suit == b.suit
    ensures Beat(a, b, trump) != Beat(b, a, trump)
  {
    BeatIsStrength(a, b, trump);
    BeatIsStrength(b, a, trump);
  }

  /** The bowers outrank the rest of trump: the right bower beats the left,
      and the left bower beats the ace of trump either way round. */
  lemma BowerExamples()
    ensures Beat(Card(Hearts, Jack), Card(Diamonds, Jack), Hearts)
    ensures Beat(Card(Diamonds, Jack), Card(Hearts, Ace), Hearts)
    ensures !Beat(Card(Hearts, Ace), Card(Diamonds, Jack), Hearts)
  {
  }

  /** Whether `c` follows the suit of the led card `first`. */
  predicate Follows(c: Card, first: Card, trump: Suit) { c.AdjSuit(trump) == first.AdjSuit(trump) }

  /** Whether some card of `hand` can follow the card led in `played`. */
  predicate CanFollow(hand: seq<Card>, played: seq<Card>, trump: Suit)
  {
    |played| > 0 && exists i :: 0 <= i < |hand| && Follows(hand[i], played[0], trump)
  }

  /** The positions in `hand` of the cards that may legally be played: those
      following the led suit if there are any, otherwise every card. */
  method Possible(hand: seq<Card>, played: seq<Card>, trump: Suit) returns (possible: seq<int>)
    ensures forall k :: 0 <= k < |possible| ==> 0 <= possible[k] < |hand|
    ensures forall k, l :: 0 <= k < l < |possible| ==> possible[k] < possible[l]
    ensures forall i :: 0 <= i < |hand| ==>
      (i in possible <==> (CanFollow(hand, played, trump) ==> Follows(hand[i], played[0], trump)))
    ensures |hand| > 0 ==> |possible| > 0
  {
    possible := [];
    if |played| > 0 {
      var i := 0;
      while i < |hand|
        invariant 0 <= i <= |hand|
        invariant forall k :: 0 <= k < |possible| ==> 0 <= possible[k] < i
        invariant forall k, l :: 0 <= k < l < |possible| ==> possible[k] < possible[l]
        invariant forall j :: 0 <= j < |hand| ==> (j in possible <==> j < i && Follows(hand[j], played[0], trump))
      {
        if hand[i].AdjSuit(trump) == played[0].AdjSuit(trump) {
          possible := possible + [i];
        }
        i := i + 1;
      }
      if |possible| > 0 {
        assert Follows(hand[possible[0]], played[0], trump);
      }
    }
    assert |possible| == 0 ==> !CanFollow(hand, played, trump);
    assert |possible| > 0 ==> CanFollow(hand, played, trump);
    if |possible| == 0 {
      var i := 0;
      while i < |hand|
        invariant 0 <= i <= |hand|
        invariant |possible| == i
        invariant forall k :: 0 <= k < i ==> possible[k] == k
      {
        possible := possible + [i];
        i := i + 1;
      }
      forall j | 0 <= j < |hand| ensures j in possible {
        assert possible[j] == j;
      }
    }
  }

  /** Reference definition of the winning card among the first `n` cards of
      a trick: the first card stands until a later card is not beaten by the
      card winning so far. */
  function Champion(played: seq<Card>, n: nat, trump: Suit): (r: nat)
    requires 0 < n <= |played|
    ensures r < n
  {
    if n == 1 then 0
    else
      var c := Champion(played, n - 1, trump);
      if !Beat(played[c], played[n - 1], trump) then n - 1 else c
  }

  /** The winning card beats every card played after it. */
  lemma {:induction false} ChampionBeatsLater(played: seq<Card>, n: nat, trump: Suit, j: int)
    requires 0 < n <= |played| && Champion(played, n, trump) < j < n
    ensures Beat(played[Champion(played, n, trump)], played[j], trump)
  {
    if j < n - 1 {
      ChampionBeatsLater(played, n - 1, trump, j);
    }
  }

  /** The winning card, when it is not the led card, took over from the card
      winning just before it: that card did not beat it. */
  lemma {:induction false} ChampionTookOver(played: seq<Card>, n: nat, trump: Suit)
    requires 0 < n <= |played| && Champion(played, n, trump) > 0
    ensures Champion(played, Champion(played, n, trump) + 1, trump) == Champion(played, n, trump)
    ensures !Beat(played[Champion(played, Champion(played, n, trump), trump)], played[Champion(played, n, trump)], trump)
  {
    if Champion(played, n, trump) < n - 1 {
      ChampionTookOver(played, n - 1, trump);
    }
  }

  /** Whether the first `n` cards of `played` are pairwise different, as the
      cards of one deck are. */
  predicate Distinct(played: seq<Card>, n: int)
    requires 0 <= n <= |played|
  {
    forall i, j :: 0 <= i < j < n ==> played[i] != played[j]
  }

  /** Whether the card at `c` is trump or follows the led suit, and ranks above
      every other of the first `n` cards of the trick. */
  predicate Strongest(played: seq<Card>, n: int, c: int, trump: Suit)
    requires 0 <= c < n <= |played|
  {
    var ledSuit := played[0].AdjSuit(trump);
    (IsTrump(played[c], trump) || Follows(played[c], played[0], trump)) &&
    forall j :: 0 <= j < n && j != c ==> Strength(played[c], trump, ledSuit) > Strength(played[j], trump, ledSuit)
  }

  /** Among different cards, the winning card is the strongest of the trick:
      the highest trump, or the highest card of the led suit if none is trump. */
  lemma {:induction false} ChampionStrongest(played: seq<Card>, n: nat, trump: Suit)
    requires 0 < n <= |played| && Distinct(played, n)
    ensures Strongest(played, n, Champion(played, n, trump), trump)
  {
    if n > 1 {
      ChampionStrongest(played, n - 1, trump);
      var c := Champion(played, n - 1, trump);
      BeatIsStrength(played[c], played[n - 1], trump);
    }
  }

  /** The position in `played` of the winning card, or -1 for an empty trick. */
  method WinnerIdx(played: seq<Card>, trump: Suit) returns (highIdx: int)
    ensures highIdx == -1 <==> |played| == 0
    ensures |played| == 1 ==> highIdx == 0
    ensures |played| > 0 ==> 0 <= highIdx < |played| && highIdx == Champion(played, |played|, trump)
    ensures |played| > 0 ==> forall j :: highIdx < j < |played| ==> Beat(played[highIdx], played[j], trump)
    ensures |played| > 0 && Distinct(played, |played|) ==> Strongest(played, |played|, highIdx, trump)
  {
    highIdx := -1;
    if |played| > 0 {
      highIdx := 0;
      var highest := played[0];
      var i := 0;
      while i < |played| - 1
        invariant 0 <= i <= |played| - 1
        invariant highIdx == Champion(played, i + 1, trump)
        invariant highest == played[highIdx]
      {
        var card := played[i + 1];
        if !Beat(highest, card, trump) {
          highest := card;
          highIdx := i + 1;
        }
        i := i + 1;
      }
      forall j | highIdx < j < |played| ensures Beat(played[highIdx], played[j], trump) {
        ChampionBeatsLater(played, |played|, trump, j);
      }
      if Distinct(played, |played|) {
        ChampionStrongest(played, |played|, trump);
      }
    }
  }

  /** The seat that won the trick led from seat `led`. The card's seat is
      first counted as if all four seats played, then moved one seat on when
      the seat sitting out lies between the leader and that seat. */
  method Winner(played: seq<Card>, trump: Suit, led: int, alone: int) returns (highPlayer: int)
    requires IsSeat(led)
    ensures IsSeat(highPlayer)
    ensures |played| == 0 ==> highPlayer == SkipAbsent(led, led, alone)
    ensures |played| > 0 ==> highPlayer == SkipAbsent(led, (led + Champion(played, |played|, trump)) % 4, alone)
    ensures |played| > 0 && !IsAlone(alone) ==> highPlayer == (led + Champion(played, |played|, trump)) % 4
  {
    highPlayer := HighestSeat(played, trump, led);
    highPlayer := SkipSittingOut(led, highPlayer, alone);
  }

  /** Winner's first step: the seat of the winning card, counted clockwise
      from the leader as if every seat played. */
  method HighestSeat(played: seq<Card>, trump: Suit, led: int) returns (highPlayer: int)
    requires IsSeat(led)
    ensures IsSeat(highPlayer)
    ensures |played| == 0 ==> highPlayer == led
    ensures |played| > 0 ==> highPlayer == (led + Champion(played, |played|, trump)) % 4
  {
    highPlayer := led;
    ghost var idx := 0;
    if |played| >= 2 {
      var highest := played[0];
      var i := 0;
      while i < |played| - 1
        invariant 0 <= i <= |played| - 1
        invariant idx == Champion(played, i + 1, trump)
        invariant highest == played[idx] && highPlayer == (led + idx) % 4
      {
        var card := played[i + 1];
        if !Beat(highest, card, trump) {
          highest := card;
          highPlayer := (led + i + 1) % 4;
          idx := i + 1;
        }
        i := i + 1;
      }
    }
  }

  /** Winner's second step: walk clockwise from the leader up to and including
      `highPlayer`; if the seat sitting out is met on the way, the winning seat
      is one further on. */
  method SkipSittingOut(led: int, highPlayer: int, alone: int) returns (seat: int)
    requires IsSeat(led) && IsSeat(highPlayer)
    ensures seat == SkipAbsent(led, highPlayer, alone)
  {
    seat := highPlayer;
    var nextAfterHigh := (highPlayer + 1) % 4;
    if alone >= 0 && alone < 4 {
      // the walk visits the seats at clockwise distance 0 .. span - 1 from the leader
      ghost var span := Dist(led, nextAfterHigh);
      ghost var gap := Dist(led, Absent(alone));
      ghost var steps := 0;
      var player := led;
      while player != nextAfterHigh
        invariant IsSeat(player) && seat == highPlayer
        invariant 0 <= steps <= span && steps <= gap && steps == Dist(led, player)
        decreases span - steps
      {
        if player == (alone + 2) % 4 {
          seat := (seat + 1) % 4;
          break;
        }
        player := (player + 1) % 4;
        steps := steps + 1;
      }
    }
  }

  /** Whether the leader computed by Leader steps back one seat. */
  predicate LeaderShifts(player: int, leader: int, empty: int)
  {
    (player > leader && empty >= leader && empty < player) ||
    (player < leader && ((player + 4 > empty && empty >= leader) || (player > empty && empty + 4 >= leader)))
  }

  /** The seat that led `played`, given the seat `player` about to play. */
  function Leader(played: seq<Card>, player: int, alone: int): (leader: int)
    ensures alone < 0 ==> leader == Rem4(player + 4 - |played|)
    ensures alone >= 0 ==> leader == Rem4(player + 4 - |played|) || leader == Rem4(player + 4 - |played|) - 1
  {
    var leader := Rem4(player + 4 - |played|);
    if alone >= 0 && LeaderShifts(player, leader, Rem4(alone + 2)) then leader - 1 else leader
  }

  /** The seat that led `played`, given the seat `player` that played its last card. */
  function LeaderInclusive(played: seq<Card>, player: int, alone: int): (leader: int)
    requires |played| > 0
    ensures alone < 0 ==> leader == Rem4(player + 5 - |played|)
    ensures alone >= 0 ==> leader == Rem4(player + 5 - |played|) || leader == Rem4(player + 5 - |played|) - 1
  {
    Leader(played[..|played| - 1], player, alone)
  }

  /** With nobody alone, the `k`-th seat of a trick recovers its leader from
      the `k` cards played before it. */
  lemma LeaderFindsLead(played: seq<Card>, led: int, alone: int)
    requires IsSeat(led) && alone < 0 && |played| < 4
    ensures |PlayOrder(led, alone)| == 4
    ensures Leader(played, PlayOrder(led, alone)[|played|], alone) == led
  {
  }

  /** With nobody alone, the seat that played the last card of `played`
      recovers its leader. */
  lemma LeaderInclusiveFindsLead(played: seq<Card>, led: int, alone: int)
    requires IsSeat(led) && alone < 0 && 0 < |played| <= 4
    ensures |PlayOrder(led, alone)| == 4
    ensures LeaderInclusive(played, PlayOrder(led, alone)[|played| - 1], alone) == led
  {
    LeaderFindsLead(played[..|played| - 1], led, alone);
  }

  /** With somebody alone, Leader is right up to a multiple of four: the step
      back is taken without wrapping round from seat 0 to seat 3. */
  lemma LeaderAloneUpToWrap(played: seq<Card>, led: int, alone: int)
    requires IsSeat(led) && IsAlone(alone) && !SitsOut(alone, led) && |played| < 3
    ensures |PlayOrder(led, alone)| == 3
    ensures Leader(played, PlayOrder(led, alone)[|played|], alone) % 4 == led
  {
    PlayOrderExplicit(led, alone);
    var k := |played|;
    var player := PlayOrder(led, alone)[k];
    if k < Dist(led, Absent(alone)) {
      assert player == (led + k) % 4;
    } else {
      assert player == (led + k + 1) % 4;
    }
    LeaderStep(played, led, alone, player);
  }

  /** The `k`-th seat playing, with the seat sitting out skipped. */
  function AloneSeat(led: int, alone: int, k: int): (p: int)
    requires IsSeat(led) && IsAlone(alone)
    ensures IsSeat(p)
  {
    if k < Dist(led, Absent(alone)) then (led + k) % 4 else (led + k + 1) % 4
  }

  /** With somebody alone, the seat about to play the `k`-th card of a
      three-card trick leads Leader back to the leader modulo 4, and
      LeaderCorrected back to the leader exactly. */
  lemma LeaderStep(played: seq<Card>, led: int, alone: int, player: int)
    requires IsSeat(led) && IsAlone(alone) && !SitsOut(alone, led) && |played| < 3
    requires player == AloneSeat(led, alone, |played|)
    ensures Leader(played, player, alone) % 4 == led
    ensures LeaderCorrected(played, player, alone) == led
  {
  }

  /** A trick led from seat 3 with seat 0 sitting out: seat 1 plays second,
      yet Leader answers -1. */
  lemma LeaderMissesWrap(c: Card)
    ensures PlayOrder(3, 2) == [3, 1, 2]
    ensures Leader([c], 1, 2) == -1
  {
    WithoutFour(3, 0, 1, 2, 0);
  }

  /** Leader reads the sentinel 4 for "nobody alone" as seat 0 going alone. */
  lemma LeaderSentinelFour(c: Card)
    ensures Leader([c], 3, -1) == 2
    ensures Leader([c], 3, 4) == 1
  {
  }

  /** Leader with the step back taken modulo 4, and any `alone` outside
      [0,3] read as nobody alone, as Winner and NoSuits read it. */
  function LeaderCorrected(played: seq<Card>, player: int, alone: int): (leader: int)
    ensures -4 < leader < 4
  {
    var leader := Rem4(player + 4 - |played|);
    if IsAlone(alone) && LeaderShifts(player, leader, Rem4(alone + 2)) then Rem4(leader + 3) else leader
  }

  /** The `k`-th seat of a trick recovers its leader from the `k` cards played
      before it, whoever is alone. */
  lemma LeaderCorrectedFindsLead(played: seq<Card>, led: int, alone: int)
    requires IsSeat(led) && !SitsOut(alone, led) && |played| < TrickSize(alone)
    ensures |PlayOrder(led, alone)| == TrickSize(alone)
    ensures LeaderCorrected(played, PlayOrder(led, alone)[|played|], alone) == led
  {
    PlayOrderExplicit(led, alone);
    var k := |played|;
    var player := PlayOrder(led, alone)[k];
    if !IsAlone(alone) {
      assert player == (led + k) % 4;
    } else if k < Dist(led, Absent(alone)) {
      assert player == (led + k) % 4;
      LeaderStep(played, led, alone, player);
    } else {
      assert player == (led + k + 1) % 4;
      LeaderStep(played, led, alone, player);
    }
  }

  /** A prior trick NoSuits can read: its leader is a seat and it holds a card
      for every seat that played. */
  predicate Complete(t: Trick) { IsSeat(t.led) && |t.cards| >= TrickSize(t.alone) }

  function LedSuit(t: Trick, trump: Suit): Suit
    requires |t.cards| > 0
  {
    t.cards[0].AdjSuit(trump)
  }

  /** Whether seat `p` played in `t` and failed to follow the led suit. */
  predicate ShowedOut(t: Trick, trump: Suit, p: int)
  {
    Complete(t) && IsSeat(p) && !SitsOut(t.alone, p) &&
    t.cards[CardOffset(t.led, t.alone, p)].AdjSuit(trump) != LedSuit(t, trump)
  }

  /** The suits seat `p` has shown it lacks, one per prior trick it showed out of. */
  function Voids(prior: seq<Trick>, trump: Suit, p: int): (r: seq<Suit>)
    ensures |r| <= |prior|
  {
    if prior == [] then [] else Voids(prior[..|prior| - 1], trump, p) + Noted(prior[|prior| - 1], trump, p)
  }

  /** What one trick adds to the suits recorded against seat `p`. */
  function Noted(t: Trick, trump: Suit, p: int): seq<Suit>
  {
    if ShowedOut(t, trump, p) then [LedSuit(t, trump)] else []
  }

  lemma VoidsSnoc(prior: seq<Trick>, trump: Suit, p: int, i: int)
    requires 0 <= i < |prior|
    ensures Voids(prior[..i + 1], trump, p) == Voids(prior[..i], trump, p) + Noted(prior[i], trump, p)
  {
    assert prior[..i + 1][..i] == prior[..i];
  }

  /** Every suit recorded against a seat is the led suit of a trick it showed out of. */
  lemma {:induction false} VoidsSound(prior: seq<Trick>, trump: Suit, p: int, s: Suit)
    requires IsSeat(p) && s in Voids(prior, trump, p)
    ensures exists i :: 0 <= i < |prior| && ShowedOut(prior[i], trump, p) && LedSuit(prior[i], trump) == s
  {
    var n := |prior|;
    var init := prior[..n - 1];
    if s in Voids(init, trump, p) {
      VoidsSound(init, trump, p, s);
      var i :| 0 <= i < |init| && ShowedOut(init[i], trump, p) && LedSuit(init[i], trump) == s;
      assert prior[i] == init[i];
    } else {
      assert ShowedOut(prior[n - 1], trump, p);
    }
  }

  /** Every trick a seat showed out of records its led suit against that seat. */
  lemma {:induction false} VoidsComplete(prior: seq<Trick>, trump: Suit, p: int, i: int)
    requires IsSeat(p) && 0 <= i < |prior| && ShowedOut(prior[i], trump, p)
    ensures LedSuit(prior[i], trump) in Voids(prior, trump, p)
  {
    var n := |prior|;
    var init := prior[..n - 1];
    if i < n - 1 {
      assert init[i] == prior[i];
      VoidsComplete(init, trump, p, i);
    }
  }

  /** The leader and the seat sitting out never show out. */
  lemma NeverShowsOut(t: Trick, trump: Suit, p: int)
    requires Complete(t) && IsSeat(p)
    requires p == t.led || SitsOut(t.alone, p)
    ensures !ShowedOut(t, trump, p)
  {
  }

  /** The card ShowedOut inspects for a seat is the card that seat played:
      in a trick whose leader plays, seat `p` showed out exactly when the card
      at its place in the playing order is off the led suit. */
  lemma ShowedOutAtSeat(t: Trick, trump: Suit, p: int, k: int)
    requires Complete(t) && !SitsOut(t.alone, t.led) && IsSeat(p) && !SitsOut(t.alone, p)
    requires 0 <= k < TrickSize(t.alone)
    requires |PlayOrder(t.led, t.alone)| == TrickSize(t.alone) && PlayOrder(t.led, t.alone)[k] == p
    ensures ShowedOut(t, trump, p) <==> t.cards[k].AdjSuit(trump) != LedSuit(t, trump)
  {
    PlayOrderShape(t.led, t.alone);
    PlayOrderOffset(t.led, t.alone, p);
  }

  /** NoSuits' inner walk: -1 when the seat sitting out lies clockwise from the
      leader `led` up to but excluding `player`, else 0. */
  method AbsentAdjust(led: int, player: int, alone: int) returns (adjust: int)
    requires IsSeat(led) && IsSeat(player)
    ensures adjust == if IsAlone(alone) && Before(led, player, Absent(alone)) then -1 else 0
  {
    var alonePlayer := alone >= 0 && alone < 4;
    adjust := 0;
    var j := led;
    ghost var steps := 0;
    while j != player
      invariant IsSeat(j) && adjust == 0
      invariant 0 <= steps <= Dist(led, player) && steps == Dist(led, j)
      invariant alonePlayer ==> steps <= Dist(led, Absent(alone))
      decreases Dist(led, player) - steps
    {
      if alonePlayer && j == (alone + 2) % 4 {
        adjust := -1;
        break;
      }
      j := (j + 1) % 4;
      steps := steps + 1;
    }
  }

  /** Whether `noSuits` holds exactly `suits` for seat `p`, with no entry for
      an empty list (a Go map reads a missing key as an empty slice). */
  predicate Recorded(noSuits: map<int, seq<Suit>>, p: int, suits: seq<Suit>)
  {
    (p in noSuits <==> suits != []) && (p in noSuits ==> noSuits[p] == suits)
  }

  /** The list `noSuits` holds for `p`, empty when it has no entry. */
  function Entry(noSuits: map<int, seq<Suit>>, p: int): seq<Suit>
  {
    if p in noSuits then noSuits[p] else []
  }

  /** The index NoSuits computes for a seat's card is that seat's offset from
      the leader, minus one past the seat sitting out. */
  lemma CardIndex(led: int, alone: int, player: int, adjust: int)
    requires IsSeat(led) && IsSeat(player) && !SitsOut(alone, player)
    requires adjust == if IsAlone(alone) && Before(led, player, Absent(alone)) then -1 else 0
    ensures (player + 4 - led + adjust) % 4 == CardOffset(led, alone, player)
  {
  }

  /** So a seat's entry grows exactly when the card at that index is off the led suit. */
  lemma NotedAtIndex(t: Trick, trump: Suit, player: int, adjust: int)
    requires Complete(t) && IsSeat(player) && !SitsOut(t.alone, player)
    requires adjust == if IsAlone(t.alone) && Before(t.led, player, Absent(t.alone)) then -1 else 0
    ensures 0 <= (player + 4 - t.led + adjust) % 4 < |t.cards|
    ensures Noted(t, trump, player) ==
      if t.cards[0].AdjSuit(trump) != t.cards[(player + 4 - t.led + adjust) % 4].AdjSuit(trump)
      then [t.cards[0].AdjSuit(trump)] else []
  {
    CardIndex(t.led, t.alone, player, adjust);
  }

  /** One seat of one trick: the seat, when it took part and played off the
      led suit, gets the led suit appended to its list. */
  method RecordSeat(noSuits: map<int, seq<Suit>>, trick: Trick, trump: Suit, player: int)
    returns (updated: map<int, seq<Suit>>)
    requires Complete(trick) && IsSeat(player)
    ensures forall p :: p in updated <==> p in noSuits || (p == player && Noted(trick, trump, p) != [])
    ensures forall p :: p in updated ==>
      updated[p] == Entry(noSuits, p) + (if p == player then Noted(trick, trump, p) else [])
  {
    updated := noSuits;
    var alonePlayer := trick.alone >= 0 && trick.alone < 4;
    if alonePlayer && player == (trick.alone + 2) % 4 {
      return;
    }
    var first := trick.cards[0];
    var adjust := AbsentAdjust(trick.led, player, trick.alone);
    NotedAtIndex(trick, trump, player, adjust);
    var playedCard := trick.cards[(player + 4 - trick.led + adjust) % 4];
    if first.AdjSuit(trump) != playedCard.AdjSuit(trump) {
      updated := updated[player := (if player in updated then updated[player] else []) + [first.AdjSuit(trump)]];
    }
  }

  /** One trick of NoSuits' outer loop: every seat that took part and played
      off the led suit gets the led suit appended to its list. */
  method RecordTrick(noSuits: map<int, seq<Suit>>, trick: Trick, trump: Suit)
    returns (updated: map<int, seq<Suit>>)
    requires Complete(trick)
    ensures forall p :: p in updated <==> p in noSuits || Noted(trick, trump, p) != []
    ensures forall p :: p in updated ==> updated[p] == Entry(noSuits, p) + Noted(trick, trump, p)
  {
    updated := noSuits;
    var player := 0;
    while player < 4
      invariant 0 <= player <= 4
      invariant forall p :: p in updated <==> p in noSuits || (p < player && Noted(trick, trump, p) != [])
      invariant forall p :: p in updated ==>
        updated[p] == Entry(noSuits, p) + (if p < player then Noted(trick, trump, p) else [])
    {
      updated := RecordSeat(updated, trick, trump, player);
      player := player + 1;
    }
  }

  /** Recording trick `i` on top of the record of the tricks before it gives
      the record of the tricks up to and including it. */
  lemma RecordedNext(prior: seq<Trick>, trump: Suit, i: int, before: map<int, seq<Suit>>, after: map<int, seq<Suit>>)
    requires 0 <= i < |prior|
    requires forall p :: p in before ==> IsSeat(p)
    requires forall p :: IsSeat(p) ==> Recorded(before, p, Voids(prior[..i], trump, p))
    requires forall p :: p in after <==> p in before || Noted(prior[i], trump, p) != []
    requires forall p :: p in after ==> after[p] == Entry(before, p) + Noted(prior[i], trump, p)
    ensures forall p :: p in after ==> IsSeat(p)
    ensures forall p :: IsSeat(p) ==> Recorded(after, p, Voids(prior[..i + 1], trump, p))
  {
    forall p | IsSeat(p) ensures Recorded(after, p, Voids(prior[..i + 1], trump, p)) {
      VoidsSnoc(prior, trump, p, i);
      assert Entry(before, p) == Voids(prior[..i], trump, p);
    }
  }

  /** The suits each seat cannot hold, from the prior tricks in which it did
      not follow the led suit. */
  method NoSuits(prior: seq<Trick>, trump: Suit) returns (noSuits: map<int, seq<Suit>>)
    requires forall i :: 0 <= i < |prior| ==> Complete(prior[i])
    ensures forall p :: p in noSuits <==> IsSeat(p) && Voids(prior, trump, p) != []
    ensures forall p :: p in noSuits ==> IsSeat(p) && noSuits[p] == Voids(prior, trump, p)
  {
    noSuits := map[];
    var i := 0;
    while i < |prior|
      invariant 0 <= i <= |prior|
      invariant forall p :: p in noSuits ==> IsSeat(p)
      invariant forall p :: IsSeat(p) ==> Recorded(noSuits, p, Voids(prior[..i], trump, p))
    {
      ghost var before := noSuits;
      noSuits := RecordTrick(noSuits, prior[i], trump);
      RecordedNext(prior, trump, i, before, noSuits);
      i := i + 1;
    }
    assert prior[..|prior|] == prior;
  }

  /** Fresh copies of every hand: the same cards, in arrays shared with
      nothing else. */
  method CopyAllHands(hands: array<array<Card>>) returns (copyHands: array<array<Card>>)
    ensures fresh(copyHands) && copyHands.Length == hands.Length
    ensures forall i :: 0 <= i < hands.Length ==> fresh(copyHands[i]) && copyHands[i][..] == hands[i][..]
    ensures forall i, j :: 0 <= i < j < copyHands.Length ==> copyHands[i] != copyHands[j]
  {
    var none := new Card[0];
    copyHands := new array<Card>[hands.Length](_ => none);
    var i := 0;
    while i < hands.Length
      invariant 0 <= i <= hands.Length
      invariant fresh(copyHands)
      invariant forall k :: 0 <= k < i ==> fresh(copyHands[k]) && copyHands[k][..] == hands[k][..]
      invariant forall k, l :: 0 <= k < l < i ==> copyHands[k] != copyHands[l]
    {
      var hand := hands[i][..];
      var copyHand := new Card[|hand|](k requires 0 <= k < |hand| => hand[k]);
      copyHands[i] := copyHand;
      i := i + 1;
    }
  }

  /** The cards mapped to true in `cardsSet`, each once, in no particular order. */
  method ExtractAvailableCards(cardsSet: map<Card, bool>) returns (cards: seq<Card>)
    ensures forall c :: c in cards <==> c in cardsSet && cardsSet[c]
    ensures forall i, j :: 0 <= i < j < |cards| ==> cards[i] != cards[j]
  {
    cards := [];
    var rest := cardsSet.Keys;
    while rest != {}
      invariant rest <= cardsSet.Keys
      invariant forall c :: c in cards <==> c in cardsSet && cardsSet[c] && c !in rest
      invariant forall i, j :: 0 <= i < j < |cards| ==> cards[i] != cards[j]
      decreases |rest|
    {
      var card :| card in rest;
      if cardsSet[card] {
        cards := cards + [card];
      }
      rest := rest - {card};
    }
  }
}
