/** The lucky draw: a pool of candidates (everybody, or only those who have not
    won yet), a slot that steps through the pool for a number of ticks, and a
    history of winners, newest first. */
module LuckyDraw {
  import opened Types
  import opened Arith

  // ---------------------------------------------------------------------------
  // The candidate pool

  /** The participants whose id does not occur in the history, in their
      original order. */
  function Unwon(participants: seq<Participant>, history: seq<Participant>): (pool: seq<Participant>)
    ensures |pool| <= |participants|
    ensures forall p :: p in pool <==> p in participants && p.id !in IdSet(history)
  {
    if participants == [] then []
    else
      var rest := Unwon(participants[1..], history);
      assert forall p :: p in participants <==> p == participants[0] || p in participants[1..];
      if participants[0].id in IdSet(history) then rest else [participants[0]] + rest
  }

  /** The filter keeps the order: filtering a concatenation filters each part. */
  lemma {:induction false} UnwonAppend(a: seq<Participant>, b: seq<Participant>, history: seq<Participant>)
    ensures Unwon(a + b, history) == Unwon(a, history) + Unwon(b, history)
  {
    if a != [] {
      assert (a + b)[0] == a[0];
      assert (a + b)[1..] == a[1..] + b;
      UnwonAppend(a[1..], b, history);
      var x, y := Unwon(a[1..], history), Unwon(b, history);
      assert [a[0]] + (x + y) == ([a[0]] + x) + y;
    } else {
      assert a + b == b;
    }
  }

  /** `availableParticipants`: everybody when repeats are allowed, otherwise
      those who have not won. */
  function Pool(participants: seq<Participant>, history: seq<Participant>, allowRepeat: bool): (pool: seq<Participant>)
    ensures forall p :: p in pool ==> p in participants
    ensures allowRepeat ==> pool == participants
    ensures !allowRepeat ==> forall p :: p in pool <==> p in participants && p.id !in IdSet(history)
  {
    if allowRepeat then participants else Unwon(participants, history)
  }

  /** An empty history leaves everybody in the pool. */
  lemma {:induction false} UnwonEmptyHistory(participants: seq<Participant>)
    ensures Unwon(participants, []) == participants
  {
    if participants != [] {
      UnwonEmptyHistory(participants[1..]);
    }
  }

  // ---------------------------------------------------------------------------
  // Counting ids

  lemma {:induction false} IdSetSize(ps: seq<Participant>)
    ensures |IdSet(ps)| <= |ps|
    ensures DistinctIds(ps) ==> |IdSet(ps)| == |ps|
  {
    if ps != [] {
      IdSetSize(ps[1..]);
      IdSetCons(ps);
      if DistinctIds(ps) {
        DistinctHeadFresh(ps);
      }
    }
  }

  lemma IdSetCons(ps: seq<Participant>)
    requires ps != []
    ensures IdSet(ps) == {ps[0].id} + IdSet(ps[1..])
  {
    assert forall p :: p in ps <==> p == ps[0] || p in ps[1..];
  }

  lemma DistinctHeadFresh(ps: seq<Participant>)
    requires ps != [] && DistinctIds(ps)
    ensures DistinctIds(ps[1..]) && ps[0].id !in IdSet(ps[1..])
  {
    forall p | p in ps[1..]
      ensures p.id != ps[0].id
    {
      var m :| 0 <= m < |ps[1..]| && ps[1..][m] == p;
      assert ps[m + 1] == p;
    }
  }

  /** A history of distinct winners all taken from the participants is no
      longer than the participant list. */
  lemma HistoryBounded(participants: seq<Participant>, history: seq<Participant>)
    requires DistinctIds(history)
    requires forall w :: w in history ==> w in participants
    ensures |history| <= |participants|
  {
    IdSetSize(history);
    IdSetSize(participants);
    SubsetSize(IdSet(history), IdSet(participants));
  }

  lemma {:induction false} SubsetSize<T>(a: set<T>, b: set<T>)
    requires a <= b
    ensures |a| <= |b|
    decreases |a|
  {
    if a != {} {
      var x :| x in a;
      SubsetSize(a - {x}, b - {x});
    }
  }

  /** Putting a winner whose id is not yet in a distinct history in front
      keeps it distinct. */
  lemma PrependFresh(w: Participant, history: seq<Participant>)
    requires DistinctIds(history) && w.id !in IdSet(history)
    ensures DistinctIds([w] + history)
  {
    forall i, j | 0 <= i < j < |[w] + history|
      ensures ([w] + history)[i].id != ([w] + history)[j].id
    {
      if i == 0 {
        assert history[j - 1] in history;
      }
    }
  }

  /** With repeats off, whoever is drawn from a non-empty pool has not won
      before, at whatever index the slot stands. */
  lemma NoRepeatWinnerIsFresh(participants: seq<Participant>, history: seq<Participant>, index: nat)
    requires Pool(participants, history, false) != []
    ensures var pool := Pool(participants, history, false);
      && pool[index % |pool|] in participants
      && pool[index % |pool|].id !in IdSet(history)
  {
    var pool := Pool(participants, history, false);
    assert pool[index % |pool|] in pool;
  }

  // ---------------------------------------------------------------------------
  // The slot

  /** The display index after `n` ticks of `prev => (prev + 1) % len`. */
  function Advance(d: nat, n: nat, len: nat): nat
    requires len >= 1
  {
    if n == 0 then d else (Advance(d, n - 1, len) + 1) % len
  }

  lemma ModSucc(x: nat, len: nat)
    requires len >= 1
    ensures (x % len + 1) % len == (x + 1) % len
  {
    var q, r := x / len, x % len;
    assert x == q * len + r;
    if r + 1 < len {
      DivModUnique(x + 1, len, q, r + 1);
      DivModUnique(r + 1, len, 0, r + 1);
    } else {
      MulSucc(q, len);
      DivModUnique(x + 1, len, q + 1, 0);
      DivModUnique(len, len, 1, 0);
    }
  }

  /** After at least one tick the index is the start index moved on by the
      number of ticks, wrapped at the pool size. */
  lemma {:induction false} AdvanceClosedForm(d: nat, n: nat, len: nat)
    requires len >= 1 && n >= 1
    ensures Advance(d, n, len) == (d + n) % len
  {
    if n > 1 {
      AdvanceClosedForm(d, n - 1, len);
      ModSucc(d + n - 1, len);
    }
  }

  /** The winner as the code settles it: the pool entry at the display index
      captured when the draw started, not the one the slot stopped on. */
  function StaleWinner(pool: seq<Participant>, d0: nat): (w: Participant)
    requires pool != []
    ensures w in pool
  {
    pool[d0 % |pool|]
  }

  /** The entry in the last frame the slot paints. The last tick moves the
      index in the same callback that stops the spin, so that frame shows the
      index reached after `maxCount - 1` ticks. */
  function IntendedWinner(pool: seq<Participant>, d0: nat, maxCount: nat): (w: Participant)
    requires pool != [] && maxCount >= 2
    ensures w in pool
    ensures w == pool[Advance(d0, maxCount - 1, |pool|)]
  {
    AdvanceClosedForm(d0, maxCount - 1, |pool|);
    pool[(d0 + maxCount - 1) % |pool|]
  }

  /** The two differ: with two candidates, a start index of 0 and 30 ticks the
      last frame shows the second candidate while the first is announced. */
  lemma StaleWinnerDiffersFromLastFrame(a: Participant, b: Participant)
    requires a != b
    ensures StaleWinner([a, b], 0) != IntendedWinner([a, b], 0, 30)
  {
    assert StaleWinner([a, b], 0) == a;
    assert IntendedWinner([a, b], 0, 30) == [a, b][1];
  }

  /** They agree exactly when the ticks before the last one are a multiple of
      the pool size. */
  lemma StaleWinnerAgreesWhen(pool: seq<Participant>, d0: nat, maxCount: nat)
    requires pool != [] && maxCount >= 2 && DistinctIds(pool)
    ensures StaleWinner(pool, d0) == IntendedWinner(pool, d0, maxCount) <==> (maxCount - 1) % |pool| == 0
  {
    var len := |pool|;
    var i, j := d0 % len, (d0 + (maxCount - 1)) % len;
    ModAdd(d0, maxCount - 1, len);
    if (maxCount - 1) % len != 0 {
      assert pool[i].id != pool[j].id;
    }
  }

  lemma ModAdd(a: nat, b: nat, len: nat)
    requires len >= 1
    ensures (a + b) % len == a % len <==> b % len == 0
  {
    var ra, rb := a % len, b % len;
    ModOfSum(a, b, len);
    if ra + rb < len {
      DivModUnique(ra + rb, len, 0, ra + rb);
    } else {
      DivModUnique(ra + rb, len, 1, ra + rb - len);
    }
  }

  // ---------------------------------------------------------------------------
  // The component

  /** The draw panel. It is mounted with the current participant list; the
      ghost flag records whether any draw since the last reset was made with
      repeats allowed. */
  class DrawState {
    const participants: seq<Participant>
    var isSpinning: bool
    var allowRepeat: bool
    var winner: Option<Participant>
    var winnersHistory: seq<Participant>
    var displayIndex: nat
    ghost var repeatedSinceReset: bool

    /** Every winner is a participant, and without repeats no id is twice in
        the history. */
    ghost predicate Valid()
      reads this
    {
      && (forall w :: w in winnersHistory ==> w in participants)
      && (!repeatedSinceReset ==> DistinctIds(winnersHistory))
    }

    function AvailableParticipants(): seq<Participant>
      reads this
    {
      Pool(participants, winnersHistory, allowRepeat)
    }

    constructor (participants: seq<Participant>)
      ensures Valid()
      ensures this.participants == participants
      ensures !isSpinning && !allowRepeat && winner == None
      ensures winnersHistory == [] && displayIndex == 0
      ensures !repeatedSinceReset
      ensures AvailableParticipants() == participants
    {
      this.participants := participants;
      isSpinning := false;
      allowRepeat := false;
      winner := None;
      winnersHistory := [];
      displayIndex := 0;
      repeatedSinceReset := false;
      UnwonEmptyHistory(participants);
    }

    /** The repeat checkbox flips the setting and nothing else. */
    method ToggleRepeat()
      requires Valid()
      modifies this
      ensures Valid()
      ensures allowRepeat == !old(allowRepeat)
      ensures isSpinning == old(isSpinning) && winner == old(winner)
      ensures winnersHistory == old(winnersHistory) && displayIndex == old(displayIndex)
      ensures repeatedSinceReset == old(repeatedSinceReset)
    {
      allowRepeat := !allowRepeat;
    }

    /** `startDraw`: ignored while spinning or with an empty pool; otherwise
        spin for `30 + extra` ticks (`extra` stands for the random part of
        `maxCount`) and settle on the pool entry at the display index captured
        when the draw started. Returns the number of ticks. */
    method StartDraw(extra: nat) returns (ticks: nat)
      requires Valid() && extra < 20
      modifies this
      ensures Valid()
      ensures allowRepeat == old(allowRepeat)
      ensures repeatedSinceReset == (old(repeatedSinceReset) || (allowRepeat && !old(isSpinning) && old(AvailableParticipants()) != []))
      ensures old(isSpinning) || old(AvailableParticipants()) == [] ==>
        && ticks == 0
        && isSpinning == old(isSpinning) && winner == old(winner)
        && winnersHistory == old(winnersHistory) && displayIndex == old(displayIndex)
      ensures !old(isSpinning) && old(AvailableParticipants()) != [] ==>
        var pool := old(AvailableParticipants());
        var w := StaleWinner(pool, old(displayIndex));
        && ticks == 30 + extra
        && winner == Some(w)
        && winnersHistory == [w] + old(winnersHistory)
        && !isSpinning
        && displayIndex == (old(displayIndex) + ticks) % |pool|
    {
      var pool := AvailableParticipants();
      if isSpinning || |pool| == 0 {
        return 0;
      }
      isSpinning := true;
      winner := None;
      var maxCount := 30 + extra;
      var count := 0;
      // the closure reads `displayIndex` as it was when the draw started
      var d0 := displayIndex;
      while count < maxCount
        invariant count <= maxCount
        invariant isSpinning && winner == None
        invariant winnersHistory == old(winnersHistory) && allowRepeat == old(allowRepeat)
        invariant repeatedSinceReset == old(repeatedSinceReset)
        invariant displayIndex == Advance(d0, count, |pool|)
      {
        displayIndex := (displayIndex + 1) % |pool|;
        count := count + 1;
      }
      AdvanceClosedForm(d0, maxCount, |pool|);
      var finalWinner := pool[d0 % |pool|];
      if !allowRepeat {
        NoRepeatWinnerIsFresh(participants, winnersHistory, d0);
        if !repeatedSinceReset {
          PrependFresh(finalWinner, winnersHistory);
        }
      } else {
        repeatedSinceReset := true;
      }
      winner := Some(finalWinner);
      winnersHistory := [finalWinner] + winnersHistory;
      isSpinning := false;
      ticks := count;
    }

    /** `resetHistory`: forget every winner; the spin state, the display index
        and the repeat setting stay. */
    method ResetHistory()
      requires Valid()
      modifies this
      ensures Valid()
      ensures winnersHistory == [] && winner == None && !repeatedSinceReset
      ensures isSpinning == old(isSpinning) && displayIndex == old(displayIndex)
      ensures allowRepeat == old(allowRepeat)
      ensures AvailableParticipants() == participants
    {
      winnersHistory := [];
      winner := None;
      repeatedSinceReset := false;
      UnwonEmptyHistory(participants);
    }
  }

  /** Without repeats since the last reset the history never outgrows the
      participant list. */
  lemma NoRepeatHistoryBounded(d: DrawState)
    requires d.Valid() && !d.repeatedSinceReset
    ensures |d.winnersHistory| <= |d.participants|
  {
    HistoryBounded(d.participants, d.winnersHistory);
  }
}
