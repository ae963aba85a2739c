/** Random grouping: shuffle the participants with a Fisher-Yates pass over a
    copy, cut the shuffled list into consecutive slices of the chosen size and
    name each slice from the supplied creative names, falling back to a
    numbered label. */
module AutoGrouping {
  import opened Types
  import opened Arith

  // ---------------------------------------------------------------------------
  // Shuffling

  /** The random choices of one shuffle: `picks[i]` is the index `j` that
      `Math.floor(Math.random() * (i + 1))` produced when the loop was at `i`,
      so `0 <= j <= i` (`picks[0]` is never used). */
  predicate ValidPicks(picks: seq<nat>, n: nat)
  {
    |picks| == n && forall i :: 0 < i < n ==> picks[i] <= i
  }

  /** The destructuring swap `[s[i], s[j]] = [s[j], s[i]]`. */
  function Swap<T>(s: seq<T>, i: nat, j: nat): (r: seq<T>)
    requires i < |s| && j < |s|
    ensures |r| == |s|
  {
    s[i := s[j]][j := s[i]]
  }

  /** A swap rearranges and never adds or loses an element. */
  lemma SwapPermutes<T>(s: seq<T>, i: nat, j: nat)
    requires i < |s| && j < |s|
    ensures multiset(Swap(s, i, j)) == multiset(s)
  {
  }

  /** The swaps the loop performs for `i` from `from` down to 1. */
  function SwapsDownFrom<T>(s: seq<T>, picks: seq<nat>, from: int): (r: seq<T>)
    requires ValidPicks(picks, |s|) && from < |s|
    ensures |r| == |s|
    decreases from
  {
    if from <= 0 then s
    else SwapsDownFrom(Swap(s, from, picks[from]), picks, from - 1)
  }

  /** The Fisher-Yates shuffle of `s` under the choices `picks`. */
  function FisherYates<T>(s: seq<T>, picks: seq<nat>): seq<T>
    requires ValidPicks(picks, |s|)
  {
    SwapsDownFrom(s, picks, |s| - 1)
  }

  /** One turn of the loop: after swapping at `i`, the swaps still to come
      are those from `i - 1` down. */
  lemma SwapsDownFromStep<T>(before: seq<T>, picks: seq<nat>, i: nat, after: seq<T>)
    requires ValidPicks(picks, |before|) && 0 < i < |before|
    requires after == Swap(before, i, picks[i])
    ensures SwapsDownFrom(before, picks, i) == SwapsDownFrom(after, picks, i - 1)
  {
  }

  /** Every sequence of swaps rearranges and never adds or loses an element. */
  lemma {:induction false} SwapsDownFromPermutes<T>(s: seq<T>, picks: seq<nat>, from: int)
    requires ValidPicks(picks, |s|) && from < |s|
    ensures multiset(SwapsDownFrom(s, picks, from)) == multiset(s)
    decreases from
  {
    if from > 0 {
      SwapPermutes(s, from, picks[from]);
      SwapsDownFromPermutes(Swap(s, from, picks[from]), picks, from - 1);
    }
  }

  /** `shuffleArray`: copy the input into a fresh array and swap in place from
      the last index down to 1. The input is a value, so it is left as it was. */
  method Shuffle<T>(s: seq<T>, picks: seq<nat>) returns (shuffled: seq<T>)
    requires ValidPicks(picks, |s|)
    ensures shuffled == FisherYates(s, picks)
    ensures multiset(shuffled) == multiset(s)
    ensures |s| <= 1 ==> shuffled == s
  {
    var a := new T[|s|](k requires 0 <= k < |s| => s[k]);
    assert a[..] == s;
    var i := |s| - 1;
    while i > 0
      invariant -1 <= i < |s| && (|s| > 0 ==> 0 <= i)
      invariant ValidPicks(picks, a.Length) && a.Length == |s|
      invariant SwapsDownFrom(a[..], picks, i) == FisherYates(s, picks)
      decreases i
    {
      var j := picks[i];
      ghost var before := a[..];
      var t := a[i];
      a[i] := a[j];
      a[j] := t;
      assert a[..] == Swap(before, i, j);
      SwapsDownFromStep(before, picks, i, a[..]);
      i := i - 1;
    }
    shuffled := a[..];
    ShuffleDone(s, picks, shuffled, i);
  }

  /** When the loop stops no swap is left, so the array holds the shuffle. */
  lemma ShuffleDone<T>(s: seq<T>, picks: seq<nat>, shuffled: seq<T>, i: int)
    requires ValidPicks(picks, |s|) && |shuffled| == |s| && i <= 0 && i < |s|
    requires SwapsDownFrom(shuffled, picks, i) == FisherYates(s, picks)
    ensures shuffled == FisherYates(s, picks)
    ensures multiset(shuffled) == multiset(s)
    ensures |s| <= 1 ==> shuffled == s
  {
    SwapsDownFromPermutes(s, picks, |s| - 1);
  }

  // ---------------------------------------------------------------------------
  // Cutting into groups

  function Min(a: int, b: int): int
  {
    if a <= b then a else b
  }

  /** `Math.ceil(n / k)` for whole numbers. */
  function CeilDiv(n: nat, k: nat): nat
    requires k >= 1
  {
    (n + k - 1) / k
  }

  /** `CeilDiv` is the least count of groups of size `k` that holds `n`. */
  lemma CeilDivIsLeastCover(n: nat, k: nat)
    requires k >= 1
    ensures CeilDiv(n, k) * k >= n
    ensures CeilDiv(n, k) > 0 ==> (CeilDiv(n, k) - 1) * k < n
    ensures CeilDiv(n, k) == 0 <==> n == 0
  {
    var c := CeilDiv(n, k);
    var r := (n + k - 1) % k;
    assert n + k - 1 == c * k + r;
    assert c * k >= n;
    if c > 0 {
      assert (c - 1) * k == c * k - k;
    }
  }

  /** JavaScript `slice(start, end)` with both ends clamped to the length. */
  function Slice<T>(s: seq<T>, start: nat, end: nat): seq<T>
  {
    var a := Min(start, |s|);
    var b := Min(end, |s|);
    if a >= b then [] else s[a..b]
  }

  /** The reference partition: the first `k` elements, then the partition of
      the rest. */
  function Chunks<T>(s: seq<T>, k: nat): seq<seq<T>>
    requires k >= 1
    decreases |s|
  {
    if s == [] then []
    else if |s| <= k then [s]
    else [s[..k]] + Chunks(s[k..], k)
  }

  function Flatten<T>(parts: seq<seq<T>>): seq<T>
  {
    if parts == [] then [] else parts[0] + Flatten(parts[1..])
  }

  /** The partition has `ceil(n / k)` parts. */
  lemma {:induction false} ChunksCount<T>(s: seq<T>, k: nat)
    requires k >= 1
    ensures |Chunks(s, k)| == CeilDiv(|s|, k)
    decreases |s|
  {
    if |s| > k {
      ChunksCount(s[k..], k);
      CeilDivStep(|s|, k);
    } else if s != [] {
      DivInRange(|s| + k - 1, k, 1);
    }
  }

  /** Removing one full group lowers the count by one. */
  lemma CeilDivStep(n: nat, k: nat)
    requires k >= 1 && n > k
    ensures CeilDiv(n, k) == CeilDiv(n - k, k) + 1
  {
    var x := n - 1;
    var q := x / k;
    assert x == q * k + x % k;
    assert (q + 1) * k == q * k + k;
    assert (q + 2) * k == q * k + k + k;
    DivInRange(x + k, k, q + 1);
  }

  /** Part `i` is the slice `[i*k, (i+1)*k)` of the input, clamped at its end:
      the source computes each group's members exactly this way. */
  lemma ChunksAt<T>(s: seq<T>, k: nat, i: nat)
    requires k >= 1 && i < |Chunks(s, k)|
    ensures Chunks(s, k)[i] == Slice(s, i * k, (i + 1) * k)
    ensures i * k < |s|
  {
    MulSucc(i, k);
    ChunkFrom(s, k, i, i * k);
  }

  /** `ChunksAt` with the start offset `i * k` named, so that the induction
      stays linear. */
  lemma {:induction false} ChunkFrom<T>(s: seq<T>, k: nat, i: nat, start: nat)
    requires k >= 1 && i < |Chunks(s, k)| && start == i * k
    ensures Chunks(s, k)[i] == Slice(s, start, start + k)
    ensures start < |s|
    decreases |s|
  {
    if i > 0 {
      assert |s| > k;
      assert Chunks(s, k)[i] == Chunks(s[k..], k)[i - 1];
      MulSucc(i - 1, k);
      ChunkFrom(s[k..], k, i - 1, start - k);
      SliceShift(s, k, start - k, start);
    }
  }

  /** Slicing after dropping `d` elements is slicing further right. */
  lemma SliceShift<T>(s: seq<T>, d: nat, a: nat, b: nat)
    requires d <= |s|
    ensures Slice(s[d..], a, b) == Slice(s, a + d, b + d)
  {
    if Min(a, |s| - d) < Min(b, |s| - d) {
      assert s[d..][Min(a, |s| - d)..Min(b, |s| - d)] == s[d + Min(a, |s| - d)..d + Min(b, |s| - d)];
    }
  }

  /** Concatenating the parts gives the input back. */
  lemma {:induction false} ChunksFlatten<T>(s: seq<T>, k: nat)
    requires k >= 1
    ensures Flatten(Chunks(s, k)) == s
    decreases |s|
  {
    if |s| > k {
      ChunksFlatten(s[k..], k);
      assert s == s[..k] + s[k..];
    }
  }

  /** Every part but the last has exactly `k` elements and the last one is
      non-empty (it holds the remaining `n - (count - 1) * k`). */
  lemma {:induction false} ChunksSizes<T>(s: seq<T>, k: nat)
    requires k >= 1
    ensures forall i :: 0 <= i < |Chunks(s, k)| - 1 ==> |Chunks(s, k)[i]| == k
    ensures forall i :: 0 <= i < |Chunks(s, k)| ==> 1 <= |Chunks(s, k)[i]| <= k
    decreases |s|
  {
    if |s| > k {
      ChunksSizes(s[k..], k);
      assert forall i :: 1 <= i < |Chunks(s, k)| ==> Chunks(s, k)[i] == Chunks(s[k..], k)[i - 1];
    }
  }

  /** Element `q` of the input sits in part `q / k` at offset `q % k`, so every
      participant lands in exactly one group. */
  lemma ChunksPosition<T>(s: seq<T>, k: nat, q: nat)
    requires k >= 1 && q < |s|
    ensures q / k < |Chunks(s, k)|
    ensures q % k < |Chunks(s, k)[q / k]|
    ensures Chunks(s, k)[q / k][q % k] == s[q]
  {
    var g, r := q / k, q % k;
    PartOfIndex(|s|, k, q);
    ChunksCount(s, k);
    ChunksAt(s, k, g);
    assert Chunks(s, k)[g] == s[g * k..Min((g + 1) * k, |s|)];
    assert g * k + r == q;
  }

  /** Index arithmetic behind `ChunksPosition`. */
  lemma PartOfIndex(n: nat, k: nat, q: nat)
    requires k >= 1 && q < n
    ensures q / k < CeilDiv(n, k)
    ensures (q / k) * k + q % k == q
    ensures q < (q / k + 1) * k
  {
    var g, r := q / k, q % k;
    assert q == g * k + r && 0 <= r < k;
    CeilDivIsLeastCover(n, k);
    MulCancelLess(g, CeilDiv(n, k), k);
    assert (g + 1) * k == g * k + k;
  }

  /** Conversely, offset `o` of part `g` is element `g * k + o` of the input:
      together with `ChunksPosition` this puts every participant in exactly
      one group, at exactly one place. */
  lemma ChunksPositionInverse<T>(s: seq<T>, k: nat, g: nat, o: nat)
    requires k >= 1 && g < |Chunks(s, k)| && o < |Chunks(s, k)[g]|
    ensures g * k + o < |s|
    ensures Chunks(s, k)[g][o] == s[g * k + o]
    ensures (g * k + o) / k == g && (g * k + o) % k == o
  {
    ChunksAt(s, k, g);
    var start := g * k;
    assert (g + 1) * k == start + k;
    assert Chunks(s, k)[g] == s[start..Min(start + k, |s|)];
    DivModUnique(g * k + o, k, g, o);
  }



  function SumSizes<T>(parts: seq<seq<T>>): nat
  {
    if parts == [] then 0 else |parts[0]| + SumSizes(parts[1..])
  }

  lemma {:induction false} SumSizesFlatten<T>(parts: seq<seq<T>>)
    ensures SumSizes(parts) == |Flatten(parts)|
  {
    if parts != [] {
      SumSizesFlatten(parts[1..]);
    }
  }

  /** The group sizes add up to the number of participants. */
  lemma ChunksSizesSum<T>(s: seq<T>, k: nat)
    requires k >= 1
    ensures SumSizes(Chunks(s, k)) == |s|
  {
    SumSizesFlatten(Chunks(s, k));
    ChunksFlatten(s, k);
  }

  /** When the group size is at least the number of participants, there is
      a single group holding everybody. */
  lemma ChunksSingle<T>(s: seq<T>, k: nat)
    requires k >= 1 && 1 <= |s| <= k
    ensures Chunks(s, k) == [s]
  {
  }

  // ---------------------------------------------------------------------------
  // Group names

  /** The digit characters `'0'`..`'9'`. */
  function Digit(d: nat): char
    requires d < 10
  {
    "0123456789"[d]
  }

  function DigitValue(c: char): int
  {
    c as int - '0' as int
  }

  /** A whole number in decimal, as a template literal prints it. */
  function DecimalString(n: nat): (s: string)
    ensures |s| >= 1
    decreases n
  {
    if n < 10 then [Digit(n)] else DecimalString(n / 10) + [Digit(n % 10)]
  }

  /** Reads a string of decimal digits back as a number. */
  function DecimalValue(s: string): int
  {
    if s == [] then 0 else 10 * DecimalValue(s[..|s| - 1]) + DigitValue(s[|s| - 1])
  }

  lemma {:induction false} DecimalRoundTrip(n: nat)
    ensures DecimalValue(DecimalString(n)) == n
    decreases n
  {
    var s := DecimalString(n);
    if n >= 10 {
      DecimalRoundTrip(n / 10);
      assert s[..|s| - 1] == DecimalString(n / 10);
    }
  }

  /** The fallback label `隊伍 {i + 1}` ("Team i+1"). */
  function FallbackName(i: nat): string
  {
    "\U{968A}\U{4F0D} " + DecimalString(i + 1)
  }

  /** Fallback labels of different groups differ. */
  lemma FallbackNamesDistinct(i: nat, j: nat)
    requires i != j
    ensures FallbackName(i) != FallbackName(j)
  {
    FallbackNameNumber(i);
    FallbackNameNumber(j);
  }

  /** The number can be read back from the label. */
  lemma FallbackNameNumber(i: nat)
    ensures DecimalValue(FallbackName(i)[3..]) == i + 1
  {
    assert FallbackName(i)[3..] == DecimalString(i + 1);
    DecimalRoundTrip(i + 1);
  }

  /** `names[i] || '隊伍 ' + (i + 1)`: a missing or empty creative name falls back
      to the numbered label, so no group is left without a name. */
  function GroupName(names: seq<string>, i: nat): (name: string)
    ensures name != []
    ensures i < |names| && names[i] != [] ==> name == names[i]
    ensures i >= |names| || names[i] == [] ==> name == FallbackName(i)
  {
    if i < |names| && names[i] != [] then names[i] else FallbackName(i)
  }

  /** The members of each group, in order. */
  function Members(groups: seq<Group>): (parts: seq<seq<Participant>>)
    ensures |parts| == |groups|
    ensures forall i :: 0 <= i < |groups| ==> parts[i] == groups[i].members
  {
    seq(|groups|, i requires 0 <= i < |groups| => groups[i].members)
  }

  /** The loop of `handleGroup`: push one group per slice of the shuffled list.
      `groupIds[i]` is the random id drawn for group `i`. */
  method BuildGroups(shuffled: seq<Participant>, k: nat, names: seq<string>, groupIds: seq<Id>)
    returns (result: seq<Group>)
    requires k >= 1 && |groupIds| >= CeilDiv(|shuffled|, k)
    ensures |result| == CeilDiv(|shuffled|, k)
    ensures Members(result) == Chunks(shuffled, k)
    ensures forall i :: 0 <= i < |result| ==> result[i].id == groupIds[i] && result[i].name == GroupName(names, i)
  {
    var groupCount := CeilDiv(|shuffled|, k);
    result := [];
    for i := 0 to groupCount
      invariant |result| == i
      invariant forall g :: 0 <= g < i ==>
        result[g] == Group(groupIds[g], GroupName(names, g), Slice(shuffled, g * k, (g + 1) * k))
    {
      result := result + [Group(groupIds[i], GroupName(names, i), Slice(shuffled, i * k, (i + 1) * k))];
    }
    ChunksCount(shuffled, k);
    forall g | 0 <= g < groupCount
      ensures Members(result)[g] == Chunks(shuffled, k)[g]
    {
      ChunksAt(shuffled, k, g);
    }
  }

  /** The grouping panel. It is mounted with the current participant list and
      keeps the chosen group size and the last grouping. */
  class GroupingState {
    const participants: seq<Participant>
    var membersPerGroup: int
    var groups: seq<Group>

    constructor (participants: seq<Participant>)
      ensures this.participants == participants
      ensures membersPerGroup == 3 && groups == []
    {
      this.participants := participants;
      membersPerGroup := 3;
      groups := [];
    }

    /** The group-size input: `parseInt` of the field, here already a whole
        number. The groups shown stay until the next grouping. */
    method SetMembersPerGroup(value: int)
      modifies this
      ensures membersPerGroup == value && groups == old(groups)
    {
      membersPerGroup := value;
    }

    /** `handleGroup`: ignored for a group size below 1 or an empty list;
        otherwise shuffle, ask for `ceil(n / k)` names (`names` is whatever the
        naming service returned) and replace the groups. */
    method HandleGroup(picks: seq<nat>, names: seq<string>, groupIds: seq<Id>)
      requires ValidPicks(picks, |participants|)
      requires membersPerGroup >= 1 ==> |groupIds| >= CeilDiv(|participants|, membersPerGroup)
      modifies this
      ensures membersPerGroup == old(membersPerGroup)
      ensures membersPerGroup < 1 || participants == [] ==> groups == old(groups)
      ensures membersPerGroup >= 1 && participants != [] ==>
        && |groups| == CeilDiv(|participants|, membersPerGroup)
        && Members(groups) == Chunks(FisherYates(participants, picks), membersPerGroup)
        && forall i :: 0 <= i < |groups| ==> groups[i].id == groupIds[i] && groups[i].name == GroupName(names, i)
    {
      if membersPerGroup < 1 || |participants| == 0 {
        return;
      }
      var shuffled := Shuffle(participants, picks);
      var result := BuildGroups(shuffled, membersPerGroup, names, groupIds);
      groups := result;
    }
  }
}
