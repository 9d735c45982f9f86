/**
 * The scrambler of `scramble_phrase`: a level-order walk of the balanced
 * binary split of the position range, emitting the midpoint of every range.
 */
module Scrambler {

  /** A non-empty range `[low, high]` of positions, as the two-element lists of the source. */
  datatype Span = Span(low: int, high: int)

  /** The midpoint of a range, `(low + high) // 2` (floor division, as Dafny's `/` for a positive divisor). */
  function Mid(r: Span): int
  {
    (r.low + r.high) / 2
  }

  /** A range is non-empty and lies inside the positions of a string of length `n`. */
  predicate InBounds(r: Span, n: int)
  {
    0 <= r.low <= r.high < n
  }

  lemma MidInRange(r: Span)
    requires r.low <= r.high
    ensures r.low <= Mid(r) <= r.high
  {
  }

  /** Every range of a queue is in bounds. */
  ghost predicate WellFormed(rs: seq<Span>, n: int)
  {
    rs == [] || (InBounds(rs[0], n) && WellFormed(rs[1..], n))
  }

  lemma {:induction false} WellFormedAt(rs: seq<Span>, n: int, i: int)
    requires WellFormed(rs, n)
    requires 0 <= i < |rs|
    ensures InBounds(rs[i], n)
    decreases |rs|
  {
    if i > 0 {
      WellFormedAt(rs[1..], n, i - 1);
    }
  }

  /** The number of positions in a range. */
  function Width(r: Span): nat
  {
    if r.high >= r.low then r.high - r.low + 1 else 0
  }

  /** The number of positions still waiting in a queue of ranges. */
  function Weight(rs: seq<Span>): nat
  {
    if rs == [] then 0 else Width(rs[0]) + Weight(rs[1..])
  }

  /** The sub-ranges left and right of the midpoint that are queued for the next pass, when non-empty. */
  function Children(r: Span): seq<Span>
  {
    var mid := Mid(r);
    (if mid - 1 >= r.low then [Span(r.low, mid - 1)] else [])
    + (if r.high >= mid + 1 then [Span(mid + 1, r.high)] else [])
  }

  /** The ranges one pass queues (`new_ranges`), left before right, in the order of `rs`. */
  function Split(rs: seq<Span>): seq<Span>
  {
    if rs == [] then [] else Children(rs[0]) + Split(rs[1..])
  }

  /** The characters one pass appends: the midpoint character of every range, in order. */
  function Emit<T>(s: seq<T>, rs: seq<Span>): (r: seq<T>)
    requires WellFormed(rs, |s|)
    ensures |r| == |rs|
  {
    if rs == [] then [] else [s[Mid(rs[0])]] + Emit(s, rs[1..])
  }

  /** The positions covered by a queue of ranges, as a multiset of the characters there. */
  ghost function Cover<T>(s: seq<T>, rs: seq<Span>): multiset<T>
    requires WellFormed(rs, |s|)
  {
    if rs == [] then multiset{} else InRange(s, rs[0]) + Cover(s, rs[1..])
  }

  /** The characters at the positions of one range. */
  ghost function InRange<T>(s: seq<T>, r: Span): multiset<T>
    requires InBounds(r, |s|)
  {
    Between(s, r.low, r.high)
  }

  /** The characters at positions `lo` through `hi`; empty when `hi < lo`. */
  ghost function Between<T>(s: seq<T>, lo: int, hi: int): multiset<T>
    requires 0 <= lo && hi < |s|
    decreases hi - lo
  {
    if hi < lo then multiset{} else Between(s, lo, hi - 1) + multiset{s[hi]}
  }

  lemma {:induction false} BetweenSplit<T>(s: seq<T>, lo: int, m: int, hi: int)
    requires 0 <= lo && lo - 1 <= m <= hi < |s|
    ensures Between(s, lo, hi) == Between(s, lo, m) + Between(s, m + 1, hi)
    decreases hi - m
  {
    if m < hi {
      BetweenSplit(s, lo, m, hi - 1);
    }
  }

  lemma BetweenOne<T>(s: seq<T>, i: int)
    requires 0 <= i < |s|
    ensures Between(s, i, i) == multiset{s[i]}
  {
  }

  lemma {:induction false} BetweenPrefix<T>(s: seq<T>, k: nat)
    requires k <= |s|
    ensures Between(s, 0, k - 1) == multiset(s[..k])
  {
    if k == 0 {
      assert s[..k] == [];
    } else {
      var p := s[..k - 1];
      assert s[..k] == p + [s[k - 1]];
      assert Between(s, 0, k - 1) == multiset(p) + multiset{s[k - 1]} by {
        BetweenPrefix(s, k - 1);
      }
    }
  }

  lemma {:induction false} WeightAppend(a: seq<Span>, b: seq<Span>)
    ensures Weight(a + b) == Weight(a) + Weight(b)
    decreases |a|
  {
    if a == [] {
      assert a + b == b;
    } else {
      assert (a + b)[1..] == a[1..] + b;
      WeightAppend(a[1..], b);
    }
  }

  lemma {:induction false} WellFormedAppend(a: seq<Span>, b: seq<Span>, n: int)
    requires WellFormed(a, n) && WellFormed(b, n)
    ensures WellFormed(a + b, n)
    decreases |a|
  {
    if a == [] {
      assert a + b == b;
    } else {
      assert (a + b)[0] == a[0];
      assert (a + b)[1..] == a[1..] + b;
      WellFormedAppend(a[1..], b, n);
    }
  }

  lemma {:induction false} CoverAppend<T>(s: seq<T>, a: seq<Span>, b: seq<Span>)
    requires WellFormed(a, |s|) && WellFormed(b, |s|)
    ensures WellFormed(a + b, |s|)
    ensures Cover(s, a + b) == Cover(s, a) + Cover(s, b)
    decreases |a|
  {
    if a == [] {
      assert a + b == b;
    } else {
      var ab, rest := a + b, a[1..] + b;
      assert ab[0] == a[0];
      assert ab[1..] == rest;
      CoverAppend(s, a[1..], b);
      assert Cover(s, ab) == InRange(s, a[0]) + Cover(s, rest);
    }
  }

  /** Splitting one range keeps every position but the midpoint. */
  lemma SplitOne<T>(s: seq<T>, r: Span)
    requires InBounds(r, |s|)
    ensures WellFormed(Children(r), |s|)
    ensures multiset{s[Mid(r)]} + Cover(s, Children(r)) == InRange(s, r)
  {
    var mid := Mid(r);
    CoverChildren(s, r);
    var a, b := Between(s, r.low, mid - 1), Between(s, mid + 1, r.high);
    var m := multiset{s[mid]};
    assert InRange(s, r) == a + Between(s, mid, r.high) by {
      BetweenSplit(s, r.low, mid - 1, r.high);
    }
    assert Between(s, mid, r.high) == m + b by {
      BetweenSplit(s, mid, mid, r.high);
      BetweenOne(s, mid);
    }
    assert m + (a + b) == a + (m + b);
  }

  /** The queued children of a range cover the positions left and right of its midpoint. */
  lemma CoverChildren<T>(s: seq<T>, r: Span)
    requires InBounds(r, |s|)
    ensures r.low <= Mid(r) <= r.high
    ensures WellFormed(Children(r), |s|)
    ensures Cover(s, Children(r)) == Between(s, r.low, Mid(r) - 1) + Between(s, Mid(r) + 1, r.high)
  {
    var mid := Mid(r);
    MidInRange(r);
    ChildrenInBounds(r, |s|);
    ChildrenShape(r);
    var left, right := Span(r.low, mid - 1), Span(mid + 1, r.high);
    if mid - 1 >= r.low {
      assert Children(r) == [left, right];
      CoverPair(s, left, right);
    } else if r.high >= mid + 1 {
      assert Children(r) == [right];
      CoverSingle(s, right);
    } else {
      assert Children(r) == [];
    }
  }

  /** A range always has a right child when it has a left one. */
  lemma ChildrenShape(r: Span)
    requires r.low <= r.high
    ensures Children(r)
         == if Mid(r) - 1 >= r.low then [Span(r.low, Mid(r) - 1), Span(Mid(r) + 1, r.high)]
            else if r.high >= Mid(r) + 1 then [Span(Mid(r) + 1, r.high)]
            else []
  {
  }

  lemma CoverPair<T>(s: seq<T>, x: Span, y: Span)
    requires InBounds(x, |s|) && InBounds(y, |s|)
    ensures WellFormed([x, y], |s|)
    ensures Cover(s, [x, y]) == InRange(s, x) + InRange(s, y)
  {
    assert [x, y][1..] == [y];
    CoverSingle(s, y);
  }

  lemma CoverSingle<T>(s: seq<T>, r: Span)
    requires InBounds(r, |s|)
    ensures WellFormed([r], |s|)
    ensures Cover(s, [r]) == InRange(s, r)
  {
    assert [r][1..] == [];
  }

  /** The ranges one pass queues are in bounds and hold all positions but the midpoints. */
  lemma {:induction false} PassWeight(rs: seq<Span>, n: int)
    requires WellFormed(rs, n)
    ensures WellFormed(Split(rs), n)
    ensures Weight(Split(rs)) + |rs| == Weight(rs)
    decreases |rs|
  {
    if rs != [] {
      assert InBounds(rs[0], n);
      assert WellFormed(rs[1..], n);
      ChildrenInBounds(rs[0], n);
      PassWeight(rs[1..], n);
      WeightAppend(Children(rs[0]), Split(rs[1..]));
      WellFormedAppend(Children(rs[0]), Split(rs[1..]), n);
    }
  }

  lemma ChildrenInBounds(r: Span, n: int)
    requires InBounds(r, n)
    ensures WellFormed(Children(r), n)
    ensures Weight(Children(r)) + 1 == Width(r)
  {
    var mid := Mid(r);
    MidInRange(r);
    var left := if mid - 1 >= r.low then [Span(r.low, mid - 1)] else [];
    var right := if r.high >= mid + 1 then [Span(mid + 1, r.high)] else [];
    assert Children(r) == left + right;
    WeightAppend(left, right);
    WellFormedAppend(left, right, n);
  }

  /**
   * One pass emits one character per queued range and queues the rest of
   * every range: no position is lost and none is emitted twice.
   */
  lemma {:induction false} PassKeepsPositions<T>(s: seq<T>, rs: seq<Span>)
    requires WellFormed(rs, |s|)
    ensures WellFormed(Split(rs), |s|)
    ensures multiset(Emit(s, rs)) + Cover(s, Split(rs)) == Cover(s, rs)
    decreases |rs|
  {
    PassWeight(rs, |s|);
    if rs != [] {
      var r, rest := rs[0], rs[1..];
      assert InBounds(r, |s|);
      assert WellFormed(rest, |s|);
      PassWeight(rest, |s|);
      ChildrenInBounds(r, |s|);
      var e, c := multiset(Emit(s, rest)), Cover(s, Split(rest));
      var m, k := multiset{s[Mid(r)]}, Cover(s, Children(r));
      assert e + c == Cover(s, rest) by {
        PassKeepsPositions(s, rest);
      }
      assert m + k == InRange(s, r) by {
        SplitOne(s, r);
      }
      assert multiset(Emit(s, rs)) == m + e by {
        assert Emit(s, rs) == [s[Mid(r)]] + Emit(s, rest);
      }
      assert Cover(s, Split(rs)) == k + c by {
        CoverAppend(s, Children(r), Split(rest));
      }
      assert Cover(s, rs) == InRange(s, r) + Cover(s, rest);
      MultisetShuffle(m, e, k, c);
    }
  }

  lemma MultisetShuffle<T>(m: multiset<T>, e: multiset<T>, k: multiset<T>, c: multiset<T>)
    ensures (m + e) + (k + c) == (m + k) + (e + c)
  {
  }

  /** The outer loop of `scramble_phrase`: passes until no range is left. */
  function ScrambleRanges<T>(s: seq<T>, rs: seq<Span>): (r: seq<T>)
    requires WellFormed(rs, |s|)
    ensures |r| == Weight(rs)
    decreases Weight(rs)
  {
    if rs == [] then []
    else
      PassWeight(rs, |s|);
      Emit(s, rs) + ScrambleRanges(s, Split(rs))
  }

  /** The passes together emit every covered position exactly once. */
  lemma {:induction false} ScrambleRangesKeepsPositions<T>(s: seq<T>, rs: seq<Span>)
    requires WellFormed(rs, |s|)
    ensures multiset(ScrambleRanges(s, rs)) == Cover(s, rs)
    decreases Weight(rs)
  {
    if rs != [] {
      PassWeight(rs, |s|);
      PassKeepsPositions(s, rs);
      ScrambleRangesKeepsPositions(s, Split(rs));
    }
  }

  /**
   * `scramble_phrase`: the empty string for the empty phrase; otherwise a
   * rearrangement of the phrase, same length and same characters with the
   * same multiplicities.
   */
  function ScramblePhrase<T>(phrase: seq<T>): (r: seq<T>)
    ensures |phrase| == 0 ==> r == []
    ensures |r| == |phrase|
    ensures multiset(r) == multiset(phrase)
  {
    if |phrase| == 0 then []
    else
      var whole := [Span(0, |phrase| - 1)];
      assert whole[1..] == [];
      assert Weight(whole) == |phrase|;
      assert Cover(phrase, whole) == multiset(phrase) by {
        BetweenPrefix(phrase, |phrase|);
        assert phrase[..|phrase|] == phrase;
      }
      ScrambleRangesKeepsPositions(phrase, whole);
      ScrambleRanges(phrase, [Span(0, |phrase| - 1)])
  }

  /** The positions `0, 1, ..., n - 1` in order. */
  function Iota(n: nat): (r: seq<int>)
    ensures |r| == n
  {
    if n == 0 then [] else Iota(n - 1) + [n - 1]
  }

  lemma {:induction false} IotaAt(n: nat, i: int)
    requires 0 <= i < n
    ensures Iota(n)[i] == i
  {
    if i < n - 1 {
      IotaAt(n - 1, i);
    }
  }

  lemma {:induction false} IotaOnce(n: nat, i: int)
    ensures multiset(Iota(n))[i] == if 0 <= i < n then 1 else 0
  {
    if n > 0 {
      assert multiset(Iota(n)) == multiset(Iota(n - 1)) + multiset{n - 1} by {
        assert Iota(n) == Iota(n - 1) + [n - 1];
      }
      IotaOnce(n - 1, i);
    }
  }

  /** The order in which `scramble_phrase` visits positions: the scramble of the positions themselves. */
  function ScrambleOrder(n: nat): (r: seq<int>)
    ensures |r| == n
  {
    ScramblePhrase(Iota(n))
  }

  /** Every position of a string of length `n` is emitted exactly once. */
  lemma EachPositionOnce(n: nat, i: int)
    ensures multiset(ScrambleOrder(n))[i] == if 0 <= i < n then 1 else 0
  {
    IotaOnce(n, i);
  }

  lemma {:induction false} EmitAt<T>(s: seq<T>, rs: seq<Span>, i: int)
    requires WellFormed(rs, |s|)
    requires 0 <= i < |rs|
    ensures InBounds(rs[i], |s|)
    ensures Emit(s, rs)[i] == s[Mid(rs[i])]
    decreases |rs|
  {
    if i > 0 {
      EmitAt(s, rs[1..], i - 1);
    }
  }

  /**
   * The position the scramble of the queue `rs` emits at index `k`: the
   * midpoint of the `k`-th range while `k` is inside the first pass, else
   * a position from the passes over the ranges it queued.
   */
  function Pick(rs: seq<Span>, n: int, k: int): (r: int)
    requires WellFormed(rs, n)
    requires 0 <= k < Weight(rs)
    ensures 0 <= r < n
    decreases Weight(rs)
  {
    WeightedIsNonEmpty(rs);
    PassWeight(rs, n);
    if k < |rs| then
      WellFormedAt(rs, n, k);
      Mid(rs[k])
    else
      Pick(Split(rs), n, k - |rs|)
  }

  /** Index `k` of the scramble of `rs` is the character at position `Pick(rs, |s|, k)`. */
  lemma {:induction false} ScrambleRangesAt<T>(s: seq<T>, rs: seq<Span>, k: int)
    requires WellFormed(rs, |s|)
    requires 0 <= k < Weight(rs)
    ensures ScrambleRanges(s, rs)[k] == s[Pick(rs, |s|, k)]
    decreases Weight(rs)
  {
    WeightedIsNonEmpty(rs);
    if k < |rs| {
      EmittedAt(s, rs, k);
    } else {
      QueuedAt(s, rs, k);
      ScrambleRangesAt(s, Split(rs), k - |rs|);
    }
  }

  /** A queue with positions left holds a range. */
  lemma WeightedIsNonEmpty(rs: seq<Span>)
    requires Weight(rs) > 0
    ensures rs != []
  {
  }

  /** Position `k` of the first pass is the midpoint of the `k`-th range. */
  lemma EmittedAt<T>(s: seq<T>, rs: seq<Span>, k: int)
    requires WellFormed(rs, |s|)
    requires 0 <= k < |rs|
    ensures 0 <= Mid(rs[k]) < |s|
    ensures ScrambleRanges(s, rs)[k] == s[Mid(rs[k])]
  {
    ScrambleRangesUnfold(s, rs);
    EmitAt(s, rs, k);
  }

  /** Positions past the first pass come from the scramble of the ranges it queued. */
  lemma QueuedAt<T>(s: seq<T>, rs: seq<Span>, k: int)
    requires WellFormed(rs, |s|) && rs != []
    requires |rs| <= k < Weight(rs)
    ensures WellFormed(Split(rs), |s|) && 0 <= k - |rs| < Weight(Split(rs))
    ensures ScrambleRanges(s, rs)[k] == ScrambleRanges(s, Split(rs))[k - |rs|]
  {
    ScrambleRangesUnfold(s, rs);
    var e, t := Emit(s, rs), ScrambleRanges(s, Split(rs));
    assert (e + t)[k] == t[k - |e|];
  }

  /** A non-empty queue emits its midpoints, then scrambles the ranges it queued. */
  lemma ScrambleRangesUnfold<T>(s: seq<T>, rs: seq<Span>)
    requires WellFormed(rs, |s|) && rs != []
    ensures WellFormed(Split(rs), |s|) && Weight(Split(rs)) + |rs| == Weight(rs)
    ensures ScrambleRanges(s, rs) == Emit(s, rs) + ScrambleRanges(s, Split(rs))
  {
    PassWeight(rs, |s|);
  }

  /** Character `k` of the scramble is the phrase character at position `ScrambleOrder(|phrase|)[k]`. */
  lemma ScramblePicks(phrase: string, k: int)
    requires 0 <= k < |phrase|
    ensures 0 <= ScrambleOrder(|phrase|)[k] < |phrase|
    ensures ScramblePhrase(phrase)[k] == phrase[ScrambleOrder(|phrase|)[k]]
  {
    var whole := [Span(0, |phrase| - 1)];
    assert whole[1..] == [];
    assert Weight(whole) == |phrase|;
    assert ScramblePhrase(phrase) == ScrambleRanges(phrase, whole);
    assert ScrambleOrder(|phrase|) == ScrambleRanges(Iota(|phrase|), whole);
    ScrambleRangesAt(phrase, whole, k);
    ScrambleRangesAt(Iota(|phrase|), whole, k);
    IotaAt(|phrase|, Pick(whole, |phrase|, k));
  }

  /** One pass followed by the passes over the ranges it queued. */
  lemma PassThenRest<T>(s: seq<T>, rs: seq<Span>, next: seq<Span>)
    requires WellFormed(rs, |s|) && rs != []
    requires Split(rs) == next
    ensures WellFormed(next, |s|)
    ensures ScrambleRanges(s, rs) == Emit(s, rs) + ScrambleRanges(s, next)
  {
    PassWeight(rs, |s|);
  }

  lemma EmitPair<T>(s: seq<T>, x: Span, y: Span)
    requires InBounds(x, |s|) && InBounds(y, |s|)
    ensures WellFormed([x, y], |s|)
    ensures Emit(s, [x, y]) == [s[Mid(x)], s[Mid(y)]]
  {
    EmitAt(s, [x, y], 0);
    EmitAt(s, [x, y], 1);
  }

  /** Five positions: the middle one first, then the middles of each half, then the rest. */
  lemma ScrambleFive<T>(s: seq<T>)
    requires |s| == 5
    ensures ScramblePhrase(s) == [s[2], s[0], s[3], s[1], s[4]]
  {
    FiveFirstPass(s);
    assert [Span(0, |s| - 1)] == [Span(0, 4)];
  }

  lemma FiveFirstPass<T>(s: seq<T>)
    requires |s| == 5
    ensures WellFormed([Span(0, 4)], 5)
    ensures ScrambleRanges(s, [Span(0, 4)]) == [s[2], s[0], s[3], s[1], s[4]]
  {
    var p1, p2 := [Span(0, 4)], [Span(0, 1), Span(3, 4)];
    ChildrenOfFive();
    SplitSingle(Span(0, 4));
    assert Emit(s, p1) == [s[2]] by {
      EmitAt(s, p1, 0);
    }
    PassThenRest(s, p1, p2);
    FiveSecondPass(s);
    ConsFour(s[2], [s[0], s[3], s[1], s[4]]);
  }

  lemma FiveSecondPass<T>(s: seq<T>)
    requires |s| == 5
    ensures WellFormed([Span(0, 1), Span(3, 4)], 5)
    ensures ScrambleRanges(s, [Span(0, 1), Span(3, 4)]) == [s[0], s[3], s[1], s[4]]
  {
    var p2, p3 := [Span(0, 1), Span(3, 4)], [Span(1, 1), Span(4, 4)];
    ChildrenOfFive();
    SplitPair(Span(0, 1), Span(3, 4));
    EmitPair(s, Span(0, 1), Span(3, 4));
    PassThenRest(s, p2, p3);
    FiveThirdPass(s);
    PairPair(s[0], s[3], s[1], s[4]);
  }

  lemma FiveThirdPass<T>(s: seq<T>)
    requires |s| == 5
    ensures WellFormed([Span(1, 1), Span(4, 4)], 5)
    ensures ScrambleRanges(s, [Span(1, 1), Span(4, 4)]) == [s[1], s[4]]
  {
    var p3 := [Span(1, 1), Span(4, 4)];
    ChildrenOfFive();
    SplitPair(Span(1, 1), Span(4, 4));
    EmitPair(s, Span(1, 1), Span(4, 4));
    PassThenRest(s, p3, []);
  }

  lemma SplitSingle(r: Span)
    ensures Split([r]) == Children(r)
  {
    assert [r][1..] == [];
  }

  lemma SplitPair(x: Span, y: Span)
    ensures Split([x, y]) == Children(x) + Children(y)
  {
    assert [x, y][1..] == [y];
    SplitSingle(y);
  }

  /** The ranges of a five-position string, level by level. */
  lemma ChildrenOfFive()
    ensures Mid(Span(0, 4)) == 2 && Children(Span(0, 4)) == [Span(0, 1), Span(3, 4)]
    ensures Mid(Span(0, 1)) == 0 && Children(Span(0, 1)) == [Span(1, 1)]
    ensures Mid(Span(3, 4)) == 3 && Children(Span(3, 4)) == [Span(4, 4)]
    ensures Mid(Span(1, 1)) == 1 && Children(Span(1, 1)) == []
    ensures Mid(Span(4, 4)) == 4 && Children(Span(4, 4)) == []
  {
    ChildrenShape(Span(0, 4));
    ChildrenShape(Span(0, 1));
    ChildrenShape(Span(3, 4));
    ChildrenShape(Span(1, 1));
    ChildrenShape(Span(4, 4));
  }

  lemma ConsFour<T>(x: T, t: seq<T>)
    requires |t| == 4
    ensures [x] + t == [x, t[0], t[1], t[2], t[3]]
  {
  }

  lemma PairPair<T>(a: T, b: T, c: T, d: T)
    ensures [a, b] + [c, d] == [a, b, c, d]
  {
  }

  /** The worked example: `"ABCDE"` scrambles to `"CADBE"`. */
  lemma ScrambleABCDE()
    ensures ScramblePhrase("ABCDE") == "CADBE"
  {
    ScrambleFive("ABCDE");
  }
}
