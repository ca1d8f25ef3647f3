/** What `train` (LanguageModel.java) computes, stated on values: the map from
    windows to record sequences after one sliding-window pass over a corpus,
    then the probability pass over every table. */
module Training {
  import opened FrequencyList
  import opened Distribution

  /** The window-to-table map, with each table given by its records. */
  type TableMap = map<string, seq<CharData>>

  /** The length the windows actually get: the loop building the first window
      runs `windowLength` times, so a negative length behaves like 0. */
  function Width(windowLength: int): nat
  {
    if windowLength < 0 then 0 else windowLength
  }

  /** Every key is a window of length `w` and every table is a non-empty list of
      distinct, observed characters. */
  ghost predicate WellFormed(m: TableMap, w: nat)
  {
    forall k :: k in m ==> |k| == w && m[k] != [] && Positive(m[k]) && Unique(m[k])
  }

  /** One iteration of the training loop: get or create the window's table and
      record `c` in it. */
  function Step(m: TableMap, window: string, c: char): TableMap
  {
    m[window := Updated(if window in m then m[window] else [], c)]
  }

  /** The map the training loop ends with when it is at position `pos` with the
      map `m`: while characters remain, the window corpus[pos - w..pos] records
      corpus[pos] and the loop moves one position on. */
  function Trained(m: TableMap, corpus: string, w: nat, pos: nat): TableMap
    requires w <= pos <= |corpus|
    decreases |corpus| - pos, 1
  {
    if pos == |corpus| then m else Proceed(m, corpus, w, pos)
  }

  /** The loop at a position where a character remains: one step, then on. */
  function Proceed(m: TableMap, corpus: string, w: nat, pos: nat): TableMap
    requires w <= pos < |corpus|
    decreases |corpus| - pos, 0
  {
    Trained(Step(m, corpus[pos - w..pos], corpus[pos]), corpus, w, pos + 1)
  }

  /** The probability pass applied to every table. */
  function FinalizeAll(m: TableMap): TableMap
    requires forall k :: k in m ==> Positive(m[k])
  {
    map k | k in m :: Finalize(m[k])
  }

  /** Part way through the probability pass over `counted`: the tables of
      `pending` still hold their counts, every other table is finalized. */
  ghost predicate FinalizedBut(m: TableMap, counted: TableMap, pending: set<string>)
  {
    m.Keys == counted.Keys && pending <= counted.Keys
    && forall k :: k in counted ==>
         Positive(counted[k]) && m[k] == if k in pending then counted[k] else Finalize(counted[k])
  }

  /** The whole of `train` from the map `m0`: a corpus shorter than the window
      leaves the map as it was; otherwise every character after the first window
      is counted and then every table is finalized. */
  ghost function TrainResult(m0: TableMap, corpus: string, w: nat): TableMap
    requires WellFormed(m0, w)
  {
    if |corpus| < w then m0
    else
      TrainedWellFormed(m0, corpus, w, w);
      FinalizeAll(Trained(m0, corpus, w, w))
  }

  /** The count of `c` in the table of `window` (0 without such a table). */
  function CountOf(m: TableMap, window: string, c: char): nat
  {
    if window in m then CountIn(m[window], c) else 0
  }

  /** The total count in the table of `window` (0 without such a table). */
  function TableTotal(m: TableMap, window: string): nat
  {
    if window in m then Total(m[window]) else 0
  }

  /** `window` occurs at position `j` of the corpus with a character after it. */
  predicate OccursAt(corpus: string, w: nat, j: int, window: string)
  {
    0 <= j && j + w < |corpus| && corpus[j..j + w] == window
  }

  /** `window` occurs at position `j` of the corpus followed by `c`. */
  predicate FollowedAt(corpus: string, w: nat, j: int, window: string, c: char)
  {
    OccursAt(corpus, w, j, window) && corpus[j + w] == c
  }

  /** The number of positions from `pos - w` on where `window` occurs with a
      character after it. */
  function OccurrenceCount(corpus: string, w: nat, pos: nat, window: string): nat
    requires w <= pos <= |corpus|
    decreases |corpus| - pos
  {
    if pos == |corpus| then 0
    else (if corpus[pos - w..pos] == window then 1 else 0) + OccurrenceCount(corpus, w, pos + 1, window)
  }

  /** The number of positions from `pos - w` on where `window` occurs followed by `c`. */
  function FollowerCount(corpus: string, w: nat, pos: nat, window: string, c: char): nat
    requires w <= pos <= |corpus|
    decreases |corpus| - pos
  {
    if pos == |corpus| then 0
    else
      (if corpus[pos - w..pos] == window && corpus[pos] == c then 1 else 0)
      + FollowerCount(corpus, w, pos + 1, window, c)
  }

  /** The integers in [lo, hi) at which `P` holds. */
  ghost function Where(P: int -> bool, lo: int, hi: int): set<int>
  {
    set j | lo <= j < hi && P(j)
  }

  /** OccursAt as a condition on the position. */
  ghost function OccursHere(corpus: string, w: nat, window: string): int -> bool
  {
    j => OccursAt(corpus, w, j, window)
  }

  /** FollowedAt as a condition on the position. */
  ghost function FollowedHere(corpus: string, w: nat, window: string, c: char): int -> bool
  {
    j => FollowedAt(corpus, w, j, window, c)
  }

  /** The positions from `from` on where `window` occurs with a character after it. */
  ghost function Occurrences(corpus: string, w: nat, from: int, window: string): set<int>
  {
    Where(OccursHere(corpus, w, window), from, |corpus| - w)
  }

  /** The positions from `from` on where `window` occurs followed by `c`. */
  ghost function Followers(corpus: string, w: nat, from: int, window: string, c: char): set<int>
  {
    Where(FollowedHere(corpus, w, window, c), from, |corpus| - w)
  }

  ghost function PickKey(m: TableMap): string
    requires m != map[]
  {
    var k :| k in m; k
  }

  /** The sum of all counts over all tables. */
  ghost function MapTotal(m: TableMap): nat
    decreases m.Keys
  {
    if m == map[] then 0
    else
      var k := PickKey(m);
      assert (m - {k}).Keys < m.Keys;
      Total(m[k]) + MapTotal(m - {k})
  }

  /** Finalizing one pending table moves the probability pass on. */
  lemma FinalizedButStep(m: TableMap, counted: TableMap, pending: set<string>, key: string)
    requires FinalizedBut(m, counted, pending) && key in pending
    ensures key in m && Positive(m[key])
    ensures FinalizedBut(m[key := Finalize(m[key])], counted, pending - {key})
  {
  }

  /** With nothing pending, the probability pass is complete. */
  lemma FinalizedButDone(m: TableMap, counted: TableMap)
    requires FinalizedBut(m, counted, {})
    ensures m == FinalizeAll(counted)
  {
  }

  /** The state of the training loop at `pos`: the window is the `w` characters
      before `pos`, and the rest of the loop turns `m` into `final`. */
  ghost predicate OnTrack(m: TableMap, corpus: string, w: nat, pos: int, window: string, final: TableMap)
  {
    w <= pos <= |corpus| && window == corpus[pos - w..pos] && Trained(m, corpus, w, pos) == final
  }

  // ---------------------------------------------------------------------------
  // Lemmas
  // ---------------------------------------------------------------------------

  /** Where a character remains, the loop takes one step and goes on. */
  lemma TrainedUnfold(m: TableMap, corpus: string, w: nat, pos: nat)
    requires w <= pos < |corpus|
    ensures Trained(m, corpus, w, pos) == Trained(Step(m, corpus[pos - w..pos], corpus[pos]), corpus, w, pos + 1)
  {
    assert Trained(m, corpus, w, pos) == Proceed(m, corpus, w, pos);
  }

  /** Sliding the window: appending the next character and dropping the first
      gives the window one position further on. */
  lemma SlideWindow(corpus: string, w: nat, pos: nat, window: string, c: char)
    requires w <= pos < |corpus| && window == corpus[pos - w..pos] && c == corpus[pos]
    ensures (window + [c])[1..] == corpus[pos + 1 - w..pos + 1]
  {
  }

  /** One iteration of the training loop: recording `c` in the table of the
      current window leaves the final map of the loop unchanged. */
  lemma TrainedStep(m: TableMap, next: TableMap, corpus: string, w: nat, pos: nat,
                    window: string, c: char, final: TableMap)
    requires w <= pos < |corpus| && window == corpus[pos - w..pos] && c == corpus[pos]
    requires next == Step(m, window, c) && Trained(m, corpus, w, pos) == final
    ensures Trained(next, corpus, w, pos + 1) == final
  {
    TrainedUnfold(m, corpus, w, pos);
  }

  /** One training step keeps the map well formed. */
  lemma StepWellFormed(m: TableMap, window: string, c: char, w: nat)
    requires WellFormed(m, w) && |window| == w
    ensures WellFormed(Step(m, window, c), w)
  {
    UpdatedInvariants(if window in m then m[window] else [], c);
  }

  /** Training keeps the map well formed: keys have the window length, and a table
      exists only once a character has been recorded in it. */
  lemma {:induction false} TrainedWellFormed(m: TableMap, corpus: string, w: nat, pos: nat)
    requires w <= pos <= |corpus| && WellFormed(m, w)
    ensures WellFormed(Trained(m, corpus, w, pos), w)
    decreases |corpus| - pos
  {
    if pos < |corpus| {
      TrainedUnfold(m, corpus, w, pos);
      StepWellFormed(m, corpus[pos - w..pos], corpus[pos], w);
      TrainedWellFormed(Step(m, corpus[pos - w..pos], corpus[pos]), corpus, w, pos + 1);
    }
  }

  /** Finalization keeps the map well formed. */
  lemma FinalizeAllWellFormed(m: TableMap, w: nat)
    requires WellFormed(m, w)
    ensures WellFormed(FinalizeAll(m), w)
    ensures FinalizeAll(m).Keys == m.Keys
    ensures forall k, c :: k in m ==> CountIn(FinalizeAll(m)[k], c) == CountIn(m[k], c)
    ensures forall k :: k in m ==> Total(FinalizeAll(m)[k]) == Total(m[k])
  {
    forall k | k in m
      ensures FinalizeAll(m)[k] != [] && Positive(FinalizeAll(m)[k]) && Unique(FinalizeAll(m)[k])
      ensures forall c :: CountIn(FinalizeAll(m)[k], c) == CountIn(m[k], c)
      ensures Total(FinalizeAll(m)[k]) == Total(m[k])
    {
      FinalizeInvariants(m[k]);
    }
  }

  /** The keys after training are the keys before and exactly the windows that
      occur from `pos - w` on with a character after them. */
  lemma {:induction false} TrainedKeys(m: TableMap, corpus: string, w: nat, pos: nat, window: string)
    requires w <= pos <= |corpus|
    ensures window in Trained(m, corpus, w, pos) <==> window in m || OccurrenceCount(corpus, w, pos, window) > 0
    decreases |corpus| - pos
  {
    if pos < |corpus| {
      TrainedUnfold(m, corpus, w, pos);
      TrainedKeys(Step(m, corpus[pos - w..pos], corpus[pos]), corpus, w, pos + 1, window);
    }
  }

  /** A window is counted exactly when it occurs at some position from `pos - w`
      on with a character after it. */
  lemma {:induction false} OccurrenceCountPositive(corpus: string, w: nat, pos: nat, window: string)
    requires w <= pos <= |corpus|
    ensures OccurrenceCount(corpus, w, pos, window) > 0
        <==> exists j :: pos - w <= j < |corpus| - w && OccursAt(corpus, w, j, window)
    decreases |corpus| - pos
  {
    if pos < |corpus| {
      OccurrenceCountPositive(corpus, w, pos + 1, window);
      if corpus[pos - w..pos] == window {
        assert OccursAt(corpus, w, pos - w, window);
      } else {
        assert !OccursAt(corpus, w, pos - w, window);
      }
    }
  }

  /** Splitting the lowest integer off a range: it is counted when `P` holds there. */
  lemma WhereSplit(P: int -> bool, lo: int, hi: int)
    requires lo < hi
    ensures |Where(P, lo, hi)| == (if P(lo) then 1 else 0) + |Where(P, lo + 1, hi)|
  {
    var rest := Where(P, lo + 1, hi);
    if P(lo) {
      assert Where(P, lo, hi) == rest + {lo};
    } else {
      assert Where(P, lo, hi) == rest;
    }
  }

  /** The recursive occurrence count is the number of occurrence positions. */
  lemma {:induction false} OccurrenceCountPositions(corpus: string, w: nat, pos: nat, window: string)
    requires w <= pos <= |corpus|
    ensures OccurrenceCount(corpus, w, pos, window) == |Occurrences(corpus, w, pos - w, window)|
    decreases |corpus| - pos
  {
    if pos == |corpus| {
      assert Occurrences(corpus, w, pos - w, window) == {};
    } else {
      var P := OccursHere(corpus, w, window);
      OccurrenceCountPositions(corpus, w, pos + 1, window);
      WhereSplit(P, pos - w, |corpus| - w);
      assert P(pos - w) <==> corpus[pos - w..pos] == window by {
        assert pos - w + w == pos;
      }
      assert Occurrences(corpus, w, pos + 1 - w, window) == Where(P, pos - w + 1, |corpus| - w);
    }
  }

  /** The recursive follower count is the number of follower positions. */
  lemma {:induction false} FollowerCountPositions(corpus: string, w: nat, pos: nat, window: string, c: char)
    requires w <= pos <= |corpus|
    ensures FollowerCount(corpus, w, pos, window, c) == |Followers(corpus, w, pos - w, window, c)|
    decreases |corpus| - pos
  {
    if pos == |corpus| {
      assert Followers(corpus, w, pos - w, window, c) == {};
    } else {
      var P := FollowedHere(corpus, w, window, c);
      FollowerCountPositions(corpus, w, pos + 1, window, c);
      WhereSplit(P, pos - w, |corpus| - w);
      assert P(pos - w) <==> corpus[pos - w..pos] == window && corpus[pos] == c by {
        assert pos - w + w == pos;
      }
      assert Followers(corpus, w, pos + 1 - w, window, c) == Where(P, pos - w + 1, |corpus| - w);
    }
  }

  /** One step adds one to the count of its character in its window's table
      and changes no other count. */
  lemma CountOfStep(m: TableMap, win: string, d: char, window: string, c: char)
    ensures CountOf(Step(m, win, d), window, c) == CountOf(m, window, c) + (if win == window && d == c then 1 else 0)
  {
    CountInUpdated(if win in m then m[win] else [], d, c);
  }

  /** One step adds one to the total of its window's table and to no other. */
  lemma TableTotalStep(m: TableMap, win: string, d: char, window: string)
    ensures TableTotal(Step(m, win, d), window) == TableTotal(m, window) + (if win == window then 1 else 0)
  {
    TotalUpdated(if win in m then m[win] else [], d);
  }

  /** Count conservation during the loop: the count of `c` in the table of
      `window` grows by the number of positions where `window` is followed by `c`. */
  lemma {:induction false} TrainedCounts(m: TableMap, corpus: string, w: nat, pos: nat, window: string, c: char)
    requires w <= pos <= |corpus|
    ensures CountOf(Trained(m, corpus, w, pos), window, c)
         == CountOf(m, window, c) + FollowerCount(corpus, w, pos, window, c)
    decreases |corpus| - pos
  {
    if pos < |corpus| {
      var win := corpus[pos - w..pos];
      TrainedUnfold(m, corpus, w, pos);
      CountOfStep(m, win, corpus[pos], window, c);
      TrainedCounts(Step(m, win, corpus[pos]), corpus, w, pos + 1, window, c);
    }
  }

  /** Per-window conservation during the loop: the table of `window` gains one
      count for every occurrence of `window` followed by a character. */
  lemma {:induction false} TrainedTotals(m: TableMap, corpus: string, w: nat, pos: nat, window: string)
    requires w <= pos <= |corpus|
    ensures TableTotal(Trained(m, corpus, w, pos), window)
         == TableTotal(m, window) + OccurrenceCount(corpus, w, pos, window)
    decreases |corpus| - pos
  {
    if pos < |corpus| {
      var win := corpus[pos - w..pos];
      TrainedUnfold(m, corpus, w, pos);
      TableTotalStep(m, win, corpus[pos], window);
      TrainedTotals(Step(m, win, corpus[pos]), corpus, w, pos + 1, window);
    }
  }

  /** The total over all tables does not depend on which key is taken first. */
  lemma {:induction false} MapTotalRemove(m: TableMap, k: string)
    requires k in m
    ensures MapTotal(m) == Total(m[k]) + MapTotal(m - {k})
    decreases m.Keys
  {
    var k0 := PickKey(m);
    if k0 != k {
      assert (m - {k0}).Keys < m.Keys;
      assert (m - {k}).Keys < m.Keys;
      MapTotalRemove(m - {k0}, k);
      MapTotalRemove(m - {k}, k0);
      assert m - {k0} - {k} == m - {k} - {k0};
    }
  }

  lemma MapTotalUpdate(m: TableMap, k: string, v: seq<CharData>)
    ensures MapTotal(m[k := v]) == MapTotal(m) - (if k in m then Total(m[k]) else 0) + Total(v)
  {
    MapTotalRemove(m[k := v], k);
    assert m[k := v] - {k} == m - {k};
    if k in m {
      MapTotalRemove(m, k);
    } else {
      assert m - {k} == m;
    }
  }

  /** Every step of the training loop adds exactly one count in all. */
  lemma {:induction false} TrainedMapTotal(m: TableMap, corpus: string, w: nat, pos: nat)
    requires w <= pos <= |corpus|
    ensures MapTotal(Trained(m, corpus, w, pos)) == MapTotal(m) + (|corpus| - pos)
    decreases |corpus| - pos
  {
    if pos < |corpus| {
      var win := corpus[pos - w..pos];
      var table := if win in m then m[win] else [];
      TrainedUnfold(m, corpus, w, pos);
      MapTotalUpdate(m, win, Updated(table, corpus[pos]));
      TotalUpdated(table, corpus[pos]);
      TrainedMapTotal(Step(m, win, corpus[pos]), corpus, w, pos + 1);
    }
  }

  /** Finalization keeps the total over all tables. */
  lemma {:induction false} FinalizeAllMapTotal(m: TableMap, w: nat)
    requires WellFormed(m, w)
    ensures MapTotal(FinalizeAll(m)) == MapTotal(m)
    decreases m.Keys
  {
    if m != map[] {
      var f := FinalizeAll(m);
      assert f.Keys == m.Keys;
      var k := PickKey(f);
      assert MapTotal(f) == Total(f[k]) + MapTotal(f - {k});
      FinalizeInvariants(m[k]);
      var rest := FinalizeAllRemove(m, k, w);
      FinalizeAllMapTotal(rest, w);
      MapTotalRemove(m, k);
    }
  }

  lemma FinalizeAllRemove(m: TableMap, k: string, w: nat) returns (rest: TableMap)
    requires WellFormed(m, w) && k in m
    ensures rest == m - {k} && rest.Keys < m.Keys && WellFormed(rest, w)
    ensures FinalizeAll(m) - {k} == FinalizeAll(rest)
  {
    rest := m - {k};
  }

  /** Count conservation for `train` from an empty map: the count of `c` in the
      table of `window` is the number of positions where `window` is followed by
      `c` (none when the corpus is shorter than the window). */
  lemma CountConservation(corpus: string, w: nat, window: string, c: char)
    ensures CountOf(TrainResult(map[], corpus, w), window, c) == |Followers(corpus, w, 0, window, c)|
  {
    if |corpus| < w {
      assert Followers(corpus, w, 0, window, c) == {};
    } else {
      FollowerCountPositions(corpus, w, w, window, c);
      TrainedCounts(map[], corpus, w, w, window, c);
      TrainedWellFormed(map[], corpus, w, w);
      FinalizeAllWellFormed(Trained(map[], corpus, w, w), w);
    }
  }

  /** The counts in the table of `window` sum to the number of times `window`
      occurs with a character after it. */
  lemma WindowConservation(corpus: string, w: nat, window: string)
    ensures TableTotal(TrainResult(map[], corpus, w), window) == |Occurrences(corpus, w, 0, window)|
  {
    if |corpus| < w {
      assert Occurrences(corpus, w, 0, window) == {};
    } else {
      OccurrenceCountPositions(corpus, w, w, window);
      TrainedTotals(map[], corpus, w, w, window);
      TrainedWellFormed(map[], corpus, w, w);
      FinalizeAllWellFormed(Trained(map[], corpus, w, w), w);
    }
  }

  /** Summed over all tables, the counts total `|corpus| - w`; a corpus shorter
      than the window leaves the map empty. */
  lemma TotalConservation(corpus: string, w: nat)
    ensures |corpus| < w ==> TrainResult(map[], corpus, w) == map[]
    ensures w <= |corpus| ==> MapTotal(TrainResult(map[], corpus, w)) == |corpus| - w
  {
    if w <= |corpus| {
      TrainedMapTotal(map[], corpus, w, w);
      TrainedWellFormed(map[], corpus, w, w);
      FinalizeAllMapTotal(Trained(map[], corpus, w, w), w);
    }
  }

  /** The keys after `train` from an empty map are exactly the windows that occur
      somewhere with a character after them, all of length `w`, and every table
      is a finalized non-empty one. */
  lemma TrainResultShape(corpus: string, w: nat, window: string)
    ensures WellFormed(TrainResult(map[], corpus, w), w)
    ensures window in TrainResult(map[], corpus, w)
        <==> exists j :: 0 <= j < |corpus| - w && OccursAt(corpus, w, j, window)
    ensures w <= |corpus| && window in TrainResult(map[], corpus, w) ==>
              TrainResult(map[], corpus, w)[window] == Finalize(Trained(map[], corpus, w, w)[window])
  {
    if w <= |corpus| {
      OccurrenceCountPositive(corpus, w, w, window);
      TrainedWellFormed(map[], corpus, w, w);
      FinalizeAllWellFormed(Trained(map[], corpus, w, w), w);
      TrainedKeys(map[], corpus, w, w, window);
    }
  }
}
