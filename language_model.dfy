/** The language model object of LanguageModel.java: a map from windows to
    frequency lists, trained in one sliding-window pass over a corpus and then
    turned into cumulative distributions for sampling. */
module Model {
  import opened FrequencyList
  import opened Distribution
  import opened Training

  class LanguageModel {
    /** Windows to the list of characters observed after them. */
    var charDataMap: map<string, List>
    /** The configured window length. */
    var windowLength: int
    /** The tables as values: each window's list of records. */
    ghost var tables: TableMap
    /** The list objects the model owns. */
    ghost var Repr: set<List>

    /** Two different windows do not share a list object. */
    ghost predicate Apart(k1: string, k2: string)
      reads this`charDataMap
    {
      k1 in charDataMap && k2 in charDataMap && k1 != k2 ==> charDataMap[k1] != charDataMap[k2]
    }

    /** No two windows share a list object. */
    ghost predicate Separate()
      reads this`charDataMap
    {
      forall k1, k2 :: Apart(k1, k2)
    }

    /** Every list is owned, keeps its invariant, and holds the records `tables`
        gives for its window. */
    ghost predicate Linked()
      reads this, Repr
    {
      charDataMap.Keys == tables.Keys
      && forall k :: k in charDataMap ==>
           charDataMap[k] in Repr && charDataMap[k].Valid() && charDataMap[k].records == tables[k]
    }

    /** The lists are separate and `tables` describes them. */
    ghost predicate Consistent()
      reads this, Repr
    {
      Separate() && Linked()
    }

    /** Consistent, and the tables are well formed for the window length. */
    ghost predicate Valid()
      reads this, Repr
    {
      Consistent() && WellFormed(tables, Width(windowLength))
    }

    /** A model with the given window length and an empty map. The seed and the
        random generator of the source's constructors are not part of this model. */
    constructor (windowLength: int)
      ensures Valid()
      ensures this.windowLength == windowLength && charDataMap == map[] && tables == map[]
      ensures Repr == {}
    {
      this.windowLength := windowLength;
      charDataMap := map[];
      tables := map[];
      Repr := {};
    }

    /** The first loop of `calculateProbabilities`: the total count of the list. */
    method CountLetters(probs: List) returns (numOfLetters: int)
      ensures numOfLetters == Total(probs.records)
    {
      numOfLetters := 0;
      var k := 0;
      while k < |probs.records|
        invariant 0 <= k <= |probs.records|
        invariant numOfLetters == Total(probs.records[..k])
      {
        assert probs.records[..k + 1][..k] == probs.records[..k];
        numOfLetters := numOfLetters + probs.records[k].count;
        k := k + 1;
      }
      assert probs.records[..k] == probs.records;
    }

    /** Sets `p` and `cp` of every record: first the total count, then, in list
        order, each probability and the running sum of probabilities. */
    method CalculateProbabilities(probs: List)
      requires probs.Valid()
      modifies probs
      ensures probs.Valid()
      ensures probs.records == Finalize(old(probs.records))
      ensures Unique(old(probs.records)) ==> Unique(probs.records)
    {
      var numOfLetters := CountLetters(probs);
      ghost var orig := probs.records;
      var k := 0;
      var comCP := 0.0;
      while k < |probs.records|
        invariant |probs.records| == |orig| && probs.size == old(probs.size)
        invariant 0 <= k <= |orig| && numOfLetters == Total(orig)
        invariant comCP == ProbSum(orig, k)
        invariant forall j :: 0 <= j < k ==> probs.records[j] == Finalize(orig)[j]
        invariant forall j :: k <= j < |orig| ==> probs.records[j] == orig[j]
      {
        FinalizedStep(orig, k, numOfLetters, comCP);
        var cd := probs.records[k];
        var p := cd.count as real / numOfLetters as real;
        comCP := comCP + p;
        probs.records := probs.records[k := cd.(p := p, cp := comCP)];
        k := k + 1;
      }
      assert probs.records == Finalize(orig);
      FinalizeInvariants(orig);
    }

    /** Scans the list for the first record whose cumulative probability exceeds
        the draw `rand` (`Math.random()` in the source, a parameter here). */
    method GetRandomChar(probs: List, rand: real) returns (c: char)
      ensures c == Sample(probs.records, rand)
      ensures forall i ::
                0 <= i < |probs.records| && rand < probs.records[i].cp &&
                (forall j :: 0 <= j < i ==> probs.records[j].cp <= rand)
                ==> c == probs.records[i].chr
    {
      var k := 0;
      while k < |probs.records|
        invariant 0 <= k <= |probs.records|
        invariant forall j :: 0 <= j < k ==> probs.records[j].cp <= rand
      {
        if rand < probs.records[k].cp {
          return probs.records[k].chr;
        }
        k := k + 1;
      }
      return ' ';
    }

    /** The table of `window`, created empty and registered when there is none. */
    method TableFor(window: string) returns (probs: List)
      requires Consistent()
      modifies this
      ensures windowLength == old(windowLength)
      ensures Separate() && Linked()
      ensures charDataMap == old(charDataMap)[window := probs]
      ensures tables == old(tables)[window := probs.records]
      ensures window in old(charDataMap) ==> probs == old(charDataMap)[window] && Repr == old(Repr)
      ensures window !in old(charDataMap) ==> fresh(probs) && probs.records == [] && Repr == old(Repr) + {probs}
    {
      if window in charDataMap {
        probs := charDataMap[window];
        assert charDataMap == charDataMap[window := probs];
        assert tables == tables[window := probs.records];
      } else {
        probs := new List();
        charDataMap := charDataMap[window := probs];
        tables := tables[window := probs.records];
        Repr := Repr + {probs};
        forall k1, k2 ensures Apart(k1, k2) {
          if k1 != window && k2 != window { assert old(Apart(k1, k2)); }
        }
      }
    }

    /** One step of the training loop: gets the table of `window` and records `c` in it. */
    method RecordNext(window: string, c: char)
      requires Consistent()
      modifies this, Repr
      ensures Consistent() && windowLength == old(windowLength)
      ensures tables == Step(old(tables), window, c)
      ensures old(Repr) <= Repr && fresh(Repr - old(Repr))
    {
      ghost var before := tables;
      ghost var table := if window in before then before[window] else [];
      var probs := TableFor(window);
      ghost var lists := charDataMap;
      assert probs.records == table && lists[window] == probs;
      assert probs.Valid();
      probs.Update(c);
      assert probs.records == Updated(table, c);
      tables := before[window := probs.records];
      assert tables == Step(before, window, c);
      assert Linked() by {
        forall k | k in lists ensures lists[k].Valid() && lists[k].records == tables[k] {
          if k != window { assert Apart(k, window); }
        }
      }
    }

    /** One iteration of the last loop of training: the probability pass over the
        table of `key`. */
    method FinalizeTable(key: string)
      requires Consistent() && key in charDataMap
      modifies this, charDataMap[key]
      ensures Consistent() && Repr == old(Repr)
      ensures charDataMap == old(charDataMap) && windowLength == old(windowLength)
      ensures tables == old(tables)[key := Finalize(old(tables)[key])]
    {
      ghost var before := tables;
      ghost var lists := charDataMap;
      var l := charDataMap[key];
      assert l.Valid() && l.records == before[key];
      CalculateProbabilities(l);
      tables := before[key := l.records];
      assert Linked() by {
        forall k | k in lists ensures lists[k].Valid() && lists[k].records == tables[k] {
          if k != key { assert Apart(k, key); }
        }
      }
    }

    /** The last part of training: computes the probabilities of every table. */
    method FinalizeTables()
      requires Consistent()
      modifies this, Repr
      ensures Consistent() && Repr == old(Repr)
      ensures charDataMap == old(charDataMap) && windowLength == old(windowLength)
      ensures tables == FinalizeAll(old(tables))
    {
      ghost var counted := tables;
      var keys := charDataMap.Keys;
      assert FinalizedBut(tables, counted, keys);
      while keys != {}
        invariant Consistent() && keys <= charDataMap.Keys && Repr == old(Repr)
        invariant charDataMap == old(charDataMap) && windowLength == old(windowLength)
        invariant FinalizedBut(tables, counted, keys)
        decreases keys
      {
        var key :| key in keys;
        FinalizedButStep(tables, counted, keys, key);
        FinalizeTable(key);
        keys := keys - {key};
      }
      FinalizedButDone(tables, counted);
    }

    /** The first loop of training: reads `windowLength` characters into the
        first window, and reports failure when the corpus runs out first. */
    method FirstWindow(corpus: string) returns (window: string, complete: bool)
      ensures complete <==> Width(windowLength) <= |corpus|
      ensures complete ==> window == corpus[..Width(windowLength)]
    {
      ghost var w := Width(windowLength);
      window := "";
      var pos := 0;
      var i := 1;
      while i <= windowLength
        invariant 1 <= i && pos == i - 1 && pos <= w
        invariant i <= windowLength + 1 || (windowLength < 0 && i == 1)
        invariant pos <= |corpus| && window == corpus[..pos]
      {
        if pos >= |corpus| {
          return window, false;
        }
        window := window + [corpus[pos]];
        pos := pos + 1;
        i := i + 1;
      }
      return window, true;
    }

    /** One iteration of the second loop of training at position `pos`: records
        the character there in the table of the current window and returns the
        window one position further on. The final map of the loop stays the same. */
    method Advance(corpus: string, pos: int, window: string, ghost w: nat, ghost final: TableMap)
      returns (next: string)
      requires Consistent() && w == Width(windowLength)
      requires OnTrack(tables, corpus, w, pos, window, final) && pos < |corpus|
      modifies this, Repr
      ensures Consistent() && windowLength == old(windowLength)
      ensures old(Repr) <= Repr && fresh(Repr - old(Repr))
      ensures tables == Step(old(tables), window, corpus[pos])
      ensures OnTrack(tables, corpus, w, pos + 1, next, final)
    {
      var c := corpus[pos];
      ghost var before := tables;
      RecordNext(window, c);
      TrainedStep(before, tables, corpus, w, pos, window, c, final);
      SlideWindow(corpus, w, pos, window, c);
      next := (window + [c])[1..];
    }

    /** The second loop of training: for each character after the first window,
        records it in the table of the current window and slides the window. */
    method CountWindows(corpus: string, first: string)
      requires Consistent()
      requires Width(windowLength) <= |corpus| && first == corpus[..Width(windowLength)]
      modifies this, Repr
      ensures Consistent() && windowLength == old(windowLength)
      ensures tables == Trained(old(tables), corpus, Width(windowLength), Width(windowLength))
      ensures old(Repr) <= Repr && fresh(Repr - old(Repr))
    {
      ghost var w := Width(windowLength);
      ghost var final := Trained(tables, corpus, w, w);
      var window := first;
      var pos := |first|;
      while pos < |corpus|
        invariant windowLength == old(windowLength)
        invariant old(Repr) <= Repr && fresh(Repr - old(Repr))
        invariant Consistent()
        invariant OnTrack(tables, corpus, w, pos, window, final)
      {
        window := Advance(corpus, pos, window, w, final);
        pos := pos + 1;
      }
    }

    /** Builds the model from `corpus`: forms the first window, counts the
        character after every window, and finally finalizes every table. A corpus
        shorter than the window leaves the model untouched. */
    method Train(corpus: string)
      requires Valid()
      modifies this, Repr
      ensures Valid()
      ensures windowLength == old(windowLength)
      ensures tables == TrainResult(old(tables), corpus, Width(old(windowLength)))
      ensures |corpus| < Width(windowLength) ==> charDataMap == old(charDataMap)
      ensures old(Repr) <= Repr && fresh(Repr - old(Repr))
    {
      ghost var w := Width(windowLength);
      var window, complete := FirstWindow(corpus);
      if !complete {
        return;
      }
      ghost var start := tables;
      CountWindows(corpus, window);
      TrainedWellFormed(start, corpus, w, w);
      FinalizeTables();
      FinalizeAllWellFormed(Trained(start, corpus, w, w), w);
    }
  }

  /** A new model of window length `windowLength` trained on `corpus`, as a
      caller of the constructor and `train` sees it: the model and its lists are
      new objects, and every table is a distribution whose `p` values sum to 1. */
  method NewTrainedModel(windowLength: int, corpus: string) returns (lm: LanguageModel)
    ensures fresh(lm) && fresh(lm.Repr) && lm.Valid()
    ensures lm.windowLength == windowLength
    ensures lm.tables == TrainResult(map[], corpus, Width(windowLength))
    ensures forall k :: k in lm.tables ==> SumP(lm.tables[k]) == 1.0
  {
    lm := new LanguageModel(windowLength);
    lm.Train(corpus);
    ghost var w := Width(windowLength);
    forall k | k in lm.tables
      ensures SumP(lm.tables[k]) == 1.0
    {
      TrainResultShape(corpus, w, k);
      TrainedWellFormed(map[], corpus, w, w);
      FinalizedShares(Trained(map[], corpus, w, w)[k]);
    }
  }
}
