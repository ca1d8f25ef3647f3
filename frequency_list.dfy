/** The frequency table of one context window (List.java): an ordered list of
    character records, newest character first. `Update` keeps a list with
    distinct characters distinct; `AddFirst` does not check, so distinctness is
    the separate predicate `Unique`, which every trained table satisfies. */
module FrequencyList {

  /** One character record (CharData): the character, how many times it was
      observed, and the probability `p` and cumulative probability `cp` that
      finalization fills in. Probabilities are exact rationals. */
  datatype CharData = CharData(chr: char, count: nat, p: real, cp: real)

  /** The failures of the list's accessors: `get` throws IndexOutOfBoundsException,
      `getFirst` dereferences a null `first` on an empty list. */
  datatype Error = IndexOutOfBounds(index: int) | NullPointer

  datatype Result<T> = Success(value: T) | Failure(error: Error)

  /** The record created for a character seen for the first time. */
  function NewRecord(chr: char): CharData
  {
    CharData(chr, 1, 0.0, 0.0)
  }

  predicate HasChr(rs: seq<CharData>, chr: char)
  {
    exists i :: 0 <= i < |rs| && rs[i].chr == chr
  }

  /** No character has two records. */
  predicate Unique(rs: seq<CharData>)
  {
    forall i, j :: 0 <= i < j < |rs| ==> rs[i].chr != rs[j].chr
  }

  /** Every record has been observed at least once. */
  predicate Positive(rs: seq<CharData>)
  {
    forall i :: 0 <= i < |rs| ==> rs[i].count >= 1
  }

  /** The position of the first record for `chr`, or -1 (what `indexOf` computes). */
  function FirstIndex(rs: seq<CharData>, chr: char): (i: int)
    ensures -1 <= i < |rs|
    decreases |rs|
  {
    if rs == [] then -1
    else if rs[0].chr == chr then 0
    else
      var k := FirstIndex(rs[1..], chr);
      if k == -1 then -1 else k + 1
  }

  /** `FirstIndex` is -1 exactly when no record is for `chr`, and otherwise the
      position of the first record that is. */
  lemma {:induction false} FirstIndexSpec(rs: seq<CharData>, chr: char)
    ensures FirstIndex(rs, chr) == -1 <==> !HasChr(rs, chr)
    ensures 0 <= FirstIndex(rs, chr) ==> rs[FirstIndex(rs, chr)].chr == chr
    ensures forall j :: 0 <= j < FirstIndex(rs, chr) ==> rs[j].chr != chr
    decreases |rs|
  {
    if rs != [] && rs[0].chr != chr {
      FirstIndexSpec(rs[1..], chr);
      assert forall j :: 1 <= j < |rs| ==> rs[1..][j - 1] == rs[j];
    }
  }

  /** The records after `update(chr)`, as its doc comment describes: the count of
      an existing record goes up by one, or a new record goes to the front. */
  function Updated(rs: seq<CharData>, chr: char): seq<CharData>
  {
    var i := FirstIndex(rs, chr);
    if i == -1 then [NewRecord(chr)] + rs
    else rs[i := rs[i].(count := rs[i].count + 1)]
  }

  /** The records after `remove(chr)`. */
  function Removed(rs: seq<CharData>, chr: char): seq<CharData>
  {
    var i := FirstIndex(rs, chr);
    if i == -1 then rs else rs[..i] + rs[i + 1..]
  }

  /** The records after updating with each character of `s` in turn. */
  function UpdateAll(rs: seq<CharData>, s: seq<char>): seq<CharData>
    decreases |s|
  {
    if s == [] then rs else UpdateAll(Updated(rs, s[0]), s[1..])
  }

  /** What one record contributes to the count of `chr`. */
  function Contrib(r: CharData, chr: char): nat
  {
    if r.chr == chr then r.count else 0
  }

  /** The total count recorded for `chr` over all records. */
  function CountIn(rs: seq<CharData>, chr: char): nat
    decreases |rs|
  {
    if rs == [] then 0 else Contrib(rs[0], chr) + CountIn(rs[1..], chr)
  }

  /** The sum of all counts (`numOfLetters` in calculateProbabilities). */
  function Total(rs: seq<CharData>): nat
    decreases |rs|
  {
    if rs == [] then 0 else Total(rs[..|rs| - 1]) + rs[|rs| - 1].count
  }

  // ---------------------------------------------------------------------------
  // Lemmas about the table operations
  // ---------------------------------------------------------------------------

  /** `update` of a character already present: exactly that record's count goes up
      by one; size, order and every other record stay as they were. */
  lemma UpdatedPresent(rs: seq<CharData>, chr: char, i: int)
    requires 0 <= i < |rs| && rs[i].chr == chr
    requires forall j :: 0 <= j < i ==> rs[j].chr != chr
    ensures |Updated(rs, chr)| == |rs|
    ensures Updated(rs, chr)[i] == rs[i].(count := rs[i].count + 1)
    ensures forall j :: 0 <= j < |rs| && j != i ==> Updated(rs, chr)[j] == rs[j]
  {
    var k := FirstIndex(rs, chr);
    FirstIndexSpec(rs, chr);
    assert k == i;
  }

  /** `update` of an absent character: one more record, the new one at index 0
      with count 1, and the old records shifted by one, unchanged. */
  lemma UpdatedAbsent(rs: seq<CharData>, chr: char)
    requires !HasChr(rs, chr)
    ensures |Updated(rs, chr)| == |rs| + 1
    ensures Updated(rs, chr)[0] == NewRecord(chr) && Updated(rs, chr)[0].count == 1
    ensures forall j :: 0 <= j < |rs| ==> Updated(rs, chr)[j + 1] == rs[j]
  {
    FirstIndexSpec(rs, chr);
  }

  /** `update` keeps counts positive and characters distinct, and afterwards the
      list has a record for `chr` and for nothing new besides. */
  lemma UpdatedInvariants(rs: seq<CharData>, chr: char)
    ensures Positive(rs) ==> Positive(Updated(rs, chr))
    ensures Unique(rs) ==> Unique(Updated(rs, chr))
    ensures Updated(rs, chr) != []
    ensures forall d :: HasChr(Updated(rs, chr), d) <==> HasChr(rs, d) || d == chr
  {
    var u := Updated(rs, chr);
    var i := FirstIndex(rs, chr);
    FirstIndexSpec(rs, chr);
    if i == -1 {
      assert u[0].chr == chr;
      forall d | HasChr(rs, d) ensures HasChr(u, d) {
        var j :| 0 <= j < |rs| && rs[j].chr == d;
        assert u[j + 1].chr == d;
      }
      forall d | HasChr(u, d) ensures HasChr(rs, d) || d == chr {
        var j :| 0 <= j < |u| && u[j].chr == d;
        if j > 0 { assert rs[j - 1].chr == d; }
      }
    } else {
      assert u[i].chr == chr;
      forall d | HasChr(rs, d) ensures HasChr(u, d) {
        var j :| 0 <= j < |rs| && rs[j].chr == d;
        assert u[j].chr == d;
      }
      forall d | HasChr(u, d) ensures HasChr(rs, d) {
        var j :| 0 <= j < |u| && u[j].chr == d;
        assert rs[j].chr == d;
      }
    }
  }

  /** Replacing one record changes the count of `chr` by that record's difference. */
  lemma {:induction false} CountInReplace(rs: seq<CharData>, i: int, x: CharData, chr: char)
    requires 0 <= i < |rs|
    ensures CountIn(rs[i := x], chr) + Contrib(rs[i], chr) == CountIn(rs, chr) + Contrib(x, chr)
    decreases |rs|
  {
    if i == 0 {
      assert rs[i := x][1..] == rs[1..];
    } else {
      assert rs[i := x][1..] == rs[1..][i - 1 := x];
      CountInReplace(rs[1..], i - 1, x, chr);
    }
  }

  /** Each `update(chr)` adds exactly one observation of `chr` and none of any other character. */
  lemma {:induction false} CountInUpdated(rs: seq<CharData>, chr: char, d: char)
    ensures CountIn(Updated(rs, chr), d) == CountIn(rs, d) + (if chr == d then 1 else 0)
  {
    var i := FirstIndex(rs, chr);
    FirstIndexSpec(rs, chr);
    if i == -1 {
      assert ([NewRecord(chr)] + rs)[1..] == rs;
    } else {
      CountInReplace(rs, i, rs[i].(count := rs[i].count + 1), d);
    }
  }

  /** A record's count is the count of its character when characters are distinct;
      an absent character has count 0. */
  lemma {:induction false} CountInUnique(rs: seq<CharData>, i: int)
    requires Unique(rs) && 0 <= i < |rs|
    ensures CountIn(rs, rs[i].chr) == rs[i].count
    decreases |rs|
  {
    var tail := rs[1..];
    assert Unique(tail) by {
      forall a, b | 0 <= a < b < |tail| ensures tail[a].chr != tail[b].chr {
        assert tail[a] == rs[a + 1] && tail[b] == rs[b + 1];
      }
    }
    if i == 0 {
      assert !HasChr(tail, rs[0].chr) by {
        forall j | 0 <= j < |tail| ensures tail[j].chr != rs[0].chr {
          assert tail[j] == rs[j + 1];
        }
      }
      CountInAbsent(tail, rs[0].chr);
    } else {
      assert tail[i - 1] == rs[i];
      CountInUnique(tail, i - 1);
    }
  }

  lemma {:induction false} CountInAbsent(rs: seq<CharData>, chr: char)
    requires !HasChr(rs, chr)
    ensures CountIn(rs, chr) == 0
    decreases |rs|
  {
    if rs != [] {
      assert rs[0].chr != chr;
      assert !HasChr(rs[1..], chr) by {
        forall j | 0 <= j < |rs| - 1 ensures rs[1..][j].chr != chr {
          assert rs[1..][j] == rs[j + 1];
        }
      }
      CountInAbsent(rs[1..], chr);
    }
  }

  lemma {:induction false} TotalConcat(a: seq<CharData>, b: seq<CharData>)
    ensures Total(a + b) == Total(a) + Total(b)
    decreases |b|
  {
    if b == [] {
      assert a + b == a;
    } else {
      assert (a + b)[..|a + b| - 1] == a + b[..|b| - 1];
      TotalConcat(a, b[..|b| - 1]);
    }
  }

  /** Each `update` adds exactly one to the table's total count. */
  lemma TotalUpdated(rs: seq<CharData>, chr: char)
    ensures Total(Updated(rs, chr)) == Total(rs) + 1
  {
    var i := FirstIndex(rs, chr);
    FirstIndexSpec(rs, chr);
    var one := [NewRecord(chr)];
    assert Total(one) == 1 by { assert one[..0] == []; }
    if i == -1 {
      TotalConcat(one, rs);
    } else {
      var x := rs[i].(count := rs[i].count + 1);
      assert rs == rs[..i] + [rs[i]] + rs[i + 1..];
      assert rs[i := x] == rs[..i] + [x] + rs[i + 1..];
      TotalConcat(rs[..i] + [rs[i]], rs[i + 1..]);
      TotalConcat(rs[..i], [rs[i]]);
      TotalConcat(rs[..i] + [x], rs[i + 1..]);
      TotalConcat(rs[..i], [x]);
      assert [rs[i]][..0] == [] && [x][..0] == [];
    }
  }

  /** A table whose counts are all positive has total at least its size. */
  lemma {:induction false} TotalAtLeastSize(rs: seq<CharData>)
    requires Positive(rs)
    ensures Total(rs) >= |rs|
    decreases |rs|
  {
    if rs != [] {
      TotalAtLeastSize(rs[..|rs| - 1]);
    }
  }

  /** `remove` of an absent character changes nothing. */
  lemma RemovedAbsent(rs: seq<CharData>, chr: char)
    requires !HasChr(rs, chr)
    ensures Removed(rs, chr) == rs
  {
    FirstIndexSpec(rs, chr);
  }

  /** Deleting position `i` of a sequence: the others keep their relative order
      and exactly one copy of the deleted element is gone. */
  lemma DropAt(rs: seq<CharData>, i: int, r: seq<CharData>)
    requires 0 <= i < |rs| && r == rs[..i] + rs[i + 1..]
    ensures |r| == |rs| - 1
    ensures forall j :: 0 <= j < i ==> r[j] == rs[j]
    ensures forall j :: i <= j < |r| ==> r[j] == rs[j + 1]
    ensures multiset(r) + multiset{rs[i]} == multiset(rs)
  {
    assert rs == rs[..i] + [rs[i]] + rs[i + 1..];
  }

  /** `remove` where `i` holds the first record of `chr`: one record fewer, the
      others keep their relative order, and exactly that record is deleted. With
      distinct characters the character is gone and the rest stay distinct. */
  lemma RemovedPresent(rs: seq<CharData>, chr: char, i: int)
    requires 0 <= i < |rs| && rs[i].chr == chr
    requires forall j :: 0 <= j < i ==> rs[j].chr != chr
    ensures |Removed(rs, chr)| == |rs| - 1
    ensures forall j :: 0 <= j < i ==> Removed(rs, chr)[j] == rs[j]
    ensures forall j :: i <= j < |rs| - 1 ==> Removed(rs, chr)[j] == rs[j + 1]
    ensures multiset(Removed(rs, chr)) + multiset{rs[i]} == multiset(rs)
    ensures Unique(rs) ==> !HasChr(Removed(rs, chr), chr)
    ensures Unique(rs) ==> Unique(Removed(rs, chr))
    ensures Positive(rs) ==> Positive(Removed(rs, chr))
  {
    var k := FirstIndex(rs, chr);
    FirstIndexSpec(rs, chr);
    assert k == i;
    var r := Removed(rs, chr);
    assert r == rs[..i] + rs[i + 1..];
    DropAt(rs, i, r);
    forall j | 0 <= j < |r| ensures r[j] == rs[if j < i then j else j + 1] {
    }
  }

  /** Any sequence of updates keeps the list free of duplicates and of unobserved
      records, and it holds a record exactly for the characters it held before
      and those of the input. */
  lemma {:induction false} UpdateAllShape(rs: seq<CharData>, s: seq<char>)
    requires Positive(rs) && Unique(rs)
    ensures Positive(UpdateAll(rs, s)) && Unique(UpdateAll(rs, s))
    ensures forall d :: HasChr(UpdateAll(rs, s), d) <==> HasChr(rs, d) || d in s
    decreases |s|
  {
    if s != [] {
      var u := Updated(rs, s[0]);
      assert UpdateAll(rs, s) == UpdateAll(u, s[1..]);
      UpdatedInvariants(rs, s[0]);
      UpdateAllShape(u, s[1..]);
      forall d ensures HasChr(UpdateAll(rs, s), d) <==> HasChr(rs, d) || d in s {
        assert d in s <==> d == s[0] || d in s[1..];
      }
    }
  }

  /** After any sequence of updates, the count of each character has grown by its
      number of occurrences in the input. */
  lemma {:induction false} UpdateAllCounts(rs: seq<CharData>, s: seq<char>)
    ensures forall d :: CountIn(UpdateAll(rs, s), d) == CountIn(rs, d) + multiset(s)[d]
    decreases |s|
  {
    if s != [] {
      var u := Updated(rs, s[0]);
      assert UpdateAll(rs, s) == UpdateAll(u, s[1..]);
      UpdateAllCounts(u, s[1..]);
      assert s == [s[0]] + s[1..];
      assert multiset(s) == multiset{s[0]} + multiset(s[1..]);
      forall d ensures CountIn(UpdateAll(rs, s), d) == CountIn(rs, d) + multiset(s)[d] {
        CountInUpdated(rs, s[0], d);
      }
    }
  }

  // ---------------------------------------------------------------------------
  // The list object
  // ---------------------------------------------------------------------------

  /** The list object. `records` stands for the chain of nodes starting at `first`,
      in chain order; `size` is the element counter the source keeps beside it. */
  class List {
    var records: seq<CharData>
    var size: int

    /** The counter matches the chain, and every record has been observed. */
    ghost predicate Valid()
      reads this
    {
      size == |records| && Positive(records)
    }

    /** An empty list. */
    constructor ()
      ensures Valid() && records == [] && size == 0
    {
      records := [];
      size := 0;
    }

    method GetSize() returns (n: int)
      requires Valid()
      ensures n == |records|
    {
      n := size;
    }

    /** The first record; on an empty list the source dereferences null. */
    method GetFirst() returns (r: Result<CharData>)
      ensures records == [] ==> r == Failure(NullPointer)
      ensures records != [] ==> r == Success(records[0])
    {
      if records == [] {
        r := Failure(NullPointer);
      } else {
        r := Success(records[0]);
      }
    }

    /** Puts a fresh record for `chr` at the front (no check for duplicates). */
    method AddFirst(chr: char)
      requires Valid()
      modifies this
      ensures Valid()
      ensures records == [NewRecord(chr)] + old(records)
    {
      records := [NewRecord(chr)] + records;
      size := size + 1;
    }

    /** Walks the list for the first record of `chr`. */
    method IndexOf(chr: char) returns (index: int)
      ensures -1 <= index < |records|
      ensures index == -1 <==> !HasChr(records, chr)
      ensures 0 <= index ==> records[index].chr == chr
      ensures forall j :: 0 <= j < index ==> records[j].chr != chr
      ensures index == FirstIndex(records, chr)
    {
      FirstIndexSpec(records, chr);
      var counter := 0;
      while counter < |records|
        invariant 0 <= counter <= |records|
        invariant forall j :: 0 <= j < counter ==> records[j].chr != chr
      {
        if records[counter].chr == chr {
          return counter;
        }
        counter := counter + 1;
      }
      return -1;
    }

    /** The record at `index`, or the out-of-bounds error when `index` is negative
        or not below the size. */
    method Get(index: int) returns (r: Result<CharData>)
      requires Valid()
      ensures r.Failure? <==> index < 0 || |records| <= index
      ensures r.Failure? ==> r.error == IndexOutOfBounds(index)
      ensures r.Success? ==> 0 <= index < |records| && r.value == records[index]
    {
      if index < 0 || size <= index {
        return Failure(IndexOutOfBounds(index));
      }
      r := Success(records[index]);
    }

    /** Counts one more observation of `chr`. The source's `update` calls `add`,
        which links the new node back to `first` and so closes the chain into a
        cycle, after which neither a search for an absent character nor a walk
        over the whole list (as in `calculateProbabilities`) ever ends; this
        follows the doc comment instead and puts the new record at the front, as
        `addFirst` does. */
    method Update(chr: char)
      requires Valid()
      modifies this
      ensures Valid()
      ensures records == Updated(old(records), chr)
      ensures old(Unique(records)) ==> Unique(records)
    {
      UpdatedInvariants(records, chr);
      var index := IndexOf(chr);
      if index == -1 {
        AddFirst(chr);
      } else {
        var r := Get(index);
        match r
        case Failure(_) =>
          assert false;
        case Success(chrD) =>
          records := records[index := chrD.(count := chrD.count + 1)];
      }
    }

    /** Deletes the first record of `chr`, reporting whether there was one. */
    method Remove(chr: char) returns (removed: bool)
      requires Valid()
      modifies this
      ensures Valid()
      ensures removed <==> HasChr(old(records), chr)
      ensures records == Removed(old(records), chr)
    {
      var index := IndexOf(chr);
      if index == -1 {
        return false;
      }
      assert Positive(records[..index] + records[index + 1..]) by {
        var r := records[..index] + records[index + 1..];
        forall j | 0 <= j < |r| ensures r[j].count >= 1 {
          if j < index { assert r[j] == records[j]; } else { assert r[j] == records[j + 1]; }
        }
      }
      records := records[..index] + records[index + 1..];
      size := size - 1;
      return true;
    }

    /** A fresh array holding the records in list order. */
    method ToArray() returns (arr: array<CharData>)
      requires Valid()
      ensures fresh(arr)
      ensures arr[..] == records
    {
      arr := new CharData[size];
      var i := 0;
      while i < size
        invariant 0 <= i <= size
        invariant forall j :: 0 <= j < i ==> arr[j] == records[j]
      {
        arr[i] := records[i];
        i := i + 1;
      }
    }
  }
}
