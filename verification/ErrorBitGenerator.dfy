/** The generator of error words for emulated data: stretches without errors alternate with stretches
    of one error word, as three tables of a thousand entries tell. */
module ErrorBitGeneratorModel {

  const SIZE: nat := 1000

  /** Error words, and the lengths of the stretches with and without errors. */
  datatype Tables = Tables(errorBits: seq<nat>, errorOccurrences: seq<int>, noErrorOccurrences: seq<int>) {
    predicate Valid() {
      |errorBits| == SIZE && |errorOccurrences| == SIZE && |noErrorOccurrences| == SIZE
    }
  }

  // The closed form

  /** Stretch j is one without errors when j is even, and takes its length and its word from these
      entries; the error tables are read from their second entry on. */
  function EntryOf(j: nat): (i: nat)
    ensures i < SIZE
  {
    if j % 2 == 0 then j / 2 % SIZE else (j / 2 + 1) % SIZE
  }

  function Occurrence(t: Tables, j: nat): int
    requires t.Valid()
  {
    if j % 2 == 0 then t.noErrorOccurrences[EntryOf(j)] else t.errorOccurrences[EntryOf(j)]
  }

  function AtLeastOne(n: int): (m: int)
    ensures m >= 1 && m >= n && (m == n || m == 1)
  {
    if n > 1 then n else 1
  }

  /** Every stretch lasts at least one call. */
  function Length(t: Tables, j: nat): (n: nat)
    requires t.Valid()
    ensures n >= 1
  {
    AtLeastOne(Occurrence(t, j))
  }

  /** The word of every call in stretch j. */
  function Word(t: Tables, j: nat): nat
    requires t.Valid()
  {
    if j % 2 == 1 && Occurrence(t, j) != 0 then t.errorBits[EntryOf(j)] else 0
  }

  /** How many calls come before stretch j. */
  function Start(t: Tables, j: nat): nat
    requires t.Valid()
  {
    if j == 0 then 0 else Start(t, j - 1) + Length(t, j - 1)
  }

  ghost predicate InStretch(t: Tables, n: nat, j: nat)
    requires t.Valid()
  {
    Start(t, j) <= n < Start(t, j + 1)
  }

  /** The stretch that call n belongs to. */
  function StretchOf(t: Tables, n: nat): (j: nat)
    requires t.Valid()
    ensures InStretch(t, n, j)
  {
    if n == 0 then 0 else
      var j := StretchOf(t, n - 1);
      if n < Start(t, j + 1) then j else j + 1
  }

  lemma {:induction false} StartsIncrease(t: Tables, i: nat, j: nat)
    requires t.Valid() && i <= j
    ensures Start(t, i) + (j - i) <= Start(t, j)
    decreases j - i
  {
    if i < j {
      StartsIncrease(t, i, j - 1);
    }
  }

  /** The stretches do not overlap. */
  lemma StretchIsUnique(t: Tables, n: nat, i: nat, j: nat)
    requires t.Valid() && InStretch(t, n, i) && InStretch(t, n, j)
    ensures i == j
  {
    if i < j {
      StartsIncrease(t, i + 1, j);
    } else if j < i {
      StartsIncrease(t, j + 1, i);
    }
  }

  /** The n-th output, counted from zero. */
  function Output(t: Tables, n: nat): nat
    requires t.Valid()
  {
    Word(t, StretchOf(t, n))
  }

  /** A stretch ends exactly when the calls in it have reached its table entry. */
  lemma StretchContinues(t: Tables, n: nat)
    requires t.Valid()
    ensures n == 0 ==> StretchOf(t, n) == 0 && Start(t, 0) == 0
    ensures n > 0 ==> Continues(t, n, StretchOf(t, n - 1), StretchOf(t, n))
  {
    if n > 0 {
      var j := StretchOf(t, n - 1);
      assert Start(t, j + 1) == Start(t, j) + Length(t, j);
      assert InStretch(t, n - 1, j);
    }
  }

  ghost predicate Continues(t: Tables, n: nat, j: nat, next: nat)
    requires t.Valid()
  {
    if n - Start(t, j) >= Occurrence(t, j) then next == j + 1 && Start(t, next) == n else next == j
  }

  /** Advancing a table index is advancing the count it is the remainder of. */
  lemma NextEntry(i: nat)
    ensures (i % SIZE + 1) % SIZE == (i + 1) % SIZE
  {
  }

  class ErrorBitGenerator {
    const tables: Tables
    var errorBitsIndex: nat
    var errorOccurrencesIndex: nat
    var noErrorOccurrencesIndex: nat
    var currentOccurrence: int
    var occurrenceCount: int
    var setErrorBits: bool
    ghost var calls: nat

    ghost predicate Fresh()
      reads this
    {
      && errorBitsIndex == 0 && errorOccurrencesIndex == 0 && noErrorOccurrencesIndex == 0
      && currentOccurrence == 0 && occurrenceCount == 0 && setErrorBits
    }

    /** The fields are those of stretch `j`; all table indices are in range. */
    ghost predicate In(j: nat)
      requires tables.Valid()
      reads this
    {
      && errorBitsIndex == errorOccurrencesIndex == (j / 2 + 1) % SIZE
      && noErrorOccurrencesIndex == ((j + 1) / 2) % SIZE
      && setErrorBits == (j % 2 == 1) && currentOccurrence == Occurrence(tables, j)
    }

    /** After a call the fields are those of its stretch, and the count tells how far into it the calls
        went. */
    ghost predicate Valid()
      reads this
    {
      && tables.Valid()
      && if calls == 0 then Fresh()
         else In(StretchOf(tables, calls - 1)) && occurrenceCount == calls - Start(tables, StretchOf(tables, calls - 1))
    }

    constructor (tables: Tables)
      requires tables.Valid()
      ensures Valid() && this.tables == tables && calls == 0
    {
      this.tables := tables;
      errorBitsIndex, errorOccurrencesIndex, noErrorOccurrencesIndex := 0, 0, 0;
      currentOccurrence, occurrenceCount, setErrorBits, calls := 0, 0, true, 0;
    }

    /** Enters the next stretch, with number `j`. */
    method EnterStretch(ghost j: nat)
      requires tables.Valid() && if j == 0 then Fresh() else In(j - 1)
      modifies this
      ensures In(j) && occurrenceCount == 0 && calls == old(calls)
    {
      NextEntry((j + 1) / 2);
      NextEntry(j / 2);
      if setErrorBits {
        errorBitsIndex := (errorBitsIndex + 1) % SIZE;
        errorOccurrencesIndex := (errorOccurrencesIndex + 1) % SIZE;
        setErrorBits := false;
        currentOccurrence := tables.noErrorOccurrences[noErrorOccurrencesIndex];
        occurrenceCount := 0;
      } else {
        noErrorOccurrencesIndex := (noErrorOccurrencesIndex + 1) % SIZE;
        setErrorBits := true;
        currentOccurrence := tables.errorOccurrences[errorOccurrencesIndex];
        occurrenceCount := 0;
      }
    }

    /** One more call in stretch `j`. */
    method CountCall(ghost j: nat) returns (word: nat)
      requires tables.Valid() && In(j)
      modifies this
      ensures In(j) && occurrenceCount == old(occurrenceCount) + 1 && calls == old(calls) + 1
      ensures word == Word(tables, j)
    {
      occurrenceCount := occurrenceCount + 1;
      calls := calls + 1;
      word := if setErrorBits && currentOccurrence != 0 then tables.errorBits[errorBitsIndex] else 0;
    }

    /** Moves from the stretch `last` of the call before to the stretch `j` of call `n`. */
    method Proceed(ghost n: nat, ghost last: nat, ghost j: nat)
      requires tables.Valid()
      requires if n == 0 then Fresh() && j == 0
               else In(last) && occurrenceCount == n - Start(tables, last) && Continues(tables, n, last, j)
      modifies this
      ensures In(j) && occurrenceCount == n - Start(tables, j) && calls == old(calls)
    {
      if occurrenceCount >= currentOccurrence {
        EnterStretch(j);
      }
    }

    method Next() returns (word: nat)
      requires Valid()
      modifies this
      ensures Valid() && calls == old(calls) + 1 && word == Output(tables, old(calls))
    {
      ghost var n, j := calls, StretchOf(tables, calls);
      StretchContinues(tables, n);
      Proceed(n, if n == 0 then 0 else StretchOf(tables, n - 1), j);
      word := CountCall(j);
    }
  }

  // The sequence of outputs

  /** Stretches without errors, which give no error word, alternate with stretches with errors, and every
      call of stretch p of either kind gives the same word: entry p + 1 of the words, unless the length
      that the table has for the stretch is zero. */
  lemma OutputIsWordOfStretch(t: Tables, n: nat, p: nat)
    requires t.Valid()
    ensures InStretch(t, n, 2 * p) ==> Output(t, n) == 0
    ensures InStretch(t, n, 2 * p + 1) ==>
              Output(t, n) == if t.errorOccurrences[(p + 1) % SIZE] == 0 then 0 else t.errorBits[(p + 1) % SIZE]
  {
    EntriesOfKinds(p);
    if InStretch(t, n, 2 * p) {
      OutputIsWord(t, n, 2 * p);
    }
    if InStretch(t, n, 2 * p + 1) {
      OutputIsWord(t, n, 2 * p + 1);
    }
  }

  lemma OutputIsWord(t: Tables, n: nat, j: nat)
    requires t.Valid() && InStretch(t, n, j)
    ensures Output(t, n) == Word(t, j)
  {
    StretchIsUnique(t, n, j, StretchOf(t, n));
  }

  /** The stretches follow each other from call 0 on, and each lasts as many calls as its table says, one
      where the table says less. */
  lemma StretchLastsItsEntry(t: Tables, p: nat)
    requires t.Valid()
    ensures Start(t, 0) == 0
    ensures Start(t, 2 * p + 1) - Start(t, 2 * p) == AtLeastOne(t.noErrorOccurrences[p % SIZE])
    ensures Start(t, 2 * p + 2) - Start(t, 2 * p + 1) == AtLeastOne(t.errorOccurrences[(p + 1) % SIZE])
  {
    EntriesOfKinds(p);
    StretchLasts(t, 2 * p);
    StretchLasts(t, 2 * p + 1);
  }

  lemma EntriesOfKinds(p: nat)
    ensures EntryOf(2 * p) == p % SIZE && EntryOf(2 * p + 1) == (p + 1) % SIZE
    ensures 2 * p % 2 == 0 && (2 * p + 1) % 2 == 1
  {
    Halved(p);
  }

  lemma Halved(p: nat)
    ensures 2 * p / 2 == p == (2 * p + 1) / 2
    ensures 2 * p % 2 == 0 && (2 * p + 1) % 2 == 1
  {
  }

  lemma StretchLasts(t: Tables, j: nat)
    requires t.Valid()
    ensures Start(t, j + 1) - Start(t, j) == AtLeastOne(Occurrence(t, j))
  {
  }

  lemma EntryRepeats(i: nat)
    ensures (i + SIZE) % SIZE == i % SIZE
  {
  }

  lemma EntriesRepeat(t: Tables, j: nat, cycle: nat)
    requires t.Valid() && cycle == 2 * SIZE
    ensures Occurrence(t, j + cycle) == Occurrence(t, j) && Word(t, j + cycle) == Word(t, j)
  {
    assert EntryOf(j + cycle) == EntryOf(j) by {
      assert (j + cycle) / 2 == j / 2 + SIZE;
      EntryRepeats(j / 2);
      EntryRepeats(j / 2 + 1);
    }
    assert (j + cycle) % 2 == j % 2;
  }

  lemma {:induction false} StartsRepeat(t: Tables, j: nat, cycle: nat)
    requires t.Valid() && cycle == 2 * SIZE
    ensures Start(t, j + cycle) == Start(t, j) + Start(t, cycle)
  {
    if j > 0 {
      StartsRepeat(t, j - 1, cycle);
      EntriesRepeat(t, j - 1, cycle);
    }
  }

  /** A call later by all the stretches of a cycle is in the stretch later by a cycle. */
  lemma StretchRepeats(t: Tables, n: nat, j: nat, cycle: nat)
    requires t.Valid() && cycle == 2 * SIZE && InStretch(t, n, j)
    ensures InStretch(t, n + Start(t, cycle), j + cycle)
  {
    StartsRepeat(t, j, cycle);
    StartsRepeat(t, j + 1, cycle);
    assert Start(t, (j + 1) + cycle) == Start(t, j + cycle + 1);
  }

  /** The outputs are periodic: once all entries of both length tables have been used, everything
      repeats. */
  lemma OutputsRepeat(t: Tables, n: nat, cycle: nat)
    requires t.Valid() && cycle == 2 * SIZE
    ensures Output(t, n + Start(t, cycle)) == Output(t, n)
  {
    var j := StretchOf(t, n);
    StretchRepeats(t, n, j, cycle);
    EntriesRepeat(t, j, cycle);
    OutputIsWord(t, n + Start(t, cycle), j + cycle);
  }
}
