/**
 * The transposition table (src/transposition_table.py): a fixed array of
 * 2^20 + 7 slots (a prime), each empty or holding one entry. An entry lives in
 * slot `zobrist % size`; a new entry takes the slot when the slot is empty, or
 * when it is younger or deeper than the entry stored there. A lookup returns
 * the stored entry only when its key is the one asked for and it was searched
 * at least as deep as required, so a collision reads as a miss.
 */
module TranspositionTable {
  import opened Chess

  /** The kind of bound a stored value is. */
  datatype Flag = Exact | LowerBound | UpperBound

  datatype HashEntry = HashEntry(zobrist: int, bestMove: Move, depth: int, value: int, flag: Flag, age: int)

  const TableSize: nat := 1048583

  /** The slot of a key; the modulus is positive, so the slot is never negative. */
  function Index(zobrist: int): (i: nat)
    ensures i < TableSize
    ensures (zobrist - i) % TableSize == 0
  {
    zobrist % TableSize
  }

  type Slots = s: seq<Option<HashEntry>> | |s| == TableSize witness EmptySlots()

  function EmptySlots(): (s: seq<Option<HashEntry>>)
    ensures |s| == TableSize && forall i :: 0 <= i < TableSize ==> s[i] == None
  {
    seq(TableSize, _ => None)
  }

  /** The replacement rule: an empty slot, a greater age, or a greater depth. */
  predicate Replaces(e: HashEntry, stored: Option<HashEntry>) {
    stored.None? || e.age > stored.value.age || e.depth > stored.value.depth
  }

  /** The slots after offering `e` to the table. */
  function Put(slots: Slots, e: HashEntry): Slots {
    var i := Index(e.zobrist);
    if Replaces(e, slots[i]) then slots[i := Some(e)] else slots
  }

  /** The answer of a lookup for key `zobrist` needing at least `depth`. */
  function Probe(slots: Slots, zobrist: int, depth: int): Option<HashEntry> {
    var stored := slots[Index(zobrist)];
    if stored.Some? && zobrist == stored.value.zobrist && stored.value.depth >= depth then stored else None
  }

  /** Every stored entry sits in the slot of its own key. */
  predicate InOwnSlots(slots: seq<Option<HashEntry>>) {
    forall i :: 0 <= i < |slots| && slots[i].Some? ==> Index(slots[i].value.zobrist) == i
  }

  class Table {
    const table: array<Option<HashEntry>>

    ghost predicate Valid()
      reads this, table
    {
      table.Length == TableSize && InOwnSlots(table[..])
    }

    /** A table with every slot empty. */
    constructor ()
      ensures Valid() && fresh(table)
      ensures table[..] == EmptySlots()
    {
      table := new Option<HashEntry>[TableSize](_ => None);
      EmptyInOwnSlots();
    }

    /** Offers an entry to its slot, which takes it by the replacement rule. */
    method Replace(hashEntry: HashEntry)
      requires Valid()
      modifies table
      ensures Valid()
      ensures table[..] == Put(old(table[..]), hashEntry)
    {
      ghost var before := table[..];
      var index := hashEntry.zobrist % TableSize;
      var storedEntry := table[index];
      if storedEntry.None? || hashEntry.age > storedEntry.value.age || hashEntry.depth > storedEntry.value.depth {
        table[index] := Some(hashEntry);
      }
      assert table[..] == Put(before, hashEntry);
      PutKeepsOwnSlots(before, hashEntry);
    }

    /** Looks up a key, requiring a stored search at least `depth` deep. */
    method Get(zobrist: int, depth: int) returns (r: Option<HashEntry>)
      requires Valid()
      ensures r == Probe(table[..], zobrist, depth)
    {
      var index := zobrist % TableSize;
      var storedEntry := table[index];
      if storedEntry.Some? && zobrist == storedEntry.value.zobrist && storedEntry.value.depth >= depth {
        return storedEntry;
      }
      return None;
    }
  }

  // ---------------------------------------------------------------------
  // Properties of the replacement rule and the lookup.

  /**
   * Offering an entry changes at most its own slot, and that slot ends up
   * holding the entry exactly when the rule lets it in (or it was already there).
   */
  lemma PutSpec(slots: Slots, e: HashEntry)
    ensures forall i :: 0 <= i < TableSize && i != Index(e.zobrist) ==> Put(slots, e)[i] == slots[i]
    ensures Replaces(e, slots[Index(e.zobrist)]) ==> Put(slots, e)[Index(e.zobrist)] == Some(e)
    ensures !Replaces(e, slots[Index(e.zobrist)]) ==> Put(slots, e) == slots
  {
  }

  /** When the new entry is neither younger nor deeper than the stored one, nothing changes. */
  lemma PutKeepsOlderShallower(slots: Slots, e: HashEntry)
    requires slots[Index(e.zobrist)].Some?
    requires e.age <= slots[Index(e.zobrist)].value.age && e.depth <= slots[Index(e.zobrist)].value.depth
    ensures Put(slots, e) == slots
  {
  }

  /** A hit is exactly a stored entry with the same key, searched deep enough; anything else is a miss. */
  lemma ProbeSpec(slots: Slots, zobrist: int, depth: int, x: HashEntry)
    ensures Probe(slots, zobrist, depth) == Some(x) <==>
      slots[Index(zobrist)] == Some(x) && x.zobrist == zobrist && x.depth >= depth
    ensures Probe(slots, zobrist, depth).Some? ==> Probe(slots, zobrist, depth) == slots[Index(zobrist)]
  {
  }

  /** The empty table trivially keeps every entry in its own slot. */
  lemma EmptyInOwnSlots()
    ensures InOwnSlots(EmptySlots())
  {
  }

  /** Offering an entry keeps every entry in the slot of its own key. */
  lemma PutKeepsOwnSlots(slots: Slots, e: HashEntry)
    requires InOwnSlots(slots)
    ensures InOwnSlots(Put(slots, e))
  {
    PutSpec(slots, e);
  }

  /**
   * Over the whole table: when every entry sits in its own slot, a lookup hits
   * exactly when some slot holds an entry with the key asked for, searched at
   * least as deep as required, and returns that entry; it misses exactly when
   * no slot holds such an entry.
   */
  lemma ProbeTableWide(slots: Slots, zobrist: int, depth: int, x: HashEntry)
    requires InOwnSlots(slots)
    ensures Probe(slots, zobrist, depth) == Some(x) <==>
      exists i :: 0 <= i < TableSize && slots[i] == Some(x) && x.zobrist == zobrist && x.depth >= depth
    ensures Probe(slots, zobrist, depth).None? <==>
      forall i :: 0 <= i < TableSize && slots[i].Some? ==> slots[i].value.zobrist != zobrist || slots[i].value.depth < depth
  {
    var k := Index(zobrist);
    if Probe(slots, zobrist, depth) == Some(x) {
      assert slots[k] == Some(x);
    }
    if i :| 0 <= i < TableSize && slots[i] == Some(x) && x.zobrist == zobrist && x.depth >= depth {
      assert Index(slots[i].value.zobrist) == i;
    }
    if Probe(slots, zobrist, depth).None? {
      forall i | 0 <= i < TableSize && slots[i].Some?
        ensures slots[i].value.zobrist != zobrist || slots[i].value.depth < depth
      {
        assert Index(slots[i].value.zobrist) == i;
      }
    } else {
      assert slots[k].Some? && slots[k].value.zobrist == zobrist && slots[k].value.depth >= depth;
    }
  }

  /** A key that shares a slot with a stored entry but differs from its key finds nothing. */
  lemma CollisionIsAMiss(slots: Slots, e: HashEntry, k: int, depth: int)
    requires slots[Index(e.zobrist)] == Some(e)
    ensures Probe(slots, e.zobrist + k * TableSize, depth).Some? ==> k == 0
  {
    var z := e.zobrist + k * TableSize;
    assert z % TableSize == e.zobrist % TableSize;
  }

  /** An entry offered to an empty slot is stored, and is found again at its own depth. */
  lemma StoreIfEmpty(slots: Slots, e: HashEntry)
    requires slots[Index(e.zobrist)].None?
    ensures Probe(Put(slots, e), e.zobrist, e.depth) == Some(e)
  {
  }

  /** The entries the tests store: the opening position's key, the move e2-e4, value 20. */
  function TestEntry(zobrist: int, depth: int, age: int): HashEntry {
    HashEntry(zobrist, Move(12, 28, None, false, false, false), depth, 20, Exact, age)
  }

  /** A younger entry replaces an older one of equal depth. */
  lemma ReplaceIfAgeIsGreater(zobrist: int)
    ensures Probe(Put(Put(EmptySlots(), TestEntry(zobrist, 5, 0)), TestEntry(zobrist, 5, 2)), zobrist, 5)
         == Some(TestEntry(zobrist, 5, 2))
  {
  }

  /** A deeper entry replaces a shallower one of equal age. */
  lemma ReplaceIfDepthIsGreaterAndAgeEqual(zobrist: int)
    ensures Probe(Put(Put(EmptySlots(), TestEntry(zobrist, 4, 0)), TestEntry(zobrist, 5, 0)), zobrist, 5)
         == Some(TestEntry(zobrist, 5, 0))
  {
  }

  /** A shallower entry of equal age leaves the deeper one in place. */
  lemma DoNotReplaceIfDepthIsLesserAndAgeEqual(zobrist: int)
    ensures Probe(Put(Put(EmptySlots(), TestEntry(zobrist, 5, 0)), TestEntry(zobrist, 4, 0)), zobrist, 5)
         == Some(TestEntry(zobrist, 5, 0))
  {
  }

  /**
   * The rule is a disjunction: a deeper entry evicts a younger one even when
   * it is older, so the stored entry need not carry the greatest age offered
   * to its slot.
   */
  lemma DeeperOlderEntryEvicts(zobrist: int)
    ensures var slots := Put(Put(EmptySlots(), TestEntry(zobrist, 1, 2)), TestEntry(zobrist, 5, 0));
      slots[Index(zobrist)] == Some(TestEntry(zobrist, 5, 0))
      && slots[Index(zobrist)].value.age < TestEntry(zobrist, 1, 2).age
  {
  }
}
