/**
 * Concrete runs of the indexed D-ary heap as written: the example at the end of the source
 * file, and the inputs on which the code departs from what a min-heap promises.  Each state
 * is written out in full; each lemma takes one step.
 */
module IndexedDHeapExamples {
  import opened Common
  import opened IndexedHeapCore
  import opened IndexedDHeapSpec

  // ---------------------------------------------------------------- the ternary example

  function T0(): IHeap {
    IHeap(3, 0, [-1, -1, -1, -1, -1, -1, -1, -1, -1, -1], [-1, -1, -1, -1, -1, -1, -1, -1, -1, -1],
          [None, None, None, None, None, None, None, None, None, None])
  }

  function T1(): IHeap {
    IHeap(3, 1, [0, -1, -1, -1, -1, -1, -1, -1, -1, -1], [0, -1, -1, -1, -1, -1, -1, -1, -1, -1],
          [Some(5), None, None, None, None, None, None, None, None, None])
  }

  function T2(): IHeap {
    IHeap(3, 2, [1, 0, -1, -1, -1, -1, -1, -1, -1, -1], [1, 0, -1, -1, -1, -1, -1, -1, -1, -1],
          [Some(5), Some(3), None, None, None, None, None, None, None, None])
  }

  function T3(): IHeap {
    IHeap(3, 3, [1, 0, 2, -1, -1, -1, -1, -1, -1, -1], [1, 0, 2, -1, -1, -1, -1, -1, -1, -1],
          [Some(5), Some(3), Some(8), None, None, None, None, None, None, None])
  }

  function T4(): IHeap {
    IHeap(3, 4, [1, 3, 2, 0, -1, -1, -1, -1, -1, -1], [3, 0, 2, 1, -1, -1, -1, -1, -1, -1],
          [Some(5), Some(3), Some(8), Some(1), None, None, None, None, None, None])
  }

  function T5(): IHeap {
    IHeap(3, 5, [1, 3, 2, 0, 4, -1, -1, -1, -1, -1], [3, 0, 2, 1, 4, -1, -1, -1, -1, -1],
          [Some(5), Some(3), Some(8), Some(1), Some(7), None, None, None, None, None])
  }

  function T6(): IHeap {
    IHeap(3, 4, [1, 0, 2, -1, 3, -1, -1, -1, -1, -1], [1, 0, 2, 4, -1, -1, -1, -1, -1, -1],
          [Some(5), Some(3), Some(8), None, Some(7), None, None, None, None, None])
  }

  lemma TernaryWellFormed()
    ensures WellFormed(T0()) && WellFormed(T1()) && WellFormed(T2()) && WellFormed(T3())
    ensures WellFormed(T4()) && WellFormed(T5()) && WellFormed(T6())
  {
    WellFormed0(); WellFormed1(); WellFormed2(); WellFormed3();
    WellFormed4(); WellFormed5(); WellFormed6();
  }

  lemma WellFormed0() ensures WellFormed(T0()) { }
  lemma WellFormed1() ensures WellFormed(T1()) { }
  lemma WellFormed2() ensures WellFormed(T2()) { }
  lemma WellFormed3() ensures WellFormed(T3()) { }
  lemma WellFormed4() ensures WellFormed(T4()) { }
  lemma WellFormed5() ensures WellFormed(T5()) { }
  lemma WellFormed6() ensures WellFormed(T6()) { }

  lemma TernaryInit()
    ensures Init(3, 10) == Ok(T0())
  {
    var h := Init(3, 10).value;
    assert h.pm == T0().pm;
    assert h.im == T0().im;
    assert h.vals == T0().vals;
  }

  lemma TernaryInsert0(h: IHeap)
    requires h == T0()
    ensures WellFormed(h) && Insert(h, 0, Some(5)) == (Ok(()), T1())
  {
    WellFormed0();
    assert Place(T0(), 0, 5) == T1();
  }

  lemma TernaryInsert1(h: IHeap)
    requires h == T1()
    ensures WellFormed(h) && Insert(h, 1, Some(3)) == (Ok(()), T2())
  {
    WellFormed1();
    assert h.pm[1] == -1;
    TernarySwim1();
  }

  lemma TernarySwim1()
    ensures T1().sz < |T1().im| && Swim(Place(T1(), 1, 3), T1().sz) == T2()
  {
    var h := Place(T1(), 1, 3);
    assert h == IHeap(3, 2, [0, 1, -1, -1, -1, -1, -1, -1, -1, -1], [0, 1, -1, -1, -1, -1, -1, -1, -1, -1],
                      T2().vals);
    assert Val(h, 1) == 3 && Val(h, 0) == 5;
    assert Swap(h, 1, 0) == T2();
  }

  lemma TernaryInsert2(h: IHeap)
    requires h == T2()
    ensures WellFormed(h) && Insert(h, 2, Some(8)) == (Ok(()), T3())
  {
    WellFormed2();
    var h := Place(T2(), 2, 8);
    assert h == T3();
    assert Val(h, 2) == 8 && Val(h, 0) == 3;
  }

  lemma TernaryInsert3(h: IHeap)
    requires h == T3()
    ensures WellFormed(h) && Insert(h, 3, Some(1)) == (Ok(()), T4())
  {
    WellFormed3();
    assert h.pm[3] == -1;
    TernarySwim3();
  }

  lemma TernarySwim3()
    ensures T3().sz < |T3().im| && Swim(Place(T3(), 3, 1), T3().sz) == T4()
  {
    var h := Place(T3(), 3, 1);
    assert h == IHeap(3, 4, [1, 0, 2, 3, -1, -1, -1, -1, -1, -1], [1, 0, 2, 3, -1, -1, -1, -1, -1, -1],
                      T4().vals);
    assert Val(h, 3) == 1 && Val(h, 0) == 3;
    assert Swap(h, 3, 0) == T4();
  }

  lemma TernaryInsert4(h: IHeap)
    requires h == T4()
    ensures WellFormed(h) && Insert(h, 4, Some(7)) == (Ok(()), T5())
  {
    WellFormed4();
    assert h.pm[4] == -1;
    TernarySwim4();
  }

  lemma TernarySwim4()
    ensures T4().sz < |T4().im| && Swim(Place(T4(), 4, 7), T4().sz) == T5()
  {
    var h := Place(T4(), 4, 7);
    assert h == T5();
    assert Val(h, 4) == 7 && Val(h, 1) == 5;
  }

  /** T5 once slot 0 (key 3) is exchanged with the last slot and the heap shrinks. */
  function T5Detached(): IHeap {
    IHeap(3, 4, [1, 3, 2, 4, 0, -1, -1, -1, -1, -1], [4, 0, 2, 1, 3, -1, -1, -1, -1, -1], T5().vals)
  }

  /** T5Detached once slot 0 is sunk to a leaf. */
  function T5Sunk(): IHeap {
    IHeap(3, 4, [1, 0, 2, 4, 3, -1, -1, -1, -1, -1], [1, 0, 2, 4, 3, -1, -1, -1, -1, -1], T5().vals)
  }

  lemma TernaryDetach()
    ensures WellFormed(T5()) && 3 in Contents(T5()) && T5().pm[3] == 0
    ensures Detach(T5(), 3) == T5Detached()
  {
    WellFormed5();
  }

  lemma TernarySink()
    ensures SinkToLeaf(T5Detached(), 0) == T5Sunk()
  {
    var h2 := T5Detached();
    assert Val(h2, 1) == 5 && Val(h2, 2) == 8 && Val(h2, 3) == 3;
    assert MinChildScan(h2, 0) == 3;
    assert Swap(h2, 0, 3) == T5Sunk();
    assert MinChildScan(T5Sunk(), 3) == -1;
  }

  lemma TernaryDelete(h: IHeap)
    requires h == T5()
    ensures WellFormed(h) && Delete(h, 3) == (Ok(1), T6())
  {
    TernaryDetach();
    DeletePresent(h, 3);
    TernaryDeleteSteps();
  }

  lemma TernaryDeleteSteps()
    ensures Swim(SinkToLeaf(T5Detached(), 0), 0) == T5Sunk() && Vacate(T5Sunk(), 3) == T6()
  {
    TernarySink();
    TernaryFinish();
  }

  lemma TernaryFinish()
    ensures Swim(T5Sunk(), 0) == T5Sunk() && Vacate(T5Sunk(), 3) == T6()
  {
  }

  /** The five inserts of the example reach T5. */
  lemma TernaryInserts(degree: int, maxSize: int)
    requires degree == 3 && maxSize == 10
    ensures Init(degree, maxSize).Ok?
    ensures var h0 := Init(degree, maxSize).value;
      WellFormed(h0) && var h1 := Insert(h0, 0, Some(5)).1;
      WellFormed(h1) && var h2 := Insert(h1, 1, Some(3)).1;
      WellFormed(h2) && var h3 := Insert(h2, 2, Some(8)).1;
      WellFormed(h3) && var h4 := Insert(h3, 3, Some(1)).1;
      WellFormed(h4) && Insert(h4, 4, Some(7)).1 == T5()
  {
    TernaryInit();
    WellFormed0();
    var h0 := Init(degree, maxSize).value;
    TernaryInsert0(h0);
    var h1 := Insert(h0, 0, Some(5)).1;
    assert h1 == T1();
    TernaryInsert1(h1);
    var h2 := Insert(h1, 1, Some(3)).1;
    assert h2 == T2();
    TernaryInsert2(h2);
    var h3 := Insert(h2, 2, Some(8)).1;
    assert h3 == T3();
    TernaryInsert3(h3);
    var h4 := Insert(h3, 3, Some(1)).1;
    assert h4 == T4();
    TernaryInsert4(h4);
    WellFormed5();
  }

  /** The peeks and the delete of the example, from T5. */
  lemma TernaryPeeks(h5: IHeap)
    requires h5 == T5()
    ensures WellFormed(h5)
    ensures var (r, h6) := Delete(h5, 3);
      PeekMinKeyIndex(h5) == Ok(3) && PeekMinValue(h5) == Ok(1) &&
      r == Ok(1) && WellFormed(h6) &&
      PeekMinKeyIndex(h6) == Ok(1) && PeekMinValue(h6) == Ok(3)
  {
    TernaryDelete(h5);
    WellFormed6();
  }

  /** The example at the end of the source file, MinIndexedDHeap(3, 10): the minimum is
      key 3 with priority 1; after delete(3) it is key 1 with priority 3. */
  lemma TernaryExample(degree: int, maxSize: int)
    requires degree == 3 && maxSize == 10
    ensures Init(degree, maxSize).Ok?
    ensures var h0 := Init(degree, maxSize).value;
      WellFormed(h0) && var h1 := Insert(h0, 0, Some(5)).1;
      WellFormed(h1) && var h2 := Insert(h1, 1, Some(3)).1;
      WellFormed(h2) && var h3 := Insert(h2, 2, Some(8)).1;
      WellFormed(h3) && var h4 := Insert(h3, 3, Some(1)).1;
      WellFormed(h4) && var h5 := Insert(h4, 4, Some(7)).1;
      WellFormed(h5) && var (r, h6) := Delete(h5, 3);
      PeekMinKeyIndex(h5) == Ok(3) && PeekMinValue(h5) == Ok(1) &&
      r == Ok(1) && WellFormed(h6) &&
      PeekMinKeyIndex(h6) == Ok(1) && PeekMinValue(h6) == Ok(3)
  {
    TernaryInserts(degree, maxSize);
    TernaryPeeks(T5());
  }

  // ---------------------------------------------------------------- where the code goes wrong

  /** MinIndexedDHeap(2, 2), so N = 3, after insert(0, 0) and insert(1, 1): an ordered heap. */
  function B2(): IHeap {
    IHeap(2, 2, [0, 1, -1], [0, 1, -1], [Some(0), Some(1), None])
  }

  /** B2 after update(0, 0): key 0 has been sunk below key 1 although its priority is smaller. */
  function B3(): IHeap {
    IHeap(2, 2, [1, 0, -1], [1, 0, -1], [Some(0), Some(1), None])
  }

  /** B3 after delete(0): key 0 is gone from the position map but still at the root, and
      key 1 has lost its slot. */
  function B4(): IHeap {
    IHeap(2, 1, [-1, 1, -1], [0, -1, -1], [None, Some(1), None])
  }

  lemma BinaryInserts(degree: int, maxSize: int)
    requires degree == 2 && maxSize == 2
    ensures Init(degree, maxSize).Ok?
    ensures var h0 := Init(degree, maxSize).value;
      WellFormed(h0) && var h1 := Insert(h0, 0, Some(0)).1;
      WellFormed(h1) && Insert(h1, 1, Some(1)).1 == B2()
  {
    var h0 := Init(degree, maxSize).value;
    assert h0.pm == [-1, -1, -1] && h0.im == [-1, -1, -1] && h0.vals == [None, None, None];
    assert Place(h0, 0, 0) == IHeap(2, 1, [0, -1, -1], [0, -1, -1], [Some(0), None, None]);
    var h1 := Insert(h0, 0, Some(0)).1;
    assert WellFormed(h1);
    assert Place(h1, 1, 1) == B2();
    assert Val(B2(), 1) == 1 && Val(B2(), 0) == 0;
  }

  lemma BinaryUpdate(h: IHeap)
    requires h == B2()
    ensures WellFormed(h) && Update(h, 0, Some(0)) == (Ok(0), B3())
  {
    assert WellFormed(h);
    assert Reprioritize(h, 0, 0) == h;
    assert MinChildScan(h, 0) == 1;
    assert Swap(h, 0, 1) == B3();
    assert MinChildScan(B3(), 1) == -1;
  }

  lemma BinaryDelete(h: IHeap)
    requires h == B3()
    ensures WellFormed(h) && Delete(h, 0) == (Ok(0), B4())
  {
    assert WellFormed(h);
    DeletePresent(h, 0);
    BinaryDeleteSteps(h);
  }

  lemma BinaryDeleteSteps(h: IHeap)
    requires h == B3()
    ensures Swim(SinkToLeaf(Detach(h, 0), 1), 1) == IHeap(2, 1, [0, 1, -1], [0, 1, -1], h.vals)
    ensures Vacate(IHeap(2, 1, [0, 1, -1], [0, 1, -1], h.vals), 0) == B4()
  {
    var h2 := Detach(h, 0);
    assert h2 == h.(sz := 1);
    assert MinChildScan(h2, 1) == -1;
    assert Val(h2, 1) == 0 && Val(h2, 0) == 1;
    var h3 := Swap(h2, 1, 0);
    assert h3 == IHeap(2, 1, [0, 1, -1], [0, 1, -1], h.vals);
    assert Swim(h2, 1) == h3;
  }

  /** The sink of update drives key 0 below key 1 although its priority is smaller: from an
      ordered heap, update(0, 0) (which changes nothing) leaves a heap that is not ordered,
      and the root no longer holds the least priority. */
  lemma UpdateBreaksOrder(degree: int, maxSize: int)
    requires degree == 2 && maxSize == 2
    ensures Init(degree, maxSize).Ok?
    ensures var h0 := Init(degree, maxSize).value;
      WellFormed(h0) && var h1 := Insert(h0, 0, Some(0)).1;
      WellFormed(h1) && var h2 := Insert(h1, 1, Some(1)).1;
      WellFormed(h2) && Ordered(h2) && var (r, h3) := Update(h2, 0, Some(0));
      r == Ok(0) && Contents(h3) == Contents(h2) && WellFormed(h3) && !Ordered(h3) &&
      PeekMinKeyIndex(h3) == Ok(1) && Contents(h3)[0] < Contents(h3)[1]
  {
    BinaryInserts(degree, maxSize);
    BinaryUpdate(B2());
    B2Facts(B2());
    B3Facts(B3());
  }

  lemma B2Facts(h: IHeap)
    requires h == B2()
    ensures WellFormed(h) && Ordered(h) && Contents(h) == map[0 := 0, 1 := 1]
  {
    assert WellFormed(h) && Val(h, 0) == 0 && Val(h, 1) == 1;
    assert Contents(h) == map[0 := 0, 1 := 1];
  }

  lemma B3Facts(h: IHeap)
    requires h == B3()
    ensures WellFormed(h) && !Ordered(h) && Contents(h) == map[0 := 0, 1 := 1]
    ensures PeekMinKeyIndex(h) == Ok(1)
  {
    assert WellFormed(h) && Val(h, 0) == 1 && Val(h, 1) == 0;
    assert Parent(h.d, 1) == 0;
    assert Contents(h) == map[0 := 0, 1 := 1];
  }

  /** After update(0, 0) has broken the order, delete(0) removes key 0 from the position map
      but its final swim lifts key 0 back to the root: peek_min_key_index then names the
      deleted key, and key 1, still present, sits in no occupied slot. */
  lemma DeleteRevivesKey(h: IHeap)
    requires h == B3()
    ensures WellFormed(h) && LastKeyRises(h, 0)
    ensures var (r, h') := Delete(h, 0);
      r == Ok(0) && PeekMinKeyIndex(h') == Ok(0) && 0 !in Contents(h') &&
      1 in Contents(h') && h'.pm[1] >= h'.sz && !WellFormed(h')
  {
    BinaryDelete(h);
    assert Val(h, 1) == 0 && Val(h, 0) == 1;
    assert Contents(B4()) == map[1 := 1];
  }

  /** MinIndexedDHeap(2, 10) after insert(0, 5). */
  function K1(): IHeap {
    IHeap(2, 1, [0, -1, -1, -1, -1, -1, -1, -1, -1, -1], [0, -1, -1, -1, -1, -1, -1, -1, -1, -1],
          [Some(5), None, None, None, None, None, None, None, None, None])
  }

  /** decrease(0, 1) asks less(1, 5), which reads slots 1 and 5: both are empty (-1), so both
      sides read values[-1], the missing priority of key 9, and the comparison raises
      TypeError instead of lowering the priority from 5 to 1.  The corrected decrease
      lowers it. */
  lemma DecreaseComparesSlots(h: IHeap)
    requires h == K1()
    ensures WellFormed(h) && Contents(h) == map[0 := 5]
    ensures Decrease(h, 0, Some(1)) == (Err(TypeError), h)
    ensures DecreaseFixed(h, 0, Some(1)).0 == Ok(()) && WellFormed(DecreaseFixed(h, 0, Some(1)).1)
    ensures Contents(DecreaseFixed(h, 0, Some(1)).1) == map[0 := 1]
  {
    K1Facts(h);
    DecreaseRaises(h);
    DecreaseFixedLowers(h);
  }

  lemma DecreaseRaises(h: IHeap)
    requires h == K1()
    ensures WellFormed(h) && Decrease(h, 0, Some(1)) == (Err(TypeError), h)
  {
    K1Facts(h);
    K1SlotLess(h);
  }

  lemma DecreaseFixedLowers(h: IHeap)
    requires h == K1()
    ensures WellFormed(h)
    ensures DecreaseFixed(h, 0, Some(1)).0 == Ok(()) && WellFormed(DecreaseFixed(h, 0, Some(1)).1)
    ensures Contents(DecreaseFixed(h, 0, Some(1)).1) == map[0 := 1]
  {
    K1Facts(h);
    DecreaseFixedSpec(h, 0, Some(1));
  }

  lemma K1Facts(h: IHeap)
    requires h == K1()
    ensures WellFormed(h) && Contents(h) == map[0 := 5]
  {
    assert WellFormed(h);
    assert Contents(h) == map[0 := 5];
  }

  lemma K1SlotLess(h: IHeap)
    requires h == K1()
    ensures SlotLess(h, 1, 5) == Err(TypeError)
  {
    assert PyIndex(h.im, 1) == Ok(-1) && PyIndex(h.im, 5) == Ok(-1);
    assert PyIndex(h.vals, -1) == Ok(None);
  }
}
