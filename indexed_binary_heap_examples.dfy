/**
 * Concrete runs of the indexed binary heap: the example at the end of the source file, and
 * an ordered heap that remove leaves out of order.  Each state is written out in full;
 * each lemma takes one step.
 */
module IndexedBinaryHeapExamples {
  import opened Common
  import opened IndexedHeapCore
  import opened IndexedBinaryHeapSpec

  // ---------------------------------------------------------------- the example

  function E0(): IHeap {
    IHeap(2, 0, [-1, -1, -1, -1, -1, -1, -1, -1, -1, -1], [-1, -1, -1, -1, -1, -1, -1, -1, -1, -1],
          [None, None, None, None, None, None, None, None, None, None])
  }

  function E1(): IHeap {
    IHeap(2, 1, [0, -1, -1, -1, -1, -1, -1, -1, -1, -1], [0, -1, -1, -1, -1, -1, -1, -1, -1, -1],
          [Some(5), None, None, None, None, None, None, None, None, None])
  }

  function E2(): IHeap {
    IHeap(2, 2, [1, 0, -1, -1, -1, -1, -1, -1, -1, -1], [1, 0, -1, -1, -1, -1, -1, -1, -1, -1],
          [Some(5), Some(3), None, None, None, None, None, None, None, None])
  }

  function E3(): IHeap {
    IHeap(2, 3, [1, 0, 2, -1, -1, -1, -1, -1, -1, -1], [1, 0, 2, -1, -1, -1, -1, -1, -1, -1],
          [Some(5), Some(3), Some(8), None, None, None, None, None, None, None])
  }

  function E4(): IHeap {
    IHeap(2, 4, [3, 1, 2, 0, -1, -1, -1, -1, -1, -1], [3, 1, 2, 0, -1, -1, -1, -1, -1, -1],
          [Some(5), Some(3), Some(8), Some(1), None, None, None, None, None, None])
  }

  function E5(): IHeap {
    IHeap(2, 5, [3, 1, 2, 0, 4, -1, -1, -1, -1, -1], [3, 1, 2, 0, 4, -1, -1, -1, -1, -1],
          [Some(5), Some(3), Some(8), Some(1), Some(7), None, None, None, None, None])
  }

  /** E5 once slot 0 (index 3) is exchanged with the last slot and the heap shrinks. */
  function E5Detached(): IHeap {
    IHeap(2, 4, [3, 1, 2, 4, 0, -1, -1, -1, -1, -1], [4, 1, 2, 0, 3, -1, -1, -1, -1, -1], E5().vals)
  }

  /** E5Detached after the first exchange of sink (slot 0 with slot 1). */
  function E5Sinking(): IHeap {
    IHeap(2, 4, [3, 0, 2, 4, 1, -1, -1, -1, -1, -1], [1, 4, 2, 0, 3, -1, -1, -1, -1, -1], E5().vals)
  }

  /** E5Sinking after the second exchange of sink (slot 1 with slot 3). */
  function E5Sunk(): IHeap {
    IHeap(2, 4, [1, 0, 2, 4, 3, -1, -1, -1, -1, -1], [1, 0, 2, 4, 3, -1, -1, -1, -1, -1], E5().vals)
  }

  /** After remove(3); heap slot 4 still holds index 3. */
  function E6(): IHeap {
    IHeap(2, 4, [1, 0, 2, -1, 3, -1, -1, -1, -1, -1], [1, 0, 2, 4, 3, -1, -1, -1, -1, -1],
          [Some(5), Some(3), Some(8), None, Some(7), None, None, None, None, None])
  }

  lemma WellFormedE0() ensures WellFormed(E0()) { }
  lemma WellFormedE1() ensures WellFormed(E1()) { }
  lemma WellFormedE2() ensures WellFormed(E2()) { }
  lemma WellFormedE3() ensures WellFormed(E3()) { }
  lemma WellFormedE4() ensures WellFormed(E4()) { }
  lemma WellFormedE5() ensures WellFormed(E5()) && 3 in Contents(E5()) { }
  lemma WellFormedE6() ensures WellFormed(E6()) { }

  lemma ExampleInit(maxSize: int)
    requires maxSize == 10
    ensures Init(maxSize) == E0()
  {
    var h := Init(maxSize);
    assert h.pm == E0().pm;
    assert h.im == E0().im;
    assert h.vals == E0().vals;
  }

  lemma ExampleAdd0(h: IHeap)
    requires h == E0()
    ensures WellFormed(h) && Add(h, 0, 5) == (Ok(()), E1())
  {
    WellFormedE0();
    assert Place(h, 0, 5) == E1();
  }

  lemma ExampleAdd1(h: IHeap)
    requires h == E1()
    ensures WellFormed(h) && Add(h, 1, 3) == (Ok(()), E2())
  {
    WellFormedE1();
    var h1 := Place(h, 1, 3);
    assert h1 == IHeap(2, 2, [0, 1, -1, -1, -1, -1, -1, -1, -1, -1], [0, 1, -1, -1, -1, -1, -1, -1, -1, -1],
                       E2().vals);
    assert Val(h1, 1) == 3 && Val(h1, 0) == 5;
    assert Swap(h1, 1, 0) == E2();
  }

  lemma ExampleAdd2(h: IHeap)
    requires h == E2()
    ensures WellFormed(h) && Add(h, 2, 8) == (Ok(()), E3())
  {
    WellFormedE2();
    var h1 := Place(h, 2, 8);
    assert h1 == E3();
    assert Val(h1, 2) == 8 && Val(h1, 0) == 3;
  }

  /** E3 with index 3 placed in slot 3, before it swims. */
  function E3Placed(): IHeap {
    IHeap(2, 4, [1, 0, 2, 3, -1, -1, -1, -1, -1, -1], [1, 0, 2, 3, -1, -1, -1, -1, -1, -1], E4().vals)
  }

  /** E3Placed after the first exchange of swim (slot 3 with slot 1). */
  function E3Swum(): IHeap {
    IHeap(2, 4, [3, 0, 2, 1, -1, -1, -1, -1, -1, -1], [1, 3, 2, 0, -1, -1, -1, -1, -1, -1], E4().vals)
  }

  lemma ExampleSwim3()
    ensures Swim(E3Swum(), 1) == E4()
  {
    var h := E3Swum();
    assert Val(h, 1) == 1 && Val(h, 0) == 3;
    assert Swap(h, 1, 0) == E4();
    assert Swim(E4(), 0) == E4();
  }

  lemma ExampleAdd3(h: IHeap)
    requires h == E3()
    ensures WellFormed(h) && Add(h, 3, 1) == (Ok(()), E4())
  {
    WellFormedE3();
    assert Place(h, 3, 1) == E3Placed();
    var h1 := E3Placed();
    assert Val(h1, 3) == 1 && Val(h1, 1) == 5;
    assert Swap(h1, 3, 1) == E3Swum();
    ExampleSwim3();
  }

  lemma ExampleAdd4(h: IHeap)
    requires h == E4()
    ensures WellFormed(h) && Add(h, 4, 7) == (Ok(()), E5())
  {
    WellFormedE4();
    var h1 := Place(h, 4, 7);
    assert h1 == E5();
    assert Val(h1, 4) == 7 && Val(h1, 1) == 3;
  }

  lemma ExampleSink()
    ensures SinkFixed(E5Detached(), 0) == E5Sunk()
  {
    var h2 := E5Detached();
    assert Val(h2, 0) == 7 && Val(h2, 1) == 3 && Val(h2, 2) == 8;
    assert MinChildFixed(h2, 0) == 1;
    assert Swap(h2, 0, 1) == E5Sinking();
    var h3 := E5Sinking();
    assert Val(h3, 1) == 7 && Val(h3, 3) == 5;
    assert MinChildFixed(h3, 1) == 3;
    assert Swap(h3, 1, 3) == E5Sunk();
    assert MinChildFixed(E5Sunk(), 3) == 3;
  }

  lemma ExampleDetach(h: IHeap)
    requires h == E5()
    ensures WellFormed(h) && 3 in Contents(h) && h.pm[3] == 0 && Detach(h, 3) == E5Detached()
  {
    WellFormedE5();
  }

  lemma ExampleForget()
    ensures Forget(E5Sunk(), 3) == E6()
  {
  }

  lemma ExampleRemove(h: IHeap)
    requires h == E5()
    ensures WellFormed(h) && Remove(h, 3) == (Ok(()), E6())
  {
    ExampleDetach(h);
    ExampleSink();
    ExampleForget();
  }

  /** The five adds of the example reach E5. */
  lemma ExampleAdds(maxSize: int)
    requires maxSize == 10
    ensures var h0 := Init(maxSize);
      WellFormed(h0) && var h1 := Add(h0, 0, 5).1;
      WellFormed(h1) && var h2 := Add(h1, 1, 3).1;
      WellFormed(h2) && var h3 := Add(h2, 2, 8).1;
      WellFormed(h3) && var h4 := Add(h3, 3, 1).1;
      WellFormed(h4) && Add(h4, 4, 7).1 == E5()
  {
    ExampleInit(maxSize);
    var h0 := Init(maxSize);
    ExampleAdd0(h0);
    var h1 := Add(h0, 0, 5).1;
    assert h1 == E1();
    ExampleAdd1(h1);
    var h2 := Add(h1, 1, 3).1;
    assert h2 == E2();
    ExampleAdd2(h2);
    var h3 := Add(h2, 2, 8).1;
    assert h3 == E3();
    ExampleAdd3(h3);
    var h4 := Add(h3, 3, 1).1;
    assert h4 == E4();
    ExampleAdd4(h4);
  }

  /** The peeks and the remove of the example, from E5. */
  lemma ExamplePeeks(h5: IHeap)
    requires h5 == E5()
    ensures WellFormed(h5)
    ensures var (r, h6) := Remove(h5, 3);
      Peek(h5) == Some(3) && GetKey(h5, 3) == Ok(Some(1)) &&
      r == Ok(()) && WellFormed(h6) &&
      Peek(h6) == Some(1) && GetKey(h6, 1) == Ok(Some(3))
  {
    ExampleRemove(h5);
    WellFormedE6();
  }

  /** The example at the end of the source file, MinIndexedBinaryHeap(10): the minimum is
      index 3 with key 1; after remove(3) it is index 1 with key 3. */
  lemma BinaryExample(maxSize: int)
    requires maxSize == 10
    ensures var h0 := Init(maxSize);
      WellFormed(h0) && var h1 := Add(h0, 0, 5).1;
      WellFormed(h1) && var h2 := Add(h1, 1, 3).1;
      WellFormed(h2) && var h3 := Add(h2, 2, 8).1;
      WellFormed(h3) && var h4 := Add(h3, 3, 1).1;
      WellFormed(h4) && var h5 := Add(h4, 4, 7).1;
      WellFormed(h5) && var (r, h6) := Remove(h5, 3);
      Peek(h5) == Some(3) && GetKey(h5, 3) == Ok(Some(1)) &&
      r == Ok(()) && WellFormed(h6) &&
      Peek(h6) == Some(1) && GetKey(h6, 1) == Ok(Some(3))
  {
    ExampleAdds(maxSize);
    ExamplePeeks(E5());
  }

  // ---------------------------------------------------------------- where remove goes wrong

  /** MinIndexedBinaryHeap(6) after add(0, 0), add(1, 10), add(2, 1), add(3, 11), add(4, 12),
      add(5, 2): no add has to swim, and the heap is ordered. */
  function S6(): IHeap {
    IHeap(2, 6, [0, 1, 2, 3, 4, 5], [0, 1, 2, 3, 4, 5],
          [Some(0), Some(10), Some(1), Some(11), Some(12), Some(2)])
  }

  /** S6 after remove(3): index 5 (key 2) has moved into slot 3, below slot 1 (key 10). */
  function S6Removed(): IHeap {
    IHeap(2, 5, [0, 1, 2, -1, 4, 3], [0, 1, 2, 5, 4, 3],
          [Some(0), Some(10), Some(1), None, Some(12), Some(2)])
  }

  lemma S6Facts(h: IHeap)
    requires h == S6()
    ensures WellFormed(h) && Ordered(h) && 3 in Contents(h)
  {
    assert Val(h, 0) == 0 && Val(h, 1) == 10 && Val(h, 2) == 1;
    assert Val(h, 3) == 11 && Val(h, 4) == 12 && Val(h, 5) == 2;
    assert Parent(2, 1) == 0 && Parent(2, 2) == 0 && Parent(2, 3) == 1;
    assert Parent(2, 4) == 1 && Parent(2, 5) == 2;
  }

  lemma S6RemovedFacts(h: IHeap)
    requires h == S6Removed()
    ensures WellFormed(h) && !Ordered(h)
  {
    assert Val(h, 3) == 2 && Val(h, 1) == 10 && Parent(2, 3) == 1;
  }

  /** The remove step: slot 3 takes the last slot's index 5, and sink has nothing to do, as
      slot 3 has no children; the swim that would lift key 2 above key 10 never happens. */
  lemma S6Remove(h: IHeap)
    requires h == S6()
    ensures WellFormed(h) && Remove(h, 3) == (Ok(()), S6Removed())
  {
    S6Facts(h);
    var h2 := Detach(h, 3);
    assert h2 == IHeap(2, 5, [0, 1, 2, 5, 4, 3], [0, 1, 2, 5, 4, 3], h.vals);
    assert MinChildFixed(h2, 3) == 3;
    assert Forget(h2, 3) == S6Removed();
  }

  /** remove breaks the order: from the ordered heap S6, remove(3) leaves key 2 below key
      10, while the corrected remove keeps the heap ordered. */
  lemma RemoveBreaksOrder(h: IHeap)
    requires h == S6()
    ensures WellFormed(h) && Ordered(h)
    ensures Remove(h, 3).0 == Ok(()) && !Ordered(Remove(h, 3).1)
    ensures Contents(Remove(h, 3).1) == Contents(h) - {3}
    ensures RemoveFixed(h, 3).0 == Ok(()) && Ordered(RemoveFixed(h, 3).1)
  {
    S6Facts(h);
    S6Remove(h);
    S6RemovedFacts(S6Removed());
    RemoveSpec(h, 3);
    RemoveFixedSpec(h, 3);
  }
}
