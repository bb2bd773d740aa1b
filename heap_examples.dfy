/**
 * The example runs of the three list-backed heaps, worked out on HeapCore and replayed on
 * the classes, and the run that shows MinDHeap's poll leaving the heap out of order.
 */
module HeapExamples {
  import opened Common
  import opened HeapCore
  import DHeap
  import DAryHeap
  import BinaryHeap

  /** Swap(s, i, j) is the sequence that agrees with s except that slots i and j hold each
      other's elements; applied to literals this spares the solver the multiset. */
  lemma SwapIs(s: seq<int>, i: nat, j: nat, t: seq<int>)
    requires i < |s| && j < |s| && |t| == |s| && t[i] == s[j] && t[j] == s[i]
    requires forall k :: 0 <= k < |s| && k != i && k != j ==> t[k] == s[k]
    ensures Swap(s, i, j) == t
  {
  }

  /** LastToRoot(s) is the sequence one shorter than s that starts with the last element
      of s and agrees with s after the root. */
  lemma LastToRootIs(s: seq<int>, t: seq<int>)
    requires |s| > 1 && |t| == |s| - 1 && t[0] == s[|s| - 1]
    requires forall k :: 0 < k < |t| ==> t[k] == s[k]
    ensures LastToRoot(s) == t
  {
  }

  // ---------------------------------------------------------------- MinDHeap(3, 10)
  // Each lemma below does one step of the run, so that the solver evaluates one call on
  // literals at a time.

  /** Adding 5, 3, 8 to a ternary heap: 3 rises above 5, 8 stays. */
  lemma TernaryAddsFirst()
    ensures Insert([], 3, 5) == [5]
    ensures Insert([5], 3, 3) == [3, 5]
    ensures Insert([3, 5], 3, 8) == [3, 5, 8]
  {
    assert Parent(3, 1) == 0 && Parent(3, 2) == 0;
    SwapIs([5, 3], 1, 0, [3, 5]);
  }

  /** Adding 1: it rises to the root. */
  lemma TernaryAddOne()
    ensures Insert([3, 5, 8], 3, 1) == [1, 5, 8, 3]
  {
    assert Parent(3, 3) == 0;
    SwapIs([3, 5, 8, 1], 3, 0, [1, 5, 8, 3]);
  }

  /** Adding 7: its parent 5 is smaller. */
  lemma TernaryAddSeven()
    ensures Insert([1, 5, 8, 3], 3, 7) == [1, 5, 8, 3, 7]
  {
    assert Parent(3, 4) == 1;
  }

  lemma TernaryPollSink()
    ensures SinkToLeaf([7, 5, 8, 3], 3, 0) == [3, 5, 8, 7]
  {
    assert MinChildScan([7, 5, 8, 3], 3, 0) == 3;
    SwapIs([7, 5, 8, 3], 0, 3, [3, 5, 8, 7]);
    assert MinChildScan([3, 5, 8, 7], 3, 3) == -1;
  }

  /** poll on [1, 5, 8, 3, 7]: 7 takes the root and is exchanged with its least child 3,
      which is a leaf. */
  lemma TernaryPoll()
    ensures PollToLeaf([1, 5, 8, 3, 7], 3) == (Some(1), [3, 5, 8, 7])
  {
    LastToRootIs([1, 5, 8, 3, 7], [7, 5, 8, 3]);
    TernaryPollSink();
  }

  /** MinDHeap(3, 10): after adding 5, 3, 8, 1, 7, peek and poll give 1, then peek gives 3. */
  method MinDHeapExample() returns (first: Option<int>, polled: Option<int>, next: Option<int>)
    ensures first == Some(1) && polled == Some(1) && next == Some(3)
  {
    var h := new DHeap.MinDHeap(3, 10);
    TernaryAddsFirst();
    var r := h.Add(Some(5));
    r := h.Add(Some(3));
    r := h.Add(Some(8));
    assert h.elems == [3, 5, 8];
    TernaryAddOne();
    r := h.Add(Some(1));
    TernaryAddSeven();
    r := h.Add(Some(7));
    assert h.elems == [1, 5, 8, 3, 7];
    first := h.Peek();
    TernaryPoll();
    polled := h.Poll();
    next := h.Peek();
  }

  // ---------------------------------------------------------------- DAryMinHeap(3)

  /** Inserting 10, 5, 20 into a ternary heap: 5 rises above 10, 20 stays. */
  lemma DAryInsertsFirst()
    ensures Insert([], 3, 10) == [10]
    ensures Insert([10], 3, 5) == [5, 10]
    ensures Insert([5, 10], 3, 20) == [5, 10, 20]
  {
    assert Parent(3, 1) == 0 && Parent(3, 2) == 0;
    SwapIs([10, 5], 1, 0, [5, 10]);
  }

  /** Inserting 1: it rises to the root. */
  lemma DAryInsertOne()
    ensures Insert([5, 10, 20], 3, 1) == [1, 10, 20, 5]
  {
    assert Parent(3, 3) == 0;
    SwapIs([5, 10, 20, 1], 3, 0, [1, 10, 20, 5]);
  }

  /** Inserting 15: its parent 10 is smaller. */
  lemma DAryInsertFifteen()
    ensures Insert([1, 10, 20, 5], 3, 15) == [1, 10, 20, 5, 15]
  {
    assert Parent(3, 4) == 1;
  }

  lemma DAryExtractSink()
    ensures SinkFixed([15, 10, 20, 5], 3, 0) == [5, 10, 20, 15]
  {
    assert MinChildFixed([15, 10, 20, 5], 3, 0) == 3;
    SwapIs([15, 10, 20, 5], 0, 3, [5, 10, 20, 15]);
    assert MinChildFixed([5, 10, 20, 15], 3, 3) == 3;
  }

  /** extract_min on [1, 10, 20, 5, 15]: 15 takes the root and is exchanged with 5, the
      strictly smallest of the root and its children. */
  lemma DAryExtract()
    ensures ExtractMin([1, 10, 20, 5, 15], 3) == (Some(1), [5, 10, 20, 15])
  {
    LastToRootIs([1, 10, 20, 5, 15], [15, 10, 20, 5]);
    DAryExtractSink();
  }

  /** DAryMinHeap(3): after inserting 10, 5, 20, 1, 15, peek and extract_min give 1, and four
      elements remain. */
  method DAryExample() returns (first: Option<int>, extracted: Option<int>, size: nat, empty: bool)
    ensures first == Some(1) && extracted == Some(1) && size == 4 && !empty
  {
    var h := new DAryHeap.DAryMinHeap(3);
    DAryInsertsFirst();
    h.Insert(10);
    h.Insert(5);
    h.Insert(20);
    DAryInsertOne();
    h.Insert(1);
    DAryInsertFifteen();
    h.Insert(15);
    first := h.Peek();
    DAryExtract();
    extracted := h.ExtractMin();
    size := h.GetSize();
    empty := h.IsEmpty();
  }

  // ---------------------------------------------------------------- MinHeap

  /** Inserting 10, 5, 14 into a binary heap: 5 rises above 10, 14 stays. */
  lemma BinaryInsertsFirst()
    ensures Insert([], 2, 10) == [10]
    ensures Insert([10], 2, 5) == [5, 10]
    ensures Insert([5, 10], 2, 14) == [5, 10, 14]
  {
    assert Parent(2, 1) == 0 && Parent(2, 2) == 0;
    SwapIs([10, 5], 1, 0, [5, 10]);
  }

  /** Inserting 9: it rises above 10 but not above 5. */
  lemma BinaryInsertNine()
    ensures Insert([5, 10, 14], 2, 9) == [5, 9, 14, 10]
  {
    assert Parent(2, 3) == 1 && Parent(2, 1) == 0;
    SwapIs([5, 10, 14, 9], 3, 1, [5, 9, 14, 10]);
  }

  lemma BinaryInsertTwoFirst()
    ensures Swim([5, 9, 14, 10, 2], 2, 4) == Swim([5, 2, 14, 10, 9], 2, 1)
  {
    assert Parent(2, 4) == 1;
    SwapIs([5, 9, 14, 10, 2], 4, 1, [5, 2, 14, 10, 9]);
  }

  lemma BinaryInsertTwoSecond()
    ensures Swim([5, 2, 14, 10, 9], 2, 1) == [2, 5, 14, 10, 9]
  {
    assert Parent(2, 1) == 0;
    SwapIs([5, 2, 14, 10, 9], 1, 0, [2, 5, 14, 10, 9]);
  }

  /** Inserting 2: it rises to the root in two exchanges. */
  lemma BinaryInsertTwo()
    ensures Insert([5, 9, 14, 10], 2, 2) == [2, 5, 14, 10, 9]
  {
    assert [5, 9, 14, 10] + [2] == [5, 9, 14, 10, 2];
    BinaryInsertTwoFirst();
    BinaryInsertTwoSecond();
  }

  lemma BinarySinkNine()
    ensures SinkFixed([9, 5, 14, 10], 2, 0) == [5, 9, 14, 10]
  {
    assert MinChildFixed([9, 5, 14, 10], 2, 0) == 1;
    SwapIs([9, 5, 14, 10], 0, 1, [5, 9, 14, 10]);
    assert FirstChild(2, 1) == 3;
    assert Scan([5, 9, 14, 10], 4, 4, 1) == 1;
    assert MinChildFixed([5, 9, 14, 10], 2, 1) == 1;
  }

  lemma BinarySinkTen()
    ensures SinkFixed([10, 9, 14], 2, 0) == [9, 10, 14]
  {
    assert MinChildFixed([10, 9, 14], 2, 0) == 1;
    SwapIs([10, 9, 14], 0, 1, [9, 10, 14]);
    assert MinChildFixed([9, 10, 14], 2, 1) == 1;
  }

  lemma BinarySinkFourteen()
    ensures SinkFixed([14, 10], 2, 0) == [10, 14]
  {
    assert MinChildFixed([14, 10], 2, 0) == 1;
    SwapIs([14, 10], 0, 1, [10, 14]);
    assert MinChildFixed([10, 14], 2, 1) == 1;
  }

  lemma BinaryExtractTwo()
    ensures ExtractMin([2, 5, 14, 10, 9], 2) == (Some(2), [5, 9, 14, 10])
  {
    LastToRootIs([2, 5, 14, 10, 9], [9, 5, 14, 10]);
    BinarySinkNine();
  }

  lemma BinaryExtractFive()
    ensures ExtractMin([5, 9, 14, 10], 2) == (Some(5), [9, 10, 14])
  {
    LastToRootIs([5, 9, 14, 10], [10, 9, 14]);
    BinarySinkTen();
  }

  lemma BinaryExtractNine()
    ensures ExtractMin([9, 10, 14], 2) == (Some(9), [10, 14])
  {
    LastToRootIs([9, 10, 14], [14, 10]);
    BinarySinkFourteen();
  }

  /** The last two calls: with two elements the popped 14 takes the root and stays; a lone
      element is popped. */
  lemma BinaryExtractLast()
    ensures ExtractMin([10, 14], 2) == (Some(10), [14])
    ensures ExtractMin([14], 2) == (Some(14), [])
  {
    LastToRootIs([10, 14], [14]);
    assert MinChildFixed([14], 2, 0) == 0;
  }

  /** MinHeap: after inserting 10, 5, 14, 9, 2, peek gives 2 and extract_min gives 2, 5, 9,
      10, 14 in that order, with two elements left after the third call and none at the
      end. */
  method BinaryExample() returns (top: Option<int>, out: seq<Option<int>>, midSize: nat, empty: bool)
    ensures top == Some(2)
    ensures out == [Some(2), Some(5), Some(9), Some(10), Some(14)]
    ensures midSize == 2 && empty
  {
    var h := new BinaryHeap.MinHeap();
    BinaryInsertsFirst();
    h.Insert(10);
    h.Insert(5);
    h.Insert(14);
    BinaryInsertNine();
    h.Insert(9);
    BinaryInsertTwo();
    h.Insert(2);
    top := h.Peek();
    BinaryExtractTwo();
    var a := h.ExtractMin();
    BinaryExtractFive();
    var b := h.ExtractMin();
    BinaryExtractNine();
    var c := h.ExtractMin();
    midSize := h.Size();
    BinaryExtractLast();
    var e := h.ExtractMin();
    var f := h.ExtractMin();
    empty := h.IsEmpty();
    out := [a, b, c, e, f];
  }

  // ---------------------------------------------------------------- MinDHeap's poll

  /** Adding 0, 1, 2, 5, 6, 3 to MinDHeap(2, n) moves nothing: each element is at least its
      parent. */
  lemma PollInputFirst()
    ensures Insert(Insert(Insert([], 2, 0), 2, 1), 2, 2) == [0, 1, 2]
  {
    assert Parent(2, 1) == 0 && Parent(2, 2) == 0;
  }

  lemma PollInputFive()
    ensures Insert([0, 1, 2], 2, 5) == [0, 1, 2, 5]
  {
    assert Parent(2, 3) == 1;
  }

  lemma PollInputSix()
    ensures Insert([0, 1, 2, 5], 2, 6) == [0, 1, 2, 5, 6]
  {
    assert Parent(2, 4) == 1;
  }

  lemma PollInputThree()
    ensures Insert([0, 1, 2, 5, 6], 2, 3) == [0, 1, 2, 5, 6, 3]
  {
    assert Parent(2, 5) == 2;
  }

  lemma PollInputLast()
    ensures Insert(Insert(Insert([0, 1, 2], 2, 5), 2, 6), 2, 3) == [0, 1, 2, 5, 6, 3]
  {
    PollInputFive();
    PollInputSix();
    PollInputThree();
  }

  lemma PollInput()
    ensures Insert(Insert(Insert(Insert(Insert(Insert([], 2, 0), 2, 1), 2, 2), 2, 5), 2, 6), 2, 3)
      == [0, 1, 2, 5, 6, 3]
  {
    PollInputFirst();
    PollInputLast();
  }

  /** The heap they build is ordered. */
  lemma InputOrdered()
    ensures Ordered([0, 1, 2, 5, 6, 3], 2)
  {
    assert Parent(2, 1) == 0 && Parent(2, 2) == 0 && Parent(2, 3) == 1;
    assert Parent(2, 4) == 1 && Parent(2, 5) == 2;
  }

  lemma PollSinkFirst()
    ensures SinkToLeaf([3, 1, 2, 5, 6], 2, 0) == SinkToLeaf([1, 3, 2, 5, 6], 2, 1)
  {
    assert MinChildScan([3, 1, 2, 5, 6], 2, 0) == 1;
    SwapIs([3, 1, 2, 5, 6], 0, 1, [1, 3, 2, 5, 6]);
  }

  lemma PollSinkSecond()
    ensures SinkToLeaf([1, 3, 2, 5, 6], 2, 1) == [1, 5, 2, 3, 6]
  {
    assert MinChildScan([1, 3, 2, 5, 6], 2, 1) == 3;
    SwapIs([1, 3, 2, 5, 6], 1, 3, [1, 5, 2, 3, 6]);
    assert MinChildScan([1, 5, 2, 3, 6], 2, 3) == -1;
  }

  lemma PollAsWritten()
    ensures PollToLeaf([0, 1, 2, 5, 6, 3], 2) == (Some(0), [1, 5, 2, 3, 6])
  {
    LastToRootIs([0, 1, 2, 5, 6, 3], [3, 1, 2, 5, 6]);
    PollSinkFirst();
    PollSinkSecond();
  }

  lemma PollFixedSink()
    ensures SinkFixed([3, 1, 2, 5, 6], 2, 0) == [1, 3, 2, 5, 6]
  {
    assert MinChildFixed([3, 1, 2, 5, 6], 2, 0) == 1;
    SwapIs([3, 1, 2, 5, 6], 0, 1, [1, 3, 2, 5, 6]);
    assert MinChildFixed([1, 3, 2, 5, 6], 2, 1) == 1;
  }

  lemma PollFixed()
    ensures ExtractMin([0, 1, 2, 5, 6, 3], 2) == (Some(0), [1, 3, 2, 5, 6])
  {
    LastToRootIs([0, 1, 2, 5, 6, 3], [3, 1, 2, 5, 6]);
    PollFixedSink();
  }

  lemma ResultsOrder()
    ensures !Ordered([1, 5, 2, 3, 6], 2)
    ensures Ordered([1, 3, 2, 5, 6], 2)
  {
    assert Parent(2, 1) == 0 && Parent(2, 2) == 0 && Parent(2, 3) == 1 && Parent(2, 4) == 1;
  }

  /** poll as written leaves [1, 5, 2, 3, 6]: 3 is driven down to slot 1 and then past its
      child 5 into a leaf, so slot 3 holds 3 under 5 in slot 1.  extract_min, which stops
      sinking once no child is strictly smaller, leaves the ordered [1, 3, 2, 5, 6]. */
  lemma PollBreaksOrder()
    ensures Insert(Insert(Insert(Insert(Insert(Insert([], 2, 0), 2, 1), 2, 2), 2, 5), 2, 6), 2, 3)
      == [0, 1, 2, 5, 6, 3]
    ensures Ordered([0, 1, 2, 5, 6, 3], 2)
    ensures PollToLeaf([0, 1, 2, 5, 6, 3], 2) == (Some(0), [1, 5, 2, 3, 6])
    ensures !Ordered([1, 5, 2, 3, 6], 2)
    ensures ExtractMin([0, 1, 2, 5, 6, 3], 2) == (Some(0), [1, 3, 2, 5, 6])
    ensures Ordered([1, 3, 2, 5, 6], 2)
  {
    PollInput();
    InputOrdered();
    PollAsWritten();
    PollFixed();
    ResultsOrder();
  }
}
