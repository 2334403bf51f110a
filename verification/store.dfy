/**
 * The book store's state and its operations, as values: every operation maps a
 * state to the next state and to what it returns. The class in module Database
 * holds the same three parts as fields and is specified by these functions.
 */
module Store {
  import opened Books

  /**
   * ErrBookNotFound is the store's one error. IndexOutOfRange stands for the Go
   * runtime panic raised when an index entry points past the end of the slice,
   * which can happen once a non-last record has been removed (see RemoveBook).
   */
  datatype Error = ErrBookNotFound | IndexOutOfRange

  datatype Result<T> = Ok(value: T) | Err(error: Error)

  /** The ordered records, the id-to-position index and the last allocated id. */
  datatype DBState = DBState(books: seq<Book>, index: map<int, nat>, lastBookID: int)

  /** The state after an operation, and what the operation returned. */
  datatype Step<T> = Step(next: DBState, out: T)

  /** The ids of a sequence of records, in order. */
  function Ids(books: seq<Book>): (ids: seq<int>)
    ensures |ids| == |books|
    ensures forall i :: 0 <= i < |books| ==> ids[i] == books[i].ID
  {
    seq(|books|, i requires 0 <= i < |books| => books[i].ID)
  }

  /**
   * What every reachable state satisfies, removals included: the counter is
   * not negative, every stored id and every index key was allocated by it,
   * and no id is stored twice.
   */
  ghost predicate WellFormed(s: DBState) {
    && 0 <= s.lastBookID
    && (forall i :: 0 <= i < |s.books| ==> 1 <= s.books[i].ID <= s.lastBookID)
    && (forall i, j :: 0 <= i < j < |s.books| ==> s.books[i].ID != s.books[j].ID)
    && (forall id :: id in s.index ==> 1 <= id <= s.lastBookID)
  }

  /**
   * The index agrees with the slice: each record's id maps to its own
   * position, and each index entry points at a record carrying that id.
   */
  ghost predicate Consistent(s: DBState) {
    && (forall i :: 0 <= i < |s.books| ==> s.books[i].ID in s.index && s.index[s.books[i].ID] == i)
    && (forall id :: id in s.index ==> s.index[id] < |s.books| && s.books[s.index[id]].ID == id)
  }

  /** Every stored record was updated no earlier than it was created. */
  ghost predicate TimestampsOrdered(s: DBState) {
    forall i :: 0 <= i < |s.books| ==> s.books[i].CreatedAt <= s.books[i].UpdatedAt
  }

  /** The state a new store starts in. */
  function Empty(): (s: DBState)
    ensures WellFormed(s) && Consistent(s) && TimestampsOrdered(s)
    ensures forall id :: GetBook(s, id) == Err(ErrBookNotFound)
  {
    DBState([], map[], 0)
  }

  /** Allocates the id after the last one and records it as the last one. */
  function NewBookID(s: DBState): (r: Step<int>)
    ensures r.out == s.lastBookID + 1
    ensures r.next == s.(lastBookID := r.out)
    ensures WellFormed(s) ==> r.out !in s.index && r.out !in Ids(s.books)
  {
    var id := s.lastBookID + 1;
    Step(s.(lastBookID := id), id)
  }

  /** Appends a new record under a fresh id and records its position. */
  function AddBook(s: DBState, name: string, author: string, now: Time): (r: Step<Book>)
    ensures r.out.ID == s.lastBookID + 1 && r.next.lastBookID == r.out.ID
    ensures r.out.Name == name && r.out.Author == author
    ensures r.out.CreatedAt == now && SameTimestamps(r.out)
    ensures r.next.books == s.books + [r.out]
    ensures r.next.index == s.index[r.out.ID := |s.books|]
    ensures GetBook(r.next, r.out.ID) == Ok(r.out)
  {
    var alloc := NewBookID(s);
    var b := NewBook(alloc.out, name, author, now);
    Step(alloc.next.(books := s.books + [b], index := s.index[b.ID := |s.books|]), b)
  }

  /**
   * Looks a record up through the index. An id missing from the index is
   * ErrBookNotFound; a position past the end of the slice is the panic.
   */
  function GetBook(s: DBState, id: int): (r: Result<Book>)
    ensures r == Err(ErrBookNotFound) <==> id !in s.index
    ensures r.Ok? <==> id in s.index && s.index[id] < |s.books|
    ensures r.Ok? ==> r.value == s.books[s.index[id]]
    ensures Consistent(s) ==> (r.Ok? <==> id in s.index) && (r.Ok? ==> r.value.ID == id)
  {
    if id !in s.index then Err(ErrBookNotFound)
    else if s.index[id] >= |s.books| then Err(IndexOutOfRange)
    else Ok(s.books[s.index[id]])
  }

  /**
   * Deletes the slot the index names for id and forgets id. Later records move
   * down one place, but their index entries are left as they were.
   */
  function RemoveBook(s: DBState, id: int): (r: Step<Result<()>>)
    ensures r.out == Err(ErrBookNotFound) <==> id !in s.index
    ensures r.out.Ok? <==> id in s.index && s.index[id] < |s.books|
    ensures r.out.Err? ==> r.next == s
    ensures r.next.lastBookID == s.lastBookID
    ensures r.out.Ok? ==>
      var p := s.index[id];
      && |r.next.books| == |s.books| - 1
      && r.next.books[..p] == s.books[..p]
      && r.next.books[p..] == s.books[p + 1..]
      && id !in r.next.index
      && (forall k :: k in s.index && k != id ==> k in r.next.index && r.next.index[k] == s.index[k])
      && (forall k :: k in r.next.index ==> k in s.index)
  {
    if id !in s.index then Step(s, Err(ErrBookNotFound))
    else
      var p := s.index[id];
      if p >= |s.books| then Step(s, Err(IndexOutOfRange))
      else Step(s.(books := s.books[..p] + s.books[p + 1..], index := s.index - {id}), Ok(()))
  }

  /**
   * Overwrites name, author and update time of the record at the position the
   * index names for id, and returns that record.
   */
  function UpdateBook(s: DBState, id: int, name: string, author: string, now: Time): (r: Step<Result<Book>>)
    ensures r.out == Err(ErrBookNotFound) <==> id !in s.index
    ensures r.out.Ok? <==> id in s.index && s.index[id] < |s.books|
    ensures r.out.Err? ==> r.next == s
    ensures r.next.index == s.index && r.next.lastBookID == s.lastBookID
    ensures |r.next.books| == |s.books|
    ensures r.out.Ok? ==>
      var p := s.index[id];
      var b := r.out.value;
      && b.Name == name && b.Author == author && b.UpdatedAt == now
      && b.ID == s.books[p].ID && b.CreatedAt == s.books[p].CreatedAt
      && r.next.books[p] == b
      && (forall i :: 0 <= i < |s.books| && i != p ==> r.next.books[i] == s.books[i])
    ensures Consistent(s) && r.out.Ok? ==> r.out.value.ID == id && GetBook(r.next, id) == r.out
  {
    if id !in s.index then Step(s, Err(ErrBookNotFound))
    else
      var p := s.index[id];
      if p >= |s.books| then Step(s, Err(IndexOutOfRange))
      else
        var b := s.books[p].(Name := name, Author := author, UpdatedAt := now);
        Step(s.(books := s.books[p := b]), Ok(b))
  }

  // ---------------------------------------------------------------------------
  // Single operations and the invariants

  /** Deleting one slot keeps the stored ids distinct and within bounds. */
  lemma DeleteKeepsIdsDistinct(s: DBState, p: nat)
    requires WellFormed(s) && p < |s.books|
    ensures WellFormed(s.(books := s.books[..p] + s.books[p + 1..]))
  {
    var t := s.books[..p] + s.books[p + 1..];
    assert forall i :: 0 <= i < |t| ==> t[i] == s.books[if i < p then i else i + 1];
    forall i, j | 0 <= i < j < |t|
      ensures t[i].ID != t[j].ID
    {
      var i', j' := if i < p then i else i + 1, if j < p then j else j + 1;
      assert t[i] == s.books[i'] && t[j] == s.books[j'] && i' < j';
    }
  }

  /** AddBook keeps the slice and the index consistent. */
  lemma AddPreservesConsistent(s: DBState, name: string, author: string, now: Time)
    requires WellFormed(s) && Consistent(s)
    ensures var r := AddBook(s, name, author, now); WellFormed(r.next) && Consistent(r.next)
  {
    var r := AddBook(s, name, author, now);
    assert r.out.ID !in s.index && r.out.ID !in Ids(s.books);
    forall i | 0 <= i < |r.next.books|
      ensures r.next.books[i].ID in r.next.index && r.next.index[r.next.books[i].ID] == i
    {
      if i < |s.books| {
        assert r.next.books[i] == s.books[i];
        assert Ids(s.books)[i] == s.books[i].ID;
      }
    }
  }

  /** UpdateBook keeps ids and positions, so it keeps both invariants. */
  lemma UpdatePreservesConsistent(s: DBState, id: int, name: string, author: string, now: Time)
    requires WellFormed(s) && Consistent(s)
    ensures var r := UpdateBook(s, id, name, author, now); WellFormed(r.next) && Consistent(r.next)
  {
    var r := UpdateBook(s, id, name, author, now);
    assert forall i :: 0 <= i < |s.books| ==> r.next.books[i].ID == s.books[i].ID;
  }

  /**
   * On a consistent store, a removal of a present id succeeds, and the store
   * stays consistent exactly when the removed record was the last one.
   */
  lemma RemoveConsistentIffLast(s: DBState, id: int)
    requires Consistent(s) && id in s.index
    ensures var r := RemoveBook(s, id);
      && r.out.Ok?
      && (Consistent(r.next) <==> s.index[id] == |s.books| - 1)
  {
    var r := RemoveBook(s, id);
    var p := s.index[id];
    var t := r.next.books;
    if p == |s.books| - 1 {
      assert t == s.books[..p];
      forall i | 0 <= i < |t|
        ensures t[i].ID in r.next.index && r.next.index[t[i].ID] == i
      {
        assert t[i] == s.books[i];
        assert s.index[s.books[i].ID] == i;
      }
      forall k | k in r.next.index
        ensures r.next.index[k] < |t| && t[r.next.index[k]].ID == k
      {
        assert s.index[k] != p;
      }
    } else {
      var b := s.books[p + 1];
      assert t[p] == b;
      assert s.index[b.ID] == p + 1;
      assert b.ID != id;
      assert r.next.index[b.ID] == p + 1;
    }
  }

  /** Every operation keeps the stored ids allocated and distinct. */
  lemma NextPreservesWellFormed(s: DBState, op: Op)
    requires WellFormed(s)
    ensures WellFormed(Next(s, op))
  {
    match op
    case AddOp(name, author, now) =>
      var r := AddBook(s, name, author, now);
      assert forall i :: 0 <= i < |s.books| ==> r.next.books[i] == s.books[i];
    case RemoveOp(id) =>
      if id in s.index && s.index[id] < |s.books| {
        DeleteKeepsIdsDistinct(s, s.index[id]);
      }
    case UpdateOp(id, name, author, now) =>
      var r := UpdateBook(s, id, name, author, now);
      assert forall i :: 0 <= i < |s.books| ==> r.next.books[i].ID == s.books[i].ID;
    case _ =>
  }

  /**
   * Every operation keeps createdAt <= updatedAt for every record, provided an
   * update's clock reading is not earlier than any stored creation time.
   */
  lemma NextKeepsTimestampsOrdered(s: DBState, op: Op)
    requires TimestampsOrdered(s)
    requires op.UpdateOp? ==> forall i :: 0 <= i < |s.books| ==> s.books[i].CreatedAt <= op.now
    ensures TimestampsOrdered(Next(s, op))
  {
    match op
    case AddOp(name, author, now) =>
      var r := AddBook(s, name, author, now);
      assert forall i :: 0 <= i < |s.books| ==> r.next.books[i] == s.books[i];
    case RemoveOp(id) =>
      if id in s.index && s.index[id] < |s.books| {
        var p := s.index[id];
        var t := RemoveBook(s, id).next.books;
        assert forall i :: 0 <= i < |t| ==> t[i] == s.books[if i < p then i else i + 1];
      }
    case _ =>
  }

  // ---------------------------------------------------------------------------
  // Sequences of operations

  datatype Op =
    | AddOp(name: string, author: string, now: Time)
    | ListOp
    | GetOp(id: int)
    | RemoveOp(id: int)
    | UpdateOp(id: int, name: string, author: string, now: Time)

  /** The state after one operation; the read operations change nothing. */
  function Next(s: DBState, op: Op): DBState {
    match op
    case AddOp(name, author, now) => AddBook(s, name, author, now).next
    case ListOp => s
    case GetOp(_) => s
    case RemoveOp(id) => RemoveBook(s, id).next
    case UpdateOp(id, name, author, now) => UpdateBook(s, id, name, author, now).next
  }

  /** The state after a sequence of operations. */
  function Run(s: DBState, ops: seq<Op>): DBState
    decreases |ops|
  {
    if ops == [] then s else Run(Next(s, ops[0]), ops[1..])
  }

  /** The ids the AddOp operations of a run return, in order. */
  function AddedIds(s: DBState, ops: seq<Op>): seq<int>
    decreases |ops|
  {
    if ops == [] then []
    else
      var op := ops[0];
      var here := if op.AddOp? then [AddBook(s, op.name, op.author, op.now).out.ID] else [];
      here + AddedIds(Next(s, op), ops[1..])
  }

  /** Only AddOp moves the counter, and it moves it by one. */
  lemma NextCounter(s: DBState, op: Op)
    ensures Next(s, op).lastBookID == s.lastBookID + (if op.AddOp? then 1 else 0)
  {
  }

  /** Any run keeps the stored ids allocated and distinct. */
  lemma {:induction false} RunPreservesWellFormed(s: DBState, ops: seq<Op>)
    requires WellFormed(s)
    ensures WellFormed(Run(s, ops))
    decreases |ops|
  {
    if ops != [] {
      NextPreservesWellFormed(s, ops[0]);
      RunPreservesWellFormed(Next(s, ops[0]), ops[1..]);
    }
  }

  /**
   * The ids a run hands out are the next values of the counter, one after the
   * other with no gap, and the counter ends at the last of them.
   */
  lemma {:induction false} AddedIdsNoGaps(s: DBState, ops: seq<Op>)
    ensures var ids := AddedIds(s, ops);
      && |ids| == Run(s, ops).lastBookID - s.lastBookID
      && forall k :: 0 <= k < |ids| ==> ids[k] == s.lastBookID + 1 + k
    decreases |ops|
  {
    if ops != [] {
      NextCounter(s, ops[0]);
      AddedIdsNoGaps(Next(s, ops[0]), ops[1..]);
    }
  }

  /** Ids handed out by a run strictly increase and all exceed the counter it started from. */
  lemma AddedIdsIncrease(s: DBState, ops: seq<Op>)
    ensures var ids := AddedIds(s, ops);
      && (forall k :: 0 <= k < |ids| ==> ids[k] > s.lastBookID)
      && (forall i, j :: 0 <= i < j < |ids| ==> ids[i] < ids[j])
  {
    AddedIdsNoGaps(s, ops);
  }

  /** An id that was allocated and is no longer in the index never comes back. */
  lemma {:induction false} RetiredIdStaysRetired(s: DBState, ops: seq<Op>, id: int)
    requires id !in s.index && id <= s.lastBookID
    ensures id !in Run(s, ops).index
    decreases |ops|
  {
    if ops != [] {
      NextCounter(s, ops[0]);
      RetiredIdStaysRetired(Next(s, ops[0]), ops[1..], id);
    }
  }

  /**
   * After a successful removal, whatever follows, the removed id is never
   * handed out again and looking it up is ErrBookNotFound.
   */
  lemma RemovedIdNeverReturns(s: DBState, id: int, ops: seq<Op>)
    requires WellFormed(s) && RemoveBook(s, id).out.Ok?
    ensures var after := RemoveBook(s, id).next;
      && GetBook(Run(after, ops), id) == Err(ErrBookNotFound)
      && id !in AddedIds(after, ops)
  {
    var after := RemoveBook(s, id).next;
    RetiredIdStaysRetired(after, ops, id);
    AddedIdsIncrease(after, ops);
  }

  // ---------------------------------------------------------------------------
  // Scenarios

  /**
   * Removing the first of two seeded records: the listing holds only the
   * second, id 1 is not found, and the next addition gets id 3. As written,
   * the second record's index entry still says position 1, so looking it up
   * is the out-of-range panic although it is listed.
   */
  lemma RemoveScenarioAsWritten(t1: Time, t2: Time, t3: Time)
    ensures var first := AddBook(Empty(), "Go Programming", "John Doe", t1);
      var second := AddBook(first.next, "Concurrency in Go", "Jane Smith", t2);
      var removed := RemoveBook(second.next, 1);
      && first.out.ID == 1 && second.out.ID == 2
      && Ids(second.next.books) == [1, 2]
      && removed.out == Ok(())
      && removed.next.books == [second.out]
      && GetBook(removed.next, 1) == Err(ErrBookNotFound)
      && AddBook(removed.next, "New Book", "X", t3).out.ID == 3
      && GetBook(removed.next, 2) == Err(IndexOutOfRange)
  {
  }

  /** One addition on a concrete state with no removals behind it. */
  lemma AddStep(books: seq<Book>, index: map<int, nat>, name: string, author: string, now: Time)
    ensures var n := |books|;
      AddBook(DBState(books, index, n), name, author, now)
        == Step(DBState(books + [NewBook(n + 1, name, author, now)], index[n + 1 := n], n + 1), NewBook(n + 1, name, author, now))
  {
  }

  /**
   * Three additions, then removals of ids 1 and 2. The second removal follows
   * the stale entry for id 2 (position 1), so it deletes the record with id 3:
   * the record with id 2 stays listed but looking it up is ErrBookNotFound,
   * and id 3 is still indexed, past the end of the slice.
   */
  lemma RemoveWrongRecordAsWritten(t1: Time, t2: Time, t3: Time)
    ensures var a1 := AddBook(Empty(), "A", "X", t1);
      var a2 := AddBook(a1.next, "B", "Y", t2);
      var a3 := AddBook(a2.next, "C", "Z", t3);
      var r1 := RemoveBook(a3.next, 1);
      var r2 := RemoveBook(r1.next, 2);
      && r1.out == Ok(()) && r2.out == Ok(())
      && r2.next.books == [a2.out]
      && GetBook(r2.next, 2) == Err(ErrBookNotFound)
      && GetBook(r2.next, 3) == Err(IndexOutOfRange)
  {
    var b1, b2, b3 := NewBook(1, "A", "X", t1), NewBook(2, "B", "Y", t2), NewBook(3, "C", "Z", t3);
    AddStep([], map[], "A", "X", t1);
    AddStep([b1], map[1 := 0], "B", "Y", t2);
    AddStep([b1, b2], map[1 := 0, 2 := 1], "C", "Z", t3);
    var full := DBState([b1, b2, b3], map[1 := 0, 2 := 1, 3 := 2], 3);
    RemoveStaleStep(full, b1, b2, b3);
  }

  /** The two removals of the scenario above, on the state the additions reach. */
  lemma RemoveStaleStep(full: DBState, b1: Book, b2: Book, b3: Book)
    requires b1.ID == 1 && b2.ID == 2 && b3.ID == 3
    requires full == DBState([b1, b2, b3], map[1 := 0, 2 := 1, 3 := 2], 3)
    ensures var r1 := RemoveBook(full, 1);
      var r2 := RemoveBook(r1.next, 2);
      && r1.out == Ok(()) && r2.out == Ok(())
      && r2.next == DBState([b2], map[3 := 2], 3)
  {
    var r1 := RemoveBook(full, 1);
    assert r1.next.books == [b2, b3];
    assert r1.next.index == map[2 := 1, 3 := 2];
    var r2 := RemoveBook(r1.next, 2);
    assert r2.next.books == [b2];
    assert r2.next.index == map[3 := 2];
  }

  // ---------------------------------------------------------------------------
  // Removal with re-indexing

  /** The index after slot p is closed: every position past p moves down one. */
  function ShiftDown(index: map<int, nat>, p: nat): (r: map<int, nat>)
    ensures r.Keys == index.Keys
    ensures forall k :: k in index && index[k] <= p ==> r[k] == index[k]
    ensures forall k :: k in index && index[k] > p ==> r[k] == index[k] - 1
  {
    map k | k in index :: if index[k] > p then index[k] - 1 else index[k]
  }

  /** RemoveBook as the store's design intends it: later records are re-indexed. */
  function RemoveBookReindexed(s: DBState, id: int): (r: Step<Result<()>>)
    ensures r.out == RemoveBook(s, id).out
    ensures r.out.Err? ==> r.next == s
    ensures r.next.books == RemoveBook(s, id).next.books && r.next.lastBookID == s.lastBookID
    ensures r.out.Ok? ==> id !in r.next.index && r.next.index == ShiftDown(s.index - {id}, s.index[id])
  {
    if id !in s.index then Step(s, Err(ErrBookNotFound))
    else
      var p := s.index[id];
      if p >= |s.books| then Step(s, Err(IndexOutOfRange))
      else Step(s.(books := s.books[..p] + s.books[p + 1..], index := ShiftDown(s.index - {id}, p)), Ok(()))
  }

  /** With re-indexing, every removal of a present id keeps the store consistent. */
  lemma ReindexedRemovePreservesConsistent(s: DBState, id: int)
    requires Consistent(s)
    ensures var r := RemoveBookReindexed(s, id);
      && (id in s.index <==> r.out.Ok?)
      && Consistent(r.next)
  {
    var r := RemoveBookReindexed(s, id);
    if id in s.index {
      var p := s.index[id];
      var t := r.next.books;
      var ix := r.next.index;
      assert |t| == |s.books| - 1;
      forall i | 0 <= i < |t|
        ensures t[i].ID in ix && ix[t[i].ID] == i
      {
        var src := if i < p then i else i + 1;
        assert t[i] == s.books[src];
        assert s.index[s.books[src].ID] == src;
      }
      forall k | k in ix
        ensures ix[k] < |t| && t[ix[k]].ID == k
      {
        var q := s.index[k];
        assert q != p;
        if q < p {
          assert t[q] == s.books[q];
        } else {
          assert t[q - 1] == s.books[q];
        }
      }
    }
  }

  /**
   * With re-indexing, a removal from a consistent store deletes exactly the
   * record that carries the id and keeps every other record.
   */
  lemma ReindexedRemoveDeletesItsRecord(s: DBState, id: int)
    requires Consistent(s) && id in s.index
    ensures var r := RemoveBookReindexed(s, id);
      && r.out.Ok?
      && id !in Ids(r.next.books)
      && forall k :: k in Ids(s.books) && k != id ==> k in Ids(r.next.books)
  {
    var p := s.index[id];
    var t := RemoveBookReindexed(s, id).next.books;
    var ids := Ids(s.books);
    assert t == s.books[..p] + s.books[p + 1..];
    assert Ids(t) == ids[..p] + ids[p + 1..];
    assert ids[p] == id;
    forall i | 0 <= i < |ids| && i != p
      ensures ids[i] != id
    {
      assert s.index[s.books[i].ID] == i;
    }
    assert id !in ids[..p] && id !in ids[p + 1..];
    forall k | k in ids && k != id
      ensures k in Ids(t)
    {
      var i :| 0 <= i < |ids| && ids[i] == k;
      if i < p {
        assert ids[..p][i] == k;
      } else {
        assert ids[p + 1..][i - p - 1] == k;
      }
    }
  }

  /** The scenario above with re-indexing: the remaining record is found under its id. */
  lemma RemoveScenarioReindexed(t1: Time, t2: Time)
    ensures var first := AddBook(Empty(), "Go Programming", "John Doe", t1);
      var second := AddBook(first.next, "Concurrency in Go", "Jane Smith", t2);
      var removed := RemoveBookReindexed(second.next, 1);
      && removed.out == Ok(())
      && GetBook(removed.next, 2) == Ok(second.out)
  {
  }
}
