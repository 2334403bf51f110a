/**
 * The store object: an ordered slice of records, an index from id to slice
 * position and the last allocated id, updated in place by its methods. Each
 * method is one atomic step; its new state is the one the matching function
 * of module Store gives.
 */
module Database {
  import opened Books
  import opened Store

  class DB {
    var books: seq<Book>
    var index: map<int, nat>
    var lastBookID: int

    /** The three fields as one value. */
    function State(): DBState
      reads this
    {
      DBState(books, index, lastBookID)
    }

    /** The object invariant: ids were allocated by the counter and are stored once. */
    ghost predicate Valid()
      reads this
    {
      WellFormed(State())
    }

    /** NewDB: an empty store whose counter has handed out nothing yet. */
    constructor ()
      ensures Valid() && Consistent(State())
      ensures State() == Empty()
    {
      books := [];
      index := map[];
      lastBookID := 0;
    }

    /** newBookID: the id after the last one, which becomes the last one. */
    method NewBookID() returns (id: int)
      modifies this
      ensures old(Valid()) ==> Valid()
      ensures Step(State(), id) == Store.NewBookID(old(State()))
      ensures id == old(lastBookID) + 1 && lastBookID == id
      ensures books == old(books) && index == old(index)
    {
      id := lastBookID + 1;
      lastBookID := id;
    }

    /** Appends a new record under a fresh id and records its position in the index. */
    method AddBook(name: string, author: string, now: Time) returns (b: Book)
      requires Valid()
      modifies this
      ensures Valid()
      ensures Step(State(), b) == Store.AddBook(old(State()), name, author, now)
      ensures b.ID == old(lastBookID) + 1 && lastBookID == b.ID && b.ID !in old(index)
      ensures b.Name == name && b.Author == author && b.CreatedAt == now && SameTimestamps(b)
      ensures books == old(books) + [b]
      ensures index == old(index)[b.ID := old(|books|)]
      ensures old(Consistent(State())) ==> Consistent(State())
    {
      ghost var before := State();
      var id := NewBookID();
      b := NewBook(id, name, author, now);
      index := index[b.ID := |books|];
      books := books + [b];
      if Consistent(before) {
        AddPreservesConsistent(before, name, author, now);
      } else {
        NextPreservesWellFormed(before, AddOp(name, author, now));
      }
    }

    /** Returns the slice itself, in insertion order. */
    method GetBooks() returns (bs: seq<Book>)
      ensures bs == books
      ensures Consistent(State()) ==> forall i :: 0 <= i < |bs| ==> Store.GetBook(State(), bs[i].ID) == Ok(bs[i])
    {
      bs := books;
    }

    /** Looks a record up by id through the index. */
    method GetBook(id: int) returns (r: Result<Book>)
      ensures r == Store.GetBook(State(), id)
      ensures r == Err(ErrBookNotFound) <==> id !in index
      ensures r.Ok? ==> id in index && r.value == books[index[id]]
      ensures Consistent(State()) ==> (r.Ok? <==> id in index) && (r.Ok? ==> r.value.ID == id)
    {
      if id !in index {
        return Err(ErrBookNotFound);
      }
      var p := index[id];
      if p >= |books| {
        return Err(IndexOutOfRange);
      }
      r := Ok(books[p]);
    }

    /** Deletes the slot the index names for id and retires id; other index entries are kept. */
    method RemoveBook(id: int) returns (r: Result<()>)
      requires Valid()
      modifies this
      ensures Valid()
      ensures Step(State(), r) == Store.RemoveBook(old(State()), id)
      ensures r == Err(ErrBookNotFound) <==> id !in old(index)
      ensures r.Err? ==> books == old(books) && index == old(index)
      ensures r.Ok? ==> id !in index && |books| == old(|books|) - 1
      ensures lastBookID == old(lastBookID)
    {
      ghost var before := State();
      if id !in index {
        return Err(ErrBookNotFound);
      }
      var p := index[id];
      if p >= |books| {
        return Err(IndexOutOfRange);
      }
      books := books[..p] + books[p + 1..];
      index := index - {id};
      r := Ok(());
      DeleteKeepsIdsDistinct(before, p);
    }

    /** Overwrites name, author and update time of the record the index names for id. */
    method UpdateBook(id: int, name: string, author: string, now: Time) returns (r: Result<Book>)
      requires Valid()
      modifies this
      ensures Valid()
      ensures Step(State(), r) == Store.UpdateBook(old(State()), id, name, author, now)
      ensures r == Err(ErrBookNotFound) <==> id !in old(index)
      ensures r.Err? ==> books == old(books)
      ensures r.Ok? ==> r.value.Name == name && r.value.Author == author && r.value.UpdatedAt == now
      ensures index == old(index) && lastBookID == old(lastBookID)
      ensures old(Consistent(State())) ==> Consistent(State())
    {
      ghost var before := State();
      if id !in index {
        return Err(ErrBookNotFound);
      }
      var p := index[id];
      if p >= |books| {
        return Err(IndexOutOfRange);
      }
      var b := books[p];
      b := b.(Name := name, Author := author, UpdatedAt := now);
      books := books[p := b];
      r := Ok(b);
      NextPreservesWellFormed(before, UpdateOp(id, name, author, now));
      if Consistent(before) {
        UpdatePreservesConsistent(before, id, name, author, now);
      }
    }
  }

  /**
   * The start-up seeding: a new store and two additions. The ids are 1 and 2,
   * and the listing holds the two records in that order.
   */
  method Seed(t1: Time, t2: Time) returns (first: Book, second: Book, listed: seq<Book>)
    ensures first.ID == 1 && first.Name == "Go Programming" && first.Author == "John Doe"
    ensures second.ID == 2 && second.Name == "Concurrency in Go" && second.Author == "Jane Smith"
    ensures listed == [first, second]
  {
    var db := new DB();
    first := db.AddBook("Go Programming", "John Doe", t1);
    second := db.AddBook("Concurrency in Go", "Jane Smith", t2);
    listed := db.GetBooks();
  }
}
