/** The book record and its constructor. */
module Books {

  /** Timestamps are taken as plain integers (for example nanoseconds since an epoch). */
  type Time = int

  datatype Book = Book(ID: int, Name: string, Author: string, CreatedAt: Time, UpdatedAt: Time)

  /** Both timestamps are equal, as they are on a freshly built record. */
  predicate SameTimestamps(b: Book) {
    b.UpdatedAt == b.CreatedAt
  }

  /** Builds a record for a freshly allocated id; both timestamps are the creation time. */
  function NewBook(id: int, name: string, author: string, createdAt: Time): (b: Book)
    ensures b.ID == id
    ensures b.Name == name && b.Author == author
    ensures b.CreatedAt == createdAt
    ensures SameTimestamps(b)
  {
    Book(id, name, author, createdAt, createdAt)
  }
}
