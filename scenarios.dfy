/**
  Sequences of handler calls on one contact book, and what the contracts of
  the handlers let a caller conclude about them.
*/
module Scenarios {
  import opened Validation
  import opened Collation
  import opened Contacts

  /** Saving a new contact and then opening the list shows it exactly once,
      with the phone and email as entered. */
  method AddThenList(book: ContactBook, name: string, phone: string, email: string)
    returns (r: Outcome, listing: seq<Row>)
    requires book.Valid() && name !in book.rows
    requires CheckForm(name, phone, email) == Ok
    modifies book
    ensures book.Valid()
    ensures r == Ok
    ensures exists i :: 0 <= i < |listing| && listing[i] == Row(name, phone, email)
    ensures forall i, j ::
      (0 <= i < |listing| && 0 <= j < |listing| && listing[i].name == name && listing[j].name == name) ==> i == j
  {
    r := book.Add(name, phone, email);
    assert name in book.rows;
    listing := book.List();
    var k :| 0 <= k < |listing| && listing[k].name == name;
    assert listing[k] == Row(name, phone, email);
    forall i, j | 0 <= i < |listing| && 0 <= j < |listing| &&
      listing[i].name == name && listing[j].name == name
      ensures i == j
    {
      LessIrreflexive(name);
    }
  }

  /** On a fresh store, saving ("Bob", "5551234", "bob@x.com") and listing
      gives back that one row, untransformed. */
  method SaveBobAndList() returns (listing: seq<Row>)
    ensures listing == [Row("Bob", "5551234", "bob@x.com")]
  {
    var book := new ContactBook();
    assert CheckForm("Bob", "5551234", "bob@x.com") == Ok by {
      PhoneExamples();
      EmailAccepted();
    }
    var r := book.Add("Bob", "5551234", "bob@x.com");
    assert book.rows == map["Bob" := Contact(1, "5551234", "bob@x.com")];
    listing := book.List();
    assert |listing| == 1 && listing[0].name in book.rows;
  }

  /** Saving the same name twice: the second save reports a duplicate (or
      the guard that stopped it first) and the first row stays as it was. */
  method AddTwice(book: ContactBook, name: string, phone: string, email: string,
                  phone2: string, email2: string)
    returns (first: Outcome, second: Outcome)
    requires book.Valid() && name !in book.rows
    requires CheckForm(name, phone, email) == Ok
    modifies book
    ensures book.Valid()
    ensures first == Ok
    ensures second == if CheckForm(name, phone2, email2) == Ok then Duplicate else CheckForm(name, phone2, email2)
    ensures book.rows == old(book.rows)[name := Contact(old(book.nextId), phone, email)]
  {
    first := book.Add(name, phone, email);
    second := book.Add(name, phone2, email2);
  }

  /** Deleting a name twice: the first call removes the row, the second finds
      nothing and changes nothing. */
  method DeleteTwice(book: ContactBook, name: string) returns (first: Outcome, second: Outcome)
    requires book.Valid() && name in book.rows
    modifies book
    ensures book.Valid()
    ensures first == Ok && second == NotFound
    ensures book.rows == old(book.rows) - {name}
  {
    assert Admissible(name, book.rows[name]);
    first := book.Delete(name);
    second := book.Delete(name);
  }
}
