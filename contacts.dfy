/**
  The `contacts` table of the phone book and the four handlers that use it:
  Save (add), the contact list (view), Update and Delete.

  The table is
    contacts(id INTEGER PRIMARY KEY AUTOINCREMENT, name TEXT UNIQUE,
             phone TEXT, email TEXT).
  Because `name` is UNIQUE it is the key the handlers use, so the table is a
  map from a name to the rest of its row, and AUTOINCREMENT is a counter that
  only grows. Each handler runs a fixed chain of guards and ends in one of
  the outcomes below; the text and styling of the message it shows are left
  to the user interface.
*/
module Contacts {
  import opened Options
  import opened Validation
  import opened Collation

  /** The columns of a row other than its name. */
  datatype Contact = Contact(id: nat, phone: string, email: string)

  /** One line of the contact list: what `SELECT name, phone, email` returns. */
  datatype Row = Row(name: string, phone: string, email: string)

  /** What a handler reports: success, "All fields are required", "Please
      enter valid details", "already exists", "not found". */
  datatype Outcome = Ok | MissingField | InvalidFormat | Duplicate | NotFound

  /** The guards that Save and Update run before they open the table: every
      field must be non-empty (Python's `not x`, so a blank made of spaces
      passes), and then the phone and the email must be well-formed. The
      name is never trimmed or checked for format. */
  function CheckForm(name: string, phone: string, email: string): (r: Outcome)
    ensures r == Ok || r == MissingField || r == InvalidFormat
    ensures r == MissingField <==> name == [] || phone == [] || email == []
    ensures r == Ok <==> name != [] && IsValidPhone(phone) && IsValidEmail(email)
  {
    if name == [] || phone == [] || email == [] then MissingField
    else if !IsValidPhone(phone) || !IsValidEmail(email) then InvalidFormat
    else Ok
  }

  /** A row that the form guards of Save or Update let through. */
  ghost predicate Admissible(name: string, c: Contact) {
    CheckForm(name, c.phone, c.email) == Ok
  }

  /** Every stored row passed the form guards. */
  ghost predicate RowsAdmissible(rows: map<string, Contact>) {
    forall n {:trigger Admissible(n, rows[n])} :: n in rows ==> Admissible(n, rows[n])
  }

  /** Ids are positive and below the AUTOINCREMENT counter. */
  ghost predicate IdsBelow(rows: map<string, Contact>, nextId: nat) {
    forall n :: n in rows ==> 1 <= rows[n].id < nextId
  }

  /** No two rows share an id. */
  ghost predicate IdsDistinct(rows: map<string, Contact>) {
    forall n, m :: n in rows && m in rows && n != m ==> rows[n].id != rows[m].id
  }

  /** What every reachable state of the table satisfies: each row passed the
      form guards, and ids are distinct, positive and below the counter, so
      no id is ever handed out twice. */
  ghost predicate WellFormed(rows: map<string, Contact>, nextId: nat) {
    1 <= nextId && RowsAdmissible(rows) && IdsBelow(rows, nextId) && IdsDistinct(rows)
  }

  /** Removing a row keeps the table well formed. */
  lemma RemoveWellFormed(rows: map<string, Contact>, nextId: nat, name: string)
    requires WellFormed(rows, nextId)
    ensures WellFormed(rows - {name}, nextId)
  {
    var rest := rows - {name};
    forall n | n in rest
      ensures Admissible(n, rest[n])
    {
      assert rest[n] == rows[n] && Admissible(n, rows[n]);
    }
    assert IdsBelow(rest, nextId);
    assert IdsDistinct(rest);
  }

  /** Giving a row a new phone and email that pass the guards keeps the table
      well formed, since its id stays. */
  lemma ReplaceWellFormed(rows: map<string, Contact>, nextId: nat, name: string, phone: string, email: string)
    requires WellFormed(rows, nextId) && name in rows
    requires CheckForm(name, phone, email) == Ok
    ensures WellFormed(rows[name := Contact(rows[name].id, phone, email)], nextId)
  {
    ReplaceAdmissible(rows, name, phone, email);
    ReplaceIdsBelow(rows, nextId, name, phone, email);
    ReplaceIdsDistinct(rows, name, phone, email);
  }

  lemma ReplaceAdmissible(rows: map<string, Contact>, name: string, phone: string, email: string)
    requires RowsAdmissible(rows) && name in rows && CheckForm(name, phone, email) == Ok
    ensures RowsAdmissible(rows[name := Contact(rows[name].id, phone, email)])
  {
    var updated := rows[name := Contact(rows[name].id, phone, email)];
    forall n | n in updated
      ensures Admissible(n, updated[n])
    {
      if n != name {
        assert updated[n] == rows[n] && Admissible(n, rows[n]);
      }
    }
  }

  lemma ReplaceIdsBelow(rows: map<string, Contact>, nextId: nat, name: string, phone: string, email: string)
    requires IdsBelow(rows, nextId) && name in rows
    ensures IdsBelow(rows[name := Contact(rows[name].id, phone, email)], nextId)
  {
  }

  lemma ReplaceIdsDistinct(rows: map<string, Contact>, name: string, phone: string, email: string)
    requires IdsDistinct(rows) && name in rows
    ensures IdsDistinct(rows[name := Contact(rows[name].id, phone, email)])
  {
  }

  /** `r` is a row of `rows` exactly as stored. */
  ghost predicate InTable(rows: map<string, Contact>, r: Row) {
    r.name in rows && rows[r.name].phone == r.phone && rows[r.name].email == r.email
  }

  /** Part way through `ORDER BY name ASC`: `listing` holds, in strictly
      ascending order of name, the row of every name not `pending`, and each
      of those names sorts before every pending one. */
  ghost predicate ListedSoFar(rows: map<string, Contact>, listing: seq<Row>, pending: set<string>) {
    pending <= rows.Keys &&
    (forall i :: 0 <= i < |listing| ==> InTable(rows, listing[i]) && listing[i].name !in pending) &&
    (forall n :: n in rows && n !in pending ==>
      exists i :: 0 <= i < |listing| && listing[i].name == n) &&
    (forall i, j :: 0 <= i < j < |listing| ==> Less(listing[i].name, listing[j].name)) &&
    (forall i, n :: 0 <= i < |listing| && n in pending ==> Less(listing[i].name, n))
  }

  /** Emitting the least pending name next keeps the listing sorted and
      complete so far. */
  lemma ListStep(rows: map<string, Contact>, listing: seq<Row>, pending: set<string>, next: string)
    requires ListedSoFar(rows, listing, pending)
    requires next in pending
    requires forall n :: n in pending && n != next ==> Less(next, n)
    ensures ListedSoFar(rows, listing + [Row(next, rows[next].phone, rows[next].email)], pending - {next})
  {
    var listing' := listing + [Row(next, rows[next].phone, rows[next].email)];
    var pending' := pending - {next};
    forall i | 0 <= i < |listing'|
      ensures InTable(rows, listing'[i]) && listing'[i].name !in pending'
    {
      if i < |listing| {
        assert listing'[i] == listing[i];
      }
    }
    forall i, j | 0 <= i < j < |listing'|
      ensures Less(listing'[i].name, listing'[j].name)
    {
      assert listing'[i] == listing[i];
      if j < |listing| {
        assert listing'[j] == listing[j];
      }
    }
    forall i, n | 0 <= i < |listing'| && n in pending'
      ensures Less(listing'[i].name, n)
    {
      if i < |listing| {
        assert listing'[i] == listing[i];
      }
    }
    forall n | n in rows && n !in pending'
      ensures exists i :: 0 <= i < |listing'| && listing'[i].name == n
    {
      if n == next {
        assert listing'[|listing|].name == n;
      } else {
        var i :| 0 <= i < |listing| && listing[i].name == n;
        assert listing'[i] == listing[i];
      }
    }
  }

  /** The guards on sample forms: a name of spaces is not blank, a blank
      phone is missing, and "12a4" or "not-an-email" is rejected before any
      statement runs. */
  lemma CheckFormExamples()
    ensures CheckForm(" ", "5551234", "bob@x.com") == Ok
    ensures CheckForm("Bob", "", "bob@x.com") == MissingField
    ensures CheckForm("Bob", "12a4", "bob@x.com") == InvalidFormat
    ensures CheckForm("Bob", "5551234", "not-an-email") == InvalidFormat
  {
    PhoneExamples();
    EmailAccepted();
    EmailRejectedLocal();
  }

  class ContactBook {
    /** The rows of the table, by name. */
    var rows: map<string, Contact>
    /** The id AUTOINCREMENT gives to the next row inserted. */
    var nextId: nat

    ghost predicate Valid()
      reads this
    {
      WellFormed(rows, nextId)
    }

    /** `CREATE TABLE IF NOT EXISTS` on a fresh store: no rows, and the first
        id AUTOINCREMENT hands out is 1. */
    constructor ()
      ensures Valid() && rows == map[] && nextId == 1
    {
      rows := map[];
      nextId := 1;
    }

    /** `SELECT * FROM contacts WHERE name=?` followed by `fetchone()`. */
    method Lookup(name: string) returns (found: Option<Contact>)
      ensures found.Some? <==> name in rows
      ensures found.Some? ==> found.value == rows[name]
    {
      found := if name in rows then Some(rows[name]) else None;
    }

    /** Save: the form guards, then `INSERT INTO contacts (name, phone, email)`.
        The UNIQUE constraint makes the insert fail with IntegrityError when
        the name is taken, which the handler reports as a duplicate. The row
        is stored as given, with the next id. */
    method Add(name: string, phone: string, email: string) returns (r: Outcome)
      requires Valid()
      modifies this
      ensures Valid()
      ensures CheckForm(name, phone, email) != Ok ==>
        r == CheckForm(name, phone, email) && rows == old(rows) && nextId == old(nextId)
      ensures CheckForm(name, phone, email) == Ok && name in old(rows) ==>
        r == Duplicate && rows == old(rows) && nextId == old(nextId)
      ensures CheckForm(name, phone, email) == Ok && name !in old(rows) ==>
        r == Ok && rows == old(rows)[name := Contact(old(nextId), phone, email)] &&
        nextId == old(nextId) + 1
    {
      r := CheckForm(name, phone, email);
      if r == Ok {
        if name in rows {
          r := Duplicate;
        } else {
          rows := rows[name := Contact(nextId, phone, email)];
          nextId := nextId + 1;
        }
      }
    }

    /** Update: the form guards on the name and the new phone and email, then
        the SELECT that decides "not found", then
        `UPDATE contacts SET phone=?, email=? WHERE name=?`. Only that row's
        phone and email change; its name and id stay. */
    method Update(name: string, phone: string, email: string) returns (r: Outcome)
      requires Valid()
      modifies this
      ensures Valid() && nextId == old(nextId)
      ensures CheckForm(name, phone, email) != Ok ==>
        r == CheckForm(name, phone, email) && rows == old(rows)
      ensures CheckForm(name, phone, email) == Ok && name !in old(rows) ==>
        r == NotFound && rows == old(rows)
      ensures CheckForm(name, phone, email) == Ok && name in old(rows) ==>
        r == Ok && rows == old(rows)[name := Contact(old(rows)[name].id, phone, email)]
    {
      r := CheckForm(name, phone, email);
      if r == Ok {
        var found := Lookup(name);
        if found.Some? {
          ReplaceWellFormed(rows, nextId, name, phone, email);
          rows := rows[name := found.value.(phone := phone, email := email)];
        } else {
          r := NotFound;
        }
      }
    }

    /** Delete: a non-empty name, then the SELECT that decides "not found",
        then `DELETE FROM contacts WHERE name=?`, which removes exactly one
        row since names are unique. */
    method Delete(name: string) returns (r: Outcome)
      requires Valid()
      modifies this
      ensures Valid() && nextId == old(nextId)
      ensures name == [] ==> r == MissingField && rows == old(rows)
      ensures name != [] && name !in old(rows) ==> r == NotFound && rows == old(rows)
      ensures name != [] && name in old(rows) ==>
        r == Ok && rows == old(rows) - {name} && |rows| == |old(rows)| - 1
    {
      if name == [] {
        r := MissingField;
      } else {
        var found := Lookup(name);
        if found.Some? {
          RemoveWellFormed(rows, nextId, name);
          rows := rows - {name};
          assert rows.Keys == old(rows).Keys - {name};
          r := Ok;
        } else {
          r := NotFound;
        }
      }
    }

    /** The contact list: `SELECT name, phone, email FROM contacts ORDER BY
        name ASC`. Every row of the table appears once, as stored, and the
        names strictly ascend; an empty table gives an empty list (the "No
        contacts found" branch), not an error. */
    method List() returns (listing: seq<Row>)
      ensures |listing| == |rows|
      ensures forall i :: 0 <= i < |listing| ==> InTable(rows, listing[i])
      ensures forall n :: n in rows ==> exists i :: 0 <= i < |listing| && listing[i].name == n
      ensures forall i, j :: 0 <= i < j < |listing| ==> Less(listing[i].name, listing[j].name)
    {
      var pending := rows.Keys;
      listing := [];
      while pending != {}
        invariant ListedSoFar(rows, listing, pending)
        invariant |listing| + |pending| == |rows|
        decreases pending
      {
        var next := Least(pending);
        ListStep(rows, listing, pending, next);
        listing := listing + [Row(next, rows[next].phone, rows[next].email)];
        pending := pending - {next};
      }
    }
  }
}
