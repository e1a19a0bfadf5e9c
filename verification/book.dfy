/** The address book: add, remove, look up, list, and the two setters.
    Every operation returns a new book value (or the error it reports); a
    failed operation leaves the caller with the book it had. */
module Book {
  import opened Errors
  import Names
  import Dates
  import StringOrder
  import opened Entries
  import EntryList

  datatype AddressBook = AddressBook(entries: seq<Entry>)

  /** Entries sorted by name, unique by folded key, each well-formed. */
  predicate Valid(b: AddressBook) {
    EntryList.Valid(b.entries)
  }

  /** The book as a map from folded key to entry. */
  function Contents(b: AddressBook): map<string, Entry> {
    EntryList.Contents(b.entries)
  }

  /** A newly constructed book. */
  function Empty(): (b: AddressBook)
    ensures Valid(b) && Contents(b) == map[]
  {
    AddressBook([])
  }

  /** `add_entry`: stores the capitalised name with no phone number and no
      birthday. Rejects a name of the wrong length, then a name whose
      folded key is already stored. */
  function AddEntry(b: AddressBook, raw: string): (r: Result<AddressBook>)
    requires Valid(b)
    ensures r == Err(InvalidName) <==> !Names.ValidLength(raw)
    ensures r == Err(DuplicateEntry) <==> Names.ValidLength(raw) && Names.Fold(raw) in Contents(b)
    ensures r.Ok? <==> Names.ValidLength(raw) && Names.Fold(raw) !in Contents(b)
    ensures r.Ok? ==> Valid(r.value)
    ensures r.Ok? ==> Contents(r.value) == Contents(b)[Names.Fold(raw) := NewEntry(raw)]
    ensures r.Ok? ==> Contents(r.value)[Names.Fold(raw)].name == Names.Capitalize(raw)
  {
    if !Names.ValidLength(raw) then Err(InvalidName)
    else
      var e := NewEntry(raw);
      EntryList.FindContents(b.entries, Key(e));
      if EntryList.Find(b.entries, Key(e)).Some? then Err(DuplicateEntry)
      else
        EntryList.InsertValid(b.entries, e);
        EntryList.InsertContents(b.entries, e);
        Ok(AddressBook(EntryList.Insert(b.entries, e)))
  }

  /** `remove_entry`: drops the entry with the name's folded key; removing
      a name the book does not hold changes nothing. */
  function RemoveEntry(b: AddressBook, raw: string): (r: AddressBook)
    requires Valid(b)
    ensures Valid(r)
    ensures Contents(r) == Contents(b) - {Names.Fold(raw)}
  {
    EntryList.RemoveKeyValid(b.entries, Names.Fold(raw));
    EntryList.RemoveKeyContents(b.entries, Names.Fold(raw));
    AddressBook(EntryList.RemoveKey(b.entries, Names.Fold(raw)))
  }

  /** `has_entry`: whether an entry with the name's folded key is stored. */
  function HasEntry(b: AddressBook, raw: string): (r: bool)
    requires Valid(b)
    ensures r <==> Names.Fold(raw) in Contents(b)
  {
    EntryList.FindContents(b.entries, Names.Fold(raw));
    EntryList.Find(b.entries, Names.Fold(raw)).Some?
  }

  /** The names of a list, in list order. */
  function NamesOf(es: seq<Entry>): (r: seq<string>)
    ensures |r| == |es|
    ensures forall i :: 0 <= i < |es| ==> r[i] == es[i].name
  {
    seq(|es|, i requires 0 <= i < |es| => es[i].name)
  }

  /** `get_entries`: the stored names in ascending `std::string` order. */
  function GetEntries(b: AddressBook): (r: seq<string>)
    requires Valid(b)
    ensures |r| == |Contents(b)|
    ensures forall i, j :: 0 <= i < j < |r| ==> StringOrder.Less(r[i], r[j])
    ensures forall n :: n in r <==> exists k :: k in Contents(b) && Contents(b)[k].name == n
    ensures forall i :: 0 <= i < |r| ==> Names.ValidLength(r[i]) && Names.IsCanonical(r[i])
  {
    EntryList.ContentsSpec(b.entries);
    NamesOfContents(b.entries);
    NamesOf(b.entries)
  }

  /** The names of a list are the names its map holds. */
  lemma NamesOfContents(es: seq<Entry>)
    requires EntryList.UniqueKeys(es)
    ensures forall n :: n in NamesOf(es) <==>
      exists k :: k in EntryList.Contents(es) && EntryList.Contents(es)[k].name == n
  {
    EntryList.ContentsSpec(es);
    var r, m := NamesOf(es), EntryList.Contents(es);
    forall n | n in r
      ensures exists k :: k in m && m[k].name == n
    {
      var i :| 0 <= i < |r| && r[i] == n;
      assert m[Key(es[i])].name == n;
    }
    forall n | exists k :: k in m && m[k].name == n
      ensures n in r
    {
      var k :| k in m && m[k].name == n;
      var i :| 0 <= i < |es| && Key(es[i]) == k;
      assert r[i] == n;
    }
  }

  /** `set_phone_number`: overwrites the phone number of the entry with the
      name's folded key; fails when there is none. */
  function SetPhoneNumber(b: AddressBook, raw: string, phone: nat): (r: Result<AddressBook>)
    requires Valid(b)
    ensures r.Err? <==> Names.Fold(raw) !in Contents(b)
    ensures r.Err? ==> r.error == EntryNotFound
    ensures r.Ok? ==> Valid(r.value)
    ensures r.Ok? ==>
      Contents(r.value) == Contents(b)[Names.Fold(raw) := Contents(b)[Names.Fold(raw)].(phone := Some(phone))]
  {
    EntryList.FindContents(b.entries, Names.Fold(raw));
    match EntryList.Find(b.entries, Names.Fold(raw))
    case None => Err(EntryNotFound)
    case Some(i) =>
      var e := b.entries[i].(phone := Some(phone));
      EntryList.ReplaceContents(b.entries, i, e);
      Ok(AddressBook(b.entries[i := e]))
  }

  /** `set_birthday`: overwrites the birthday of the entry with the name's
      folded key. Fails when there is no such entry, and otherwise when
      the month/day pair is not a calendar date. */
  function SetBirthday(b: AddressBook, raw: string, md: Dates.MonthDay): (r: Result<AddressBook>)
    requires Valid(b)
    ensures r == Err(EntryNotFound) <==> Names.Fold(raw) !in Contents(b)
    ensures r == Err(InvalidDate) <==> Names.Fold(raw) in Contents(b) && !Dates.Valid(md)
    ensures r.Ok? <==> Names.Fold(raw) in Contents(b) && Dates.Valid(md)
    ensures r.Ok? ==> Valid(r.value)
    ensures r.Ok? ==>
      Contents(r.value) == Contents(b)[Names.Fold(raw) := Contents(b)[Names.Fold(raw)].(birthday := Some(md))]
  {
    EntryList.FindContents(b.entries, Names.Fold(raw));
    match EntryList.Find(b.entries, Names.Fold(raw))
    case None => Err(EntryNotFound)
    case Some(i) =>
      if !Dates.Valid(md) then Err(InvalidDate)
      else
        var e := b.entries[i].(birthday := Some(md));
        EntryList.ReplaceContents(b.entries, i, e);
        Ok(AddressBook(b.entries[i := e]))
  }

  // ---------------------------------------------------------------------
  // Properties relating the operations

  /** Lookup sees only the folded name: names that agree up to ASCII case,
      the raw name and its stored form in particular, find the same entry. */
  lemma HasEntryCaseInsensitive(b: AddressBook, x: string, y: string)
    requires Valid(b)
    requires |x| == |y| && forall i :: 0 <= i < |x| ==> Names.ToLower(x[i]) == Names.ToLower(y[i])
    ensures HasEntry(b, x) == HasEntry(b, y)
    ensures HasEntry(b, Names.Capitalize(x)) == HasEntry(b, x)
  {
    Names.FoldEqualIff(x, y);
    Names.FoldCapitalize(x);
  }

  /** After a successful add the name is found under any casing, and every
      other name is found exactly when it was before. */
  lemma AddThenHas(b: AddressBook, raw: string, other: string)
    requires Valid(b)
    requires Names.ValidLength(raw) && !HasEntry(b, raw)
    ensures AddEntry(b, raw).Ok?
    ensures HasEntry(AddEntry(b, raw).value, raw)
    ensures Names.Fold(other) == Names.Fold(raw) ==> HasEntry(AddEntry(b, raw).value, other)
    ensures Names.Fold(other) != Names.Fold(raw) ==>
      HasEntry(AddEntry(b, raw).value, other) == HasEntry(b, other)
  {
  }

  /** After a remove the name is not found under any casing, and every
      other name is found exactly when it was before. */
  lemma RemoveThenHasNot(b: AddressBook, raw: string, other: string)
    requires Valid(b)
    ensures !HasEntry(RemoveEntry(b, raw), raw)
    ensures Names.Fold(other) != Names.Fold(raw) ==>
      HasEntry(RemoveEntry(b, raw), other) == HasEntry(b, other)
  {
  }

  /** Removing a name just added gives back the original book. */
  lemma RemoveUndoesAdd(b: AddressBook, raw: string)
    requires Valid(b)
    requires AddEntry(b, raw).Ok?
    ensures RemoveEntry(AddEntry(b, raw).value, raw) == b
  {
    var r := RemoveEntry(AddEntry(b, raw).value, raw);
    assert Contents(r) == Contents(b);
    EntryList.ContentsDetermines(r.entries, b.entries);
  }

  /** Every listed name passes the capitalisation test when the stored
      names begin every word with a letter. */
  lemma GetEntriesWordStartsUpper(b: AddressBook)
    requires Valid(b)
    requires forall i :: 0 <= i < |b.entries| ==> Names.WordStartsAreLetters(b.entries[i].name)
    ensures forall n :: n in GetEntries(b) ==> Names.WordStartsUpper(n)
  {
    forall n | n in GetEntries(b)
      ensures Names.WordStartsUpper(n)
    {
      var i :| 0 <= i < |b.entries| && b.entries[i].name == n;
      Names.CanonicalWordStartsUpper(n);
    }
  }
}
