/** The test scenarios of the address book, replayed on the model, and
    the invariants every sequence of operations keeps. */
module Traces {
  import opened Errors
  import Names
  import Dates
  import StringOrder
  import Book
  import Sync
  import Entries
  import EntryList

  /** One call on a book. */
  datatype Op =
    | Add(name: string)
    | Remove(name: string)
    | SetPhone(name: string, phone: nat)
    | SetBirthday(name: string, birthday: Dates.MonthDay)

  /** The book after a call; a call that reports an error leaves the book
      as it was. */
  function Apply(b: Book.AddressBook, op: Op): (r: Book.AddressBook)
    requires Book.Valid(b)
    ensures Book.Valid(r)
    ensures Book.Contents(r).Keys <= Book.Contents(b).Keys + {Names.Fold(op.name)}
  {
    match op
    case Add(n) => var x := Book.AddEntry(b, n); if x.Ok? then x.value else b
    case Remove(n) => Book.RemoveEntry(b, n)
    case SetPhone(n, p) => var x := Book.SetPhoneNumber(b, n, p); if x.Ok? then x.value else b
    case SetBirthday(n, d) => var x := Book.SetBirthday(b, n, d); if x.Ok? then x.value else b
  }

  /** The book after a sequence of calls. */
  function Run(b: Book.AddressBook, ops: seq<Op>): (r: Book.AddressBook)
    requires Book.Valid(b)
    ensures Book.Valid(r)
    ensures |Book.GetEntries(r)| <= |Book.GetEntries(b)| + |ops|
    decreases |ops|
  {
    if |ops| == 0 then b else Run(Apply(b, ops[0]), ops[1..])
  }

  /** Every stored name begins each word with a letter. */
  predicate LetterWords(b: Book.AddressBook) {
    forall k :: k in Book.Contents(b) ==> Names.WordStartsAreLetters(Book.Contents(b)[k].name)
  }

  /** Capitalising keeps a letter at every word start. */
  lemma CapitalizeKeepsLetterWords(s: string)
    requires Names.WordStartsAreLetters(s)
    ensures Names.WordStartsAreLetters(Names.Capitalize(s))
  {
    Names.CapitalizeShape(s);
    var c := Names.Capitalize(s);
    forall i | 0 <= i < |c| && Names.WordStart(c, i)
      ensures Names.IsLetter(c[i])
    {
      assert Names.WordStart(s, i);
    }
  }

  lemma {:induction false} RunKeepsLetterWords(b: Book.AddressBook, ops: seq<Op>)
    requires Book.Valid(b) && LetterWords(b)
    requires forall i :: 0 <= i < |ops| && ops[i].Add? ==> Names.WordStartsAreLetters(ops[i].name)
    ensures LetterWords(Run(b, ops))
    decreases |ops|
  {
    if |ops| > 0 {
      var op := ops[0];
      if op.Add? {
        CapitalizeKeepsLetterWords(op.name);
      }
      RunKeepsLetterWords(Apply(b, op), ops[1..]);
    }
  }

  /** Whatever calls are made on a new book, `get_entries` is sorted and,
      when every added name begins each word with a letter, every listed
      name passes the capitalisation test. */
  lemma RunListing(ops: seq<Op>)
    ensures forall i, j :: 0 <= i < j < |Book.GetEntries(Run(Book.Empty(), ops))| ==>
      StringOrder.Less(Book.GetEntries(Run(Book.Empty(), ops))[i], Book.GetEntries(Run(Book.Empty(), ops))[j])
    ensures (forall i :: 0 <= i < |ops| && ops[i].Add? ==> Names.WordStartsAreLetters(ops[i].name)) ==>
      forall n :: n in Book.GetEntries(Run(Book.Empty(), ops)) ==> Names.WordStartsUpper(n)
  {
    var b := Run(Book.Empty(), ops);
    if forall i :: 0 <= i < |ops| && ops[i].Add? ==> Names.WordStartsAreLetters(ops[i].name) {
      RunKeepsLetterWords(Book.Empty(), ops);
      forall n | n in Book.GetEntries(b)
        ensures Names.WordStartsUpper(n)
      {
        var k :| k in Book.Contents(b) && Book.Contents(b)[k].name == n;
        Names.CanonicalWordStartsUpper(n);
      }
    }
  }

  // ---------------------------------------------------------------------
  // The test scenarios

  /** "entries can be added and removed". */
  lemma AddedAndRemoved()
    ensures !Book.HasEntry(Book.Empty(), "Jane Doe")
    ensures Book.AddEntry(Book.Empty(), "Jane Doe").Ok?
    ensures Book.HasEntry(Book.AddEntry(Book.Empty(), "Jane Doe").value, "Jane Doe")
    ensures !Book.HasEntry(Book.RemoveEntry(Book.AddEntry(Book.Empty(), "Jane Doe").value, "Jane Doe"), "Jane Doe")
  {
  }

  /** "is name case insensitive". */
  lemma CaseInsensitive()
    ensures Book.AddEntry(Book.Empty(), "JANE DOE").Ok?
    ensures Book.HasEntry(Book.AddEntry(Book.Empty(), "JANE DOE").value, "jane doe")
    ensures Book.AddEntry(Book.AddEntry(Book.Empty(), "JANE DOE").value, "daniel vogel").Ok?
    ensures Book.HasEntry(Book.AddEntry(Book.AddEntry(Book.Empty(), "JANE DOE").value, "daniel vogel").value, "DANIEL VOGEL")
  {
    assert Names.Fold("JANE DOE") == "jane doe" == Names.Fold("jane doe");
    assert Names.Fold("daniel vogel") == "daniel vogel" == Names.Fold("DANIEL VOGEL");
    var b1 := Book.AddEntry(Book.Empty(), "JANE DOE").value;
    assert Book.Contents(b1).Keys == {"jane doe"};
    assert Book.HasEntry(b1, "jane doe");
    var b2 := Book.AddEntry(b1, "daniel vogel");
    assert b2.Ok?;
    assert Book.HasEntry(b2.value, "DANIEL VOGEL");
  }

  /** "name too short or too long": the empty name and the 101-character
      name of the test are rejected. */
  lemma NameTooShortOrTooLong()
    ensures Book.AddEntry(Book.Empty(), "") == Err(InvalidName)
    ensures Book.AddEntry(Book.Empty(),
      "very long name qwertzuiolkjhgfdsayxcvvbnhddfwersrhtrijsijdfijijfijsidjjdjjgfjhefaffsdfastwbmtsdfhrehh")
      == Err(InvalidName)
  {
  }

  /** The three additions of the sorting test, one at a time. */
  lemma AddJaneDoe(b: Book.AddressBook)
    requires b == Book.Empty()
    ensures Apply(b, Add("Jane Doe")).entries == [Entries.Entry("Jane Doe", None, None)]
  {
    assert Names.Capitalize("Jane Doe") == "Jane Doe";
  }

  lemma AddDanielVogel(b: Book.AddressBook)
    requires Book.Valid(b) && b.entries == [Entries.Entry("Jane Doe", None, None)]
    ensures Apply(b, Add("Daniel Vogel")).entries ==
      [Entries.Entry("Daniel Vogel", None, None), Entries.Entry("Jane Doe", None, None)]
  {
    assert Names.Capitalize("Daniel Vogel") == "Daniel Vogel";
    assert StringOrder.Less("Daniel Vogel", "Jane Doe");
  }

  lemma AddZZ(b: Book.AddressBook)
    requires Book.Valid(b)
    requires b.entries == [Entries.Entry("Daniel Vogel", None, None), Entries.Entry("Jane Doe", None, None)]
    ensures Apply(b, Add("Z Z")).entries ==
      [Entries.Entry("Daniel Vogel", None, None), Entries.Entry("Jane Doe", None, None), Entries.Entry("Z Z", None, None)]
  {
    var es := b.entries;
    assert Names.Capitalize("Z Z") == "Z Z";
    var e := Entries.NewEntry("Z Z");
    assert e == Entries.Entry("Z Z", None, None);
    assert |Entries.Key(e)| == 3 && |Entries.Key(es[0])| == 12 && |Entries.Key(es[1])| == 8;
    assert EntryList.Find(es, Entries.Key(e)).None?;
    assert !StringOrder.Less("Z Z", "Daniel Vogel") && !StringOrder.Less("Z Z", "Jane Doe");
    assert es[1..][1..] == [];
    assert EntryList.Insert(es[1..], e) == [es[1]] + [e];
    assert EntryList.Insert(es, e) == [es[0]] + ([es[1]] + [e]);
  }

  /** The three additions of the sorting test leave the entries in name
      order. */
  lemma SortingRun()
    ensures Run(Book.Empty(), [Add("Jane Doe"), Add("Daniel Vogel"), Add("Z Z")]).entries ==
      [Entries.Entry("Daniel Vogel", None, None), Entries.Entry("Jane Doe", None, None), Entries.Entry("Z Z", None, None)]
  {
    var ops := [Add("Jane Doe"), Add("Daniel Vogel"), Add("Z Z")];
    var b0 := Book.Empty();
    AddJaneDoe(b0);
    var b1 := Apply(b0, ops[0]);
    AddDanielVogel(b1);
    var b2 := Apply(b1, ops[1]);
    AddZZ(b2);
    var b3 := Apply(b2, ops[2]);
    assert ops[1..][1..][1..] == [];
    assert Run(b0, ops) == b3;
  }

  lemma ListingOfThree(b: Book.AddressBook)
    requires Book.Valid(b)
    requires b.entries ==
      [Entries.Entry("Daniel Vogel", None, None), Entries.Entry("Jane Doe", None, None), Entries.Entry("Z Z", None, None)]
    ensures Book.GetEntries(b) == ["Daniel Vogel", "Jane Doe", "Z Z"]
  {
    assert Book.NamesOf(b.entries) == ["Daniel Vogel", "Jane Doe", "Z Z"];
  }

  /** "entries sorted alphabetically". */
  lemma SortedAlphabetically()
    ensures Book.GetEntries(Run(Book.Empty(), [Add("Jane Doe"), Add("Daniel Vogel"), Add("Z Z")]))
      == ["Daniel Vogel", "Jane Doe", "Z Z"]
  {
    SortingRun();
    ListingOfThree(Run(Book.Empty(), [Add("Jane Doe"), Add("Daniel Vogel"), Add("Z Z")]));
  }

  /** The name the capitalisation test adds, and its stored form. */
  const MixedName := "daniel abc dfg HIJ Klm NOp vogel"
  const MixedNameStored := "Daniel Abc Dfg HIJ Klm NOp Vogel"

  lemma MixedNameFacts()
    ensures Names.Capitalize(MixedName) == MixedNameStored
  {
  }

  /** The check the test applies to the listed name holds of the stored form. */
  lemma MixedNameStoredUpper()
    ensures Names.WordStartsUpper(MixedNameStored)
  {
    assert Names.WordStartsUpperFrom("Daniel Abc Dfg HIJ Klm NOp Vogel", 28);
    assert Names.WordStartsUpperFrom("Daniel Abc Dfg HIJ Klm NOp Vogel", 24);
    assert Names.WordStartsUpperFrom("Daniel Abc Dfg HIJ Klm NOp Vogel", 20);
    assert Names.WordStartsUpperFrom("Daniel Abc Dfg HIJ Klm NOp Vogel", 16);
    assert Names.WordStartsUpperFrom("Daniel Abc Dfg HIJ Klm NOp Vogel", 12);
    assert Names.WordStartsUpperFrom("Daniel Abc Dfg HIJ Klm NOp Vogel", 8);
    assert Names.WordStartsUpperFrom("Daniel Abc Dfg HIJ Klm NOp Vogel", 4);
    assert Names.WordStartsUpperFrom("Daniel Abc Dfg HIJ Klm NOp Vogel", 0);
    Names.WordStartsUpperScan(MixedNameStored, 0);
  }

  lemma AddMixedName()
    ensures Run(Book.Empty(), [Add(MixedName)]).entries == [Entries.Entry(MixedNameStored, None, None)]
  {
    MixedNameFacts();
    var ops := [Add(MixedName)];
    assert ops[1..] == [];
  }

  /** "first letter capitalized": the one listed name is the capitalised
      form and passes the test's check at every word start. */
  lemma FirstLetterCapitalized()
    ensures Book.GetEntries(Run(Book.Empty(), [Add(MixedName)])) == [MixedNameStored]
    ensures forall n :: n in Book.GetEntries(Run(Book.Empty(), [Add(MixedName)])) ==> Names.WordStartsUpper(n)
  {
    MixedNameStoredUpper();
    AddMixedName();
  }

  /** "set phone or birthday on non existing". A call that reports an
      error leaves the book as it was, so later calls see the same book. */
  lemma SettersOnMissing()
    ensures Book.AddEntry(Book.Empty(), "Jane Doe").Ok?
    ensures Book.SetBirthday(Book.AddEntry(Book.Empty(), "Jane Doe").value, "Jane Doe", Dates.MonthDay(11, 12)).Ok?
    ensures
      var b := Book.SetBirthday(Book.AddEntry(Book.Empty(), "Jane Doe").value, "Jane Doe", Dates.MonthDay(11, 12)).value;
      && Book.SetBirthday(b, "daniel vogel", Dates.MonthDay(9, 21)) == Err(EntryNotFound)
      && Book.SetBirthday(b, "Jane Doe", Dates.MonthDay(13, 32)) == Err(InvalidDate)
      && Book.SetPhoneNumber(b, "Jane Doe", 123456789).Ok?
      && Book.SetPhoneNumber(Book.SetPhoneNumber(b, "Jane Doe", 123456789).value, "daniel vogel", 9876543210)
         == Err(EntryNotFound)
  {
  }

  /** "test file synchronization": the second, empty book ends with the
      two entries of the first. */
  lemma FileSynchronization()
    ensures
      var b1 := Run(Book.Empty(), [Add("Jane Doe"), Add("Daniel Vogel")]);
      var (b1', p1) := Sync.Synchronize(b1, Sync.NewProvider());
      var (b2', p2) := Sync.Synchronize(Book.Empty(), p1);
      |Book.GetEntries(b2')| == 2
  {
    var b1 := Run(Book.Empty(), [Add("Jane Doe"), Add("Daniel Vogel")]);
    Sync.FirstSynchronizationCopies(b1);
    assert |Book.Contents(b1)| == 2;
  }
}
