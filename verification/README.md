# Address book — a Dafny model

This project models an in-memory address book. The book holds contact
entries. Each entry has a name, an optional phone number and an optional
birthday. The model covers these parts:

- **Names.** A raw name is stored in capitalised form: the first character
  and every character after whitespace are uppercased. Names are looked
  up by a case-folded key, and a name must be 1 to 100 characters long.
- **The store.** `add_entry`, `remove_entry`, `has_entry`, `get_entries`
  (always sorted), `set_phone_number` and `set_birthday`. Errors are
  returned as a `Result` value instead of being thrown.
- **Synchronisation.** `merge_entries` is a pure merge of two lists of
  serialised entries. The dummy provider keeps the last merge result and
  returns it. `synchronize` replaces the book's contents with the
  provider's answer.

The header `address_book.hpp` is not part of this model. The behaviour is
taken from the test suite `test/address_book_tests.cpp`. Where the tests
leave a choice open, the model makes one, listed under "Policies".

## Layout

| file | module | what it holds |
|---|---|---|
| errors.dfy | `Errors` | error kinds, `Result`, `Option` |
| names.dfy | `Names` | ASCII classes, `Capitalize`, `Fold`, length check |
| dates.dfy | `Dates` | `MonthDay` and the calendar check |
| decimal.dfy | `Decimal` | printing and reading decimal numerals |
| order.dfy | `StringOrder` | `std::string` `operator<` |
| entry.dfy | `Entries` | `Entry`, well-formedness, folded key, field-wise `Combine` |
| serial.dfy | `Serial` | the `name\|phone\|month-day` form and its parser |
| entrylist.dfy | `EntryList` | sorted, key-unique entry list and its map view `Contents` |
| merge.dfy | `Merge` | `merge_entries` and its algebra |
| book.dfy | `Book` | the address-book operations |
| sync.dfy | `Sync` | the dummy provider and `synchronize` |
| traces.dfy | `Traces` | operation sequences and the test scenarios |

A book is a list of entries. The list is sorted by name and has at most
one entry per folded key. `Contents` views the list as a map from folded
key to entry, and every contract is stated against that map.
`EntryList.ContentsDetermines` proves that the map fixes the list, so
equal maps mean equal books.

## Policies

- Maximum name length: 100. The test's 101-character name is rejected.
- Adding a name whose folded key is already stored fails with
  `DuplicateEntry`.
- Removing a name that is not stored changes nothing.
- Setters check that the entry exists first (`EntryNotFound`). Only then
  does `set_birthday` check the date (`InvalidDate`). Any natural number
  is a valid phone number.
- A birthday is valid when the month is 1–12 and the day is between 1 and
  the month's last day. February has 29 days, as `month_day::ok()`
  allows.
- Serialised entry: `name|phone|month-day`, with an empty field for an
  absent value. The parser splits at the last two `|`, so a name may
  contain `|`. Numerals must be canonical (no leading zeros), so parsing
  and serialising are inverse (`Serial.ParseIff`).
- Merge: the strings of the first list and then the second are read in
  order, and strings that do not parse are skipped. For a key already
  read, the earlier entry keeps its name and its fields, and takes only
  the fields it lacks from the later one (`Entries.Combine`). The result
  is sorted by name with one entry per folded key. The provider passes
  the caller's list first, so the caller's values win.
- Sort order: `get_entries` is sorted with `std::string`'s `operator<`.
  This is case-sensitive and compares character by character. The test
  calls `std::is_sorted` on the strings, and the model follows it.

## Model

| member | source | states |
|---|---|---|
| Names.CapitalizeShape | test/address_book_tests.cpp:38-50 | capitalising keeps the length and every whitespace position, leaves no lowercase letter at a word start, and changes nothing elsewhere |
| Names.CapitalizeIdempotent | test/address_book_tests.cpp:38-50 | the stored form is canonical: capitalising it again changes nothing |
| Names.FoldCapitalize | test/address_book_tests.cpp:15-21 | a raw name and its stored form have the same lookup key |
| Names.FoldEqualIff | test/address_book_tests.cpp:15-21 | two names have the same key iff they agree at every position up to ASCII case |
| Names.CanonicalWordStartsUpper | test/address_book_tests.cpp:42-49 | a canonical name whose words start with letters has an uppercase letter at every word start |
| Names.CapitalizeWordStartsUpper | test/address_book_tests.cpp:38-50 | capitalising a name whose words start with letters yields a name that passes the test's check |
| Dates.LastDay | test/address_book_tests.cpp:55-57 | month lengths: 31 for months 1,3,5,7,8,10,12; 29 only for February; 30 otherwise |
| Dates.ValidBounds | test/address_book_tests.cpp:57 | month 13 and day 32 are never valid; a valid date has month ≤ 12 and day ≤ 31 |
| Decimal.ParseNatIff | test/address_book_tests.cpp:58-59 | a string reads as the number n iff it is n's printed numeral, so phone numbers such as 9876543210 survive serialisation |
| Decimal.DigitsValue | test/address_book_tests.cpp:58-59 | printing the value of a canonical numeral gives the numeral back |
| Decimal.ValueDigits | test/address_book_tests.cpp:58-59 | reading back a printed number gives the number |
| Serial.SplitFieldsOf | test/address_book_tests.cpp:65 | a serialised string splits back into its name, phone and birthday fields, even when the name contains a separator |
| Serial.ParseSerialize | test/address_book_tests.cpp:65-66 | serialising a well-formed entry loses nothing: parsing returns the same entry |
| Serial.SerializeParse | test/address_book_tests.cpp:65-66 | every accepted string is exactly the serialisation of the entry it parses to |
| Serial.ParseIff | test/address_book_tests.cpp:65-66 | parse(s) = e iff e is well-formed and s = serialise(e) |
| Entries.NewEntry | test/address_book_tests.cpp:9 | the entry add_entry creates is well-formed, holds the raw name with each word capitalised, is keyed by the raw name's fold, and has no phone and no birthday |
| Entries.CombineAbsorbs | test/address_book_tests.cpp:66 | an entry that already absorbed another still absorbs it after further merging |
| Entries.CombineAssociative | test/address_book_tests.cpp:66 | reconciling entries is associative |
| EntryList.Find | test/address_book_tests.cpp:10 | the lookup returns a position holding the key, and returns nothing iff no entry has the key |
| EntryList.FindContents | test/address_book_tests.cpp:10 | lookup in the list agrees with lookup in the key-to-entry map |
| EntryList.Insert | test/address_book_tests.cpp:29-36 | insertion keeps names strictly sorted, adds exactly one element and keeps all others |
| EntryList.InsertValid | test/address_book_tests.cpp:29-36 | inserting an entry with a fresh key keeps the list sorted and key-unique |
| EntryList.InsertContents | test/address_book_tests.cpp:9 | inserting adds exactly the new key to the map |
| EntryList.RemoveKeyValid | test/address_book_tests.cpp:11 | removing a key keeps the list sorted and key-unique |
| EntryList.RemoveKeyContents | test/address_book_tests.cpp:11 | removing a key deletes exactly that key from the map |
| EntryList.ReplaceContents | test/address_book_tests.cpp:55-58 | replacing an entry by one with the same name changes the map at that key only |
| EntryList.Upsert | test/address_book_tests.cpp:66 | merging an entry into a store keeps it valid and has the map-level effect UpsertMap |
| EntryList.ContentsDetermines | test/address_book_tests.cpp:34-35 | two sorted, key-unique lists with the same map are equal |
| Merge.MergeEntries | test/address_book_tests.cpp:66 | the merge is a serialised sorted, key-unique store whose keys are the union of both inputs' keys |
| Merge.CollectSerialized | test/address_book_tests.cpp:78-79 | reading back a serialised store gives the same store |
| Merge.CollectMerge | test/address_book_tests.cpp:66-67 | reading back a merge result gives the store of both inputs read in order |
| Merge.CollectIdempotent | test/address_book_tests.cpp:66 | reading the same entries twice is reading them once |
| Merge.MergeCharacterised | test/address_book_tests.cpp:62-70 | a valid list in serialised form that reads back as the two inputs read in turn is exactly their merge |
| Merge.MergeIdempotent | test/address_book_tests.cpp:66-67 | merge(merge(x, y), y) = merge(x, y) |
| Merge.CollectDisjointCommute | test/address_book_tests.cpp:66 | when two entry lists share no key, the order in which they are read does not matter |
| Merge.MergeDisjointCommutes | test/address_book_tests.cpp:66 | merge(x, y) = merge(y, x) when x and y share no folded key |
| Merge.CollectAt | test/address_book_tests.cpp:66 | at a held key, reading more entries reconciles the held entry with what the new entries say about that key |
| Merge.MergeAt | test/address_book_tests.cpp:66 | per key: a one-sided key keeps that side's entry; a shared key keeps the first side's name and fields and fills gaps from the second |
| Merge.CollectAfterStore | test/address_book_tests.cpp:65-67 | reading a serialised store followed by more strings gives the store's map with those strings' entries read into it |
| Merge.MergeWithEmpty | test/address_book_tests.cpp:72-81 | merging a serialised store with an empty list, on either side, returns it unchanged |
| StringOrder.LessIff | test/address_book_tests.cpp:35 | a < b iff a is a proper prefix of b or, at the first position where they differ, a has the smaller character |
| StringOrder.LessIrreflexive | test/address_book_tests.cpp:35 | no string is before itself, as std::is_sorted needs of a strict order |
| StringOrder.LessTransitive | test/address_book_tests.cpp:35 | the order is transitive, as std::is_sorted needs of a strict order |
| StringOrder.LessAsymmetric | test/address_book_tests.cpp:35 | two strings are never each before the other |
| StringOrder.LessTotal | test/address_book_tests.cpp:35 | any two different strings are ordered one way or the other, so the order is a strict total order |
| Book.Empty | test/address_book_tests.cpp:7 | a new address book is valid and holds no entries |
| Book.AddEntry | test/address_book_tests.cpp:9-27 | InvalidName iff the length is outside 1..100; DuplicateEntry iff the length is valid and the key is held; succeeds iff the length is valid and the key is absent, and then exactly the capitalised entry is added under the folded key |
| Book.RemoveEntry | test/address_book_tests.cpp:11-12 | exactly the name's folded key is removed and the book stays valid |
| Book.HasEntry | test/address_book_tests.cpp:8-21 | true iff the name's folded key is held |
| Book.GetEntries | test/address_book_tests.cpp:29-50 | strictly sorted by std::string order, one name per entry, exactly the stored names, each canonical and of valid length |
| Book.SetPhoneNumber | test/address_book_tests.cpp:58-59 | fails (EntryNotFound only) iff the key is not held; otherwise only that entry's phone changes |
| Book.SetBirthday | test/address_book_tests.cpp:55-57 | EntryNotFound iff the key is not held; InvalidDate iff it is held and the date is invalid; succeeds iff it is held and the date is valid, and then only that entry's birthday changes |
| Book.HasEntryCaseInsensitive | test/address_book_tests.cpp:15-21 | names equal up to ASCII case, and a name and its stored form, are found alike |
| Book.AddThenHas | test/address_book_tests.cpp:6-13 | adding a name of valid length that the book does not hold succeeds; afterwards the name is found under any casing, and other names are found exactly as before |
| Book.RemoveThenHasNot | test/address_book_tests.cpp:6-13 | after a remove the name is not found; other names are found exactly as before |
| Book.RemoveUndoesAdd | test/address_book_tests.cpp:9-12 | removing a name just added gives back the original book |
| Book.GetEntriesWordStartsUpper | test/address_book_tests.cpp:38-50 | every listed name has an uppercase letter at each word start, when stored words begin with letters |
| Sync.ProviderSynchronize | test/address_book_tests.cpp:62-70 | the provider returns what it retains; the answer is a valid list in serialised form; its keys are the union of the caller's and its previous keys; reading it back gives the caller's then the previous entries merged |
| Sync.Adopt | test/address_book_tests.cpp:78-79 | the adopted book is valid, and its map is exactly the store the answer's entries describe when read in order |
| Sync.Synchronize | test/address_book_tests.cpp:72-81 | the provider is called with the book's serialised entries; afterwards the book serialises to exactly the provider's retained list, and its map is its own map with the provider's earlier entries read in after it (its own values win) |
| Sync.ProviderAnswerIsMerge | test/address_book_tests.cpp:62-70 | from the provider's contract alone: its answer is the merge of the caller's entries (first) with the retained list |
| Sync.ResynchronizeNoOp | test/address_book_tests.cpp:78-79 | synchronising again with nothing changed returns the same book and provider |
| Sync.FirstSynchronizationCopies | test/address_book_tests.cpp:72-81 | with a fresh provider, the first book is unchanged and an empty second book receives a copy of it |
| Traces.Apply | test/address_book_tests.cpp:52-60 | any call, failing or not, keeps the book valid and adds no key other than the folded name it was given |
| Traces.Run | test/address_book_tests.cpp:6-60 | any sequence of calls keeps the book valid and adds at most one entry per call |
| Traces.RunKeepsLetterWords | test/address_book_tests.cpp:38-50 | if every added name starts each word with a letter, so does every stored name |
| Traces.RunListing | test/address_book_tests.cpp:29-50 | after any calls on a new book the listing is sorted, and it passes the capitalisation check when added words start with letters |
| Traces.AddedAndRemoved | test/address_book_tests.cpp:6-13 | the add/has/remove scenario |
| Traces.CaseInsensitive | test/address_book_tests.cpp:15-21 | "JANE DOE" is found as "jane doe"; "daniel vogel" is found as "DANIEL VOGEL" |
| Traces.NameTooShortOrTooLong | test/address_book_tests.cpp:23-27 | the empty name and the 101-character name are rejected with InvalidName |
| Traces.SortedAlphabetically | test/address_book_tests.cpp:29-36 | the three names are listed as Daniel Vogel, Jane Doe, Z Z |
| Traces.FirstLetterCapitalized | test/address_book_tests.cpp:38-50 | "daniel abc dfg HIJ Klm NOp vogel" is listed as "Daniel Abc Dfg HIJ Klm NOp Vogel", which passes the check |
| Traces.SettersOnMissing | test/address_book_tests.cpp:52-60 | 11/12 and phone 123456789 succeed; missing names and 13/32 fail with the right error |
| Traces.FileSynchronization | test/address_book_tests.cpp:72-81 | after both books synchronise, the second lists two names |

## Left out

- `address_book.hpp` is not part of this model. Every policy above is a
  choice that agrees with the tests; the real header may differ where the
  tests are silent.
- Exceptions: each error is an `Errors.Error` value. The model does not
  fix which exception types the C++ code throws.
- Character classes are ASCII only. `std::isspace`, `std::isupper` and
  case folding depend on the locale, which the model does not cover.
- `std::chrono::month_day` is modelled as a pair of naturals with an
  explicit validity check. Its `unsigned char` storage, in which the value
  held above 255 is unspecified, is not modelled.
- Phone numbers are unbounded naturals. The integer width of the C++
  parameter is not modelled.
- Names.ValidLength: counts characters, while `std::string::size()`
  counts bytes. A name with characters outside ASCII ("é" is two bytes
  in UTF-8) can therefore pass the 100 limit here and fail it in C++.
  The model has no byte encoding of strings.
- String order compares character codes. `std::string` compares `char` as
  `unsigned char`, which is the same order for the characters used here.
- The provider is modelled as a state value plus a function. Virtual
  dispatch through `synchronization_provider` is not modelled, and the
  dummy provider is the only one shown.
- Persistence and transport behind synchronisation (files, network) are
  not modelled.
- Merge.MergeEntries and Sync.Adopt: a string that does not parse as a
  serialised entry is skipped rather than reported.
- Book.GetEntriesWordStartsUpper: requires every stored word to begin with
  a letter. A name like "a  b" (double space) or "1st floor" is accepted
  by add_entry, but the test's `isupper` check would fail on it, because
  capitalising only changes letters.
- Traces.RunListing: the capitalisation half assumes that every added name
  starts each word with a letter, for the same reason.
