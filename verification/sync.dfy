/** Synchronisation: the in-memory provider that keeps the running merge
    of everything handed to it, and `address_book::synchronize`, which
    hands the book's serialised entries to a provider and replaces the
    book's contents with the answer. */
module Sync {
  import EntryList
  import Merge
  import Book

  /** The provider's only state: the list the last call returned. */
  datatype DummyProvider = DummyProvider(synchronizationList: seq<string>)

  /** A provider that has not been called yet. */
  function NewProvider(): DummyProvider {
    DummyProvider([])
  }

  /** `dummy_synchronization_provider::synchronize`: merges the caller's
      entries (first) with the retained list (second), retains the result
      and returns it. */
  function ProviderSynchronize(p: DummyProvider, serialized: seq<string>): (r: (DummyProvider, seq<string>))
    ensures r.1 == r.0.synchronizationList
    ensures exists es :: EntryList.Valid(es) && r.1 == Merge.SerializeList(es)
    ensures Merge.KeysOf(Merge.Parsed(r.1)) ==
      Merge.KeysOf(Merge.Parsed(serialized)) + Merge.KeysOf(Merge.Parsed(p.synchronizationList))
    ensures Merge.Collect(r.1) == Merge.Collect(serialized + p.synchronizationList)
  {
    var merged := Merge.MergeEntries(serialized, p.synchronizationList);
    Merge.CollectMerge(serialized, p.synchronizationList);
    (DummyProvider(merged), merged)
  }

  /** The provider's answer is the merge of the caller's entries with the
      retained list, derived from its contract alone. */
  lemma ProviderAnswerIsMerge(p: DummyProvider, serialized: seq<string>)
    ensures ProviderSynchronize(p, serialized).1 == Merge.MergeEntries(serialized, p.synchronizationList)
  {
    var r := ProviderSynchronize(p, serialized);
    var es :| EntryList.Valid(es) && r.1 == Merge.SerializeList(es);
    Merge.MergeCharacterised(serialized, p.synchronizationList, es);
  }

  /** The book's entries in serialised form, in list order. */
  function Serialized(b: Book.AddressBook): seq<string> {
    Merge.SerializeList(b.entries)
  }

  /** The book whose contents are the list a provider answered. */
  function Adopt(answer: seq<string>): (b: Book.AddressBook)
    ensures Book.Valid(b)
    ensures Book.Contents(b).Keys == Merge.KeysOf(Merge.Parsed(answer))
    ensures Book.Contents(b) == Merge.CollectMap(map[], Merge.Parsed(answer))
  {
    Merge.CollectKeys(map[], Merge.Parsed(answer));
    Book.AddressBook(Merge.Collect(answer))
  }

  /** `address_book::synchronize`: returns the book after the exchange
      and the provider's new state. The provider is called with the book's
      serialised entries. Afterwards the book holds exactly the list the
      provider retained: its own entries, with the provider's earlier
      entries read in after them, so its own values win. */
  function Synchronize(b: Book.AddressBook, p: DummyProvider): (r: (Book.AddressBook, DummyProvider))
    requires Book.Valid(b)
    ensures Book.Valid(r.0)
    ensures r.1 == ProviderSynchronize(p, Serialized(b)).0
    ensures Serialized(r.0) == r.1.synchronizationList
    ensures Book.Contents(r.0).Keys ==
      Book.Contents(b).Keys + Merge.KeysOf(Merge.Parsed(p.synchronizationList))
    ensures Book.Contents(r.0) ==
      Merge.CollectMap(Book.Contents(b), Merge.Parsed(p.synchronizationList))
  {
    var (p', answer) := ProviderSynchronize(p, Serialized(b));
    var b' := Adopt(answer);
    Merge.CollectAfterStore(b.entries, p.synchronizationList);
    Merge.CollectMerge(Serialized(b), p.synchronizationList);
    Merge.ParsedSerialized(b.entries);
    Merge.KeysOfContents(b.entries);
    (b', p')
  }

  /** Synchronising again, with nothing changed on either side, changes
      nothing. */
  lemma ResynchronizeNoOp(b: Book.AddressBook, p: DummyProvider)
    requires Book.Valid(b)
    ensures Synchronize(Synchronize(b, p).0, Synchronize(b, p).1) == Synchronize(b, p)
  {
    var (b1, p1) := Synchronize(b, p);
    var s := Serialized(b1);
    var l := b1.entries;
    assert p1.synchronizationList == s;
    Merge.ParsedConcat(s, s);
    Merge.ParsedSerialized(l);
    Merge.CollectMapConcat(map[], l, l);
    Merge.CollectIdempotent(map[], l);
    Merge.CollectMapValid(map[], l);
    assert map[] + EntryList.Contents(l) == EntryList.Contents(l);
    EntryList.ContentsDetermines(Merge.Collect(s + s), l);
    Merge.CollectSerialized(l);
  }

  /** The first book to synchronise with a fresh provider keeps its
      contents; an empty book synchronising next receives a copy of them. */
  lemma FirstSynchronizationCopies(b: Book.AddressBook)
    requires Book.Valid(b)
    ensures Synchronize(b, NewProvider()).0 == b
    ensures Synchronize(Book.Empty(), Synchronize(b, NewProvider()).1).0 == b
  {
    Merge.MergeWithEmpty(b.entries);
    Merge.CollectSerialized(b.entries);
    var p1 := Synchronize(b, NewProvider()).1;
    assert p1.synchronizationList == Serialized(b);
    assert Serialized(Book.Empty()) == [];
  }
}
