/** One contact: its stored name, an optional phone number and an
    optional birthday. */
module Entries {
  import opened Errors
  import Names
  import Dates

  datatype Entry = Entry(name: string, phone: Option<nat>, birthday: Option<Dates.MonthDay>)

  /** What every stored entry satisfies: a canonical name of valid length
      and, when present, a calendar-valid birthday. */
  predicate WellFormed(e: Entry) {
    && Names.ValidLength(e.name)
    && Names.IsCanonical(e.name)
    && (e.birthday.Some? ==> Dates.Valid(e.birthday.value))
  }

  /** The folded key under which the entry is stored and looked up. */
  function Key(e: Entry): string {
    Names.Fold(e.name)
  }

  /** The entry add_entry creates: the name in stored form, no phone
      number, no birthday. */
  function NewEntry(raw: string): (e: Entry)
    requires Names.ValidLength(raw)
    ensures WellFormed(e)
    ensures e.name == Names.Capitalize(raw)
    ensures Key(e) == Names.Fold(raw)
    ensures e.phone.None? && e.birthday.None?
  {
    Names.CapitalizeIdempotent(raw);
    Names.FoldCapitalize(raw);
    Entry(Names.Capitalize(raw), None, None)
  }

  function FirstPresent<T>(a: Option<T>, b: Option<T>): Option<T> {
    if a.Some? then a else b
  }

  /** Reconciles two entries with the same key: the first keeps its name
      and every field it has; a field it lacks is taken from the second. */
  function Combine(first: Entry, second: Entry): (r: Entry)
    ensures r.name == first.name
    ensures first.phone.Some? ==> r.phone == first.phone
    ensures first.phone.None? ==> r.phone == second.phone
    ensures first.birthday.Some? ==> r.birthday == first.birthday
    ensures first.birthday.None? ==> r.birthday == second.birthday
    ensures WellFormed(first) && WellFormed(second) ==> WellFormed(r)
  {
    Entry(first.name, FirstPresent(first.phone, second.phone),
          FirstPresent(first.birthday, second.birthday))
  }

  /** `first` already holds everything `second` could contribute. */
  predicate Dominates(first: Entry, second: Entry) {
    Combine(first, second) == first
  }

  /** The combination dominates its second argument, and domination
      survives any further combination: re-merging what was already merged
      changes nothing. */
  lemma CombineAbsorbs(a: Entry, b: Entry, c: Entry)
    ensures Dominates(Combine(a, b), b)
    ensures Dominates(a, c) ==> Dominates(Combine(a, b), c)
  {
  }

  /** Reconciling is associative, so reading entries one at a time or
      reconciling groups first gives the same result. */
  lemma CombineAssociative(a: Entry, b: Entry, c: Entry)
    ensures Combine(Combine(a, b), c) == Combine(a, Combine(b, c))
  {
  }
}
