/** The serialised form of an entry exchanged during synchronisation:
    `name|phone|month-day`, with an empty field for an absent phone number
    or birthday. The two separators are found from the right, so a name
    may itself contain `|`. */
module Serial {
  import opened Errors
  import Names
  import Dates
  import Decimal
  import opened Entries

  const FieldSep: char := '|'
  const DateSep: char := '-'

  function PhoneField(p: Option<nat>): string {
    if p.None? then "" else Decimal.Digits(p.value)
  }

  function BirthdayField(b: Option<Dates.MonthDay>): string {
    if b.None? then ""
    else Decimal.Digits(b.value.month) + [DateSep] + Decimal.Digits(b.value.day)
  }

  function Serialize(e: Entry): string {
    e.name + [FieldSep] + PhoneField(e.phone) + [FieldSep] + BirthdayField(e.birthday)
  }

  /** Position of the last occurrence of `c` in `s`. */
  function LastIndexOf(s: string, c: char): (r: Option<nat>)
    ensures r.Some? ==> r.value < |s| && s[r.value] == c && c !in s[r.value + 1..]
    ensures r.None? ==> c !in s
  {
    if |s| == 0 then None
    else if s[|s| - 1] == c then Some(|s| - 1)
    else
      var r := LastIndexOf(s[..|s| - 1], c);
      assert s == s[..|s| - 1] + [s[|s| - 1]];
      r
  }

  /** Position of the first occurrence of `c` in `s`. */
  function IndexOf(s: string, c: char): (r: Option<nat>)
    ensures r.Some? ==> r.value < |s| && s[r.value] == c && c !in s[..r.value]
    ensures r.None? ==> c !in s
  {
    if |s| == 0 then None
    else if s[0] == c then Some(0)
    else
      match IndexOf(s[1..], c)
      case None => None
      case Some(i) => assert s[..i + 1] == [s[0]] + s[1..][..i]; Some(i + 1)
  }

  /** An occurrence with none after it is the last one. */
  lemma LastIndexOfAt(s: string, c: char, i: nat)
    requires i < |s| && s[i] == c && c !in s[i + 1..]
    ensures LastIndexOf(s, c) == Some(i)
  {
    assert s[i] in s;
    var r := LastIndexOf(s, c).value;
    forall k | r < k < |s|
      ensures s[k] != c
    {
      assert s[k] == s[r + 1..][k - r - 1];
    }
    forall k | i < k < |s|
      ensures s[k] != c
    {
      assert s[k] == s[i + 1..][k - i - 1];
    }
  }

  /** An occurrence with none before it is the first one. */
  lemma IndexOfAt(s: string, c: char, i: nat)
    requires i < |s| && s[i] == c && c !in s[..i]
    ensures IndexOf(s, c) == Some(i)
  {
    assert s[i] in s;
    var r := IndexOf(s, c).value;
    forall k | 0 <= k < r
      ensures s[k] != c
    {
      assert s[k] == s[..r][k];
    }
    forall k | 0 <= k < i
      ensures s[k] != c
    {
      assert s[k] == s[..i][k];
    }
  }

  function ParsePhone(f: string): Option<Option<nat>> {
    if f == "" then Some(None)
    else
      match Decimal.ParseNat(f)
      case None => None
      case Some(n) => Some(Some(n))
  }

  function ParseBirthday(f: string): (r: Option<Option<Dates.MonthDay>>)
    ensures r.Some? && r.value.Some? ==> Dates.Valid(r.value.value)
  {
    if f == "" then Some(None)
    else
      match IndexOf(f, DateSep)
      case None => None
      case Some(i) =>
        match (Decimal.ParseNat(f[..i]), Decimal.ParseNat(f[i + 1..]))
        case (Some(m), Some(d)) =>
          if Dates.Valid(Dates.MonthDay(m, d)) then Some(Some(Dates.MonthDay(m, d))) else None
        case _ => None
  }

  /** Splits `s` at its last two field separators into name, phone field
      and birthday field. */
  function SplitFields(s: string): (r: Option<(string, string, string)>)
    ensures r.Some? ==>
      && s == r.value.0 + [FieldSep] + r.value.1 + [FieldSep] + r.value.2
      && FieldSep !in r.value.1 && FieldSep !in r.value.2
  {
    match LastIndexOf(s, FieldSep)
    case None => None
    case Some(j) =>
      match LastIndexOf(s[..j], FieldSep)
      case None => None
      case Some(i) =>
        assert s[..j] == s[..j][..i] + [FieldSep] + s[..j][i + 1..];
        assert s == s[..j] + [FieldSep] + s[j + 1..];
        Some((s[..j][..i], s[..j][i + 1..], s[j + 1..]))
  }

  /** The split is the unique one whose last two fields hold no separator. */
  lemma SplitFieldsOf(n: string, p: string, b: string)
    requires FieldSep !in p && FieldSep !in b
    ensures SplitFields(n + [FieldSep] + p + [FieldSep] + b) == Some((n, p, b))
  {
    var s := n + [FieldSep] + p + [FieldSep] + b;
    var j := |n| + 1 + |p|;
    assert s[j + 1..] == b;
    LastIndexOfAt(s, FieldSep, j);
    var t := s[..j];
    assert t == n + [FieldSep] + p;
    assert t[|n| + 1..] == p;
    LastIndexOfAt(t, FieldSep, |n|);
    assert t[..|n|] == n;
  }

  /** Reads a serialised entry; a string not produced by `Serialize` from
      a well-formed entry is rejected. */
  function Parse(s: string): (r: Option<Entry>)
    ensures r.Some? ==> WellFormed(r.value)
  {
    match SplitFields(s)
    case None => None
    case Some((name, pf, bf)) =>
      match (ParsePhone(pf), ParseBirthday(bf))
      case (Some(p), Some(b)) =>
        if Names.ValidLength(name) && Names.IsCanonical(name) then Some(Entry(name, p, b)) else None
      case _ => None
  }

  lemma NoSeparatorInDigits(n: nat)
    ensures FieldSep !in Decimal.Digits(n)
    ensures DateSep !in Decimal.Digits(n)
  {
    var d := Decimal.Digits(n);
    assert forall i :: 0 <= i < |d| ==> d[i] != FieldSep && d[i] != DateSep;
  }

  lemma NoFieldSepInFields(e: Entry)
    ensures FieldSep !in PhoneField(e.phone)
    ensures FieldSep !in BirthdayField(e.birthday)
  {
    if e.phone.Some? {
      NoSeparatorInDigits(e.phone.value);
    }
    if e.birthday.Some? {
      NoSeparatorInDigits(e.birthday.value.month);
      NoSeparatorInDigits(e.birthday.value.day);
    }
  }

  lemma ParsePhoneField(p: Option<nat>)
    ensures ParsePhone(PhoneField(p)) == Some(p)
  {
    if p.Some? {
      Decimal.ParseNatIff(PhoneField(p), p.value);
    }
  }

  lemma ParseBirthdayField(b: Option<Dates.MonthDay>)
    requires b.Some? ==> Dates.Valid(b.value)
    ensures ParseBirthday(BirthdayField(b)) == Some(b)
  {
    if b.Some? {
      var m := Decimal.Digits(b.value.month);
      var d := Decimal.Digits(b.value.day);
      var f := BirthdayField(b);
      NoSeparatorInDigits(b.value.month);
      assert f[..|m|] == m && f[|m| + 1..] == d;
      IndexOfAt(f, DateSep, |m|);
      Decimal.ParseNatIff(m, b.value.month);
      Decimal.ParseNatIff(d, b.value.day);
    }
  }

  /** Serialising a well-formed entry loses nothing: parsing gives it back. */
  lemma ParseSerialize(e: Entry)
    requires WellFormed(e)
    ensures Parse(Serialize(e)) == Some(e)
  {
    NoFieldSepInFields(e);
    SplitFieldsOf(e.name, PhoneField(e.phone), BirthdayField(e.birthday));
    ParsePhoneField(e.phone);
    ParseBirthdayField(e.birthday);
  }

  lemma ParsePhoneInverse(f: string, p: Option<nat>)
    requires ParsePhone(f) == Some(p)
    ensures PhoneField(p) == f
  {
    if f != "" {
      Decimal.ParseNatIff(f, p.value);
    }
  }

  lemma ParseBirthdayInverse(f: string, b: Option<Dates.MonthDay>)
    requires ParseBirthday(f) == Some(b)
    ensures BirthdayField(b) == f
  {
    if f != "" {
      var i := IndexOf(f, DateSep).value;
      Decimal.ParseNatIff(f[..i], b.value.month);
      Decimal.ParseNatIff(f[i + 1..], b.value.day);
      assert f == f[..i] + [DateSep] + f[i + 1..];
    }
  }

  /** Every string the parser accepts is exactly the serialisation of what
      it returns, so no two strings parse to the same entry. */
  lemma SerializeParse(s: string, e: Entry)
    requires Parse(s) == Some(e)
    ensures Serialize(e) == s
  {
    var (name, pf, bf) := SplitFields(s).value;
    ParsePhoneInverse(pf, e.phone);
    ParseBirthdayInverse(bf, e.birthday);
  }

  /** Parsing and serialising are inverse on well-formed entries: a string
      parses to `e` exactly when it is the serialisation of the
      well-formed entry `e`. */
  lemma ParseIff(s: string, e: Entry)
    ensures Parse(s) == Some(e) <==> WellFormed(e) && s == Serialize(e)
  {
    if Parse(s) == Some(e) {
      SerializeParse(s, e);
    }
    if WellFormed(e) && s == Serialize(e) {
      ParseSerialize(e);
    }
  }
}
