/** Name handling: ASCII character classes, the capitalised display form,
    the case-folded lookup key and the length check. */
module Names {

  /** Longest name the book accepts. */
  const MaxNameLength: nat := 100

  /** `std::isspace` in the "C" locale: space, and tab through carriage return. */
  predicate IsSpace(c: char) {
    c == ' ' || ('\t' <= c <= '\r')
  }

  predicate IsUpper(c: char) {
    'A' <= c <= 'Z'
  }

  predicate IsLower(c: char) {
    'a' <= c <= 'z'
  }

  predicate IsLetter(c: char) {
    IsUpper(c) || IsLower(c)
  }

  function ToUpper(c: char): (r: char)
    ensures IsLower(c) ==> IsUpper(r)
    ensures !IsLower(c) ==> r == c
    ensures IsLetter(c) <==> IsLetter(r)
  {
    if IsLower(c) then (c as int - 32) as char else c
  }

  function ToLower(c: char): (r: char)
    ensures IsUpper(c) ==> IsLower(r)
    ensures !IsUpper(c) ==> r == c
    ensures IsLetter(c) <==> IsLetter(r)
  {
    if IsUpper(c) then (c as int + 32) as char else c
  }

  /** Position `i` of `s` begins a word: it is the first character or
      follows a whitespace character. */
  predicate WordStart(s: string, i: nat)
    requires i < |s|
  {
    i == 0 || IsSpace(s[i - 1])
  }

  /** The stored form of a name: the character at every word start is
      uppercased; every other character, including whitespace, is kept. */
  function Capitalize(s: string): string
  {
    seq(|s|, i requires 0 <= i < |s| => if WordStart(s, i) then ToUpper(s[i]) else s[i])
  }

  /** The case-insensitive lookup key of a name. */
  function Fold(s: string): string
  {
    seq(|s|, i requires 0 <= i < |s| => ToLower(s[i]))
  }

  /** A name is canonical when capitalising it changes nothing. */
  predicate IsCanonical(s: string) {
    Capitalize(s) == s
  }

  /** Length check applied by add_entry: 1 to MaxNameLength characters. */
  predicate ValidLength(s: string) {
    0 < |s| <= MaxNameLength
  }

  /** What the capitalisation test checks of a listed name: every character
      at a word start is an uppercase letter. */
  predicate WordStartsUpper(s: string) {
    forall i :: 0 <= i < |s| && WordStart(s, i) ==> IsUpper(s[i])
  }

  /** The capitalisation check made one position at a time, from `from`
      to the end. */
  predicate WordStartsUpperFrom(s: string, from: nat)
    decreases |s| - from
  {
    from >= |s| || ((!WordStart(s, from) || IsUpper(s[from])) && WordStartsUpperFrom(s, from + 1))
  }

  /** The scan from `from` accepts exactly when every word start from
      `from` on is uppercase. */
  lemma {:induction false} WordStartsUpperScan(s: string, from: nat)
    ensures WordStartsUpperFrom(s, from) <==>
      forall i :: from <= i < |s| && WordStart(s, i) ==> IsUpper(s[i])
    decreases |s| - from
  {
    if from < |s| {
      WordStartsUpperScan(s, from + 1);
    }
  }

  /** Every word of `s` begins with a letter (no leading, trailing or
      doubled whitespace, no word starting with a digit or a sign). */
  predicate WordStartsAreLetters(s: string) {
    forall i :: 0 <= i < |s| && WordStart(s, i) ==> IsLetter(s[i])
  }

  /** Capitalising keeps the length, keeps every whitespace character where
      it was, and leaves no lowercase letter at a word start. */
  lemma CapitalizeShape(s: string)
    ensures |Capitalize(s)| == |s|
    ensures forall i :: 0 <= i < |s| ==> (IsSpace(Capitalize(s)[i]) <==> IsSpace(s[i]))
    ensures forall i :: 0 <= i < |s| && WordStart(s, i) ==> !IsLower(Capitalize(s)[i])
    ensures forall i :: 0 <= i < |s| && !WordStart(s, i) ==> Capitalize(s)[i] == s[i]
  {
  }

  /** The stored form is canonical: capitalising twice is capitalising once. */
  lemma CapitalizeIdempotent(s: string)
    ensures IsCanonical(Capitalize(s))
  {
    var c := Capitalize(s);
    CapitalizeShape(s);
    forall i | 0 <= i < |c|
      ensures Capitalize(c)[i] == c[i]
    {
      if WordStart(c, i) {
        assert WordStart(s, i);
      }
    }
  }

  /** Normalising a name does not change its lookup key, so a raw name and
      its stored form find the same entry. */
  lemma FoldCapitalize(s: string)
    ensures Fold(Capitalize(s)) == Fold(s)
  {
    assert forall i :: 0 <= i < |s| ==> ToLower(ToUpper(s[i])) == ToLower(s[i]);
  }

  /** Fold forgets case and nothing else: two names have the same key
      exactly when they agree position by position up to ASCII case. */
  lemma FoldEqualIff(a: string, b: string)
    ensures Fold(a) == Fold(b) <==>
      |a| == |b| && forall i :: 0 <= i < |a| ==> ToLower(a[i]) == ToLower(b[i])
  {
    if |a| == |b| && forall i :: 0 <= i < |a| ==> ToLower(a[i]) == ToLower(b[i]) {
      assert forall i :: 0 <= i < |a| ==> Fold(a)[i] == Fold(b)[i];
    }
    if Fold(a) == Fold(b) {
      assert |a| == |Fold(a)| == |Fold(b)| == |b|;
      forall i | 0 <= i < |a|
        ensures ToLower(a[i]) == ToLower(b[i])
      {
        assert Fold(a)[i] == ToLower(a[i]) && Fold(b)[i] == ToLower(b[i]);
      }
    }
  }

  /** A canonical name whose words all begin with letters passes the
      capitalisation test. */
  lemma CanonicalWordStartsUpper(s: string)
    requires IsCanonical(s)
    requires WordStartsAreLetters(s)
    ensures WordStartsUpper(s)
  {
    forall i | 0 <= i < |s| && WordStart(s, i)
      ensures IsUpper(s[i])
    {
      assert Capitalize(s)[i] == ToUpper(s[i]);
    }
  }

  /** Capitalising a name whose words begin with letters yields a name
      that passes the capitalisation test. */
  lemma CapitalizeWordStartsUpper(s: string)
    requires WordStartsAreLetters(s)
    ensures WordStartsUpper(Capitalize(s))
  {
    var c := Capitalize(s);
    CapitalizeShape(s);
    forall i | 0 <= i < |c| && WordStart(c, i)
      ensures IsUpper(c[i])
    {
      assert WordStart(s, i);
    }
  }
}
