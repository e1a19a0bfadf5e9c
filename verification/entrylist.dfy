/** The store behind an address book: a list of entries kept in ascending
    name order with at most one entry per folded key. `Contents` views it
    as the map from folded key to entry that callers reason about. */
module EntryList {
  import opened Errors
  import StringOrder
  import opened Entries

  /** Names strictly increase along the list (`std::string` order). */
  predicate Sorted(es: seq<Entry>) {
    forall i, j :: 0 <= i < j < |es| ==> StringOrder.Less(es[i].name, es[j].name)
  }

  /** No two entries share a folded key. */
  predicate UniqueKeys(es: seq<Entry>) {
    forall i, j :: 0 <= i < j < |es| ==> Key(es[i]) != Key(es[j])
  }

  /** The invariant of a stored list. */
  predicate Valid(es: seq<Entry>) {
    && (forall i :: 0 <= i < |es| ==> WellFormed(es[i]))
    && Sorted(es)
    && UniqueKeys(es)
  }

  /** No entry of the list has key `k`. */
  predicate KeyAbsent(es: seq<Entry>, k: string) {
    forall i :: 0 <= i < |es| ==> Key(es[i]) != k
  }

  /** The list as a map from folded key to entry. */
  function Contents(es: seq<Entry>): map<string, Entry>
  {
    if |es| == 0 then map[] else Contents(es[1..])[Key(es[0]) := es[0]]
  }

  /** A key is in the map exactly when some entry has it, and with unique
      keys the map sends each entry's key to that entry. */
  lemma {:induction false} ContentsSpec(es: seq<Entry>)
    ensures forall k :: k in Contents(es) <==> !KeyAbsent(es, k)
    ensures UniqueKeys(es) ==>
      forall i :: 0 <= i < |es| ==> Key(es[i]) in Contents(es) && Contents(es)[Key(es[i])] == es[i]
    ensures UniqueKeys(es) ==> |Contents(es)| == |es|
    decreases |es|
  {
    if |es| > 0 {
      ContentsSpec(es[1..]);
      forall k
        ensures k in Contents(es) <==> !KeyAbsent(es, k)
      {
        if !KeyAbsent(es[1..], k) {
          var i :| 0 <= i < |es[1..]| && Key(es[1..][i]) == k;
          assert Key(es[i + 1]) == k;
        }
        if !KeyAbsent(es, k) {
          var i :| 0 <= i < |es| && Key(es[i]) == k;
          if i > 0 {
            assert Key(es[1..][i - 1]) == k;
          }
        }
      }
      if UniqueKeys(es) {
        assert KeyAbsent(es[1..], Key(es[0])) by {
          forall i | 0 <= i < |es[1..]|
            ensures Key(es[1..][i]) != Key(es[0])
          {
            assert es[1..][i] == es[i + 1];
          }
        }
        assert UniqueKeys(es[1..]) by {
          forall i, j | 0 <= i < j < |es[1..]|
            ensures Key(es[1..][i]) != Key(es[1..][j])
          {
            assert es[1..][i] == es[i + 1] && es[1..][j] == es[j + 1];
          }
        }
        forall i | 0 <= i < |es|
          ensures Contents(es)[Key(es[i])] == es[i]
        {
          if i > 0 {
            assert es[1..][i - 1] == es[i];
          }
        }
      }
    }
  }

  /** Position of the entry with key `k`, if any. */
  function Find(es: seq<Entry>, k: string): (r: Option<nat>)
    ensures r.Some? ==> r.value < |es| && Key(es[r.value]) == k
    ensures r.None? <==> KeyAbsent(es, k)
  {
    if |es| == 0 then None
    else if Key(es[0]) == k then Some(0)
    else
      match Find(es[1..], k)
      case None => None
      case Some(i) => Some(i + 1)
  }

  /** Looking a key up in the list agrees with looking it up in the map. */
  lemma FindContents(es: seq<Entry>, k: string)
    requires UniqueKeys(es)
    ensures Find(es, k).Some? <==> k in Contents(es)
    ensures Find(es, k).Some? ==> Contents(es)[k] == es[Find(es, k).value]
  {
    ContentsSpec(es);
  }

  /** Places `e` before the first entry whose name is greater. */
  function Insert(es: seq<Entry>, e: Entry): (r: seq<Entry>)
    requires Sorted(es)
    requires forall i :: 0 <= i < |es| ==> es[i].name != e.name
    ensures |r| == |es| + 1
    ensures forall x :: x in r <==> x in es || x == e
    ensures Sorted(r)
  {
    if |es| == 0 then [e]
    else if StringOrder.Less(e.name, es[0].name) then
      forall j | 0 < j < |es|
        ensures StringOrder.Less(e.name, es[j].name)
      {
        StringOrder.LessTransitive(e.name, es[0].name, es[j].name);
      }
      [e] + es
    else
      StringOrder.LessTotal(e.name, es[0].name);
      var rest := Insert(es[1..], e);
      forall j | 0 <= j < |rest|
        ensures StringOrder.Less(es[0].name, rest[j].name)
      {
        assert rest[j] in rest;
        if rest[j] != e {
          var k :| 0 <= k < |es[1..]| && es[1..][k] == rest[j];
          assert es[k + 1] == rest[j];
        }
      }
      assert forall x :: x in es <==> x == es[0] || x in es[1..];
      [es[0]] + rest
  }

  /** The tail of a list with unique keys has unique keys and does not
      hold the head's key. */
  lemma UniqueTail(es: seq<Entry>)
    requires UniqueKeys(es) && |es| > 0
    ensures UniqueKeys(es[1..])
    ensures KeyAbsent(es[1..], Key(es[0]))
  {
    forall i | 0 <= i < |es[1..]|
      ensures Key(es[1..][i]) != Key(es[0])
    {
      assert es[1..][i] == es[i + 1];
    }
  }

  /** The tail of a sorted list is sorted. */
  lemma SortedTail(es: seq<Entry>)
    requires Sorted(es) && |es| > 0
    ensures Sorted(es[1..])
  {
    forall i, j | 0 <= i < j < |es[1..]|
      ensures StringOrder.Less(es[1..][i].name, es[1..][j].name)
    {
      assert es[1..][i] == es[i + 1] && es[1..][j] == es[j + 1];
    }
  }

  /** The tail of a valid list is valid and does not hold the head's key. */
  lemma ValidTail(es: seq<Entry>)
    requires Valid(es) && |es| > 0
    ensures Valid(es[1..])
    ensures KeyAbsent(es[1..], Key(es[0]))
  {
    UniqueTail(es);
  }

  /** Inserting an entry with a fresh key keeps keys unique. */
  lemma {:induction false} InsertUnique(es: seq<Entry>, e: Entry)
    requires Sorted(es) && UniqueKeys(es) && KeyAbsent(es, Key(e))
    ensures UniqueKeys(Insert(es, e))
    decreases |es|
  {
    if |es| > 0 && !StringOrder.Less(e.name, es[0].name) {
      SortedTail(es);
      UniqueTail(es);
      var rest := es[1..];
      assert KeyAbsent(rest, Key(e));
      InsertUnique(rest, e);
      var t := Insert(rest, e);
      var r := Insert(es, e);
      assert r == [es[0]] + t;
      assert KeyAbsent(t, Key(es[0])) by {
        forall j | 0 <= j < |t|
          ensures Key(t[j]) != Key(es[0])
        {
          assert t[j] in t;
          if t[j] != e {
            var k :| 0 <= k < |rest| && rest[k] == t[j];
          }
        }
      }
      forall i, j | 0 <= i < j < |r|
        ensures Key(r[i]) != Key(r[j])
      {
        assert r[j] == t[j - 1];
        if i > 0 {
          assert r[i] == t[i - 1];
        }
      }
    }
  }

  /** Inserting an entry with a fresh key keeps the list valid. */
  lemma InsertValid(es: seq<Entry>, e: Entry)
    requires Valid(es) && WellFormed(e) && KeyAbsent(es, Key(e))
    ensures Valid(Insert(es, e))
  {
    InsertUnique(es, e);
    var r := Insert(es, e);
    forall i | 0 <= i < |r|
      ensures WellFormed(r[i])
    {
      assert r[i] in r;
    }
  }

  /** Inserting an entry with a fresh key adds exactly that key to the map. */
  lemma {:induction false} InsertContents(es: seq<Entry>, e: Entry)
    requires Sorted(es) && KeyAbsent(es, Key(e))
    ensures Contents(Insert(es, e)) == Contents(es)[Key(e) := e]
    decreases |es|
  {
    if |es| > 0 {
      var r := Insert(es, e);
      if StringOrder.Less(e.name, es[0].name) {
        assert r[1..] == es;
      } else {
        SortedTail(es);
        var rest := es[1..];
        assert KeyAbsent(rest, Key(e));
        InsertContents(rest, e);
        assert r[1..] == Insert(rest, e);
      }
    }
  }

  /** Replacing the entry at `i` by a well-formed one with the same name
      keeps the list valid. */
  lemma ReplaceValid(es: seq<Entry>, i: nat, x: Entry)
    requires Valid(es) && WellFormed(x)
    requires i < |es| && x.name == es[i].name
    ensures Valid(es[i := x])
  {
    var r := es[i := x];
    assert forall j :: 0 <= j < |r| ==> r[j].name == es[j].name && Key(r[j]) == Key(es[j]);
  }

  /** Replacing the entry at `i` by one with the same name changes the map
      only at that key. */
  lemma {:induction false} ReplaceMap(es: seq<Entry>, i: nat, x: Entry)
    requires UniqueKeys(es)
    requires i < |es| && x.name == es[i].name
    ensures Contents(es[i := x]) == Contents(es)[Key(x) := x]
    decreases |es|
  {
    var r := es[i := x];
    if i > 0 {
      UniqueTail(es);
      assert Key(es[i]) != Key(es[0]);
      ReplaceMap(es[1..], i - 1, x);
      assert r[1..] == es[1..][i - 1 := x];
    } else {
      assert r[1..] == es[1..];
    }
  }

  /** Replacing the entry at `i` by a well-formed one with the same name
      keeps the list valid and changes the map at that key only. */
  lemma ReplaceContents(es: seq<Entry>, i: nat, x: Entry)
    requires Valid(es) && WellFormed(x)
    requires i < |es| && x.name == es[i].name
    ensures Valid(es[i := x])
    ensures Contents(es[i := x]) == Contents(es)[Key(x) := x]
  {
    ReplaceValid(es, i, x);
    ReplaceMap(es, i, x);
  }

  /** The list without the entry whose key is `k`. */
  function RemoveKey(es: seq<Entry>, k: string): (r: seq<Entry>)
    ensures forall x :: x in r <==> x in es && Key(x) != k
  {
    if |es| == 0 then []
    else
      assert forall x :: x in es <==> x == es[0] || x in es[1..];
      if Key(es[0]) == k then RemoveKey(es[1..], k) else [es[0]] + RemoveKey(es[1..], k)
  }

  /** Removing a key keeps the list valid. */
  lemma {:induction false} RemoveKeyValid(es: seq<Entry>, k: string)
    requires Valid(es)
    ensures Valid(RemoveKey(es, k))
    decreases |es|
  {
    if |es| > 0 {
      ValidTail(es);
      RemoveKeyValid(es[1..], k);
      var rest := RemoveKey(es[1..], k);
      if Key(es[0]) != k {
        var r := [es[0]] + rest;
        assert RemoveKey(es, k) == r;
        forall j | 0 <= j < |rest|
          ensures StringOrder.Less(es[0].name, rest[j].name) && Key(es[0]) != Key(rest[j])
        {
          assert rest[j] in rest;
          var a :| 0 <= a < |es[1..]| && es[1..][a] == rest[j];
          assert es[a + 1] == rest[j];
        }
        ConsValid(es[0], rest);
      }
    }
  }

  /** Prepending an entry whose name precedes and whose key differs from
      every entry of a valid list gives a valid list. */
  lemma ConsValid(e: Entry, rest: seq<Entry>)
    requires Valid(rest) && WellFormed(e)
    requires forall j :: 0 <= j < |rest| ==> StringOrder.Less(e.name, rest[j].name) && Key(e) != Key(rest[j])
    ensures Valid([e] + rest)
  {
    var r := [e] + rest;
    assert forall i :: 0 < i < |r| ==> r[i] == rest[i - 1];
  }

  /** The tail's map is the whole map without the head's key. */
  lemma ContentsTail(es: seq<Entry>)
    requires UniqueKeys(es) && |es| > 0
    ensures Contents(es[1..]) == Contents(es) - {Key(es[0])}
  {
    UniqueTail(es);
    ContentsSpec(es[1..]);
    var m := Contents(es[1..]);
    assert Key(es[0]) !in m;
    assert Contents(es) == m[Key(es[0]) := es[0]];
    assert m[Key(es[0]) := es[0]] - {Key(es[0])} == m;
  }

  /** Updating one key and removing another commute; removing the key
      just updated forgets the update. */
  lemma UpdateRemoveCommute(m: map<string, Entry>, k0: string, v: Entry, k: string)
    ensures k0 != k ==> (m - {k})[k0 := v] == m[k0 := v] - {k}
    ensures k0 == k ==> m[k0 := v] - {k} == m - {k}
  {
  }

  /** Removing a key removes exactly that key from the map. */
  lemma {:induction false} RemoveKeyContents(es: seq<Entry>, k: string)
    requires UniqueKeys(es)
    ensures Contents(RemoveKey(es, k)) == Contents(es) - {k}
    decreases |es|
  {
    if |es| > 0 {
      UniqueTail(es);
      RemoveKeyContents(es[1..], k);
      var rest := RemoveKey(es[1..], k);
      var m := Contents(es[1..]);
      assert Contents(rest) == m - {k};
      assert Contents(es) == m[Key(es[0]) := es[0]];
      if Key(es[0]) == k {
        assert RemoveKey(es, k) == rest;
        UpdateRemoveCommute(m, k, es[0], k);
      } else {
        assert RemoveKey(es, k) == [es[0]] + rest;
        assert ([es[0]] + rest)[1..] == rest;
        assert Contents([es[0]] + rest) == (m - {k})[Key(es[0]) := es[0]];
        UpdateRemoveCommute(m, Key(es[0]), es[0], k);
      }
    }
  }

  /** The map-level effect of merging entry `e` into a store: a new key
      gets `e`; an existing entry keeps its name and fields and takes only
      the fields it lacks from `e`. */
  function UpsertMap(m: map<string, Entry>, e: Entry): (r: map<string, Entry>)
    ensures r.Keys == m.Keys + {Key(e)}
    ensures forall k :: k in m && k != Key(e) ==> r[k] == m[k]
  {
    m[Key(e) := if Key(e) in m then Combine(m[Key(e)], e) else e]
  }

  /** Merges `e` into the store (see `UpsertMap`). */
  function Upsert(es: seq<Entry>, e: Entry): (r: seq<Entry>)
    requires Valid(es) && WellFormed(e)
    ensures Valid(r)
    ensures Contents(r) == UpsertMap(Contents(es), e)
  {
    FindContents(es, Key(e));
    match Find(es, Key(e))
    case Some(i) =>
      ReplaceContents(es, i, Combine(es[i], e));
      es[i := Combine(es[i], e)]
    case None =>
      InsertValid(es, e);
      InsertContents(es, e);
      Insert(es, e)
  }

  /** An entry the map holds under its own key is an element of the list. */
  lemma InContents(es: seq<Entry>, x: Entry)
    requires UniqueKeys(es)
    requires Key(x) in Contents(es) && Contents(es)[Key(x)] == x
    ensures x in es
  {
    ContentsSpec(es);
    var i :| 0 <= i < |es| && Key(es[i]) == Key(x);
  }

  /** The head of a valid list has the least name. */
  lemma HeadLeast(es: seq<Entry>, x: Entry)
    requires Valid(es) && |es| > 0
    requires x in es && x != es[0]
    ensures StringOrder.Less(es[0].name, x.name)
  {
  }

  /** A valid list is determined by its map: the order is forced by the
      names, so two valid lists with the same contents are equal. */
  lemma {:induction false} ContentsDetermines(a: seq<Entry>, b: seq<Entry>)
    requires Valid(a) && Valid(b)
    requires Contents(a) == Contents(b)
    ensures a == b
    decreases |a|
  {
    if |a| == 0 && |b| > 0 {
      ContentsHead(b);
    } else if |a| > 0 && |b| == 0 {
      ContentsHead(a);
    } else if |a| > 0 && |b| > 0 {
      ContentsHead(a);
      ContentsHead(b);
      InContents(a, b[0]);
      InContents(b, a[0]);
      if a[0] != b[0] {
        HeadLeast(a, b[0]);
        HeadLeast(b, a[0]);
        StringOrder.LessAsymmetric(a[0].name, b[0].name);
        assert false;
      }
      ContentsTail(a);
      ContentsTail(b);
      ValidTail(a);
      ValidTail(b);
      ContentsDetermines(a[1..], b[1..]);
      assert a == [a[0]] + a[1..] && b == [b[0]] + b[1..];
    }
  }

  /** The map sends the head's key to the head. */
  lemma ContentsHead(es: seq<Entry>)
    requires |es| > 0
    ensures Key(es[0]) in Contents(es) && Contents(es)[Key(es[0])] == es[0]
  {
  }
}
