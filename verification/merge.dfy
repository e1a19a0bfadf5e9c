/** `merge_entries`: reconciles serialised entry lists into one sorted,
    deduplicated list. The strings are parsed in order, a string that does
    not parse is skipped, and the entries are read one by one into a
    store: an entry whose key is already present only fills the fields the
    stored entry lacks (see `Entries.Combine`). */
module Merge {
  import opened Errors
  import opened Entries
  import Serial
  import EntryList

  /** What each string parses to, position by position. */
  function Attempts(ss: seq<string>): seq<Option<Entry>> {
    seq(|ss|, i requires 0 <= i < |ss| => Serial.Parse(ss[i]))
  }

  /** The values of the present options, in order. */
  function Somes(os: seq<Option<Entry>>): (r: seq<Entry>)
    ensures |r| <= |os|
  {
    if |os| == 0 then []
    else if os[0].Some? then [os[0].value] + Somes(os[1..])
    else Somes(os[1..])
  }

  /** The entries of the strings that parse, in order. */
  function Parsed(ss: seq<string>): (r: seq<Entry>)
    ensures forall i :: 0 <= i < |r| ==> WellFormed(r[i])
  {
    var os := Attempts(ss);
    SomesWellFormed(os);
    Somes(os)
  }

  /** The folded keys of a list of entries. */
  function KeysOf(es: seq<Entry>): set<string> {
    if |es| == 0 then {} else {Key(es[0])} + KeysOf(es[1..])
  }

  /** Reference semantics of reading entries in order, on the key-to-entry map. */
  function CollectMap(m: map<string, Entry>, es: seq<Entry>): map<string, Entry>
    decreases |es|
  {
    if |es| == 0 then m else CollectMap(EntryList.UpsertMap(m, es[0]), es[1..])
  }

  /** Reads entries, in order, into a store. */
  function CollectInto(store: seq<Entry>, es: seq<Entry>): (r: seq<Entry>)
    requires EntryList.Valid(store)
    requires forall i :: 0 <= i < |es| ==> WellFormed(es[i])
    ensures EntryList.Valid(r)
    ensures EntryList.Contents(r) == CollectMap(EntryList.Contents(store), es)
    decreases |es|
  {
    if |es| == 0 then store else CollectInto(EntryList.Upsert(store, es[0]), es[1..])
  }

  /** The store a list of serialised entries describes. */
  function Collect(ss: seq<string>): (r: seq<Entry>)
    ensures EntryList.Valid(r)
    ensures EntryList.Contents(r) == CollectMap(map[], Parsed(ss))
  {
    CollectInto([], Parsed(ss))
  }

  /** One serialised string per entry, in list order. */
  function SerializeList(es: seq<Entry>): seq<string> {
    seq(|es|, i requires 0 <= i < |es| => Serial.Serialize(es[i]))
  }

  /** `merge_entries(a, b)`: the entries of `a` and `b` read in that order,
      serialised in ascending name order with one entry per folded key. */
  function MergeEntries(a: seq<string>, b: seq<string>): (r: seq<string>)
    ensures exists es :: EntryList.Valid(es) && r == SerializeList(es)
    ensures KeysOf(Parsed(r)) == KeysOf(Parsed(a)) + KeysOf(Parsed(b))
  {
    var es := Collect(a + b);
    ParsedConcat(a, b);
    KeysOfConcat(Parsed(a), Parsed(b));
    CollectKeys(map[], Parsed(a + b));
    ParsedSerialized(es);
    KeysOfContents(es);
    SerializeList(es)
  }

  // ---------------------------------------------------------------------
  // Parsing lists of strings

  lemma {:induction false} SomesWellFormed(os: seq<Option<Entry>>)
    requires forall i :: 0 <= i < |os| && os[i].Some? ==> WellFormed(os[i].value)
    ensures forall i :: 0 <= i < |Somes(os)| ==> WellFormed(Somes(os)[i])
    decreases |os|
  {
    if |os| > 0 {
      SomesWellFormed(os[1..]);
    }
  }

  lemma {:induction false} SomesConcat(x: seq<Option<Entry>>, y: seq<Option<Entry>>)
    ensures Somes(x + y) == Somes(x) + Somes(y)
    decreases |x|
  {
    if |x| > 0 {
      assert (x + y)[0] == x[0];
      assert (x + y)[1..] == x[1..] + y;
      SomesConcat(x[1..], y);
    } else {
      assert x + y == y;
    }
  }

  /** Options that are all present give back their values. */
  lemma {:induction false} SomesAllPresent(os: seq<Option<Entry>>, es: seq<Entry>)
    requires |os| == |es|
    requires forall i :: 0 <= i < |os| ==> os[i] == Some(es[i])
    ensures Somes(os) == es
    decreases |os|
  {
    if |os| > 0 {
      SomesAllPresent(os[1..], es[1..]);
      assert es == [es[0]] + es[1..];
    }
  }

  lemma ParsedConcat(a: seq<string>, b: seq<string>)
    ensures Parsed(a + b) == Parsed(a) + Parsed(b)
  {
    assert Attempts(a + b) == Attempts(a) + Attempts(b);
    SomesConcat(Attempts(a), Attempts(b));
  }

  lemma {:induction false} KeysOfConcat(a: seq<Entry>, b: seq<Entry>)
    ensures KeysOf(a + b) == KeysOf(a) + KeysOf(b)
    decreases |a|
  {
    if |a| > 0 {
      assert (a + b)[0] == a[0];
      assert (a + b)[1..] == a[1..] + b;
      KeysOfConcat(a[1..], b);
    } else {
      assert a + b == b;
    }
  }

  /** Parsing a serialised list of well-formed entries gives the entries. */
  lemma ParsedSerialized(es: seq<Entry>)
    requires forall i :: 0 <= i < |es| ==> WellFormed(es[i])
    ensures Parsed(SerializeList(es)) == es
  {
    var os := Attempts(SerializeList(es));
    forall i | 0 <= i < |os|
      ensures os[i] == Some(es[i])
    {
      Serial.ParseSerialize(es[i]);
    }
    SomesAllPresent(os, es);
  }

  /** The keys of a list are the keys of its map. */
  lemma KeysOfContents(es: seq<Entry>)
    ensures KeysOf(es) == EntryList.Contents(es).Keys
    decreases |es|
  {
  }

  // ---------------------------------------------------------------------
  // The reference map semantics

  /** Reading a concatenation is reading one list after the other. */
  lemma {:induction false} CollectMapConcat(m: map<string, Entry>, a: seq<Entry>, b: seq<Entry>)
    ensures CollectMap(m, a + b) == CollectMap(CollectMap(m, a), b)
    decreases |a|
  {
    if |a| > 0 {
      assert (a + b)[0] == a[0];
      assert (a + b)[1..] == a[1..] + b;
      CollectMapConcat(EntryList.UpsertMap(m, a[0]), a[1..], b);
    } else {
      assert a + b == b;
    }
  }

  /** Reading a list adds exactly the keys of its entries. */
  lemma {:induction false} CollectKeys(m: map<string, Entry>, es: seq<Entry>)
    ensures CollectMap(m, es).Keys == m.Keys + KeysOf(es)
    decreases |es|
  {
    if |es| > 0 {
      CollectKeys(EntryList.UpsertMap(m, es[0]), es[1..]);
    }
  }

  /** Reading a store's entries into a map whose keys it does not share
      adds the store's map to it. */
  lemma {:induction false} CollectMapValid(m: map<string, Entry>, es: seq<Entry>)
    requires EntryList.Valid(es)
    requires m.Keys !! EntryList.Contents(es).Keys
    ensures CollectMap(m, es) == m + EntryList.Contents(es)
    decreases |es|
  {
    if |es| > 0 {
      var e := es[0];
      EntryList.ContentsHead(es);
      EntryList.ContentsTail(es);
      EntryList.ValidTail(es);
      var m' := m[Key(e) := e];
      assert EntryList.UpsertMap(m, e) == m';
      CollectMapValid(m', es[1..]);
      assert m' + EntryList.Contents(es[1..]) == m + EntryList.Contents(es);
    }
  }

  /** Reading back a serialised store gives the same store. */
  lemma CollectSerialized(es: seq<Entry>)
    requires EntryList.Valid(es)
    ensures Collect(SerializeList(es)) == es
  {
    ParsedSerialized(es);
    CollectMapValid(map[], es);
    assert map[] + EntryList.Contents(es) == EntryList.Contents(es);
    EntryList.ContentsDetermines(Collect(SerializeList(es)), es);
  }

  /** Reading a serialised store and then more strings is reading those
      strings into the store's map. */
  lemma CollectAfterStore(es: seq<Entry>, q: seq<string>)
    requires EntryList.Valid(es)
    ensures EntryList.Contents(Collect(SerializeList(es) + q)) ==
      CollectMap(EntryList.Contents(es), Parsed(q))
  {
    var s := SerializeList(es);
    calc {
      EntryList.Contents(Collect(s + q));
      CollectMap(map[], Parsed(s + q));
      { ParsedConcat(s, q); ParsedSerialized(es); }
      CollectMap(map[], es + Parsed(q));
      { CollectMapConcat(map[], es, Parsed(q)); }
      CollectMap(CollectMap(map[], es), Parsed(q));
      { CollectMapValid(map[], es); assert map[] + EntryList.Contents(es) == EntryList.Contents(es); }
      CollectMap(EntryList.Contents(es), Parsed(q));
    }
  }

  // ---------------------------------------------------------------------
  // Idempotence: re-reading entries already merged changes nothing

  /** `m` already holds everything `e` could contribute. */
  predicate Absorbed(m: map<string, Entry>, e: Entry) {
    Key(e) in m && Dominates(m[Key(e)], e)
  }

  lemma UpsertAbsorbs(m: map<string, Entry>, e: Entry, f: Entry)
    ensures Absorbed(EntryList.UpsertMap(m, e), e)
    ensures Absorbed(m, f) ==> Absorbed(EntryList.UpsertMap(m, e), f)
  {
    if Key(e) in m {
      CombineAbsorbs(m[Key(e)], e, f);
    } else {
      assert Dominates(e, e);
    }
  }

  lemma {:induction false} AbsorbedStable(m: map<string, Entry>, f: Entry, es: seq<Entry>)
    requires Absorbed(m, f)
    ensures Absorbed(CollectMap(m, es), f)
    decreases |es|
  {
    if |es| > 0 {
      UpsertAbsorbs(m, es[0], f);
      AbsorbedStable(EntryList.UpsertMap(m, es[0]), f, es[1..]);
    }
  }

  /** After reading a list, every entry of it is absorbed. */
  lemma {:induction false} CollectAbsorbsAll(m: map<string, Entry>, es: seq<Entry>)
    ensures forall i :: 0 <= i < |es| ==> Absorbed(CollectMap(m, es), es[i])
    decreases |es|
  {
    if |es| > 0 {
      var m' := EntryList.UpsertMap(m, es[0]);
      UpsertAbsorbs(m, es[0], es[0]);
      AbsorbedStable(m', es[0], es[1..]);
      CollectAbsorbsAll(m', es[1..]);
      assert forall i :: 0 < i < |es| ==> es[i] == es[1..][i - 1];
    }
  }

  /** Reading absorbed entries leaves the map as it is. */
  lemma {:induction false} CollectNoOp(m: map<string, Entry>, es: seq<Entry>)
    requires forall i :: 0 <= i < |es| ==> Absorbed(m, es[i])
    ensures CollectMap(m, es) == m
    decreases |es|
  {
    if |es| > 0 {
      assert EntryList.UpsertMap(m, es[0]) == m;
      assert forall i :: 0 <= i < |es[1..]| ==> es[1..][i] == es[i + 1];
      CollectNoOp(m, es[1..]);
    }
  }

  /** Reading the same list twice is reading it once. */
  lemma CollectIdempotent(m: map<string, Entry>, es: seq<Entry>)
    ensures CollectMap(CollectMap(m, es), es) == CollectMap(m, es)
  {
    CollectAbsorbsAll(m, es);
    CollectNoOp(CollectMap(m, es), es);
  }

  /** Reading a merged list back gives the store it came from. */
  lemma CollectMerge(a: seq<string>, b: seq<string>)
    ensures Collect(MergeEntries(a, b)) == Collect(a + b)
  {
    CollectSerialized(Collect(a + b));
  }

  /** The merge answer is the only serialised valid list that reads back
      as the inputs read one after the other. */
  lemma MergeCharacterised(a: seq<string>, b: seq<string>, es: seq<Entry>)
    requires EntryList.Valid(es)
    requires Collect(SerializeList(es)) == Collect(a + b)
    ensures SerializeList(es) == MergeEntries(a, b)
  {
    CollectSerialized(es);
  }

  /** Merging a second time with the same remote list is a no-op:
      `merge(merge(x, y), y) == merge(x, y)`. */
  lemma MergeIdempotent(x: seq<string>, y: seq<string>)
    ensures MergeEntries(MergeEntries(x, y), y) == MergeEntries(x, y)
  {
    var l := Collect(x + y);
    var px, py := Parsed(x), Parsed(y);
    var s := MergeEntries(x, y);
    assert s == SerializeList(l);
    ParsedConcat(x, y);
    ParsedConcat(s, y);
    ParsedSerialized(l);
    assert Parsed(s + y) == l + py;
    CollectMapConcat(map[], l, py);
    CollectMapValid(map[], l);
    assert map[] + EntryList.Contents(l) == EntryList.Contents(l);
    CollectMapConcat(map[], px, py);
    CollectIdempotent(CollectMap(map[], px), py);
    EntryList.ContentsDetermines(Collect(s + y), l);
  }

  // ---------------------------------------------------------------------
  // Argument order does not matter when the lists share no key

  lemma UpsertCommute(m: map<string, Entry>, e: Entry, f: Entry)
    requires Key(e) != Key(f)
    ensures EntryList.UpsertMap(EntryList.UpsertMap(m, e), f) == EntryList.UpsertMap(EntryList.UpsertMap(m, f), e)
  {
  }

  lemma {:induction false} CollectSwap(m: map<string, Entry>, e: Entry, es: seq<Entry>)
    requires Key(e) !in KeysOf(es)
    ensures CollectMap(EntryList.UpsertMap(m, e), es) == EntryList.UpsertMap(CollectMap(m, es), e)
    decreases |es|
  {
    if |es| > 0 {
      UpsertCommute(m, e, es[0]);
      CollectSwap(EntryList.UpsertMap(m, es[0]), e, es[1..]);
    }
  }

  lemma {:induction false} CollectDisjointCommute(m: map<string, Entry>, a: seq<Entry>, b: seq<Entry>)
    requires KeysOf(a) !! KeysOf(b)
    ensures CollectMap(m, a + b) == CollectMap(m, b + a)
    decreases |b|
  {
    if |b| == 0 {
      assert a + b == a && b + a == a;
    } else {
      var y, rest := b[0], b[1..];
      var m' := EntryList.UpsertMap(m, y);
      assert KeysOf(b) == {Key(y)} + KeysOf(rest);
      assert (b + a)[0] == y && (b + a)[1..] == rest + a;
      calc {
        CollectMap(m, a + b);
        { CollectMapConcat(m, a, b); }
        CollectMap(CollectMap(m, a), b);
        CollectMap(EntryList.UpsertMap(CollectMap(m, a), y), rest);
        { CollectSwap(m, y, a); }
        CollectMap(CollectMap(m', a), rest);
        { CollectMapConcat(m', a, rest); }
        CollectMap(m', a + rest);
        { CollectDisjointCommute(m', a, rest); }
        CollectMap(m', rest + a);
        CollectMap(m, b + a);
      }
    }
  }

  /** When no folded key occurs on both sides, the order of the arguments
      does not matter. */
  lemma MergeDisjointCommutes(x: seq<string>, y: seq<string>)
    requires KeysOf(Parsed(x)) !! KeysOf(Parsed(y))
    ensures MergeEntries(x, y) == MergeEntries(y, x)
  {
    ParsedConcat(x, y);
    ParsedConcat(y, x);
    CollectDisjointCommute(map[], Parsed(x), Parsed(y));
    EntryList.ContentsDetermines(Collect(x + y), Collect(y + x));
  }

  // ---------------------------------------------------------------------
  // The merged entry of each key

  /** What a map holds at key `k` after reading a list depends only on what
      it held at `k` before. */
  lemma {:induction false} CollectLocal(m1: map<string, Entry>, m2: map<string, Entry>, es: seq<Entry>, k: string)
    requires k in m1 <==> k in m2
    requires k in m1 ==> m1[k] == m2[k]
    ensures k in CollectMap(m1, es) <==> k in CollectMap(m2, es)
    ensures k in CollectMap(m1, es) ==> CollectMap(m1, es)[k] == CollectMap(m2, es)[k]
    decreases |es|
  {
    if |es| > 0 {
      CollectLocal(EntryList.UpsertMap(m1, es[0]), EntryList.UpsertMap(m2, es[0]), es[1..], k);
    }
  }

  /** Reading a list into a map that holds `k` reconciles the held entry
      with the entry the list alone describes for `k`. */
  lemma {:induction false} CollectAt(m: map<string, Entry>, es: seq<Entry>, k: string)
    requires k in m
    ensures k in CollectMap(m, es)
    ensures k in KeysOf(es) ==>
      k in CollectMap(map[], es) && CollectMap(m, es)[k] == Combine(m[k], CollectMap(map[], es)[k])
    ensures k !in KeysOf(es) ==> CollectMap(m, es)[k] == m[k]
    decreases |es|
  {
    if |es| > 0 {
      var e, rest := es[0], es[1..];
      var m' := EntryList.UpsertMap(m, e);
      var z := EntryList.UpsertMap(map[], e);
      CollectAt(m', rest, k);
      CollectKeys(map[], rest);
      if Key(e) == k {
        CollectAt(z, rest, k);
        if k in KeysOf(rest) {
          CombineAssociative(m[k], e, CollectMap(map[], rest)[k]);
        }
      } else {
        CollectLocal(z, map[], rest, k);
      }
    }
  }

  /** Reading two lists one after the other, at one key. */
  lemma CollectPairAt(pa: seq<Entry>, pb: seq<Entry>, k: string)
    requires k in KeysOf(pa) + KeysOf(pb)
    ensures k in CollectMap(map[], pa + pb)
    ensures k in KeysOf(pa) && k in KeysOf(pb) ==>
      k in CollectMap(map[], pa) && k in CollectMap(map[], pb) &&
      CollectMap(map[], pa + pb)[k] == Combine(CollectMap(map[], pa)[k], CollectMap(map[], pb)[k])
    ensures k in KeysOf(pa) && k !in KeysOf(pb) ==>
      k in CollectMap(map[], pa) && CollectMap(map[], pa + pb)[k] == CollectMap(map[], pa)[k]
    ensures k !in KeysOf(pa) && k in KeysOf(pb) ==>
      k in CollectMap(map[], pb) && CollectMap(map[], pa + pb)[k] == CollectMap(map[], pb)[k]
  {
    CollectMapConcat(map[], pa, pb);
    CollectKeys(map[], pa);
    CollectKeys(map[], pb);
    var ma := CollectMap(map[], pa);
    if k in ma {
      CollectAt(ma, pb, k);
    } else {
      CollectLocal(ma, map[], pb, k);
      CollectKeys(ma, pb);
    }
  }

  /** The merge policy for one key. A key only one side holds keeps that
      side's entry; a key both sides hold keeps the first side's name and
      fields and takes from the second side only the fields the first
      lacks. */
  lemma MergeAt(a: seq<string>, b: seq<string>, k: string)
    requires k in KeysOf(Parsed(a)) + KeysOf(Parsed(b))
    ensures k in EntryList.Contents(Collect(MergeEntries(a, b)))
    ensures k in KeysOf(Parsed(a)) <==> k in EntryList.Contents(Collect(a))
    ensures k in KeysOf(Parsed(b)) <==> k in EntryList.Contents(Collect(b))
    ensures k in KeysOf(Parsed(a)) && k in KeysOf(Parsed(b)) ==>
      EntryList.Contents(Collect(MergeEntries(a, b)))[k] ==
      Combine(EntryList.Contents(Collect(a))[k], EntryList.Contents(Collect(b))[k])
    ensures k in KeysOf(Parsed(a)) && k !in KeysOf(Parsed(b)) ==>
      EntryList.Contents(Collect(MergeEntries(a, b)))[k] == EntryList.Contents(Collect(a))[k]
    ensures k !in KeysOf(Parsed(a)) && k in KeysOf(Parsed(b)) ==>
      EntryList.Contents(Collect(MergeEntries(a, b)))[k] == EntryList.Contents(Collect(b))[k]
  {
    var pa, pb := Parsed(a), Parsed(b);
    var merged := Collect(MergeEntries(a, b));
    assert merged == Collect(a + b) by {
      CollectMerge(a, b);
    }
    assert EntryList.Contents(merged) == CollectMap(map[], pa + pb) by {
      ParsedConcat(a, b);
    }
    assert EntryList.Contents(Collect(a)) == CollectMap(map[], pa);
    assert EntryList.Contents(Collect(b)) == CollectMap(map[], pb);
    CollectKeys(map[], pa);
    CollectKeys(map[], pb);
    CollectPairAt(pa, pb, k);
  }

  /** Merging a serialised store with an empty list, on either side, gives
      the same serialised store back. */
  lemma MergeWithEmpty(es: seq<Entry>)
    requires EntryList.Valid(es)
    ensures MergeEntries(SerializeList(es), []) == SerializeList(es)
    ensures MergeEntries([], SerializeList(es)) == SerializeList(es)
  {
    var s := SerializeList(es);
    assert s + [] == s && [] + s == s;
    CollectSerialized(es);
  }
}
