/** `MyfatoorahApiV2::isSignatureValid`: how a webhook notification is
    authenticated. The notification's data array is put in a canonical
    form (the `GatewayReference` field dropped for event type 2, the keys
    sorted with `strcasecmp`, the pairs written `key=value` and joined with
    commas) and the base64 encoding (section 4 of RFC 4648) of its
    HMAC-SHA256 (RFC 2104) under the webhook secret must equal the
    signature header. HMAC-SHA256 and base64 are library primitives and
    are parameters here; the canonical string is modelled exactly. */
module Webhook {
  import opened Php

  /** One field of the notification's data array, its value already in the
      form `sprintf('%s')` gives it. */
  datatype Entry = Entry(key: string, value: string)

  const GatewayReferenceKey: string := "GatewayReference"

  // ---------------------------------------------------------------------
  // strcasecmp
  // ---------------------------------------------------------------------

  /** Lexicographic order on code points. On the UTF-8 encodings of two
      strings it agrees with the byte order `strcmp` uses. */
  predicate LexLess(x: string, y: string)
    decreases |x|
  {
    if x == [] then y != []
    else y != [] && (x[0] < y[0] || (x[0] == y[0] && LexLess(x[1..], y[1..])))
  }

  /** `strcasecmp($a, $b) < 0`: ASCII letters compared as lower case. */
  predicate CaseLess(a: string, b: string) {
    LexLess(ToLower(a), ToLower(b))
  }

  lemma {:induction false} LexLessIrreflexive(x: string)
    ensures !LexLess(x, x)
    decreases |x|
  {
    if x != [] {
      LexLessIrreflexive(x[1..]);
    }
  }

  lemma {:induction false} LexLessTransitive(x: string, y: string, z: string)
    requires LexLess(x, y) && LexLess(y, z)
    ensures LexLess(x, z)
    decreases |x|
  {
    if x != [] && x[0] == y[0] && y[0] == z[0] {
      LexLessTransitive(x[1..], y[1..], z[1..]);
    }
  }

  /** Two different strings are ordered one way or the other. */
  lemma {:induction false} LexLessTotal(x: string, y: string)
    ensures x == y || LexLess(x, y) || LexLess(y, x)
    decreases |x|
  {
    if x != [] && y != [] && x[0] == y[0] {
      LexLessTotal(x[1..], y[1..]);
      if x[1..] == y[1..] {
        assert x == [x[0]] + x[1..] && y == [y[0]] + y[1..];
      }
    }
  }

  /** Neither key is below the other exactly when they are equal once
      lower-cased. */
  lemma CaseTie(a: string, b: string)
    ensures !CaseLess(a, b) && !CaseLess(b, a) <==> ToLower(a) == ToLower(b)
  {
    LexLessTotal(ToLower(a), ToLower(b));
    LexLessIrreflexive(ToLower(a));
  }

  // ---------------------------------------------------------------------
  // uksort($dataArray, 'strcasecmp')
  // ---------------------------------------------------------------------

  /** No key is below an earlier one. */
  predicate SortedByKey(s: seq<Entry>) {
    forall i, j :: 0 <= i < j < |s| ==> !CaseLess(s[j].key, s[i].key)
  }

  /** Puts `e` after every entry whose key is not above its own. */
  function Insert(e: Entry, sorted: seq<Entry>): (r: seq<Entry>)
    ensures multiset(r) == multiset(sorted) + multiset{e}
  {
    if sorted == [] then [e]
    else if CaseLess(e.key, sorted[0].key) then [e] + sorted
    else
      assert sorted == [sorted[0]] + sorted[1..];
      [sorted[0]] + Insert(e, sorted[1..])
  }

  /** The array as PHP 8's stable sort leaves it under `strcasecmp`: each
      entry in turn inserted into the sorted earlier ones. */
  function SortEntries(data: seq<Entry>): (r: seq<Entry>)
    ensures multiset(r) == multiset(data)
  {
    if data == [] then []
    else
      assert data == data[..|data| - 1] + [data[|data| - 1]];
      Insert(data[|data| - 1], SortEntries(data[..|data| - 1]))
  }

  lemma {:induction false} InsertSorted(e: Entry, s: seq<Entry>)
    requires SortedByKey(s)
    ensures SortedByKey(Insert(e, s))
  {
    if s == [] {
    } else if CaseLess(e.key, s[0].key) {
      forall j | 0 <= j < |s|
        ensures !CaseLess(s[j].key, e.key)
      {
        if j > 0 && CaseLess(s[j].key, e.key) {
          LexLessTransitive(ToLower(s[j].key), ToLower(e.key), ToLower(s[0].key));
          assert false;
        }
        LexLessIrreflexive(ToLower(e.key));
        if j == 0 && CaseLess(s[0].key, e.key) {
          LexLessTransitive(ToLower(e.key), ToLower(s[0].key), ToLower(e.key));
          assert false;
        }
      }
    } else {
      InsertSorted(e, s[1..]);
      var rest := Insert(e, s[1..]);
      forall x: Entry | x in multiset(rest)
        ensures !CaseLess(x.key, s[0].key)
      {
        assert x == e || x in s[1..];
      }
      forall j | 0 <= j < |rest|
        ensures !CaseLess(rest[j].key, s[0].key)
      {
        assert rest[j] in multiset(rest);
      }
    }
  }

  /** The sort orders the keys case-insensitively. */
  lemma {:induction false} SortEntriesSorted(data: seq<Entry>)
    ensures SortedByKey(SortEntries(data))
    decreases |data|
  {
    if data != [] {
      SortEntriesSorted(data[..|data| - 1]);
      InsertSorted(data[|data| - 1], SortEntries(data[..|data| - 1]));
    }
  }

  /** The entries whose lower-cased key is `k`, in order. */
  function WithLowerKey(s: seq<Entry>, k: string): (r: seq<Entry>)
    ensures forall x :: x in r ==> x in s && ToLower(x.key) == k
  {
    if s == [] then []
    else (if ToLower(s[0].key) == k then [s[0]] else []) + WithLowerKey(s[1..], k)
  }

  lemma {:induction false} WithLowerKeyAppend(a: seq<Entry>, b: seq<Entry>, k: string)
    ensures WithLowerKey(a + b, k) == WithLowerKey(a, k) + WithLowerKey(b, k)
  {
    if a == [] {
      assert a + b == b;
    } else {
      assert (a + b)[1..] == a[1..] + b;
      WithLowerKeyAppend(a[1..], b, k);
    }
  }

  lemma {:induction false} WithLowerKeyAbove(s: seq<Entry>, k: string)
    requires forall j :: 0 <= j < |s| ==> LexLess(k, ToLower(s[j].key))
    ensures WithLowerKey(s, k) == []
  {
    if s != [] {
      LexLessIrreflexive(k);
      WithLowerKeyAbove(s[1..], k);
    }
  }

  lemma {:induction false} InsertStable(e: Entry, s: seq<Entry>, k: string)
    requires SortedByKey(s)
    ensures WithLowerKey(Insert(e, s), k)
            == WithLowerKey(s, k) + (if ToLower(e.key) == k then [e] else [])
  {
    if s == [] {
    } else if CaseLess(e.key, s[0].key) {
      InsertFrontStable(e, s, k);
    } else {
      var rest := Insert(e, s[1..]);
      var h := if ToLower(s[0].key) == k then [s[0]] else [];
      var t := if ToLower(e.key) == k then [e] else [];
      assert Insert(e, s) == [s[0]] + rest;
      SortedTail(s);
      InsertStable(e, s[1..], k);
      WithLowerKeyCons(s[0], rest, k);
      AppendAssoc(h, WithLowerKey(s[1..], k), t);
    }
  }

  lemma WithLowerKeySingle(x: Entry, k: string)
    ensures WithLowerKey([x], k) == if ToLower(x.key) == k then [x] else []
  {
    assert [x][1..] == [];
  }


  lemma WithLowerKeyCons(x: Entry, s: seq<Entry>, k: string)
    ensures WithLowerKey([x] + s, k) == (if ToLower(x.key) == k then [x] else []) + WithLowerKey(s, k)
  {
    assert ([x] + s)[1..] == s;
  }

  lemma SortedTail(s: seq<Entry>)
    requires SortedByKey(s) && s != []
    ensures SortedByKey(s[1..])
  {
    forall i, j | 0 <= i < j < |s| - 1
      ensures !CaseLess(s[1..][j].key, s[1..][i].key)
    {
      assert s[1..][j] == s[j + 1] && s[1..][i] == s[i + 1];
    }
  }

  /** An entry inserted in front of a sorted list is below every key of
      the list. */
  lemma InsertFrontStable(e: Entry, s: seq<Entry>, k: string)
    requires SortedByKey(s) && s != [] && CaseLess(e.key, s[0].key)
    ensures WithLowerKey(Insert(e, s), k)
            == WithLowerKey(s, k) + (if ToLower(e.key) == k then [e] else [])
  {
    assert Insert(e, s) == [e] + s;
    WithLowerKeyCons(e, s, k);
    if ToLower(e.key) == k {
      forall j | 0 <= j < |s|
        ensures LexLess(k, ToLower(s[j].key))
      {
        if j > 0 {
          LexLessTotal(ToLower(s[0].key), ToLower(s[j].key));
          if LexLess(ToLower(s[0].key), ToLower(s[j].key)) {
            LexLessTransitive(k, ToLower(s[0].key), ToLower(s[j].key));
          }
        }
      }
      WithLowerKeyAbove(s, k);
    }
  }

  /** The sort is stable: entries whose keys differ only in case keep their
      order. */
  lemma {:induction false} SortEntriesStable(data: seq<Entry>, k: string)
    ensures WithLowerKey(SortEntries(data), k) == WithLowerKey(data, k)
    decreases |data|
  {
    if data != [] {
      var init, last := data[..|data| - 1], data[|data| - 1];
      SnocSplit(data);
      SortEntriesSorted(init);
      InsertStable(last, SortEntries(init), k);
      SortEntriesStable(init, k);
      WithLowerKeyAppend(init, [last], k);
      WithLowerKeySingle(last, k);
    }
  }

  /** No two different entries whose keys differ only in case. */
  predicate KeysDistinctIgnoringCase(m: multiset<Entry>) {
    forall x, y :: x in m && y in m && ToLower(x.key) == ToLower(y.key) ==> x == y
  }

  /** Under distinct keys, there is only one sorted arrangement of a
      collection of entries. */
  lemma {:induction false} SortedUnique(a: seq<Entry>, b: seq<Entry>)
    requires SortedByKey(a) && SortedByKey(b)
    requires multiset(a) == multiset(b)
    requires KeysDistinctIgnoringCase(multiset(a))
    ensures a == b
  {
    if a == [] {
      assert |b| == |multiset(b)| == 0;
    } else {
      SortedHeadsEqual(a, b);
      MultisetTail(a);
      MultisetTail(b);
      SortedTail(a);
      SortedTail(b);
      assert multiset(a[1..]) <= multiset(a);
      SortedUnique(a[1..], b[1..]);
      ConsEqual(a, b);
    }
  }

  lemma SortedHeadsEqual(a: seq<Entry>, b: seq<Entry>)
    requires SortedByKey(a) && SortedByKey(b)
    requires multiset(a) == multiset(b) && a != []
    requires KeysDistinctIgnoringCase(multiset(a))
    ensures b != [] && a[0] == b[0]
  {
    assert |b| == |multiset(b)| == |multiset(a)| > 0;
    assert a[0] in multiset(b) && b[0] in multiset(a);
    var j :| 0 <= j < |b| && b[j] == a[0];
    var i :| 0 <= i < |a| && a[i] == b[0];
    if a[0] != b[0] {
      assert !CaseLess(b[0].key, a[0].key) && !CaseLess(a[0].key, b[0].key);
      CaseTie(a[0].key, b[0].key);
      assert false;
    }
  }

  lemma SnocSplit(data: seq<Entry>)
    requires data != []
    ensures data == data[..|data| - 1] + [data[|data| - 1]]
  {
  }

  lemma ConsEqual(a: seq<Entry>, b: seq<Entry>)
    requires a != [] && b != [] && a[0] == b[0] && a[1..] == b[1..]
    ensures a == b
  {
    assert a == [a[0]] + a[1..];
    assert b == [b[0]] + b[1..];
  }

  lemma MultisetTail(a: seq<Entry>)
    requires a != []
    ensures multiset(a[1..]) == multiset(a) - multiset{a[0]}
    ensures multiset(a) == multiset{a[0]} + multiset(a[1..])
  {
    assert a == [a[0]] + a[1..];
  }

  // ---------------------------------------------------------------------
  // unset($dataArray['GatewayReference'])
  // ---------------------------------------------------------------------

  /** The array without the entry for `key`. */
  function Unset(data: seq<Entry>, key: string): (r: seq<Entry>)
    ensures forall x :: x in multiset(r) ==> x in multiset(data) && x.key != key
  {
    if data == [] then []
    else (if data[0].key == key then [] else [data[0]]) + Unset(data[1..], key)
  }

  lemma {:induction false} UnsetCount(data: seq<Entry>, key: string, x: Entry)
    ensures multiset(Unset(data, key))[x] == if x.key == key then 0 else multiset(data)[x]
  {
    if data != [] {
      UnsetCount(data[1..], key, x);
      var head := if data[0].key == key then [] else [data[0]];
      assert Unset(data, key) == head + Unset(data[1..], key);
      assert multiset(Unset(data, key)) == multiset(head) + multiset(Unset(data[1..], key));
      MultisetTail(data);
    }
  }

  /** Removing a key does not depend on the order of the entries. */
  lemma UnsetPermutation(d1: seq<Entry>, d2: seq<Entry>, key: string)
    requires multiset(d1) == multiset(d2)
    ensures multiset(Unset(d1, key)) == multiset(Unset(d2, key))
  {
    forall x: Entry
      ensures multiset(Unset(d1, key))[x] == multiset(Unset(d2, key))[x]
    {
      UnsetCount(d1, key, x);
      UnsetCount(d2, key, x);
    }
  }

  // ---------------------------------------------------------------------
  // The canonical string and the check
  // ---------------------------------------------------------------------

  /** `sprintf("%s=%s", $k, $v)` for every entry, in order. */
  function Pairs(data: seq<Entry>): (r: seq<string>)
    ensures |r| == |data|
    ensures forall i :: 0 <= i < |data| ==> r[i] == data[i].key + "=" + data[i].value
  {
    seq(|data|, i requires 0 <= i < |data| => data[i].key + "=" + data[i].value)
  }

  /** The data array after the `unset` and the `uksort`. */
  function CanonicalEntries(dataArray: seq<Entry>, eventType: int): (r: seq<Entry>)
    ensures multiset(r) == multiset(if eventType == 2 then Unset(dataArray, GatewayReferenceKey) else dataArray)
  {
    SortEntries(if eventType == 2 then Unset(dataArray, GatewayReferenceKey) else dataArray)
  }

  /** The string whose HMAC the signature must be. */
  function CanonicalString(dataArray: seq<Entry>, eventType: int): (s: string)
    ensures s == "" <==> CanonicalEntries(dataArray, eventType) == []
    ensures |CanonicalEntries(dataArray, eventType)| == 1 ==>
              var e := CanonicalEntries(dataArray, eventType)[0]; s == e.key + "=" + e.value
  {
    var pairs := Pairs(CanonicalEntries(dataArray, eventType));
    Implode(",", pairs)
  }

  /** `isSignatureValid`: the data array is copied, stripped of
      `GatewayReference` for event type 2, sorted in place, written out,
      hashed and compared strictly with the signature. */
  method IsSignatureValid(dataArray: seq<Entry>, secret: string, signature: string, eventType: int,
                          hmacSha256: (string, string) -> seq<bv8>, base64Encode: seq<bv8> -> string)
    returns (valid: bool)
    ensures valid <==> signature == base64Encode(hmacSha256(CanonicalString(dataArray, eventType), secret))
  {
    var data := dataArray;
    if eventType == 2 {
      data := Unset(data, GatewayReferenceKey);
    }
    data := SortEntries(data);
    var output := Implode(",", Pairs(data));
    var hash := base64Encode(hmacSha256(output, secret));
    valid := signature == hash;
  }

  // ---------------------------------------------------------------------
  // What the canonical form guarantees
  // ---------------------------------------------------------------------

  /** The canonical entries are the remaining fields, ordered by key
      without regard to case, with fields whose keys differ only in case in
      their original order. */
  lemma CanonicalEntriesOrdered(dataArray: seq<Entry>, eventType: int, k: string)
    ensures SortedByKey(CanonicalEntries(dataArray, eventType))
    ensures var kept := if eventType == 2 then Unset(dataArray, GatewayReferenceKey) else dataArray;
            WithLowerKey(CanonicalEntries(dataArray, eventType), k) == WithLowerKey(kept, k)
  {
    var kept := if eventType == 2 then Unset(dataArray, GatewayReferenceKey) else dataArray;
    SortEntriesSorted(kept);
    SortEntriesStable(kept, k);
  }

  /** `GatewayReference` takes part in the signature exactly when it is
      present and the event type is not 2. */
  lemma GatewayReferenceSigned(dataArray: seq<Entry>, eventType: int, value: string)
    ensures Entry(GatewayReferenceKey, value) in multiset(CanonicalEntries(dataArray, eventType))
            <==> eventType != 2 && Entry(GatewayReferenceKey, value) in dataArray
  {
  }

  /** Every other field takes part whatever the event type. */
  lemma OtherFieldsSigned(dataArray: seq<Entry>, eventType: int, e: Entry)
    requires e.key != GatewayReferenceKey
    ensures e in multiset(CanonicalEntries(dataArray, eventType)) <==> e in dataArray
  {
    UnsetCount(dataArray, GatewayReferenceKey, e);
  }

  /** For event type 2 the value of `GatewayReference` does not affect the
      signature: an appended `GatewayReference` field leaves the canonical
      string as it was. */
  lemma GatewayReferenceIgnored(dataArray: seq<Entry>, value: string)
    ensures CanonicalString(dataArray + [Entry(GatewayReferenceKey, value)], 2) == CanonicalString(dataArray, 2)
  {
    UnsetAppendKey(dataArray, value);
  }

  lemma {:induction false} UnsetAppendKey(data: seq<Entry>, value: string)
    ensures Unset(data + [Entry(GatewayReferenceKey, value)], GatewayReferenceKey) == Unset(data, GatewayReferenceKey)
  {
    if data == [] {
      assert [Entry(GatewayReferenceKey, value)][1..] == [];
    } else {
      assert (data + [Entry(GatewayReferenceKey, value)])[1..] == data[1..] + [Entry(GatewayReferenceKey, value)];
      UnsetAppendKey(data[1..], value);
    }
  }

  /** When no two keys differ only in case, the canonical string does not
      depend on the order in which the fields arrive. */
  lemma CanonicalStringOrderFree(d1: seq<Entry>, d2: seq<Entry>, eventType: int)
    requires multiset(d1) == multiset(d2)
    requires KeysDistinctIgnoringCase(multiset(d1))
    ensures CanonicalString(d1, eventType) == CanonicalString(d2, eventType)
  {
    UnsetPermutation(d1, d2, GatewayReferenceKey);
    var c1, c2 := CanonicalEntries(d1, eventType), CanonicalEntries(d2, eventType);
    SortEntriesSorted(if eventType == 2 then Unset(d1, GatewayReferenceKey) else d1);
    SortEntriesSorted(if eventType == 2 then Unset(d2, GatewayReferenceKey) else d2);
    SortedUnique(c1, c2);
  }

  lemma UnsetExample()
    ensures Unset([Entry("b", "2"), Entry(GatewayReferenceKey, "x"), Entry("A", "1")], GatewayReferenceKey)
            == [Entry("b", "2"), Entry("A", "1")]
  {
    var data := [Entry("b", "2"), Entry(GatewayReferenceKey, "x"), Entry("A", "1")];
    assert data[1..][1..][1..] == [];
    assert Unset(data[1..][1..], GatewayReferenceKey) == [Entry("A", "1")];
    assert Unset(data[1..], GatewayReferenceKey) == [Entry("A", "1")];
  }

  lemma SortExample()
    ensures SortEntries([Entry("b", "2"), Entry("A", "1")]) == [Entry("A", "1"), Entry("b", "2")]
  {
    var kept := [Entry("b", "2"), Entry("A", "1")];
    assert kept[..1] == [Entry("b", "2")] && [Entry("b", "2")][..0] == [];
    assert SortEntries([Entry("b", "2")]) == [Entry("b", "2")];
    assert ToLower("A") == "a" && ToLower("b") == "b";
    assert CaseLess("A", "b");
  }

  /** A notification of event type 2 with fields `b`, `GatewayReference`
      and `A`: the reference is dropped and `A` sorts before `b`. */
  lemma CanonicalEntriesExample()
    ensures CanonicalEntries([Entry("b", "2"), Entry(GatewayReferenceKey, "x"), Entry("A", "1")], 2)
            == [Entry("A", "1"), Entry("b", "2")]
  {
    UnsetExample();
    SortExample();
  }

  lemma PairsExample()
    ensures Pairs([Entry("A", "1"), Entry("b", "2")]) == ["A=1", "b=2"]
  {
    assert "A" + "=" + "1" == "A=1" && "b" + "=" + "2" == "b=2";
  }

  /** The same notification written out: "A=1,b=2". */
  lemma CanonicalExample()
    ensures CanonicalString([Entry("b", "2"), Entry(GatewayReferenceKey, "x"), Entry("A", "1")], 2) == "A=1,b=2"
  {
    CanonicalEntriesExample();
    PairsExample();
    ImplodeExample();
  }

  lemma ImplodeExample()
    ensures Implode(",", ["A=1", "b=2"]) == "A=1,b=2"
  {
    assert ["A=1", "b=2"][1..] == ["b=2"];
    assert "A=1" + "," + "b=2" == "A=1,b=2";
  }
}
