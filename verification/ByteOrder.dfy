/** The order of sort.Strings: by bytes, the shorter text first where one begins the other. */
module ByteOrder {
  import opened Numerals

  predicate Less(a: bytes, b: bytes) {
    if b == [] then false
    else if a == [] then true
    else a[0] < b[0] || (a[0] == b[0] && Less(a[1..], b[1..]))
  }

  lemma {:induction false} LessIsTotal(a: bytes, b: bytes)
    ensures Less(a, b) || a == b || Less(b, a)
    ensures !(Less(a, b) && Less(b, a)) && !Less(a, a)
  {
    if a != [] && b != [] && a[0] == b[0] {
      LessIsTotal(a[1..], b[1..]);
      assert a == [a[0]] + a[1..] && b == [b[0]] + b[1..];
    }
    if a != [] {
      LessIsTotal(a[1..], a[1..]);
    }
  }

  lemma {:induction false} LessIsTransitive(a: bytes, b: bytes, c: bytes)
    requires Less(a, b) && Less(b, c)
    ensures Less(a, c)
  {
    if a != [] && a[0] == b[0] && b[0] == c[0] {
      LessIsTransitive(a[1..], b[1..], c[1..]);
    }
  }

  predicate Ascending(keys: seq<bytes>) {
    forall i, j | 0 <= i < j < |keys| :: Less(keys[i], keys[j])
  }

  function Elements(keys: seq<bytes>): set<bytes> {
    set k | k in keys
  }

  function Insert(key: bytes, keys: seq<bytes>): (r: seq<bytes>)
    ensures multiset(r) == multiset(keys) + multiset{key}
  {
    if keys == [] then [key]
    else if Less(key, keys[0]) then [key] + keys
    else
      assert keys == [keys[0]] + keys[1..];
      [keys[0]] + Insert(key, keys[1..])
  }

  lemma InsertElements(key: bytes, keys: seq<bytes>)
    ensures Elements(Insert(key, keys)) == Elements(keys) + {key}
  {
    forall k
      ensures k in Insert(key, keys) <==> k in keys || k == key
    {
      assert k in Insert(key, keys) <==> k in multiset(Insert(key, keys));
      assert k in keys <==> k in multiset(keys);
    }
  }

  lemma {:induction false} InsertAscending(key: bytes, keys: seq<bytes>)
    requires Ascending(keys) && key !in keys
    ensures Ascending(Insert(key, keys))
  {
    if keys == [] {
    } else if Less(key, keys[0]) {
      forall j | 0 <= j < |keys|
        ensures Less(key, keys[j])
      {
        if j > 0 { LessIsTransitive(key, keys[0], keys[j]); }
      }
    } else {
      LessIsTotal(key, keys[0]);
      InsertAscending(key, keys[1..]);
      var rest := Insert(key, keys[1..]);
      InsertElements(key, keys[1..]);
      forall j | 0 <= j < |rest|
        ensures Less(keys[0], rest[j])
      {
        assert rest[j] in Elements(rest);
      }
    }
  }

  /** sort.Strings on pairwise different keys. */
  function SortKeys(keys: seq<bytes>): seq<bytes> {
    if keys == [] then [] else Insert(keys[0], SortKeys(keys[1..]))
  }

  predicate Distinct(keys: seq<bytes>) {
    forall i, j | 0 <= i < j < |keys| :: keys[i] != keys[j]
  }

  lemma {:induction false} SortKeysSorts(keys: seq<bytes>)
    requires Distinct(keys)
    ensures Ascending(SortKeys(keys)) && Elements(SortKeys(keys)) == Elements(keys)
  {
    if keys != [] {
      SortKeysSorts(keys[1..]);
      var rest := SortKeys(keys[1..]);
      assert Elements(rest) == Elements(keys[1..]);
      assert keys[0] !in keys[1..];
      hide Ascending, Distinct;
      assert keys[0] !in Elements(rest);
      InsertAscending(keys[0], rest);
      InsertElements(keys[0], rest);
      HeadElements(keys);
    }
  }

  lemma HeadElements(keys: seq<bytes>)
    requires keys != []
    ensures Elements(keys) == Elements(keys[1..]) + {keys[0]}
  {
    assert keys == [keys[0]] + keys[1..];
  }

  /** A set has one ascending enumeration. */
  lemma {:induction false} AscendingIsUnique(a: seq<bytes>, b: seq<bytes>)
    requires Ascending(a) && Ascending(b) && Elements(a) == Elements(b)
    ensures a == b
  {
    if a == [] {
      AscendingCount(b);
    } else {
      assert a[0] in Elements(b) && b != [];
      assert b[0] in Elements(a);
      LeastIsFirst(a, b[0]);
      LeastIsFirst(b, a[0]);
      LessIsTotal(a[0], b[0]);
      TailElements(a);
      TailElements(b);
      AscendingIsUnique(a[1..], b[1..]);
      assert a == [a[0]] + a[1..] && b == [b[0]] + b[1..];
    }
  }

  lemma LeastIsFirst(a: seq<bytes>, k: bytes)
    requires Ascending(a) && k in a
    ensures k == a[0] || Less(a[0], k)
  {
  }

  lemma TailElements(a: seq<bytes>)
    requires Ascending(a) && a != []
    ensures Ascending(a[1..]) && Elements(a[1..]) == Elements(a) - {a[0]}
  {
    LessIsTotal(a[0], a[0]);
    assert forall k :: k in a <==> k == a[0] || k in a[1..];
    assert a[0] !in a[1..];
  }

  ghost function Ordered(pool: set<bytes>): (keys: seq<bytes>)
    ensures Ascending(keys) && Elements(keys) == pool
  {
    if pool == {} then []
    else
      var key :| key in pool;
      var rest := Ordered(pool - {key});
      assert key !in Elements(rest);
      InsertAscending(key, rest);
      InsertElements(key, rest);
      Insert(key, rest)
  }

  lemma {:induction false} AscendingCount(keys: seq<bytes>)
    requires Ascending(keys)
    ensures |Elements(keys)| == |keys|
  {
    if keys != [] {
      TailElements(keys);
      AscendingCount(keys[1..]);
      assert keys[0] in Elements(keys);
    }
  }
}
