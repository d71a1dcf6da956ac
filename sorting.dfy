/** `Array.prototype.sort` with a numeric comparator `(a, b) => key(a) - key(b)`.
    JavaScript's sort is stable, so its result is the stable sort of the input,
    which is what this insertion sort computes. */
module Sorting {

  ghost predicate SortedBy<T>(s: seq<T>, key: T -> int) {
    forall i, j :: 0 <= i < j < |s| ==> key(s[i]) <= key(s[j])
  }

  ghost predicate StrictlySortedBy<T>(s: seq<T>, key: T -> int) {
    forall i, j :: 0 <= i < j < |s| ==> key(s[i]) < key(s[j])
  }

  ghost predicate DistinctKeys<T>(s: seq<T>, key: T -> int) {
    forall i, j :: 0 <= i < j < |s| ==> key(s[i]) != key(s[j])
  }

  function Keys<T>(s: seq<T>, key: T -> int): set<int> {
    set i | 0 <= i < |s| :: key(s[i])
  }

  /** Inserts `x` before the first element whose key is not smaller. */
  function Insert<T>(x: T, t: seq<T>, key: T -> int): (r: seq<T>)
    requires SortedBy(t, key)
    ensures multiset(r) == multiset(t) + multiset{x}
    ensures |r| == |t| + 1
    ensures SortedBy(r, key)
    ensures StrictlySortedBy(t, key) && key(x) !in Keys(t, key) ==> StrictlySortedBy(r, key)
    ensures Keys(r, key) == Keys(t, key) + {key(x)}
  {
    if t == [] || key(x) <= key(t[0]) then
      InsertFront(x, t, key);
      [x] + t
    else
      var rest := Insert(x, t[1..], key);
      assert t == [t[0]] + t[1..];
      InsertHead(t[0], x, t, rest, key);
      [t[0]] + rest
  }

  /** The keys of a sequence with a new head. */
  lemma KeysCons<T>(h: T, t: seq<T>, key: T -> int)
    ensures Keys([h] + t, key) == Keys(t, key) + {key(h)}
  {
    var r := [h] + t;
    forall k | k in Keys(r, key) ensures k in Keys(t, key) + {key(h)} {
      var i :| 0 <= i < |r| && key(r[i]) == k;
      if i > 0 { assert r[i] == t[i - 1]; }
    }
    forall k | k in Keys(t, key) ensures k in Keys(r, key) {
      var i :| 0 <= i < |t| && key(t[i]) == k;
      assert r[i + 1] == t[i];
    }
    assert key(r[0]) == key(h);
  }

  /** A head no larger than every key keeps a sorted sequence sorted. */
  lemma ConsSorted<T>(h: T, t: seq<T>, key: T -> int)
    requires SortedBy(t, key)
    requires forall j :: 0 <= j < |t| ==> key(h) <= key(t[j])
    ensures SortedBy([h] + t, key)
  {
    var r := [h] + t;
    forall i, j | 0 <= i < j < |r| ensures key(r[i]) <= key(r[j]) {
      assert r[j] == t[j - 1];
      if i > 0 { assert r[i] == t[i - 1]; }
    }
  }

  /** ... and a head smaller than every key keeps it strictly sorted. */
  lemma ConsStrictlySorted<T>(h: T, t: seq<T>, key: T -> int)
    requires StrictlySortedBy(t, key)
    requires forall j :: 0 <= j < |t| ==> key(h) < key(t[j])
    ensures StrictlySortedBy([h] + t, key)
  {
    var r := [h] + t;
    forall i, j | 0 <= i < j < |r| ensures key(r[i]) < key(r[j]) {
      assert r[j] == t[j - 1];
      if i > 0 { assert r[i] == t[i - 1]; }
    }
  }

  lemma SortedTail<T>(t: seq<T>, key: T -> int)
    requires t != []
    ensures SortedBy(t, key) ==> SortedBy(t[1..], key)
    ensures StrictlySortedBy(t, key) ==> StrictlySortedBy(t[1..], key)
    ensures SortedBy(t, key) ==> forall j :: 0 <= j < |t[1..]| ==> key(t[0]) <= key(t[1..][j])
    ensures StrictlySortedBy(t, key) ==> forall j :: 0 <= j < |t[1..]| ==> key(t[0]) < key(t[1..][j])
  {
    forall i | 0 <= i < |t[1..]| ensures t[1..][i] == t[i + 1] { }
  }

  /** The base case of `Insert`: `x` goes in front. */
  lemma InsertFront<T>(x: T, t: seq<T>, key: T -> int)
    requires SortedBy(t, key)
    requires t == [] || key(x) <= key(t[0])
    ensures SortedBy([x] + t, key)
    ensures StrictlySortedBy(t, key) && key(x) !in Keys(t, key) ==> StrictlySortedBy([x] + t, key)
    ensures Keys([x] + t, key) == Keys(t, key) + {key(x)}
  {
    KeysCons(x, t, key);
    forall j | 0 <= j < |t| ensures key(x) <= key(t[j]) {
      assert key(t[0]) <= key(t[j]);
    }
    ConsSorted(x, t, key);
    if StrictlySortedBy(t, key) && key(x) !in Keys(t, key) {
      forall j | 0 <= j < |t| ensures key(x) < key(t[j]) {
        assert key(t[j]) in Keys(t, key);
      }
      ConsStrictlySorted(x, t, key);
    }
  }

  /** The inductive step of `Insert`: putting back the head in front. */
  lemma InsertHead<T>(h: T, x: T, t: seq<T>, rest: seq<T>, key: T -> int)
    requires t != [] && t[0] == h && SortedBy(t, key) && key(h) < key(x)
    requires multiset(rest) == multiset(t[1..]) + multiset{x}
    requires SortedBy(rest, key)
    requires StrictlySortedBy(t[1..], key) && key(x) !in Keys(t[1..], key) ==> StrictlySortedBy(rest, key)
    requires Keys(rest, key) == Keys(t[1..], key) + {key(x)}
    ensures SortedBy([h] + rest, key)
    ensures StrictlySortedBy(t, key) && key(x) !in Keys(t, key) ==> StrictlySortedBy([h] + rest, key)
    ensures Keys([h] + rest, key) == Keys(t, key) + {key(x)}
  {
    SortedTail(t, key);
    assert t == [h] + t[1..];
    KeysCons(h, t[1..], key);
    KeysCons(h, rest, key);
    forall j | 0 <= j < |rest| ensures key(h) <= key(rest[j]) {
      assert key(rest[j]) in Keys(rest, key);
      if key(rest[j]) != key(x) {
        var k :| 0 <= k < |t[1..]| && key(t[1..][k]) == key(rest[j]);
      }
    }
    ConsSorted(h, rest, key);
    if StrictlySortedBy(t, key) && key(x) !in Keys(t, key) {
      forall j | 0 <= j < |rest| ensures key(h) < key(rest[j]) {
        assert key(rest[j]) in Keys(rest, key);
        if key(rest[j]) != key(x) {
          var k :| 0 <= k < |t[1..]| && key(t[1..][k]) == key(rest[j]);
        }
      }
      ConsStrictlySorted(h, rest, key);
    }
  }

  /** Stable sort of `s` by ascending `key`: a permutation of `s` in key order,
      strictly ordered when the keys are distinct. */
  function SortBy<T>(s: seq<T>, key: T -> int): (r: seq<T>)
    ensures multiset(r) == multiset(s)
    ensures |r| == |s|
    ensures SortedBy(r, key)
    ensures Keys(r, key) == Keys(s, key)
    ensures DistinctKeys(s, key) ==> StrictlySortedBy(r, key)
  {
    if s == [] then []
    else
      var rest := SortBy(s[1..], key);
      assert s == [s[0]] + s[1..];
      SortStep(s, rest, key);
      Insert(s[0], rest, key)
  }

  lemma SortStep<T>(s: seq<T>, rest: seq<T>, key: T -> int)
    requires s != []
    requires Keys(rest, key) == Keys(s[1..], key)
    requires DistinctKeys(s[1..], key) ==> StrictlySortedBy(rest, key)
    ensures Keys(s, key) == Keys(s[1..], key) + {key(s[0])}
    ensures DistinctKeys(s, key) ==> StrictlySortedBy(rest, key) && key(s[0]) !in Keys(rest, key)
  {
    assert Keys(s, key) == Keys(s[1..], key) + {key(s[0])} by {
      forall k | k in Keys(s, key) ensures k in Keys(s[1..], key) + {key(s[0])} {
        var i :| 0 <= i < |s| && key(s[i]) == k;
        if i > 0 { assert s[1..][i - 1] == s[i]; }
      }
      forall k | k in Keys(s[1..], key) ensures k in Keys(s, key) {
        var i :| 0 <= i < |s[1..]| && key(s[1..][i]) == k;
        assert s[i + 1] == s[1..][i];
      }
    }
    if DistinctKeys(s, key) {
      assert DistinctKeys(s[1..], key) by {
        forall i, j | 0 <= i < j < |s[1..]| ensures key(s[1..][i]) != key(s[1..][j]) {
          assert s[1..][i] == s[i + 1] && s[1..][j] == s[j + 1];
        }
      }
      forall i | 0 <= i < |s[1..]| ensures key(s[1..][i]) != key(s[0]) {
        assert s[1..][i] == s[i + 1];
      }
    }
  }

  lemma StrictlySortedTail<T>(s: seq<T>, key: T -> int)
    requires s != [] && StrictlySortedBy(s, key)
    ensures StrictlySortedBy(s[1..], key)
    ensures |s| > 1 ==> key(s[0]) < key(s[1..][0])
  {
    forall i, j | 0 <= i < j < |s[1..]| ensures key(s[1..][i]) < key(s[1..][j]) {
      assert s[1..][i] == s[i + 1] && s[1..][j] == s[j + 1];
    }
  }

  /** Sorting a sequence whose keys are already strictly ascending changes nothing. */
  lemma {:induction false} SortBySorted<T>(s: seq<T>, key: T -> int)
    requires StrictlySortedBy(s, key)
    ensures SortBy(s, key) == s
  {
    if s != [] {
      StrictlySortedTail(s, key);
      SortBySorted(s[1..], key);
      var t := s[1..];
      assert Insert(s[0], t, key) == [s[0]] + t by {
        assert t == [] || key(s[0]) <= key(t[0]);
      }
      assert [s[0]] + t == s;
    }
  }

  lemma DistinctKeysCons<T>(h: T, t: seq<T>, key: T -> int)
    ensures DistinctKeys([h] + t, key) <==> DistinctKeys(t, key) && key(h) !in Keys(t, key)
  {
    var s := [h] + t;
    if DistinctKeys(s, key) {
      forall i, j | 0 <= i < j < |t| ensures key(t[i]) != key(t[j]) {
        assert t[i] == s[i + 1] && t[j] == s[j + 1];
      }
      forall i | 0 <= i < |t| ensures key(t[i]) != key(h) {
        assert t[i] == s[i + 1] && s[0] == h;
      }
    }
    if DistinctKeys(t, key) && key(h) !in Keys(t, key) {
      forall i, j | 0 <= i < j < |s| ensures key(s[i]) != key(s[j]) {
        assert s[j] == t[j - 1];
        if i > 0 { assert s[i] == t[i - 1]; }
        else { assert key(t[j - 1]) in Keys(t, key); }
      }
    }
  }
}
