/** The label ordering behind `AllPlants`, `AllBiomes` and `AllCavePlants`
    (`orderby label`): a stable sort by an ordinal, character-by-character
    comparison of labels. */
module LabelOrder {

  /** `a` sorts no later than `b`: lexicographic on characters, a prefix first. */
  predicate LabelLeq(a: string, b: string)
    decreases |a|
  {
    |a| == 0 || (|b| > 0 && (a[0] < b[0] || (a[0] == b[0] && LabelLeq(a[1..], b[1..]))))
  }

  lemma {:induction false} LabelLeqTotal(a: string, b: string)
    ensures LabelLeq(a, b) || LabelLeq(b, a)
    decreases |a|
  {
    if |a| > 0 && |b| > 0 && a[0] == b[0] {
      LabelLeqTotal(a[1..], b[1..]);
    }
  }

  lemma {:induction false} LabelLeqTransitive(a: string, b: string, c: string)
    requires LabelLeq(a, b) && LabelLeq(b, c)
    ensures LabelLeq(a, c)
    decreases |a|
  {
    if |a| > 0 && a[0] == b[0] && b[0] == c[0] {
      LabelLeqTransitive(a[1..], b[1..], c[1..]);
    }
  }

  /** Labels never decrease along `s`. */
  predicate SortedBy<T>(s: seq<T>, key: T -> string) {
    forall i, j | 0 <= i < j < |s| :: LabelLeq(key(s[i]), key(s[j]))
  }

  /** Puts `x` in front of the first element it sorts no later than. */
  function Insert<T>(x: T, s: seq<T>, key: T -> string): (r: seq<T>)
    requires SortedBy(s, key)
    ensures SortedBy(r, key)
    ensures multiset(r) == multiset(s) + multiset{x}
  {
    if |s| == 0 then [x]
    else if LabelLeq(key(x), key(s[0])) then
      assert forall j | 0 <= j < |s| :: LabelLeq(key(x), key(s[j])) by {
        forall j | 0 <= j < |s|
          ensures LabelLeq(key(x), key(s[j]))
        {
          if j > 0 {
            LabelLeqTransitive(key(x), key(s[0]), key(s[j]));
          }
        }
      }
      [x] + s
    else
      var rest := Insert(x, s[1..], key);
      LabelLeqTotal(key(x), key(s[0]));
      assert forall j | 0 <= j < |rest| :: LabelLeq(key(s[0]), key(rest[j])) by {
        forall j | 0 <= j < |rest|
          ensures LabelLeq(key(s[0]), key(rest[j]))
        {
          assert rest[j] in multiset(rest);
          if rest[j] != x {
            assert rest[j] in multiset(s[1..]);
            var k :| 0 <= k < |s[1..]| && s[1..][k] == rest[j];
            assert s[k + 1] == rest[j];
          }
        }
      }
      assert s == [s[0]] + s[1..];
      [s[0]] + rest
  }

  /** Insertion sort: the result is ordered by label and holds exactly the
      elements of `s`. Elements with equal labels keep their relative order,
      as LINQ's `OrderBy` does. */
  function SortByLabel<T>(s: seq<T>, key: T -> string): (r: seq<T>)
    ensures SortedBy(r, key)
    ensures multiset(r) == multiset(s)
  {
    if |s| == 0 then []
    else
      assert s == [s[0]] + s[1..];
      Insert(s[0], SortByLabel(s[1..], key), key)
  }

  /** Sorting keeps exactly the elements it was given. */
  lemma SortKeepsMembers<T>(s: seq<T>, key: T -> string, x: T)
    ensures x in SortByLabel(s, key) <==> x in s
  {
    var r := SortByLabel(s, key);
    assert x in r <==> x in multiset(r);
    assert x in s <==> x in multiset(s);
  }

  /** No two elements of `s` share a name. */
  predicate NamesDistinct<T>(s: seq<T>, name: T -> string) {
    forall i, j | 0 <= i < j < |s| :: name(s[i]) != name(s[j])
  }

  lemma NamesDistinctCons<T>(y: T, rest: seq<T>, name: T -> string)
    requires NamesDistinct(rest, name)
    requires forall z | z in rest :: name(z) != name(y)
    ensures NamesDistinct([y] + rest, name)
  {
    var r := [y] + rest;
    forall i, j | 0 <= i < j < |r|
      ensures name(r[i]) != name(r[j])
    {
      if i == 0 {
        assert r[j] == rest[j - 1];
      } else {
        assert r[i] == rest[i - 1] && r[j] == rest[j - 1];
      }
    }
  }

  /** Sorting a sequence whose elements have pairwise different names gives
      a sequence whose elements have pairwise different names. */
  lemma {:induction false} SortKeepsNamesDistinct<T>(s: seq<T>, key: T -> string, name: T -> string)
    requires NamesDistinct(s, name)
    ensures NamesDistinct(SortByLabel(s, key), name)
    decreases |s|
  {
    if |s| > 0 {
      var tail := SortByLabel(s[1..], key);
      SortKeepsNamesDistinct(s[1..], key, name);
      forall y | y in tail
        ensures name(y) != name(s[0])
      {
        SortKeepsMembers(s[1..], key, y);
        var k :| 0 <= k < |s[1..]| && s[1..][k] == y;
        assert s[k + 1] == y;
      }
      InsertKeepsNamesDistinct(s[0], tail, key, name);
    }
  }

  lemma {:induction false} InsertKeepsNamesDistinct<T>(x: T, s: seq<T>, key: T -> string, name: T -> string)
    requires SortedBy(s, key)
    requires NamesDistinct(s, name)
    requires forall y | y in s :: name(y) != name(x)
    ensures NamesDistinct(Insert(x, s, key), name)
    decreases |s|
  {
    if |s| == 0 {
    } else if LabelLeq(key(x), key(s[0])) {
      NamesDistinctCons(x, s, name);
    } else {
      var rest := Insert(x, s[1..], key);
      assert NamesDistinct(s[1..], name) by {
        forall i, j | 0 <= i < j < |s[1..]|
          ensures name(s[1..][i]) != name(s[1..][j])
        {
          assert s[1..][i] == s[i + 1] && s[1..][j] == s[j + 1];
        }
      }
      assert forall y | y in s[1..] :: name(y) != name(x) by {
        forall y | y in s[1..] ensures name(y) != name(x) {
          assert y in s;
        }
      }
      InsertKeepsNamesDistinct(x, s[1..], key, name);
      forall y | y in rest
        ensures name(y) != name(s[0])
      {
        assert y in multiset(rest);
        if y != x {
          assert y in multiset(s[1..]);
          var k :| 0 <= k < |s[1..]| && s[1..][k] == y;
          assert s[k + 1] == y;
        }
      }
      NamesDistinctCons(s[0], rest, name);
    }
  }
}
