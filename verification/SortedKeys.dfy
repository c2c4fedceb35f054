/** Sorting the keys of a dict: `sorted` on texts, and why its result depends on the set of keys
    only. */
module SortedKeys {

  /** Python's order on texts: code point by code point, a prefix first. */
  predicate Less(a: string, b: string) {
    b != [] && (a == [] || a[0] < b[0] || (a[0] == b[0] && Less(a[1..], b[1..])))
  }

  predicate Increasing(s: seq<string>) {
    forall i, j :: 0 <= i < j < |s| ==> Less(s[i], s[j])
  }

  lemma {:induction false} LessIsTotal(a: string, b: string)
    ensures Less(a, b) || Less(b, a) || a == b
    ensures !(Less(a, b) && Less(b, a)) && !Less(a, a)
  {
    if a != [] {
      LessIsTotal(a[1..], a[1..]);
      if b != [] && a[0] == b[0] {
        LessIsTotal(a[1..], b[1..]);
        assert a == [a[0]] + a[1..] && b == [b[0]] + b[1..];
      }
    }
  }

  /** The texts agree before `i`, where the first one ends or has the lower character. */
  predicate DiffersAt(a: string, b: string, i: nat) {
    i <= |a| && i < |b| && a[..i] == b[..i] && (i == |a| || a[i] < b[i])
  }

  lemma StartAlike(a: string, b: string, i: nat)
    ensures DiffersAt(a, b, i) && i > 0 ==> a != [] && b != [] && a[0] == b[0]
  {
    if DiffersAt(a, b, i) && i > 0 {
      assert a[..i][0] == a[0] && b[..i][0] == b[0];
    }
  }

  /** What the order means: the first difference decides, and a text comes before its continuations. */
  lemma {:induction false} LessMeans(a: string, b: string)
    ensures Less(a, b) <==> exists i: nat :: DiffersAt(a, b, i)
  {
    if a == [] || b == [] || a[0] != b[0] {
      assert b != [] && (a == [] || a[0] < b[0]) ==> DiffersAt(a, b, 0);
      forall i: nat | DiffersAt(a, b, i)
        ensures i == 0
      {
        StartAlike(a, b, i);
      }
    } else {
      LessMeans(a[1..], b[1..]);
      forall i: nat | i < |a|
        ensures DiffersAt(a[1..], b[1..], i) <==> DiffersAt(a, b, i + 1)
      {
        DiffersOneLater(a, b, i);
      }
      if i: nat :| DiffersAt(a, b, i) {
        assert i > 0;
        assert DiffersAt(a[1..], b[1..], i - 1);
      }
    }
  }

  lemma DiffersOneLater(a: string, b: string, i: nat)
    requires a != [] && b != [] && a[0] == b[0]
    ensures DiffersAt(a[1..], b[1..], i) <==> DiffersAt(a, b, i + 1)
  {
    if i + 1 <= |a| && i + 1 <= |b| {
      assert a[..i + 1] == [a[0]] + a[1..][..i] && b[..i + 1] == [b[0]] + b[1..][..i];
      assert a[..i + 1][1..] == a[1..][..i] && b[..i + 1][1..] == b[1..][..i];
    }
  }

  /** A common beginning does not matter. */
  lemma {:induction false} LessAfter(prefix: string, a: string, b: string)
    requires Less(a, b)
    ensures Less(prefix + a, prefix + b)
  {
    if prefix == [] {
      assert prefix + a == a && prefix + b == b;
    } else {
      assert (prefix + a)[1..] == prefix[1..] + a && (prefix + b)[1..] == prefix[1..] + b;
      LessAfter(prefix[1..], a, b);
    }
  }

  lemma {:induction false} LessIsTransitive(a: string, b: string, c: string)
    requires Less(a, b) && Less(b, c)
    ensures Less(a, c)
  {
    if a != [] && a[0] == b[0] && b[0] == c[0] {
      LessIsTransitive(a[1..], b[1..], c[1..]);
    }
  }

  /** `sorted`, as insertion into a sorted list. */
  function Insert(x: string, s: seq<string>): seq<string> {
    if s == [] || Less(x, s[0]) then [x] + s else [s[0]] + Insert(x, s[1..])
  }

  function Sort(s: seq<string>): seq<string> {
    if s == [] then [] else Insert(s[0], Sort(s[1..]))
  }

  lemma {:induction false} InsertIsIncreasing(x: string, s: seq<string>)
    requires Increasing(s) && x !in s
    ensures Increasing(Insert(x, s))
    ensures forall y :: y in Insert(x, s) <==> y == x || y in s
  {
    if s != [] {
      if Less(x, s[0]) {
        forall i | 0 < i < |s| {
          LessIsTransitive(x, s[0], s[i]);
        }
      } else {
        LessIsTotal(x, s[0]);
        InsertIsIncreasing(x, s[1..]);
        var rest := Insert(x, s[1..]);
        forall y | y in rest
          ensures Less(s[0], y)
        {
          if y != x {
            var i :| 0 <= i < |s[1..]| && s[1..][i] == y;
            assert y == s[i + 1];
          }
        }
      }
    }
  }

  predicate Distinct(s: seq<string>) {
    forall i, j :: 0 <= i < j < |s| ==> s[i] != s[j]
  }

  lemma DistinctTail(s: seq<string>)
    requires Distinct(s) && s != []
    ensures s[0] !in s[1..] && Distinct(s[1..])
  {
  }

  lemma DistinctCons(x: string, s: seq<string>)
    requires Distinct(s) && x !in s
    ensures Distinct([x] + s)
  {
  }

  /** The sorted list of distinct keys is strictly increasing and holds the same keys. */
  lemma {:induction false} SortIsIncreasing(s: seq<string>)
    requires Distinct(s)
    ensures Increasing(Sort(s))
    ensures forall y :: y in Sort(s) <==> y in s
  {
    if s != [] {
      SortIsIncreasing(s[1..]);
      assert s[0] !in s[1..];
      InsertIsIncreasing(s[0], Sort(s[1..]));
      assert s == [s[0]] + s[1..];
    }
  }

  lemma HeadIsMember(s: seq<string>)
    ensures s != [] ==> s[0] in s
  {
  }

  /** There is only one strictly increasing list of a given set of texts. */
  lemma {:induction false} IncreasingIsUnique(a: seq<string>, b: seq<string>)
    requires Increasing(a) && Increasing(b)
    requires forall x :: x in a <==> x in b
    ensures a == b
  {
    HeadIsMember(a);
    HeadIsMember(b);
    if a != [] && b != [] {
      HeadIsLeast(a, b[0]);
      HeadIsLeast(b, a[0]);
      assert a[0] in b && b[0] in a;
      LessIsTotal(a[0], b[0]);
      LessIsTotal(a[0], a[0]);
      forall x
        ensures x in a[1..] <==> x in a && x != a[0]
        ensures x in b[1..] <==> x in b && x != a[0]
      {
        TailOfIncreasing(a, x);
        TailOfIncreasing(b, x);
      }
      IncreasingIsUnique(a[1..], b[1..]);
    }
  }

  lemma HeadIsLeast(s: seq<string>, x: string)
    requires Increasing(s) && s != [] && x in s
    ensures x == s[0] || Less(s[0], x)
  {
  }

  lemma TailOfIncreasing(s: seq<string>, x: string)
    requires Increasing(s) && s != []
    ensures x in s[1..] <==> x in s && x != s[0]
  {
    if x in s[1..] {
      var i :| 0 <= i < |s[1..]| && s[1..][i] == x;
      assert x == s[i + 1] && Less(s[0], s[i + 1]);
      LessIsTotal(x, x);
    }
  }

  predicate IsLeast(x: string, texts: set<string>) {
    x in texts && forall y :: y in texts ==> y == x || Less(x, y)
  }

  lemma {:induction false} HasLeast(texts: set<string>)
    requires texts != {}
    ensures exists x :: IsLeast(x, texts)
  {
    var any :| any in texts;
    var rest := texts - {any};
    assert texts == rest + {any};
    if rest == {} {
      assert IsLeast(any, texts);
    } else {
      HasLeast(rest);
      var x :| IsLeast(x, rest);
      LessIsTotal(any, x);
      if Less(any, x) {
        forall y | y in rest && y != x {
          LessIsTransitive(any, x, y);
        }
        assert IsLeast(any, texts);
      } else {
        assert IsLeast(x, texts);
      }
    }
  }

  function Filter(s: seq<string>, keep: string -> bool): seq<string> {
    if s == [] then [] else (if keep(s[0]) then [s[0]] else []) + Filter(s[1..], keep)
  }

  lemma {:induction false} FilterIsIncreasing(s: seq<string>, keep: string -> bool)
    requires Increasing(s)
    ensures Increasing(Filter(s, keep))
    ensures forall x :: x in Filter(s, keep) <==> x in s && keep(x)
  {
    if s != [] {
      FilterIsIncreasing(s[1..], keep);
      forall x | x in Filter(s[1..], keep)
        ensures Less(s[0], x)
      {
        assert x in s[1..];
      }
      assert s == [s[0]] + s[1..];
    }
  }
}
