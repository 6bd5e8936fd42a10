/** The two pieces of Go's standard library the command-line logic relies
    on: `strings.Split` with a one-character separator (and its inverse
    `strings.Join`), and `sort.Strings`, which orders strings byte by byte.
    Strings here are sequences of characters, compared by code point; for
    valid UTF-8 that is the same order as comparing the encoded bytes. */
module Strings {

  /** `strings.Join(parts, string(sep))`. */
  function Join(parts: seq<string>, sep: char): string
  {
    if |parts| == 0 then ""
    else if |parts| == 1 then parts[0]
    else parts[0] + [sep] + Join(parts[1..], sep)
  }

  /** `strings.Split(s, string(sep))`: the pieces between separators, so
      there is always one piece more than there are separators, and the
      empty string splits to `[""]`. */
  function Split(s: string, sep: char): (r: seq<string>)
    ensures |r| > 0
    ensures forall i :: 0 <= i < |r| ==> sep !in r[i]
    ensures Join(r, sep) == s
    decreases |s|
  {
    if |s| == 0 then [""]
    else
      var rest := Split(s[1..], sep);
      if s[0] == sep then
        assert s == [sep] + s[1..];
        [""] + rest
      else
        var r := [[s[0]] + rest[0]] + rest[1..];
        assert Join(r, sep) == s by {
          if |rest| == 1 {
            assert s == [s[0]] + Join(rest, sep);
          } else {
            assert Join(rest, sep) == rest[0] + [sep] + Join(rest[1..], sep);
            assert r[1..] == rest[1..];
          }
        }
        r
  }

  /** Splitting text that starts with a separator-free piece `p` glues `p`
      to the first piece of the rest. */
  lemma {:induction false} SplitPrefix(p: string, t: string, sep: char)
    requires sep !in p
    ensures Split(p + t, sep) == [p + Split(t, sep)[0]] + Split(t, sep)[1..]
    decreases |p|
  {
    if |p| > 0 {
      assert p[0] in p;
      assert (p + t)[0] == p[0] != sep;
      assert (p + t)[1..] == p[1..] + t;
      var rest := Split(p[1..] + t, sep);
      assert Split(p + t, sep) == [[p[0]] + rest[0]] + rest[1..];
      SplitPrefix(p[1..], t, sep);
      assert [p[0]] + (p[1..] + Split(t, sep)[0]) == p + Split(t, sep)[0];
    } else {
      assert p + t == t;
      var u := Split(t, sep);
      assert p + u[0] == u[0];
      assert u == [u[0]] + u[1..];
    }
  }

  /** Split undoes Join when no part holds the separator. */
  lemma {:induction false} SplitJoin(parts: seq<string>, sep: char)
    requires |parts| > 0
    requires forall i :: 0 <= i < |parts| ==> sep !in parts[i]
    ensures Split(Join(parts, sep), sep) == parts
    decreases |parts|
  {
    if |parts| == 1 {
      SplitPrefix(parts[0], "", sep);
      assert parts[0] + "" == parts[0];
    } else {
      var t := Join(parts[1..], sep);
      assert Join(parts, sep) == parts[0] + ([sep] + t);
      SplitJoin(parts[1..], sep);
      var u := Split([sep] + t, sep);
      assert u == [""] + parts[1..] by {
        assert ([sep] + t)[1..] == t;
      }
      SplitPrefix(parts[0], [sep] + t, sep);
      assert Split(Join(parts, sep), sep) == [parts[0] + u[0]] + u[1..];
      assert parts[0] + u[0] == parts[0];
      assert u[1..] == parts[1..];
      assert parts == [parts[0]] + parts[1..];
    }
  }

  /** Lexicographic code-point order, which is the same as the UTF-8 byte
      order `sort.Strings` uses: `a` comes first
      when it is a prefix of `b` or is smaller at the first difference. */
  predicate LexLe(a: string, b: string)
    decreases |a|
  {
    |a| == 0 || (|b| > 0 && (a[0] < b[0] || (a[0] == b[0] && LexLe(a[1..], b[1..]))))
  }

  lemma {:induction false} LexLeTotal(a: string, b: string)
    ensures LexLe(a, b) || LexLe(b, a)
    decreases |a|
  {
    if |a| > 0 && |b| > 0 && a[0] == b[0] {
      LexLeTotal(a[1..], b[1..]);
    }
  }

  lemma {:induction false} LexLeAntisymmetric(a: string, b: string)
    requires LexLe(a, b) && LexLe(b, a)
    ensures a == b
    decreases |a|
  {
    if |a| > 0 {
      LexLeAntisymmetric(a[1..], b[1..]);
      assert a == [a[0]] + a[1..] && b == [b[0]] + b[1..];
    }
  }

  lemma {:induction false} LexLeTransitive(a: string, b: string, c: string)
    requires LexLe(a, b) && LexLe(b, c)
    ensures LexLe(a, c)
    decreases |a|
  {
    if |a| > 0 && a[0] == b[0] && b[0] == c[0] {
      LexLeTransitive(a[1..], b[1..], c[1..]);
    }
  }

  predicate Sorted(s: seq<string>)
  {
    forall i, j :: 0 <= i < j < |s| ==> LexLe(s[i], s[j])
  }

  predicate Distinct(s: seq<string>)
  {
    forall i, j :: 0 <= i < j < |s| ==> s[i] != s[j]
  }

  lemma LexLeReflexive(a: string)
    ensures LexLe(a, a)
  {
  }

  /** `x` may go in front of a sorted sequence whose first element does not
      precede it. */
  lemma SortedCons(x: string, s: seq<string>)
    requires Sorted(s)
    requires |s| == 0 || LexLe(x, s[0])
    ensures Sorted([x] + s)
  {
    forall j | 0 <= j < |s|
      ensures LexLe(x, s[j])
    {
      if j == 0 {
      } else {
        LexLeTransitive(x, s[0], s[j]);
      }
    }
  }

  /** Insert `x` into sorted `s`, before the first element it does not
      follow. */
  function Insert(x: string, s: seq<string>): (r: seq<string>)
    requires Sorted(s)
    ensures Sorted(r)
    ensures multiset(r) == multiset(s) + multiset{x}
    ensures forall y :: y in r <==> y == x || y in s
    ensures x !in s && Distinct(s) ==> Distinct(r)
    decreases |s|
  {
    if |s| == 0 then [x]
    else if LexLe(x, s[0]) then
      SortedCons(x, s);
      [x] + s
    else
      assert s == [s[0]] + s[1..];
      var r' := Insert(x, s[1..]);
      InsertBehind(x, s, r');
      DistinctCons(s, x, r');
      [s[0]] + r'
  }

  /** Putting back the head of a duplicate-free `s` in front of `r'`, which
      holds `x` and the tail, keeps the result free of duplicates. */
  lemma DistinctCons(s: seq<string>, x: string, r': seq<string>)
    requires |s| > 0 && s == [s[0]] + s[1..]
    requires forall y :: y in r' <==> y == x || y in s[1..]
    requires x !in s && Distinct(s) ==> Distinct(r')
    ensures x !in s && Distinct(s) ==> Distinct([s[0]] + r')
  {
    if x !in s && Distinct(s) {
      forall m | 0 <= m < |s| - 1
        ensures s[1..][m] != s[0]
      {
        assert s[1..][m] == s[m + 1];
      }
      assert s[0] !in r';
    }
  }

  /** When `x` follows the head of sorted `s`, the head may stay in front of
      the insertion of `x` into the tail. */
  lemma InsertBehind(x: string, s: seq<string>, r': seq<string>)
    requires Sorted(s) && |s| > 0 && !LexLe(x, s[0])
    requires Sorted(r')
    requires forall y :: y in r' <==> y == x || y in s[1..]
    ensures Sorted([s[0]] + r')
  {
    LexLeTotal(x, s[0]);
    forall j | 0 <= j < |r'|
      ensures LexLe(s[0], r'[j])
    {
      if r'[j] != x {
        assert r'[j] in s[1..];
        var m :| 0 <= m < |s| - 1 && s[1..][m] == r'[j];
        assert s[m + 1] == r'[j];
      }
    }
  }

  /** `sort.Strings`, as an insertion sort: the result is ordered and is a
      permutation of the input. */
  function Sort(s: seq<string>): (r: seq<string>)
    ensures Sorted(r)
    ensures multiset(r) == multiset(s)
    ensures forall y :: y in r <==> y in s
    ensures Distinct(s) ==> Distinct(r)
    decreases |s|
  {
    if |s| == 0 then []
    else
      assert s == [s[0]] + s[1..];
      Insert(s[0], Sort(s[1..]))
  }

  /** Two strictly ascending sequences with the same elements are equal: a
      sorted listing of a set of names is unique. */
  lemma {:induction false} SortedUnique(a: seq<string>, b: seq<string>)
    requires Sorted(a) && Distinct(a) && Sorted(b) && Distinct(b)
    requires forall x :: x in a <==> x in b
    ensures a == b
    decreases |a|
  {
    NonemptyMembers(a, b);
    NonemptyMembers(b, a);
    if 0 < |a| {
      assert a[0] in a && b[0] in b;
      assert LexLe(a[0], b[0]) by {
        var j :| 0 <= j < |a| && a[j] == b[0];
        LexLeReflexive(a[0]);
      }
      assert LexLe(b[0], a[0]) by {
        var j :| 0 <= j < |b| && b[j] == a[0];
        LexLeReflexive(b[0]);
      }
      LexLeAntisymmetric(a[0], b[0]);
      TailMembers(a, b);
      TailMembers(b, a);
      SortedUnique(a[1..], b[1..]);
      assert a == [a[0]] + a[1..] && b == [b[0]] + b[1..];
    }
  }

  /** Lists that start with the same element, the first of them without
      duplicates: whatever the tail of the first holds, the tail of the
      second holds too, provided the second holds every element of the
      first. */
  lemma TailMembers(a: seq<string>, b: seq<string>)
    requires Distinct(a) && 0 < |a| && 0 < |b| && a[0] == b[0]
    requires forall x :: x in a ==> x in b
    ensures forall x :: x in a[1..] ==> x in b[1..]
  {
    forall x | x in a[1..]
      ensures x in b[1..]
    {
      var j :| 0 <= j < |a| - 1 && a[1..][j] == x;
      assert a[j + 1] == x && 0 < j + 1;
      assert x in b;
      var k :| 0 <= k < |b| && b[k] == x;
      assert b[1..][k - 1] == x;
    }
  }

  /** A list whose elements all occur in another is empty if that one is. */
  lemma NonemptyMembers(a: seq<string>, b: seq<string>)
    requires forall x :: x in a ==> x in b
    ensures 0 < |a| ==> 0 < |b|
  {
    if 0 < |a| {
      assert a[0] in a;
    }
  }
}
