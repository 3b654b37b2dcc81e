/** Options, total orders and the one canonical sorted form that the source's calls to
    `sort` and `sorted` rely on when they promise an order that does not depend on arrival. */
module Orders {

  datatype Option<+T> = None | Some(value: T)

  /** What a comparator must be for a sort to mean anything; ties are allowed. */
  ghost predicate TotalPreorder<T(!new)>(le: (T, T) -> bool) {
    && (forall x, y :: le(x, y) || le(y, x))
    && (forall x, y, z :: le(x, y) && le(y, z) ==> le(x, z))
  }

  ghost predicate TotalOrder<T(!new)>(le: (T, T) -> bool) {
    TotalPreorder(le) && forall x, y :: le(x, y) && le(y, x) ==> x == y
  }

  ghost predicate SortedBy<T>(s: seq<T>, le: (T, T) -> bool) {
    forall i, j :: 0 <= i < j < |s| ==> le(s[i], s[j])
  }

  ghost predicate NoDup<T>(s: seq<T>) {
    forall i, j :: 0 <= i < j < |s| ==> s[i] != s[j]
  }

  ghost function Elems<T>(s: seq<T>): set<T> {
    set x | x in s
  }

  lemma NoDupAppend<T>(s: seq<T>, x: T)
    requires NoDup(s) && x !in s
    ensures NoDup(s + [x])
  {
  }

  function Insert<T>(x: T, s: seq<T>, le: (T, T) -> bool): seq<T> {
    if s == [] then [x]
    else if le(x, s[0]) then [x] + s
    else [s[0]] + Insert(x, s[1..], le)
  }

  /** The stable sort: equal elements keep their order of arrival. */
  function SortBy<T>(s: seq<T>, le: (T, T) -> bool): seq<T> {
    if s == [] then [] else Insert(s[0], SortBy(s[1..], le), le)
  }

  lemma {:induction false} InsertPermutes<T>(x: T, s: seq<T>, le: (T, T) -> bool)
    ensures multiset(Insert(x, s, le)) == multiset{x} + multiset(s)
  {
    if s != [] {
      assert s == [s[0]] + s[1..];
      if !le(x, s[0]) {
        InsertPermutes(x, s[1..], le);
      }
    }
  }

  lemma {:induction false} SortPermutes<T>(s: seq<T>, le: (T, T) -> bool)
    ensures multiset(SortBy(s, le)) == multiset(s)
    ensures |SortBy(s, le)| == |s|
  {
    if s != [] {
      SortPermutes(s[1..], le);
      InsertPermutes(s[0], SortBy(s[1..], le), le);
      assert s == [s[0]] + s[1..];
    }
    assert |multiset(SortBy(s, le))| == |multiset(s)|;
  }

  lemma {:induction false} InsertSorts<T(!new)>(x: T, s: seq<T>, le: (T, T) -> bool)
    requires TotalPreorder(le) && SortedBy(s, le)
    ensures SortedBy(Insert(x, s, le), le)
  {
    if s != [] && !le(x, s[0]) {
      InsertSorts(x, s[1..], le);
      InsertPermutes(x, s[1..], le);
      var t := Insert(x, s[1..], le);
      forall j | 0 <= j < |t| ensures le(s[0], t[j]) {
        assert t[j] in multiset(t);
        assert t[j] == x || t[j] in s[1..];
      }
    }
  }

  lemma {:induction false} SortSorts<T(!new)>(s: seq<T>, le: (T, T) -> bool)
    requires TotalPreorder(le)
    ensures SortedBy(SortBy(s, le), le)
  {
    if s != [] {
      SortSorts(s[1..], le);
      InsertSorts(s[0], SortBy(s[1..], le), le);
    }
  }

  /** The elements that compare alike with `x`, in their order. */
  ghost function Alike<T>(s: seq<T>, x: T, le: (T, T) -> bool): seq<T> {
    if s == [] then [] else (if le(x, s[0]) && le(s[0], x) then [s[0]] else []) + Alike(s[1..], x, le)
  }

  lemma {:induction false} InsertFirst<T(!new)>(y: T, s: seq<T>, x: T, le: (T, T) -> bool)
    requires TotalPreorder(le)
    ensures Alike(Insert(y, s, le), x, le) == (if le(x, y) && le(y, x) then [y] else []) + Alike(s, x, le)
  {
    if s == [] || le(y, s[0]) {
      assert Insert(y, s, le)[1..] == s;
    } else {
      InsertFirst(y, s[1..], x, le);
      assert Insert(y, s, le)[1..] == Insert(y, s[1..], le);
    }
  }

  /** Elements that compare alike stay in their order of arrival. */
  lemma {:induction false} SortStable<T(!new)>(s: seq<T>, x: T, le: (T, T) -> bool)
    requires TotalPreorder(le)
    ensures Alike(SortBy(s, le), x, le) == Alike(s, x, le)
  {
    if s != [] {
      SortStable(s[1..], x, le);
      InsertFirst(s[0], SortBy(s[1..], le), x, le);
    }
  }

  lemma SortedHead<T(!new)>(a: seq<T>, b: seq<T>, le: (T, T) -> bool)
    requires TotalOrder(le) && SortedBy(a, le) && SortedBy(b, le)
    requires multiset(a) == multiset(b) && a != [] && b != []
    ensures a[0] == b[0]
  {
    SameMembers(a, b, a[0]);
    SameMembers(a, b, b[0]);
    assert le(a[0], b[0]) && le(b[0], a[0]);
  }

  lemma TailMultiset<T>(a: seq<T>)
    requires a != []
    ensures multiset(a[1..]) == multiset(a) - multiset{a[0]}
  {
    assert a == [a[0]] + a[1..];
  }

  lemma {:induction false} SortedUnique<T(!new)>(a: seq<T>, b: seq<T>, le: (T, T) -> bool)
    requires TotalOrder(le) && SortedBy(a, le) && SortedBy(b, le)
    requires multiset(a) == multiset(b)
    ensures a == b
  {
    hide TotalOrder;
    assert |multiset(a)| == |a| && |multiset(b)| == |b|;
    if a != [] {
      SortedHead(a, b, le);
      TailMultiset(a);
      TailMultiset(b);
      SortedUnique(a[1..], b[1..], le);
      assert a == [a[0]] + a[1..] && b == [b[0]] + b[1..];
    }
  }

  /** Sorting forgets the order of arrival. */
  lemma SortCanonical<T(!new)>(a: seq<T>, b: seq<T>, le: (T, T) -> bool)
    requires TotalOrder(le) && multiset(a) == multiset(b)
    ensures SortBy(a, le) == SortBy(b, le)
  {
    SortPermutes(a, le);
    SortPermutes(b, le);
    SortSorts(a, le);
    SortSorts(b, le);
    SortedUnique(SortBy(a, le), SortBy(b, le), le);
  }

  lemma SameMembers<T>(a: seq<T>, b: seq<T>, x: T)
    requires multiset(a) == multiset(b)
    ensures x in a <==> x in b
  {
    assert x in a <==> x in multiset(a);
    assert x in b <==> x in multiset(b);
  }

  lemma {:induction false} NoDupMultiset<T>(s: seq<T>)
    requires NoDup(s)
    ensures multiset(s) == multiset(set x | x in s)
  {
    if s != [] {
      var r := s[..|s| - 1];
      NoDupMultiset(r);
      assert s == r + [s[|s| - 1]];
      assert s[|s| - 1] !in r;
      assert (set x | x in s) == (set x | x in r) + {s[|s| - 1]};
    }
  }

  lemma MultisetNoDup<T>(s: seq<T>, x: T, i: int, j: int)
    requires 0 <= i < j < |s| && s[i] == x == s[j]
    ensures multiset(s)[x] >= 2
  {
    assert s == s[..i] + [x] + s[i + 1..j] + [x] + s[j + 1..];
  }

  lemma PermutedNoDup<T>(a: seq<T>, b: seq<T>)
    requires multiset(a) == multiset(b) && NoDup(a)
    ensures NoDup(b)
  {
    NoDupMultiset(a);
    forall i, j | 0 <= i < j < |b| ensures b[i] != b[j] {
      if b[i] == b[j] { MultisetNoDup(b, b[i], i, j); }
    }
  }

  lemma NoDupSize<T>(s: seq<T>)
    requires NoDup(s)
    ensures |set x | x in s| == |s|
  {
    NoDupMultiset(s);
    var S := set x | x in s;
    assert |multiset(S)| == |S|;
  }

  ghost function SetSeq<T>(s: set<T>): seq<T> {
    if s == {} then [] else
      var x :| x in s;
      [x] + SetSeq(s - {x})
  }

  lemma {:induction false} SetSeqLists<T>(s: set<T>)
    ensures NoDup(SetSeq(s)) && forall y :: y in SetSeq(s) <==> y in s
    ensures Elems(SetSeq(s)) == s
    decreases |s|
  {
    if s != {} {
      var r := SetSeq(s);
      var x := r[0];
      assert x in s && r == [x] + SetSeq(s - {x});
      SetSeqLists(s - {x});
    }
    SameElems(SetSeq(s), s);
  }

  lemma SameElems<T>(listed: seq<T>, s: set<T>)
    requires forall y :: y in listed <==> y in s
    ensures Elems(listed) == s
  {
    forall y ensures y in Elems(listed) <==> y in s {
    }
  }

  /** The members of a set in sorted order: what sorting any listing of it gives. */
  ghost function SortedSet<T>(s: set<T>, le: (T, T) -> bool): (r: seq<T>)
    ensures NoDup(r) && Elems(r) == s
  {
    SetSeqLists(s);
    SortedLists(SetSeq(s), le);
    SortBy(SetSeq(s), le)
  }

  lemma SortedLists<T>(listed: seq<T>, le: (T, T) -> bool)
    requires NoDup(listed)
    ensures NoDup(SortBy(listed, le)) && Elems(SortBy(listed, le)) == Elems(listed)
  {
    var r := SortBy(listed, le);
    SortPermutes(listed, le);
    PermutedNoDup(listed, r);
    forall x ensures x in Elems(r) <==> x in Elems(listed) { SameMembers(r, listed, x); }
    assert Elems(r) == Elems(listed);
  }

  lemma SortedListing<T(!new)>(listed: seq<T>, s: set<T>, le: (T, T) -> bool)
    requires TotalOrder(le) && NoDup(listed) && Elems(listed) == s
    ensures SortBy(listed, le) == SortedSet(s, le)
  {
    SetSeqLists(s);
    NoDupMultiset(listed);
    NoDupMultiset(SetSeq(s));
    assert (set x | x in listed) == Elems(SetSeq(s)) == set x | x in SetSeq(s);
    SortCanonical(listed, SetSeq(s), le);
  }

  /** Strings by code point, shorter first on a common prefix: Python's `<=` on `str`.
      JavaScript's default sort compares UTF-16 code units instead, which is the same order
      unless a code point above U+FFFF meets one from U+E000 to U+FFFF. */
  predicate StrLe(a: string, b: string) {
    if a == "" then true
    else if b == "" then false
    else if a[0] == b[0] then StrLe(a[1..], b[1..])
    else a[0] < b[0]
  }

  /** Which way it orders: a prefix first, and otherwise by the first code point that differs. */
  lemma {:induction false} StrLeExactly(a: string, b: string)
    ensures StrLe(a, b) <==> a <= b || exists k: nat :: FirstDifference(a, b, k)
  {
    if a != "" && b != "" {
      if a[0] != b[0] {
        assert FirstDifference(a, b, 0) <==> a[0] < b[0];
        forall k: nat | k > 0 ensures !FirstDifference(a, b, k) {
          assert k <= |a| && k <= |b| ==> a[..k][0] != b[..k][0];
        }
      } else {
        StrLeExactly(a[1..], b[1..]);
        FirstDifferenceMoves(a, b);
      }
    }
  }

  /** Alike up to `k`, and smaller there. */
  ghost predicate FirstDifference(a: string, b: string, k: nat) {
    k < |a| && k < |b| && a[..k] == b[..k] && a[k] < b[k]
  }

  lemma FirstDifferenceMoves(a: string, b: string)
    requires a != "" && b != "" && a[0] == b[0]
    ensures a <= b <==> a[1..] <= b[1..]
    ensures (exists k: nat :: FirstDifference(a, b, k)) <==> exists k: nat :: FirstDifference(a[1..], b[1..], k)
  {
    assert a == [a[0]] + a[1..] && b == [b[0]] + b[1..];
    if k: nat :| FirstDifference(a, b, k) {
      assert a[..k][1..] == a[1..][..k - 1] && b[..k][1..] == b[1..][..k - 1];
      assert FirstDifference(a[1..], b[1..], k - 1);
    }
    if k: nat :| FirstDifference(a[1..], b[1..], k) {
      assert a[..k + 1] == [a[0]] + a[1..][..k] && b[..k + 1] == [b[0]] + b[1..][..k];
      assert FirstDifference(a, b, k + 1);
    }
  }

  lemma {:induction false} StrLeTotal(a: string, b: string)
    ensures StrLe(a, b) || StrLe(b, a)
    ensures StrLe(a, b) && StrLe(b, a) ==> a == b
  {
    if a != "" && b != "" && a[0] == b[0] {
      StrLeTotal(a[1..], b[1..]);
      assert a == [a[0]] + a[1..] && b == [b[0]] + b[1..];
    }
  }

  lemma {:induction false} StrLeTrans(a: string, b: string, c: string)
    requires StrLe(a, b) && StrLe(b, c)
    ensures StrLe(a, c)
  {
    if a != "" && b != "" && c != "" && a[0] == b[0] == c[0] {
      StrLeTrans(a[1..], b[1..], c[1..]);
    }
  }

  lemma StrLeOrder()
    ensures TotalOrder(StrLe)
  {
    forall x: string, y: string ensures StrLe(x, y) || StrLe(y, x)
                                ensures StrLe(x, y) && StrLe(y, x) ==> x == y {
      StrLeTotal(x, y);
    }
    forall x: string, y: string, z: string | StrLe(x, y) && StrLe(y, z) ensures StrLe(x, z) {
      StrLeTrans(x, y, z);
    }
  }

  /** `Array.from(set)`: the elements once each, in an order nothing below relies on. */
  method SetToSeq<T(==)>(s: set<T>) returns (r: seq<T>)
    ensures NoDup(r)
    ensures forall x :: x in r <==> x in s
    ensures |r| == |s|
  {
    r := [];
    var rest := s;
    while rest != {}
      invariant NoDup(r) && rest <= s
      invariant forall x :: x in r <==> x in s && x !in rest
      invariant |r| + |rest| == |s|
      decreases |rest|
    {
      var x :| x in rest;
      r := r + [x];
      rest := rest - {x};
    }
  }
}
