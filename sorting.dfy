/**
 * `list.sort(key=...)` as the handlers use it: the orders on names (string
 * comparison, code point by code point) and on ids, and an insertion sort
 * proved to return a sorted permutation of its input.
 */
module Sorting {
  import opened Entities

  /** Python's `<=` on strings: lexicographic by code point, a proper prefix first. */
  predicate NameLe(a: string, b: string)
    decreases |a|
  {
    if a == [] then true
    else if b == [] then false
    else if a[0] != b[0] then a[0] < b[0]
    else NameLe(a[1..], b[1..])
  }

  lemma {:induction false} NameLeTotal(a: string, b: string)
    ensures NameLe(a, b) || NameLe(b, a)
    decreases |a|
  {
    if a != [] && b != [] && a[0] == b[0] {
      NameLeTotal(a[1..], b[1..]);
    }
  }

  lemma {:induction false} NameLeTransitive(a: string, b: string, c: string)
    requires NameLe(a, b) && NameLe(b, c)
    ensures NameLe(a, c)
    decreases |a|
  {
    if a != [] && b != [] && c != [] && a[0] == b[0] && b[0] == c[0] {
      NameLeTransitive(a[1..], b[1..], c[1..]);
    }
  }

  /** The key of `chats.sort(key=lambda x: x.name)`. */
  predicate ChatByName(x: Chat, y: Chat) {
    NameLe(x.name, y.name)
  }

  /** The key of `users.sort(key=lambda x: x.id)`. */
  predicate UserById(x: User, y: User) {
    x.id <= y.id
  }

  ghost predicate SortedBy<T>(s: seq<T>, le: (T, T) -> bool) {
    forall i, j :: 0 <= i < j < |s| ==> le(s[i], s[j])
  }

  ghost predicate TotalPreorder<T(!new)>(le: (T, T) -> bool) {
    && (forall a, b :: le(a, b) || le(b, a))
    && (forall a, b, c :: le(a, b) && le(b, c) ==> le(a, c))
  }

  lemma ChatByNameIsTotalPreorder()
    ensures TotalPreorder(ChatByName)
  {
    forall a: Chat, b: Chat ensures ChatByName(a, b) || ChatByName(b, a) {
      NameLeTotal(a.name, b.name);
    }
    forall a: Chat, b: Chat, c: Chat | ChatByName(a, b) && ChatByName(b, c)
      ensures ChatByName(a, c)
    {
      NameLeTransitive(a.name, b.name, c.name);
    }
  }

  lemma UserByIdIsTotalPreorder()
    ensures TotalPreorder(UserById)
  {
  }

  /** A sorted sequence stays sorted when an element below all of it is put in front. */
  lemma PrependSorted<T>(h: T, rest: seq<T>, le: (T, T) -> bool)
    requires SortedBy(rest, le)
    requires forall y :: y in multiset(rest) ==> le(h, y)
    ensures SortedBy([h] + rest, le)
  {
  }

  /** One step of insertion sort: put `x` in front of the first element not below it. */
  function Insert<T(!new)>(x: T, s: seq<T>, le: (T, T) -> bool): (r: seq<T>)
    requires TotalPreorder(le) && SortedBy(s, le)
    ensures SortedBy(r, le)
    ensures multiset(r) == multiset(s) + multiset{x}
  {
    if s == [] || le(x, s[0]) then
      InsertAtFront(x, s, le);
      [x] + s
    else
      var rest := Insert(x, s[1..], le);
      InsertBehindHead(x, s, rest, le);
      [s[0]] + rest
  }

  lemma InsertAtFront<T(!new)>(x: T, s: seq<T>, le: (T, T) -> bool)
    requires TotalPreorder(le) && SortedBy(s, le)
    requires s == [] || le(x, s[0])
    ensures SortedBy([x] + s, le)
  {
  }

  lemma InsertBehindHead<T(!new)>(x: T, s: seq<T>, rest: seq<T>, le: (T, T) -> bool)
    requires TotalPreorder(le) && SortedBy(s, le)
    requires s != [] && !le(x, s[0])
    requires SortedBy(rest, le) && multiset(rest) == multiset(s[1..]) + multiset{x}
    ensures SortedBy([s[0]] + rest, le)
    ensures multiset([s[0]] + rest) == multiset(s) + multiset{x}
  {
    assert s == [s[0]] + s[1..];
    forall y | y in multiset(rest) ensures le(s[0], y) {
      if y != x {
        assert y in multiset(s[1..]);
        var j :| 0 <= j < |s[1..]| && s[1..][j] == y;
        assert s[j + 1] == y;
      }
    }
    PrependSorted(s[0], rest, le);
  }

  /** `list.sort`: the result is sorted and a permutation of the input. */
  method SortBy<T(!new)>(s: seq<T>, le: (T, T) -> bool) returns (r: seq<T>)
    requires TotalPreorder(le)
    ensures SortedBy(r, le)
    ensures multiset(r) == multiset(s)
  {
    r := [];
    var i := 0;
    while i < |s|
      invariant 0 <= i <= |s|
      invariant SortedBy(r, le)
      invariant multiset(r) == multiset(s[..i])
    {
      assert s[..i + 1] == s[..i] + [s[i]];
      r := Insert(s[i], r, le);
      i := i + 1;
    }
    assert s[..|s|] == s;
  }
}
