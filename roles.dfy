/** The optional value used wherever the plugin reads something that may be absent or nil. */
module Wrappers {
  datatype Option<+T> = None | Some(value: T)
}

/** What the plugin knows about roles. The role catalogue itself (`Role::ALL`) and each
    role's display name (`Role.to_s`) live in files that are not part of this model, so
    both are parameters of the operations that use them. */
module Roles {

  /** A role is identified by the name of its symbol, e.g. "banker". */
  type Role = string

  /** The capability group a role belongs to. */
  datatype Group = Communications | Finance | Force | SpecialInterests

  /** What `Role::ALL` records for one role: its group and whether it is advanced. */
  datatype RoleInfo = RoleInfo(group: Group, advanced: bool)

  /** `Role::ALL`: every supported role with its group and tier. */
  type Catalogue = map<Role, RoleInfo>

  /** `DEFAULT_ROLES`: the roles of a game whose waiting room chose none. */
  const DefaultRoles: seq<Role> := ["banker", "director", "guerrilla", "peacekeeper", "politician"]

  /** No element appears twice. */
  predicate NoDups<T(==)>(s: seq<T>) {
    forall i, j :: 0 <= i < j < |s| ==> s[i] != s[j]
  }
}

/** `Array#reject!` with an equality test and `Array#uniq!`, as functions on sequences. */
module Lists {
  import opened Roles

  /** `s.reject! { |y| y == x }`: every occurrence of `x` removed, the rest kept in order. */
  function Without<T(==)>(s: seq<T>, x: T): (r: seq<T>)
    ensures multiset(r) == multiset(s)[x := 0]
    ensures |r| <= |s|
    decreases |s|
  {
    if |s| == 0 then []
    else
      var init, last := s[..|s| - 1], s[|s| - 1];
      assert s == init + [last];
      if last == x then Without(init, x) else Without(init, x) + [last]
  }

  /** Removing an element that is not there changes nothing. */
  lemma {:induction false} WithoutAbsent<T>(s: seq<T>, x: T)
    requires x !in s
    ensures Without(s, x) == s
    decreases |s|
  {
    if |s| > 0 {
      var init, last := s[..|s| - 1], s[|s| - 1];
      assert s == init + [last];
      assert last != x;
      WithoutAbsent(init, x);
      assert Without(s, x) == Without(init, x) + [last];
    }
  }

  /** Removal works element by element and keeps the order: removing from a
      concatenation removes from each part. With `Without([y], x)` being `[]` when
      `y == x` and `[y]` otherwise, this fixes the result as the list filtered in order. */
  lemma {:induction false} WithoutConcat<T>(a: seq<T>, b: seq<T>, x: T)
    ensures Without(a + b, x) == Without(a, x) + Without(b, x)
    decreases |b|
  {
    if |b| == 0 {
      assert a + b == a;
    } else {
      var init, last := b[..|b| - 1], b[|b| - 1];
      assert b == init + [last];
      assert a + b == (a + init) + [last];
      WithoutConcat(a, init, x);
      WithoutSnoc(a + init, last, x);
      WithoutSnoc(init, last, x);
    }
  }

  /** Removing from a list with one more element at its end. */
  lemma WithoutSnoc<T>(s: seq<T>, y: T, x: T)
    ensures Without(s + [y], x) == if y == x then Without(s, x) else Without(s, x) + [y]
  {
    var t := s + [y];
    assert t[..|t| - 1] == s && t[|t| - 1] == y;
  }

  /** Removing `x` from a one-element list. */
  lemma WithoutSingle<T>(y: T, x: T)
    ensures Without([y], x) == if y == x then [] else [y]
  {
    assert [y][..0] == [];
  }

  /** Membership after removal, and the length when `x` occurred exactly once. */
  lemma WithoutMembers<T>(s: seq<T>, x: T)
    ensures forall y :: y in Without(s, x) <==> y in s && y != x
    ensures NoDups(s) && x in s ==> |Without(s, x)| == |s| - 1
  {
    var r := Without(s, x);
    forall y ensures y in r <==> y in s && y != x {
      assert y in r <==> y in multiset(r);
      assert y in s <==> y in multiset(s);
    }
    if NoDups(s) && x in s {
      NoDupsCountsOnce(s, x);
      assert |multiset(r)| == |multiset(s)| - multiset(s)[x];
    }
  }

  lemma {:induction false} NoDupsCountsOnce<T>(s: seq<T>, x: T)
    requires NoDups(s) && x in s
    ensures multiset(s)[x] == 1
    decreases |s|
  {
    var init, last := s[..|s| - 1], s[|s| - 1];
    assert s == init + [last];
    if last == x {
      assert x !in init;
    } else {
      NoDupsCountsOnce(init, x);
    }
  }

  /** `s.uniq!`: the first occurrence of every element, in order. */
  function Dedup<T(==,!new)>(s: seq<T>): (r: seq<T>)
    ensures NoDups(r)
    ensures forall y :: y in r <==> y in s
    ensures |r| <= |s|
    decreases |s|
  {
    if |s| == 0 then []
    else
      var init, last := s[..|s| - 1], s[|s| - 1];
      assert s == init + [last];
      if last in init then Dedup(init) else Dedup(init) + [last]
  }

  /** A list without duplicates is left as it is. */
  lemma {:induction false} DedupOfDistinct<T(!new)>(s: seq<T>)
    requires NoDups(s)
    ensures Dedup(s) == s
    decreases |s|
  {
    if |s| > 0 {
      var init := s[..|s| - 1];
      assert s == init + [s[|s| - 1]];
      DedupOfDistinct(init);
    }
  }

  /** Index of the first occurrence of `x` in `s`. */
  function FirstIndex<T(==)>(s: seq<T>, x: T): (i: nat)
    requires x in s
    ensures i < |s| && s[i] == x && x !in s[..i]
    decreases |s|
  {
    if s[0] == x then 0 else 1 + FirstIndex(s[1..], x)
  }

  lemma FirstIndexInPrefix<T>(s: seq<T>, y: T)
    requires |s| > 0 && y in s[..|s| - 1]
    ensures FirstIndex(s, y) == FirstIndex(s[..|s| - 1], y)
  {
    var p := s[..|s| - 1];
    assert p[..FirstIndex(p, y)] == s[..FirstIndex(p, y)];
  }

  /** `uniq!` keeps the elements in the order of their first occurrences. */
  lemma {:induction false} DedupKeepsFirstOccurrenceOrder<T(!new)>(s: seq<T>)
    ensures forall i, j :: 0 <= i < j < |Dedup(s)| ==> FirstIndex(s, Dedup(s)[i]) < FirstIndex(s, Dedup(s)[j])
    decreases |s|
  {
    if |s| > 0 {
      var init, last := s[..|s| - 1], s[|s| - 1];
      assert s == init + [last];
      DedupKeepsFirstOccurrenceOrder(init);
      var d := Dedup(s);
      var p := Dedup(init);
      forall y | y in p ensures FirstIndex(s, y) == FirstIndex(init, y) && FirstIndex(init, y) < |init| {
        FirstIndexInPrefix(s, y);
      }
      forall i, j | 0 <= i < j < |d| ensures FirstIndex(s, d[i]) < FirstIndex(s, d[j]) {
        assert d[i] in p;
        if j < |p| {
          assert d[j] in p;
        } else {
          assert last !in init && d[j] == last;
          assert FirstIndex(s, last) == |init|;
        }
      }
    }
  }

  /** Removing elements keeps a list free of duplicates. */
  lemma {:induction false} NoDupsKeptByWithout<T>(s: seq<T>, x: T)
    requires NoDups(s)
    ensures NoDups(Without(s, x))
    decreases |s|
  {
    if |s| > 0 {
      var init, last := s[..|s| - 1], s[|s| - 1];
      assert s == init + [last];
      assert NoDups(init) by {
        forall i, j | 0 <= i < j < |init| ensures init[i] != init[j] {
          assert init[i] == s[i] && init[j] == s[j];
        }
      }
      NoDupsKeptByWithout(init, x);
      WithoutMembers(init, x);
      assert last !in init;
    }
  }
}
