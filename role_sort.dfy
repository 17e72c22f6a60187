/**
 * The sort the committee pyramid builder (NUV_Yuva.js) applies to the roles
 * of one row: by group size, largest first, and stable (as ECMAScript has
 * required of `Array.prototype.sort` since 2019), mapped out as an insertion
 * sort on sequences with its order and stability proved.
 */
module RoleSort {
  /** `groups[r].length`, as the sort compares it. */
  function Size(g: map<string, seq<string>>, r: string): nat
  {
    if r in g then |g[r]| else 0
  }

  /** Put r in front of the first role whose group is strictly smaller. */
  function Insert(g: map<string, seq<string>>, r: string, rs: seq<string>): (out: seq<string>)
    ensures multiset(out) == multiset(rs) + multiset{r}
    ensures |out| == |rs| + 1
  {
    if rs == [] then [r]
    else if Size(g, rs[0]) < Size(g, r) then [r] + rs
    else
      assert rs == [rs[0]] + rs[1..];
      [rs[0]] + Insert(g, r, rs[1..])
  }

  /**
   * `roles.sort((a, b) => groups[b].length - groups[a].length)`: a stable
   * sort (as ECMAScript has required since 2019) by group size, largest first.
   */
  function SortBySize(g: map<string, seq<string>>, rs: seq<string>): (out: seq<string>)
    ensures multiset(out) == multiset(rs)
    ensures |out| == |rs|
  {
    if rs == [] then []
    else
      assert rs == rs[..|rs| - 1] + [rs[|rs| - 1]];
      Insert(g, rs[|rs| - 1], SortBySize(g, rs[..|rs| - 1]))
  }

  /** Group sizes never grow from left to right. */
  predicate Descending(g: map<string, seq<string>>, rs: seq<string>)
  {
    forall i, j :: 0 <= i < j < |rs| ==> Size(g, rs[i]) >= Size(g, rs[j])
  }

  /** The roles whose group has size s, in the order given. */
  function WithSize(g: map<string, seq<string>>, rs: seq<string>, s: nat): seq<string>
  {
    if rs == [] then []
    else (if Size(g, rs[0]) == s then [rs[0]] else []) + WithSize(g, rs[1..], s)
  }

  lemma {:induction false} WithSizeAppend(g: map<string, seq<string>>, a: seq<string>, b: seq<string>, s: nat)
    ensures WithSize(g, a + b, s) == WithSize(g, a, s) + WithSize(g, b, s)
    decreases |a|
  {
    if a != [] {
      var front := if Size(g, a[0]) == s then [a[0]] else [];
      WithSizeAppend(g, a[1..], b, s);
      assert (a + b)[1..] == a[1..] + b;
      assert (a + b)[0] == a[0];
      AppendAssoc(front, WithSize(g, a[1..], s), WithSize(g, b, s));
    } else {
      assert a + b == b;
    }
  }

  lemma {:induction false} InsertDescending(g: map<string, seq<string>>, r: string, rs: seq<string>)
    requires Descending(g, rs)
    ensures Descending(g, Insert(g, r, rs))
    decreases |rs|
  {
    if rs == [] {
    } else if Size(g, rs[0]) < Size(g, r) {
      DescendingCons(g, r, rs);
    } else {
      var tail := rs[1..];
      DescendingTail(g, rs);
      InsertDescending(g, r, tail);
      InsertBounded(g, r, tail, Size(g, rs[0]));
      DescendingCons(g, rs[0], Insert(g, r, tail));
    }
  }

  /** A role no smaller than any of a descending list can go in front of it. */
  lemma DescendingCons(g: map<string, seq<string>>, x: string, t: seq<string>)
    requires Descending(g, t)
    requires forall j :: 0 <= j < |t| ==> Size(g, t[j]) <= Size(g, x)
    ensures Descending(g, [x] + t)
  {
    var out := [x] + t;
    forall i, j | 0 <= i < j < |out|
      ensures Size(g, out[i]) >= Size(g, out[j])
    {
      assert out[j] == t[j - 1];
      if i > 0 {
        assert out[i] == t[i - 1];
      }
    }
  }

  /** Inserting into a list of roles no larger than a bound, a role no larger than it, keeps the bound. */
  lemma InsertBounded(g: map<string, seq<string>>, r: string, rs: seq<string>, bound: nat)
    requires Size(g, r) <= bound
    requires forall k :: 0 <= k < |rs| ==> Size(g, rs[k]) <= bound
    ensures forall j :: 0 <= j < |Insert(g, r, rs)| ==> Size(g, Insert(g, r, rs)[j]) <= bound
  {
    var t := Insert(g, r, rs);
    InsertFrom(g, r, rs);
    forall j | 0 <= j < |t|
      ensures Size(g, t[j]) <= bound
    {
      if t[j] != r {
        var k :| 0 <= k < |rs| && rs[k] == t[j];
      }
    }
  }

  /** Every role of the result is r or one of the roles given. */
  lemma InsertFrom(g: map<string, seq<string>>, r: string, rs: seq<string>)
    ensures forall i :: 0 <= i < |rs| + 1 ==> Insert(g, r, rs)[i] == r || Insert(g, r, rs)[i] in rs
  {
    var out := Insert(g, r, rs);
    forall i | 0 <= i < |out|
      ensures out[i] == r || out[i] in rs
    {
      assert out[i] in multiset(out);
    }
  }

  /** Inserting r adds r behind the roles of its own size and leaves the other sizes alone. */
  lemma {:induction false} InsertWithSize(g: map<string, seq<string>>, r: string, rs: seq<string>, s: nat)
    requires Descending(g, rs)
    ensures WithSize(g, Insert(g, r, rs), s) == WithSize(g, rs, s) + WithSize(g, [r], s)
    decreases |rs|
  {
    if rs == [] {
      assert Insert(g, r, rs) == [r];
      assert WithSize(g, rs, s) == [];
    } else if Size(g, rs[0]) < Size(g, r) {
      InsertFrontWithSize(g, r, rs, s);
    } else {
      DescendingTail(g, rs);
      InsertWithSize(g, r, rs[1..], s);
      InsertBehindWithSize(g, r, rs, s);
    }
  }

  /** r goes behind the first role, which is at least as large, and the rest follows by induction. */
  lemma InsertBehindWithSize(g: map<string, seq<string>>, r: string, rs: seq<string>, s: nat)
    requires rs != [] && Size(g, rs[0]) >= Size(g, r)
    requires WithSize(g, Insert(g, r, rs[1..]), s) == WithSize(g, rs[1..], s) + WithSize(g, [r], s)
    ensures WithSize(g, Insert(g, r, rs), s) == WithSize(g, rs, s) + WithSize(g, [r], s)
  {
    var tail := rs[1..];
    var t := Insert(g, r, tail);
    var front := if Size(g, rs[0]) == s then [rs[0]] else [];
    assert Insert(g, r, rs) == [rs[0]] + t;
    calc == {
      WithSize(g, [rs[0]] + t, s);
      { WithSizeCons(g, rs[0], t, s); }
      front + WithSize(g, t, s);
      front + (WithSize(g, tail, s) + WithSize(g, [r], s));
      { AppendAssoc(front, WithSize(g, tail, s), WithSize(g, [r], s)); }
      (front + WithSize(g, tail, s)) + WithSize(g, [r], s);
      WithSize(g, rs, s) + WithSize(g, [r], s);
    }
  }

  lemma AppendAssoc<T>(a: seq<T>, b: seq<T>, c: seq<T>)
    ensures a + (b + c) == (a + b) + c
  {
  }

  /** r goes in front of a list whose roles are all smaller, so none of them has its size. */
  lemma InsertFrontWithSize(g: map<string, seq<string>>, r: string, rs: seq<string>, s: nat)
    requires Descending(g, rs) && rs != [] && Size(g, rs[0]) < Size(g, r)
    ensures WithSize(g, [r] + rs, s) == WithSize(g, rs, s) + WithSize(g, [r], s)
  {
    WithSizeCons(g, r, rs, s);
    WithSizeCons(g, r, [], s);
    if Size(g, r) == s {
      NoneWithSize(g, rs, s);
    }
  }

  lemma WithSizeCons(g: map<string, seq<string>>, x: string, rest: seq<string>, s: nat)
    ensures WithSize(g, [x] + rest, s) == (if Size(g, x) == s then [x] else []) + WithSize(g, rest, s)
  {
    assert ([x] + rest)[1..] == rest;
  }

  lemma DescendingTail(g: map<string, seq<string>>, rs: seq<string>)
    requires Descending(g, rs) && rs != []
    ensures Descending(g, rs[1..])
  {
    forall i, j | 0 <= i < j < |rs| - 1
      ensures Size(g, rs[1..][i]) >= Size(g, rs[1..][j])
    {
      assert rs[1..][i] == rs[i + 1] && rs[1..][j] == rs[j + 1];
    }
  }

  /** In a descending list with a first role smaller than s, no role has size s. */
  lemma {:induction false} NoneWithSize(g: map<string, seq<string>>, rs: seq<string>, s: nat)
    requires Descending(g, rs) && rs != [] && Size(g, rs[0]) < s
    ensures WithSize(g, rs, s) == []
    decreases |rs|
  {
    if |rs| > 1 {
      assert Size(g, rs[1]) <= Size(g, rs[0]);
      NoneWithSize(g, rs[1..], s);
    }
  }

  /**
   * The sort orders the roles by group size, largest first, and is stable:
   * the roles of any one size keep their relative order.
   */
  lemma {:induction false} SortBySizeSorted(g: map<string, seq<string>>, rs: seq<string>)
    ensures Descending(g, SortBySize(g, rs))
    ensures forall s: nat :: WithSize(g, SortBySize(g, rs), s) == WithSize(g, rs, s)
    decreases |rs|
  {
    if rs != [] {
      var init, last := rs[..|rs| - 1], rs[|rs| - 1];
      SortBySizeSorted(g, init);
      InsertDescending(g, last, SortBySize(g, init));
      assert rs == init + [last];
      forall s: nat
        ensures WithSize(g, SortBySize(g, rs), s) == WithSize(g, rs, s)
      {
        InsertWithSize(g, last, SortBySize(g, init), s);
        WithSizeAppend(g, init, [last], s);
      }
    }
  }
}
