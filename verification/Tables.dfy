/**
 What SQL does with a table, for tables kept as sequences of rows: filtered sums, selection,
 row-wise updates, grouping and joining; and the laws that let different queries over the same
 rows be compared.
 */
module Tables {
  import opened Text

  // ----- SELECT SUM(val) -----

  function Total<T>(rows: seq<T>, val: T -> int): int {
    if rows == [] then 0 else Total(rows[..|rows| - 1], val) + val(rows[|rows| - 1])
  }

  /** SELECT SUM(val) WHERE key = k, with SUM over no rows taken as 0. */
  function SumOf<T, K(==)>(rows: seq<T>, key: T -> K, val: T -> int, k: K): int {
    if rows == [] then 0
    else SumOf(rows[..|rows| - 1], key, val, k) +
         if key(rows[|rows| - 1]) == k then val(rows[|rows| - 1]) else 0
  }

  /** The rows a WHERE clause keeps, in table order. */
  function Where<T>(rows: seq<T>, keep: T -> bool): seq<T> {
    if rows == [] then []
    else
      var front := Where(rows[..|rows| - 1], keep);
      if keep(rows[|rows| - 1]) then front + [rows[|rows| - 1]] else front
  }

  /** Every row replaced by its image. */
  function Each<T, U>(rows: seq<T>, f: T -> U): (r: seq<U>)
    ensures |r| == |rows| && forall i :: 0 <= i < |rows| ==> r[i] == f(rows[i])
  {
    seq(|rows|, i requires 0 <= i < |rows| => f(rows[i]))
  }

  /** SUM over k in ks of SumOf(.., k). */
  function SumOver<T, K(==)>(rows: seq<T>, key: T -> K, val: T -> int, ks: seq<K>): int {
    if ks == [] then 0 else SumOver(rows, key, val, ks[..|ks| - 1]) + SumOf(rows, key, val, ks[|ks| - 1])
  }

  predicate Distinct<K(==)>(ks: seq<K>) {
    forall i, j :: 0 <= i < j < |ks| ==> ks[i] != ks[j]
  }

  // ----- appending -----

  lemma TotalAppend<T>(rows: seq<T>, r: T, val: T -> int)
    ensures Total(rows + [r], val) == Total(rows, val) + val(r)
  {
    assert (rows + [r])[..|rows|] == rows;
  }

  lemma SumOfAppend<T, K>(rows: seq<T>, r: T, key: T -> K, val: T -> int, k: K)
    ensures SumOf(rows + [r], key, val, k) == SumOf(rows, key, val, k) + if key(r) == k then val(r) else 0
  {
    assert (rows + [r])[..|rows|] == rows;
  }

  lemma WhereAppend<T>(rows: seq<T>, r: T, keep: T -> bool)
    ensures Where(rows + [r], keep) == if keep(r) then Where(rows, keep) + [r] else Where(rows, keep)
  {
    assert (rows + [r])[..|rows|] == rows;
  }

  /** One more row of a table read from the front, as loops read it. */
  lemma WhereTake<T>(rows: seq<T>, i: nat, keep: T -> bool)
    requires i < |rows|
    ensures Where(rows[..i + 1], keep) ==
            if keep(rows[i]) then Where(rows[..i], keep) + [rows[i]] else Where(rows[..i], keep)
  {
    assert rows[..i + 1] == rows[..i] + [rows[i]];
    WhereAppend(rows[..i], rows[i], keep);
  }

  lemma TotalTake<T>(rows: seq<T>, i: nat, val: T -> int)
    requires i < |rows|
    ensures Total(rows[..i + 1], val) == Total(rows[..i], val) + val(rows[i])
  {
    assert rows[..i + 1] == rows[..i] + [rows[i]];
    TotalAppend(rows[..i], rows[i], val);
  }

  lemma EachTake<T, U>(rows: seq<T>, i: nat, f: T -> U)
    requires i < |rows|
    ensures Each(rows[..i + 1], f) == Each(rows[..i], f) + [f(rows[i])]
  {
  }

  lemma TakeAll<T>(rows: seq<T>)
    ensures rows[..|rows|] == rows
  {
  }

  lemma {:induction false} TotalConcat<T>(a: seq<T>, b: seq<T>, val: T -> int)
    ensures Total(a + b, val) == Total(a, val) + Total(b, val)
  {
    if b == [] {
      assert a + b == a;
    } else {
      var c := b[..|b| - 1];
      assert a + b == a + c + [b[|b| - 1]];
      TotalAppend(a + c, b[|b| - 1], val);
      TotalConcat(a, c, val);
    }
  }

  lemma {:induction false} SumOfConcat<T, K>(a: seq<T>, b: seq<T>, key: T -> K, val: T -> int, k: K)
    ensures SumOf(a + b, key, val, k) == SumOf(a, key, val, k) + SumOf(b, key, val, k)
  {
    if b == [] {
      assert a + b == a;
    } else {
      var c := b[..|b| - 1];
      assert a + b == a + c + [b[|b| - 1]];
      SumOfAppend(a + c, b[|b| - 1], key, val, k);
      SumOfConcat(a, c, key, val, k);
    }
  }

  // ----- selection -----

  lemma {:induction false} WhereMembers<T>(rows: seq<T>, keep: T -> bool)
    ensures forall r :: r in Where(rows, keep) <==> r in rows && keep(r)
    ensures |Where(rows, keep)| <= |rows|
  {
    if rows != [] {
      var front, last := rows[..|rows| - 1], rows[|rows| - 1];
      WhereMembers(front, keep);
      assert rows == front + [last];
    }
  }

  lemma {:induction false} WhereAll<T>(rows: seq<T>, keep: T -> bool)
    requires forall r :: r in rows ==> keep(r)
    ensures Where(rows, keep) == rows
  {
    if rows != [] {
      var front := rows[..|rows| - 1];
      assert forall r :: r in front ==> r in rows;
      WhereAll(front, keep);
      assert rows == front + [rows[|rows| - 1]];
    }
  }

  /** Deleting rows of other keys does not change a sum; deleting every row of a key empties it. */
  lemma {:induction false} SumOfWhere<T, K>(rows: seq<T>, key: T -> K, val: T -> int, k: K, keep: T -> bool)
    ensures (forall r :: r in rows && key(r) == k ==> keep(r)) ==>
              SumOf(Where(rows, keep), key, val, k) == SumOf(rows, key, val, k)
    ensures (forall r :: r in rows && key(r) == k ==> !keep(r)) ==>
              SumOf(Where(rows, keep), key, val, k) == 0
  {
    if rows != [] {
      var front, last := rows[..|rows| - 1], rows[|rows| - 1];
      assert rows == front + [last];
      SumOfWhere(front, key, val, k, keep);
      if keep(last) { SumOfAppend(Where(front, keep), last, key, val, k); }
    }
  }

  // ----- row-wise updates -----

  lemma {:induction false} SumOfEach<T, K>(rows: seq<T>, f: T -> T, key: T -> K, val: T -> int, k: K)
    requires forall r :: r in rows ==> key(f(r)) == key(r) && val(f(r)) == val(r)
    ensures SumOf(Each(rows, f), key, val, k) == SumOf(rows, key, val, k)
  {
    if rows != [] {
      var front, last := rows[..|rows| - 1], rows[|rows| - 1];
      assert forall r :: r in front ==> r in rows;
      SumOfEach(front, f, key, val, k);
      assert Each(rows, f) == Each(front, f) + [f(last)];
      SumOfAppend(Each(front, f), f(last), key, val, k);
    }
  }

  /** Selecting images is taking the images of a selection. */
  lemma {:induction false} WhereEach<T, U>(rows: seq<T>, f: T -> U, shown: U -> bool, keep: T -> bool)
    requires forall r :: r in rows ==> (shown(f(r)) <==> keep(r))
    ensures Where(Each(rows, f), shown) == Each(Where(rows, keep), f)
  {
    if rows != [] {
      hide Where;
      var front, last := rows[..|rows| - 1], rows[|rows| - 1];
      assert rows == front + [last];
      WhereEach(front, f, shown, keep);
      assert Each(rows, f) == Each(front, f) + [f(last)];
      WhereAppend(Each(front, f), f(last), shown);
      WhereAppend(front, last, keep);
    }
  }

  // ----- summing by key and summing outright -----

  lemma {:induction false} SumOverAppend<T, K>(rows: seq<T>, r: T, key: T -> K, val: T -> int, ks: seq<K>)
    requires Distinct(ks)
    ensures SumOver(rows + [r], key, val, ks) == SumOver(rows, key, val, ks) + if key(r) in ks then val(r) else 0
  {
    if ks != [] {
      var front, k := ks[..|ks| - 1], ks[|ks| - 1];
      SumOverAppend(rows, r, key, val, front);
      SumOfAppend(rows, r, key, val, k);
      assert ks == front + [k];
      assert k !in front;
    }
  }

  lemma {:induction false} SumOverCons<T, K>(rows: seq<T>, key: T -> K, val: T -> int, k: K, ks: seq<K>)
    ensures SumOver(rows, key, val, [k] + ks) == SumOf(rows, key, val, k) + SumOver(rows, key, val, ks)
  {
    var all := [k] + ks;
    if ks == [] {
      assert all[..0] == [];
    } else {
      assert all[..|all| - 1] == [k] + ks[..|ks| - 1];
      SumOverCons(rows, key, val, k, ks[..|ks| - 1]);
    }
  }

  lemma {:induction false} SumOverEmpty<T, K>(key: T -> K, val: T -> int, ks: seq<K>)
    ensures SumOver([], key, val, ks) == 0
  {
    if ks != [] { SumOverEmpty(key, val, ks[..|ks| - 1]); }
  }

  /** Summing per key over all keys counts every row exactly once. */
  lemma {:induction false} SumExchange<T, K>(rows: seq<T>, key: T -> K, val: T -> int, ks: seq<K>)
    requires Distinct(ks) && forall r :: r in rows ==> key(r) in ks
    ensures SumOver(rows, key, val, ks) == Total(rows, val)
  {
    if rows == [] {
      SumOverEmpty(key, val, ks);
    } else {
      var front, last := rows[..|rows| - 1], rows[|rows| - 1];
      assert rows == front + [last];
      SumExchange(front, key, val, ks);
      SumOverAppend(front, last, key, val, ks);
    }
  }

  /** A total over rows of per-row sums in another table is a sum over the rows' keys. */
  lemma {:induction false} TotalIsSumOver<P, T, K>(ps: seq<P>, id: P -> K, val: P -> int,
                                                   rows: seq<T>, key: T -> K, amount: T -> int)
    requires forall p :: p in ps ==> val(p) == SumOf(rows, key, amount, id(p))
    ensures Total(ps, val) == SumOver(rows, key, amount, Each(ps, id))
  {
    if ps != [] {
      var front, last := ps[..|ps| - 1], ps[|ps| - 1];
      assert ps == front + [last];
      TotalIsSumOver(front, id, val, rows, key, amount);
      assert Each(ps, id)[..|ps| - 1] == Each(front, id);
    }
  }

  lemma {:induction false} SumOfIsTotal<T, K>(rows: seq<T>, key: T -> K, val: T -> int, k: K, keep: T -> bool)
    requires forall r :: r in rows ==> (keep(r) <==> key(r) == k)
    ensures SumOf(rows, key, val, k) == Total(Where(rows, keep), val)
  {
    if rows != [] {
      var front, last := rows[..|rows| - 1], rows[|rows| - 1];
      assert rows == front + [last];
      SumOfIsTotal(front, key, val, k, keep);
      if keep(last) { TotalAppend(Where(front, keep), last, val); }
    }
  }

  lemma {:induction false} SumOfBounds<T, K>(rows: seq<T>, key: T -> K, val: T -> int, k: K)
    requires forall r :: r in rows ==> val(r) >= 0
    ensures 0 <= SumOf(rows, key, val, k) <= Total(rows, val)
  {
    if rows != [] {
      var front, last := rows[..|rows| - 1], rows[|rows| - 1];
      assert rows == front + [last];
      SumOfBounds(front, key, val, k);
    }
  }

  lemma {:induction false} SumOfNone<T, K>(rows: seq<T>, key: T -> K, val: T -> int, k: K)
    requires forall r :: r in rows ==> key(r) != k
    ensures SumOf(rows, key, val, k) == 0
  {
    if rows != [] {
      var front := rows[..|rows| - 1];
      assert rows == front + [rows[|rows| - 1]];
      SumOfNone(front, key, val, k);
    }
  }

  /** Deleting one row by its id takes exactly its value out of the sum of its key. */
  lemma {:induction false} SumOfWithout<T, K>(rows: seq<T>, r: T, id: T -> int, keep: T -> bool,
                                              key: T -> K, val: T -> int, k: K)
    requires Distinct(Each(rows, id)) && r in rows && forall x :: x in rows ==> (keep(x) <==> id(x) != id(r))
    ensures SumOf(Where(rows, keep), key, val, k) == SumOf(rows, key, val, k) - if key(r) == k then val(r) else 0
  {
    var front, last := rows[..|rows| - 1], rows[|rows| - 1];
    assert rows == front + [last] && Each(rows, id) == Each(front, id) + [id(last)];
    DistinctPrefix(Each(front, id), id(last));
    if id(last) == id(r) {
      forall x | x in front ensures id(x) != id(r) {
        var i :| 0 <= i < |front| && front[i] == x;
        assert Each(front, id)[i] == id(x);
      }
      WhereAll(front, keep);
    } else {
      SumOfWithout(front, r, id, keep, key, val, k);
      SumOfAppend(Where(front, keep), last, key, val, k);
    }
  }

  /** A sum by two columns is a sum by one of them over the rows selected by the other. */
  lemma {:induction false} PairSum<T, K, L>(rows: seq<T>, pair: T -> (K, L), key: T -> K, val: T -> int, k: K, l: L,
                                            keep: T -> bool)
    requires forall r :: r in rows ==> pair(r).0 == key(r) && (keep(r) <==> pair(r).1 == l)
    ensures SumOf(rows, pair, val, (k, l)) == SumOf(Where(rows, keep), key, val, k)
  {
    if rows != [] {
      var front, last := rows[..|rows| - 1], rows[|rows| - 1];
      assert rows == front + [last];
      PairSum(front, pair, key, val, k, l, keep);
      if keep(last) { SumOfAppend(Where(front, keep), last, key, val, k); }
    }
  }

  // ----- SELECT key, SUM(val) GROUP BY key -----

  datatype Group<K> = Group(key: K, sum: int)

  /** One group for each key that occurs, in order of first appearance. */
  function GroupSums<T, K(==)>(rows: seq<T>, key: T -> K, val: T -> int): seq<Group<K>> {
    if rows == [] then []
    else AddToGroup(GroupSums(rows[..|rows| - 1], key, val), key(rows[|rows| - 1]), val(rows[|rows| - 1]))
  }

  function AddToGroup<K(==)>(groups: seq<Group<K>>, k: K, v: int): seq<Group<K>> {
    if groups == [] then [Group(k, v)]
    else if groups[0].key == k then [Group(k, groups[0].sum + v)] + groups[1..]
    else [groups[0]] + AddToGroup(groups[1..], k, v)
  }

  /** The sum of the group with key k, if there is one. */
  function FindGroup<K(==)>(groups: seq<Group<K>>, k: K): Option<int> {
    if groups == [] then None
    else if groups[0].key == k then Some(groups[0].sum)
    else FindGroup(groups[1..], k)
  }

  predicate OneGroupPerKey<K(==)>(groups: seq<Group<K>>) {
    forall i, j :: 0 <= i < j < |groups| ==> groups[i].key != groups[j].key
  }

  lemma {:induction false} AddToGroupKeys<K>(groups: seq<Group<K>>, k: K, v: int)
    requires OneGroupPerKey(groups)
    ensures var g := AddToGroup(groups, k, v);
            OneGroupPerKey(g) && forall x :: x in g ==> x.key == k || x in groups
  {
    if groups != [] {
      AddToGroupKeys(groups[1..], k, v);
      var g := AddToGroup(groups, k, v);
      if groups[0].key != k {
        var rest := AddToGroup(groups[1..], k, v);
        assert g[0] == groups[0] && g[1..] == rest;
        forall x | x in rest ensures x.key != groups[0].key {
          assert x.key == k || x in groups[1..];
        }
      } else {
        assert g[1..] == groups[1..];
      }
    }
  }

  /** Only the group of the added key changes, by the added value. */
  lemma {:induction false} AddToGroupFinds<K>(groups: seq<Group<K>>, k: K, v: int, j: K)
    ensures FindGroup(AddToGroup(groups, k, v), j) ==
            if j != k then FindGroup(groups, j)
            else Some(v + if FindGroup(groups, k).Some? then FindGroup(groups, k).value else 0)
  {
    if groups != [] {
      AddToGroupFinds(groups[1..], k, v, j);
      assert AddToGroup(groups, k, v)[1..] ==
             if groups[0].key == k then groups[1..] else AddToGroup(groups[1..], k, v);
    }
  }

  lemma NoGroup<K>(k: K)
    ensures FindGroup([], k) == None
  {
  }

  lemma {:induction false} GroupSumsAreDistinct<T, K>(rows: seq<T>, key: T -> K, val: T -> int)
    ensures OneGroupPerKey(GroupSums(rows, key, val))
  {
    hide AddToGroup, FindGroup;
    if rows != [] {
      var front, last := rows[..|rows| - 1], rows[|rows| - 1];
      GroupSumsAreDistinct(front, key, val);
      AddToGroupKeys(GroupSums(front, key, val), key(last), val(last));
    }
  }

  /** A group exists exactly for the keys that occur, and its sum is the filtered sum. */
  lemma {:induction false} GroupSumsMeans<T, K>(rows: seq<T>, key: T -> K, val: T -> int, k: K)
    ensures OneGroupPerKey(GroupSums(rows, key, val))
    ensures FindGroup(GroupSums(rows, key, val), k) ==
            if exists r :: r in rows && key(r) == k then Some(SumOf(rows, key, val, k)) else None
  {
    hide AddToGroup, FindGroup, OneGroupPerKey;
    GroupSumsAreDistinct(rows, key, val);
    if rows == [] {
      NoGroup(k);
    } else {
      var front, last := rows[..|rows| - 1], rows[|rows| - 1];
      assert rows == front + [last];
      GroupSumsMeans(front, key, val, k);
      AddToGroupFinds(GroupSums(front, key, val), key(last), val(last), k);
      if !(exists r :: r in front && key(r) == k) { SumOfNone(front, key, val, k); }
    }
  }

  function GroupSum<K>(g: Group<K>): int { g.sum }

  lemma {:induction false} AddToGroupTotal<K>(groups: seq<Group<K>>, k: K, v: int)
    ensures Total(AddToGroup(groups, k, v), GroupSum) == Total(groups, GroupSum) + v
  {
    if groups == [] {
      TotalAppend([], Group(k, v), GroupSum);
      assert [] + [Group(k, v)] == [Group(k, v)];
    } else {
      var first, rest := groups[0], groups[1..];
      assert groups == [first] + rest;
      TotalConcat([first], rest, GroupSum);
      if first.key == k {
        TotalConcat([Group(k, first.sum + v)], rest, GroupSum);
        TotalOne(first, GroupSum);
        TotalOne(Group(k, first.sum + v), GroupSum);
      } else {
        AddToGroupTotal(rest, k, v);
        TotalConcat([first], AddToGroup(rest, k, v), GroupSum);
      }
    }
  }

  lemma TotalOne<T>(r: T, val: T -> int)
    ensures Total([r], val) == val(r)
  {
    assert [r][..0] == [];
  }

  /** The sums of all groups add up to the sum of all rows. */
  lemma {:induction false} GroupsKeepTotal<T, K>(rows: seq<T>, key: T -> K, val: T -> int)
    ensures Total(GroupSums(rows, key, val), GroupSum) == Total(rows, val)
  {
    if rows != [] {
      var front, last := rows[..|rows| - 1], rows[|rows| - 1];
      GroupsKeepTotal(front, key, val);
      AddToGroupTotal(GroupSums(front, key, val), key(last), val(last));
    }
  }

  // ----- a JOIN b ON id(b) = fk(a) -----

  function HasKey<B, K(==)>(id: B -> K, k: K): B -> bool {
    (b: B) => id(b) == k
  }

  function PairWith<A, B>(a: A): B -> (A, B) {
    (b: B) => (a, b)
  }

  /** For each row of a, every row of b it refers to. */
  function Join<A, B, K(==)>(xs: seq<A>, fk: A -> K, bs: seq<B>, id: B -> K): seq<(A, B)> {
    if xs == [] then []
    else
      var a := xs[|xs| - 1];
      Join(xs[..|xs| - 1], fk, bs, id) + Each(Where(bs, HasKey(id, fk(a))), PairWith(a))
  }

  /** With unique ids a reference finds exactly one row, or none. */
  lemma {:induction false} UniqueMatch<B, K>(bs: seq<B>, id: B -> K, k: K)
    requires Distinct(Each(bs, id))
    ensures var found := Where(bs, HasKey(id, k));
            if k in Each(bs, id) then |found| == 1 && found[0] in bs && id(found[0]) == k else found == []
  {
    if bs != [] {
      var front, last := bs[..|bs| - 1], bs[|bs| - 1];
      assert bs == front + [last] && Each(bs, id) == Each(front, id) + [id(last)];
      DistinctPrefix(Each(front, id), id(last));
      UniqueMatch(front, id, k);
    }
  }

  lemma DistinctAppend<K>(ks: seq<K>, k: K)
    requires Distinct(ks) && k !in ks
    ensures Distinct(ks + [k])
  {
  }

  lemma DistinctPrefix<K>(ks: seq<K>, k: K)
    requires Distinct(ks + [k])
    ensures Distinct(ks) && k !in ks
  {
    var all := ks + [k];
    assert forall i :: 0 <= i < |ks| ==> all[i] == ks[i];
    assert all[|ks|] == k;
  }

  lemma {:induction false} WhereConcat<T>(a: seq<T>, b: seq<T>, keep: T -> bool)
    ensures Where(a + b, keep) == Where(a, keep) + Where(b, keep)
  {
    if b == [] {
      assert a + b == a;
    } else {
      var c, last := b[..|b| - 1], b[|b| - 1];
      assert a + b == a + c + [last];
      WhereAppend(a + c, last, keep);
      WhereConcat(a, c, keep);
    }
  }
}
