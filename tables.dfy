/** The storage operations the routes ask of the database client, over a table held as a
    sequence of rows in storage order: `findMany` with a `where` filter, `count`,
    `findFirst`/`findUnique`, `updateMany`, `deleteMany`, `orderBy`, `skip`/`take` and
    the `_sum` aggregate. A `where` clause is a predicate on rows. */
module Tables {
  import opened Base

  function Min(a: int, b: int): int { if a <= b then a else b }
  function Max(a: int, b: int): int { if a <= b then b else a }

  /** `findMany({ where })`: the rows that satisfy `p`, each as often as it occurs in `t`. */
  function Filter<R(!new)>(t: seq<R>, p: R -> bool): (r: seq<R>)
    ensures forall x :: multiset(r)[x] == if p(x) then multiset(t)[x] else 0
    ensures forall x :: x in r <==> x in t && p(x)
    ensures |r| <= |t|
  {
    if t == [] then []
    else
      assert t == [t[0]] + t[1..];
      (if p(t[0]) then [t[0]] else []) + Filter(t[1..], p)
  }

  /** A table splits into the rows a filter keeps and the rows it drops. */
  lemma {:induction false} FilterPartition<R(!new)>(t: seq<R>, p: R -> bool)
    ensures |Filter(t, p)| + |Filter(t, x => !p(x))| == |t|
  {
    if t != [] {
      FilterPartition(t[1..], p);
    }
  }

  // ---------------------------------------------------------------------------
  // Unique columns

  /** No two rows share a value of `key` (a primary key or a unique column). */
  predicate Distinct<R, K(==)>(t: seq<R>, key: R -> K) {
    forall i, j :: 0 <= i < j < |t| ==> key(t[i]) != key(t[j])
  }

  /** A row whose key no other row has can go in front. */
  lemma DistinctCons<R, K>(x: R, t: seq<R>, key: R -> K)
    requires Distinct(t, key)
    requires forall y :: y in t ==> key(y) != key(x)
    ensures Distinct([x] + t, key)
  {
    var r := [x] + t;
    forall i, j | 0 <= i < j < |r| ensures key(r[i]) != key(r[j]) {
      assert r[j] == t[j - 1];
      if i > 0 { assert r[i] == t[i - 1]; }
    }
  }

  /** A row with a fresh key can be appended. */
  lemma DistinctAppend<R, K>(t: seq<R>, x: R, key: R -> K)
    requires Distinct(t, key)
    requires forall y :: y in t ==> key(y) != key(x)
    ensures Distinct(t + [x], key)
  {
    var r := t + [x];
    forall i, j | 0 <= i < j < |r| ensures key(r[i]) != key(r[j]) {
      assert r[i] == t[i];
      if j == |t| { assert t[i] in t; } else { assert r[j] == t[j]; }
    }
  }

  /** Keeping some of the rows keeps their keys apart. */
  lemma {:induction false} DistinctFilter<R(!new), K>(t: seq<R>, p: R -> bool, key: R -> K)
    requires Distinct(t, key)
    ensures Distinct(Filter(t, p), key)
  {
    if t != [] {
      var tail := t[1..];
      DistinctTail(t, key);
      DistinctFilter(tail, p, key);
      if p(t[0]) {
        var rest := Filter(tail, p);
        forall y | y in rest ensures key(y) != key(t[0]) {
          var k :| 0 <= k < |tail| && tail[k] == y;
          assert y == t[k + 1];
        }
        DistinctCons(t[0], rest, key);
      }
    }
  }

  /** `deleteMany` keeps the remaining rows' keys apart. */
  lemma DistinctRemove<R(!new), K>(t: seq<R>, p: R -> bool, key: R -> K)
    requires Distinct(t, key)
    ensures Distinct(Remove(t, p), key)
  {
    DistinctFilter(t, Not(p), key);
  }

  /** The `where: { <key>: k }` of a lookup by a unique column. */
  function HasKey<R, K(==)>(key: R -> K, k: K): R -> bool {
    x => key(x) == k
  }

  /** On a unique column, a value matches exactly one row when it occurs and none otherwise. */
  lemma {:induction false} KeyMatchesOne<R(!new), K>(t: seq<R>, key: R -> K, k: K)
    requires Distinct(t, key)
    ensures Count(t, HasKey(key, k)) == if exists x :: x in t && key(x) == k then 1 else 0
  {
    var p := HasKey(key, k);
    if t != [] {
      var tail := t[1..];
      DistinctTail(t, key);
      assert t == [t[0]] + tail;
      if key(t[0]) == k {
        forall y | y in tail ensures !p(y) {
          var j :| 0 <= j < |tail| && tail[j] == y;
          assert y == t[j + 1];
        }
        assert Filter(t, p) == [t[0]] + Filter(tail, p);
      } else {
        KeyMatchesOne(tail, key, k);
        assert Filter(t, p) == Filter(tail, p);
      }
    }
  }

  /** On a unique column, looking a row up by its own key finds that row. */
  lemma FindByKey<R(!new), K>(t: seq<R>, key: R -> K, x: R)
    requires Distinct(t, key) && x in t
    ensures var r := FindFirst(t, HasKey(key, key(x))); r.Some? && t[r.value] == x
  {
    var j :| 0 <= j < |t| && t[j] == x;
    assert HasKey(key, key(x))(t[j]);
    var i := FindFirst(t, HasKey(key, key(x))).value;
    assert key(t[i]) == key(t[j]);
  }

  /** What a lookup by key finds: a row with that key, or nothing when no row has it. */
  lemma KeyLookup<R(!new), K>(t: seq<R>, key: R -> K, k: K)
    ensures var f := FindFirst(t, HasKey(key, k));
      && (f.Some? ==> t[f.value] in t && key(t[f.value]) == k)
      && (f.None? <==> forall x :: x in t ==> key(x) != k)
  {
    var f := FindFirst(t, HasKey(key, k));
    forall x | x in t ensures HasKey(key, k)(x) == (key(x) == k) {
    }
    if f.Some? {
      assert HasKey(key, k)(t[f.value]);
    }
  }

  /** On a primary key a value matches at most one row, and removing its rows keeps the key. */
  lemma RemoveByKey<R(!new)>(t: seq<R>, key: R -> nat, k: nat, bound: nat)
    requires PrimaryKey(t, key, bound)
    ensures Count(t, HasKey(key, k)) <= 1
    ensures PrimaryKey(Remove(t, HasKey(key, k)), key, bound)
  {
    PrimaryKeyRemove(t, HasKey(key, k), key, bound);
    KeyMatchesOne(t, key, k);
  }

  lemma DistinctTail<R, K>(t: seq<R>, key: R -> K)
    requires Distinct(t, key) && t != []
    ensures Distinct(t[1..], key)
  {
    var tail := t[1..];
    forall i, j | 0 <= i < j < |tail| ensures key(tail[i]) != key(tail[j]) {
      assert tail[i] == t[i + 1] && tail[j] == t[j + 1];
    }
  }

  /** `key` is a primary key of `t`, and every value of it is below `bound`. */
  predicate PrimaryKey<R>(t: seq<R>, key: R -> nat, bound: nat) {
    Distinct(t, key) && forall i :: 0 <= i < |t| ==> key(t[i]) < bound
  }

  /** A row keyed with the bound can be appended, and the bound moves past it. */
  lemma PrimaryKeyInsert<R>(t: seq<R>, x: R, key: R -> nat, bound: nat)
    requires PrimaryKey(t, key, bound) && key(x) == bound
    ensures PrimaryKey(t + [x], key, bound + 1)
  {
    forall y | y in t ensures key(y) != key(x) {
      var i :| 0 <= i < |t| && t[i] == y;
    }
    DistinctAppend(t, x, key);
  }

  lemma PrimaryKeyGrow<R>(t: seq<R>, key: R -> nat, bound: nat)
    requires PrimaryKey(t, key, bound)
    ensures PrimaryKey(t, key, bound + 1)
  {
  }

  lemma PrimaryKeyRemove<R(!new)>(t: seq<R>, p: R -> bool, key: R -> nat, bound: nat)
    requires PrimaryKey(t, key, bound)
    ensures PrimaryKey(Remove(t, p), key, bound)
  {
    DistinctRemove(t, p, key);
    var r := Remove(t, p);
    forall i | 0 <= i < |r| ensures key(r[i]) < bound {
      assert r[i] in r;
      var j :| 0 <= j < |t| && t[j] == r[i];
    }
  }

  lemma PrimaryKeyUpdate<R>(t: seq<R>, p: R -> bool, f: R -> R, key: R -> nat, bound: nat)
    requires PrimaryKey(t, key, bound)
    requires forall x :: key(f(x)) == key(x)
    ensures PrimaryKey(UpdateWhere(t, p, f), key, bound)
  {
    DistinctUpdate(t, p, f, key);
  }

  /** `updateMany` whose `data` leaves the key alone keeps the keys apart. */
  lemma DistinctUpdate<R, K>(t: seq<R>, p: R -> bool, f: R -> R, key: R -> K)
    requires Distinct(t, key)
    requires forall x :: key(f(x)) == key(x)
    ensures Distinct(UpdateWhere(t, p, f), key)
  {
  }

  /** `count({ where })`: how many rows satisfy `p`; zero exactly when none does. */
  function Count<R(!new)>(t: seq<R>, p: R -> bool): (n: nat)
    ensures n == 0 <==> forall x :: x in t ==> !p(x)
    ensures n <= |t|
  {
    var r := Filter(t, p);
    assert r != [] ==> r[0] in r;
    |r|
  }

  /** `deleteMany({ where })`: every row satisfying `p` is dropped, every other row kept. */
  function Remove<R(!new)>(t: seq<R>, p: R -> bool): (r: seq<R>)
    ensures forall x :: multiset(r)[x] == if p(x) then 0 else multiset(t)[x]
    ensures forall x :: x in r <==> x in t && !p(x)
    ensures Count(r, p) == 0
    ensures |r| == |t| - Count(t, p)
  {
    FilterPartition(t, p);
    assert Filter(t, x => !p(x)) == Filter(t, Not(p));
    Filter(t, Not(p))
  }

  function Not<R>(p: R -> bool): R -> bool {
    x => !p(x)
  }

  /** `updateMany({ where, data })`: rows satisfying `p` are rewritten by `f` in place,
      every other row keeps its position and value. */
  function UpdateWhere<R>(t: seq<R>, p: R -> bool, f: R -> R): (r: seq<R>)
    ensures |r| == |t|
    ensures forall i :: 0 <= i < |t| && !p(t[i]) ==> r[i] == t[i]
    ensures forall i :: 0 <= i < |t| && p(t[i]) ==> r[i] == f(t[i])
  {
    seq(|t|, i requires 0 <= i < |t| => if p(t[i]) then f(t[i]) else t[i])
  }

  /** An `updateMany` that matches no row leaves the table as it was. */
  lemma UpdateNothingMatched<R(!new)>(t: seq<R>, p: R -> bool, f: R -> R)
    requires Count(t, p) == 0
    ensures UpdateWhere(t, p, f) == t
  {
    var r := UpdateWhere(t, p, f);
    forall i | 0 <= i < |t| ensures r[i] == t[i] {
      assert t[i] in t;
    }
  }

  /** A `deleteMany` that matches no row leaves the table as it was. */
  lemma RemoveNothingMatched<R(!new)>(t: seq<R>, p: R -> bool)
    requires Count(t, p) == 0
    ensures Remove(t, p) == t
  {
    forall x | x in t ensures Not(p)(x) {
    }
    FilterKeepsAll(t, Not(p));
  }

  /** A filter every row passes keeps the table as it was. */
  lemma {:induction false} FilterKeepsAll<R(!new)>(t: seq<R>, p: R -> bool)
    requires forall x :: x in t ==> p(x)
    ensures Filter(t, p) == t
  {
    if t != [] {
      assert t == [t[0]] + t[1..];
      assert forall x :: x in t[1..] ==> x in t;
      FilterKeepsAll(t[1..], p);
    }
  }

  /** `findFirst({ where })`: the position of the first row satisfying `p`, if any. */
  function FindFirst<R(!new)>(t: seq<R>, p: R -> bool): (r: Option<nat>)
    ensures r.Some? ==> r.value < |t| && p(t[r.value])
    ensures r.Some? ==> forall j :: 0 <= j < r.value ==> !p(t[j])
    ensures r.None? <==> forall x :: x in t ==> !p(x)
  {
    if t == [] then None
    else if p(t[0]) then Some(0)
    else
      match FindFirst(t[1..], p)
      case None => None
      case Some(k) => Some(k + 1)
  }

  /** A row appended behind rows that do not satisfy `p` is the one `findFirst` returns. */
  lemma FindAppended<R(!new)>(t: seq<R>, x: R, p: R -> bool)
    requires forall y :: y in t ==> !p(y)
    requires p(x)
    ensures FindFirst(t + [x], p) == Some(|t|)
  {
    var r := FindFirst(t + [x], p);
    assert (t + [x])[|t|] == x;
    assert forall k :: 0 <= k < |t| ==> (t + [x])[k] in t;
  }

  /** The direction of an `orderBy` clause. */
  datatype Direction = Asc | Desc

  predicate InOrder(dir: Direction, a: int, b: int) {
    if dir == Asc then a <= b else a >= b
  }

  predicate SortedBy<R>(s: seq<R>, key: R -> int, dir: Direction) {
    forall i, j :: 0 <= i < j < |s| ==> InOrder(dir, key(s[i]), key(s[j]))
  }

  /** Places `x` in front of the first row it may precede. */
  function Insert<R>(x: R, s: seq<R>, key: R -> int, dir: Direction): (r: seq<R>)
    requires SortedBy(s, key, dir)
    ensures SortedBy(r, key, dir)
    ensures multiset(r) == multiset(s) + multiset{x}
    ensures |r| == |s| + 1
  {
    if s == [] then [x]
    else if InOrder(dir, key(x), key(s[0])) then
      assert SortedBy([x] + s, key, dir) by { HeadPrecedes(x, s, key, dir); }
      [x] + s
    else
      var rest := Insert(x, s[1..], key, dir);
      assert s == [s[0]] + s[1..];
      assert SortedBy([s[0]] + rest, key, dir) by { HeadPrecedesAll(s, x, rest, key, dir); }
      [s[0]] + rest
  }

  lemma HeadPrecedes<R>(x: R, s: seq<R>, key: R -> int, dir: Direction)
    requires SortedBy(s, key, dir) && s != []
    requires InOrder(dir, key(x), key(s[0]))
    ensures SortedBy([x] + s, key, dir)
  {
    var r := [x] + s;
    forall i, j | 0 <= i < j < |r| ensures InOrder(dir, key(r[i]), key(r[j])) {
      if i == 0 {
        assert r[j] == s[j - 1];
        if j > 1 { assert InOrder(dir, key(s[0]), key(s[j - 1])); }
      } else {
        assert r[i] == s[i - 1] && r[j] == s[j - 1];
      }
    }
  }

  lemma HeadPrecedesAll<R>(s: seq<R>, x: R, rest: seq<R>, key: R -> int, dir: Direction)
    requires SortedBy(s, key, dir) && s != []
    requires !InOrder(dir, key(x), key(s[0]))
    requires SortedBy(rest, key, dir)
    requires multiset(rest) == multiset(s[1..]) + multiset{x}
    ensures SortedBy([s[0]] + rest, key, dir)
  {
    var r := [s[0]] + rest;
    forall i, j | 0 <= i < j < |r| ensures InOrder(dir, key(r[i]), key(r[j])) {
      if i == 0 {
        var y := rest[j - 1];
        assert r[j] == y;
        assert y in multiset(rest);
        if y != x {
          assert y in multiset(s[1..]);
          var k :| 0 <= k < |s[1..]| && s[1..][k] == y;
          assert s[k + 1] == y;
        }
      } else {
        assert r[i] == rest[i - 1] && r[j] == rest[j - 1];
      }
    }
  }

  /** `orderBy: { <key>: <dir> }`: the same rows, sorted on `key`. */
  function OrderBy<R>(t: seq<R>, key: R -> int, dir: Direction): (r: seq<R>)
    ensures SortedBy(r, key, dir)
    ensures multiset(r) == multiset(t)
    ensures |r| == |t|
  {
    if t == [] then []
    else
      assert t == [t[0]] + t[1..];
      Insert(t[0], OrderBy(t[1..], key, dir), key, dir)
  }

  /** `skip`/`take`. A non-negative `take` reads up to `take` rows forward from position
      `skip`. A negative `take` reads backwards: it skips `skip` rows at the end and returns
      up to `-take` rows before them, in table order. */
  function Window<R>(s: seq<R>, skip: nat, take: int): (r: seq<R>)
    ensures take >= 0 ==> |r| == Min(take, |s| - Min(skip, |s|))
    ensures take >= 0 ==> forall i :: 0 <= i < |r| ==> r[i] == s[skip + i]
    ensures take < 0 ==> |r| == Min(-take, |s| - Min(skip, |s|))
    ensures take < 0 ==> forall i :: 0 <= i < |r| ==> r[i] == s[|s| - Min(skip, |s|) - |r| + i]
  {
    if take >= 0 then
      s[Min(skip, |s|)..Min(skip + take, |s|)]
    else
      var e := |s| - Min(skip, |s|);
      s[Max(0, e + take)..e]
  }

  /** A window holds rows of the sequence it reads, no more of them than the sequence has,
      and keeps the sequence's order. */
  lemma WindowFacts<R>(s: seq<R>, skip: nat, take: int, key: R -> int, dir: Direction)
    ensures forall x :: x in Window(s, skip, take) ==> x in s
    ensures |Window(s, skip, take)| <= |s|
    ensures SortedBy(s, key, dir) ==> SortedBy(Window(s, skip, take), key, dir)
  {
    var w := Window(s, skip, take);
    if take >= 0 {
      assert w == s[Min(skip, |s|)..Min(skip + take, |s|)];
    } else {
      var e := |s| - Min(skip, |s|);
      assert w == s[Max(0, e + take)..e];
    }
  }

  /** With a positive page size, row `k` is item `k % size` of the window that starts at
      the multiple of `size` just below `k`. */
  lemma WindowCovers<R>(s: seq<R>, size: int, k: nat)
    requires size > 0 && k < |s|
    ensures (k / size) * size >= 0
    ensures var w := Window(s, (k / size) * size, size);
      k % size < |w| && w[k % size] == s[k]
  {
    var skip := (k / size) * size;
    assert k == skip + k % size;
    var w := Window(s, skip, size);
    assert |w| == Min(size, |s| - Min(skip, |s|));
  }

  /** A forward window is empty exactly when it starts at or past the end. */
  lemma WindowEmpty<R>(s: seq<R>, skip: nat, take: int)
    requires take > 0
    ensures |Window(s, skip, take)| > 0 <==> skip < |s|
  {
  }

  /** `select`: one projected value per row, in the rows' order. */
  function Select<R, S>(t: seq<R>, f: R -> S): (r: seq<S>)
    ensures |r| == |t|
    ensures forall i :: 0 <= i < |t| ==> r[i] == f(t[i])
  {
    seq(|t|, i requires 0 <= i < |t| => f(t[i]))
  }

  /** `aggregate({ _sum })` over the given rows (zero for no rows). */
  function SumOf<R>(t: seq<R>, val: R -> int): (s: int)
    ensures (forall x :: x in t ==> val(x) >= 0) ==> s >= 0
    ensures t == [] ==> s == 0
  {
    if t == [] then 0 else val(t[0]) + SumOf(t[1..], val)
  }

  /** A row added at the end adds its own value to the sum. */
  lemma {:induction false} SumOfAppend<R>(t: seq<R>, x: R, val: R -> int)
    ensures SumOf(t + [x], val) == SumOf(t, val) + val(x)
  {
    if t == [] {
      assert [] + [x] == [x];
    } else {
      SumOfAppend(t[1..], x, val);
      assert (t + [x])[1..] == t[1..] + [x];
    }
  }

  /** `val` on the rows satisfying `p`, zero on the others. */
  function Masked<R>(p: R -> bool, val: R -> int): R -> int {
    x => if p(x) then val(x) else 0
  }

  /** Summing the rows a filter keeps is summing every row with the others counted as zero. */
  lemma {:induction false} SumOfFilter<R(!new)>(t: seq<R>, p: R -> bool, val: R -> int)
    ensures SumOf(Filter(t, p), val) == SumOf(t, Masked(p, val))
  {
    if t != [] {
      SumOfFilter(t[1..], p, val);
      if p(t[0]) {
        assert Filter(t, p) == [t[0]] + Filter(t[1..], p);
        assert ([t[0]] + Filter(t[1..], p))[1..] == Filter(t[1..], p);
      } else {
        assert Filter(t, p) == Filter(t[1..], p);
      }
    }
  }
}
