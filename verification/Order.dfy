/** The orders the program iterates and sorts by: text order, the lists a `BTreeSet` yields, and the stable sort of a
    list. */
module Order {

  /** Text order, character by character. */
  predicate Less(a: string, b: string) {
    b != [] && (a == [] || a[0] < b[0] || (a[0] == b[0] && Less(a[1..], b[1..])))
  }

  /** A strict total order on `T`. */
  ghost predicate Strict<T(!new)>(less: (T, T) -> bool) {
    && (forall x :: !less(x, x))
    && (forall x, y, z :: less(x, y) && less(y, z) ==> less(x, z))
    && (forall x, y :: x == y || less(x, y) || less(y, x))
  }

  lemma {:induction false} LessIrreflexive(a: string)
    ensures !Less(a, a)
  {
    if a != [] { LessIrreflexive(a[1..]); }
  }

  lemma {:induction false} LessTransitive(a: string, b: string, c: string)
    requires Less(a, b) && Less(b, c)
    ensures Less(a, c)
  {
    if a != [] && a[0] == b[0] == c[0] { LessTransitive(a[1..], b[1..], c[1..]); }
  }

  lemma {:induction false} LessTotal(a: string, b: string)
    ensures a == b || Less(a, b) || Less(b, a)
  {
    if a != [] && b != [] && a[0] == b[0] {
      LessTotal(a[1..], b[1..]);
      assert a == [a[0]] + a[1..] && b == [b[0]] + b[1..];
    }
  }

  /** `a` and `b` agree before `k`, and there `a` ends or has the lesser character. */
  ghost predicate FirstDiffer(a: string, b: string, k: nat) {
    k <= |a| && k < |b| && a[..k] == b[..k] && (k == |a| || a[k] < b[k])
  }

  /** A text comes before another exactly when it is a proper prefix of it, or has the lesser character where they first
      differ. */
  lemma {:induction false} LessExactly(a: string, b: string)
    ensures Less(a, b) <==> exists k: nat :: FirstDiffer(a, b, k)
  {
    if a == [] {
      if b != [] { assert FirstDiffer(a, b, 0); }
    } else if b != [] {
      LessExactly(a[1..], b[1..]);
      if a[0] < b[0] { assert FirstDiffer(a, b, 0); }
      if k: nat :| a[0] == b[0] && FirstDiffer(a[1..], b[1..], k) {
        assert a[..k + 1] == [a[0]] + a[1..][..k] && b[..k + 1] == [b[0]] + b[1..][..k];
        assert FirstDiffer(a, b, k + 1);
      }
      if k: nat :| FirstDiffer(a, b, k) && k > 0 {
        assert a[..k][0] == a[0] && b[..k][0] == b[0];
        assert a[1..][..k - 1] == a[..k][1..] && b[1..][..k - 1] == b[..k][1..];
        assert FirstDiffer(a[1..], b[1..], k - 1);
      }
    }
  }

  /** Text order is a strict total order. */
  lemma TextOrder()
    ensures Strict(Less)
  {
    forall x ensures !Less(x, x) { LessIrreflexive(x); }
    forall x, y, z | Less(x, y) && Less(y, z) ensures Less(x, z) { LessTransitive(x, y, z); }
    forall x, y ensures x == y || Less(x, y) || Less(y, x) { LessTotal(x, y); }
  }

  lemma LeastExists<T(!new)>(s: set<T>, less: (T, T) -> bool)
    requires Strict(less) && s != {}
    ensures exists x :: x in s && forall y :: y in s && y != x ==> less(x, y)
  {
    var x :| x in s;
    if s != {x} {
      LeastExists(s - {x}, less);
      var l :| l in s - {x} && forall y :: y in s - {x} && y != l ==> less(l, y);
      var m := if less(x, l) then x else l;
      forall y | y in s && y != m ensures less(m, y) {
        if y != x && y != l { assert less(l, y); }
      }
    }
  }

  /** The least element of `s`. */
  function Least<T(!new)>(s: set<T>, less: (T, T) -> bool): (m: T)
    requires Strict(less) && s != {}
    ensures m in s && forall y :: y in s && y != m ==> less(m, y)
  {
    LeastExists(s, less);
    var m :| m in s && forall y :: y in s && y != m ==> less(m, y);
    m
  }

  /** The elements of `s` in order, as a `BTreeSet` yields them: each once, ascending. */
  function Ascending<T(!new)>(s: set<T>, less: (T, T) -> bool): (r: seq<T>)
    requires Strict(less)
    ensures forall x :: x in r <==> x in s
    ensures forall i, j :: 0 <= i < j < |r| ==> less(r[i], r[j])
    ensures |r| == |s|
    decreases |s|
  {
    if s == {} then []
    else
      var m := Least(s, less);
      [m] + Ascending(s - {m}, less)
  }

  /** `x` put before the first element of `r` it does not come after. */
  function Insert<T>(x: T, r: seq<T>, less: (T, T) -> bool): (q: seq<T>)
    ensures multiset(q) == multiset{x} + multiset(r)
  {
    if r == [] then [x]
    else if less(r[0], x) then
      assert r == [r[0]] + r[1..];
      [r[0]] + Insert(x, r[1..], less)
    else [x] + r
  }

  /** The stable sort of `s`. */
  function SortBy<T>(s: seq<T>, less: (T, T) -> bool): (q: seq<T>)
    ensures multiset(q) == multiset(s)
  {
    if s == [] then []
    else
      assert s == [s[0]] + s[1..];
      Insert(s[0], SortBy(s[1..], less), less)
  }

  /** No element of `q` comes after a later one. */
  predicate InOrder<T>(q: seq<T>, less: (T, T) -> bool) {
    forall i, j :: 0 <= i < j < |q| ==> !less(q[j], q[i])
  }

  /** `less` compares by a rank: what the program's sort keys are. */
  ghost predicate Weak<T(!new)>(less: (T, T) -> bool) {
    && (forall x, y :: less(x, y) ==> !less(y, x))
    && (forall x, y, z :: !less(y, x) && !less(z, y) ==> !less(z, x))
  }

  lemma {:induction false} InsertOrders<T(!new)>(x: T, r: seq<T>, less: (T, T) -> bool)
    requires Weak(less) && InOrder(r, less)
    ensures InOrder(Insert(x, r, less), less)
  {
    if r != [] && less(r[0], x) {
      InsertOrders(x, r[1..], less);
      var q := Insert(x, r[1..], less);
      forall y | y in q ensures !less(y, r[0]) {
        assert y in multiset(q);
        if y in r[1..] { var k :| 0 <= k < |r[1..]| && r[1..][k] == y; assert r[k + 1] == y; }
      }
    } else if r != [] {
      forall j | 0 <= j < |r| ensures !less(r[j], x) {
        if j > 0 { assert !less(r[j], r[0]); }
      }
    }
  }

  lemma {:induction false} SortOrders<T(!new)>(s: seq<T>, less: (T, T) -> bool)
    requires Weak(less)
    ensures InOrder(SortBy(s, less), less)
  {
    if s != [] {
      SortOrders(s[1..], less);
      InsertOrders(s[0], SortBy(s[1..], less), less);
    }
  }

  /** What `f` yields for each element of `s`, in order. */
  function Gather<A, B>(s: seq<A>, f: A -> seq<B>): seq<B> {
    if s == [] then [] else Gather(s[..|s| - 1], f) + f(s[|s| - 1])
  }

  lemma GatherNext<A, B>(s: seq<A>, f: A -> seq<B>, i: nat)
    requires i < |s|
    ensures Gather(s[..i + 1], f) == Gather(s[..i], f) + f(s[i])
  {
    assert s[..i + 1][..i] == s[..i];
  }

  lemma {:induction false} GatherHas<A(!new), B>(s: seq<A>, f: A -> seq<B>, b: B)
    ensures b in Gather(s, f) <==> exists a :: a in s && b in f(a)
  {
    if s != [] {
      var rest, last := s[..|s| - 1], s[|s| - 1];
      assert s == rest + [last];
      GatherHas(rest, f, b);
    }
  }

  lemma GatherAll<A, B>(s: seq<A>, f: A -> seq<B>)
    ensures Gather(s[..|s|], f) == Gather(s, f)
  {
    assert s[..|s|] == s;
  }

  /** Where two elements of a gathering came from. */
  lemma {:induction false} GatherPairs<A, B>(s: seq<A>, f: A -> seq<B>, i: nat, j: nat)
      returns (a: nat, b: nat, x: nat, y: nat)
    requires i < j < |Gather(s, f)|
    ensures a <= b < |s| && x < |f(s[a])| && y < |f(s[b])| && (a == b ==> x < y)
    ensures Gather(s, f)[i] == f(s[a])[x] && Gather(s, f)[j] == f(s[b])[y]
  {
    var n := |s| - 1;
    var before := Gather(s[..n], f);
    if j < |before| {
      a, b, x, y := GatherPairs(s[..n], f, i, j);
    } else {
      b, y := n, j - |before|;
      if i < |before| {
        a, x := GatherFrom(s[..n], f, i);
      } else {
        a, x := n, i - |before|;
      }
    }
  }

  lemma {:induction false} GatherFrom<A, B>(s: seq<A>, f: A -> seq<B>, i: nat) returns (a: nat, x: nat)
    requires i < |Gather(s, f)|
    ensures a < |s| && x < |f(s[a])| && Gather(s, f)[i] == f(s[a])[x]
  {
    var n := |s| - 1;
    var before := Gather(s[..n], f);
    if i < |before| {
      a, x := GatherFrom(s[..n], f, i);
    } else {
      a, x := n, i - |before|;
    }
  }
}
