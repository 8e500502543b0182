/** Vocabulary shared by every part of the model: optional values, machine-integer
    limits, sums over finite maps and sequences, and a stable sort. */
module Collections {

  const U64_MAX: nat := 0xFFFF_FFFF_FFFF_FFFF
  const I64_MAX: nat := 0x7FFF_FFFF_FFFF_FFFF

  datatype Option<+T> = None | Some(value: T) {
    function GetOr(default: T): T {
      match this
      case Some(v) => v
      case None => default
    }
  }

  function Min(a: int, b: int): int { if a <= b then a else b }

  function Max(a: int, b: int): int { if a >= b then a else b }

  /** `u64::saturating_add`. */
  function SatAdd(a: nat, b: nat): nat { Min(a + b, U64_MAX) }

  /** `u64::saturating_sub`. */
  function SatSub(a: nat, b: nat): nat { if a >= b then a - b else 0 }

  /** `u64::saturating_mul`. */
  function SatMul(a: nat, b: nat): nat { Min(a * b, U64_MAX) }

  // ---------------------------------------------------------------- sums over maps

  /** The sum of all values of a finite map. */
  ghost function Total<K>(m: map<K, nat>): nat
    decreases |m|
  {
    if m == map[] then 0
    else
      var k :| k in m;
      assert |m - {k}| < |m| by { SmallerWithout(m, k); }
      m[k] + Total(m - {k})
  }

  lemma SmallerWithout<K, V>(m: map<K, V>, k: K)
    requires k in m
    ensures |m - {k}| == |m| - 1
  {
    assert (m - {k}).Keys == m.Keys - {k};
    assert |m.Keys - {k}| == |m.Keys| - 1;
  }

  /** Any key may be split off a sum. */
  lemma {:induction false} TotalSplit<K>(m: map<K, nat>, k: K)
    requires k in m
    ensures Total(m) == m[k] + Total(m - {k})
    decreases |m|
  {
    var p :| p in m && Total(m) == m[p] + Total(m - {p});
    if p != k {
      SmallerWithout(m, p);
      SmallerWithout(m, k);
      TotalSplit(m - {p}, k);
      TotalSplit(m - {k}, p);
      assert m - {p} - {k} == m - {k} - {p};
    }
  }

  lemma TotalPut<K>(m: map<K, nat>, k: K, v: nat)
    ensures Total(m[k := v]) == v + Total(m - {k})
    ensures k !in m ==> Total(m[k := v]) == v + Total(m)
    ensures k in m ==> Total(m[k := v]) + m[k] == v + Total(m)
  {
    TotalSplit(m[k := v], k);
    assert m[k := v] - {k} == m - {k};
    if k in m {
      TotalSplit(m, k);
    } else {
      assert m - {k} == m;
    }
  }

  lemma TotalBounds<K>(m: map<K, nat>, k: K)
    requires k in m
    ensures m[k] <= Total(m)
  {
    TotalSplit(m, k);
  }

  /** A part of a map sums to no more than the map. */
  lemma {:induction false} TotalSubmap<K>(part: map<K, nat>, whole: map<K, nat>)
    requires part.Keys <= whole.Keys && forall k :: k in part ==> part[k] <= whole[k]
    ensures Total(part) <= Total(whole)
    decreases |part|
  {
    if part != map[] {
      var k :| k in part;
      TotalSplit(part, k);
      TotalSplit(whole, k);
      SmallerWithout(part, k);
      TotalSubmap(part - {k}, whole - {k});
    }
  }

  lemma {:induction false} TotalZero<K>(m: map<K, nat>)
    requires forall k :: k in m ==> m[k] == 0
    ensures Total(m) == 0
    decreases |m|
  {
    if m != map[] {
      var k :| k in m;
      TotalSplit(m, k);
      SmallerWithout(m, k);
      TotalZero(m - {k});
    }
  }

  /** A finite set of identifiers leaves a fresh one. */
  lemma {:induction false} FreshId(used: set<nat>) returns (id: nat)
    ensures id !in used
    ensures forall u :: u in used ==> u < id
    decreases used
  {
    if used == {} {
      id := 0;
    } else {
      var u :| u in used;
      var rest := FreshId(used - {u});
      id := Max(rest, u + 1);
      forall v | v in used ensures v < id {
        assert v == u || v in used - {u};
      }
    }
  }

  // ----------------------------------------------------------- sums over sequences

  function Sum(s: seq<nat>): nat {
    if s == [] then 0 else s[0] + Sum(s[1..])
  }

  lemma {:induction false} SumAppend(a: seq<nat>, b: seq<nat>)
    ensures Sum(a + b) == Sum(a) + Sum(b)
  {
    if a == [] {
      assert a + b == b;
    } else {
      assert (a + b)[1..] == a[1..] + b;
      SumAppend(a[1..], b);
    }
  }

  // ------------------------------------------------------------------ slices

  lemma SliceOfSlice<T>(s: seq<T>, a: nat, b: nat, i: nat, j: nat)
    requires a <= b <= |s| && i <= j <= b - a
    ensures s[a..b][i..j] == s[a + i..a + j]
  {
    forall k | 0 <= k < j - i ensures s[a..b][i..j][k] == s[a + i..a + j][k] {
      assert s[a..b][i..j][k] == s[a..b][i + k];
    }
  }

  lemma SliceJoin<T>(s: seq<T>, a: nat, b: nat, c: nat)
    requires a <= b <= c <= |s|
    ensures s[a..b] + s[b..c] == s[a..c]
    ensures s[a..b] <= s[a..c]
  {
  }

  // ------------------------------------------------------------------ stable sorting

  /** A total preorder, as every Rust comparator used here induces. */
  ghost predicate TotalPreorder<T(!new)>(leq: (T, T) -> bool) {
    && (forall a, b :: leq(a, b) || leq(b, a))
    && (forall a, b, c :: leq(a, b) && leq(b, c) ==> leq(a, c))
  }

  ghost predicate Sorted<T>(s: seq<T>, leq: (T, T) -> bool) {
    forall i, j :: 0 <= i < j < |s| ==> leq(s[i], s[j])
  }

  function Insert<T>(x: T, s: seq<T>, leq: (T, T) -> bool): seq<T> {
    if s == [] then [x]
    else if leq(x, s[0]) then [x] + s
    else [s[0]] + Insert(x, s[1..], leq)
  }

  /** `slice::sort_by`. */
  function SortBy<T>(s: seq<T>, leq: (T, T) -> bool): seq<T> {
    if s == [] then [] else Insert(s[0], SortBy(s[1..], leq), leq)
  }

  lemma {:induction false} InsertCorrect<T(!new)>(x: T, s: seq<T>, leq: (T, T) -> bool)
    requires TotalPreorder(leq) && Sorted(s, leq)
    ensures Sorted(Insert(x, s, leq), leq)
    ensures multiset(Insert(x, s, leq)) == multiset(s) + multiset{x}
  {
    if s == [] {
    } else if leq(x, s[0]) {
      var r := [x] + s;
      assert forall j :: 1 <= j < |r| ==> leq(s[0], r[j]) || r[j] == s[0];
    } else {
      InsertCorrect(x, s[1..], leq);
      var rest := Insert(x, s[1..], leq);
      assert s == [s[0]] + s[1..];
      forall j | 0 <= j < |rest| ensures leq(s[0], rest[j]) {
        assert rest[j] in multiset(rest);
        assert rest[j] in multiset(s[1..]) || rest[j] == x;
      }
    }
  }

  lemma {:induction false} InsertLength<T>(x: T, s: seq<T>, leq: (T, T) -> bool)
    ensures |Insert(x, s, leq)| == |s| + 1
  {
    if s != [] && !leq(x, s[0]) { InsertLength(x, s[1..], leq); }
  }

  lemma {:induction false} SortLength<T>(s: seq<T>, leq: (T, T) -> bool)
    ensures |SortBy(s, leq)| == |s|
  {
    if s != [] {
      SortLength(s[1..], leq);
      InsertLength(s[0], SortBy(s[1..], leq), leq);
    }
  }

  lemma {:induction false} SortCorrect<T(!new)>(s: seq<T>, leq: (T, T) -> bool)
    requires TotalPreorder(leq)
    ensures Sorted(SortBy(s, leq), leq)
    ensures multiset(SortBy(s, leq)) == multiset(s)
    ensures |SortBy(s, leq)| == |s|
  {
    SortLength(s, leq);
    if s != [] {
      SortCorrect(s[1..], leq);
      InsertCorrect(s[0], SortBy(s[1..], leq), leq);
      assert multiset(s) == multiset(s[1..]) + multiset{s[0]} by { assert s == [s[0]] + s[1..]; }
    }
  }

  ghost predicate NoDup<T>(s: seq<T>) {
    forall i, j :: 0 <= i < j < |s| ==> s[i] != s[j]
  }

  lemma {:induction false} NoDupCounts<T>(s: seq<T>)
    ensures NoDup(s) <==> forall x :: x in multiset(s) ==> multiset(s)[x] == 1
  {
    if s != [] {
      var n := |s| - 1;
      NoDupCounts(s[..n]);
      assert s == s[..n] + [s[n]];
      assert multiset(s) == multiset(s[..n]) + multiset{s[n]};
      if NoDup(s) {
        assert s[n] !in s[..n];
        assert NoDup(s[..n]);
      } else {
        var i, j :| 0 <= i < j < |s| && s[i] == s[j];
        if j == n {
          assert s[n] in s[..n];
          assert multiset(s)[s[n]] >= 2;
        } else {
          assert s[..n][i] == s[..n][j];
          var x :| x in multiset(s[..n]) && multiset(s[..n])[x] != 1;
          assert multiset(s)[x] != 1;
        }
      }
    }
  }

  /** A permutation of a sequence without duplicates has none. */
  lemma PermutationNoDup<T>(a: seq<T>, b: seq<T>)
    requires multiset(a) == multiset(b) && NoDup(a)
    ensures NoDup(b)
  {
    NoDupCounts(a);
    NoDupCounts(b);
  }
}
