/** Generic values and sequence operations shared by the whole model.

    JavaScript objects, `Map`s and `Set`s keep their keys in insertion order; the
    model represents them as association lists `seq<(K, V)>` and sequences
    without repetitions, so that iteration order is part of every statement. */
module Collections {

  datatype Option<+T> = None | Some(value: T)

  /** Outcome of a promise as `Promise.allSettled` reports it. */
  datatype Settled<+T> = Fulfilled(value: T) | Rejected(reason: string)

  /** No element occurs twice. */
  predicate NoDup<T(==)>(s: seq<T>) {
    forall i, j :: 0 <= i < j < |s| ==> s[i] != s[j]
  }

  /** The elements of `xs` without repetitions, each kept at its first occurrence:
      what a JavaScript `Set` fed with `xs` holds, and what a loop of
      `if (!out.includes(x)) out.push(x)` builds. */
  function Distinct<T(==)>(xs: seq<T>): (r: seq<T>)
    ensures NoDup(r)
    ensures |r| <= |xs|
    decreases |xs|
  {
    if xs == [] then []
    else
      var init := xs[..|xs| - 1];
      var d := Distinct(init);
      if xs[|xs| - 1] in d then d else d + [xs[|xs| - 1]]
  }

  /** `Distinct` keeps exactly the elements of its input. */
  lemma {:induction false} DistinctMembers<T>(xs: seq<T>, x: T)
    ensures x in Distinct(xs) <==> x in xs
    decreases |xs|
  {
    if xs != [] {
      var init := xs[..|xs| - 1];
      DistinctMembers(init, x);
      assert xs == init + [xs[|xs| - 1]];
    }
  }

  /** One step of `Distinct`: appending an element either leaves the result alone
      or appends that element. */
  lemma DistinctSnoc<T>(xs: seq<T>, x: T)
    ensures Distinct(xs + [x]) == if x in Distinct(xs) then Distinct(xs) else Distinct(xs) + [x]
  {
    assert (xs + [x])[..|xs + [x]| - 1] == xs;
  }

  /** `Distinct` keeps each element at its first occurrence, in the order of
      those occurrences. */
  lemma {:induction false} DistinctOrder<T>(xs: seq<T>)
    ensures KeepsFirstOccurrences(Distinct(xs), xs)
    decreases |xs|
  {
    if xs == [] {
      assert EmbedsFirst([], Distinct(xs), xs);
    } else {
      var init := xs[..|xs| - 1];
      var x := xs[|xs| - 1];
      DistinctOrder(init);
      var idx :| EmbedsFirst(idx, Distinct(init), init);
      assert xs == init + [x];
      DistinctMembers(init, x);
      DistinctSnoc(init, x);
      FirstOccurrencesSnoc(idx, Distinct(init), init, x);
      if x in init {
        assert EmbedsFirst(idx, Distinct(xs), xs);
      } else {
        assert EmbedsFirst(idx + [|init|], Distinct(xs), xs);
      }
    }
  }

  /** An element appended to `b` keeps the first occurrences of `b` where they
      are, and is a first occurrence itself when `b` lacks it. */
  lemma FirstOccurrencesSnoc<T>(idx: seq<int>, a: seq<T>, b: seq<T>, x: T)
    requires EmbedsFirst(idx, a, b)
    ensures EmbedsFirst(idx, a, b + [x])
    ensures x !in b ==> EmbedsFirst(idx + [|b|], a + [x], b + [x])
  {
    var bx := b + [x];
    forall k | 0 <= k < |idx|
      ensures 0 <= idx[k] < |bx| && bx[idx[k]] == a[k] && bx[idx[k]] !in bx[..idx[k]]
    {
      assert bx[..idx[k]] == b[..idx[k]];
    }
    assert EmbedsFirst(idx, a, bx);
    if x !in b {
      var idx' := idx + [|b|];
      var ax := a + [x];
      forall k | 0 <= k < |idx'|
        ensures 0 <= idx'[k] < |bx| && bx[idx'[k]] == ax[k] && bx[idx'[k]] !in bx[..idx'[k]]
      {
        if k < |idx| {
          assert idx'[k] == idx[k];
          assert bx[..idx[k]] == b[..idx[k]];
        } else {
          assert bx[..|b|] == b;
        }
      }
      forall k, l | 0 <= k < l < |idx'| ensures idx'[k] < idx'[l] {
        if l == |idx| {
          assert idx[k] < |b|;
        }
      }
      assert EmbedsFirst(idx', ax, bx);
    }
  }

  /** A sequence without repetitions is its own `Distinct`. */
  lemma {:induction false} DistinctOfNoDup<T>(xs: seq<T>)
    requires NoDup(xs)
    ensures Distinct(xs) == xs
    decreases |xs|
  {
    if xs != [] {
      var init := xs[..|xs| - 1];
      DistinctOfNoDup(init);
      assert xs == init + [xs[|xs| - 1]];
    }
  }

  /** The first `n` elements, or all of them when there are fewer (`Array.prototype.slice(0, n)`). */
  function Take<T>(s: seq<T>, n: nat): (r: seq<T>)
    ensures |r| <= n && |r| <= |s|
    ensures |r| == if |s| <= n then |s| else n
    ensures r <= s
    ensures |s| <= n ==> r == s
  {
    if |s| <= n then s else s[..n]
  }

  /** Taking from a list with one more element in front. */
  lemma TakeFront<T>(x: T, s: seq<T>, n: nat)
    requires n >= 1
    ensures Take([x] + s, n) == [x] + Take(s, n - 1)
  {
    if |s| > n - 1 {
      assert ([x] + s)[..n] == [x] + s[..n - 1];
    }
  }

  lemma TakeNoDup<T>(s: seq<T>, n: nat)
    requires NoDup(s)
    ensures NoDup(Take(s, n))
  {
  }

  function Min(a: nat, b: nat): nat {
    if a <= b then a else b
  }

  /** `idx` places each element of `a` at a position of `b` that holds it, the
      positions strictly increasing. */
  ghost predicate Embeds<T>(idx: seq<int>, a: seq<T>, b: seq<T>) {
    && |idx| == |a|
    && (forall k :: 0 <= k < |idx| ==> 0 <= idx[k] < |b| && b[idx[k]] == a[k])
    && (forall k, l :: 0 <= k < l < |idx| ==> idx[k] < idx[l])
  }

  /** `a` is `b` with some of its elements left out, the others in their order:
      what `b.filter(...)` returns. */
  ghost predicate IsSubsequence<T>(a: seq<T>, b: seq<T>) {
    exists idx :: Embeds(idx, a, b)
  }

  /** Each element of `a` is taken from its first occurrence in `b`. */
  ghost predicate EmbedsFirst<T>(idx: seq<int>, a: seq<T>, b: seq<T>) {
    && Embeds(idx, a, b)
    && forall k :: 0 <= k < |idx| ==> b[idx[k]] !in b[..idx[k]]
  }

  /** `a` lists elements of `b` in the order of their first occurrences in `b`. */
  ghost predicate KeepsFirstOccurrences<T>(a: seq<T>, b: seq<T>) {
    exists idx :: EmbedsFirst(idx, a, b)
  }

  /** The empty list is a subsequence of any list. */
  lemma EmptySubsequence<T>(b: seq<T>)
    ensures IsSubsequence([], b)
  {
    assert Embeds([], [], b);
  }

  /** Every list is a subsequence of itself. */
  lemma SubsequenceRefl<T>(b: seq<T>)
    ensures IsSubsequence(b, b)
  {
    var idx := seq(|b|, k requires 0 <= k < |b| => k);
    assert Embeds(idx, b, b);
  }

  /** An element added at the end of `b` may be skipped or kept. */
  lemma SubsequenceSnoc<T>(a: seq<T>, b: seq<T>, x: T)
    requires IsSubsequence(a, b)
    ensures IsSubsequence(a, b + [x])
    ensures IsSubsequence(a + [x], b + [x])
  {
    var idx :| Embeds(idx, a, b);
    assert Embeds(idx, a, b + [x]);
    assert Embeds(idx + [|b|], a + [x], b + [x]);
  }

  /** An element added at the front of `b` may be skipped or kept. */
  lemma SubsequenceCons<T>(a: seq<T>, b: seq<T>, x: T)
    requires IsSubsequence(a, b)
    ensures IsSubsequence(a, [x] + b)
    ensures IsSubsequence([x] + a, [x] + b)
  {
    var idx :| Embeds(idx, a, b);
    var shifted := seq(|idx|, k requires 0 <= k < |idx| => idx[k] + 1);
    var xb := [x] + b;
    forall k | 0 <= k < |shifted| ensures 0 <= shifted[k] < |xb| && xb[shifted[k]] == a[k] {
      assert xb[idx[k] + 1] == b[idx[k]];
    }
    assert Embeds(shifted, a, xb);
    var front := [0] + shifted;
    forall k | 0 <= k < |front| ensures 0 <= front[k] < |xb| && xb[front[k]] == ([x] + a)[k] {
      if k > 0 {
        assert front[k] == shifted[k - 1];
      }
    }
    assert Embeds(front, [x] + a, xb);
  }

  /** A prefix of a subsequence is a subsequence. */
  lemma SubsequencePrefix<T>(a: seq<T>, b: seq<T>, p: seq<T>)
    requires IsSubsequence(a, b) && p <= a
    ensures IsSubsequence(p, b)
  {
    var idx :| Embeds(idx, a, b);
    assert Embeds(idx[..|p|], p, b);
  }

  /** A subsequence of a subsequence is a subsequence. */
  lemma SubsequenceTrans<T>(a: seq<T>, b: seq<T>, c: seq<T>)
    requires IsSubsequence(a, b) && IsSubsequence(b, c)
    ensures IsSubsequence(a, c)
  {
    var ab :| Embeds(ab, a, b);
    var bc :| Embeds(bc, b, c);
    var ac := seq(|ab|, k requires 0 <= k < |ab| => bc[ab[k]]);
    assert Embeds(ac, a, c);
  }
  /** The elements of `s` that `keep` accepts: all of them, each as often as in
      `s`, in their order (`s.filter(keep)`). */
  function Filter<T(==, !new)>(s: seq<T>, keep: T -> bool): (r: seq<T>)
    ensures |r| <= |s|
    ensures forall x :: x in r <==> x in s && keep(x)
    ensures IsSubsequence(r, s)
    decreases |s|
  {
    if s == [] then
      EmptySubsequence(s);
      []
    else
      var init := s[..|s| - 1];
      var last := s[|s| - 1];
      assert s == init + [last];
      SubsequenceSnoc(Filter(init, keep), init, last);
      if keep(last) then Filter(init, keep) + [last] else Filter(init, keep)
  }

  /** An accepted value occurs in the filtered list exactly as often as in the list; any other value not at all. */
  lemma {:induction false} FilterCount<T(!new)>(s: seq<T>, keep: T -> bool, x: T)
    ensures multiset(Filter(s, keep))[x] == if keep(x) then multiset(s)[x] else 0
    decreases |s|
  {
    if s != [] {
      var init := s[..|s| - 1];
      var last := s[|s| - 1];
      FilterCount(init, keep, x);
      assert s == init + [last];
      assert multiset(s) == multiset(init) + multiset{last};
    }
  }

  /** `r` holds every value `keep` accepts exactly as often as `s` does, and no
      other value. */
  ghost predicate CountsKept<T(!new)>(r: seq<T>, s: seq<T>, keep: T -> bool) {
    forall x :: multiset(r)[x] == if keep(x) then multiset(s)[x] else 0
  }

  /** `FilterCount` for every value at once. */
  lemma FilterCounts<T(!new)>(s: seq<T>, keep: T -> bool)
    ensures CountsKept(Filter(s, keep), s, keep)
  {
    forall x ensures multiset(Filter(s, keep))[x] == if keep(x) then multiset(s)[x] else 0 {
      FilterCount(s, keep, x);
    }
  }

  /** Filtering distributes over concatenation. */
  lemma {:induction false} FilterAppend<T(!new)>(a: seq<T>, b: seq<T>, keep: T -> bool)
    ensures Filter(a + b, keep) == Filter(a, keep) + Filter(b, keep)
    decreases |b|
  {
    if b != [] {
      var init := b[..|b| - 1];
      FilterAppend(a, init, keep);
      assert (a + b)[..|a + b| - 1] == a + init;
      assert (a + b)[|a + b| - 1] == b[|b| - 1];
    } else {
      assert a + b == a;
    }
  }

  /** A list whose every element is accepted is its own filter. */
  lemma {:induction false} FilterAll<T(!new)>(s: seq<T>, keep: T -> bool)
    requires forall i :: 0 <= i < |s| ==> keep(s[i])
    ensures Filter(s, keep) == s
    decreases |s|
  {
    if s != [] {
      var init, last := s[..|s| - 1], s[|s| - 1];
      assert s == init + [last];
      assert keep(last);
      forall i | 0 <= i < |init| ensures keep(init[i]) {
        assert init[i] == s[i];
      }
      FilterAll(init, keep);
    }
  }

  /** A list none of whose elements is accepted filters to nothing. */
  lemma {:induction false} FilterNone<T(!new)>(s: seq<T>, keep: T -> bool)
    requires forall i :: 0 <= i < |s| ==> !keep(s[i])
    ensures Filter(s, keep) == []
    decreases |s|
  {
    if s != [] {
      var init := s[..|s| - 1];
      forall i | 0 <= i < |init| ensures !keep(init[i]) {
        assert init[i] == s[i];
      }
      FilterNone(init, keep);
      assert !keep(s[|s| - 1]);
    }
  }

  /** Filtering first with a weaker test changes nothing. */
  lemma {:induction false} FilterFilter<T(!new)>(s: seq<T>, weak: T -> bool, strong: T -> bool)
    requires forall i :: 0 <= i < |s| ==> strong(s[i]) ==> weak(s[i])
    ensures Filter(Filter(s, weak), strong) == Filter(s, strong)
    decreases |s|
  {
    if s != [] {
      var init := s[..|s| - 1];
      var last := s[|s| - 1];
      FilterFilter(init, weak, strong);
      if weak(last) {
        FilterAppend(Filter(init, weak), [last], strong);
        assert Filter([last], strong) == if strong(last) then [last] else [] by {
          assert [last][..0] == [];
        }
      }
    }
  }


  /** The keys of an association list, in order. */
  function Keys<K, V>(t: seq<(K, V)>): (ks: seq<K>)
    ensures |ks| == |t|
    ensures forall i :: 0 <= i < |t| ==> ks[i] == t[i].0
  {
    seq(|t|, i requires 0 <= i < |t| => t[i].0)
  }

  /** Property lookup `t[k]`: the value of the first entry with key `k`. */
  function Find<K(==), V>(t: seq<(K, V)>, k: K): Option<V>
    decreases |t|
  {
    if t == [] then None
    else if t[0].0 == k then Some(t[0].1)
    else Find(t[1..], k)
  }

  /** A key has a value exactly when it is one of the keys, and the value is
      stored with it. */
  lemma {:induction false} FindKeys<K, V>(t: seq<(K, V)>, k: K)
    ensures Find(t, k).Some? <==> k in Keys(t)
    ensures Find(t, k).Some? ==> (k, Find(t, k).value) in t
    decreases |t|
  {
    if t != [] {
      FindKeys(t[1..], k);
      assert Keys(t) == [t[0].0] + Keys(t[1..]);
    }
  }

  /** In a list without repeated keys, every entry is what lookup finds. */
  lemma {:induction false} FindUnique<K, V>(t: seq<(K, V)>, i: nat)
    requires UniqueKeys(t) && i < |t|
    ensures Find(t, t[i].0) == Some(t[i].1)
    decreases |t|
  {
    if i > 0 {
      assert Keys(t)[0] != Keys(t)[i];
      assert Keys(t[1..]) == Keys(t)[1..];
      FindUnique(t[1..], i - 1);
    }
  }

  /** Lookup in an extended list looks in the old list first. */
  lemma {:induction false} FindAppend<K, V>(t: seq<(K, V)>, k: K, v: V, k': K)
    ensures Find(t + [(k, v)], k') ==
      if Find(t, k').Some? then Find(t, k') else if k == k' then Some(v) else None
    decreases |t|
  {
    if t != [] {
      FindAppend(t[1..], k, v, k');
      assert (t + [(k, v)])[1..] == t[1..] + [(k, v)];
    }
  }

  /** `t[k]`, or `d` when `t` has no key `k`. */
  function FindOr<K(==), V>(t: seq<(K, V)>, k: K, d: V): V {
    match Find(t, k)
    case Some(v) => v
    case None => d
  }

  /** Property assignment `t[k] = v`: an existing key keeps its position, a new key
      goes last. */
  function Put<K(==), V>(t: seq<(K, V)>, k: K, v: V): (r: seq<(K, V)>)
    ensures Find(r, k) == Some(v)
    decreases |t|
  {
    if t == [] then [(k, v)]
    else if t[0].0 == k then [(k, v)] + t[1..]
    else [t[0]] + Put(t[1..], k, v)
  }

  /** `Put` leaves every other key's value alone. */
  lemma {:induction false} PutOther<K, V>(t: seq<(K, V)>, k: K, v: V, k': K)
    requires k' != k
    ensures Find(Put(t, k, v), k') == Find(t, k')
    decreases |t|
  {
    if t != [] && t[0].0 != k {
      PutOther(t[1..], k, v, k');
      assert ([t[0]] + Put(t[1..], k, v))[1..] == Put(t[1..], k, v);
    } else if t != [] {
      assert ([(k, v)] + t[1..])[1..] == t[1..];
    }
  }

  /** `Put` keeps the keys in place and appends a new key. */
  lemma {:induction false} PutKeys<K, V>(t: seq<(K, V)>, k: K, v: V)
    ensures Keys(Put(t, k, v)) == if k in Keys(t) then Keys(t) else Keys(t) + [k]
    decreases |t|
  {
    if t == [] {
      assert Keys(Put(t, k, v)) == [k];
    } else {
      var rest := t[1..];
      assert t == [t[0]] + rest;
      KeysCons(t[0], rest);
      if t[0].0 == k {
        assert Keys(t)[0] == k;
        KeysCons((k, v), rest);
      } else {
        PutKeys(rest, k, v);
        KeysCons(t[0], Put(rest, k, v));
        assert k in Keys(t) <==> k in Keys(rest);
        if k !in Keys(rest) {
          assert [t[0].0] + (Keys(rest) + [k]) == ([t[0].0] + Keys(rest)) + [k];
        }
      }
    }
  }

  /** The keys of a list with one more entry in front. */
  lemma KeysCons<K, V>(e: (K, V), t: seq<(K, V)>)
    ensures Keys([e] + t) == [e.0] + Keys(t)
  {
  }

  /** `Put` adds no entry but `(k, v)`. */
  lemma {:induction false} PutEntries<K, V>(t: seq<(K, V)>, k: K, v: V, i: nat)
    requires i < |Put(t, k, v)|
    ensures Put(t, k, v)[i] in t || Put(t, k, v)[i] == (k, v)
    decreases |t|
  {
    if t != [] && t[0].0 != k && i > 0 {
      PutEntries(t[1..], k, v, i - 1);
    }
  }

  /** Assigning a key the list does not have appends it. */
  lemma {:induction false} PutNew<K, V>(t: seq<(K, V)>, k: K, v: V)
    requires k !in Keys(t)
    ensures Put(t, k, v) == t + [(k, v)]
    decreases |t|
  {
    if t != [] {
      assert t == [t[0]] + t[1..];
      KeysCons(t[0], t[1..]);
      PutNew(t[1..], k, v);
      assert Put(t, k, v) == [t[0]] + (t[1..] + [(k, v)]);
    }
  }

  /** No key occurs twice, as in a JavaScript object or `Map`. */
  predicate UniqueKeys<K(==), V>(t: seq<(K, V)>) {
    NoDup(Keys(t))
  }

  /** `Put` never repeats a key. */
  lemma PutUniqueKeys<K, V>(t: seq<(K, V)>, k: K, v: V)
    requires UniqueKeys(t)
    ensures UniqueKeys(Put(t, k, v))
  {
    PutKeys(t, k, v);
  }

  /** The values stored under key `k` in a list of pairs, in order. */
  function ValuesAt<K(==), V>(ps: seq<(K, V)>, k: K): (vs: seq<V>)
    decreases |ps|
  {
    if ps == [] then []
    else
      var init := ValuesAt(ps[..|ps| - 1], k);
      if ps[|ps| - 1].0 == k then init + [ps[|ps| - 1].1] else init
  }

  lemma {:induction false} ValuesAtAbsent<K, V>(ps: seq<(K, V)>, k: K)
    ensures k !in Keys(ps) <==> ValuesAt(ps, k) == []
    decreases |ps|
  {
    if ps != [] {
      var init := ps[..|ps| - 1];
      ValuesAtAbsent(init, k);
      assert Keys(ps) == Keys(init) + [ps[|ps| - 1].0];
    }
  }

  lemma ValuesAtSnoc<K, V>(ps: seq<(K, V)>, k: K, v: V, key: K)
    ensures ValuesAt(ps + [(k, v)], key) == if key == k then ValuesAt(ps, key) + [v] else ValuesAt(ps, key)
  {
    assert (ps + [(k, v)])[..|ps|] == ps;
  }

  /** The `Map<K, V[]>` that `if (!m.has(k)) m.set(k, []); m.get(k).push(v)` builds
      when run over the pairs of `ps` in order. */
  function Grouped<K(==), V>(ps: seq<(K, V)>): seq<(K, seq<V>)>
    decreases |ps|
  {
    if ps == [] then []
    else
      var g := Grouped(ps[..|ps| - 1]);
      var k := ps[|ps| - 1].0;
      Put(g, k, FindOr(g, k, []) + [ps[|ps| - 1].1])
  }

  /** Grouping keeps each key once, at its first occurrence, and under each key
      exactly the values paired with it, in their original order. */
  lemma {:induction false} GroupedSpec<K, V>(ps: seq<(K, V)>, k: K)
    ensures Keys(Grouped(ps)) == Distinct(Keys(ps))
    ensures Find(Grouped(ps), k) == if k in Keys(ps) then Some(ValuesAt(ps, k)) else None
    decreases |ps|
  {
    if ps != [] {
      var init := ps[..|ps| - 1];
      var (k', v) := ps[|ps| - 1];
      GroupedSpec(init, k);
      GroupedSpec(init, k');
      var g := Grouped(init);
      assert Keys(ps) == Keys(init) + [k'];
      DistinctSnoc(Keys(init), k');
      DistinctMembers(Keys(init), k');
      FindKeys(g, k');
      PutKeys(g, k', FindOr(g, k', []) + [v]);
      if k != k' {
        PutOther(g, k', FindOr(g, k', []) + [v], k);
      } else {
        ValuesAtAbsent(init, k);
      }
    }
  }

  /** Every group of `Grouped` is non-empty and no key is repeated. */
  lemma GroupedWellFormed<K, V>(ps: seq<(K, V)>)
    ensures UniqueKeys(Grouped(ps))
    ensures forall i :: 0 <= i < |Grouped(ps)| ==> Grouped(ps)[i].1 != []
  {
    var g := Grouped(ps);
    if g != [] {
      GroupedSpec(ps, g[0].0);
    }
    forall i | 0 <= i < |g| ensures g[i].1 != [] {
      FindUnique(g, i);
      GroupedSpec(ps, g[i].0);
      ValuesAtAbsent(ps, g[i].0);
    }
  }

  /** The grouping loop: for each pair in order, create the key's list if missing
      and push the value onto it. */
  method GroupByKey<K(==), V>(ps: seq<(K, V)>) returns (groups: seq<(K, seq<V>)>)
    ensures groups == Grouped(ps)
  {
    groups := [];
    var n := 0;
    while n < |ps|
      invariant 0 <= n <= |ps|
      invariant groups == Grouped(ps[..n])
    {
      assert ps[..n + 1][..n] == ps[..n];
      var k, v := ps[n].0, ps[n].1;
      var group := FindOr(groups, k, []);
      groups := Put(groups, k, group + [v]);
      n := n + 1;
    }
    assert ps[..n] == ps;
  }

  /** The elements of `acc` followed by those of `xs` not yet present, each
      once: what `xs.forEach(x => acc.add(x))` leaves in a JavaScript `Set`. */
  function AddAll<T(==)>(acc: seq<T>, xs: seq<T>): seq<T>
    decreases |xs|
  {
    if xs == [] then acc
    else
      var s := AddAll(acc, xs[..|xs| - 1]);
      if xs[|xs| - 1] in s then s else s + [xs[|xs| - 1]]
  }

  /** Adding to a set built from `xs` gives the set built from `xs + ys`. */
  lemma {:induction false} AddAllDistinct<T>(xs: seq<T>, ys: seq<T>)
    ensures AddAll(Distinct(xs), ys) == Distinct(xs + ys)
    decreases |ys|
  {
    if ys == [] {
      assert xs + ys == xs;
    } else {
      var init := ys[..|ys| - 1];
      AddAllDistinct(xs, init);
      assert xs + ys == (xs + init) + [ys[|ys| - 1]];
      DistinctSnoc(xs + init, ys[|ys| - 1]);
    }
  }

  /** The lists of `xss` one after the other (`Array.prototype.flat`). */
  function Flatten<T>(xss: seq<seq<T>>): seq<T>
    decreases |xss|
  {
    if xss == [] then [] else Flatten(xss[..|xss| - 1]) + xss[|xss| - 1]
  }

  /** The record of `Set`s that `if (!m[k]) m[k] = new Set(); vs.forEach(v => m[k].add(v))`
      builds when run over the entries `(k, vs)` in order. */
  function UnionBy<K(==), T(==)>(entries: seq<(K, seq<T>)>): seq<(K, seq<T>)>
    decreases |entries|
  {
    if entries == [] then []
    else
      var t := UnionBy(entries[..|entries| - 1]);
      var (k, vs) := entries[|entries| - 1];
      Put(t, k, AddAll(FindOr(t, k, []), vs))
  }

  /** One more entry is merged into the union built so far. */
  lemma UnionBySnoc<K, T>(entries: seq<(K, seq<T>)>, k: K, vs: seq<T>)
    ensures UnionBy(entries + [(k, vs)]) == Put(UnionBy(entries), k, AddAll(FindOr(UnionBy(entries), k, []), vs))
  {
    assert (entries + [(k, vs)])[..|entries|] == entries;
  }

  /** The union has each key once, at its first occurrence, and under each key
      the values of all its entries without repetitions, in first-seen order. */
  lemma UnionBySpec<K, T>(entries: seq<(K, seq<T>)>, k: K)
    ensures Keys(UnionBy(entries)) == Distinct(Keys(entries))
    ensures Find(UnionBy(entries), k) ==
      if k in Keys(entries) then Some(Distinct(Flatten(ValuesAt(entries, k)))) else None
  {
    UnionByKeys(entries);
    UnionByFind(entries, k);
  }

  lemma {:induction false} UnionByKeys<K, T>(entries: seq<(K, seq<T>)>)
    ensures Keys(UnionBy(entries)) == Distinct(Keys(entries))
    decreases |entries|
  {
    if entries != [] {
      var init := entries[..|entries| - 1];
      var (k', vs) := entries[|entries| - 1];
      UnionByKeys(init);
      var t := UnionBy(init);
      assert entries == init + [(k', vs)];
      assert Keys(entries) == Keys(init) + [k'];
      DistinctSnoc(Keys(init), k');
      PutKeys(t, k', AddAll(FindOr(t, k', []), vs));
    }
  }

  lemma {:induction false} UnionByFind<K, T>(entries: seq<(K, seq<T>)>, k: K)
    ensures Find(UnionBy(entries), k) ==
      if k in Keys(entries) then Some(Distinct(Flatten(ValuesAt(entries, k)))) else None
    decreases |entries|
  {
    if entries != [] {
      var init := entries[..|entries| - 1];
      var (k', vs) := entries[|entries| - 1];
      UnionByFind(init, k);
      var t := UnionBy(init);
      var acc := FindOr(t, k', []);
      assert entries == init + [(k', vs)];
      assert Keys(entries) == Keys(init) + [k'];
      ValuesAtSnoc(init, k', vs, k);
      if k != k' {
        PutOther(t, k', AddAll(acc, vs), k);
      } else {
        UnionByKeys(init);
        DistinctMembers(Keys(init), k');
        FindKeys(t, k');
        ValuesAtAbsent(init, k);
        AddAllDistinct(Flatten(ValuesAt(init, k)), vs);
        assert Flatten(ValuesAt(init, k) + [vs]) == Flatten(ValuesAt(init, k)) + vs;
      }
    }
  }

  lemma {:induction false} FlattenValuesAtNonEmpty<K, T>(entries: seq<(K, seq<T>)>, k: K)
    requires forall i :: 0 <= i < |entries| ==> entries[i].1 != []
    requires k in Keys(entries)
    ensures Flatten(ValuesAt(entries, k)) != []
    decreases |entries|
  {
    var init := entries[..|entries| - 1];
    assert Keys(entries) == Keys(init) + [entries[|entries| - 1].0];
    if entries[|entries| - 1].0 != k {
      FlattenValuesAtNonEmpty(init, k);
    }
  }

  /** When every entry brings at least one value, the union has no repeated key
      and under each key a non-empty list without repetitions. */
  lemma UnionByWellFormed<K, T>(entries: seq<(K, seq<T>)>)
    requires forall i :: 0 <= i < |entries| ==> entries[i].1 != []
    ensures UniqueKeys(UnionBy(entries))
    ensures forall i :: 0 <= i < |UnionBy(entries)| ==> UnionBy(entries)[i].1 != [] && NoDup(UnionBy(entries)[i].1)
  {
    var u := UnionBy(entries);
    if u != [] {
      UnionBySpec(entries, u[0].0);
    }
    forall i | 0 <= i < |u| ensures u[i].1 != [] && NoDup(u[i].1) {
      FindUnique(u, i);
      UnionBySpec(entries, u[i].0);
      var all := Flatten(ValuesAt(entries, u[i].0));
      FlattenValuesAtNonEmpty(entries, u[i].0);
      DistinctMembers(all, all[0]);
    }
  }

  /** A value occurs in the lists stored under `k` exactly when some entry with
      key `k` brings it. */
  lemma {:induction false} FlattenValuesAtMembers<K, T>(entries: seq<(K, seq<T>)>, k: K, x: T)
    ensures x in Flatten(ValuesAt(entries, k)) <==>
      exists i :: 0 <= i < |entries| && entries[i].0 == k && x in entries[i].1
    decreases |entries|
  {
    if entries != [] {
      var init := entries[..|entries| - 1];
      FlattenValuesAtMembers(init, k, x);
      if exists i :: 0 <= i < |entries| && entries[i].0 == k && x in entries[i].1 {
        var i :| 0 <= i < |entries| && entries[i].0 == k && x in entries[i].1;
        if i < |init| {
          assert init[i] == entries[i];
        }
      }
    }
  }

  /** The table without key `k`, in order (`delete t[k]`). */
  function Remove<K(==), V>(t: seq<(K, V)>, k: K): seq<(K, V)>
    decreases |t|
  {
    if t == [] then []
    else if t[|t| - 1].0 == k then Remove(t[..|t| - 1], k)
    else Remove(t[..|t| - 1], k) + [t[|t| - 1]]
  }

  /** Removing a key makes it absent and leaves every other key's value alone. */
  lemma {:induction false} RemoveFind<K, V>(t: seq<(K, V)>, k: K, k': K)
    ensures Find(Remove(t, k), k') == if k' == k then None else Find(t, k')
    ensures forall i :: 0 <= i < |Remove(t, k)| ==> Remove(t, k)[i] in t
    decreases |t|
  {
    if t != [] {
      var init := t[..|t| - 1];
      RemoveFind(init, k, k');
      assert t == init + [t[|t| - 1]];
      FindAppend(init, t[|t| - 1].0, t[|t| - 1].1, k');
      if t[|t| - 1].0 != k {
        FindAppend(Remove(init, k), t[|t| - 1].0, t[|t| - 1].1, k');
      }
    }
  }

  /** Removing a key keeps the remaining keys unique. */
  lemma {:induction false} RemoveUniqueKeys<K, V>(t: seq<(K, V)>, k: K)
    requires UniqueKeys(t)
    ensures UniqueKeys(Remove(t, k))
    ensures forall k' :: k' in Keys(Remove(t, k)) ==> k' != k && k' in Keys(t)
    decreases |t|
  {
    if t != [] {
      var init := t[..|t| - 1];
      assert Keys(t) == Keys(init) + [t[|t| - 1].0];
      RemoveUniqueKeys(init, k);
      if t[|t| - 1].0 != k {
        var last := t[|t| - 1].0;
        assert last !in Keys(init);
        assert Keys(Remove(t, k)) == Keys(Remove(init, k)) + [last];
      }
    }
  }

  /** Every list of the table cut to its first `n` values. */
  function TakeEach<K, T>(t: seq<(K, seq<T>)>, n: nat): (r: seq<(K, seq<T>)>)
    ensures |r| == |t|
    ensures forall i :: 0 <= i < |t| ==> r[i] == (t[i].0, Take(t[i].1, n))
  {
    seq(|t|, i requires 0 <= i < |t| => (t[i].0, Take(t[i].1, n)))
  }

  /** Cutting the lists keeps the keys and cuts the value found under each. */
  lemma {:induction false} TakeEachFind<K, T>(t: seq<(K, seq<T>)>, n: nat, k: K)
    ensures Keys(TakeEach(t, n)) == Keys(t)
    ensures Find(TakeEach(t, n), k) == if Find(t, k).Some? then Some(Take(Find(t, k).value, n)) else None
    decreases |t|
  {
    if t != [] {
      assert TakeEach(t, n)[1..] == TakeEach(t[1..], n);
      TakeEachFind(t[1..], n, k);
    }
  }

  /** Removing a present key of a table with unique keys drops exactly one entry. */
  lemma {:induction false} RemoveSize<K, V>(t: seq<(K, V)>, k: K)
    requires UniqueKeys(t)
    ensures |Remove(t, k)| == if k in Keys(t) then |t| - 1 else |t|
    decreases |t|
  {
    if t != [] {
      var init := t[..|t| - 1];
      assert Keys(t) == Keys(init) + [t[|t| - 1].0];
      RemoveSize(init, k);
    }
  }

  /** The table without the keys of `ks`, removed one after the other. */
  function RemoveKeys<K(==), V>(t: seq<(K, V)>, ks: seq<K>): seq<(K, V)>
    decreases |ks|
  {
    if ks == [] then t else Remove(RemoveKeys(t, ks[..|ks| - 1]), ks[|ks| - 1])
  }

  /** Removing a key keeps the other entries in their order. */
  lemma {:induction false} RemoveSubsequence<K, V>(t: seq<(K, V)>, k: K)
    ensures IsSubsequence(Remove(t, k), t)
    decreases |t|
  {
    if t == [] {
      EmptySubsequence(t);
    } else {
      var init := t[..|t| - 1];
      RemoveSubsequence(init, k);
      SubsequenceSnoc(Remove(init, k), init, t[|t| - 1]);
      assert t == init + [t[|t| - 1]];
    }
  }

  /** Removing several keys keeps the remaining entries in their order. */
  lemma {:induction false} RemoveKeysSubsequence<K, V>(t: seq<(K, V)>, ks: seq<K>)
    ensures IsSubsequence(RemoveKeys(t, ks), t)
    decreases |ks|
  {
    if ks == [] {
      SubsequenceRefl(t);
    } else {
      var init := ks[..|ks| - 1];
      RemoveKeysSubsequence(t, init);
      RemoveSubsequence(RemoveKeys(t, init), ks[|ks| - 1]);
      SubsequenceTrans(RemoveKeys(t, ks), RemoveKeys(t, init), t);
    }
  }

  /** Removing several keys makes exactly those absent, keeps every other key's
      value and keeps the remaining keys unique. */
  lemma {:induction false} RemoveKeysFind<K, V>(t: seq<(K, V)>, ks: seq<K>, k: K)
    ensures Find(RemoveKeys(t, ks), k) == if k in ks then None else Find(t, k)
    ensures forall i :: 0 <= i < |RemoveKeys(t, ks)| ==> RemoveKeys(t, ks)[i] in t
    ensures UniqueKeys(t) ==> UniqueKeys(RemoveKeys(t, ks))
    decreases |ks|
  {
    if ks != [] {
      var init := ks[..|ks| - 1];
      RemoveKeysFind(t, init, k);
      RemoveFind(RemoveKeys(t, init), ks[|ks| - 1], k);
      if UniqueKeys(t) {
        RemoveUniqueKeys(RemoveKeys(t, init), ks[|ks| - 1]);
      }
    }
  }

  /** Removing distinct keys that are all present drops one entry per key. */
  lemma {:induction false} RemoveKeysSize<K, V>(t: seq<(K, V)>, ks: seq<K>)
    requires UniqueKeys(t) && NoDup(ks)
    requires forall i :: 0 <= i < |ks| ==> ks[i] in Keys(t)
    ensures |RemoveKeys(t, ks)| == |t| - |ks|
    decreases |ks|
  {
    if ks != [] {
      var init := ks[..|ks| - 1];
      var k := ks[|ks| - 1];
      RemoveKeysSize(t, init);
      RemoveKeysFind(t, init, k);
      FindKeys(t, k);
      FindKeys(RemoveKeys(t, init), k);
      RemoveSize(RemoveKeys(t, init), k);
    }
  }
}
