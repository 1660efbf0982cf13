/** Small value types shared by every stage of the pipeline: optional values, the
    fatal-error outcome of a script, and the order-preserving row selections that
    pandas expresses with boolean masks and `head`. */
module Common {

  datatype Option<T> = None | Some(value: T)

  /** A stage either produces its value or stops with a labelled error message
      (the scripts print it and exit with a non-zero status). */
  datatype Result<T> = Ok(value: T) | Err(msg: string)

  /** Rows kept by a boolean mask, in their original order. */
  function Filter<T(!new)>(s: seq<T>, p: T -> bool): (r: seq<T>)
    ensures |r| <= |s|
    ensures forall x :: x in r <==> x in s && p(x)
  {
    if s == [] then []
    else
      assert s == [s[0]] + s[1..];
      (if p(s[0]) then [s[0]] else []) + Filter(s[1..], p)
  }

  /** A mask distributes over concatenation: the kept rows of `a + b` are the kept
      rows of `a` followed by the kept rows of `b`, so the original order survives. */
  lemma {:induction false} FilterConcat<T(!new)>(a: seq<T>, b: seq<T>, p: T -> bool)
    ensures Filter(a + b, p) == Filter(a, p) + Filter(b, p)
  {
    if a != [] {
      assert (a + b)[1..] == a[1..] + b;
      FilterConcat(a[1..], b, p);
    } else {
      assert a + b == b;
    }
  }

  /** Rows kept by a mask that depends on a parameter `a` (a bound, a key set). */
  function Where<T(!new), A>(s: seq<T>, p: (T, A) -> bool, a: A): (r: seq<T>)
    ensures |r| <= |s|
    ensures forall x :: x in r <==> x in s && p(x, a)
  {
    if s == [] then []
    else
      assert s == [s[0]] + s[1..];
      (if p(s[0], a) then [s[0]] else []) + Where(s[1..], p, a)
  }

  /** A prefix one longer is the prefix and the next element. */
  lemma PrefixStep<T>(s: seq<T>, j: nat)
    requires j < |s|
    ensures s[..j + 1] == s[..j] + [s[j]]
  {
  }

  /** Where keeps nothing when no element satisfies the condition. */
  lemma {:induction false} WhereNone<T(!new), A>(s: seq<T>, p: (T, A) -> bool, a: A)
    requires forall x :: x in s ==> !p(x, a)
    ensures Where(s, p, a) == []
  {
    if s != [] {
      assert s[0] in s;
      WhereNone(s[1..], p, a);
    }
  }

  /** A mask keeps every copy of a row that passes it and no copy of one that
      does not. */
  lemma {:induction false} WhereMultiset<T(!new), A>(s: seq<T>, p: (T, A) -> bool, a: A)
    ensures forall x :: multiset(Where(s, p, a))[x] == if p(x, a) then multiset(s)[x] else 0
  {
    if s != [] {
      WhereMultiset(s[1..], p, a);
      assert s == [s[0]] + s[1..];
      assert multiset(s) == multiset{s[0]} + multiset(s[1..]);
    }
  }

  /** Like Filter, Where distributes over concatenation and keeps the row order. */
  lemma {:induction false} WhereConcat<T(!new), A>(s: seq<T>, t: seq<T>, p: (T, A) -> bool, a: A)
    ensures Where(s + t, p, a) == Where(s, p, a) + Where(t, p, a)
  {
    if s != [] {
      assert (s + t)[1..] == s[1..] + t;
      WhereConcat(s[1..], t, p, a);
    } else {
      assert s + t == t;
    }
  }

  /** `r` is `s` with some elements left out, the rest in their original order. */
  predicate IsSubsequence<T(==)>(r: seq<T>, s: seq<T>)
    decreases |s|
  {
    if r == [] then true
    else if s == [] then false
    else (r[0] == s[0] && IsSubsequence(r[1..], s[1..])) || IsSubsequence(r, s[1..])
  }

  /** Every sequence is a subsequence of itself. */
  lemma {:induction false} IsSubsequenceRefl<T>(s: seq<T>)
    ensures IsSubsequence(s, s)
    decreases |s|
  {
    if s != [] {
      IsSubsequenceRefl(s[1..]);
    }
  }

  /** A mask keeps the original order. */
  lemma {:induction false} WhereSubsequence<T(!new), A>(s: seq<T>, p: (T, A) -> bool, a: A)
    ensures IsSubsequence(Where(s, p, a), s)
  {
    if s != [] {
      WhereSubsequence(s[1..], p, a);
      var r := Where(s, p, a);
      if p(s[0], a) {
        assert r == [s[0]] + Where(s[1..], p, a);
        assert r[1..] == Where(s[1..], p, a);
      } else {
        assert r == [] + Where(s[1..], p, a);
        assert r == Where(s[1..], p, a);
      }
    }
  }

  /** `DataFrame.head(n)`: the first `n` rows; a negative `n` drops the last `-n` rows. */
  function Head<T>(s: seq<T>, n: int): (r: seq<T>)
    ensures n >= 0 ==> |r| == if n < |s| then n else |s|
    ensures n < 0 ==> |r| == if |s| + n > 0 then |s| + n else 0
    ensures r <= s
  {
    if n >= 0 then (if n < |s| then s[..n] else s)
    else (if |s| + n > 0 then s[..|s| + n] else [])
  }

  /** Concatenation of a sequence of row blocks (`pd.concat`). */
  function Flatten<T>(blocks: seq<seq<T>>): (r: seq<T>)
    ensures |blocks| == 1 ==> r == blocks[0]
  {
    if blocks == [] then [] else blocks[0] + Flatten(blocks[1..])
  }

  lemma {:induction false} FlattenAppend<T>(blocks: seq<seq<T>>, b: seq<T>)
    ensures Flatten(blocks + [b]) == Flatten(blocks) + b
  {
    if blocks == [] {
      assert [] + [b] == [b];
      assert Flatten([b][1..]) == [];
    } else {
      assert (blocks + [b])[1..] == blocks[1..] + [b];
      FlattenAppend(blocks[1..], b);
    }
  }

  /** Strictly increasing under a strict order. */
  ghost predicate StrictlySorted<T>(s: seq<T>, lt: (T, T) -> bool)
  {
    forall i, j :: 0 <= i < j < |s| ==> lt(s[i], s[j])
  }

  function Min(a: int, b: int): int { if a < b then a else b }

  /** The index windows `[i, min(i + c, n))` for `i` stepping by `c` from `start`
      (`for i in range(start, n, c)` with the slice `[i:i + c]`). */
  function Windows(start: int, n: int, c: int): (ws: seq<(int, int)>)
    requires c > 0
    ensures forall k :: 0 <= k < |ws| ==> start <= ws[k].0 < ws[k].1 <= n && ws[k].1 - ws[k].0 <= c
    ensures forall k1, k2 :: 0 <= k1 < k2 < |ws| ==> ws[k1].1 <= ws[k2].0
    decreases n - start
  {
    if start >= n then [] else [(start, Min(start + c, n))] + Windows(start + c, n, c)
  }

  /** Some window contains index `j`. */
  predicate Covered(ws: seq<(int, int)>, j: int)
  {
    exists k :: 0 <= k < |ws| && ws[k].0 <= j < ws[k].1
  }

  /** The windows follow one another without gap, from `start` to `n`, so
      together they cover every index of `[start, n)` (once, as they are disjoint). */
  lemma WindowsTile(start: int, n: int, c: int)
    requires c > 0
    ensures var ws := Windows(start, n, c);
      (start >= n <==> ws == []) &&
      (ws != [] ==> ws[0].0 == start && ws[|ws| - 1].1 == n) &&
      (forall k :: 0 <= k < |ws| - 1 ==> ws[k].1 == ws[k + 1].0) &&
      (forall j :: start <= j < n ==> Covered(ws, j))
  {
    WindowsChain(start, n, c);
    WindowsCover(start, n, c);
  }

  lemma WindowsUnfold(start: int, n: int, c: int)
    requires c > 0 && start < n
    ensures Windows(start, n, c) == [(start, Min(start + c, n))] + Windows(start + c, n, c)
  {
  }

  lemma WindowsChain(start: int, n: int, c: int)
    requires c > 0
    ensures var ws := Windows(start, n, c);
      (start >= n <==> ws == []) &&
      (ws != [] ==> ws[0].0 == start && ws[|ws| - 1].1 == n) &&
      (forall k :: 0 <= k < |ws| - 1 ==> ws[k].1 == ws[k + 1].0)
  {
    if start < n {
      WindowsUnfold(start, n, c);
    }
    WindowsLast(start, n, c);
    WindowsAdjacent(start, n, c);
  }

  lemma {:induction false} WindowsLast(start: int, n: int, c: int)
    requires c > 0
    ensures Windows(start, n, c) != [] ==> Windows(start, n, c)[|Windows(start, n, c)| - 1].1 == n
    decreases n - start
  {
    if start < n {
      WindowsLast(start + c, n, c);
      WindowsUnfold(start, n, c);
      var ws := Windows(start, n, c);
      var rest := Windows(start + c, n, c);
      if rest == [] {
        assert start + c >= n;
      } else {
        assert ws[|ws| - 1] == rest[|rest| - 1];
      }
    }
  }

  lemma {:induction false} WindowsAdjacent(start: int, n: int, c: int)
    requires c > 0
    ensures var ws := Windows(start, n, c);
      forall k :: 0 <= k < |ws| - 1 ==> ws[k].1 == ws[k + 1].0
    decreases n - start
  {
    if start < n {
      WindowsAdjacent(start + c, n, c);
      WindowsUnfold(start, n, c);
      var ws := Windows(start, n, c);
      var rest := Windows(start + c, n, c);
      assert forall k :: 0 < k < |ws| ==> ws[k] == rest[k - 1];
      if rest != [] {
        assert rest == Windows(start + c, n, c);
        assert rest[0].0 == start + c by {
          WindowsUnfold(start + c, n, c);
        }
      }
    }
  }

  lemma {:induction false} WindowsCover(start: int, n: int, c: int)
    requires c > 0
    ensures forall j :: start <= j < n ==> Covered(Windows(start, n, c), j)
    decreases n - start
  {
    if start < n {
      WindowsCover(start + c, n, c);
      WindowsUnfold(start, n, c);
      var ws := Windows(start, n, c);
      var rest := Windows(start + c, n, c);
      forall j | start <= j < n
        ensures Covered(ws, j)
      {
        if j < start + c {
          assert ws[0].0 <= j < ws[0].1;
        } else {
          assert Covered(rest, j);
          var k :| 0 <= k < |rest| && rest[k].0 <= j < rest[k].1;
          assert ws[k + 1] == rest[k];
        }
      }
    }
  }
}
