/** Shared vocabulary of the preview server: paths, the watch list of the
    filesystem watcher, and the outcome of rendering one markdown file. */
module Base {

  /** A file path as the glob matcher and the watcher report it. */
  type Path = string

  /** Rendered HTML; its structure is irrelevant to the core. */
  type Html = string

  /** No element occurs twice. */
  predicate NoDuplicates<T(==)>(s: seq<T>) {
    forall i, j :: 0 <= i < j < |s| ==> s[i] != s[j]
  }

  /** A duplicate-free concatenation has duplicate-free, disjoint parts. */
  lemma NoDuplicatesSplit<T>(a: seq<T>, b: seq<T>)
    requires NoDuplicates(a + b)
    ensures NoDuplicates(a) && NoDuplicates(b)
    ensures forall x :: x in b ==> x !in a
  {
    forall i, j | 0 <= i < j < |a|
      ensures a[i] != a[j]
    {
      assert a[i] == (a + b)[i] && a[j] == (a + b)[j];
    }
    forall i, j | 0 <= i < j < |b|
      ensures b[i] != b[j]
    {
      assert b[i] == (a + b)[|a| + i] && b[j] == (a + b)[|a| + j];
    }
    forall i, j | 0 <= i < |a| && 0 <= j < |b|
      ensures a[i] != b[j]
    {
      assert a[i] == (a + b)[i] && b[j] == (a + b)[|a| + j];
    }
  }

  /** Two equal elements at distinct positions count twice. */
  lemma TwiceInMultiset<T>(s: seq<T>, i: nat, j: nat)
    requires i < j < |s| && s[i] == s[j]
    ensures multiset(s)[s[i]] >= 2
  {
    assert s == s[..j] + [s[j]] + s[j + 1..];
    assert s[i] in s[..j];
    assert multiset(s) == multiset(s[..j]) + multiset{s[j]} + multiset(s[j + 1..]);
  }

  /** In a duplicate-free sequence an element occurs at most once. */
  lemma {:induction false} NoDuplicatesCount<T>(s: seq<T>, x: T)
    requires NoDuplicates(s)
    ensures multiset(s)[x] <= 1
    decreases |s|
  {
    if |s| > 0 {
      assert s == [s[0]] + s[1..];
      assert NoDuplicates(s[1..]) by {
        forall i, j | 0 <= i < j < |s[1..]| ensures s[1..][i] != s[1..][j] {
          assert s[1..][i] == s[i + 1] && s[1..][j] == s[j + 1];
        }
      }
      NoDuplicatesCount(s[1..], x);
      if s[0] == x {
        assert x !in s[1..] by {
          forall k | 0 <= k < |s[1..]| ensures s[1..][k] != x {
            assert s[1..][k] == s[k + 1];
          }
        }
      }
    }
  }

  /** A permutation of a duplicate-free sequence is duplicate-free. */
  lemma PermutationNoDuplicates<T>(a: seq<T>, b: seq<T>)
    requires NoDuplicates(a) && multiset(a) == multiset(b)
    ensures NoDuplicates(b)
  {
    forall i, j | 0 <= i < j < |b|
      ensures b[i] != b[j]
    {
      NoDuplicatesCount(a, b[i]);
      if b[i] == b[j] {
        TwiceInMultiset(b, i, j);
      }
    }
  }

  /** The watcher's `Add`: its watch list is the key set of a map, so adding a
      path that is already watched leaves the list as it was. The model keeps
      the list as a sequence in insertion order. */
  function Watch(watched: seq<Path>, p: Path): (r: seq<Path>)
    ensures p in r
    ensures forall q :: q in r <==> q in watched || q == p
    ensures watched <= r
    ensures p in watched ==> r == watched
    ensures NoDuplicates(watched) ==> NoDuplicates(r)
  {
    if p in watched then watched else watched + [p]
  }

  /** What the markdown renderer (read the file, convert it) yields. */
  datatype Rendered = RenderOk(html: Html) | RenderErr(message: string)
}
