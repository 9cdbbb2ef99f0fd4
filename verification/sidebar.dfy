/** The `/sidebar` listing: the watch list sorted case-insensitively, then
    stably re-sorted so that paths inside a directory come first, with the
    entry of the file being viewed in bold. */
module Sidebar {
  import opened Base

  /** `os.PathSeparator` on the Unix builds the server targets. */
  const Separator: char := '/'

  predicate HasSeparator(p: Path) {
    Separator in p
  }

  /** `unicode.ToLower` on the ASCII and Latin-1 letters. */
  function LowerChar(c: char): char {
    if 'A' <= c <= 'Z' then (c as int + 32) as char
    else if '\U{C0}' <= c <= '\U{DE}' && c != '\U{D7}' then (c as int + 32) as char
    else c
  }

  /** `strings.ToLower`, character by character. */
  function Lower(s: string): (r: string)
    ensures |r| == |s|
    ensures forall i :: 0 <= i < |s| ==> r[i] == LowerChar(s[i])
  {
    if |s| == 0 then [] else [LowerChar(s[0])] + Lower(s[1..])
  }

  /** Go's `<` on strings: byte-wise on UTF-8, which orders like the code points. */
  predicate LexLess(a: string, b: string)
    decreases |a|
  {
    if |a| == 0 then |b| > 0
    else if |b| == 0 then false
    else if a[0] == b[0] then LexLess(a[1..], b[1..])
    else a[0] < b[0]
  }

  lemma {:induction false} LexLessIrreflexive(a: string)
    ensures !LexLess(a, a)
    decreases |a|
  {
    if |a| > 0 {
      LexLessIrreflexive(a[1..]);
    }
  }

  lemma {:induction false} LexLessTransitive(a: string, b: string, c: string)
    requires LexLess(a, b) && LexLess(b, c)
    ensures LexLess(a, c)
    decreases |a|
  {
    if |a| > 0 && |b| > 0 && |c| > 0 && a[0] == b[0] && b[0] == c[0] {
      LexLessTransitive(a[1..], b[1..], c[1..]);
    }
  }

  lemma {:induction false} LexLessTotal(a: string, b: string)
    ensures LexLess(a, b) || LexLess(b, a) || a == b
    decreases |a|
  {
    if |a| > 0 && |b| > 0 && a[0] == b[0] {
      LexLessTotal(a[1..], b[1..]);
      assert a == [a[0]] + a[1..] && b == [b[0]] + b[1..];
    }
  }

  lemma {:induction false} LexLessAsymmetric(a: string, b: string)
    ensures LexLess(a, b) ==> !LexLess(b, a)
    decreases |a|
  {
    if |a| > 0 && |b| > 0 && a[0] == b[0] {
      LexLessAsymmetric(a[1..], b[1..]);
    }
  }

  /** "Not less" is transitive: the first sort's order is a total preorder. */
  lemma NotLessTransitive(x: string, y: string, z: string)
    requires !LexLess(y, x) && !LexLess(z, y)
    ensures !LexLess(z, x)
  {
  }

  /** `a` may stand before `b` in the listing: the stable re-sort keeps
      separator paths first, and inside a group the first sort's lower-case
      order survives. */
  predicate InOrder(a: Path, b: Path) {
    && (HasSeparator(b) ==> HasSeparator(a))
    && (HasSeparator(a) == HasSeparator(b) ==> !LexLess(Lower(b), Lower(a)))
  }

  /** Every separator path precedes every path without one, and inside each
      group the lower-cased paths do not decrease. */
  predicate SidebarOrdered(s: seq<Path>) {
    forall i, j :: 0 <= i < j < |s| ==> InOrder(s[i], s[j])
  }

  lemma InOrderTotal(a: Path, b: Path)
    ensures InOrder(a, b) || InOrder(b, a)
  {
    LexLessAsymmetric(Lower(a), Lower(b));
  }

  lemma InOrderTransitive(a: Path, b: Path, c: Path)
    requires InOrder(a, b) && InOrder(b, c)
    ensures InOrder(a, c)
  {
    if HasSeparator(a) == HasSeparator(c) {
      NotLessTransitive(Lower(a), Lower(b), Lower(c));
    }
  }

  lemma ConsOrdered(x: Path, t: seq<Path>)
    requires SidebarOrdered(t)
    requires forall y :: y in t ==> InOrder(x, y)
    ensures SidebarOrdered([x] + t)
  {
  }

  /** Inserting one path into an ordered listing. */
  function Insert(p: Path, s: seq<Path>): (r: seq<Path>)
    requires SidebarOrdered(s)
    ensures SidebarOrdered(r)
    ensures multiset(r) == multiset(s) + multiset{p}
    decreases |s|
  {
    if |s| == 0 then [p]
    else if InOrder(p, s[0]) then
      assert forall y :: y in s ==> InOrder(p, y) by {
        forall y | y in s ensures InOrder(p, y) {
          var k :| 0 <= k < |s| && s[k] == y;
          if k > 0 { InOrderTransitive(p, s[0], y); }
        }
      }
      ConsOrdered(p, s);
      [p] + s
    else
      InOrderTotal(p, s[0]);
      assert SidebarOrdered(s[1..]) by {
        forall i, j | 0 <= i < j < |s[1..]| ensures InOrder(s[1..][i], s[1..][j]) {
          assert s[1..][i] == s[i + 1] && s[1..][j] == s[j + 1];
        }
      }
      var t := Insert(p, s[1..]);
      HeadPrecedesInsert(s, p, t);
      ConsOrdered(s[0], t);
      assert s == [s[0]] + s[1..];
      [s[0]] + t
  }

  lemma HeadPrecedesInsert(s: seq<Path>, p: Path, t: seq<Path>)
    requires |s| > 0 && SidebarOrdered(s) && InOrder(s[0], p)
    requires multiset(t) == multiset(s[1..]) + multiset{p}
    ensures forall y :: y in t ==> InOrder(s[0], y)
  {
    forall y | y in t
      ensures InOrder(s[0], y)
    {
      assert y in multiset(t);
      if y != p {
        assert y in multiset(s[1..]);
        var k :| 0 <= k < |s[1..]| && s[1..][k] == y;
        assert s[k + 1] == y;
      }
    }
  }

  /** The listing order: a permutation of the watch list in sidebar order. */
  function SortForSidebar(s: seq<Path>): (r: seq<Path>)
    ensures SidebarOrdered(r)
    ensures multiset(r) == multiset(s)
    decreases |s|
  {
    if |s| == 0 then []
    else
      assert s == [s[0]] + s[1..];
      Insert(s[0], SortForSidebar(s[1..]))
  }

  /** One link of the listing. */
  datatype Entry = Entry(path: Path, href: string, bold: bool)

  /** The links, in listing order; only the entry equal to the current file is bold. */
  function Entries(listing: seq<Path>, current: Path): (r: seq<Entry>)
    ensures |r| == |listing|
    ensures forall i :: 0 <= i < |r| ==>
      r[i].path == listing[i] && r[i].href == "/?filename=" + listing[i] && (r[i].bold <==> listing[i] == current)
  {
    if |listing| == 0 then []
    else [Entry(listing[0], "/?filename=" + listing[0], listing[0] == current)] + Entries(listing[1..], current)
  }

  /** The paths of the links, in order. */
  function Paths(entries: seq<Entry>): (r: seq<Path>)
    ensures |r| == |entries|
    ensures forall i :: 0 <= i < |r| ==> r[i] == entries[i].path
  {
    if |entries| == 0 then [] else [entries[0].path] + Paths(entries[1..])
  }

  /** The sidebar body for a watch list and the file being viewed: the links
      are a permutation of the watch list, in sidebar order, and exactly the
      links to the current file are bold. */
  function Listing(watched: seq<Path>, current: Path): (r: seq<Entry>)
    ensures multiset(Paths(r)) == multiset(watched)
    ensures SidebarOrdered(Paths(r))
    ensures forall i :: 0 <= i < |r| ==> (r[i].bold <==> r[i].path == current)
    ensures forall i :: 0 <= i < |r| ==> r[i].href == "/?filename=" + r[i].path
  {
    var sorted := SortForSidebar(watched);
    var r := Entries(sorted, current);
    assert Paths(r) == sorted;
    r
  }

  /** With a duplicate-free watch list, one entry is bold exactly when the
      current file is watched, and never two. */
  lemma BoldEntryUnique(watched: seq<Path>, current: Path)
    requires NoDuplicates(watched)
    ensures var r := Listing(watched, current);
      && (current in watched <==> exists i :: 0 <= i < |r| && r[i].bold)
      && forall i, j :: 0 <= i < j < |r| && r[i].bold ==> !r[j].bold
  {
    var r := Listing(watched, current);
    var paths := Paths(r);
    PermutationNoDuplicates(watched, paths);
    assert current in watched <==> current in paths by {
      assert current in watched <==> current in multiset(watched);
      assert current in paths <==> current in multiset(paths);
    }
    if current in paths {
      var k :| 0 <= k < |paths| && paths[k] == current;
      assert r[k].bold;
    }
  }
}
