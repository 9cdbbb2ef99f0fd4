/** Splitting the `-w` flag into glob patterns: Go's `strings.Fields`, which
    cuts a string around runs of white space as `unicode.IsSpace` defines it. */
module Fields {

  /** `unicode.IsSpace`: the Latin-1 spaces plus the other code points with the
      Unicode White_Space property. */
  predicate IsSpace(c: char) {
    || c == '\t' || c == '\n' || c == '\U{0B}' || c == '\U{0C}' || c == '\r' || c == ' '
    || c == '\U{85}' || c == '\U{A0}' || c == '\U{1680}'
    || ('\U{2000}' <= c <= '\U{200A}')
    || c == '\U{2028}' || c == '\U{2029}' || c == '\U{202F}' || c == '\U{205F}' || c == '\U{3000}'
  }

  /** A field: a non-empty run of non-space characters. */
  predicate IsField(w: string) {
    |w| > 0 && forall i :: 0 <= i < |w| ==> !IsSpace(w[i])
  }

  /** The characters of `s` that are not white space, in order. */
  function NonSpace(s: string): string {
    if |s| == 0 then []
    else (if IsSpace(s[0]) then [] else [s[0]]) + NonSpace(s[1..])
  }

  function Concat(ws: seq<string>): string {
    if |ws| == 0 then [] else ws[0] + Concat(ws[1..])
  }

  /** Length of the longest prefix of `s` without white space. */
  function WordLength(s: string): (n: nat)
    ensures n <= |s|
    ensures forall i :: 0 <= i < n ==> !IsSpace(s[i])
    ensures n < |s| ==> IsSpace(s[n])
  {
    if |s| == 0 || IsSpace(s[0]) then 0 else 1 + WordLength(s[1..])
  }

  lemma {:induction false} NonSpaceAppend(a: string, b: string)
    ensures NonSpace(a + b) == NonSpace(a) + NonSpace(b)
    decreases |a|
  {
    if |a| == 0 {
      assert a + b == b;
    } else {
      assert (a + b)[1..] == a[1..] + b;
      NonSpaceAppend(a[1..], b);
    }
  }

  lemma {:induction false} NonSpaceOfWord(w: string)
    requires forall i :: 0 <= i < |w| ==> !IsSpace(w[i])
    ensures NonSpace(w) == w
    decreases |w|
  {
    if |w| > 0 {
      NonSpaceOfWord(w[1..]);
    }
  }

  /** `strings.Fields`: every piece is a field, and the pieces together hold
      exactly the non-space characters of the input, in order. */
  function Fields(s: string): (r: seq<string>)
    ensures forall i :: 0 <= i < |r| ==> IsField(r[i])
    ensures Concat(r) == NonSpace(s)
    decreases |s|
  {
    if |s| == 0 then []
    else if IsSpace(s[0]) then Fields(s[1..])
    else
      var n := WordLength(s);
      assert s == s[..n] + s[n..];
      NonSpaceAppend(s[..n], s[n..]);
      NonSpaceOfWord(s[..n]);
      [s[..n]] + Fields(s[n..])
  }

  /** The flag a user would write for a list of patterns: each followed by one space. */
  function Unfields(ws: seq<string>): string {
    if |ws| == 0 then [] else ws[0] + " " + Unfields(ws[1..])
  }

  lemma WordLengthOfField(w: string, rest: string)
    requires IsField(w)
    ensures WordLength(w + " " + rest) == |w|
    decreases |w|
  {
    var s := w + " " + rest;
    if |w| > 1 {
      assert s[1..] == w[1..] + " " + rest;
      WordLengthOfField(w[1..], rest);
    } else {
      assert s[1..] == " " + rest;
    }
  }

  /** Splitting a space-joined list of patterns gives back the list. */
  lemma {:induction false} FieldsOfUnfields(ws: seq<string>)
    requires forall i :: 0 <= i < |ws| ==> IsField(ws[i])
    ensures Fields(Unfields(ws)) == ws
    decreases |ws|
  {
    if |ws| > 0 {
      var rest := Unfields(ws[1..]);
      var s := ws[0] + " " + rest;
      assert Unfields(ws) == s;
      WordLengthOfField(ws[0], rest);
      var n := |ws[0]|;
      assert s[..n] == ws[0];
      assert s[n..] == " " + rest;
      assert (" " + rest)[1..] == rest;
      FieldsOfUnfields(ws[1..]);
      assert Fields(s[n..]) == Fields(rest);
    }
  }

  lemma {:induction false} WordLengthAppend(a: string, b: string)
    requires WordLength(a) < |a|
    ensures WordLength(a + b) == WordLength(a)
    decreases |a|
  {
    if !IsSpace(a[0]) {
      assert (a + b)[1..] == a[1..] + b;
      WordLengthAppend(a[1..], b);
    }
  }

  lemma FieldsOfSpace(s: string)
    requires |s| > 0 && IsSpace(s[0])
    ensures Fields(s) == Fields(s[1..])
  {
  }

  lemma FieldsOfWord(s: string, n: nat)
    requires |s| > 0 && !IsSpace(s[0]) && n == WordLength(s)
    ensures Fields(s) == [s[..n]] + Fields(s[n..])
  {
  }

  /** A string that ends in white space (or is empty) splits independently of
      what follows it: fields never run across a space. */
  lemma {:induction false} FieldsSplit(a: string, b: string)
    requires |a| == 0 || IsSpace(a[|a| - 1])
    ensures Fields(a + b) == Fields(a) + Fields(b)
    decreases |a|, 1
  {
    if |a| == 0 {
      assert a + b == b;
    } else if IsSpace(a[0]) {
      var ab := a + b;
      assert ab[1..] == a[1..] + b;
      FieldsOfSpace(ab);
      FieldsOfSpace(a);
      FieldsSplit(a[1..], b);
    } else {
      FieldsSplitWord(a, b);
    }
  }

  /** Appending to a string whose first field ends inside it leaves that field alone. */
  lemma FieldsAppendAfterWord(a: string, b: string, n: nat)
    requires |a| > 0 && !IsSpace(a[0]) && n == WordLength(a) && n < |a|
    ensures Fields(a + b) == [a[..n]] + Fields(a[n..] + b)
  {
    var ab := a + b;
    WordLengthAppend(a, b);
    assert ab[..n] == a[..n];
    assert ab[n..] == a[n..] + b;
    FieldsOfWord(ab, n);
  }

  lemma WordEndsBeforeSpace(a: string, n: nat)
    requires |a| > 0 && IsSpace(a[|a| - 1]) && n == WordLength(a)
    ensures n < |a| && |a[n..]| > 0 && a[n..][|a[n..]| - 1] == a[|a| - 1]
  {
  }

  /** The case of `FieldsSplit` where `a` starts with a field. */
  lemma {:induction false} FieldsSplitWord(a: string, b: string)
    requires |a| > 0 && !IsSpace(a[0]) && IsSpace(a[|a| - 1])
    ensures Fields(a + b) == Fields(a) + Fields(b)
    decreases |a|, 0
  {
    var n := WordLength(a);
    WordEndsBeforeSpace(a, n);
    var w, rest := a[..n], a[n..];
    FieldsAppendAfterWord(a, b, n);
    FieldsOfWord(a, n);
    FieldsSplit(rest, b);
    ConsAppend(w, Fields(a + b), Fields(a), Fields(rest + b), Fields(rest), Fields(b));
  }

  lemma ConsAppend<T>(x: T, whole: seq<T>, left: seq<T>, tail: seq<T>, leftTail: seq<T>, right: seq<T>)
    requires whole == [x] + tail && left == [x] + leftTail && tail == leftTail + right
    ensures whole == left + right
  {
  }

  /** A single field, alone, is split into just itself. */
  lemma FieldsOfField(w: string)
    requires IsField(w)
    ensures Fields(w) == [w]
  {
    var n := WordLength(w);
    assert n == |w|;
    assert w[..n] == w;
    assert w[n..] == [];
  }

  /** A field followed by white space (or by nothing) is split off whole:
      a word ends exactly where the first white-space character begins. */
  lemma FieldThenSpace(w: string, rest: string)
    requires IsField(w) && (|rest| == 0 || IsSpace(rest[0]))
    ensures Fields(w + rest) == [w] + Fields(rest)
  {
    var s := w + rest;
    var n := WordLength(s);
    assert forall i :: 0 <= i < |w| ==> s[i] == w[i];
    assert |rest| > 0 ==> s[|w|] == rest[0];
    assert n == |w|;
    assert s[..n] == w && s[n..] == rest;
    FieldsOfWord(s, n);
  }
}
