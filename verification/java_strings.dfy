/**
  The three `java.lang.String` operations that the temperature parser chains
  together: `split` on a one-character delimiter, `replace(x, "")` with a
  one-character target, and `trim`. A Dafny `char` is a Unicode scalar value
  where Java counts UTF-16 code units; no result here depends on the
  difference, since both halves of a surrogate pair lie above U+0020 and
  neither is a character the parser looks for.
*/
module JavaStrings {

  /** `trim` treats every character at or below U+0020 as white space. */
  predicate IsBlank(c: char) {
    c <= ' '
  }

  predicate AllBlank(s: string) {
    forall k :: 0 <= k < |s| ==> IsBlank(s[k])
  }

  /** What `trim` leaves: no blank at either end. */
  predicate IsTrimmed(s: string) {
    |s| == 0 || (!IsBlank(s[0]) && !IsBlank(s[|s| - 1]))
  }

  // ---------------------------------------------------------------------------
  // split
  // ---------------------------------------------------------------------------

  /** Position of the first occurrence of `c` in `s`. */
  function IndexOf(s: string, c: char): (i: nat)
    requires c in s
    ensures i < |s| && s[i] == c
    ensures c !in s[..i]
  {
    if s[0] == c then 0 else 1 + IndexOf(s[1..], c)
  }

  /**
    Every field between delimiters, empty ones included: `n` delimiters give
    `n + 1` fields.
  */
  function Fields(s: string, d: char): (fs: seq<string>)
    ensures |fs| >= 1
    decreases |s|
  {
    if d !in s then [s]
    else
      var i := IndexOf(s, d);
      [s[..i]] + Fields(s[i + 1..], d)
  }

  /** The inverse of `Fields`: the fields glued back together with `d`. */
  function Join(fs: seq<string>, d: char): (s: string)
  {
    if |fs| == 0 then ""
    else if |fs| == 1 then fs[0]
    else fs[0] + [d] + Join(fs[1..], d)
  }

  /**
    `split` with limit zero removes the empty strings at the end of the
    field list, all of them.
  */
  function DropTrailingEmpty(fs: seq<string>): (r: seq<string>)
    ensures |r| <= |fs| && r == fs[..|r|]
    ensures |r| == 0 || r[|r| - 1] != ""
    ensures forall k :: |r| <= k < |fs| ==> fs[k] == ""
  {
    if |fs| > 0 && fs[|fs| - 1] == "" then DropTrailingEmpty(fs[..|fs| - 1]) else fs
  }

  /**
    `s.split(d)` for a delimiter that is not a regular-expression
    metacharacter. When `d` does not occur the array holds `s` itself (even
    the empty string); otherwise trailing empty fields are dropped, so
    `"temp=".split("=")` has one element and `"=".split("=")` none.
  */
  function JavaSplit(s: string, d: char): (parts: seq<string>)
    ensures d !in s ==> parts == [s]
    ensures forall k :: 0 <= k < |parts| ==> d !in parts[k]
    ensures d in s ==> |parts| == 0 || parts[|parts| - 1] != ""
    ensures d in s ==> (|parts| >= 2 <==> HasTextAfterDelimiter(s, d))
  {
    if d !in s then [s]
    else
      FieldsHaveNoDelimiter(s, d);
      SplitHasSecondElement(s, d);
      DropTrailingEmpty(Fields(s, d))
  }

  /**
    The text between the first and the second `d` of `s`, or up to the end
    of `s` when there is only one `d`: the reference for element [1].
  */
  function SecondField(s: string, d: char): (field: string)
    requires d in s
    ensures d !in field
  {
    var t := s[IndexOf(s, d) + 1..];
    if d in t then t[..IndexOf(t, d)] else t
  }

  /** Some character after the first `d` is not itself `d`. */
  predicate HasTextAfterDelimiter(s: string, d: char)
    requires d in s
  {
    SomeNonDelimiter(s[IndexOf(s, d) + 1..], d)
  }

  /** No field holds the delimiter. */
  lemma {:induction false} FieldsHaveNoDelimiter(s: string, d: char)
    ensures forall k :: 0 <= k < |Fields(s, d)| ==> d !in Fields(s, d)[k]
    decreases |s|
  {
    if d in s {
      var i := IndexOf(s, d);
      FieldsHaveNoDelimiter(s[i + 1..], d);
    }
  }

  /** A text with a delimiter is its first field, the delimiter, and the rest. */
  lemma FieldsUnfold(s: string, d: char)
    requires d in s
    ensures s == s[..IndexOf(s, d)] + [d] + s[IndexOf(s, d) + 1..]
    ensures Fields(s, d) == [s[..IndexOf(s, d)]] + Fields(s[IndexOf(s, d) + 1..], d)
  {
  }

  /** The fields after the first are the fields of `u`, the text after the first delimiter. */
  lemma FieldsShift(s: string, d: char, u: string)
    requires d in s && u == s[IndexOf(s, d) + 1..]
    ensures |Fields(s, d)| == 1 + |Fields(u, d)|
    ensures Fields(s, d)[0] == s[..IndexOf(s, d)]
    ensures forall k :: 0 <= k < |Fields(u, d)| ==> Fields(s, d)[k + 1] == Fields(u, d)[k]
  {
    FieldsUnfold(s, d);
  }

  lemma JoinCons(x: string, tail: seq<string>, d: char)
    requires |tail| >= 1
    ensures Join([x] + tail, d) == x + [d] + Join(tail, d)
  {
    assert ([x] + tail)[1..] == tail;
  }

  lemma {:induction false} FieldsJoin(s: string, d: char)
    ensures Join(Fields(s, d), d) == s
    decreases |s|
  {
    if d in s {
      var i := IndexOf(s, d);
      var u := s[i + 1..];
      FieldsUnfold(s, d);
      FieldsJoin(u, d);
      JoinCons(s[..i], Fields(u, d), d);
    }
  }

  /** The first delimiter of `a + [d] + b` sits right after `a` when `a` has none. */
  lemma {:induction false} IndexOfAfterField(a: string, d: char, b: string)
    requires d !in a
    ensures d in a + [d] + b
    ensures IndexOf(a + [d] + b, d) == |a|
  {
    var s := a + [d] + b;
    assert s[|a|] == d;
    if |a| > 0 {
      assert s[0] == a[0];
      assert s[1..] == a[1..] + [d] + b;
      IndexOfAfterField(a[1..], d, b);
    }
  }

  /** Splitting off the first field of `a + [d] + rest`. */
  lemma FieldsAfterField(a: string, d: char, rest: string)
    requires d !in a
    ensures Fields(a + [d] + rest, d) == [a] + Fields(rest, d)
  {
    var s := a + [d] + rest;
    IndexOfAfterField(a, d, rest);
    assert s[..|a|] == a;
    assert s[|a| + 1..] == rest;
  }

  lemma {:induction false} JoinFields(fs: seq<string>, d: char)
    requires |fs| >= 1
    requires forall k :: 0 <= k < |fs| ==> d !in fs[k]
    ensures Fields(Join(fs, d), d) == fs
  {
    if |fs| > 1 {
      var tail := fs[1..];
      assert forall k :: 0 <= k < |tail| ==> d !in tail[k] by {
        forall k | 0 <= k < |tail| ensures d !in tail[k] {
          assert tail[k] == fs[k + 1];
        }
      }
      JoinFields(tail, d);
      assert d !in fs[0];
      FieldsAfterField(fs[0], d, Join(tail, d));
      assert fs == [fs[0]] + tail;
    }
  }

  /** Some field of `fs` is not empty. */
  predicate SomeNonEmpty(fs: seq<string>) {
    exists k :: 0 <= k < |fs| && fs[k] != ""
  }

  /** Some character of `t` is not the delimiter `d`. */
  predicate SomeNonDelimiter(t: string, d: char) {
    exists j :: 0 <= j < |t| && t[j] != d
  }

  /** A text without the delimiter is its only field. */
  lemma FieldsNonEmptyBase(t: string, d: char)
    requires d !in t
    ensures SomeNonEmpty(Fields(t, d)) <==> SomeNonDelimiter(t, d)
  {
    if |t| > 0 {
      assert t[0] != d;
      assert Fields(t, d)[0] == t;
    }
  }

  /** A field list holds a non-empty field exactly when the text has a non-delimiter. */
  lemma {:induction false} FieldsNonEmpty(t: string, d: char)
    ensures SomeNonEmpty(Fields(t, d)) <==> SomeNonDelimiter(t, d)
    decreases |t|
  {
    if d !in t {
      FieldsNonEmptyBase(t, d);
    } else {
      var i := IndexOf(t, d);
      var u := t[i + 1..];
      FieldsNonEmpty(u, d);
      FieldsStep(t, d, i, u);
    }
  }

  /** One step of `FieldsNonEmpty`: the first field, then the fields of the rest `u`. */
  lemma FieldsStep(t: string, d: char, i: nat, u: string)
    requires d in t && i == IndexOf(t, d) && u == t[i + 1..]
    requires SomeNonEmpty(Fields(u, d)) <==> SomeNonDelimiter(u, d)
    ensures SomeNonEmpty(Fields(t, d)) <==> SomeNonDelimiter(t, d)
  {
    FieldsShift(t, d, u);
    if SomeNonEmpty(Fields(t, d)) {
      FieldsStepForward(t, d, i, u);
    }
    if SomeNonDelimiter(t, d) {
      FieldsStepBackward(t, d, i, u);
    }
  }

  lemma FieldsStepForward(t: string, d: char, i: nat, u: string)
    requires d in t && i == IndexOf(t, d) && u == t[i + 1..]
    requires |Fields(t, d)| == 1 + |Fields(u, d)|
    requires Fields(t, d)[0] == t[..i]
    requires forall k :: 0 <= k < |Fields(u, d)| ==> Fields(t, d)[k + 1] == Fields(u, d)[k]
    requires SomeNonEmpty(Fields(u, d)) ==> SomeNonDelimiter(u, d)
    requires SomeNonEmpty(Fields(t, d))
    ensures SomeNonDelimiter(t, d)
  {
    var fs := Fields(t, d);
    var k :| 0 <= k < |fs| && fs[k] != "";
    if k == 0 {
      assert t[..i][0] == t[0];
    } else {
      assert Fields(u, d)[k - 1] != "";
      var j :| 0 <= j < |u| && u[j] != d;
      assert t[i + 1 + j] == u[j];
    }
  }

  lemma FieldsStepBackward(t: string, d: char, i: nat, u: string)
    requires d in t && i == IndexOf(t, d) && u == t[i + 1..]
    requires |Fields(t, d)| == 1 + |Fields(u, d)|
    requires Fields(t, d)[0] == t[..i]
    requires forall k :: 0 <= k < |Fields(u, d)| ==> Fields(t, d)[k + 1] == Fields(u, d)[k]
    requires SomeNonDelimiter(u, d) ==> SomeNonEmpty(Fields(u, d))
    requires SomeNonDelimiter(t, d)
    ensures SomeNonEmpty(Fields(t, d))
  {
    var fs := Fields(t, d);
    var j :| 0 <= j < |t| && t[j] != d;
    if j < i {
      assert t[..i][j] == t[j];
      assert fs[0] != "";
    } else {
      assert u[j - i - 1] == t[j];
      var k :| 0 <= k < |Fields(u, d)| && Fields(u, d)[k] != "";
      assert fs[k + 1] != "";
    }
  }

  /** Some field at position `j` or later is not empty. */
  predicate NonEmptyFrom(fs: seq<string>, j: nat) {
    exists k :: j <= k < |fs| && fs[k] != ""
  }

  /** Dropping trailing empty fields keeps position `j` exactly when a non-empty field sits at or after it. */
  lemma DropTrailingEmptyKeeps(fs: seq<string>, j: nat)
    ensures |DropTrailingEmpty(fs)| > j <==> NonEmptyFrom(fs, j)
  {
    var r := DropTrailingEmpty(fs);
    if |r| > j {
      assert fs[|r| - 1] == r[|r| - 1];
    }
  }

  lemma FieldsAfterFirst(s: string, d: char, u: string)
    requires d in s && u == s[IndexOf(s, d) + 1..]
    ensures NonEmptyFrom(Fields(s, d), 1) <==> SomeNonEmpty(Fields(u, d))
  {
    var fs := Fields(s, d);
    var gs := Fields(u, d);
    FieldsShift(s, d, u);
    if NonEmptyFrom(fs, 1) {
      var k :| 1 <= k < |fs| && fs[k] != "";
      assert gs[k - 1] == fs[k];
    }
    if SomeNonEmpty(gs) {
      var k :| 0 <= k < |gs| && gs[k] != "";
      assert fs[k + 1] == gs[k];
    }
  }

  /** Element [1] of `s.split(d)` exists exactly when some character after the first delimiter is not a delimiter. */
  lemma SplitHasSecondElement(s: string, d: char)
    requires d in s
    ensures |DropTrailingEmpty(Fields(s, d))| >= 2 <==> HasTextAfterDelimiter(s, d)
  {
    var u := s[IndexOf(s, d) + 1..];
    FieldsAfterFirst(s, d, u);
    FieldsNonEmpty(u, d);
    DropTrailingEmptyKeeps(Fields(s, d), 1);
  }

  /** The second field of `a=b`, when neither part holds the delimiter, is `b`. */
  lemma SecondFieldLast(a: string, d: char, b: string)
    requires d !in a && d !in b
    ensures d in a + [d] + b
    ensures SecondField(a + [d] + b, d) == b
  {
    IndexOfAfterField(a, d, b);
    assert (a + [d] + b)[|a| + 1..] == b;
  }

  /** The second field of `a=b=c`, when neither `a` nor `b` holds the delimiter, is `b`. */
  lemma SecondFieldMiddle(a: string, d: char, b: string, c: string)
    requires d !in a && d !in b
    ensures d in a + [d] + b + [d] + c
    ensures SecondField(a + [d] + b + [d] + c, d) == b
  {
    var s := a + [d] + (b + [d] + c);
    assert a + [d] + b + [d] + c == s;
    IndexOfAfterField(a, d, b + [d] + c);
    assert s[|a| + 1..] == b + [d] + c;
    IndexOfAfterField(b, d, c);
    assert (b + [d] + c)[..|b|] == b;
  }

  /** When element [1] of `s.split(d)` exists it is the second field. */
  lemma SplitSecondElement(s: string, d: char)
    requires d in s
    requires |JavaSplit(s, d)| >= 2
    ensures JavaSplit(s, d)[1] == SecondField(s, d)
  {
    var fs := Fields(s, d);
    var parts := JavaSplit(s, d);
    assert parts == DropTrailingEmpty(fs);
    assert parts[1] == fs[1];
    var u := s[IndexOf(s, d) + 1..];
    FieldsShift(s, d, u);
    FieldsHead(u, d);
  }

  /** The first field is the text up to the first delimiter, or all of it. */
  lemma FieldsHead(u: string, d: char)
    ensures Fields(u, d)[0] == if d in u then u[..IndexOf(u, d)] else u
  {
  }

  // ---------------------------------------------------------------------------
  // replace(x, "")
  // ---------------------------------------------------------------------------

  /** `s.replace(c, "")`: every occurrence of `c` deleted, the rest kept in order. */
  function RemoveAll(s: string, c: char): (r: string)
    ensures c !in r
    ensures forall x :: x in r <==> x in s && x != c
    ensures c !in s ==> r == s
  {
    if |s| == 0 then ""
    else if s[0] == c then RemoveAll(s[1..], c)
    else [s[0]] + RemoveAll(s[1..], c)
  }

  /** Removal keeps every other character as often as it occurred. */
  lemma {:induction false} RemoveAllCounts(s: string, c: char)
    ensures multiset(RemoveAll(s, c)) == multiset(s)[c := 0]
  {
    if |s| > 0 {
      var tail := s[1..];
      RemoveAllCounts(tail, c);
      assert s == [s[0]] + tail;
      if s[0] != c {
        RemoveAllCountsKept(s[0], tail, c);
      } else {
        RemoveAllCountsDropped(tail, c);
      }
    }
  }

  /** The step of `RemoveAllCounts` for a first character that is kept. */
  lemma RemoveAllCountsKept(x: char, tail: string, c: char)
    requires x != c
    requires multiset(RemoveAll(tail, c)) == multiset(tail)[c := 0]
    ensures multiset(RemoveAll([x] + tail, c)) == multiset([x] + tail)[c := 0]
  {
    var s := [x] + tail;
    assert s[0] == x && s[1..] == tail;
    var r := RemoveAll(tail, c);
    assert RemoveAll(s, c) == [x] + r;
    assert multiset([x] + r) == multiset{x} + multiset(r);
    assert multiset(s) == multiset{x} + multiset(tail);
    assert (multiset{x} + multiset(tail))[c := 0] == multiset{x} + multiset(tail)[c := 0];
  }

  /** The step of `RemoveAllCounts` for a first character that is removed. */
  lemma RemoveAllCountsDropped(tail: string, c: char)
    requires multiset(RemoveAll(tail, c)) == multiset(tail)[c := 0]
    ensures multiset(RemoveAll([c] + tail, c)) == multiset([c] + tail)[c := 0]
  {
    var s := [c] + tail;
    assert s[0] == c && s[1..] == tail;
    assert RemoveAll(s, c) == RemoveAll(tail, c);
    assert multiset(s) == multiset{c} + multiset(tail);
    assert (multiset{c} + multiset(tail))[c := 0] == multiset(tail)[c := 0];
  }

  /** Removal works piecewise, so the surviving characters keep their order. */
  lemma {:induction false} RemoveAllAppend(a: string, b: string, c: char)
    ensures RemoveAll(a + b, c) == RemoveAll(a, c) + RemoveAll(b, c)
  {
    if |a| > 0 {
      assert (a + b)[1..] == a[1..] + b;
      RemoveAllAppend(a[1..], b, c);
    } else {
      assert a + b == b;
    }
  }

  // ---------------------------------------------------------------------------
  // trim
  // ---------------------------------------------------------------------------

  /** How many blanks `s` starts with. */
  function LeadingBlanks(s: string): (n: nat)
    ensures n <= |s|
    ensures AllBlank(s[..n])
    ensures n == |s| || !IsBlank(s[n])
  {
    if |s| > 0 && IsBlank(s[0]) then 1 + LeadingBlanks(s[1..]) else 0
  }

  /** How many blanks `s` ends with. */
  function TrailingBlanks(s: string): (n: nat)
    ensures n <= |s|
    ensures AllBlank(s[|s| - n..])
    ensures n == |s| || !IsBlank(s[|s| - n - 1])
  {
    if |s| > 0 && IsBlank(s[|s| - 1]) then 1 + TrailingBlanks(s[..|s| - 1]) else 0
  }

  /**
    `s.trim()`: the leading blanks, then the trailing blanks of what is left,
    cut away. What remains sits in `s` right after its leading blanks and is
    followed only by blanks.
  */
  function Trim(s: string): (r: string)
    ensures IsTrimmed(r)
    ensures LeadingBlanks(s) + |r| <= |s|
    ensures r == s[LeadingBlanks(s)..LeadingBlanks(s) + |r|]
    ensures AllBlank(s[LeadingBlanks(s) + |r|..])
    ensures forall c :: c in r ==> c in s
  {
    var st := LeadingBlanks(s);
    var rest := s[st..];
    var n := TrailingBlanks(rest);
    var r := rest[..|rest| - n];
    assert |r| > 0 ==> r[0] == s[st];
    assert s[st + |r|..] == rest[|rest| - n..];
    r
  }

  lemma {:induction false} LeadingBlanksOfBlankPrefix(a: string, m: string)
    requires AllBlank(a)
    requires |m| == 0 || !IsBlank(m[0])
    ensures LeadingBlanks(a + m) == |a| + LeadingBlanks(m)
  {
    if |a| > 0 {
      assert (a + m)[1..] == a[1..] + m;
      LeadingBlanksOfBlankPrefix(a[1..], m);
    } else {
      assert a + m == m;
    }
  }

  lemma AllBlankAppend(a: string, b: string)
    requires AllBlank(a) && AllBlank(b)
    ensures AllBlank(a + b)
  {
    forall k | 0 <= k < |a + b| ensures IsBlank((a + b)[k]) {
      if k < |a| { assert (a + b)[k] == a[k]; } else { assert (a + b)[k] == b[k - |a|]; }
    }
  }

  /** An all-blank text trims to nothing. */
  lemma TrimAllBlank(s: string)
    requires AllBlank(s)
    ensures Trim(s) == ""
  {
  }

  /**
    The partner of `Trim`: a text made of blanks, a trimmed core and blanks
    trims to that core and nothing else.
  */
  lemma TrimUnique(a: string, m: string, b: string)
    requires AllBlank(a) && AllBlank(b) && IsTrimmed(m)
    ensures Trim(a + m + b) == m
  {
    var s := a + m + b;
    if |m| == 0 {
      assert s == a + b;
      AllBlankAppend(a, b);
      TrimAllBlank(s);
    } else {
      TrimUniqueCore(a, m, b);
    }
  }

  lemma {:induction false} TrailingBlanksOfBlankSuffix(m: string, b: string)
    requires AllBlank(b)
    requires |m| == 0 || !IsBlank(m[|m| - 1])
    ensures TrailingBlanks(m + b) == |b| + TrailingBlanks(m)
  {
    if |b| > 0 {
      var b' := b[..|b| - 1];
      assert (m + b)[..|m + b| - 1] == m + b';
      TrailingBlanksOfBlankSuffix(m, b');
    } else {
      assert m + b == m;
    }
  }

  lemma TrimUniqueCore(a: string, m: string, b: string)
    requires AllBlank(a) && AllBlank(b) && IsTrimmed(m) && |m| > 0
    ensures Trim(a + m + b) == m
  {
    var s := a + m + b;
    assert s == a + (m + b);
    LeadingBlanksOfBlankPrefix(a, m + b);
    assert LeadingBlanks(s) == |a|;
    var rest := s[|a|..];
    assert rest == m + b;
    TrailingBlanksOfBlankSuffix(m, b);
    assert TrailingBlanks(m) == 0;
    assert rest[..|rest| - |b|] == m;
  }

  /** Text with no blank at either end is its own trim. */
  lemma TrimOfTrimmed(s: string)
    requires IsTrimmed(s)
    ensures Trim(s) == s
  {
    assert s == "" + s + "";
    TrimUnique("", s, "");
  }

  /** `trim` cuts away blanks only: every other character of `s` survives it. */
  lemma TrimKeepsNonBlank(s: string)
    ensures forall c :: c in s && !IsBlank(c) ==> c in Trim(s)
  {
    TrimCountsNonBlank(s);
    forall c | c in s && !IsBlank(c) ensures c in Trim(s) {
      assert multiset(Trim(s))[c] == multiset(s)[c];
    }
  }

  /** A blank-only text holds no non-blank character. */
  lemma AllBlankCount(a: string, x: char)
    requires AllBlank(a) && !IsBlank(x)
    ensures multiset(a)[x] == 0
  {
    assert x !in a;
  }

  /** `trim` keeps every non-blank character as often as it occurred. */
  lemma TrimCountsNonBlank(s: string)
    ensures forall x :: !IsBlank(x) ==> multiset(Trim(s))[x] == multiset(s)[x]
  {
    var n := LeadingBlanks(s);
    var r := Trim(s);
    var head, tail := s[..n], s[n + |r|..];
    ThreePieces(s, n, n + |r|);
    assert multiset(s) == multiset(head) + multiset(r) + multiset(tail);
    forall x | !IsBlank(x) ensures multiset(r)[x] == multiset(s)[x] {
      AllBlankCount(head, x);
      AllBlankCount(tail, x);
    }
  }

  /** Cutting a text in three pieces keeps its characters. */
  lemma ThreePieces(s: string, i: nat, j: nat)
    requires i <= j <= |s|
    ensures multiset(s) == multiset(s[..i]) + multiset(s[i..j]) + multiset(s[j..])
  {
    assert s == s[..i] + s[i..j] + s[j..];
  }

  /** Trimming twice trims nothing more. */
  lemma TrimIdempotent(s: string)
    ensures Trim(Trim(s)) == Trim(s)
  {
    TrimOfTrimmed(Trim(s));
  }

  /**
    The index loops of `String.trim`: advance a start index past blanks,
    then pull the end index back past blanks, and return the text between.
  */
  method TrimByIndices(s: string) returns (r: string)
    ensures r == Trim(s)
  {
    var st := 0;
    var len := |s|;
    while st < len && IsBlank(s[st])
      invariant 0 <= st <= len == |s|
      invariant AllBlank(s[..st])
    {
      st := st + 1;
    }
    while st < len && IsBlank(s[len - 1])
      invariant st <= len <= |s|
      invariant AllBlank(s[len..])
      invariant st == |s| || !IsBlank(s[st])
    {
      len := len - 1;
    }
    r := s[st..len];
    assert s == s[..st] + r + s[len..];
    assert IsTrimmed(r) by {
      if |r| > 0 {
        assert r[0] == s[st];
        assert r[|r| - 1] == s[len - 1];
      }
    }
    TrimUnique(s[..st], r, s[len..]);
  }
}
