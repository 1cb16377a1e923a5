/** String helpers shared by the JavaScript and Python parts of the model:
    decimal printing and parsing of integers, character search, splitting
    and joining, and ASCII lower-casing. */
module Text {

  predicate IsDigit(c: char) {
    '0' <= c <= '9'
  }

  predicate AllDigits(s: string) {
    forall i :: 0 <= i < |s| ==> IsDigit(s[i])
  }

  function DigitChar(d: nat): (c: char)
    requires d < 10
    ensures IsDigit(c) && c as int - '0' as int == d
  {
    ('0' as int + d) as char
  }

  /** How a JavaScript template literal and a Python f-string print a
      non-negative integer: decimal digits, no leading zero. */
  function NatToString(n: nat): (s: string)
    ensures 1 <= |s| && AllDigits(s)
    ensures s[0] == '0' ==> n == 0 && s == "0"
    decreases n
  {
    if n < 10 then [DigitChar(n)] else NatToString(n / 10) + [DigitChar(n % 10)]
  }

  /** The value of a string of decimal digits (leading zeros allowed), as
      JavaScript's parseInt and Python's int() read it. */
  function DigitsValue(s: string): nat
    requires AllDigits(s)
  {
    if s == [] then 0 else DigitsValue(s[..|s| - 1]) * 10 + (s[|s| - 1] as int - '0' as int)
  }

  lemma {:induction false} DigitsValueOfNatToString(n: nat)
    ensures DigitsValue(NatToString(n)) == n
    decreases n
  {
    if n >= 10 {
      var s := NatToString(n);
      assert s[..|s| - 1] == NatToString(n / 10);
      DigitsValueOfNatToString(n / 10);
    }
  }

  /** Printing is injective: two numbers print alike only when equal. */
  lemma NatToStringInjective(a: nat, b: nat)
    requires NatToString(a) == NatToString(b)
    ensures a == b
  {
    DigitsValueOfNatToString(a);
    DigitsValueOfNatToString(b);
  }

  /** Python's str() of an int, and JavaScript's printing of an integer. */
  function IntToString(i: int): (s: string)
    ensures 1 <= |s|
    ensures i >= 0 <==> s[0] != '-'
  {
    if i < 0 then "-" + NatToString(-i) else NatToString(i)
  }

  lemma IntToStringInjective(a: int, b: int)
    requires IntToString(a) == IntToString(b)
    ensures a == b
  {
    if a < 0 && b < 0 {
      assert NatToString(-a) == IntToString(a)[1..];
      assert NatToString(-b) == IntToString(b)[1..];
      NatToStringInjective(-a, -b);
    } else if a >= 0 && b >= 0 {
      NatToStringInjective(a, b);
    }
  }

  /** The index of the first occurrence of c in s, or -1 (JavaScript's
      indexOf and Python's find for a one-character needle). */
  function IndexOf(s: string, c: char): (i: int)
    ensures -1 <= i < |s|
    ensures i == -1 <==> c !in s
    ensures 0 <= i ==> s[i] == c && c !in s[..i]
  {
    if s == [] then -1
    else if s[0] == c then 0
    else var j := IndexOf(s[1..], c); if j == -1 then -1 else j + 1
  }

  /** A string is the text before index i, its character there, and the rest. */
  lemma Around(s: string, i: nat)
    requires i < |s|
    ensures s == s[..i] + [s[i]] + s[i + 1..]
  {
    assert s[..i + 1] == s[..i] + [s[i]];
  }

  /** The first occurrence of c is where IndexOf finds it. */
  lemma IndexOfIs(s: string, c: char, i: nat)
    requires i < |s| && s[i] == c && c !in s[..i]
    ensures IndexOf(s, c) == i
  {
  }

  /** A slice is the concatenation of the four slices it is cut into. */
  lemma SliceParts(s: string, a: nat, b: nat, c: nat, d: nat, e: nat)
    requires a <= b <= c <= d <= e <= |s|
    ensures s[a..e] == s[a..b] + s[b..c] + s[c..d] + s[d..e]
  {
    assert s[a..e] == s[a..b] + s[b..e];
    assert s[b..e] == s[b..c] + s[c..e];
    assert s[c..e] == s[c..d] + s[d..e];
  }

  /** A prefix of a suffix is a slice of the whole. */
  lemma PrefixOfSuffix(s: string, i: nat, k: nat)
    requires i + k <= |s|
    ensures s[i..][..k] == s[i..i + k]
  {
  }

  /** A suffix of a suffix is a suffix of the whole. */
  lemma SuffixOfSuffix(s: string, i: nat, j: nat)
    requires i + j <= |s|
    ensures s[i..][j..] == s[i + j..]
  {
  }

  /** In x + [c] + y with c not in x, the first c sits right after x. */
  lemma IndexOfConcat(x: string, c: char, y: string)
    requires c !in x
    ensures var s := x + [c] + y; IndexOf(s, c) == |x| && s[..|x|] == x && s[|x| + 1..] == y
  {
    var s := x + [c] + y;
    assert s[..|x|] == x;
    IndexOfIs(s, c, |x|);
    assert s[|x| + 1..] == y;
  }

  /** The index of the last occurrence of c in s, or -1 (Python's rfind). */
  function LastIndexOf(s: string, c: char): (i: int)
    ensures -1 <= i < |s|
    ensures i == -1 <==> c !in s
    ensures 0 <= i ==> s[i] == c && c !in s[i + 1..]
  {
    if s == [] then -1
    else if s[|s| - 1] == c then |s| - 1
    else
      var i := LastIndexOf(s[..|s| - 1], c);
      assert s[..|s| - 1][i + 1..] + [s[|s| - 1]] == s[i + 1..];
      i
  }

  /** The last occurrence of c is where LastIndexOf finds it. */
  lemma LastIndexOfIs(s: string, c: char, i: nat)
    requires i < |s| && s[i] == c && c !in s[i + 1..]
    ensures LastIndexOf(s, c) == i
  {
  }

  /** Appending text without c leaves the last occurrence of c in place. */
  lemma LastIndexOfAppend(x: string, y: string, c: char)
    requires c !in y
    ensures LastIndexOf(x + y, c) == LastIndexOf(x, c)
  {
    var i := LastIndexOf(x, c);
    if i >= 0 {
      assert (x + y)[i + 1..] == x[i + 1..] + y;
      LastIndexOfIs(x + y, c, i);
    } else {
      assert c !in x + y;
    }
  }

  /** pieces[0] + sep + pieces[1] + ... + sep + pieces[n-1] */
  function Join(pieces: seq<string>, sep: string): string
  {
    if pieces == [] then ""
    else if |pieces| == 1 then pieces[0]
    else Join(pieces[..|pieces| - 1], sep) + sep + pieces[|pieces| - 1]
  }

  /** Python's s.split(c) for a one-character separator: the maximal
      c-free pieces, in order. */
  function Split(s: string, c: char): (pieces: seq<string>)
    ensures 1 <= |pieces|
    decreases |s|
  {
    var i := IndexOf(s, c);
    if i == -1 then [s] else [s[..i]] + Split(s[i + 1..], c)
  }

  /** No piece of a split holds the separator. */
  lemma {:induction false} SplitPieceFree(s: string, c: char, k: nat)
    requires k < |Split(s, c)|
    ensures c !in Split(s, c)[k]
    decreases |s|
  {
    var i := IndexOf(s, c);
    if i != -1 && k > 0 {
      SplitPieceFree(s[i + 1..], c, k - 1);
    }
  }

  /** A character absent from s is absent from every piece of its split. */
  lemma {:induction false} SplitKeepsOut(s: string, c: char, d: char, k: nat)
    requires d !in s && k < |Split(s, c)|
    ensures d !in Split(s, c)[k]
    decreases |s|
  {
    var i := IndexOf(s, c);
    if i != -1 {
      var x, y := s[..i], s[i + 1..];
      Around(s, i);
      assert d !in x && d !in y;
      assert Split(s, c) == [x] + Split(y, c);
      if k > 0 {
        SplitKeepsOut(y, c, d, k - 1);
      }
    }
  }

  /** A character absent from a suffix is absent from every shorter suffix. */
  lemma SuffixKeepsOut(s: string, i: nat, j: nat, c: char)
    requires i <= j <= |s| && c !in s[i..]
    ensures c !in s[j..]
  {
    assert s[j..] == s[i..][j - i..];
  }

  /** A string without the separator splits into itself. */
  lemma SplitFree(s: string, c: char)
    requires c !in s
    ensures Split(s, c) == [s]
  {
  }

  /** Splitting x + c + y, with x free of c, gives x followed by the pieces
      of y. */
  lemma SplitAt(x: string, y: string, c: char)
    requires c !in x
    ensures Split(x + [c] + y, c) == [x] + Split(y, c)
  {
    var s := x + [c] + y;
    assert s[..|x|] == x;
    IndexOfIs(s, c, |x|);
    assert s[|x| + 1..] == y;
  }

  /** The first piece of x + c + y, with x free of c, is x. */
  lemma SplitFirst(s: string, x: string, y: string, c: char)
    requires s == x + [c] + y && c !in x
    ensures Split(s, c)[0] == x
  {
    SplitAt(x, y, c);
  }

  /** The first piece of a split is the longest separator-free prefix: the
      separator or the end of the string follows it. */
  lemma SplitHead(s: string, c: char)
    ensures var p := Split(s, c)[0];
      p <= s && c !in p && (|p| == |s| || s[|p|] == c)
  {
    var i := IndexOf(s, c);
    if i != -1 {
      assert Split(s, c)[0] == s[..i];
    }
  }

  /** Splitting at the first separator, wherever it is. */
  lemma SplitStep(s: string, c: char, i: nat)
    requires i < |s| && s[i] == c && c !in s[..i]
    ensures Split(s, c) == [s[..i]] + Split(s[i + 1..], c)
  {
    IndexOfIs(s, c, i);
  }

  lemma ConsAssoc<T>(a: T, p: seq<T>, q: seq<T>)
    ensures [a] + (p + q) == [a] + p + q
  {
  }

  /** The slices of x + [c] + y before, at and after a position inside x. */
  lemma ConcatSlices(s: string, x: string, y: string, c: char, i: nat)
    requires s == x + [c] + y && i < |x|
    ensures s[..i] == x[..i] && s[i] == x[i] && s[i + 1..] == x[i + 1..] + [c] + y
  {
  }

  /** Splitting at one separator splits the two sides independently. */
  lemma {:induction false} SplitConcat(s: string, x: string, y: string, c: char)
    requires s == x + [c] + y
    ensures Split(s, c) == Split(x, c) + Split(y, c)
    decreases |x|
  {
    var i := IndexOf(x, c);
    if i == -1 {
      SplitAt(x, y, c);
      SplitFree(x, c);
    } else {
      ConcatSlices(s, x, y, c, i);
      var head, rest := Split(x[i + 1..], c), Split(y, c);
      calc {
        Split(s, c);
        { SplitStep(s, c, i); }
        [x[..i]] + Split(s[i + 1..], c);
        { SplitConcat(s[i + 1..], x[i + 1..], y, c); }
        [x[..i]] + (head + rest);
        { ConsAssoc(x[..i], head, rest); }
        [x[..i]] + head + rest;
        { SplitStep(x, c, i); }
        Split(x, c) + rest;
      }
    }
  }

  /** The last piece of a split is the text after the last separator. */
  lemma {:induction false} SplitLastSuffix(s: string, c: char, i: nat)
    requires i < |s| && s[i] == c && c !in s[i + 1..]
    ensures var p := Split(s, c); p[|p| - 1] == s[i + 1..]
    decreases |s|
  {
    var j := IndexOf(s, c);
    var rest := s[j + 1..];
    var p, q := Split(s, c), Split(rest, c);
    assert p == [s[..j]] + q;
    LastOfCons(s[..j], q);
    assert p[|p| - 1] == q[|q| - 1];
    if j == i {
      SplitFree(rest, c);
      assert q[|q| - 1] == rest == s[i + 1..];
    } else {
      var k := i - j - 1;
      assert rest[k + 1..] == s[i + 1..];
      SplitLastSuffix(rest, c, k);
      assert q[|q| - 1] == s[i + 1..];
    }
  }

  lemma LastOfCons(x: string, ps: seq<string>)
    requires ps != []
    ensures var xs := [x] + ps; xs[|xs| - 1] == ps[|ps| - 1]
  {
  }

  lemma {:induction false} JoinCons(x: string, rest: seq<string>, sep: string)
    requires rest != []
    ensures Join([x] + rest, sep) == x + sep + Join(rest, sep)
    decreases |rest|
  {
    var xs, n := [x] + rest, |rest|;
    assert xs[..n] == [x] + rest[..n - 1] && xs[n] == rest[n - 1];
    assert Join(xs, sep) == Join(xs[..n], sep) + sep + rest[n - 1];
    if n == 1 {
      assert xs[..n] == [x] && rest == [rest[0]];
    } else {
      JoinCons(x, rest[..n - 1], sep);
      Assoc5(x, sep, Join(rest[..n - 1], sep), sep, rest[n - 1]);
    }
  }

  lemma Assoc5(a: string, b: string, c: string, d: string, e: string)
    ensures a + b + c + d + e == a + b + (c + d + e)
  {
  }

  /** Joining the pieces of a split with the separator gives the string back. */
  lemma {:induction false} JoinSplit(s: string, c: char)
    ensures Join(Split(s, c), [c]) == s
    decreases |s|
  {
    var i := IndexOf(s, c);
    if i != -1 {
      var x, y := s[..i], s[i + 1..];
      var rest := Split(y, c);
      assert Split(s, c) == [x] + rest;
      JoinSplit(y, c);
      JoinCons(x, rest, [c]);
      Around(s, i);
    }
  }

  /** Splitting a joined list of separator-free pieces gives the pieces back. */
  lemma {:induction false} SplitJoin(pieces: seq<string>, c: char)
    requires 1 <= |pieces|
    requires forall k :: 0 <= k < |pieces| ==> c !in pieces[k]
    ensures Split(Join(pieces, [c]), c) == pieces
    decreases |pieces|
  {
    if |pieces| > 1 {
      var rest := pieces[1..];
      JoinCons(pieces[0], rest, [c]);
      assert pieces == [pieces[0]] + rest;
      var s := Join(pieces, [c]);
      assert s == pieces[0] + [c] + Join(rest, [c]);
      assert s[..|pieces[0]|] == pieces[0];
      assert s[|pieces[0]|] == c;
      assert IndexOf(s, c) == |pieces[0]|;
      assert s[|pieces[0]| + 1..] == Join(rest, [c]);
      SplitJoin(rest, c);
    }
  }

  function LowerChar(c: char): char {
    if 'A' <= c <= 'Z' then (c as int - 'A' as int + 'a' as int) as char else c
  }

  /** Lower-casing, restricted to ASCII letters. */
  function Lower(s: string): (r: string)
    ensures |r| == |s|
    ensures forall i :: 0 <= i < |s| ==> r[i] == LowerChar(s[i])
    ensures forall i :: 0 <= i < |r| ==> !('A' <= r[i] <= 'Z')
    ensures forall i :: 0 <= i < |s| && !('A' <= s[i] <= 'Z') ==> r[i] == s[i]
    ensures forall i :: 0 <= i < |s| && 'A' <= s[i] <= 'Z' ==> r[i] as int == s[i] as int + 32
  {
    seq(|s|, i requires 0 <= i < |s| => LowerChar(s[i]))
  }

  /** Lower-casing twice is lower-casing once. */
  lemma LowerIdempotent(s: string)
    ensures Lower(Lower(s)) == Lower(s)
  {
  }

  /** Lower-casing introduces no character other than a lower-case letter. */
  lemma LowerKeepsOut(s: string, c: char)
    requires !('a' <= c <= 'z') && c !in s
    ensures c !in Lower(s)
  {
    forall i | 0 <= i < |s|
      ensures Lower(s)[i] != c
    {
      assert s[i] != c;
    }
  }
}
