/** The Python string operations the scripts rely on: str.isspace, str.strip,
    str.split with a one-character separator, and str.join. */
module Text {

  /** Python's str.isspace on one character: the ASCII controls \t to \r, the
      information separators \x1c to \x1f, and the Unicode spaces. */
  predicate IsSpace(c: char)
  {
    || c == ' ' || ('\t' <= c <= '\r') || ('\U{1C}' <= c <= '\U{1F}')
    || c == '\U{85}' || c == '\U{A0}' || c == '\U{1680}'
    || ('\U{2000}' <= c <= '\U{200A}')
    || c == '\U{2028}' || c == '\U{2029}' || c == '\U{202F}'
    || c == '\U{205F}' || c == '\U{3000}'
  }

  /** Every character is white space, so that s.strip() is empty (falsy in Python). */
  predicate IsBlank(s: string)
  {
    forall k :: 0 <= k < |s| ==> IsSpace(s[k])
  }

  /** The number of white-space characters s starts with. */
  function LeadingSpaces(s: string): (n: nat)
    ensures n <= |s|
    ensures forall k :: 0 <= k < n ==> IsSpace(s[k])
    ensures n < |s| ==> !IsSpace(s[n])
  {
    if s != [] && IsSpace(s[0]) then 1 + LeadingSpaces(s[1..]) else 0
  }

  /** Where the white space s ends with begins. */
  function TrailingStart(s: string): (n: nat)
    ensures n <= |s|
    ensures forall k :: n <= k < |s| ==> IsSpace(s[k])
    ensures n > 0 ==> !IsSpace(s[n - 1])
  {
    if s != [] && IsSpace(s[|s| - 1]) then TrailingStart(s[..|s| - 1]) else |s|
  }

  /** s.strip(): s with its leading and trailing white space removed. */
  function Strip(s: string): (r: string)
    ensures r == [] <==> IsBlank(s)
    ensures r != [] ==> !IsSpace(r[0]) && !IsSpace(r[|r| - 1])
  {
    var i := LeadingSpaces(s);
    var t := s[i..];
    var n := TrailingStart(t);
    assert i < |s| ==> !IsBlank(s);
    assert i < |s| ==> n > 0;
    t[..n]
  }

  /** What Strip keeps is a stretch of s with only white space around it. */
  lemma StripInfix(s: string)
    ensures exists i, j :: 0 <= i <= j <= |s| && Strip(s) == s[i..j] && IsBlank(s[..i]) && IsBlank(s[j..])
  {
    var i := LeadingSpaces(s);
    var t := s[i..];
    var n := TrailingStart(t);
    var j := i + n;
    assert Strip(s) == s[i..j];
    assert IsBlank(s[..i]) by {
      forall k | 0 <= k < i ensures IsSpace(s[..i][k]) { assert s[..i][k] == s[k]; }
    }
    assert IsBlank(s[j..]) by {
      forall k | 0 <= k < |s| - j ensures IsSpace(s[j..][k]) { assert s[j..][k] == t[n + k]; }
    }
  }

  /** Every character Strip keeps comes from its argument. */
  lemma StripCharacters(s: string, c: char)
    requires c in Strip(s)
    ensures c in s
  {
    StripInfix(s);
  }

  /** Stripping twice is stripping once. */
  lemma StripIdempotent(s: string)
    ensures Strip(Strip(s)) == Strip(s)
  {
    var r := Strip(s);
    if r != [] {
      assert LeadingSpaces(r) == 0;
      assert r[0..] == r;
      assert TrailingStart(r) == |r|;
    }
  }

  /** LeadingSpaces is the one position with only white space before it and
      none at it. */
  lemma LeadingSpacesAt(s: string, n: nat)
    requires n <= |s| && (forall k :: 0 <= k < n ==> IsSpace(s[k]))
    requires n < |s| ==> !IsSpace(s[n])
    ensures LeadingSpaces(s) == n
  {
  }

  /** TrailingStart is the one position with only white space after it and none
      just before it. */
  lemma TrailingStartAt(s: string, n: nat)
    requires n <= |s| && (forall k :: n <= k < |s| ==> IsSpace(s[k]))
    requires n > 0 ==> !IsSpace(s[n - 1])
    ensures TrailingStart(s) == n
  {
  }

  /** White space appended to a line does not survive strip(). */
  lemma StripTrailingBlank(s: string, w: string)
    requires IsBlank(w)
    ensures Strip(s + w) == Strip(s)
  {
    var sw := s + w;
    var i := LeadingSpaces(s);
    if i == |s| {
      assert IsBlank(sw) by {
        forall k | 0 <= k < |sw| ensures IsSpace(sw[k]) {
          if k >= |s| { assert sw[k] == w[k - |s|]; }
        }
      }
    } else {
      LeadingSpacesAt(sw, i);
      var t := s[i..];
      assert sw[i..] == t + w;
      var n := TrailingStart(t);
      assert n > 0 by { assert !IsSpace(t[0]); }
      TrailingStartAt(t + w, n);
      assert (t + w)[..n] == t[..n];
    }
  }

  /** The number of occurrences of c in s. */
  function Count(s: string, c: char): nat
  {
    if s == [] then 0 else (if s[0] == c then 1 else 0) + Count(s[1..], c)
  }

  lemma {:induction false} CountConcat(a: string, b: string, c: char)
    ensures Count(a + b, c) == Count(a, c) + Count(b, c)
  {
    if a == [] {
      assert a + b == b;
    } else {
      assert (a + b)[0] == a[0] && (a + b)[1..] == a[1..] + b;
      CountConcat(a[1..], b, c);
    }
  }

  lemma {:induction false} CountAbsent(s: string, c: char)
    requires c !in s
    ensures Count(s, c) == 0
  {
    if s != [] {
      assert c !in s[1..];
      CountAbsent(s[1..], c);
    }
  }

  /** The position of the first occurrence of d in s. */
  function IndexOf(s: string, d: char): (i: nat)
    requires d in s
    ensures i < |s| && s[i] == d && d !in s[..i]
  {
    if s[0] == d then 0
    else
      assert d in s[1..] && s == [s[0]] + s[1..];
      var j := IndexOf(s[1..], d);
      assert s[..j + 1] == [s[0]] + s[1..][..j];
      j + 1
  }

  /** The first separator is the one with no separator before it. */
  lemma IndexOfAt(s: string, d: char, i: nat)
    requires i < |s| && s[i] == d && d !in s[..i]
    ensures IndexOf(s, d) == i
  {
  }

  /** s.split(d) for a one-character separator d: the text before the first
      separator, then the split of what follows it; a string without the
      separator is a single piece. */
  function Split(s: string, d: char): (r: seq<string>)
    ensures |r| >= 1
    decreases |s|
  {
    if d !in s then [s]
    else
      var i := IndexOf(s, d);
      [s[..i]] + Split(s[i + 1..], d)
  }

  /** No piece of a split holds the separator. */
  lemma {:induction false} SplitPieces(s: string, d: char)
    ensures forall k :: 0 <= k < |Split(s, d)| ==> d !in Split(s, d)[k]
    decreases |s|
  {
    if d in s {
      SplitPieces(s[IndexOf(s, d) + 1..], d);
    }
  }

  /** The first piece of a split is a prefix of the string. */
  lemma SplitFirstPrefix(s: string, d: char)
    ensures Split(s, d)[0] <= s
  {
  }

  /** A split has one more piece than the string has separators. */
  lemma {:induction false} SplitCount(s: string, d: char)
    ensures |Split(s, d)| == Count(s, d) + 1
    decreases |s|
  {
    if d !in s {
      CountAbsent(s, d);
    } else {
      var i := IndexOf(s, d);
      assert s == s[..i] + ([d] + s[i + 1..]);
      CountConcat(s[..i], [d] + s[i + 1..], d);
      CountConcat([d], s[i + 1..], d);
      CountAbsent(s[..i], d);
      assert Count([d], d) == 1;
      SplitCount(s[i + 1..], d);
    }
  }

  /** sep.join(parts). */
  function JoinWith(sep: string, parts: seq<string>): string
  {
    if |parts| == 0 then ""
    else if |parts| == 1 then parts[0]
    else parts[0] + sep + JoinWith(sep, parts[1..])
  }

  /** Joining the pieces of a split with the same separator gives back the string. */
  lemma {:induction false} JoinSplit(s: string, d: char)
    ensures JoinWith([d], Split(s, d)) == s
    decreases |s|
  {
    if d in s {
      var i := IndexOf(s, d);
      var rest := Split(s[i + 1..], d);
      JoinSplit(s[i + 1..], d);
      assert ([s[..i]] + rest)[1..] == rest;
      assert s == s[..i] + [d] + s[i + 1..];
    }
  }

  /** A string without the separator is a single piece. */
  lemma SplitNoDelimiter(s: string, d: char)
    requires d !in s
    ensures Split(s, d) == [s]
  {
  }

  /** A separator between two strings separates their pieces. */
  lemma {:induction false} SplitAtDelimiter(a: string, b: string, d: char)
    ensures Split(a + [d] + b, d) == Split(a, d) + Split(b, d)
    decreases |a|
  {
    var s := a + [d] + b;
    assert s[|a|] == d;
    if d !in a {
      assert s[..|a|] == a;
      IndexOfAt(s, d, |a|);
      assert s[|a| + 1..] == b;
      assert Split(s, d) == [a] + Split(b, d);
    } else {
      var i := IndexOf(a, d);
      assert s[..i] == a[..i];
      IndexOfAt(s, d, i);
      var rest := a[i + 1..];
      assert s[i + 1..] == rest + [d] + b;
      assert Split(s, d) == [a[..i]] + Split(rest + [d] + b, d);
      SplitAtDelimiter(rest, b, d);
      assert Split(a, d) == [a[..i]] + Split(rest, d);
    }
  }

  /** Appending text without the separator extends the last piece. */
  lemma {:induction false} SplitExtendLast(a: string, b: string, d: char)
    requires d !in b
    ensures var p := Split(a, d);
      Split(a + b, d) == p[..|p| - 1] + [p[|p| - 1] + b]
    decreases |a|
  {
    var s := a + b;
    if d !in a {
      assert d !in s;
    } else {
      var i := IndexOf(a, d);
      assert s[..i] == a[..i];
      IndexOfAt(s, d, i);
      assert s[i + 1..] == a[i + 1..] + b;
      SplitExtendLast(a[i + 1..], b, d);
      var q := Split(a[i + 1..], d);
      var p := [a[..i]] + q;
      assert p[..|p| - 1] == [a[..i]] + q[..|q| - 1];
    }
  }

  /** The parts, each followed by the separator d: the text of lines that each
      end in a newline, or of statements that each end in a semicolon. */
  function Terminated(parts: seq<string>, d: char): string
  {
    if parts == [] then "" else Terminated(parts[..|parts| - 1], d) + parts[|parts| - 1] + [d]
  }

  /** Splitting terminated text gives back the parts and one empty piece after the
      last separator. */
  lemma {:induction false} SplitTerminated(parts: seq<string>, d: char)
    requires forall k :: 0 <= k < |parts| ==> d !in parts[k]
    ensures Split(Terminated(parts, d), d) == parts + [""]
  {
    if parts != [] {
      var n := |parts|;
      var init, last := parts[..n - 1], parts[n - 1];
      var t := Terminated(init, d);
      calc {
        Split(Terminated(parts, d), d);
        { assert Terminated(parts, d) == (t + last) + [d] + ""; }
        Split((t + last) + [d] + "", d);
        { SplitAtDelimiter(t + last, "", d); }
        Split(t + last, d) + [""];
        { assert d !in last;
          SplitTerminated(init, d);
          SplitExtendLast(t, last, d);
          var p := init + [""];
          assert p[..|p| - 1] == init && p[|p| - 1] + last == last; }
        init + [last] + [""];
        { assert init + [last] == parts; }
        parts + [""];
      }
    }
  }

  /** Parsing a join back: when no part holds the separator, splitting their join
      recovers the parts. */
  lemma {:induction false} SplitJoin(parts: seq<string>, d: char)
    requires |parts| >= 1
    requires forall k :: 0 <= k < |parts| ==> d !in parts[k]
    ensures Split(JoinWith([d], parts), d) == parts
  {
    if |parts| == 1 {
      SplitNoDelimiter(parts[0], d);
    } else {
      SplitJoin(parts[1..], d);
      SplitAtDelimiter(parts[0], JoinWith([d], parts[1..]), d);
      SplitNoDelimiter(parts[0], d);
      assert parts == [parts[0]] + parts[1..];
    }
  }

  /** Every character of a piece is a character of the string that was split. */
  lemma {:induction false} SplitCharacters(s: string, d: char, k: nat, c: char)
    requires k < |Split(s, d)| && c in Split(s, d)[k]
    ensures c in s
    decreases |s|
  {
    if d in s {
      var i := IndexOf(s, d);
      if k == 0 {
        assert c in s[..i];
      } else {
        SplitCharacters(s[i + 1..], d, k - 1, c);
        assert c in s[i + 1..];
      }
    }
  }

  /** Every character of a join is a character of a part or of the separator. */
  lemma {:induction false} JoinCharacters(sep: string, parts: seq<string>, c: char)
    requires c in JoinWith(sep, parts)
    ensures c in sep || exists k :: 0 <= k < |parts| && c in parts[k]
  {
    if |parts| > 1 {
      var tail := JoinWith(sep, parts[1..]);
      if c !in parts[0] && c !in sep {
        assert c in tail;
        JoinCharacters(sep, parts[1..], c);
        var k :| 0 <= k < |parts[1..]| && c in parts[1..][k];
        assert c in parts[k + 1];
      }
    }
  }
}
