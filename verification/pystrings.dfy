/** The few Python `str` operations the script relies on, with Python's
    exact behaviour: `split` with an explicit one-character separator (which
    does not merge runs of separators), `join`, and argument-less `strip`.
 */
module PyStrings {

  /** The characters for which Python's `str.isspace()` holds; `strip()`
      without an argument removes exactly these from both ends. */
  predicate IsSpace(c: char) {
    || ('\t' <= c <= '\r')
    || ('\U{1C}' <= c <= '\U{1F}')
    || c == ' '
    || c == '\U{85}'
    || c == '\U{A0}'
    || c == '\U{1680}'
    || ('\U{2000}' <= c <= '\U{200A}')
    || c == '\U{2028}'
    || c == '\U{2029}'
    || c == '\U{202F}'
    || c == '\U{205F}'
    || c == '\U{3000}'
  }

  /** `sep.join(parts)`. */
  function Join(parts: seq<string>, sep: char): string
    requires |parts| > 0
  {
    if |parts| == 1 then parts[0] else parts[0] + [sep] + Join(parts[1..], sep)
  }

  /** `s.split(sep)`: cut at every occurrence of `sep`, so an empty string
      gives `[""]` and two adjacent separators give an empty piece. */
  function Split(s: string, sep: char): (parts: seq<string>)
    ensures |parts| > 0
    ensures forall i :: 0 <= i < |parts| ==> sep !in parts[i]
    ensures Join(parts, sep) == s
    ensures |parts| == 1 <==> sep !in s
    ensures parts[0] <= s
  {
    if |s| == 0 then [""]
    else
      var rest := Split(s[1..], sep);
      assert s == [s[0]] + s[1..];
      if s[0] == sep then
        SplitsAfterSeparator(s[1..], sep, rest);
        [""] + rest
      else
        SplitsAfterChar(s[0], s[1..], sep, rest);
        [[s[0]] + rest[0]] + rest[1..]
  }

  /** The pieces of `t` preceded by an empty piece are the pieces of `sep` + `t`. */
  lemma SplitsAfterSeparator(t: string, sep: char, rest: seq<string>)
    requires |rest| > 0 && (forall i :: 0 <= i < |rest| ==> sep !in rest[i])
    requires Join(rest, sep) == t
    ensures var parts := [""] + rest;
            && (forall i :: 0 <= i < |parts| ==> sep !in parts[i])
            && Join(parts, sep) == [sep] + t
            && |parts| != 1 && sep in [sep] + t
  {
    var parts := [""] + rest;
    assert parts[1..] == rest;
    assert ([sep] + t)[0] == sep;
  }

  /** Putting a non-separator in front of `t` extends the first piece of `t`. */
  lemma SplitsAfterChar(c: char, t: string, sep: char, rest: seq<string>)
    requires c != sep
    requires |rest| > 0 && (forall i :: 0 <= i < |rest| ==> sep !in rest[i])
    requires Join(rest, sep) == t && (|rest| == 1 <==> sep !in t) && rest[0] <= t
    ensures var parts := [[c] + rest[0]] + rest[1..];
            && (forall i :: 0 <= i < |parts| ==> sep !in parts[i])
            && Join(parts, sep) == [c] + t
            && (|parts| == 1 <==> sep !in [c] + t)
            && parts[0] <= [c] + t
  {
    var parts := [[c] + rest[0]] + rest[1..];
    assert parts[1..] == rest[1..];
    assert Join(parts, sep) == [c] + Join(rest, sep);
    assert sep in [c] + t <==> sep in t;
  }

  /** Splitting undoes joining when no piece contains the separator: the
      other half of the round trip `Join(Split(s, sep), sep) == s`. */
  lemma {:induction false} SplitJoin(parts: seq<string>, sep: char)
    requires |parts| > 0
    requires forall i :: 0 <= i < |parts| ==> sep !in parts[i]
    ensures Split(Join(parts, sep), sep) == parts
    decreases |parts|
  {
    if |parts| == 1 {
      SplitNoSeparator(parts[0], sep);
    } else {
      SplitJoin(parts[1..], sep);
      SplitAfterFirst(parts[0], Join(parts[1..], sep), sep);
      assert parts == [parts[0]] + parts[1..];
    }
  }

  /** A string without the separator is a single piece. */
  lemma SplitNoSeparator(s: string, sep: char)
    requires sep !in s
    ensures Split(s, sep) == [s]
  {
  }

  /** The text before the first separator is the first piece; the rest is
      split independently. */
  lemma {:induction false} SplitAfterFirst(a: string, rest: string, sep: char)
    requires sep !in a
    ensures Split(a + [sep] + rest, sep) == [a] + Split(rest, sep)
    decreases |a|
  {
    var s := a + [sep] + rest;
    if |a| == 0 {
      assert s == [sep] + rest;
      assert s[1..] == rest;
      assert Split(s, sep) == [""] + Split(s[1..], sep);
    } else {
      assert s[1..] == a[1..] + [sep] + rest;
      SplitAfterFirst(a[1..], rest, sep);
      var r := Split(s[1..], sep);
      assert r == [a[1..]] + Split(rest, sep);
      assert s[0] == a[0] && a[0] != sep;
      assert Split(s, sep) == [[s[0]] + r[0]] + r[1..];
      assert [s[0]] + r[0] == a;
      assert r[1..] == Split(rest, sep);
    }
  }

  /** The first piece of `a + b` extends the separator-free prefix `a` by the
      first piece of `b`. */
  lemma {:induction false} SplitHead(a: string, b: string, sep: char)
    requires sep !in a
    ensures Split(a + b, sep)[0] == a + Split(b, sep)[0]
    decreases |a|
  {
    var s := a + b;
    if |a| > 0 {
      assert s[1..] == a[1..] + b;
      SplitHead(a[1..], b, sep);
      assert s[0] == a[0] && a[0] != sep;
      var r := Split(s[1..], sep);
      assert Split(s, sep)[0] == [s[0]] + r[0];
      assert a == [a[0]] + a[1..];
    } else {
      assert s == b;
    }
  }

  /** A string that is empty or starts with the separator has an empty first piece. */
  lemma SplitHeadEmpty(s: string, sep: char)
    requires s == [] || s[0] == sep
    ensures Split(s, sep)[0] == ""
  {
  }

  /** `s.split(sep)[-1]`. */
  function LastPiece(s: string, sep: char): (r: string)
    ensures sep !in r
  {
    var parts := Split(s, sep);
    parts[|parts| - 1]
  }

  /** The last piece is the longest separator-free suffix of `s`: it is a
      suffix, and either it is all of `s` or a separator stands just before it. */
  lemma SplitLast(s: string, sep: char)
    ensures |LastPiece(s, sep)| <= |s|
    ensures LastPiece(s, sep) == s[|s| - |LastPiece(s, sep)|..]
    ensures |LastPiece(s, sep)| == |s| || s[|s| - |LastPiece(s, sep)| - 1] == sep
  {
    var parts := Split(s, sep);
    var q := parts[|parts| - 1];
    if |parts| > 1 {
      JoinLast(parts, sep);
      var init := Join(parts[..|parts| - 1], sep);
      assert s == init + [sep] + q;
      assert s[|s| - |q|..] == q;
    }
  }

  /** A join of two or more pieces ends with the separator and the last piece. */
  lemma {:induction false} JoinLast(parts: seq<string>, sep: char)
    requires |parts| > 1
    ensures Join(parts, sep) == Join(parts[..|parts| - 1], sep) + [sep] + parts[|parts| - 1]
    decreases |parts|
  {
    var n := |parts|;
    var init := parts[..n - 1];
    if n == 2 {
      assert parts[1..] == [parts[1]];
      assert init == [parts[0]];
    } else {
      var tail := parts[1..];
      JoinLast(tail, sep);
      assert tail[..|tail| - 1] == init[1..];
      assert tail[|tail| - 1] == parts[n - 1];
      assert init[0] == parts[0];
      var j := Join(init[1..], sep);
      assert Join(init, sep) == parts[0] + [sep] + j;
      assert Join(parts, sep) == parts[0] + [sep] + (j + [sep] + parts[n - 1]);
    }
  }

  /** The first position at or after `i` that does not hold whitespace, or
      `|s|`: where `strip()` starts its result. */
  function LeadEnd(s: string, i: nat): (n: nat)
    requires i <= |s|
    ensures i <= n <= |s|
    ensures forall k :: i <= k < n ==> IsSpace(s[k])
    ensures n == |s| || !IsSpace(s[n])
    decreases |s| - i
  {
    if i < |s| && IsSpace(s[i]) then LeadEnd(s, i + 1) else i
  }

  /** The position just after the last character of `s[lo..j]` that is not
      whitespace, or `lo`: where `rstrip()` ends its result. */
  function TrailStart(s: string, lo: nat, j: nat): (n: nat)
    requires lo <= j <= |s|
    ensures lo <= n <= j
    ensures forall k :: n <= k < j ==> IsSpace(s[k])
    ensures n == lo || !IsSpace(s[n - 1])
    decreases j
  {
    if j > lo && IsSpace(s[j - 1]) then TrailStart(s, lo, j - 1) else j
  }

  /** `s.rstrip()`. */
  function RStrip(s: string): (r: string)
    ensures r <= s
    ensures forall i :: |r| <= i < |s| ==> IsSpace(s[i])
    ensures r == [] || !IsSpace(r[|r| - 1])
  {
    s[..TrailStart(s, 0, |s|)]
  }

  /** `s.strip()`: the maximal run of whitespace is removed from each end.
      The result is a slice of `s` that is empty or has non-blank ends, with
      only whitespace before and after it, which determines it uniquely. */
  function Strip(s: string): (r: string)
    ensures r == [] || (!IsSpace(r[0]) && !IsSpace(r[|r| - 1]))
    ensures exists i, j :: 0 <= i <= j <= |s| && r == s[i..j]
                           && (forall k :: 0 <= k < i ==> IsSpace(s[k]))
                           && (forall k :: j <= k < |s| ==> IsSpace(s[k]))
  {
    var i := LeadEnd(s, 0);
    s[i..TrailStart(s, i, |s|)]
  }

  /** Stripping only removes characters. */
  lemma StripChars(s: string)
    ensures forall c :: c in Strip(s) ==> c in s
  {
    var i := LeadEnd(s, 0);
    SliceChars(s, i, TrailStart(s, i, |s|));
  }

  /** Every character of a slice occurs in the whole string. */
  lemma SliceChars(s: string, i: nat, j: nat)
    requires i <= j <= |s|
    ensures forall c :: c in s[i..j] ==> c in s
  {
    forall c | c in s[i..j] ensures c in s {
      var k :| 0 <= k < j - i && s[i..j][k] == c;
      assert s[i + k] == c;
    }
  }

  /** Stripping leaves a string alone exactly when neither end is whitespace. */
  lemma StripUnchanged(s: string)
    ensures Strip(s) == s <==> (s == [] || (!IsSpace(s[0]) && !IsSpace(s[|s| - 1])))
  {
    if s != [] && !IsSpace(s[0]) && !IsSpace(s[|s| - 1]) {
      assert LeadEnd(s, 0) == 0;
      assert TrailStart(s, 0, |s|) == |s|;
      assert s[0..|s|] == s;
    }
  }

  /** Behind a prefix whose last character is not whitespace, the trailing
      whitespace of `a + b` is that of `b`. */
  lemma {:induction false} TrailStartAppend(a: string, b: string, j: nat)
    requires |a| > 0 && !IsSpace(a[|a| - 1]) && j <= |b|
    ensures TrailStart(a + b, 0, |a| + j) == |a| + TrailStart(b, 0, j)
    decreases j
  {
    var ab := a + b;
    if j > 0 {
      assert ab[|a| + j - 1] == b[j - 1];
      if IsSpace(b[j - 1]) {
        TrailStartAppend(a, b, j - 1);
      }
    } else {
      assert ab[|a| - 1] == a[|a| - 1];
    }
  }

  /** Trailing whitespace after a non-blank prefix is removed from the tail only. */
  lemma RStripAppend(a: string, b: string)
    requires |a| > 0 && !IsSpace(a[|a| - 1])
    ensures RStrip(a + b) == a + RStrip(b)
  {
    TrailStartAppend(a, b, |b|);
    var t := TrailStart(b, 0, |b|);
    assert (a + b)[..|a| + t] == a + b[..t];
  }

  /** Stripping a string that starts with a non-blank prefix only touches its end. */
  lemma StripAppend(a: string, b: string)
    requires |a| > 0 && !IsSpace(a[0]) && !IsSpace(a[|a| - 1])
    ensures Strip(a + b) == a + RStrip(b)
  {
    assert (a + b)[0] == a[0];
    assert LeadEnd(a + b, 0) == 0;
    RStripAppend(a, b);
    assert (a + b)[0..TrailStart(a + b, 0, |a + b|)] == RStrip(a + b);
  }
}
