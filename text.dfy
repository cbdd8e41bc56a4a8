/**
 The string operations of Python that the crawler relies on: `str.strip()`,
 `sep.join(parts)`, the substring test `pat in s` and `str.split()` with no
 argument, and the comparison `a < b` of two strings. Whitespace is
 `Chars.IsSpace` throughout, as it is in Python.
 */
module Text {
  import opened Chars
  import opened Sorting

  // ---------------------------------------------------------------------------
  // str.strip()
  // ---------------------------------------------------------------------------

  /** `s` without its leading whitespace. */
  function TrimStart(s: string): (r: string)
    ensures |r| <= |s| && r == s[|s| - |r|..]
    ensures r == [] || !IsSpace(r[0])
    ensures forall i :: 0 <= i < |s| - |r| ==> IsSpace(s[i])
  {
    if s != [] && IsSpace(s[0]) then TrimStart(s[1..]) else s
  }

  /** `s` without its trailing whitespace. */
  function TrimEnd(s: string): (r: string)
    ensures |r| <= |s| && r == s[..|r|]
    ensures r == [] || !IsSpace(r[|r| - 1])
    ensures forall i :: |r| <= i < |s| ==> IsSpace(s[i])
  {
    if s != [] && IsSpace(s[|s| - 1]) then TrimEnd(s[..|s| - 1]) else s
  }

  /**
   `str.strip()`: the slice of `s` left after removing whitespace at both ends.
   Everything removed is whitespace and the result neither starts nor ends with it.
   */
  function Strip(s: string): (r: string)
    ensures r == [] || (!IsSpace(r[0]) && !IsSpace(r[|r| - 1]))
    ensures var i := |s| - |TrimStart(s)|;
      && i + |r| <= |s|
      && r == s[i..i + |r|]
      && (forall k :: 0 <= k < i ==> IsSpace(s[k]))
      && (forall k :: i + |r| <= k < |s| ==> IsSpace(s[k]))
  {
    TrimEnd(TrimStart(s))
  }

  /** Text without surrounding whitespace is left alone by `Strip`. */
  lemma StripUnpadded(s: string)
    requires s == [] || (!IsSpace(s[0]) && !IsSpace(s[|s| - 1]))
    ensures Strip(s) == s
  {
  }

  /** Stripping twice is stripping once. */
  lemma StripIdempotent(s: string)
    ensures Strip(Strip(s)) == Strip(s)
  {
    StripUnpadded(Strip(s));
  }

  // ---------------------------------------------------------------------------
  // sep.join(parts)
  // ---------------------------------------------------------------------------

  /** The summed length of all parts. */
  function TotalLength(parts: seq<string>): nat
  {
    if parts == [] then 0 else TotalLength(parts[..|parts| - 1]) + |parts[|parts| - 1]|
  }

  /** `sep.join(parts)`: the parts in order with `sep` between neighbours. */
  function Join(parts: seq<string>, sep: string): (r: string)
    ensures |r| == if parts == [] then 0 else TotalLength(parts) + |sep| * (|parts| - 1)
  {
    if |parts| == 0 then ""
    else if |parts| == 1 then parts[0]
    else Join(parts[..|parts| - 1], sep) + sep + parts[|parts| - 1]
  }

  /** Where part `i` starts inside `Join(parts, sep)`. */
  function Offset(parts: seq<string>, sep: string, i: nat): nat
    requires i <= |parts|
  {
    TotalLength(parts[..i]) + |sep| * i
  }

  /**
   The content of a join: part `i` sits at `Offset(parts, sep, i)` and is
   followed by `sep` unless it is the last part. Together with the length in
   `Join`'s contract this determines every character of the joined text.
   */
  lemma {:induction false} JoinAt(parts: seq<string>, sep: string, i: nat)
    requires i < |parts|
    ensures var r, o := Join(parts, sep), Offset(parts, sep, i);
      && o + |parts[i]| <= |r|
      && r[o..o + |parts[i]|] == parts[i]
      && (i + 1 < |parts| ==> o + |parts[i]| + |sep| <= |r| && r[o + |parts[i]|..o + |parts[i]| + |sep|] == sep)
    decreases |parts|
  {
    var n := |parts|;
    var init := parts[..n - 1];
    assert parts[..i] == init[..(if i < n - 1 then i else |init|)] by {
      if i == n - 1 { assert init == init[..|init|]; }
    }
    if n == 1 {
      assert parts[..0] == [];
    } else {
      var j := Join(init, sep);
      assert Join(parts, sep) == j + sep + parts[n - 1];
      assert parts[..i + 1][..i] == parts[..i];
      if i == n - 1 {
        assert Offset(parts, sep, i) == |j| + |sep|;
      } else {
        JoinAt(init, sep, i);
        assert init[i] == parts[i];
        assert Offset(init, sep, i) == Offset(parts, sep, i);
        if i + 1 == n - 1 {
          assert parts[..i + 1] == init;
          assert Offset(parts, sep, i) + |parts[i]| == |j|;
        } else {
          assert Offset(parts, sep, i) + |parts[i]| + |sep| <= |j|;
        }
      }
    }
  }

  /** `r` holds part `i` at `Offset(parts, sep, i)`, followed by `sep` unless it is the last part. */
  predicate PartsAt(r: string, parts: seq<string>, sep: string)
  {
    forall i :: 0 <= i < |parts| ==>
      var o := Offset(parts, sep, i);
      && o + |parts[i]| <= |r| && r[o..o + |parts[i]|] == parts[i]
      && (i + 1 < |parts| ==> o + |parts[i]| + |sep| <= |r| && r[o + |parts[i]|..o + |parts[i]| + |sep|] == sep)
  }

  /** The whole layout of a join: every part at its offset, with `sep` between consecutive parts. */
  lemma JoinLayout(parts: seq<string>, sep: string)
    ensures PartsAt(Join(parts, sep), parts, sep)
  {
    forall i | 0 <= i < |parts|
      ensures var r, o := Join(parts, sep), Offset(parts, sep, i);
        && o + |parts[i]| <= |r| && r[o..o + |parts[i]|] == parts[i]
        && (i + 1 < |parts| ==> o + |parts[i]| + |sep| <= |r| && r[o + |parts[i]|..o + |parts[i]| + |sep|] == sep)
    {
      JoinAt(parts, sep, i);
    }
  }

  // ---------------------------------------------------------------------------
  // pat in s
  // ---------------------------------------------------------------------------

  /** Python's substring test `pat in s`. */
  predicate Contains(s: string, pat: string)
  {
    exists i :: 0 <= i <= |s| && pat <= s[i..]
  }

  // ---------------------------------------------------------------------------
  // str.split()
  // ---------------------------------------------------------------------------

  /** The longest prefix of `s` that holds no whitespace. */
  function LeadingWord(s: string): (w: string)
    ensures w <= s
    ensures forall i :: 0 <= i < |w| ==> !IsSpace(w[i])
    ensures |w| < |s| ==> IsSpace(s[|w|])
    ensures s != [] && !IsSpace(s[0]) ==> |w| > 0
  {
    if s == [] || IsSpace(s[0]) then [] else [s[0]] + LeadingWord(s[1..])
  }

  /**
   `str.split()` with no separator: the maximal runs of non-whitespace, in
   order. No token is empty, and every character of a token is a
   non-whitespace character of `s`.
   */
  function Split(s: string): (ws: seq<string>)
    ensures forall t :: 0 <= t < |ws| ==> |ws[t]| > 0
    ensures forall t, k :: 0 <= t < |ws| && 0 <= k < |ws[t]| ==> !IsSpace(ws[t][k]) && ws[t][k] in s
    decreases |s|
  {
    if s == [] then []
    else if IsSpace(s[0]) then
      var ws := Split(s[1..]);
      assert forall t, k :: 0 <= t < |ws| && 0 <= k < |ws[t]| ==> ws[t][k] in s by {
        forall t, k | 0 <= t < |ws| && 0 <= k < |ws[t]| ensures ws[t][k] in s {
          var c := ws[t][k];
          var m :| 0 <= m < |s[1..]| && s[1..][m] == c;
          assert s[m + 1] == c;
        }
      }
      ws
    else
      var w := LeadingWord(s);
      var rest := Split(s[|w|..]);
      assert forall t, k :: 0 <= t < |rest| && 0 <= k < |rest[t]| ==> rest[t][k] in s by {
        forall t, k | 0 <= t < |rest| && 0 <= k < |rest[t]| ensures rest[t][k] in s {
          var c := rest[t][k];
          var m :| 0 <= m < |s[|w|..]| && s[|w|..][m] == c;
          assert s[m + |w|] == c;
        }
      }
      assert forall k :: 0 <= k < |w| ==> w[k] == s[k];
      [w] + rest
  }

  /** A word followed by whitespace ends where the word ends. */
  lemma {:induction false} LeadingWordBeforeSpace(a: string, c: char, b: string)
    requires IsSpace(c)
    ensures LeadingWord(a + [c] + b) == LeadingWord(a)
    decreases |a|
  {
    if a == [] {
      assert (a + [c] + b)[0] == c;
    } else if IsSpace(a[0]) {
      assert (a + [c] + b)[0] == a[0];
    } else {
      LeadingWordBeforeSpace(a[1..], c, b);
      assert (a + [c] + b)[1..] == a[1..] + [c] + b;
    }
  }

  /** Splitting at a whitespace character splits the two sides independently. */
  lemma {:induction false} SplitAtSpace(a: string, c: char, b: string)
    requires IsSpace(c)
    ensures Split(a + [c] + b) == Split(a) + Split(b)
    decreases |a|
  {
    var s := a + [c] + b;
    if a == [] {
      assert s[1..] == b;
    } else if IsSpace(a[0]) {
      assert s[1..] == a[1..] + [c] + b;
      SplitAtSpace(a[1..], c, b);
    } else {
      LeadingWordBeforeSpace(a, c, b);
      var w := LeadingWord(a);
      assert s[0] == a[0];
      assert s[|w|..] == a[|w|..] + [c] + b;
      SplitAtSpace(a[|w|..], c, b);
    }
  }

  /** A non-empty run without whitespace is a single token. */
  lemma {:induction false} SplitWord(w: string)
    requires |w| > 0 && forall i :: 0 <= i < |w| ==> !IsSpace(w[i])
    ensures Split(w) == [w]
  {
    LeadingWordWhole(w);
    assert w[|w|..] == [];
  }

  /** A run without whitespace is its own leading word. */
  lemma {:induction false} LeadingWordWhole(w: string)
    requires forall i :: 0 <= i < |w| ==> !IsSpace(w[i])
    ensures LeadingWord(w) == w
    decreases |w|
  {
    if w != [] {
      LeadingWordWhole(w[1..]);
    }
  }

  /**
   Round trip: joining non-empty whitespace-free tokens with a single space and
   splitting the result gives the tokens back.
   */
  lemma {:induction false} SplitJoin(ws: seq<string>)
    requires forall t :: 0 <= t < |ws| ==> |ws[t]| > 0
    requires forall t, k :: 0 <= t < |ws| && 0 <= k < |ws[t]| ==> !IsSpace(ws[t][k])
    ensures Split(Join(ws, " ")) == ws
    decreases |ws|
  {
    var n := |ws|;
    if n == 0 {
    } else if n == 1 {
      SplitWord(ws[0]);
    } else {
      var init, last := ws[..n - 1], ws[n - 1];
      assert forall t :: 0 <= t < |init| ==> init[t] == ws[t];
      SplitJoin(init);
      SplitJoinStep(init, last);
      assert ws == init + [last];
    }
  }

  /** One more token after a non-empty joined prefix splits off on its own. */
  lemma SplitJoinStep(init: seq<string>, last: string)
    requires init != [] && Split(Join(init, " ")) == init
    requires |last| > 0 && forall k :: 0 <= k < |last| ==> !IsSpace(last[k])
    ensures Split(Join(init + [last], " ")) == init + [last]
  {
    SplitWord(last);
    assert (init + [last])[..|init|] == init;
    assert Join(init + [last], " ") == Join(init, " ") + [' '] + last;
    SplitAtSpace(Join(init, " "), ' ', last);
  }

  // ---------------------------------------------------------------------------
  // a < b on strings
  // ---------------------------------------------------------------------------

  /** Python's `a < b` on strings: code points compared left to right, a proper prefix first. */
  function StringLess(a: string, b: string): bool
    decreases |a|
  {
    if a == [] then b != []
    else b != [] && (a[0] < b[0] || (a[0] == b[0] && StringLess(a[1..], b[1..])))
  }

  lemma {:induction false} StringLessIrreflexive(a: string)
    ensures !StringLess(a, a)
    decreases |a|
  {
    if a != [] {
      StringLessIrreflexive(a[1..]);
    }
  }

  lemma {:induction false} StringLessTransitive(a: string, b: string, c: string)
    requires StringLess(a, b) && StringLess(b, c)
    ensures StringLess(a, c)
    decreases |a|
  {
    if a != [] && a[0] == b[0] && b[0] == c[0] {
      StringLessTransitive(a[1..], b[1..], c[1..]);
    }
  }

  lemma {:induction false} StringLessTotal(a: string, b: string)
    requires a != b
    ensures StringLess(a, b) || StringLess(b, a)
    decreases |a|
  {
    if a != [] && b != [] && a[0] == b[0] {
      assert a[1..] != b[1..];
      StringLessTotal(a[1..], b[1..]);
    }
  }

  /** Between strings of equal length, one more character each compares the prefixes first. */
  lemma {:induction false} StringLessAppend(x: string, y: string, c: char, d: char)
    requires |x| == |y|
    ensures StringLess(x + [c], y + [d]) <==> StringLess(x, y) || (x == y && c < d)
    decreases |x|
  {
    if x != [] {
      assert (x + [c])[1..] == x[1..] + [c];
      assert (y + [d])[1..] == y[1..] + [d];
      StringLessAppend(x[1..], y[1..], c, d);
      assert x == y <==> x[0] == y[0] && x[1..] == y[1..] by {
        if x[0] == y[0] && x[1..] == y[1..] {
          assert x == [x[0]] + x[1..] && y == [y[0]] + y[1..];
        }
      }
    }
  }

  /** String comparison is a strict total order, so `sorted` on distinct strings is well defined. */
  lemma StringLessOrder()
    ensures StrictTotalOrder(StringLess)
  {
    forall a: string
      ensures !StringLess(a, a)
    {
      StringLessIrreflexive(a);
    }
    forall a: string, b: string, c: string | StringLess(a, b) && StringLess(b, c)
      ensures StringLess(a, c)
    {
      StringLessTransitive(a, b, c);
    }
    forall a: string, b: string | a != b
      ensures StringLess(a, b) || StringLess(b, a)
    {
      StringLessTotal(a, b);
    }
  }

}
