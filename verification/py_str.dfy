/**
  The Python 3 `str` operations the row extractor is built from, with their
  Python semantics written out: `str.isspace`/`str.strip()`, the substring
  test `p in s`, `s.replace(p, '')`, `s.split(sep)` for a one-character
  separator, and `sep.join(pieces)`, which undoes a split and is undone by
  one when the pieces hold no separator.
 */
module PyStr {

  /** Python 3 `str.isspace()` on one character: exactly the characters that
      `str.strip()` with no argument removes. */
  predicate IsSpace(c: char) {
    var n := c as int;
    || (0x09 <= n <= 0x0D)
    || (0x1C <= n <= 0x20)
    || n == 0x85
    || n == 0xA0
    || n == 0x1680
    || (0x2000 <= n <= 0x200A)
    || n == 0x2028
    || n == 0x2029
    || n == 0x202F
    || n == 0x205F
    || n == 0x3000
  }

  predicate AllSpace(s: string) {
    forall k :: 0 <= k < |s| ==> IsSpace(s[k])
  }

  /** Neither the first nor the last character is whitespace. */
  predicate IsStripped(s: string) {
    |s| == 0 || (!IsSpace(s[0]) && !IsSpace(s[|s| - 1]))
  }

  /** The length of the whitespace run at the front of `s`: where CPython's
      `strip` starts its slice. */
  function LeadingSpace(s: string): (n: nat)
    ensures n <= |s|
    ensures forall k :: 0 <= k < n ==> IsSpace(s[k])
    ensures n == |s| || !IsSpace(s[n])
    decreases |s|
  {
    if |s| > 0 && IsSpace(s[0]) then 1 + LeadingSpace(s[1..]) else 0
  }

  /** The length of the whitespace run at the back of `s`: where CPython's
      `strip` ends its slice. */
  function TrailingSpace(s: string): (n: nat)
    ensures n <= |s|
    ensures forall k :: |s| - n <= k < |s| ==> IsSpace(s[k])
    ensures n == |s| || !IsSpace(s[|s| - 1 - n])
    decreases |s|
  {
    if |s| > 0 && IsSpace(s[|s| - 1]) then 1 + TrailingSpace(s[..|s| - 1]) else 0
  }

  /** A whitespace run of length `n` ended by a non-whitespace character (or
      the end of `s`) is the leading run. */
  lemma {:induction false} LeadingSpaceIs(s: string, n: nat)
    requires n <= |s|
    requires forall k :: 0 <= k < n ==> IsSpace(s[k])
    requires n == |s| || !IsSpace(s[n])
    ensures LeadingSpace(s) == n
    decreases n
  {
    if n > 0 {
      LeadingSpaceIs(s[1..], n - 1);
    }
  }

  /** A whitespace run of length `n` behind a non-whitespace character (or the
      start of `s`) is the trailing run. */
  lemma {:induction false} TrailingSpaceIs(s: string, n: nat)
    requires n <= |s|
    requires forall k :: |s| - n <= k < |s| ==> IsSpace(s[k])
    requires n == |s| || !IsSpace(s[|s| - 1 - n])
    ensures TrailingSpace(s) == n
    decreases n
  {
    if n > 0 {
      TrailingSpaceIs(s[..|s| - 1], n - 1);
    }
  }

  /** `r` is what remains of `s` once the whitespace run of length `lead` in
      front and the whitespace run behind `r` are cut away. */
  predicate TrimmedAt(s: string, lead: nat, r: string) {
    && lead + |r| <= |s|
    && r == s[lead..lead + |r|]
    && AllSpace(s[..lead])
    && AllSpace(s[lead + |r|..])
  }

  /** `s.strip()`: the slice between the leading and the trailing whitespace
      run, which has no whitespace at either end; `StripTrims` states which
      piece of `s` it is. */
  function Strip(s: string): (r: string)
    ensures IsStripped(r)
    ensures |r| <= |s|
  {
    var i := LeadingSpace(s);
    if i == |s| then ""
    else
      var j := |s| - TrailingSpace(s);
      assert i < j by {
        assert !IsSpace(s[i]);
      }
      s[i..j]
  }

  /** The stripped string is a contiguous piece of `s`, and everything cut
      away on either side of it is whitespace. */
  lemma StripTrims(s: string)
    ensures exists lead: nat :: TrimmedAt(s, lead, Strip(s))
  {
    var r := Strip(s);
    var lead := LeadingSpace(s);
    if lead == |s| {
      assert TrimmedAt(s, lead, r);
    } else {
      var j := |s| - TrailingSpace(s);
      assert r == s[lead..j];
      assert TrimmedAt(s, lead, r);
    }
  }

  /** Stripping is the identity exactly on stripped strings. */
  lemma StripFixed(s: string)
    ensures Strip(s) == s <==> IsStripped(s)
  {
    if IsStripped(s) && |s| > 0 {
      assert LeadingSpace(s) == 0;
      assert TrailingSpace(s) == 0;
      assert s[0..|s|] == s;
    }
  }

  /** Stripping twice is stripping once. */
  lemma StripIdempotent(s: string)
    ensures Strip(Strip(s)) == Strip(s)
  {
    StripFixed(Strip(s));
  }

  /** A string strips to the empty string exactly when it is all whitespace. */
  lemma StripEmpty(s: string)
    ensures Strip(s) == "" <==> AllSpace(s)
  {
    if AllSpace(s) {
      assert LeadingSpace(s) == |s|;
    }
  }

  /** Stripping a non-empty stripped word padded with whitespace gives the word. */
  lemma StripPadded(a: string, w: string, b: string)
    requires AllSpace(a) && AllSpace(b)
    requires |w| > 0 && IsStripped(w)
    ensures Strip(a + w + b) == w
  {
    var s := a + w + b;
    assert s[|a|] == w[0];
    assert s[|a| + |w| - 1] == w[|w| - 1];
    LeadingSpaceIs(s, |a|);
    TrailingSpaceIs(s, |b|);
    assert s[|a|..|a| + |w|] == w;
  }

  predicate StartsWith(s: string, p: string) {
    |p| <= |s| && s[..|p|] == p
  }

  /** Python's substring test `p in s`: `p` occurs somewhere in `s`
      (the empty string occurs in every string). */
  predicate Contains(s: string, p: string)
    decreases |s|
  {
    StartsWith(s, p) || (|s| > 0 && Contains(s[1..], p))
  }

  /** `p` occurs in `s` starting at index `i`. */
  predicate OccursAt(s: string, p: string, i: int) {
    0 <= i && i + |p| <= |s| && s[i..i + |p|] == p
  }

  /** The recursive `Contains` agrees with the positional definition of an occurrence. */
  lemma {:induction false} ContainsAt(s: string, p: string)
    ensures Contains(s, p) <==> exists i :: OccursAt(s, p, i)
    decreases |s|
  {
    if Contains(s, p) {
      if StartsWith(s, p) {
        assert OccursAt(s, p, 0);
      } else {
        ContainsAt(s[1..], p);
        var i :| OccursAt(s[1..], p, i);
        assert s[i + 1..i + 1 + |p|] == p;
        assert OccursAt(s, p, i + 1);
      }
    }
    if exists i :: OccursAt(s, p, i) {
      var i :| OccursAt(s, p, i);
      if i > 0 {
        assert OccursAt(s[1..], p, i - 1);
        ContainsAt(s[1..], p);
      }
    }
  }

  /** For a one-character pattern, the substring test is character membership. */
  lemma ContainsChar(s: string, c: char)
    ensures Contains(s, [c]) <==> c in s
  {
    ContainsAt(s, [c]);
    if c in s {
      var i :| 0 <= i < |s| && s[i] == c;
      assert OccursAt(s, [c], i);
    }
    if Contains(s, [c]) {
      var i :| OccursAt(s, [c], i);
      assert s[i] == s[i..i + 1][0];
    }
  }

  /** An occurrence inside a piece `s[i..j]` is an occurrence in `s`. */
  lemma ContainsInfix(s: string, i: nat, j: nat, p: string)
    requires i <= j <= |s|
    ensures Contains(s[i..j], p) ==> Contains(s, p)
  {
    if Contains(s[i..j], p) {
      ContainsAt(s[i..j], p);
      var k :| OccursAt(s[i..j], p, k);
      forall m | 0 <= m < |p|
        ensures s[i + k..i + k + |p|][m] == p[m]
      {
        assert p[m] == s[i..j][k..k + |p|][m];
      }
      assert OccursAt(s, p, i + k);
      ContainsAt(s, p);
    }
  }

  /** Stripping cannot create an occurrence of a pattern. */
  lemma {:induction false} StripContains(s: string, p: string)
    ensures Contains(Strip(s), p) ==> Contains(s, p)
  {
    var r := Strip(s);
    StripTrims(s);
    var lead: nat :| TrimmedAt(s, lead, r);
    ContainsInfix(s, lead, lead + |r|, p);
  }

  /** A string without the first character of a non-empty pattern does not contain the pattern. */
  lemma ContainsHead(s: string, p: string)
    requires |p| > 0
    ensures Contains(s, p) ==> p[0] in s
  {
    if Contains(s, p) {
      ContainsAt(s, p);
      var i :| OccursAt(s, p, i);
      assert s[i] == s[i..i + |p|][0];
    }
  }

  /** An occurrence of a longer pattern is an occurrence of each of its prefixes. */
  lemma ContainsPrefixOfPattern(s: string, p: string, q: string)
    requires StartsWith(p, q)
    ensures Contains(s, p) ==> Contains(s, q)
  {
    if Contains(s, p) {
      ContainsAt(s, p);
      var i :| OccursAt(s, p, i);
      assert s[i..i + |q|] == q;
      assert OccursAt(s, q, i);
      ContainsAt(s, q);
    }
  }

  /** `s.replace(p, '')`: every occurrence of `p` found scanning from the left,
      without overlap, is deleted. An empty `p` leaves `s` as it is. */
  function Remove(s: string, p: string): (r: string)
    ensures |r| <= |s|
    decreases |s|
  {
    if |p| == 0 || |s| == 0 then s
    else if StartsWith(s, p) then Remove(s[|p|..], p)
    else [s[0]] + Remove(s[1..], p)
  }

  /** Deleting never brings in a character that was not there. */
  lemma {:induction false} RemoveKeepsChars(s: string, p: string, c: char)
    ensures c in Remove(s, p) ==> c in s
    decreases |s|
  {
    if |p| > 0 && |s| > 0 {
      if StartsWith(s, p) {
        RemoveKeepsChars(s[|p|..], p, c);
      } else {
        RemoveKeepsChars(s[1..], p, c);
      }
    }
  }

  /** Stripping never brings in a character that was not there. */
  lemma StripKeepsChars(s: string, c: char)
    ensures c in Strip(s) ==> c in s
  {
    var r := Strip(s);
    StripTrims(s);
    var lead: nat :| TrimmedAt(s, lead, r);
    if c in r {
      var i :| 0 <= i < |r| && r[i] == c;
      assert s[lead + i] == c;
    }
  }

  /** Deleting a non-empty pattern changes the string exactly when the pattern occurs in it. */
  lemma {:induction false} RemoveUnchanged(s: string, p: string)
    requires |p| > 0
    ensures Remove(s, p) == s <==> !Contains(s, p)
    decreases |s|
  {
    if |s| == 0 {
    } else if StartsWith(s, p) {
      assert |Remove(s, p)| < |s|;
    } else {
      RemoveUnchanged(s[1..], p);
      assert s == [s[0]] + s[1..];
      if Remove(s, p) == s {
        assert Remove(s[1..], p) == s[1..];
      }
    }
  }

  /** Text that holds no first character of the pattern is kept as it is:
      the scan passes over it without deleting anything. */
  lemma {:induction false} RemovePrefixFree(w: string, q: string, p: string)
    requires |p| > 0 && p[0] !in w
    ensures Remove(w + q, p) == w + Remove(q, p)
    decreases |w|
  {
    if |w| == 0 {
      assert w + q == q;
    } else {
      var s := w + q;
      assert !StartsWith(s, p) by {
        if |p| <= |s| {
          assert s[..|p|][0] == w[0];
        }
      }
      assert s[1..] == w[1..] + q;
      RemovePrefixFree(w[1..], q, p);
      assert [w[0]] + (w[1..] + Remove(q, p)) == w + Remove(q, p);
    }
  }

  /** The first occurrence of the pattern is deleted and the text in front of
      it is kept; the scan then goes on after the occurrence. */
  lemma RemoveFirstOccurrence(w: string, q: string, p: string)
    requires |p| > 0 && p[0] !in w
    ensures Remove(w + p + q, p) == w + Remove(q, p)
  {
    var t := p + q;
    assert w + p + q == w + t;
    RemovePrefixFree(w, t, p);
    assert t[..|p|] == p;
    assert t[|p|..] == q;
  }

  /** Python `s.count(c)` for one character. */
  function CountChar(s: string, c: char): (n: nat)
    ensures n <= |s|
    ensures n == |s| <==> forall k :: 0 <= k < |s| ==> s[k] == c
    decreases |s|
  {
    if |s| == 0 then 0
    else (if s[0] == c then 1 else 0) + CountChar(s[1..], c)
  }

  /** A character that occurs is counted at least once. */
  lemma {:induction false} CountCharPositive(s: string, c: char)
    ensures c in s <==> CountChar(s, c) > 0
    decreases |s|
  {
    if |s| > 0 {
      CountCharPositive(s[1..], c);
      assert s == [s[0]] + s[1..];
    }
  }

  /** Python `s.split(sep)` for a one-character separator: always one more
      piece than there are separators, and no piece holds a separator. */
  function Split(s: string, sep: char): (r: seq<string>)
    ensures |r| == CountChar(s, sep) + 1
    ensures forall k :: 0 <= k < |r| ==> sep !in r[k]
    decreases |s|
  {
    if |s| == 0 then [""]
    else
      var rest := Split(s[1..], sep);
      if s[0] == sep then [""] + rest
      else [[s[0]] + rest[0]] + rest[1..]
  }

  /** One step of the split: a leading separator closes an empty piece, any
      other character joins the first piece of the rest. */
  lemma SplitCons(s: string, sep: char)
    requires |s| > 0
    ensures var rest := Split(s[1..], sep);
            Split(s, sep) == if s[0] == sep then [""] + rest else [[s[0]] + rest[0]] + rest[1..]
  {
  }

  /** Every character of a piece is a character of the string split. */
  lemma {:induction false} SplitKeepsChars(s: string, sep: char, k: nat, c: char)
    requires k < |Split(s, sep)|
    ensures c in Split(s, sep)[k] ==> c in s
    decreases |s|
  {
    if |s| > 0 {
      var rest := Split(s[1..], sep);
      if s[0] == sep {
        if k > 0 {
          SplitKeepsChars(s[1..], sep, k - 1, c);
        }
      } else if k == 0 {
        SplitKeepsChars(s[1..], sep, 0, c);
      } else {
        SplitKeepsChars(s[1..], sep, k, c);
      }
    }
  }

  /** Python `sep.join(pieces)`. */
  function Join(pieces: seq<string>, sep: char): string
    decreases |pieces|
  {
    if |pieces| == 0 then ""
    else if |pieces| == 1 then pieces[0]
    else pieces[0] + [sep] + Join(pieces[1..], sep)
  }

  /** Joining the pieces of a split with the same separator gives the original string back. */
  lemma {:induction false} JoinSplit(s: string, sep: char)
    ensures Join(Split(s, sep), sep) == s
    decreases |s|
  {
    if |s| > 0 {
      JoinSplit(s[1..], sep);
      if s[0] == sep {
        JoinSplitSeparator(s, sep);
      } else {
        JoinSplitLetter(s, sep);
      }
    }
  }

  /** The step of `JoinSplit` for a string that starts with the separator. */
  lemma JoinSplitSeparator(s: string, sep: char)
    requires |s| > 0 && s[0] == sep
    requires Join(Split(s[1..], sep), sep) == s[1..]
    ensures Join(Split(s, sep), sep) == s
  {
    var rest := Split(s[1..], sep);
    var pieces := [""] + rest;
    SplitCons(s, sep);
    assert pieces[1..] == rest;
    assert Join(pieces, sep) == "" + [sep] + Join(rest, sep);
  }

  /** The step of `JoinSplit` for a string that starts with another character. */
  lemma JoinSplitLetter(s: string, sep: char)
    requires |s| > 0 && s[0] != sep
    requires Join(Split(s[1..], sep), sep) == s[1..]
    ensures Join(Split(s, sep), sep) == s
  {
    var rest := Split(s[1..], sep);
    SplitCons(s, sep);
    assert [rest[0]] + rest[1..] == rest;
    JoinPrepend(s[0], rest[0], rest[1..], sep);
    assert [s[0]] + s[1..] == s;
  }

  /** A character put in front of the first piece ends up in front of the joined string. */
  lemma JoinPrepend(c: char, first: string, more: seq<string>, sep: char)
    ensures Join([[c] + first] + more, sep) == [c] + Join([first] + more, sep)
  {
    if |more| > 0 {
      var tail := [sep] + Join(more, sep);
      assert ([[c] + first] + more)[1..] == more;
      assert ([first] + more)[1..] == more;
      assert Join([first] + more, sep) == first + tail;
      assert Join([[c] + first] + more, sep) == ([c] + first) + tail;
      assert ([c] + first) + tail == [c] + (first + tail);
    }
  }

  /** Splitting a separator-free word followed by a separator peels that word off. */
  lemma {:induction false} SplitAfterWord(w: string, t: string, sep: char)
    requires sep !in w
    ensures Split(w + [sep] + t, sep) == [w] + Split(t, sep)
    decreases |w|
  {
    var s := w + [sep] + t;
    if |w| == 0 {
      assert s == [sep] + t;
      assert s[1..] == t;
    } else {
      assert s[1..] == w[1..] + [sep] + t;
      SplitAfterWord(w[1..], t, sep);
      assert [w[0]] + w[1..] == w;
    }
  }

  /** A string with no separator splits into itself alone. */
  lemma {:induction false} SplitNoSeparator(w: string, sep: char)
    requires sep !in w
    ensures Split(w, sep) == [w]
    decreases |w|
  {
    if |w| > 0 {
      SplitNoSeparator(w[1..], sep);
      assert [w[0]] + w[1..] == w;
    }
  }

  /** Splitting a join of separator-free pieces gives the pieces back. */
  lemma {:induction false} SplitJoin(pieces: seq<string>, sep: char)
    requires |pieces| > 0
    requires forall k :: 0 <= k < |pieces| ==> sep !in pieces[k]
    ensures Split(Join(pieces, sep), sep) == pieces
    decreases |pieces|
  {
    if |pieces| == 1 {
      SplitNoSeparator(pieces[0], sep);
    } else {
      SplitJoin(pieces[1..], sep);
      SplitAfterWord(pieces[0], Join(pieces[1..], sep), sep);
      assert [pieces[0]] + pieces[1..] == pieces;
    }
  }
}
