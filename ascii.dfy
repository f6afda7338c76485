/**
 * Python's character classes and string methods restricted to ASCII:
 * `str.lower()`, the regular-expression classes `\w` and `\s`,
 * `str.strip()`, `str.strip(chars)` and `str.split()` with no argument.
 */
module Ascii {
  import opened Seqs

  /** Python's whitespace below 128: tab, line feed, vertical tab, form feed,
      carriage return, the four separators 0x1C-0x1F, and space. */
  predicate IsSpace(c: char)
  {
    c == ' ' || 9 <= c as int <= 13 || 28 <= c as int <= 31
  }

  predicate IsUpper(c: char) { 'A' <= c <= 'Z' }

  predicate IsLowerLetter(c: char) { 'a' <= c <= 'z' }

  predicate IsDigit(c: char) { '0' <= c <= '9' }

  /** Letters and digits. */
  predicate IsAlnum(c: char) { IsUpper(c) || IsLowerLetter(c) || IsDigit(c) }

  /** The regular-expression class `\w`: letters, digits and underscore. */
  predicate IsWordChar(c: char) { IsAlnum(c) || c == '_' }

  predicate IsUnderscore(c: char) { c == '_' }

  /** `str.lower()` on one character. */
  function ToLower(c: char): (d: char)
    ensures !IsUpper(d)
    ensures IsAlnum(d) <==> IsAlnum(c)
    ensures IsSpace(d) <==> IsSpace(c)
    ensures c != d ==> IsUpper(c) && d as int == c as int + 32
  {
    if IsUpper(c) then (c as int + 32) as char else c
  }

  /** `str.lower()`. */
  function Lower(s: string): string
  {
    seq(|s|, i requires 0 <= i < |s| => ToLower(s[i]))
  }

  /** The string has no upper-case letter. */
  predicate IsLowerCase(s: string)
  {
    forall i :: 0 <= i < |s| ==> !IsUpper(s[i])
  }

  /** Lower-casing keeps the length, turns each letter A-Z into its lower-case letter 32
      code points on, and changes nothing else. */
  lemma LowerSpec(s: string)
    ensures |Lower(s)| == |s| && IsLowerCase(Lower(s))
    ensures forall i :: 0 <= i < |s| && !IsUpper(s[i]) ==> Lower(s)[i] == s[i]
    ensures forall i :: 0 <= i < |s| && IsUpper(s[i]) ==> Lower(s)[i] as int == s[i] as int + 32
    ensures Lower(Lower(s)) == Lower(s)
  {
  }

  /** Lower-casing works character by character. */
  lemma LowerAppend(a: string, b: string)
    ensures Lower(a + b) == Lower(a) + Lower(b)
  {
    assert |Lower(a + b)| == |Lower(a) + Lower(b)|;
    forall k | 0 <= k < |a + b| ensures Lower(a + b)[k] == (Lower(a) + Lower(b))[k] {
      if k < |a| {
        assert (a + b)[k] == a[k];
      } else {
        assert (a + b)[k] == b[k - |a|];
      }
    }
  }

  /** A run of `n` spaces: Python's `" " * n`. */
  function Spaces(n: nat): (r: string)
    ensures |r| == n && forall i :: 0 <= i < n ==> r[i] == ' '
  {
    seq(n, _ => ' ')
  }

  /** Drops the leading characters satisfying `drop`. */
  function TrimLeft(s: string, drop: char -> bool): (r: string)
    decreases |s|
    ensures |r| <= |s| && r == s[|s| - |r|..]
    ensures r == [] || !drop(r[0])
    ensures forall k :: 0 <= k < |s| - |r| ==> drop(s[k])
  {
    if s != [] && drop(s[0]) then TrimLeft(s[1..], drop) else s
  }

  /** Drops the trailing characters satisfying `drop`. */
  function TrimRight(s: string, drop: char -> bool): (r: string)
    decreases |s|
    ensures |r| <= |s| && r == s[..|r|]
    ensures r == [] || !drop(r[|r| - 1])
    ensures forall k :: |r| <= k < |s| ==> drop(s[k])
  {
    if s != [] && drop(s[|s| - 1]) then TrimRight(s[..|s| - 1], drop) else s
  }

  /** `str.strip()`: leading and trailing whitespace removed. */
  function Strip(s: string): (r: string)
    ensures r == [] || (!IsSpace(r[0]) && !IsSpace(r[|r| - 1]))
  {
    var l := TrimLeft(s, IsSpace);
    var r := TrimRight(l, IsSpace);
    assert r != [] ==> r[0] == l[0];
    r
  }

  /** A string with no whitespace at either end is its own strip; in particular strip is idempotent. */
  lemma StripFixed(s: string)
    requires s == [] || (!IsSpace(s[0]) && !IsSpace(s[|s| - 1]))
    ensures Strip(s) == s
  {
    assert TrimLeft(s, IsSpace) == s;
    assert TrimRight(s, IsSpace) == s;
  }

  /** Where the stripped string starts within the original. */
  function StripStart(s: string): nat
  {
    |s| - |TrimLeft(s, IsSpace)|
  }

  /** The stripped string is the slice of the original that starts at `StripStart`. */
  lemma StripSlice(s: string)
    ensures StripStart(s) + |Strip(s)| <= |s|
    ensures Strip(s) == s[StripStart(s)..StripStart(s) + |Strip(s)|]
  {
    var l := TrimLeft(s, IsSpace);
    var r := TrimRight(l, IsSpace);
    var a := |s| - |l|;
    assert l == s[a..];
    assert r == l[..|r|];
    assert s[a..][..|r|] == s[a..a + |r|];
  }

  /** The stripped string is a slice of the original, with no whitespace at either end,
      and everything cut off is whitespace. */
  lemma StripSpec(s: string)
    ensures var a, r := StripStart(s), Strip(s);
      && a + |r| <= |s| && r == s[a..a + |r|]
      && (forall k :: 0 <= k < a ==> IsSpace(s[k]))
      && (forall k :: a + |r| <= k < |s| ==> IsSpace(s[k]))
      && (r == [] || (!IsSpace(r[0]) && !IsSpace(r[|r| - 1])))
  {
    StripSlice(s);
    var l := TrimLeft(s, IsSpace);
    var r := TrimRight(l, IsSpace);
    var a := |s| - |l|;
    forall k | a + |r| <= k < |s| ensures IsSpace(s[k]) {
      assert s[k] == l[k - a];
    }
    if r != [] {
      assert r[0] == l[0];
    }
  }

  /** The length of the word at the start of `s`: its longest prefix without whitespace. */
  function WordEnd(s: string): (n: nat)
    ensures n <= |s| && (n < |s| ==> IsSpace(s[n]))
    ensures forall k :: 0 <= k < n ==> !IsSpace(s[k])
  {
    if s == [] || IsSpace(s[0]) then 0 else 1 + WordEnd(s[1..])
  }

  /** A word: non-empty and free of whitespace. */
  predicate IsWord(w: string)
  {
    w != [] && forall k :: 0 <= k < |w| ==> !IsSpace(w[k])
  }

  /** `str.split()` with no argument: the maximal runs of non-whitespace characters, in order. */
  function Words(s: string): (ws: seq<string>)
    decreases |s|
    ensures forall i :: 0 <= i < |ws| ==> IsWord(ws[i])
    ensures s != [] && !IsSpace(s[0]) ==> ws != []
  {
    if s == [] then []
    else if IsSpace(s[0]) then Words(s[1..])
    else
      var n := WordEnd(s);
      [s[..n]] + Words(s[n..])
  }

  /** Leading whitespace does not change the words. */
  lemma {:induction false} WordsSkipSpaces(n: nat, s: string)
    ensures Words(Spaces(n) + s) == Words(s)
  {
    if n > 0 {
      assert (Spaces(n) + s)[1..] == Spaces(n - 1) + s;
      WordsSkipSpaces(n - 1, s);
    } else {
      assert Spaces(n) + s == s;
    }
  }

  /** Whitespace in front does not change the words. */
  lemma {:induction false} WordsAfterSpaces(p: string, s: string)
    requires forall k :: 0 <= k < |p| ==> IsSpace(p[k])
    ensures Words(p + s) == Words(s)
  {
    if p == [] {
      assert p + s == s;
    } else {
      assert (p + s)[1..] == p[1..] + s;
      WordsAfterSpaces(p[1..], s);
    }
  }

  /** Text that starts with whitespace does not lengthen the word before it. */
  lemma {:induction false} WordEndAppend(a: string, b: string)
    requires b == [] || IsSpace(b[0])
    ensures WordEnd(a + b) == WordEnd(a)
  {
    if a == [] {
      assert a + b == b;
    } else if !IsSpace(a[0]) {
      assert (a + b)[1..] == a[1..] + b;
      WordEndAppend(a[1..], b);
    }
  }

  /** A word followed by whitespace or nothing is the first of the words. */
  lemma WordsOfWordThen(w: string, rest: string)
    requires IsWord(w)
    requires rest == [] || IsSpace(rest[0])
    ensures Words(w + rest) == [w] + Words(rest)
  {
    var s := w + rest;
    WordEndOfWord(w, rest);
    assert s[..|w|] == w && s[|w|..] == rest;
  }

  /** The step of `WordsAppend` for a string that starts with whitespace. */
  lemma WordsAppendSpace(c: char, x: string, b: string)
    requires IsSpace(c)
    requires Words(x + b) == Words(x) + Words(b)
    ensures Words([c] + (x + b)) == Words([c] + x) + Words(b)
  {
    assert ([c] + (x + b))[1..] == x + b;
    assert ([c] + x)[1..] == x;
  }

  /** Two strings that each start with whitespace (or are empty) concatenate to one that does. */
  lemma SpaceHeadAppend(x: string, y: string)
    requires x == [] || IsSpace(x[0])
    requires y == [] || IsSpace(y[0])
    ensures x + y == [] || IsSpace((x + y)[0])
  {
    if x == [] {
      assert x + y == y;
    }
  }

  /** The step of `WordsAppend` for a string that starts with a word. */
  lemma WordsAppendWord(w: string, rest: string, b: string)
    requires IsWord(w) && (rest == [] || IsSpace(rest[0])) && (b == [] || IsSpace(b[0]))
    requires Words(rest + b) == Words(rest) + Words(b)
    ensures Words(w + (rest + b)) == Words(w + rest) + Words(b)
  {
    SpaceHeadAppend(rest, b);
    WordsOfWordThen(w, rest + b);
    WordsOfWordThen(w, rest);
    ConsAssoc(w, Words(rest), Words(b));
  }

  /** Cutting a string just before whitespace cuts its words in two. */
  lemma {:induction false} WordsAppend(a: string, b: string)
    requires b == [] || IsSpace(b[0])
    ensures Words(a + b) == Words(a) + Words(b)
    decreases |a|
  {
    if a == [] {
      assert a + b == b;
    } else if IsSpace(a[0]) {
      WordsAppend(a[1..], b);
      AppendAt(a, 1, b);
      assert a[..1] == [a[0]];
      WordsAppendSpace(a[0], a[1..], b);
    } else {
      var n := WordEnd(a);
      WordsAppend(a[n..], b);
      AppendAt(a, n, b);
      WordsAppendWord(a[..n], a[n..], b);
    }
  }

  /** Whitespace around a string does not change its words. */
  lemma WordsAround(pre: string, r: string, post: string)
    requires forall k :: 0 <= k < |pre| ==> IsSpace(pre[k])
    requires forall k :: 0 <= k < |post| ==> IsSpace(post[k])
    ensures Words(pre + r + post) == Words(r)
  {
    assert pre + r + post == pre + (r + post);
    WordsAfterSpaces(pre, r + post);
    WordsAppend(r, post);
    assert post + [] == post;
    WordsAfterSpaces(post, []);
  }

  /** Stripping whitespace does not change the words; in particular a blank string has none. */
  lemma WordsOfStrip(s: string)
    ensures Words(Strip(s)) == Words(s)
  {
    StripSpec(s);
    var a, r := StripStart(s), Strip(s);
    var post := s[a + |r|..];
    forall k | 0 <= k < |post| ensures IsSpace(post[k]) {
      assert post[k] == s[a + |r| + k];
    }
    SliceAround(s, a, a + |r|);
    WordsAround(s[..a], r, s[a + |r|..]);
  }

  /** The word at the start of `w + rest` is `w` when `rest` is empty or starts with whitespace. */
  lemma {:induction false} WordEndOfWord(w: string, rest: string)
    requires IsWord(w)
    requires rest == [] || IsSpace(rest[0])
    ensures WordEnd(w + rest) == |w|
    decreases |w|
  {
    var s := w + rest;
    if |w| > 1 {
      assert s[1..] == w[1..] + rest;
      WordEndOfWord(w[1..], rest);
    } else {
      assert s[1..] == rest;
    }
  }

  /** Round trip: splitting words joined by single spaces gives the words back. */
  lemma {:induction false} WordsOfJoin(ws: seq<string>)
    requires forall i :: 0 <= i < |ws| ==> IsWord(ws[i])
    ensures Words(Join(ws, " ")) == ws
  {
    if |ws| == 1 {
      WordEndOfWord(ws[0], []);
      assert ws[0] + [] == ws[0];
      assert ws[0][..|ws[0]|] == ws[0];
    } else if |ws| > 1 {
      var rest := " " + Join(ws[1..], " ");
      var s := ws[0] + rest;
      assert Join(ws, " ") == s;
      WordEndOfWord(ws[0], rest);
      assert s[..|ws[0]|] == ws[0];
      assert s[|ws[0]|..] == rest;
      assert rest[1..] == Join(ws[1..], " ");
      WordsOfJoin(ws[1..]);
      assert ws == [ws[0]] + ws[1..];
    }
  }

  /** The length of words joined by single spaces: their lengths plus one per gap. */
  lemma {:induction false} JoinSpaceSnoc(ws: seq<string>, w: string)
    requires ws != []
    ensures |Join(ws + [w], " ")| == |Join(ws, " ")| + 1 + |w|
  {
    JoinSnoc(ws, w, " ");
  }
}
