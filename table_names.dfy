/**
 * The table name of a generated source: the dataset title lower-cased, stripped of
 * characters other than word characters, whitespace and `-`, with each run of
 * whitespace and `-` turned into one `_`, each run of `_` collapsed to one, and
 * `_` trimmed from both ends.
 */
module TableNames {
  import opened Ascii
  import opened Seqs

  /** The characters `[\w\s-]` that survive the first substitution. */
  predicate IsKept(c: char)
  {
    IsWordChar(c) || IsSpace(c) || c == '-'
  }

  /** The class `[\s-]` whose runs become one underscore. */
  predicate IsSeparator(c: char)
  {
    IsSpace(c) || c == '-'
  }

  /** The letters and digits of `s`, in order. */
  function AlnumOf(s: string): (r: string)
  {
    if s == [] then [] else (if IsAlnum(s[0]) then [s[0]] else []) + AlnumOf(s[1..])
  }

  lemma {:induction false} AlnumOfAppend(a: string, b: string)
    ensures AlnumOf(a + b) == AlnumOf(a) + AlnumOf(b)
  {
    if a != [] {
      assert (a + b)[1..] == a[1..] + b;
      AlnumOfAppend(a[1..], b);
    } else {
      assert a + b == b;
    }
  }

  lemma {:induction false} AlnumOfNone(s: string)
    requires forall k :: 0 <= k < |s| ==> !IsAlnum(s[k])
    ensures AlnumOf(s) == []
  {
    if s != [] {
      AlnumOfNone(s[1..]);
    }
  }

  /** `s` holds `__` at index `k`. */
  predicate DoubleUnderscoreAt(s: string, k: int)
  {
    0 <= k && k + 1 < |s| && s[k] == '_' && s[k + 1] == '_'
  }

  /** `s` has no two underscores in a row. */
  predicate NoDoubleUnderscore(s: string)
  {
    forall k :: 0 <= k < |s| ==> !DoubleUnderscoreAt(s, k)
  }

  /** A character in front of a string without `__` adds none, unless it is `_` in front of `_`. */
  lemma NoDoubleUnderscoreCons(c: char, t: string)
    requires NoDoubleUnderscore(t)
    requires c == '_' ==> t == [] || t[0] != '_'
    ensures NoDoubleUnderscore([c] + t)
  {
    var r := [c] + t;
    forall k | 0 <= k < |r| ensures !DoubleUnderscoreAt(r, k) {
      if 0 < k {
        assert !DoubleUnderscoreAt(t, k - 1);
      }
    }
  }

  /** Only lower-case letters, digits and underscores. */
  predicate SnakeChars(s: string)
  {
    forall k :: 0 <= k < |s| ==> IsLowerLetter(s[k]) || IsDigit(s[k]) || s[k] == '_'
  }

  /** What the function promises of a non-empty title: only lower-case letters, digits and
      underscores, no `__`, and no underscore at either end. */
  predicate IsSnakeName(s: string)
  {
    && SnakeChars(s)
    && NoDoubleUnderscore(s)
    && (s != [] ==> s[0] != '_' && s[|s| - 1] != '_')
  }

  /** `re.sub(r'[^\w\s-]', '', s)`: every character outside `[\w\s-]` removed. */
  function RemoveDisallowed(s: string): (r: string)
    ensures forall c :: c in r ==> c in s && IsKept(c)
    ensures AlnumOf(r) == AlnumOf(s)
    ensures |s| == 1 ==> (IsKept(s[0]) ==> r == s) && (!IsKept(s[0]) ==> r == [])
  {
    if s == [] then []
    else
      var head: string := if IsKept(s[0]) then [s[0]] else [];
      AlnumOfAppend(head, RemoveDisallowed(s[1..]));
      head + RemoveDisallowed(s[1..])
  }

  /** Removal works character by character: a split of the input splits the output. Together
      with the one-character case of the contract, this says that exactly the characters of
      `[\w\s-]` are kept, in their order. */
  lemma {:induction false} RemoveDisallowedAppend(a: string, b: string)
    ensures RemoveDisallowed(a + b) == RemoveDisallowed(a) + RemoveDisallowed(b)
  {
    if a == [] {
      assert a + b == b;
    } else {
      assert (a + b)[1..] == a[1..] + b;
      RemoveDisallowedAppend(a[1..], b);
    }
  }

  /** A string made only of `[\w\s-]` passes through unchanged. */
  lemma {:induction false} RemoveDisallowedAllKept(s: string)
    requires forall k :: 0 <= k < |s| ==> IsKept(s[k])
    ensures RemoveDisallowed(s) == s
  {
    if s != [] {
      RemoveDisallowedAllKept(s[1..]);
      assert s == [s[0]] + s[1..];
    }
  }

  /** `re.sub(r'<class>+', '_', s)` for the character class `inRun`: every maximal run of
      characters of the class becomes one underscore. `afterRun` says that the character
      before `s` was part of a run, so that a run continuing into `s` is not written twice. */
  function Collapse(s: string, inRun: char -> bool, afterRun: bool): (r: string)
    ensures forall c :: c in r ==> c == '_' || (c in s && !inRun(c))
    ensures inRun('_') ==> NoDoubleUnderscore(r) && (afterRun && r != [] ==> r[0] != '_')
    ensures (forall k :: 0 <= k < |s| && inRun(s[k]) ==> !IsAlnum(s[k])) ==> AlnumOf(r) == AlnumOf(s)
  {
    if s == [] then []
    else if inRun(s[0]) then
      var rest := Collapse(s[1..], inRun, true);
      if afterRun then rest
      else
        AlnumOfAppend("_", rest);
        if inRun('_') then NoDoubleUnderscoreCons('_', rest); "_" + rest
        else "_" + rest
    else
      var rest := Collapse(s[1..], inRun, false);
      AlnumOfAppend([s[0]], rest);
      if inRun('_') then NoDoubleUnderscoreCons(s[0], rest); [s[0]] + rest
      else [s[0]] + rest
  }

  /** A run of the class that has already begun before `s` writes nothing more, and the
      text after it is collapsed as if no run came before. */
  lemma {:induction false} CollapseSkipRun(r: string, b: string, inRun: char -> bool)
    requires forall k :: 0 <= k < |r| ==> inRun(r[k])
    requires b == [] || !inRun(b[0])
    ensures Collapse(r + b, inRun, true) == Collapse(b, inRun, false)
  {
    if r == [] {
      assert r + b == b;
    } else {
      assert (r + b)[1..] == r[1..] + b;
      CollapseSkipRun(r[1..], b, inRun);
    }
  }

  /** A maximal run of the class at the front becomes exactly one underscore, followed by the
      collapse of what comes after the run. */
  lemma CollapseRun(r: string, b: string, inRun: char -> bool)
    requires r != [] && forall k :: 0 <= k < |r| ==> inRun(r[k])
    requires b == [] || !inRun(b[0])
    ensures Collapse(r + b, inRun, false) == "_" + Collapse(b, inRun, false)
  {
    var s := r + b;
    assert s[0] == r[0] && s[1..] == r[1..] + b;
    assert Collapse(s, inRun, false) == "_" + Collapse(s[1..], inRun, true);
    CollapseSkipRun(r[1..], b, inRun);
  }

  /** A character outside the class is copied, and what follows it is collapsed afresh. */
  lemma CollapseKeep(c: char, b: string, inRun: char -> bool, afterRun: bool)
    requires !inRun(c)
    ensures Collapse([c] + b, inRun, afterRun) == [c] + Collapse(b, inRun, false)
  {
    assert ([c] + b)[1..] == b;
  }

  /** `transform_title_to_snake_case`. */
  function SnakeCase(title: string): (r: string)
    ensures title == [] ==> r == "unknown_dataset"
  {
    if title == [] then "unknown_dataset"
    else
      var kept := RemoveDisallowed(Lower(title));
      var joined := Collapse(kept, IsSeparator, false);
      var single := Collapse(joined, IsUnderscore, false);
      TrimRight(TrimLeft(single, IsUnderscore), IsUnderscore)
  }

  /** Trimming underscores from the front keeps the characters allowed and adds no `__`. */
  lemma TrimLeftUnderscores(s: string)
    requires SnakeChars(s) && NoDoubleUnderscore(s)
    ensures var l := TrimLeft(s, IsUnderscore);
      SnakeChars(l) && NoDoubleUnderscore(l) && (l == [] || l[0] != '_')
  {
    var l := TrimLeft(s, IsUnderscore);
    var a := |s| - |l|;
    forall k | 0 <= k < |l| ensures l[k] == s[a + k] {
    }
    forall k | 0 <= k < |l| ensures !DoubleUnderscoreAt(l, k) {
      assert !DoubleUnderscoreAt(s, a + k);
    }
  }

  /** Trimming underscores from the back of such a string leaves a snake-case name. */
  lemma TrimRightUnderscores(l: string)
    requires SnakeChars(l) && NoDoubleUnderscore(l) && (l == [] || l[0] != '_')
    ensures IsSnakeName(TrimRight(l, IsUnderscore))
  {
    var r := TrimRight(l, IsUnderscore);
    forall k | 0 <= k < |r| ensures r[k] == l[k] {
    }
    forall k | 0 <= k < |r| ensures !DoubleUnderscoreAt(r, k) {
      assert !DoubleUnderscoreAt(l, k);
    }
  }

  /** Every table name is a snake-case name, the fallback included. */
  lemma SnakeCaseIsSnakeName(title: string)
    ensures IsSnakeName(SnakeCase(title))
  {
    if title != [] {
      var lower := Lower(title);
      LowerSpec(title);
      var kept := RemoveDisallowed(lower);
      var joined := Collapse(kept, IsSeparator, false);
      var single := Collapse(joined, IsUnderscore, false);
      forall k | 0 <= k < |single| ensures IsLowerLetter(single[k]) || IsDigit(single[k]) || single[k] == '_' {
        var c := single[k];
        if c != '_' {
          assert c in joined && c in kept && c in lower && IsKept(c) && !IsSeparator(c);
        }
      }
      TrimLeftUnderscores(single);
      TrimRightUnderscores(TrimLeft(single, IsUnderscore));
    }
  }

  /** Trimming underscores from the front keeps the letters and digits. */
  lemma AlnumOfTrimLeft(s: string)
    ensures AlnumOf(TrimLeft(s, IsUnderscore)) == AlnumOf(s)
  {
    var left := TrimLeft(s, IsUnderscore);
    var a := |s| - |left|;
    var pre := s[..a];
    forall k | 0 <= k < |pre| ensures !IsAlnum(pre[k]) {
      assert pre[k] == s[k];
    }
    AlnumOfNone(pre);
    assert s == s[..a] + s[a..];
    AlnumOfAppend(pre, left);
  }

  /** Trimming underscores from the back keeps the letters and digits. */
  lemma AlnumOfTrimRight(s: string)
    ensures AlnumOf(TrimRight(s, IsUnderscore)) == AlnumOf(s)
  {
    var r := TrimRight(s, IsUnderscore);
    var post := s[|r|..];
    forall k | 0 <= k < |post| ensures !IsAlnum(post[k]) {
      assert post[k] == s[|r| + k];
    }
    AlnumOfNone(post);
    assert s == s[..|r|] + s[|r|..];
    AlnumOfAppend(r, post);
  }

  /** Snake-casing keeps every letter and digit of the lower-cased title, in order, and adds none. */
  lemma SnakeCaseKeepsAlnum(title: string)
    requires title != []
    ensures AlnumOf(SnakeCase(title)) == AlnumOf(Lower(title))
  {
    var kept := RemoveDisallowed(Lower(title));
    var joined := Collapse(kept, IsSeparator, false);
    var single := Collapse(joined, IsUnderscore, false);
    assert forall k :: 0 <= k < |kept| && IsSeparator(kept[k]) ==> !IsAlnum(kept[k]);
    assert AlnumOf(joined) == AlnumOf(kept);
    assert forall k :: 0 <= k < |joined| && IsUnderscore(joined[k]) ==> !IsAlnum(joined[k]);
    AlnumOfTrimLeft(single);
    AlnumOfTrimRight(TrimLeft(single, IsUnderscore));
  }

  /** `s` starts with a letter or digit. */
  predicate StartsAlnum(s: string)
  {
    s != [] && IsAlnum(s[0])
  }

  /** A non-empty string of letters and digits. */
  predicate IsAlnumRun(w: string)
  {
    w != [] && forall k :: 0 <= k < |w| ==> IsAlnum(w[k])
  }

  /** The length of the letters and digits `s` starts with. */
  function AlnumEnd(s: string): (n: nat)
    ensures n <= |s| && (n < |s| ==> !IsAlnum(s[n]))
    ensures forall k :: 0 <= k < n ==> IsAlnum(s[k])
  {
    if s == [] || !IsAlnum(s[0]) then 0 else 1 + AlnumEnd(s[1..])
  }

  /** The maximal runs of letters and digits of `s`, in order: the words of the table name. */
  function AlnumRuns(s: string): (runs: seq<string>)
    ensures forall i :: 0 <= i < |runs| ==> IsAlnumRun(runs[i])
    ensures StartsAlnum(s) ==> runs != [] && runs[0] == s[..AlnumEnd(s)]
    decreases |s|
  {
    if s == [] then []
    else if !IsAlnum(s[0]) then AlnumRuns(s[1..])
    else
      var n := AlnumEnd(s);
      [s[..n]] + AlnumRuns(s[n..])
  }

  /** A letter or digit in front joins the first run, or starts a run of its own; any other
      character in front changes no run. */
  lemma ConsRuns(c: char, x: string)
    ensures !IsAlnum(c) ==> AlnumRuns([c] + x) == AlnumRuns(x)
    ensures IsAlnum(c) && StartsAlnum(x) ==>
      AlnumRuns([c] + x) == [[c] + AlnumRuns(x)[0]] + AlnumRuns(x)[1..]
    ensures IsAlnum(c) && !StartsAlnum(x) ==> AlnumRuns([c] + x) == [[c]] + AlnumRuns(x)
  {
    var s := [c] + x;
    assert s[1..] == x;
    if IsAlnum(c) {
      var n := AlnumEnd(x);
      assert AlnumEnd(s) == 1 + n;
      assert s[..1 + n] == [c] + x[..n];
      assert s[1 + n..] == x[n..];
      if StartsAlnum(x) {
        assert AlnumRuns(x) == [x[..n]] + AlnumRuns(x[n..]);
      } else {
        assert n == 0 && x[..n] == [] && x[n..] == x;
      }
    }
  }

  /** Two strings with the same runs and the same start keep the same runs behind a common
      first character. */
  lemma ConsRunsCongruent(c: char, x: string, y: string)
    requires AlnumRuns(x) == AlnumRuns(y) && StartsAlnum(x) == StartsAlnum(y)
    ensures AlnumRuns([c] + x) == AlnumRuns([c] + y)
  {
    ConsRuns(c, x);
    ConsRuns(c, y);
  }

  /** Collapsing a class of characters that holds no letter or digit keeps every run of letters
      and digits; starting afresh, it also keeps whether the text starts with one. */
  lemma {:induction false} CollapseRuns(s: string, inRun: char -> bool, afterRun: bool)
    requires forall k :: 0 <= k < |s| && inRun(s[k]) ==> !IsAlnum(s[k])
    ensures AlnumRuns(Collapse(s, inRun, afterRun)) == AlnumRuns(s)
    ensures !afterRun ==> StartsAlnum(Collapse(s, inRun, afterRun)) == StartsAlnum(s)
  {
    if s != [] {
      assert s == [s[0]] + s[1..];
      ConsRuns(s[0], s[1..]);
      if inRun(s[0]) {
        var rest := Collapse(s[1..], inRun, true);
        CollapseRuns(s[1..], inRun, true);
        ConsRuns('_', rest);
      } else {
        var rest := Collapse(s[1..], inRun, false);
        CollapseRuns(s[1..], inRun, false);
        ConsRunsCongruent(s[0], rest, s[1..]);
      }
    }
  }

  /** Characters other than letters and digits in front change no run. */
  lemma {:induction false} RunsNonAlnumPrefix(p: string, x: string)
    requires forall k :: 0 <= k < |p| ==> !IsAlnum(p[k])
    ensures AlnumRuns(p + x) == AlnumRuns(x)
  {
    if p == [] {
      assert p + x == x;
    } else {
      assert p + x == [p[0]] + (p[1..] + x);
      ConsRuns(p[0], p[1..] + x);
      RunsNonAlnumPrefix(p[1..], x);
    }
  }

  /** Characters other than letters and digits behind change no run. */
  lemma {:induction false} RunsNonAlnumSuffix(x: string, p: string)
    requires forall k :: 0 <= k < |p| ==> !IsAlnum(p[k])
    ensures AlnumRuns(x + p) == AlnumRuns(x)
    ensures StartsAlnum(x + p) == StartsAlnum(x)
  {
    if x == [] {
      assert x + p == p;
      assert p + [] == p;
      RunsNonAlnumPrefix(p, []);
    } else {
      assert x + p == [x[0]] + (x[1..] + p);
      assert x == [x[0]] + x[1..];
      RunsNonAlnumSuffix(x[1..], p);
      ConsRunsCongruent(x[0], x[1..] + p, x[1..]);
    }
  }

  /** What follows an underscore inside a snake-case name is a snake-case name that starts
      with a letter or digit. */
  lemma SnakeNameAfterUnderscore(s: string, m: nat)
    requires IsSnakeName(s) && 0 < m < |s| && s[m - 1] == '_'
    ensures IsSnakeName(s[m..]) && StartsAlnum(s[m..])
  {
    var t := s[m..];
    assert !DoubleUnderscoreAt(s, m - 1);
    forall k | 0 <= k < |t| ensures IsLowerLetter(t[k]) || IsDigit(t[k]) || t[k] == '_' {
      assert t[k] == s[m + k];
    }
    forall k | 0 <= k < |t| ensures !DoubleUnderscoreAt(t, k) {
      assert !DoubleUnderscoreAt(s, m + k);
    }
    assert t[0] == s[m];
    assert t[|t| - 1] == s[|s| - 1];
  }

  /** In a snake-case name, a run that does not reach the end is followed by one underscore
      and then by another snake-case name, which starts with a letter or digit. */
  lemma SnakeNameTail(s: string)
    requires IsSnakeName(s) && AlnumEnd(s) < |s|
    ensures var n := AlnumEnd(s);
      && n + 1 < |s| && s == s[..n] + "_" + s[n + 1..]
      && IsAlnumRun(s[..n]) && IsSnakeName(s[n + 1..]) && StartsAlnum(s[n + 1..])
  {
    var n := AlnumEnd(s);
    assert IsAlnum(s[0]);
    assert !IsAlnum(s[n]);
    assert s[n] == '_';
    assert n + 1 < |s|;
    SnakeNameAfterUnderscore(s, n + 1);
    CutAt(s, n);
  }

  /** A run, one underscore and a string that is its own runs joined by underscores make a
      string that is its own runs joined by underscores. */
  lemma JoinRunsStep(x: string, t: string)
    requires IsAlnumRun(x) && StartsAlnum(t)
    requires t == Join(AlnumRuns(t), "_")
    ensures x + "_" + t == Join(AlnumRuns(x + "_" + t), "_")
  {
    assert x + "_" + t == x + ("_" + t);
    RunThenRest(x, "_" + t);
    ConsRuns('_', t);
    JoinCons(x, AlnumRuns(t), "_");
  }

  /** A snake-case name is its runs of letters and digits joined by single underscores. */
  lemma {:induction false} SnakeNameIsJoinedRuns(s: string)
    requires IsSnakeName(s)
    ensures s == Join(AlnumRuns(s), "_")
    decreases |s|
  {
    if s != [] {
      var n := AlnumEnd(s);
      assert IsAlnum(s[0]);
      if n == |s| {
        assert s[..n] == s && s[n..] == [];
        assert AlnumRuns(s) == [s];
      } else {
        SnakeNameTail(s);
        SnakeNameIsJoinedRuns(s[n + 1..]);
        JoinRunsStep(s[..n], s[n + 1..]);
      }
    }
  }

  /** Trimming underscores from the front keeps every run of letters and digits. */
  lemma TrimLeftRuns(s: string)
    ensures AlnumRuns(TrimLeft(s, IsUnderscore)) == AlnumRuns(s)
  {
    var left := TrimLeft(s, IsUnderscore);
    var pre := s[..|s| - |left|];
    forall k | 0 <= k < |pre| ensures !IsAlnum(pre[k]) {
      assert pre[k] == s[k];
    }
    assert s == pre + left;
    RunsNonAlnumPrefix(pre, left);
  }

  /** Trimming underscores from the back keeps every run of letters and digits. */
  lemma TrimRightRuns(s: string)
    ensures AlnumRuns(TrimRight(s, IsUnderscore)) == AlnumRuns(s)
  {
    var r := TrimRight(s, IsUnderscore);
    var post := s[|r|..];
    forall k | 0 <= k < |post| ensures !IsAlnum(post[k]) {
      assert post[k] == s[|r| + k];
    }
    assert s == r + post;
    RunsNonAlnumSuffix(r, post);
  }

  /** The table name of a non-empty title is the runs of letters and digits of the lower-cased,
      filtered title joined by single underscores: each run of whitespace, `-` and `_` between
      two of them becomes one `_`, and any at either end disappears. */
  lemma SnakeCaseIsJoinedRuns(title: string)
    requires title != []
    ensures SnakeCase(title) == Join(AlnumRuns(RemoveDisallowed(Lower(title))), "_")
  {
    var kept := RemoveDisallowed(Lower(title));
    var joined := Collapse(kept, IsSeparator, false);
    var single := Collapse(joined, IsUnderscore, false);
    CollapseRuns(kept, IsSeparator, false);
    CollapseRuns(joined, IsUnderscore, false);
    TrimLeftRuns(single);
    TrimRightRuns(TrimLeft(single, IsUnderscore));
    SnakeCaseIsSnakeName(title);
    SnakeNameIsJoinedRuns(SnakeCase(title));
  }

  /** A run of letters and digits followed by anything else ends right there. */
  lemma {:induction false} AlnumEndOfRun(w: string, rest: string)
    requires forall k :: 0 <= k < |w| ==> IsAlnum(w[k])
    requires !StartsAlnum(rest)
    ensures AlnumEnd(w + rest) == |w|
  {
    if w == [] {
      assert w + rest == rest;
    } else {
      assert (w + rest)[1..] == w[1..] + rest;
      AlnumEndOfRun(w[1..], rest);
    }
  }

  /** A run at the front, ended by a character that is not a letter or digit, is the first
      run; the rest follow. */
  lemma RunThenRest(w: string, rest: string)
    requires IsAlnumRun(w) && !StartsAlnum(rest)
    ensures AlnumRuns(w + rest) == [w] + AlnumRuns(rest)
  {
    AlnumEndOfRun(w, rest);
    var s := w + rest;
    assert s[..|w|] == w && s[|w|..] == rest;
  }

  /** Words of letters and digits between single spaces have those words as their runs. */
  lemma {:induction false} RunsOfSpacedWords(ws: seq<string>)
    requires forall i :: 0 <= i < |ws| ==> IsAlnumRun(ws[i])
    ensures AlnumRuns(Join(ws, " ")) == ws
  {
    if |ws| == 1 {
      RunThenRest(ws[0], []);
      assert ws[0] + [] == ws[0];
    } else if |ws| > 1 {
      var rest := Join(ws[1..], " ");
      RunsOfSpacedWords(ws[1..]);
      ConsRuns(' ', rest);
      assert ws[0] + " " + rest == ws[0] + (" " + rest);
      RunThenRest(ws[0], " " + rest);
      assert ws == [ws[0]] + ws[1..];
    }
  }

  /** Lower-casing words between single spaces lower-cases each word. */
  lemma {:induction false} LowerSpacedWords(ws: seq<string>)
    ensures Lower(Join(ws, " ")) == Join(seq(|ws|, i requires 0 <= i < |ws| => Lower(ws[i])), " ")
  {
    var vs := seq(|ws|, i requires 0 <= i < |ws| => Lower(ws[i]));
    if |ws| > 1 {
      var rest := Join(ws[1..], " ");
      LowerSpacedWords(ws[1..]);
      LowerAppend(ws[0] + " ", rest);
      LowerAppend(ws[0], " ");
      assert Lower(" ") == " ";
      assert vs[1..] == seq(|ws[1..]|, i requires 0 <= i < |ws[1..]| => Lower(ws[1..][i]));
    }
  }

  /** Lower-casing a word of letters and digits gives a word of letters and digits. */
  lemma LowerRuns(ws: seq<string>)
    requires forall i :: 0 <= i < |ws| ==> IsAlnumRun(ws[i])
    ensures var vs := seq(|ws|, i requires 0 <= i < |ws| => Lower(ws[i]));
      forall i :: 0 <= i < |vs| ==> IsAlnumRun(vs[i])
  {
    forall i | 0 <= i < |ws| ensures IsAlnumRun(Lower(ws[i])) {
      LowerSpec(ws[i]);
    }
  }

  /** Words of letters and digits between single spaces pass the filter unchanged. */
  lemma KeptSpacedWords(vs: seq<string>)
    requires forall i :: 0 <= i < |vs| ==> IsAlnumRun(vs[i])
    ensures RemoveDisallowed(Join(vs, " ")) == Join(vs, " ")
  {
    JoinAll(vs, " ", IsKept);
    RemoveDisallowedAllKept(Join(vs, " "));
  }

  /** A title made of words of letters and digits between single spaces becomes those words,
      lower-cased, between single underscores. */
  lemma SnakeCaseOfSpacedWords(ws: seq<string>)
    requires ws != [] && forall i :: 0 <= i < |ws| ==> IsAlnumRun(ws[i])
    ensures SnakeCase(Join(ws, " ")) == Join(seq(|ws|, i requires 0 <= i < |ws| => Lower(ws[i])), "_")
  {
    var vs := seq(|ws|, i requires 0 <= i < |ws| => Lower(ws[i]));
    LowerRuns(ws);
    var title := Join(ws, " ");
    if |ws| == 1 {
      assert title == ws[0];
    } else {
      assert title == ws[0] + " " + Join(ws[1..], " ");
    }
    LowerSpacedWords(ws);
    KeptSpacedWords(vs);
    RunsOfSpacedWords(vs);
    SnakeCaseIsJoinedRuns(title);
  }
}
