/**
  The string primitives the query parser is built on: lower-casing,
  splitting on runs of whitespace, joining with single spaces and substring
  search, each with the behaviour of the corresponding Python `str` method.
 */
module Text {

  /** The characters Python's `str.split()` (with no separator) treats as
      whitespace: tab through carriage return, the four information
      separators, space, NEL, NBSP, the other Unicode space separators, and
      the line and paragraph separators U+2028 and U+2029. */
  predicate IsSpace(c: char) {
    var n := c as int;
    || 9 <= n <= 13
    || 28 <= n <= 32
    || n == 0x85 || n == 0xA0 || n == 0x1680
    || 0x2000 <= n <= 0x200A
    || n == 0x2028 || n == 0x2029 || n == 0x202F || n == 0x205F || n == 0x3000
  }

  predicate IsUpper(c: char) {
    'A' <= c <= 'Z'
  }

  /** Lower-cases one ASCII letter; every other character is kept. */
  function LowerChar(c: char): char {
    if IsUpper(c) then (c as int + 32) as char else c
  }

  /** `str.lower()`, restricted to the ASCII letters. */
  function Lower(s: string): (r: string)
    ensures |r| == |s|
    ensures forall i :: 0 <= i < |s| ==> r[i] == LowerChar(s[i])
    ensures forall i :: 0 <= i < |r| ==> !IsUpper(r[i])
  {
    if s == [] then [] else [LowerChar(s[0])] + Lower(s[1..])
  }

  /** Lower-casing twice is lower-casing once. */
  lemma LowerIdempotent(s: string)
    ensures Lower(Lower(s)) == Lower(s)
  {
    var l := Lower(s);
    assert forall i :: 0 <= i < |l| ==> LowerChar(l[i]) == l[i];
  }

  /** A token of `str.split()`: non-empty and free of whitespace. */
  predicate IsWord(w: string) {
    |w| > 0 && forall i :: 0 <= i < |w| ==> !IsSpace(w[i])
  }

  /** Length of the longest whitespace-free prefix of `s`. */
  function WordEnd(s: string): (n: nat)
    ensures n <= |s|
    ensures forall i :: 0 <= i < n ==> !IsSpace(s[i])
    ensures n == |s| || IsSpace(s[n])
  {
    if s == [] || IsSpace(s[0]) then 0 else 1 + WordEnd(s[1..])
  }

  /** `str.split()`: the maximal whitespace-free runs of `s`, in order. */
  function Split(s: string): (ws: seq<string>)
    ensures forall i :: 0 <= i < |ws| ==> IsWord(ws[i])
    decreases |s|
  {
    if s == [] then []
    else if IsSpace(s[0]) then Split(s[1..])
    else
      var n := WordEnd(s);
      [s[..n]] + Split(s[n..])
  }

  /** `" ".join(ws)`. */
  function Join(ws: seq<string>): string {
    if |ws| == 0 then ""
    else if |ws| == 1 then ws[0]
    else ws[0] + " " + Join(ws[1..])
  }

  /** Python's `t in s` for strings: `t` occurs in `s` as a contiguous run. */
  predicate Contains(s: string, t: string)
    decreases |s|
  {
    t <= s || (|s| > 0 && Contains(s[1..], t))
  }

  /** `t` occurs in `s` starting at position `i`. */
  predicate OccursAt(s: string, t: string, i: int) {
    0 <= i && i + |t| <= |s| && s[i..i + |t|] == t
  }

  /** An occurrence of `t` in `s` makes `Contains(s, t)` hold. */
  lemma {:induction false} OccursContains(s: string, t: string, i: int)
    requires OccursAt(s, t, i)
    ensures Contains(s, t)
    decreases i
  {
    if i == 0 {
      assert s[..|t|] == t;
    } else {
      assert s[1..][i - 1..i - 1 + |t|] == s[i..i + |t|];
      OccursContains(s[1..], t, i - 1);
    }
  }

  /** `Contains(s, t)` yields a position where `t` occurs in `s`. */
  lemma {:induction false} ContainsOccurs(s: string, t: string) returns (i: int)
    requires Contains(s, t)
    ensures OccursAt(s, t, i)
    decreases |s|
  {
    if t <= s {
      i := 0;
      assert s[0..|t|] == t;
    } else {
      var j := ContainsOccurs(s[1..], t);
      i := j + 1;
      assert s[1..][j..j + |t|] == s[i..i + |t|];
    }
  }

  /** `Contains` holds exactly when `t` occurs at some position of `s`. */
  lemma ContainsIffOccurs(s: string, t: string)
    ensures Contains(s, t) <==> exists i :: OccursAt(s, t, i)
  {
    if Contains(s, t) {
      var i := ContainsOccurs(s, t);
    }
    if exists i :: OccursAt(s, t, i) {
      var i :| OccursAt(s, t, i);
      OccursContains(s, t, i);
    }
  }

  /** A word followed by nothing or by whitespace is split off whole. */
  lemma {:induction false} WordEndOfWord(w: string, rest: string)
    requires forall i :: 0 <= i < |w| ==> !IsSpace(w[i])
    requires rest == [] || IsSpace(rest[0])
    ensures WordEnd(w + rest) == |w|
    decreases |w|
  {
    if w != [] {
      assert (w + rest)[1..] == w[1..] + rest;
      WordEndOfWord(w[1..], rest);
    }
  }

  lemma SplitWord(w: string, rest: string)
    requires IsWord(w)
    requires rest == [] || IsSpace(rest[0])
    ensures Split(w + rest) == [w] + Split(rest)
  {
    WordEndOfWord(w, rest);
    var s := w + rest;
    assert s[..|w|] == w;
    assert s[|w|..] == rest;
  }

  /** Splitting undoes joining: words joined with single spaces split back
      into the same words. */
  lemma {:induction false} SplitJoin(ws: seq<string>)
    requires forall i :: 0 <= i < |ws| ==> IsWord(ws[i])
    ensures Split(Join(ws)) == ws
    decreases |ws|
  {
    if |ws| == 0 {
    } else if |ws| == 1 {
      SplitWord(ws[0], "");
      assert ws[0] + "" == ws[0];
    } else {
      var tail := Join(ws[1..]);
      assert Join(ws) == ws[0] + (" " + tail);
      SplitWord(ws[0], " " + tail);
      assert (" " + tail)[1..] == tail;
      SplitJoin(ws[1..]);
      assert ws == [ws[0]] + ws[1..];
    }
  }

  /** Every character of `s` is whitespace. */
  predicate IsBlank(s: string) {
    forall i :: 0 <= i < |s| ==> IsSpace(s[i])
  }

  /** Separators around `n` words: all blank, one more than the words, and
      every separator between two words non-empty. */
  predicate Separators(seps: seq<string>, n: nat) {
    && |seps| == n + 1
    && (forall i :: 0 <= i < |seps| ==> IsBlank(seps[i]))
    && (forall i :: 0 < i < n ==> seps[i] != [])
  }

  /** `seps[0] + ws[0] + seps[1] + ws[1] + ... + ws[n-1] + seps[n]`. */
  function Interleave(ws: seq<string>, seps: seq<string>): string
    requires |seps| == |ws| + 1
    decreases |ws|
  {
    if ws == [] then seps[0] else seps[0] + ws[0] + Interleave(ws[1..], seps[1..])
  }

  /** Leading whitespace does not change the words. */
  lemma {:induction false} SplitSkipsBlank(sp: string, s: string)
    requires IsBlank(sp)
    ensures Split(sp + s) == Split(s)
    decreases |sp|
  {
    if sp == [] {
      assert sp + s == s;
    } else {
      assert (sp + s)[1..] == sp[1..] + s;
      SplitSkipsBlank(sp[1..], s);
    }
  }

  /** `str.split()` yields the whitespace-free runs of a string in order,
      whatever whitespace surrounds and separates them: leading and trailing
      blanks, tabs and runs of spaces alike. */
  lemma {:induction false} SplitSpaced(ws: seq<string>, seps: seq<string>)
    requires forall i :: 0 <= i < |ws| ==> IsWord(ws[i])
    requires Separators(seps, |ws|)
    ensures Split(Interleave(ws, seps)) == ws
    decreases |ws|
  {
    if ws == [] {
      SplitSkipsBlank(seps[0], "");
      assert seps[0] + "" == seps[0];
    } else {
      var rest := Interleave(ws[1..], seps[1..]);
      assert Separators(seps[1..], |ws| - 1) by {
        assert forall i :: 0 <= i < |seps| - 1 ==> seps[1..][i] == seps[i + 1];
      }
      SplitSpaced(ws[1..], seps[1..]);
      assert rest == [] || IsSpace(rest[0]) by {
        if |ws| > 1 {
          assert seps[1] != [] && rest == seps[1] + ws[1] + Interleave(ws[2..], seps[2..]);
        }
      }
      SplitWord(ws[0], rest);
      assert Interleave(ws, seps) == seps[0] + (ws[0] + rest);
      SplitSkipsBlank(seps[0], ws[0] + rest);
      assert ws == [ws[0]] + ws[1..];
    }
  }

  /** Growing the first separator grows the front of the interleaving. */
  lemma InterleaveHead(ws: seq<string>, seps: seq<string>, p: string)
    requires |seps| == |ws| + 1
    ensures Interleave(ws, [p + seps[0]] + seps[1..]) == p + Interleave(ws, seps)
  {
    var seps2 := [p + seps[0]] + seps[1..];
    assert seps2[0] == p + seps[0] && seps2[1..] == seps[1..];
  }

  /** Every string is its `split()` words with whitespace around and between
      them, so with `SplitSpaced` the words are exactly the maximal
      whitespace-free runs. */
  lemma {:induction false} SplitDecomposes(s: string) returns (seps: seq<string>)
    ensures Separators(seps, |Split(s)|) && Interleave(Split(s), seps) == s
    decreases |s|
  {
    if s == [] {
      seps := [""];
    } else if IsSpace(s[0]) {
      var seps' := SplitDecomposes(s[1..]);
      seps := DecomposeSpaceStep(s, seps');
    } else {
      var n := WordEnd(s);
      assert n > 0;
      var seps' := SplitDecomposes(s[n..]);
      seps := DecomposeWordStep(s, seps');
    }
  }

  /** A leading whitespace character joins the first separator. */
  lemma DecomposeSpaceStep(s: string, seps': seq<string>) returns (seps: seq<string>)
    requires s != [] && IsSpace(s[0])
    requires Separators(seps', |Split(s[1..])|) && Interleave(Split(s[1..]), seps') == s[1..]
    ensures Separators(seps, |Split(s)|) && Interleave(Split(s), seps) == s
  {
    seps := [[s[0]] + seps'[0]] + seps'[1..];
    InterleaveHead(Split(s[1..]), seps', [s[0]]);
    assert [s[0]] + s[1..] == s;
    assert forall i :: 0 < i < |seps| ==> seps[i] == seps'[i];
  }

  /** A leading word comes first, after an empty separator. */
  lemma DecomposeWordStep(s: string, seps': seq<string>) returns (seps: seq<string>)
    requires s != [] && !IsSpace(s[0])
    requires var n := WordEnd(s);
             Separators(seps', |Split(s[n..])|) && Interleave(Split(s[n..]), seps') == s[n..]
    ensures Separators(seps, |Split(s)|) && Interleave(Split(s), seps) == s
  {
    var n := WordEnd(s);
    var rest := s[n..];
    var ws' := Split(rest);
    seps := [""] + seps';
    assert Split(s) == [s[..n]] + ws';
    SeparatorAfterWord(rest, seps');
    assert forall i :: 0 < i < |seps| ==> seps[i] == seps'[i - 1];
    InterleaveCons(s[..n], ws', seps');
    assert s[..n] + rest == s;
  }

  /** Text that starts with whitespace (or is empty) puts a non-empty
      separator before its first word. */
  lemma SeparatorAfterWord(rest: string, seps': seq<string>)
    requires rest == [] || IsSpace(rest[0])
    requires |seps'| == |Split(rest)| + 1 && Interleave(Split(rest), seps') == rest
    ensures Split(rest) != [] ==> seps'[0] != []
  {
    var ws' := Split(rest);
    if ws' != [] {
      assert rest == seps'[0] + ws'[0] + Interleave(ws'[1..], seps'[1..]);
      assert IsSpace(rest[0]) && !IsSpace(ws'[0][0]);
    }
  }

  /** A word in front, after an empty separator. */
  lemma InterleaveCons(w: string, ws: seq<string>, seps: seq<string>)
    requires |seps| == |ws| + 1
    ensures Interleave([w] + ws, [""] + seps) == w + Interleave(ws, seps)
  {
    assert ([w] + ws)[1..] == ws && ([""] + seps)[1..] == seps;
    assert "" + w == w;
  }

  /** `str.split()` yields no words exactly when the string is blank. */
  lemma {:induction false} SplitEmptyIffBlank(s: string)
    ensures Split(s) == [] <==> forall i :: 0 <= i < |s| ==> IsSpace(s[i])
    decreases |s|
  {
    if s != [] && IsSpace(s[0]) {
      SplitEmptyIffBlank(s[1..]);
      assert forall i :: 1 <= i < |s| ==> s[i] == s[1..][i - 1];
    }
  }

  /** A needle with a character the haystack lacks does not occur in it. */
  lemma {:induction false} MissingCharNotContained(s: string, t: string, c: char)
    requires c in t && c !in s
    ensures !Contains(s, t)
    decreases |s|
  {
    if |s| > 0 {
      assert c !in s[1..] by {
        assert forall j :: 0 <= j < |s[1..]| ==> s[1..][j] == s[j + 1];
      }
      MissingCharNotContained(s[1..], t, c);
    }
  }

  lemma LowerConcat(a: string, b: string)
    ensures Lower(a + b) == Lower(a) + Lower(b)
  {
    assert forall i :: 0 <= i < |a + b| ==> Lower(a + b)[i] == (Lower(a) + Lower(b))[i];
  }

  /** Joining lower-case words gives a lower-case string. */
  lemma {:induction false} LowerJoin(ws: seq<string>)
    requires forall i :: 0 <= i < |ws| ==> Lower(ws[i]) == ws[i]
    ensures Lower(Join(ws)) == Join(ws)
    decreases |ws|
  {
    if |ws| > 1 {
      LowerJoin(ws[1..]);
      LowerConcat(ws[0] + " ", Join(ws[1..]));
      LowerConcat(ws[0], " ");
    }
  }

  /** Every word is a `split()` token with no upper-case letter. */
  predicate LowerWords(ws: seq<string>) {
    ws == [] || (IsWord(ws[0]) && Lower(ws[0]) == ws[0] && LowerWords(ws[1..]))
  }

  lemma {:induction false} LowerWordsEach(ws: seq<string>)
    ensures LowerWords(ws) <==> forall i :: 0 <= i < |ws| ==> IsWord(ws[i]) && Lower(ws[i]) == ws[i]
    decreases |ws|
  {
    if ws != [] {
      LowerWordsEach(ws[1..]);
      assert forall i :: 1 <= i < |ws| ==> ws[i] == ws[1..][i - 1];
    }
  }

  /** A non-empty run of ASCII lower-case letters. */
  predicate IsLetterWord(w: string) {
    |w| > 0 && forall i :: 0 <= i < |w| ==> 'a' <= w[i] <= 'z'
  }

  /** A run of lower-case letters is a `split()` token that `lower()`
      leaves alone. */
  lemma LetterWordIsLowerWord(w: string)
    requires IsLetterWord(w)
    ensures IsWord(w) && Lower(w) == w
  {
    assert forall i :: 0 <= i < |w| ==> Lower(w)[i] == w[i];
  }

  /** Two words joined by a single space. */
  lemma JoinPair(a: string, b: string)
    ensures Join([a, b]) == a + " " + b
  {
    assert [a, b][1..] == [b];
  }

  /** Two letter words are lower-case tokens. */
  lemma LetterPair(a: string, b: string)
    requires IsLetterWord(a) && IsLetterWord(b)
    ensures LowerWords([a, b])
  {
    LetterWordIsLowerWord(a);
    LetterWordIsLowerWord(b);
    assert [a, b][1..] == [b] && [b][1..] == [];
  }

  /** A query written as lower-case words separated by single spaces is
      already lower-case and splits back into those words. */
  lemma JoinLowerWords(ws: seq<string>)
    requires LowerWords(ws)
    ensures Lower(Join(ws)) == Join(ws)
    ensures Split(Join(ws)) == ws
  {
    LowerWordsEach(ws);
    LowerJoin(ws);
    SplitJoin(ws);
  }
}
