/** `clean_text` from src/question_answering.py: newlines become spaces, asterisks are
    deleted, and the text is re-assembled from its whitespace-separated words joined
    by single spaces (`' '.join(text.split())`). */
module TextClean {
  import opened PyStr

  /** `s.replace(from, to)` for single characters. */
  function ReplaceChar(s: string, from: char, to: char): (r: string)
    ensures |r| == |s|
    ensures from != to ==> from !in r
    ensures from !in s ==> r == s
    ensures forall c :: c in r ==> c in s || c == to
    ensures forall i :: 0 <= i < |s| ==> r[i] == (if s[i] == from then to else s[i])
  {
    if |s| == 0 then []
    else [if s[0] == from then to else s[0]] + ReplaceChar(s[1..], from, to)
  }

  /** `s.replace(c, '')`: every occurrence of `c` deleted, the rest kept in order. */
  function RemoveChar(s: string, c: char): (r: string)
    ensures |r| <= |s|
    ensures c !in r
    ensures c !in s ==> r == s
    ensures forall x :: x in r ==> x in s
    ensures forall x :: x != c ==> multiset(r)[x] == multiset(s)[x]
  {
    assert |s| > 0 ==> s == [s[0]] + s[1..];
    if |s| == 0 then []
    else if s[0] == c then RemoveChar(s[1..], c)
    else [s[0]] + RemoveChar(s[1..], c)
  }

  /** Deleting a character distributes over concatenation, so the kept characters
      stay in their original order. */
  lemma {:induction false} RemoveCharAppend(a: string, b: string, c: char)
    ensures RemoveChar(a + b, c) == RemoveChar(a, c) + RemoveChar(b, c)
  {
    if |a| > 0 {
      assert (a + b)[0] == a[0];
      assert (a + b)[1..] == a[1..] + b;
      RemoveCharAppend(a[1..], b, c);
    } else {
      assert a + b == b;
    }
  }

  /** A word of `str.split()`: non-empty and free of whitespace. */
  predicate IsWord(w: string) {
    |w| > 0 && forall i :: 0 <= i < |w| ==> !IsSpace(w[i])
  }

  predicate AllWords(ws: seq<string>) {
    forall k :: 0 <= k < |ws| ==> IsWord(ws[k])
  }

  /** Length of the run of non-whitespace characters that `s` starts with. */
  function WordLen(s: string): (n: nat)
    ensures n <= |s|
    ensures forall i :: 0 <= i < n ==> !IsSpace(s[i])
    ensures n == |s| || IsSpace(s[n])
  {
    if |s| == 0 || IsSpace(s[0]) then 0 else 1 + WordLen(s[1..])
  }

  /** Python's `s.split()` with no separator: the maximal runs of non-whitespace
      characters, in order, each built only from characters of `s`. */
  function Split(s: string): (ws: seq<string>)
    ensures AllWords(ws)
    ensures forall k, c :: 0 <= k < |ws| && c in ws[k] ==> c in s
    decreases |s|
  {
    if |s| == 0 then []
    else if IsSpace(s[0]) then
      assert forall c :: c in s[1..] ==> c in s;
      Split(s[1..])
    else
      var n := WordLen(s);
      assert forall c :: c in s[n..] ==> c in s;
      assert forall c :: c in s[..n] ==> c in s;
      [s[..n]] + Split(s[n..])
  }

  /** Every character of `s` is whitespace. */
  predicate AllSpace(s: string) {
    forall k :: 0 <= k < |s| ==> IsSpace(s[k])
  }

  /** `s` opens with whitespace up to index `i`, where the word `w` starts and runs
      up to whitespace or to the end of `s`. */
  ghost predicate WordAt(s: string, i: nat, w: string) {
    && IsWord(w)
    && i + |w| <= |s|
    && AllSpace(s[..i])
    && s[i..i + |w|] == w
    && (i + |w| == |s| || IsSpace(s[i + |w|]))
  }

  /** `s` is made of exactly the words `ws`, in order, with whitespace around and
      between them and nothing else: the reading of `s` that `str.split()` returns. */
  ghost predicate Segments(s: string, ws: seq<string>)
    decreases |ws|
  {
    if ws == [] then AllSpace(s)
    else exists i: nat :: WordAt(s, i, ws[0]) && Segments(s[i + |ws[0]|..], ws[1..])
  }

  /** `' '.join(ws)`. Joined words can be read back as exactly those words. */
  function Join(ws: seq<string>): (s: string)
    ensures AllWords(ws) ==> Segments(s, ws)
  {
    if |ws| == 0 then ""
    else if |ws| == 1 then
      SegmentsOneWord(ws[0]);
      ws[0]
    else
      var rest := Join(ws[1..]);
      SegmentsAfterWord(ws[0], rest, ws[1..]);
      ws[0] + " " + rest
  }

  lemma ConsParts<T>(x: T, xs: seq<T>)
    ensures ([x] + xs)[0] == x && ([x] + xs)[1..] == xs
  {
  }

  lemma ConsOfParts<T>(xs: seq<T>)
    requires xs != []
    ensures [xs[0]] + xs[1..] == xs
  {
  }

  /** A word found at `i`, followed by a segmentation of the rest, segments `s`. */
  lemma SegmentsIntro(s: string, i: nat, w: string, ws: seq<string>)
    requires WordAt(s, i, w) && Segments(s[i + |w|..], ws)
    ensures Segments(s, [w] + ws)
  {
    ConsParts(w, ws);
  }

  lemma SegmentsOneWord(w: string)
    ensures IsWord(w) ==> Segments(w, [w])
  {
    if IsWord(w) {
      assert w[..0] == [] && w[0..|w|] == w;
      assert Segments(w[|w|..], []);
      SegmentsIntro(w, 0, w, []);
      assert [w] + [] == [w];
    }
  }

  /** A word and a space put in front of a segmented string add that word first. */
  lemma SegmentsAfterWord(w: string, rest: string, ws: seq<string>)
    ensures IsWord(w) && Segments(rest, ws) ==> Segments(w + " " + rest, [w] + ws)
  {
    if IsWord(w) && Segments(rest, ws) {
      var t := w + " " + rest;
      SegmentsSpace(' ', rest, ws);
      assert t[..|w|] == w;
      assert t[|w|] == ' ';
      assert t[|w|..] == [' '] + rest;
      assert t[..0] == [] && t[0..|w|] == w;
      SegmentsIntro(t, 0, w, ws);
    }
  }

  /** Leading whitespace does not change the words. */
  lemma {:induction false} SegmentsSpace(c: char, s: string, ws: seq<string>)
    requires IsSpace(c) && Segments(s, ws)
    ensures Segments([c] + s, ws)
  {
    var t := [c] + s;
    if ws != [] {
      var w := ws[0];
      var i: nat :| WordAt(s, i, w) && Segments(s[i + |w|..], ws[1..]);
      WordAtCons(c, s, i, w);
      SegmentsIntro(t, i + 1, w, ws[1..]);
      ConsOfParts(ws);
    }
  }

  lemma WordAtCons(c: char, s: string, i: nat, w: string)
    requires IsSpace(c) && WordAt(s, i, w)
    ensures WordAt([c] + s, i + 1, w)
    ensures ([c] + s)[i + 1 + |w|..] == s[i + |w|..]
  {
    var t := [c] + s;
    assert t[..i + 1] == [c] + s[..i];
    assert t[i + 1..i + 1 + |w|] == s[i..i + |w|];
  }

  lemma WordAtStart(s: string, w: string)
    requires WordAt(s, 0, w)
    ensures s == w + s[|w|..]
    ensures s[|w|..] == [] || IsSpace(s[|w|..][0])
  {
    assert s[0..|w|] == s[..|w|];
  }

  lemma WordAtTail(s: string, i: nat, w: string)
    requires i > 0 && WordAt(s, i, w)
    ensures IsSpace(s[0])
    ensures WordAt(s[1..], i - 1, w)
    ensures s[1..][i - 1 + |w|..] == s[i + |w|..]
  {
    var t := s[1..];
    assert s[..i][0] == s[0];
    assert t[..i - 1] == s[1..i];
    assert t[i - 1..i - 1 + |w|] == s[i..i + |w|];
  }

  /** `str.split()` reads its input as its words: the result segments `s`. */
  lemma {:induction false} SplitSegments(s: string)
    ensures Segments(s, Split(s))
    decreases |s|
  {
    if |s| == 0 {
    } else if IsSpace(s[0]) {
      SplitSegments(s[1..]);
      SegmentsSpace(s[0], s[1..], Split(s[1..]));
      assert [s[0]] + s[1..] == s;
    } else {
      var n := WordLen(s);
      var ws := Split(s);
      SplitSegments(s[n..]);
      assert ws == [s[..n]] + Split(s[n..]);
      assert s[..0] == [];
      assert s[0..0 + n] == s[..n];
      assert WordAt(s, 0, s[..n]);
      SegmentsIntro(s, 0, s[..n], Split(s[n..]));
    }
  }

  /** Whitespace alone splits into no words. */
  lemma {:induction false} SplitAllSpace(s: string)
    requires AllSpace(s)
    ensures Split(s) == []
    decreases |s|
  {
    if |s| > 0 {
      assert IsSpace(s[0]);
      SplitAllSpace(s[1..]);
    }
  }

  /** A segmented string either opens with whitespace, which can be dropped, or
      opens with its first word. */
  lemma SegmentsStep(s: string, ws: seq<string>)
    requires ws != [] && Segments(s, ws)
    ensures || (|s| > 0 && IsSpace(s[0]) && Segments(s[1..], ws))
            || (&& IsWord(ws[0]) && s == ws[0] + s[|ws[0]|..]
                && (s[|ws[0]|..] == [] || IsSpace(s[|ws[0]|..][0]))
                && Segments(s[|ws[0]|..], ws[1..]))
  {
    var w := ws[0];
    var i: nat :| WordAt(s, i, w) && Segments(s[i + |w|..], ws[1..]);
    if i > 0 {
      WordAtTail(s, i, w);
      SegmentsIntro(s[1..], i - 1, w, ws[1..]);
      ConsOfParts(ws);
    } else {
      WordAtStart(s, w);
    }
  }

  lemma SplitSkipsSpace(s: string)
    requires |s| > 0 && IsSpace(s[0])
    ensures Split(s) == Split(s[1..])
  {
  }

  /** `str.split()` is the only way to read `s` as words separated by whitespace:
      any segmentation of `s` is its split. */
  lemma {:induction false} SegmentsUnique(s: string, ws: seq<string>)
    requires Segments(s, ws)
    ensures Split(s) == ws
    decreases |s|
  {
    if ws == [] {
      SplitAllSpace(s);
    } else {
      var w := ws[0];
      SegmentsStep(s, ws);
      if |s| > 0 && IsSpace(s[0]) {
        SegmentsUnique(s[1..], ws);
        SplitSkipsSpace(s);
      } else {
        var rest := s[|w|..];
        SplitWordThen(w, rest);
        SegmentsUnique(rest, ws[1..]);
        ConsOfParts(ws);
      }
    }
  }

  /** The shape `clean_text` promises: the only whitespace character is the space,
      there is none at either end, and no two spaces are adjacent. */
  predicate Normal(t: string) {
    && (forall i :: 0 <= i < |t| && IsSpace(t[i]) ==> t[i] == ' ')
    && (|t| > 0 ==> t[0] != ' ' && t[|t| - 1] != ' ')
    && (forall i :: 0 <= i < |t| - 1 && t[i] == ' ' ==> t[i + 1] != ' ')
  }

  /** `clean_text(text)`. The result has no newline, no asterisk and the normal
      shape, and it has the same words as the text after newline replacement and
      asterisk removal. */
  function CleanText(text: string): (r: string)
    ensures '\n' !in r && '*' !in r
    ensures Normal(r)
    ensures Split(r) == Split(RemoveChar(ReplaceChar(text, '\n', ' '), '*'))
  {
    var noNewlines := ReplaceChar(text, '\n', ' ');
    var noStars := RemoveChar(noNewlines, '*');
    var words := Split(noStars);
    JoinNormal(words);
    JoinAvoids(words, '*');
    SplitJoin(words);
    Join(words)
  }

  /** Joining words gives a string of normal shape. */
  lemma {:induction false} JoinNormal(ws: seq<string>)
    requires AllWords(ws)
    ensures Normal(Join(ws))
  {
    if |ws| >= 2 {
      JoinNormal(ws[1..]);
      var rest := Join(ws[1..]);
      var w := ws[0];
      var t := w + " " + rest;
      assert IsWord(ws[1]);
      JoinStartsWith(ws[1..]);
      assert forall i :: 0 <= i < |w| ==> t[i] == w[i];
      assert forall i :: |w| < i < |t| ==> t[i] == rest[i - |w| - 1];
      assert t[|w|] == ' ';
      assert t[|w| + 1] == rest[0];
      assert t[0] == w[0];
      assert t[|t| - 1] == rest[|rest| - 1];
    } else if |ws| == 1 {
      assert IsWord(ws[0]);
    }
  }

  /** A join of at least one word starts with that word's first character. */
  lemma {:induction false} JoinStartsWith(ws: seq<string>)
    requires AllWords(ws) && |ws| > 0
    ensures |Join(ws)| > 0 && Join(ws)[0] == ws[0][0]
  {
    assert IsWord(ws[0]);
  }

  /** A character other than the space that no word contains is absent from the join. */
  lemma {:induction false} JoinAvoids(ws: seq<string>, c: char)
    requires c != ' '
    requires forall k :: 0 <= k < |ws| ==> c !in ws[k]
    ensures c !in Join(ws)
  {
    if |ws| >= 2 {
      JoinAvoids(ws[1..], c);
      assert c !in ws[0];
    }
  }

  /** Splitting a word followed by whitespace (or by nothing) yields that word first. */
  lemma SplitWordThen(w: string, t: string)
    requires IsWord(w)
    requires t == [] || IsSpace(t[0])
    ensures Split(w + t) == [w] + Split(t)
  {
    var s := w + t;
    WordLenOf(w, t);
    assert s[..|w|] == w;
    assert s[|w|..] == t;
  }

  lemma {:induction false} WordLenOf(w: string, t: string)
    requires forall i :: 0 <= i < |w| ==> !IsSpace(w[i])
    requires t == [] || IsSpace(t[0])
    ensures WordLen(w + t) == |w|
  {
    if |w| > 0 {
      assert (w + t)[1..] == w[1..] + t;
      WordLenOf(w[1..], t);
    } else {
      assert w + t == t;
    }
  }

  /** Splitting undoes joining: `' '.join(ws).split() == ws` for words `ws`. */
  lemma {:induction false} SplitJoin(ws: seq<string>)
    requires AllWords(ws)
    ensures Split(Join(ws)) == ws
  {
    if |ws| == 1 {
      assert IsWord(ws[0]);
      SplitWordThen(ws[0], []);
      assert ws[0] + [] == ws[0];
    } else if |ws| >= 2 {
      assert IsWord(ws[0]);
      var rest := Join(ws[1..]);
      assert ws[0] + " " + rest == ws[0] + (" " + rest);
      SplitWordThen(ws[0], " " + rest);
      assert (" " + rest)[1..] == rest;
      SplitJoin(ws[1..]);
    }
  }

  /** Joining undoes splitting on strings of normal shape. */
  lemma {:induction false} JoinSplit(t: string)
    requires Normal(t)
    ensures Join(Split(t)) == t
    decreases |t|
  {
    if |t| > 0 {
      var n := WordLen(t);
      if n < |t| {
        var w, rest := t[..n], t[n + 1..];
        SplitNormalAtSpace(t, n);
        JoinSplit(rest);
        JoinCons(w, Split(rest));
        calc {
          Join(Split(t));
          Join([w] + Split(rest));
          w + " " + Join(Split(rest));
          w + " " + rest;
          t;
        }
      } else {
        SplitOneWord(t);
      }
    }
  }

  /** A non-empty string without whitespace splits into itself. */
  lemma {:induction false} SplitOneWord(t: string)
    requires |t| > 0 && WordLen(t) == |t|
    ensures Split(t) == [t]
  {
    assert !IsSpace(t[0]);
    assert t[..|t|] == t;
    assert t[|t|..] == [];
    assert Split(t) == [t[..|t|]] + Split(t[|t|..]);
  }

  /** In a normal string, the first word ends at a single space followed by the
      (normal, non-empty) rest. */
  lemma {:induction false} SplitNormalAtSpace(t: string, n: nat)
    requires Normal(t) && |t| > 0 && n == WordLen(t) < |t|
    ensures n + 1 < |t|
    ensures Normal(t[n + 1..])
    ensures Split(t) == [t[..n]] + Split(t[n + 1..])
    ensures Split(t[n + 1..]) != []
    ensures t == t[..n] + " " + t[n + 1..]
  {
    assert !IsSpace(t[0]);
    assert Split(t) == [t[..n]] + Split(t[n..]);
    assert t[n] == ' ';
    assert n + 1 < |t|;
    var rest := t[n + 1..];
    assert !IsSpace(t[n + 1]);
    assert t[n..][1..] == rest;
    NormalSuffix(t, n + 1);
    assert rest[0] == t[n + 1];
  }

  /** Joining a word in front of a non-empty list puts one space between. */
  lemma JoinCons(w: string, ws: seq<string>)
    requires ws != []
    ensures Join([w] + ws) == w + " " + Join(ws)
  {
    assert ([w] + ws)[1..] == ws;
  }

  /** A suffix of a normal string that starts right after a space is normal. */
  lemma NormalSuffix(t: string, j: nat)
    requires Normal(t) && 0 < j < |t| && t[j - 1] == ' '
    ensures Normal(t[j..])
  {
    var u := t[j..];
    forall i | 0 <= i < |u| && IsSpace(u[i])
      ensures u[i] == ' '
    {
      assert u[i] == t[j + i];
    }
    forall i | 0 <= i < |u| - 1 && u[i] == ' '
      ensures u[i + 1] != ' '
    {
      assert u[i] == t[j + i];
    }
    assert u[|u| - 1] == t[|t| - 1];
  }

  /** `clean_text` is idempotent. */
  lemma CleanTextIdempotent(s: string)
    ensures CleanText(CleanText(s)) == CleanText(s)
  {
    CleanTextFixedPoint(CleanText(s));
  }

  /** A string of normal shape without asterisks is left as it is. */
  lemma CleanTextFixedPoint(t: string)
    requires Normal(t) && '*' !in t
    ensures CleanText(t) == t
  {
    assert '\n' !in t by {
      assert IsSpace('\n');
    }
    JoinSplit(t);
  }

  /** `clean_text(s)` is the one string of normal shape whose words are those of `s`
      once newlines are replaced and asterisks deleted. */
  lemma CleanTextCharacterized(s: string, t: string)
    ensures t == CleanText(s) <==>
              Normal(t) && Split(t) == Split(RemoveChar(ReplaceChar(s, '\n', ' '), '*'))
  {
    if Normal(t) && Split(t) == Split(RemoveChar(ReplaceChar(s, '\n', ' '), '*')) {
      JoinSplit(t);
      JoinSplit(CleanText(s));
    }
  }
}
