/**
 * The text tools page: the statistics shown for the current text and the
 * transforms that overwrite it.
 *
 * Regular-expression splits of the form `split(/[class]+/)` and
 * `split(/\n\n+/)` are modelled by `SplitRuns`: the text is cut at each
 * leftmost, longest run of separator characters of at least a minimum
 * length, as a global regular-expression search does.
 */
module TextTools {
  import opened Options
  import opened Chars
  import opened Strings
  import opened Seqs

  // ------------------------------------------------------------- whitespace

  /** `s.replace(/<class>/g, "")`: the characters outside the class, in order. */
  function Remove(s: string, isSep: char -> bool): (r: string)
    ensures |r| <= |s|
    ensures forall c :: c in r ==> c in s && !isSep(c)
  {
    if s == [] then []
    else Remove(s[..|s| - 1], isSep) + (if isSep(s[|s| - 1]) then [] else [s[|s| - 1]])
  }

  lemma {:induction false} RemoveAppend(a: string, b: string, isSep: char -> bool)
    ensures Remove(a + b, isSep) == Remove(a, isSep) + Remove(b, isSep)
    decreases |b|
  {
    if b == [] {
      assert a + b == a;
    } else {
      assert (a + b)[..|a + b| - 1] == a + b[..|b| - 1];
      RemoveAppend(a, b[..|b| - 1], isSep);
    }
  }

  /** A text without separators is kept whole. */
  lemma {:induction false} RemoveNone(s: string, isSep: char -> bool)
    requires forall i :: 0 <= i < |s| ==> !isSep(s[i])
    ensures Remove(s, isSep) == s
  {
    if s != [] {
      var init := s[..|s| - 1];
      assert s == init + [s[|s| - 1]];
      RemoveNone(init, isSep);
      assert Remove(s, isSep) == Remove(init, isSep) + [s[|s| - 1]];
    }
  }

  /** A text made only of separators removes to nothing. */
  lemma {:induction false} RemoveAll(s: string, isSep: char -> bool)
    requires forall i :: 0 <= i < |s| ==> isSep(s[i])
    ensures Remove(s, isSep) == []
  {
    if s != [] {
      RemoveAll(s[..|s| - 1], isSep);
    }
  }

  /** The first position at or after `i` that does not hold whitespace, or the end. */
  function SkipSpaces(s: string, i: nat): (k: nat)
    requires i <= |s|
    ensures i <= k <= |s|
    ensures forall j :: i <= j < k ==> IsSpace(s[j])
    ensures k < |s| ==> !IsSpace(s[k])
    decreases |s| - i
  {
    if i < |s| && IsSpace(s[i]) then SkipSpaces(s, i + 1) else i
  }

  /** The position just after the last character before `j` that is not whitespace, or 0. */
  function BackSpaces(s: string, j: nat): (k: nat)
    requires j <= |s|
    ensures k <= j
    ensures forall t :: k <= t < j ==> IsSpace(s[t])
    ensures k > 0 ==> !IsSpace(s[k - 1])
  {
    if j > 0 && IsSpace(s[j - 1]) then BackSpaces(s, j - 1) else j
  }

  /** `s.trimStart()`: the whitespace at the front removed. */
  function TrimStart(s: string): string
  {
    s[SkipSpaces(s, 0)..]
  }

  /** `s.trimEnd()`: the whitespace at the back removed. */
  function TrimEnd(s: string): string
  {
    s[..BackSpaces(s, |s|)]
  }

  /** `s.trim()`. */
  function Trim(s: string): string
  {
    TrimEnd(TrimStart(s))
  }

  /** The number of whitespace characters `trim()` removes from the front. */
  function Lead(s: string): nat
  {
    SkipSpaces(s, 0)
  }

  /**
   * Trimming removes whitespace at both ends and nothing else: what is left
   * is the slice of the text after its leading whitespace, and only
   * whitespace comes before and after it.
   */
  lemma TrimSlice(s: string)
    ensures var t := Trim(s); var k := Lead(s);
      && k + |t| <= |s| && t == s[k..k + |t|]
      && (forall i :: 0 <= i < k ==> IsSpace(s[i]))
      && (forall i :: k + |t| <= i < |s| ==> IsSpace(s[i]))
  {
    var k := SkipSpaces(s, 0);
    var u := s[k..];
    var e := BackSpaces(u, |u|);
    assert Trim(s) == u[..e] == s[k..k + e];
    forall i | k + e <= i < |s| ensures IsSpace(s[i]) {
      assert s[i] == u[i - k];
    }
  }

  /** The trimmed text starts and ends with non-whitespace, and is empty exactly for a blank text. */
  lemma TrimEnds(s: string)
    ensures var t := Trim(s);
      && (t != [] ==> !IsSpace(t[0]) && !IsSpace(t[|t| - 1]))
      && (t == [] <==> forall i :: 0 <= i < |s| ==> IsSpace(s[i]))
  {
    var k := SkipSpaces(s, 0);
    var u := s[k..];
    var e := BackSpaces(u, |u|);
    assert Trim(s) == u[..e];
    if e > 0 {
      assert u[0] == s[k] && u[e - 1] == s[k + e - 1];
    }
    assert k < |s| ==> e > 0 by {
      if k < |s| {
        assert u[0] == s[k];
      }
    }
  }

  /** A text without whitespace at its ends trims to itself. */
  lemma TrimFixed(s: string)
    requires s != [] ==> !IsSpace(s[0]) && !IsSpace(s[|s| - 1])
    ensures Trim(s) == s
  {
  }

  // --------------------------------------------------- splitting at runs

  /** A run of at least `m` separators starts at `k`. */
  predicate RunAt(s: string, k: int, isSep: char -> bool, m: nat)
  {
    0 <= k && k + m <= |s| && forall t :: k <= t < k + m ==> isSep(s[t])
  }

  /** The end of the separator run that starts at `i`: the regular expression's greedy `+`. */
  function RunEnd(s: string, i: nat, isSep: char -> bool): (j: nat)
    requires i <= |s|
    ensures i <= j <= |s|
    ensures forall t :: i <= t < j ==> isSep(s[t])
    ensures j < |s| ==> !isSep(s[j])
    decreases |s| - i
  {
    if i < |s| && isSep(s[i]) then RunEnd(s, i + 1, isSep) else i
  }

  /** The greedy run that starts where a run of `m` separators starts is at least `m` long. */
  lemma {:induction false} RunEndCovers(s: string, k: nat, isSep: char -> bool, m: nat)
    requires RunAt(s, k, isSep, m)
    ensures k + m <= RunEnd(s, k, isSep)
    decreases m
  {
    if m > 0 {
      assert isSep(s[k]);
      RunEndCovers(s, k + 1, isSep, m - 1);
    }
  }

  /** The leftmost position at or after `i` where a run of at least `m` separators starts. */
  function FirstRun(s: string, isSep: char -> bool, m: nat, i: nat): (k: Option<nat>)
    requires i <= |s|
    ensures k.Some? ==> i <= k.value < |s| && k.value + m <= |s| && RunAt(s, k.value, isSep, m)
    ensures k.Some? ==> forall t :: i <= t < k.value ==> !RunAt(s, t, isSep, m)
    ensures k.None? ==> forall t :: i <= t ==> !RunAt(s, t, isSep, m) || (m == 0 && t == |s|)
    decreases |s| - i
  {
    if i == |s| then None
    else if RunAt(s, i, isSep, m) then Some(i)
    else FirstRun(s, isSep, m, i + 1)
  }

  /**
   * `s.split(re)` for `re` a run of at least `m >= 1` separators: the text
   * before the leftmost run, then the split of what follows the run.
   */
  function SplitRuns(s: string, isSep: char -> bool, m: nat): (pieces: seq<string>)
    requires m >= 1
    ensures |pieces| >= 1
    ensures forall p, t :: p in pieces ==> !RunAt(p, t, isSep, m)
    decreases |s|
  {
    match FirstRun(s, isSep, m, 0)
    case None => [s]
    case Some(k) =>
      var j := RunEnd(s, k, isSep);
      assert RunAt(s, k, isSep, m) && k < j by {
        assert isSep(s[k]);
      }
      var before := s[..k];
      assert forall t :: !RunAt(before, t, isSep, m) by {
        forall t | 0 <= t && t + m <= |before| ensures !RunAt(before, t, isSep, m) {
          assert !RunAt(s, t, isSep, m);
          var x :| t <= x < t + m && !isSep(s[x]);
          assert before[x] == s[x];
        }
      }
      [before] + SplitRuns(s[j..], isSep, m)
  }

  /** `pieces.join("")`. */
  function Concat(pieces: seq<string>): string
  {
    if pieces == [] then [] else pieces[0] + Concat(pieces[1..])
  }

  /**
   * The separator runs `s.split(re)` cuts out, in order: one fewer than
   * the pieces, each at least `m` separators long.
   */
  function SepRuns(s: string, isSep: char -> bool, m: nat): (runs: seq<string>)
    requires m >= 1
    ensures |runs| == |SplitRuns(s, isSep, m)| - 1
    ensures forall r :: r in runs ==> |r| >= m && forall t :: 0 <= t < |r| ==> isSep(r[t])
    decreases |s|
  {
    match FirstRun(s, isSep, m, 0)
    case None => []
    case Some(k) =>
      var j := RunEnd(s, k, isSep);
      RunEndCovers(s, k, isSep, m);
      [s[k..j]] + SepRuns(s[j..], isSep, m)
  }

  /** `pieces[0] + runs[0] + pieces[1] + … + pieces[n]`: pieces with the runs put back between them. */
  function Interleave(pieces: seq<string>, runs: seq<string>): string
    requires |pieces| == |runs| + 1
  {
    if runs == [] then pieces[0]
    else pieces[0] + runs[0] + Interleave(pieces[1..], runs[1..])
  }

  /** Putting the cut-out runs back between the pieces gives the text back. */
  lemma {:induction false} SplitRunsInterleave(s: string, isSep: char -> bool, m: nat)
    requires m >= 1
    ensures Interleave(SplitRuns(s, isSep, m), SepRuns(s, isSep, m)) == s
    decreases |s|
  {
    var first := FirstRun(s, isSep, m, 0);
    if first.Some? {
      var k := first.value;
      var j := RunEnd(s, k, isSep);
      assert isSep(s[k]);
      var rest := s[j..];
      var tailPieces, tailRuns := SplitRuns(rest, isSep, m), SepRuns(rest, isSep, m);
      var pieces, runs := [s[..k]] + tailPieces, [s[k..j]] + tailRuns;
      assert SplitRuns(s, isSep, m) == pieces;
      assert SepRuns(s, isSep, m) == runs;
      assert pieces[1..] == tailPieces && runs[1..] == tailRuns;
      assert Interleave(pieces, runs) == s[..k] + s[k..j] + Interleave(tailPieces, tailRuns);
      SplitRunsInterleave(rest, isSep, m);
      assert s == s[..k] + s[k..j] + rest by {
        assert s[..j] == s[..k] + s[k..j];
      }
    }
  }

  /** A character that is not a separator lies in some piece, which is therefore non-empty. */
  lemma {:induction false} SplitRunsKeeps(s: string, isSep: char -> bool, m: nat, i: nat)
    requires m >= 1 && i < |s| && !isSep(s[i])
    ensures exists p :: p in SplitRuns(s, isSep, m) && p != []
    decreases |s|
  {
    var first := FirstRun(s, isSep, m, 0);
    if first.Some? {
      var k := first.value;
      var j := RunEnd(s, k, isSep);
      assert isSep(s[k]);
      var pieces := SplitRuns(s, isSep, m);
      assert pieces == [s[..k]] + SplitRuns(s[j..], isSep, m);
      if i < k {
        assert s[..k][i] == s[i];
        assert s[..k] in pieces;
      } else {
        assert j <= i;
        assert s[j..][i - j] == s[i];
        SplitRunsKeeps(s[j..], isSep, m, i - j);
        var p :| p in SplitRuns(s[j..], isSep, m) && p != [];
        assert p in pieces;
      }
    } else {
      assert SplitRuns(s, isSep, m) == [s];
      assert s in SplitRuns(s, isSep, m);
    }
  }

  /** Removing separators from kept characters, then separators, then anything else. */
  lemma RemoveAround(a: string, b: string, c: string, isSep: char -> bool)
    requires forall t :: 0 <= t < |a| ==> !isSep(a[t])
    requires forall t :: 0 <= t < |b| ==> isSep(b[t])
    ensures Remove(a + b + c, isSep) == a + Remove(c, isSep)
  {
    RemoveNone(a, isSep);
    RemoveAll(b, isSep);
    RemoveAppend(a, b, isSep);
    assert Remove(a + b, isSep) == a;
    RemoveAppend(a + b, c, isSep);
  }

  /** With single separators, the first piece holds no separator and is followed by a non-empty run of them. */
  lemma SplitRunsFirst(s: string, isSep: char -> bool)
    requires FirstRun(s, isSep, 1, 0).Some?
    ensures var k := FirstRun(s, isSep, 1, 0).value; var j := RunEnd(s, k, isSep);
      && k < j
      && (forall t :: 0 <= t < k ==> !isSep(s[t]))
      && SplitRuns(s, isSep, 1) == [s[..k]] + SplitRuns(s[j..], isSep, 1)
  {
    var k := FirstRun(s, isSep, 1, 0).value;
    assert RunAt(s, k, isSep, 1);
    forall t | 0 <= t < k ensures !isSep(s[t]) {
      assert !RunAt(s, t, isSep, 1);
    }
  }

  /** With single separators and none in the text, the text is the only piece. */
  lemma SplitRunsNone(s: string, isSep: char -> bool)
    requires FirstRun(s, isSep, 1, 0).None?
    ensures forall t :: 0 <= t < |s| ==> !isSep(s[t])
    ensures SplitRuns(s, isSep, 1) == [s]
  {
    forall t | 0 <= t < |s| ensures !isSep(s[t]) {
      assert !RunAt(s, t, isSep, 1);
    }
  }

  /** With single separators, the text is the part before the first run, which holds none, the run, and the rest. */
  lemma FirstRunParts(s: string, isSep: char -> bool)
    requires FirstRun(s, isSep, 1, 0).Some?
    ensures var k := FirstRun(s, isSep, 1, 0).value; var j := RunEnd(s, k, isSep);
      && k < j
      && s == s[..k] + s[k..j] + s[j..]
      && (forall t :: 0 <= t < |s[..k]| ==> !isSep(s[..k][t]))
      && (forall t :: 0 <= t < |s[k..j]| ==> isSep(s[k..j][t]))
  {
    var k := FirstRun(s, isSep, 1, 0).value;
    var j := RunEnd(s, k, isSep);
    assert RunAt(s, k, isSep, 1);
    var a, b := s[..k], s[k..j];
    assert s[..j] == a + b;
    forall t | 0 <= t < |a| ensures !isSep(a[t]) {
      assert !RunAt(s, t, isSep, 1);
    }
    forall t | 0 <= t < |b| ensures isSep(b[t]) {
      assert b[t] == s[k + t];
    }
  }

  /** Removing separators drops the first run: what precedes it is kept, and the rest is handled after it. */
  lemma RemoveFirstRun(s: string, isSep: char -> bool)
    requires FirstRun(s, isSep, 1, 0).Some?
    ensures var k := FirstRun(s, isSep, 1, 0).value; var j := RunEnd(s, k, isSep);
      && k < j
      && (forall t :: 0 <= t < k ==> !isSep(s[t]))
      && Remove(s, isSep) == s[..k] + Remove(s[j..], isSep)
  {
    var k := FirstRun(s, isSep, 1, 0).value;
    var j := RunEnd(s, k, isSep);
    FirstRunParts(s, isSep);
    var a, b, c := s[..k], s[k..j], s[j..];
    RemoveAround(a, b, c, isSep);
    forall t | 0 <= t < k ensures !isSep(s[t]) {
      assert a[t] == s[t];
    }
  }

  /** With single separators, the pieces put back together are the text without its separators. */
  lemma {:induction false} ConcatSplitRuns(s: string, isSep: char -> bool)
    ensures Concat(SplitRuns(s, isSep, 1)) == Remove(s, isSep)
    decreases |s|
  {
    var first := FirstRun(s, isSep, 1, 0);
    if first.Some? {
      var k := first.value;
      var j := RunEnd(s, k, isSep);
      SplitRunsFirst(s, isSep);
      RemoveFirstRun(s, isSep);
      var rest := SplitRuns(s[j..], isSep, 1);
      assert Concat([s[..k]] + rest) == s[..k] + Concat(rest) by {
        assert ([s[..k]] + rest)[1..] == rest;
      }
      ConcatSplitRuns(s[j..], isSep);
    } else {
      SplitRunsNone(s, isSep);
      RemoveNone(s, isSep);
    }
  }


  /**
   * A text that neither starts nor ends with a separator splits into
   * pieces that are all non-empty: with single separators, exactly the
   * maximal runs of other characters.
   */
  lemma {:induction false} SplitRunsNonEmpty(s: string, isSep: char -> bool)
    requires s != [] && !isSep(s[0]) && !isSep(s[|s| - 1])
    ensures forall p :: p in SplitRuns(s, isSep, 1) ==> p != []
    decreases |s|
  {
    var first := FirstRun(s, isSep, 1, 0);
    if first.Some? {
      var k := first.value;
      var j := RunEnd(s, k, isSep);
      assert k > 0;
      assert j < |s|;
      assert SplitRuns(s, isSep, 1) == [s[..k]] + SplitRuns(s[j..], isSep, 1);
      SplitRunsNonEmpty(s[j..], isSep);
    }
  }

  /** `pieces.filter(Boolean)`: the non-empty pieces, in order. */
  function NonEmpty(pieces: seq<string>): (r: seq<string>)
    ensures |r| <= |pieces|
    ensures forall p :: p in r <==> p in pieces && p != []
  {
    if pieces == [] then []
    else (if pieces[0] != [] then [pieces[0]] else []) + NonEmpty(pieces[1..])
  }

  /** Dropping empty pieces does not change what they concatenate to. */
  lemma {:induction false} ConcatNonEmpty(pieces: seq<string>)
    ensures Concat(NonEmpty(pieces)) == Concat(pieces)
  {
    if pieces != [] {
      ConcatNonEmpty(pieces[1..]);
      var rest := NonEmpty(pieces[1..]);
      if pieces[0] != [] {
        assert NonEmpty(pieces) == [pieces[0]] + rest;
        assert NonEmpty(pieces)[1..] == rest;
      } else {
        assert NonEmpty(pieces) == [] + rest == rest;
        assert Concat(pieces) == [] + Concat(pieces[1..]) == Concat(pieces[1..]);
      }
    }
  }

  /** Filtering pieces that are already non-empty keeps them all. */
  lemma {:induction false} NonEmptyKeepsAll(pieces: seq<string>)
    requires forall p :: p in pieces ==> p != []
    ensures NonEmpty(pieces) == pieces
  {
    if pieces != [] {
      assert forall p :: p in pieces[1..] ==> p in pieces;
      assert pieces[0] in pieces;
      NonEmptyKeepsAll(pieces[1..]);
      assert pieces == [pieces[0]] + pieces[1..];
    }
  }

  // ------------------------------------------------------------ statistics

  predicate IsSentenceEnd(c: char) { c == '.' || c == '!' || c == '?' }

  predicate IsNewline(c: char) { c == '\n' }

  datatype Stats = Stats(
    characters: nat,
    charactersNoSpaces: nat,
    words: nat,
    lines: nat,
    sentences: nat,
    paragraphs: nat)

  /** The `words` figure: the pieces of the trimmed text split at whitespace runs, or 0. */
  function Words(text: string): nat
  {
    var t := Trim(text);
    if t != [] then |SplitRuns(t, IsSpace, 1)| else 0
  }

  /** The `lines` figure: the pieces of the text split at each `\n`, or 0 for an empty text. */
  function Lines(text: string): nat
  {
    if text != [] then |Split(text, '\n')| else 0
  }

  /** The `sentences` figure: the non-empty pieces of the text split at runs of `.`, `!` and `?`. */
  function Sentences(text: string): nat
  {
    if Trim(text) != [] then |NonEmpty(SplitRuns(text, IsSentenceEnd, 1))| else 0
  }

  /** The `paragraphs` figure: the non-empty pieces of the text split at runs of two or more `\n`. */
  function Paragraphs(text: string): nat
  {
    if Trim(text) != [] then |NonEmpty(SplitRuns(text, IsNewline, 2))| else 0
  }

  /** `stats`. */
  function StatsOf(text: string): Stats
  {
    Stats(|text|, |Remove(text, IsSpace)|, Words(text), Lines(text), Sentences(text), Paragraphs(text))
  }

  /** The character counts: the non-whitespace count never exceeds the length. */
  lemma CharacterCounts(text: string)
    ensures StatsOf(text).characters == |text|
    ensures StatsOf(text).charactersNoSpaces <= StatsOf(text).characters
    ensures (forall i :: 0 <= i < |text| ==> !IsSpace(text[i])) ==> StatsOf(text).charactersNoSpaces == |text|
  {
    if forall i :: 0 <= i < |text| ==> !IsSpace(text[i]) {
      RemoveNone(text, IsSpace);
    }
  }

  /** Trimming removes only whitespace, so it keeps the non-whitespace characters. */
  lemma RemoveTrimmed(text: string)
    ensures Remove(Trim(text), IsSpace) == Remove(text, IsSpace)
  {
    TrimSlice(text);
    var t := Trim(text);
    var k := Lead(text);
    var m := k + |t|;
    var a, c := text[..k], text[m..];
    assert text[..m] == a + text[k..m];
    assert text == text[..m] + c;
    assert text == a + t + c;
    RemoveAll(a, IsSpace);
    RemoveAll(c, IsSpace);
    RemoveAppend(a, t, IsSpace);
    assert Remove(a + t, IsSpace) == Remove(t, IsSpace);
    RemoveAppend(a + t, c, IsSpace);
  }

  /**
   * `words` is 0 exactly for a blank text. Otherwise the trimmed text is
   * the words with non-empty whitespace runs between them, and each word
   * is non-empty and holds no whitespace: the words are the text's
   * maximal non-whitespace runs, in order, and together they are its
   * non-whitespace characters.
   */
  lemma WordsAreRuns(text: string)
    ensures Words(text) == 0 <==> forall i :: 0 <= i < |text| ==> IsSpace(text[i])
    ensures var t := Trim(text); t != [] ==>
      var words, gaps := SplitRuns(t, IsSpace, 1), SepRuns(t, IsSpace, 1);
      && Words(text) == |words|
      && Interleave(words, gaps) == t
      && (forall w :: w in words ==> w != [] && forall i :: 0 <= i < |w| ==> !IsSpace(w[i]))
      && (forall g :: g in gaps ==> g != [] && forall i :: 0 <= i < |g| ==> IsSpace(g[i]))
      && Concat(words) == Remove(text, IsSpace)
  {
    TrimEnds(text);
    var t := Trim(text);
    if t != [] {
      var words := SplitRuns(t, IsSpace, 1);
      SplitRunsNonEmpty(t, IsSpace);
      forall w, i | w in words && 0 <= i < |w| ensures !IsSpace(w[i]) {
        assert !RunAt(w, i, IsSpace, 1);
      }
      SplitRunsInterleave(t, IsSpace, 1);
      ConcatSplitRuns(t, IsSpace);
      RemoveTrimmed(text);
    }
  }

  /** `lines` is 0 for an empty text and one more than the number of `\n` otherwise. */
  lemma LinesCount(text: string)
    ensures text == [] ==> Lines(text) == 0
    ensures text != [] ==> Lines(text) == Occurrences(text, '\n') + 1
  {
    SplitCount(text, '\n');
  }

  /**
   * `sentences` is 0 for a blank text. Otherwise the text is the pieces
   * with non-empty runs of `.`, `!` and `?` between them; each piece holds
   * none of those characters, the sentences are the non-empty pieces in
   * order, and together they are the text without those characters.
   */
  lemma SentencesAreRuns(text: string)
    ensures Trim(text) == [] ==> Sentences(text) == 0
    ensures Trim(text) != [] ==>
      var pieces, ends := SplitRuns(text, IsSentenceEnd, 1), SepRuns(text, IsSentenceEnd, 1);
      var sentences := NonEmpty(pieces);
      && Sentences(text) == |sentences|
      && Interleave(pieces, ends) == text
      && (forall p :: p in pieces ==> forall i :: 0 <= i < |p| ==> !IsSentenceEnd(p[i]))
      && (forall e :: e in ends ==> e != [] && forall i :: 0 <= i < |e| ==> IsSentenceEnd(e[i]))
      && (forall p :: p in sentences <==> p in pieces && p != [])
      && Concat(sentences) == Remove(text, IsSentenceEnd)
  {
    var pieces := SplitRuns(text, IsSentenceEnd, 1);
    forall p, i | p in pieces && 0 <= i < |p| ensures !IsSentenceEnd(p[i]) {
      assert !RunAt(p, i, IsSentenceEnd, 1);
    }
    SplitRunsInterleave(text, IsSentenceEnd, 1);
    ConcatNonEmpty(pieces);
    ConcatSplitRuns(text, IsSentenceEnd);
  }

  /**
   * `paragraphs` is 0 for a blank text and at least 1 otherwise. The text
   * is the pieces with runs of two or more `\n` between them; each piece
   * holds no two consecutive `\n`, and the paragraphs are the non-empty
   * pieces in order.
   */
  lemma ParagraphsShape(text: string)
    ensures Trim(text) == [] ==> Paragraphs(text) == 0
    ensures Trim(text) != [] ==>
      var pieces, breaks := SplitRuns(text, IsNewline, 2), SepRuns(text, IsNewline, 2);
      var paragraphs := NonEmpty(pieces);
      && Paragraphs(text) == |paragraphs| >= 1
      && Interleave(pieces, breaks) == text
      && (forall p :: p in pieces ==> forall i, j :: 0 <= i && j == i + 1 && j < |p| ==> !(p[i] == '\n' && p[j] == '\n'))
      && (forall b :: b in breaks ==> |b| >= 2 && forall i :: 0 <= i < |b| ==> b[i] == '\n')
      && (forall p :: p in paragraphs <==> p in pieces && p != [])
  {
    var pieces := SplitRuns(text, IsNewline, 2);
    forall p, i, j | p in pieces && 0 <= i && j == i + 1 && j < |p| ensures !(p[i] == '\n' && p[j] == '\n') {
      assert !RunAt(p, i, IsNewline, 2);
    }
    SplitRunsInterleave(text, IsNewline, 2);
    if Trim(text) != [] {
      TrimEnds(text);
      var i :| 0 <= i < |text| && !IsSpace(text[i]);
      SplitRunsKeeps(text, IsNewline, 2, i);
      var p :| p in pieces && p != [];
      assert p in NonEmpty(pieces);
    }
  }

  // ------------------------------------------------------------ transforms

  /** `\b\w` matches at `i`: a word character that starts the text or follows a non-word character. */
  predicate WordStart(s: string, i: nat)
    requires i < |s|
  {
    IsWordChar(s[i]) && (i == 0 || !IsWordChar(s[i - 1]))
  }

  /** Upper-casing keeps word characters and non-word characters apart. */
  lemma UpperKeepsWordChar(c: char)
    ensures IsWordChar(ToUpper(c)) == IsWordChar(c)
    ensures ToUpper(ToUpper(c)) == ToUpper(c)
  {
  }

  /** The character at `i` after `text.replace(/\b\w/g, c => c.toUpperCase())`. */
  function CapitalizedAt(s: string, i: nat): char
    requires i < |s|
  {
    if WordStart(s, i) then ToUpper(s[i]) else s[i]
  }

  /** `text.replace(/\b\w/g, c => c.toUpperCase())`. */
  function Capitalize(s: string): (r: string)
    ensures |r| == |s|
    ensures forall i :: 0 <= i < |s| ==> r[i] == CapitalizedAt(s, i)
  {
    seq(|s|, i requires 0 <= i < |s| => CapitalizedAt(s, i))
  }

  /** A word start is no longer lower-case, every other character is kept, and doing it twice is doing it once. */
  lemma CapitalizeSpec(s: string)
    ensures forall i :: 0 <= i < |s| && WordStart(s, i) ==> !IsLower(Capitalize(s)[i])
    ensures forall i :: 0 <= i < |s| && !WordStart(s, i) ==> Capitalize(s)[i] == s[i]
    ensures Capitalize(Capitalize(s)) == Capitalize(s)
  {
    var c := Capitalize(s);
    forall i | 0 <= i < |s| ensures IsWordChar(c[i]) == IsWordChar(s[i]) {
      UpperKeepsWordChar(s[i]);
    }
    forall i | 0 <= i < |s| ensures Capitalize(c)[i] == c[i] {
      assert WordStart(c, i) == WordStart(s, i);
      UpperKeepsWordChar(s[i]);
    }
  }

  /** The position of the last non-whitespace character before `i`, if any. */
  function PrevNonSpace(s: string, i: nat): (k: Option<nat>)
    requires i <= |s|
    ensures k.Some? ==> k.value < i && !IsSpace(s[k.value]) && forall t :: k.value < t < i ==> IsSpace(s[t])
    ensures k.None? ==> forall t :: 0 <= t < i ==> IsSpace(s[t])
  {
    if i == 0 then None
    else if !IsSpace(s[i - 1]) then Some(i - 1)
    else PrevNonSpace(s, i - 1)
  }

  /** A word character matched by `^\s*\w` or `[.!?]\s*\w`: only whitespace since the start or since a sentence end. */
  predicate StartsSentence(s: string, i: nat)
    requires i < |s|
  {
    && IsWordChar(s[i])
    && var k := PrevNonSpace(s, i); k.None? || IsSentenceEnd(s[k.value])
  }

  /** `text.toLowerCase().replace(/(^\s*\w|[.!?]\s*\w)/g, c => c.toUpperCase())`. */
  function SentenceCase(s: string): (r: string)
    ensures |r| == |s|
  {
    var l := LowerString(s);
    seq(|l|, i requires 0 <= i < |l| => if StartsSentence(l, i) then ToUpper(l[i]) else l[i])
  }

  /** Upper- and lower-casing keep whitespace and sentence ends where they are. */
  lemma SameClasses(a: string, b: string)
    requires |a| == |b|
    requires forall i :: 0 <= i < |a| ==> ToLower(a[i]) == ToLower(b[i])
    ensures forall i :: 0 <= i < |a| ==> StartsSentence(LowerString(a), i) == StartsSentence(LowerString(b), i)
  {
    assert LowerString(a) == LowerString(b);
  }

  /**
   * Sentence case: a letter upper-case in the result starts a sentence,
   * every letter that starts a sentence is upper-case, all other letters
   * are lower-case, and doing it twice is doing it once.
   */
  lemma SentenceCaseSpec(s: string)
    ensures var r := SentenceCase(s); var l := LowerString(s);
      forall i :: 0 <= i < |s| ==> (StartsSentence(l, i) ==> !IsLower(r[i])) && (!StartsSentence(l, i) ==> r[i] == l[i])
    ensures forall i :: 0 <= i < |s| ==> !IsUpper(SentenceCase(s)[i]) || StartsSentence(LowerString(s), i)
    ensures SentenceCase(SentenceCase(s)) == SentenceCase(s)
  {
    var r := SentenceCase(s);
    assert forall i :: 0 <= i < |s| ==> ToLower(r[i]) == ToLower(s[i]);
    SameClasses(r, s);
    assert LowerString(r) == LowerString(s);
  }

  /** `text.split("").reverse().join("")`. */
  function Reverse(s: string): (r: string)
    ensures |r| == |s|
    ensures forall i :: 0 <= i < |s| ==> r[i] == s[|s| - 1 - i]
  {
    seq(|s|, i requires 0 <= i < |s| => s[|s| - 1 - i])
  }

  /** Reversing twice gives the text back. */
  lemma ReverseInvolution(s: string)
    ensures Reverse(Reverse(s)) == s
  {
    assert forall i :: 0 <= i < |s| ==> Reverse(Reverse(s))[i] == s[i];
  }

  /**
   * `s.replace(/[class]+/g, sub)`: the text before the leftmost separator
   * run, one `sub` for the whole run, then the replacement in what
   * follows it.
   */
  function ReplaceRuns(s: string, isSep: char -> bool, sub: char): (r: string)
    ensures |r| <= |s|
    ensures r == [] <==> s == []
    decreases |s|
  {
    match FirstRun(s, isSep, 1, 0)
    case None => s
    case Some(k) =>
      var j := RunEnd(s, k, isSep);
      assert k < j by {
        assert RunAt(s, k, isSep, 1);
      }
      s[..k] + [sub] + ReplaceRuns(s[j..], isSep, sub)
  }

  /** `s.replace(/\s+/g, " ")`. */
  function Collapse(s: string): string
  {
    ReplaceRuns(s, IsSpace, ' ')
  }

  /** One copy of the one-character string `[c]` per gap. */
  function Copies(n: nat, c: char): (r: seq<string>)
    ensures |r| == n && forall g :: g in r ==> g == [c]
  {
    seq(n, _ => [c])
  }

  /**
   * Replacing runs is splitting at them and putting one `sub` back in each
   * gap: every maximal separator run becomes exactly one `sub`, and every
   * other character stays where it was.
   */
  lemma {:induction false} ReplaceRunsSplit(s: string, isSep: char -> bool, sub: char)
    ensures var pieces := SplitRuns(s, isSep, 1);
      ReplaceRuns(s, isSep, sub) == Interleave(pieces, Copies(|pieces| - 1, sub))
    decreases |s|
  {
    var first := FirstRun(s, isSep, 1, 0);
    if first.Some? {
      var k := first.value;
      var j := RunEnd(s, k, isSep);
      assert isSep(s[k]);
      var rest := s[j..];
      var tail := SplitRuns(rest, isSep, 1);
      var pieces := [s[..k]] + tail;
      assert SplitRuns(s, isSep, 1) == pieces;
      var gaps := Copies(|pieces| - 1, sub);
      assert gaps[0] == [sub] && gaps[1..] == Copies(|tail| - 1, sub);
      assert pieces[1..] == tail;
      assert Interleave(pieces, gaps) == s[..k] + [sub] + Interleave(tail, Copies(|tail| - 1, sub));
      ReplaceRunsSplit(rest, isSep, sub);
    }
  }

  /** Removing separators from a replaced text drops the `sub` that stands for the first run. */
  lemma RemoveReplacedFirst(s: string, isSep: char -> bool, sub: char)
    requires isSep(sub) && FirstRun(s, isSep, 1, 0).Some?
    ensures var k := FirstRun(s, isSep, 1, 0).value; var j := RunEnd(s, k, isSep);
      Remove(ReplaceRuns(s, isSep, sub), isSep) == s[..k] + Remove(ReplaceRuns(s[j..], isSep, sub), isSep)
  {
    var k := FirstRun(s, isSep, 1, 0).value;
    var j := RunEnd(s, k, isSep);
    var a, rest := s[..k], ReplaceRuns(s[j..], isSep, sub);
    assert ReplaceRuns(s, isSep, sub) == a + [sub] + rest;
    FirstRunParts(s, isSep);
    RemoveAround(a, [sub], rest, isSep);
  }

  /** When `sub` is a separator, replacing keeps the characters other than separators, in order. */
  lemma {:induction false} ReplaceKeepsText(s: string, isSep: char -> bool, sub: char)
    requires isSep(sub)
    ensures Remove(ReplaceRuns(s, isSep, sub), isSep) == Remove(s, isSep)
    decreases |s|
  {
    var first := FirstRun(s, isSep, 1, 0);
    if first.Some? {
      var j := RunEnd(s, first.value, isSep);
      RemoveFirstRun(s, isSep);
      RemoveReplacedFirst(s, isSep, sub);
      ReplaceKeepsText(s[j..], isSep, sub);
    } else {
      SplitRunsNone(s, isSep);
    }
  }

  /** Pieces without `c`, with one `c` between each two, hold exactly one `c` per gap. */
  lemma {:induction false} InterleaveCopies(pieces: seq<string>, c: char)
    requires |pieces| >= 1
    requires forall p :: p in pieces ==> c !in p
    ensures Occurrences(Interleave(pieces, Copies(|pieces| - 1, c)), c) == |pieces| - 1
  {
    if |pieces| > 1 {
      var gaps := Copies(|pieces| - 1, c);
      assert gaps[0] == [c] && gaps[1..] == Copies(|pieces| - 2, c);
      var rest := pieces[1..];
      assert forall p :: p in rest ==> p in pieces;
      InterleaveCopies(rest, c);
      var tail := Interleave(rest, Copies(|rest| - 1, c));
      assert pieces[0] in pieces;
      OccurrencesAppend(pieces[0], [c], c);
      assert Occurrences([c], c) == 1 by {
        assert [c][..0] == [];
      }
      OccurrencesAppend(pieces[0] + [c], tail, c);
    }
  }

  /** When `sub` is a separator, the result holds one `sub` per run the split cuts out. */
  lemma ReplaceCount(s: string, isSep: char -> bool, sub: char)
    requires isSep(sub)
    ensures Occurrences(ReplaceRuns(s, isSep, sub), sub) == |SepRuns(s, isSep, 1)|
  {
    ReplaceRunsSplit(s, isSep, sub);
    PiecesAvoid(s, isSep, sub);
    InterleaveCopies(SplitRuns(s, isSep, 1), sub);
  }

  /** No piece of the split holds a separator. */
  lemma PiecesAvoid(s: string, isSep: char -> bool, sub: char)
    requires isSep(sub)
    ensures forall p :: p in SplitRuns(s, isSep, 1) ==> sub !in p
  {
    forall p, i | p in SplitRuns(s, isSep, 1) && 0 <= i < |p| ensures p[i] != sub {
      assert !RunAt(p, i, isSep, 1);
    }
  }

  /**
   * When `sub` is a separator, the only separator left is `sub`, no two
   * separators are adjacent, and the result starts and ends with a
   * separator exactly when the text does.
   */
  lemma {:induction false} ReplaceShape(s: string, isSep: char -> bool, sub: char)
    requires isSep(sub)
    ensures var r := ReplaceRuns(s, isSep, sub);
      && (forall i :: 0 <= i < |r| && isSep(r[i]) ==> r[i] == sub)
      && (forall i, j :: 0 <= i && j == i + 1 && j < |r| ==> !(isSep(r[i]) && isSep(r[j])))
      && (s != [] ==> (isSep(r[0]) <==> isSep(s[0])))
      && (s != [] ==> (isSep(r[|r| - 1]) <==> isSep(s[|s| - 1])))
    decreases |s|
  {
    var first := FirstRun(s, isSep, 1, 0);
    if first.Some? {
      var k := first.value;
      var j := RunEnd(s, k, isSep);
      FirstRunParts(s, isSep);
      var rest := s[j..];
      var tail := ReplaceRuns(rest, isSep, sub);
      assert ReplaceRuns(s, isSep, sub) == s[..k] + [sub] + tail;
      ReplaceShape(rest, isSep, sub);
      ReplaceShapeJoin(s[..k], sub, tail, isSep);
      assert rest != [] ==> rest[0] == s[j] && rest[|rest| - 1] == s[|s| - 1];
      assert rest == [] ==> isSep(s[|s| - 1]);
      assert k > 0 ==> s[..k][0] == s[0];
    } else {
      SplitRunsNone(s, isSep);
    }
  }

  /** Separator-free text, one separator `sub`, then a shaped tail that starts with a non-separator: still shaped. */
  lemma ReplaceShapeJoin(a: string, sub: char, tail: string, isSep: char -> bool)
    requires isSep(sub)
    requires forall t :: 0 <= t < |a| ==> !isSep(a[t])
    requires forall i :: 0 <= i < |tail| && isSep(tail[i]) ==> tail[i] == sub
    requires forall i, j :: 0 <= i && j == i + 1 && j < |tail| ==> !(isSep(tail[i]) && isSep(tail[j]))
    requires tail != [] ==> !isSep(tail[0])
    ensures var r := a + [sub] + tail;
      && (forall i :: 0 <= i < |r| && isSep(r[i]) ==> r[i] == sub)
      && (forall i, j :: 0 <= i && j == i + 1 && j < |r| ==> !(isSep(r[i]) && isSep(r[j])))
      && (isSep(r[0]) <==> a == [])
      && r[|r| - 1] == (if tail == [] then sub else tail[|tail| - 1])
  {
    var r := a + [sub] + tail;
    forall i | 0 <= i < |r| && isSep(r[i]) ensures r[i] == sub {
      if i > |a| {
        assert r[i] == tail[i - |a| - 1];
      }
    }
    forall i, j | 0 <= i && j == i + 1 && j < |r| ensures !(isSep(r[i]) && isSep(r[j])) {
      if j > |a| + 1 {
        assert r[i] == tail[i - |a| - 1] && r[j] == tail[j - |a| - 1];
      } else if j == |a| + 1 {
        assert r[j] == tail[0];
      } else {
        assert r[i] == a[i];
      }
    }
  }

  /** A text with no separator run longer than one, and only `sub` as separator, is its own replacement. */
  lemma {:induction false} ReplaceFixed(s: string, isSep: char -> bool, sub: char)
    requires forall i :: 0 <= i < |s| && isSep(s[i]) ==> s[i] == sub
    requires forall i, j :: 0 <= i && j == i + 1 && j < |s| ==> !(isSep(s[i]) && isSep(s[j]))
    ensures ReplaceRuns(s, isSep, sub) == s
    decreases |s|
  {
    var first := FirstRun(s, isSep, 1, 0);
    if first.Some? {
      var k := first.value;
      assert isSep(s[k]);
      assert RunEnd(s, k, isSep) == k + 1 by {
        assert k + 1 < |s| ==> !isSep(s[k + 1]);
        assert RunEnd(s, k, isSep) == RunEnd(s, k + 1, isSep);
      }
      var rest := s[k + 1..];
      assert forall i :: 0 <= i < |rest| ==> rest[i] == s[k + 1 + i];
      ReplaceFixed(rest, isSep, sub);
      assert s == s[..k] + [sub] + rest;
    }
  }

  /**
   * `replace(/\s+/g, " ")` is the split at whitespace runs with one space
   * in each gap: it keeps every other character in order and holds one
   * space per whitespace run.
   */
  lemma CollapseRuns(s: string)
    ensures var pieces := SplitRuns(s, IsSpace, 1);
      Collapse(s) == Interleave(pieces, Copies(|pieces| - 1, ' '))
    ensures Remove(Collapse(s), IsSpace) == Remove(s, IsSpace)
    ensures Occurrences(Collapse(s), ' ') == |SepRuns(s, IsSpace, 1)|
  {
    ReplaceRunsSplit(s, IsSpace, ' ');
    ReplaceKeepsText(s, IsSpace, ' ');
    ReplaceCount(s, IsSpace, ' ');
  }

  /**
   * The only whitespace left by `replace(/\s+/g, " ")` is single spaces,
   * and the result starts and ends with whitespace exactly when the text does.
   */
  lemma CollapseShape(s: string)
    ensures var r := Collapse(s);
      && (forall i :: 0 <= i < |r| && IsSpace(r[i]) ==> r[i] == ' ')
      && (forall i, j :: 0 <= i && j == i + 1 && j < |r| ==> !(IsSpace(r[i]) && IsSpace(r[j])))
      && (s != [] ==> (IsSpace(r[0]) <==> IsSpace(s[0])))
      && (s != [] ==> (IsSpace(r[|r| - 1]) <==> IsSpace(s[|s| - 1])))
  {
    ReplaceShape(s, IsSpace, ' ');
  }

  /** The `trim` transform: `text.trim().replace(/\s+/g, " ")`. */
  function TrimAndCollapse(s: string): string
  {
    Collapse(Trim(s))
  }

  /** The `trim` transform leaves no whitespace at either end and only single spaces inside. */
  lemma TrimAndCollapseShape(s: string)
    ensures var r := TrimAndCollapse(s);
      && (r != [] ==> !IsSpace(r[0]) && !IsSpace(r[|r| - 1]))
      && (forall i :: 0 <= i < |r| && IsSpace(r[i]) ==> r[i] == ' ')
      && (forall i, j :: 0 <= i && j == i + 1 && j < |r| ==> !(IsSpace(r[i]) && IsSpace(r[j])))
  {
    TrimEnds(s);
    ReplaceShape(Trim(s), IsSpace, ' ');
  }

  /**
   * The `trim` transform is the words of the statistics joined by single
   * spaces: it keeps every character other than whitespace, in order,
   * and holds one space fewer than there are words.
   */
  lemma TrimAndCollapseWords(text: string)
    ensures var words := SplitRuns(Trim(text), IsSpace, 1);
      TrimAndCollapse(text) == Interleave(words, Copies(|words| - 1, ' '))
    ensures Remove(TrimAndCollapse(text), IsSpace) == Remove(text, IsSpace)
    ensures Trim(text) != [] ==> Occurrences(TrimAndCollapse(text), ' ') == Words(text) - 1
  {
    var t := Trim(text);
    ReplaceRunsSplit(t, IsSpace, ' ');
    ReplaceKeepsText(t, IsSpace, ' ');
    RemoveTrimmed(text);
    ReplaceCount(t, IsSpace, ' ');
  }

  /** Applying the `trim` transform again changes nothing. */
  lemma TrimAndCollapseIdempotent(s: string)
    ensures TrimAndCollapse(TrimAndCollapse(s)) == TrimAndCollapse(s)
  {
    var r := TrimAndCollapse(s);
    assert Trim(r) == r by {
      TrimAndCollapseShape(s);
      TrimFixed(r);
    }
    assert Collapse(r) == r by {
      TrimAndCollapseShape(s);
      ReplaceFixed(r, IsSpace, ' ');
    }
  }

  /** The fixed placeholder text of the `lorem` transform. */
  const Lorem: string := "Lorem ipsum dolor sit amet, consectetur adipiscing elit. Sed do eiusmod tempor incididunt ut labore et dolore magna aliqua. Ut enim ad minim veniam, quis nostrud exercitation ullamco laboris nisi ut aliquip ex ea commodo consequat. Duis aute irure dolor in reprehenderit in voluptate velit esse cillum dolore eu fugiat nulla pariatur. Excepteur sint occaecat cupidatat non proident, sunt in culpa qui officia deserunt mollit anim id est laborum."

  /** The cases of the `transform` switch. */
  datatype Kind = Upper | Lower | Capitalized | Sentence | Reversed | Trimmed | LoremIpsum

  /** The `type` argument of `transform`: a known case name, or `None` for any other text. */
  function KindOf(name: string): (k: Option<Kind>)
    ensures k.Some? <==> name in {"upper", "lower", "capitalize", "sentence", "reverse", "trim", "lorem"}
  {
    if name == "upper" then Some(Upper)
    else if name == "lower" then Some(Lower)
    else if name == "capitalize" then Some(Capitalized)
    else if name == "sentence" then Some(Sentence)
    else if name == "reverse" then Some(Reversed)
    else if name == "trim" then Some(Trimmed)
    else if name == "lorem" then Some(LoremIpsum)
    else None
  }

  /** The new text for each case of the switch. */
  function Transformed(text: string, kind: Kind): string
  {
    match kind
    case Upper => UpperString(text)
    case Lower => LowerString(text)
    case Capitalized => Capitalize(text)
    case Sentence => SentenceCase(text)
    case Reversed => Reverse(text)
    case Trimmed => TrimAndCollapse(text)
    case LoremIpsum => Lorem
  }

  /** Every transform but `reverse` is idempotent, and `reverse` undoes itself. */
  lemma TransformTwice(text: string, kind: Kind)
    ensures Transformed(Transformed(text, kind), kind) == if kind == Reversed then text else Transformed(text, kind)
  {
    match kind
    case Upper => UpperStringIdempotent(text);
    case Lower => LowerStringIdempotent(text);
    case Capitalized => CapitalizeSpec(text);
    case Sentence => SentenceCaseSpec(text);
    case Reversed => ReverseInvolution(text);
    case Trimmed => TrimAndCollapseIdempotent(text);
    case LoremIpsum =>
  }

  class TextPage {
    var text: string

    constructor ()
      ensures text == ""
    {
      text := "";
    }

    /** The statistics panel for the current text. */
    function Stats(): Stats
      reads this
    {
      StatsOf(text)
    }

    /** `transform(type)`: overwrite the text with the chosen transform of it; any other `type` changes nothing. */
    method Transform(name: string)
      modifies this
      ensures KindOf(name).Some? ==> text == Transformed(old(text), KindOf(name).value)
      ensures KindOf(name).None? ==> text == old(text)
    {
      match KindOf(name)
      case None =>
      case Some(Upper) => text := UpperString(text);
      case Some(Lower) => text := LowerString(text);
      case Some(Capitalized) => text := Capitalize(text);
      case Some(Sentence) => text := SentenceCase(text);
      case Some(Reversed) => text := Reverse(text);
      case Some(Trimmed) => text := TrimAndCollapse(text);
      case Some(LoremIpsum) => text := Lorem;
    }
  }
}
