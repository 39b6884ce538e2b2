/**
 * The spelling suggestions of WordChecker.cpp over a dictionary taken as a
 * set of strings. `FindSuggestions` runs the source's five loops, each
 * candidate a copy of the word changed in one place; its result is proved
 * equal to `Suggestions`, a fold over the list of all candidates in the order
 * the loops produce them, and the lemmas state what that fold returns.
 */
module WordChecker {
  import opened Sequences

  const Letters: string := "ABCDEFGHIJKLMNOPQRSTUVWXYZ"

  /** A candidate tested on its own, or the two pieces of the split phase,
      which are kept only when both are words. */
  datatype Candidate = Single(word: string) | Split(first: string, second: string)

  /** WordChecker.cpp:20-23. */
  function WordExists(words: set<string>, word: string): (b: bool)
    ensures b <==> word in words
  {
    word in words
  }

  /** `std::string::substr(pos, len)`: at most `len` characters from `pos`. */
  function SubStr(s: string, pos: nat, len: nat): (r: string)
    requires pos <= |s|
    ensures |r| == if pos + len <= |s| then len else |s| - pos
    ensures forall k :: 0 <= k < |r| ==> r[k] == s[pos + k]
  {
    if pos + len <= |s| then s[pos..pos + len] else s[pos..]
  }

  /** `push_back` unless `std::find` already sees the string. */
  function PushIfNew(acc: seq<string>, s: string): seq<string>
  {
    if s in acc then acc else acc + [s]
  }

  /** One candidate's effect on the suggestions (WordChecker.cpp:41-47, 59-65,
      77-83, 94-100, 110-120). */
  function Step(words: set<string>, acc: seq<string>, c: Candidate): seq<string>
  {
    match c
    case Single(s) => if s in words then PushIfNew(acc, s) else acc
    case Split(a, b) => if b in words && a in words then PushIfNew(PushIfNew(acc, a), b) else acc
  }

  /** Every candidate of `cs`, in order, applied to `acc`. */
  function Fold(words: set<string>, acc: seq<string>, cs: seq<Candidate>): seq<string>
  {
    if |cs| == 0 then acc else Step(words, Fold(words, acc, cs[..|cs| - 1]), cs[|cs| - 1])
  }

  // ---------------------------------------------------------------------------
  // The candidates of each phase, in loop order

  /** WordChecker.cpp:36-39: the word with character `i` erased. */
  function Deletions(w: string): seq<Candidate>
  {
    seq(|w|, i requires 0 <= i < |w| => Single(w[..i] + w[i + 1..]))
  }

  /** WordChecker.cpp:54-57: position `i` replaced by each letter A-Z. */
  function ReplaceRow(w: string, i: nat): seq<Candidate>
    requires i < |w|
  {
    seq(|Letters|, j requires 0 <= j < |Letters| => Single(w[i := Letters[j]]))
  }

  /** WordChecker.cpp:52-67: the rows of positions `0 .. n-1`. */
  function Replacements(w: string, n: nat): seq<Candidate>
    requires n <= |w|
  {
    if n == 0 then [] else Replacements(w, n - 1) + ReplaceRow(w, n - 1)
  }

  /** WordChecker.cpp:70-84: characters `i` and `i+1` swapped. The source's
      loop also runs `i = |w| - 1`, which reads and writes one past the last
      character (WordChecker.cpp:74-75); the model stops at `i + 1 < |w|`. */
  function Swaps(w: string): seq<Candidate>
    requires |w| >= 1
  {
    seq(|w| - 1, i requires 0 <= i < |w| - 1 => Single(w[i := w[i + 1]][i + 1 := w[i]]))
  }

  /** WordChecker.cpp:89-92: each letter inserted before character `i`. */
  function InsertRow(w: string, i: nat): seq<Candidate>
    requires i < |w|
  {
    seq(|Letters|, j requires 0 <= j < |Letters| => Single(w[..i] + [Letters[j]] + w[i..]))
  }

  /** WordChecker.cpp:87-102: the rows of positions `0 .. n-1`; nothing is
      ever inserted after the last character. */
  function Insertions(w: string, n: nat): seq<Candidate>
    requires n <= |w|
  {
    if n == 0 then [] else Insertions(w, n - 1) + InsertRow(w, n - 1)
  }

  /** WordChecker.cpp:105-108: `word.substr(i, i + 1)` -- i+1 characters from
      position i, not the prefix of length i+1 -- and `word.substr(i + 1)`. */
  function Splits(w: string): seq<Candidate>
    requires |w| >= 1
  {
    seq(|w| - 1, i requires 0 <= i < |w| - 1 => Split(SubStr(w, i, i + 1), w[i + 1..]))
  }

  function Candidates(w: string): seq<Candidate>
    requires |w| >= 1
  {
    Deletions(w) + Replacements(w, |w|) + Swaps(w) + Insertions(w, |w|) + Splits(w)
  }

  /** What `findSuggestions` returns. */
  function Suggestions(words: set<string>, w: string): seq<string>
    requires |w| >= 1
  {
    Fold(words, [], Candidates(w))
  }

  // ---------------------------------------------------------------------------
  // The method

  /** What `findSuggestions` does: return the list, or throw
      `std::out_of_range`. */
  datatype Outcome = OutOfRange | Returned(suggestions: seq<string>)

  /** WordChecker.cpp:26-125. For the empty word the first four loops do
      nothing, `word.size() - 1` wraps around, and the split loop's first
      `word.substr(1, ...)` starts past the end and throws. */
  method FindSuggestions(words: set<string>, word: string) returns (r: Outcome)
    ensures r.OutOfRange? <==> |word| == 0
    ensures r.Returned? ==> r.suggestions == Suggestions(words, word)
    ensures r.Returned? ==> forall s :: s in r.suggestions ==> s in words
    ensures r.Returned? ==> Distinct(r.suggestions)
  {
    if |word| == 0 {
      return OutOfRange;
    }
    var suggestions := DeletePhase(words, word, []);
    suggestions := ReplacePhase(words, word, suggestions);
    suggestions := SwapPhase(words, word, suggestions);
    suggestions := InsertPhase(words, word, suggestions);
    suggestions := SplitPhase(words, word, suggestions);
    PhasesCompose(words, word);
    SuggestionsAreWords(words, word);
    SuggestionsAreDistinct(words, word);
    return Returned(suggestions);
  }

  /** WordChecker.cpp:36-48. */
  method DeletePhase(words: set<string>, word: string, acc: seq<string>) returns (r: seq<string>)
    ensures r == Fold(words, acc, Deletions(word))
  {
    var cs := Deletions(word);
    r := acc;
    var i := 0;
    while i < |word|
      invariant 0 <= i <= |word|
      invariant r == Fold(words, acc, cs[..i])
    {
      var bob := word[..i] + word[i + 1..];
      if bob in words {
        if bob !in r {
          r := r + [bob];
        }
      }
      assert cs[..i + 1][..i] == cs[..i];
      i := i + 1;
    }
    assert cs[..i] == cs;
  }

  /** WordChecker.cpp:51-67. */
  method ReplacePhase(words: set<string>, word: string, acc: seq<string>) returns (r: seq<string>)
    ensures r == Fold(words, acc, Replacements(word, |word|))
  {
    r := acc;
    var i := 0;
    while i < |word|
      invariant 0 <= i <= |word|
      invariant r == Fold(words, acc, Replacements(word, i))
    {
      ghost var before := r;
      var row := ReplaceRow(word, i);
      var j := 0;
      while j < |Letters|
        invariant 0 <= j <= |Letters|
        invariant r == Fold(words, before, row[..j])
      {
        var bob := word[i := Letters[j]];
        if bob in words {
          if bob !in r {
            r := r + [bob];
          }
        }
        assert row[..j + 1][..j] == row[..j];
        j := j + 1;
      }
      assert row[..j] == row;
      FoldAppend(words, acc, Replacements(word, i), row);
      i := i + 1;
    }
  }

  /** WordChecker.cpp:70-84, bounded at `i + 1 < |word|`. */
  method SwapPhase(words: set<string>, word: string, acc: seq<string>) returns (r: seq<string>)
    requires |word| >= 1
    ensures r == Fold(words, acc, Swaps(word))
  {
    var cs := Swaps(word);
    r := acc;
    var i := 0;
    while i + 1 < |word|
      invariant 0 <= i <= |word| - 1
      invariant r == Fold(words, acc, cs[..i])
    {
      var bob := word;
      var tim := bob[i];
      bob := bob[i := bob[i + 1]];
      bob := bob[i + 1 := tim];
      if bob in words {
        if bob !in r {
          r := r + [bob];
        }
      }
      assert cs[..i + 1][..i] == cs[..i];
      i := i + 1;
    }
    assert cs[..i] == cs;
  }

  /** WordChecker.cpp:87-102. */
  method InsertPhase(words: set<string>, word: string, acc: seq<string>) returns (r: seq<string>)
    ensures r == Fold(words, acc, Insertions(word, |word|))
  {
    r := acc;
    var i := 0;
    while i < |word|
      invariant 0 <= i <= |word|
      invariant r == Fold(words, acc, Insertions(word, i))
    {
      ghost var before := r;
      var row := InsertRow(word, i);
      var j := 0;
      while j < |Letters|
        invariant 0 <= j <= |Letters|
        invariant r == Fold(words, before, row[..j])
      {
        var bob := word[..i] + [Letters[j]] + word[i..];
        if bob in words {
          if bob !in r {
            r := r + [bob];
          }
        }
        assert row[..j + 1][..j] == row[..j];
        j := j + 1;
      }
      assert row[..j] == row;
      FoldAppend(words, acc, Insertions(word, i), row);
      i := i + 1;
    }
  }

  /** WordChecker.cpp:104-122. */
  method SplitPhase(words: set<string>, word: string, acc: seq<string>) returns (r: seq<string>)
    requires |word| >= 1
    ensures r == Fold(words, acc, Splits(word))
  {
    var cs := Splits(word);
    r := acc;
    var i := 0;
    while i < |word| - 1
      invariant 0 <= i <= |word| - 1
      invariant r == Fold(words, acc, cs[..i])
    {
      var bob := SubStr(word, i, i + 1);
      var bob2 := word[i + 1..];
      if bob2 in words && bob in words {
        if bob !in r {
          r := r + [bob];
        }
        if bob2 !in r {
          r := r + [bob2];
        }
      }
      assert cs[..i + 1][..i] == cs[..i];
      i := i + 1;
    }
    assert cs[..i] == cs;
  }

  // ---------------------------------------------------------------------------
  // Lemmas about the fold

  lemma {:induction false} FoldAppend(words: set<string>, acc: seq<string>, xs: seq<Candidate>, ys: seq<Candidate>)
    ensures Fold(words, acc, xs + ys) == Fold(words, Fold(words, acc, xs), ys)
  {
    if |ys| == 0 {
      assert xs + ys == xs;
    } else {
      var ys' := ys[..|ys| - 1];
      assert (xs + ys)[..|xs + ys| - 1] == xs + ys';
      FoldAppend(words, acc, xs, ys');
    }
  }

  /** Running the five loops one after another is the fold over all
      candidates. */
  lemma PhasesCompose(words: set<string>, w: string)
    requires |w| >= 1
    ensures Suggestions(words, w) ==
      Fold(words, Fold(words, Fold(words, Fold(words, Fold(words, [],
        Deletions(w)), Replacements(w, |w|)), Swaps(w)), Insertions(w, |w|)), Splits(w))
  {
    var d, rp, sw, ins, sp := Deletions(w), Replacements(w, |w|), Swaps(w), Insertions(w, |w|), Splits(w);
    FoldAppend(words, [], d + rp + sw + ins, sp);
    FoldAppend(words, [], d + rp + sw, ins);
    FoldAppend(words, [], d + rp, sw);
    FoldAppend(words, [], d, rp);
  }

  /** The strings a candidate can contribute. */
  function Strings(c: Candidate): set<string>
  {
    match c
    case Single(s) => {s}
    case Split(a, b) => {a, b}
  }

  /** Everything the fold adds is a word and comes from one of the candidates. */
  lemma {:induction false} FoldSound(words: set<string>, acc: seq<string>, cs: seq<Candidate>, s: string)
    requires s in Fold(words, acc, cs)
    ensures s in acc || (s in words && exists k :: 0 <= k < |cs| && s in Strings(cs[k]))
  {
    if |cs| > 0 {
      var p := cs[..|cs| - 1];
      var c := cs[|cs| - 1];
      if s in Fold(words, acc, p) {
        FoldSound(words, acc, p, s);
        if s !in acc {
          var k :| 0 <= k < |p| && s in Strings(p[k]);
          assert cs[k] == p[k];
        }
      } else {
        assert s in Strings(cs[|cs| - 1]);
      }
    }
  }

  lemma {:induction false} FoldDistinct(words: set<string>, acc: seq<string>, cs: seq<Candidate>)
    requires Distinct(acc)
    ensures Distinct(Fold(words, acc, cs))
  {
    if |cs| > 0 {
      FoldDistinct(words, acc, cs[..|cs| - 1]);
      var before := Fold(words, acc, cs[..|cs| - 1]);
      forall a: seq<string>, s | Distinct(a) ensures Distinct(PushIfNew(a, s)) {
        if s !in a {
          var r := a + [s];
          forall i, j | 0 <= i < j < |r| ensures r[i] != r[j] {
            if j == |a| {
              assert r[i] == a[i];
            }
          }
        }
      }
    }
  }

  /** What the fold already holds stays in it. */
  lemma {:induction false} FoldKeeps(words: set<string>, acc: seq<string>, cs: seq<Candidate>, s: string)
    requires s in acc
    ensures s in Fold(words, acc, cs)
  {
    if |cs| > 0 {
      FoldKeeps(words, acc, cs[..|cs| - 1], s);
    }
  }

  /** A candidate that is a word (for a split: both of whose pieces are words)
      ends up in the result. */
  lemma {:induction false} FoldComplete(words: set<string>, acc: seq<string>, cs: seq<Candidate>, k: nat)
    requires k < |cs|
    requires cs[k].Single? ==> cs[k].word in words
    requires cs[k].Split? ==> cs[k].first in words && cs[k].second in words
    ensures forall s :: s in Strings(cs[k]) ==> s in Fold(words, acc, cs)
  {
    var p := cs[..|cs| - 1];
    if k < |cs| - 1 {
      assert p[k] == cs[k];
      FoldComplete(words, acc, p, k);
      forall s | s in Strings(cs[k]) ensures s in Fold(words, acc, cs) {
        FoldKeeps(words, Fold(words, acc, p), [cs[|cs| - 1]], s);
        assert [cs[|cs| - 1]] == cs[|cs| - 1..];
        FoldAppend(words, acc, p, [cs[|cs| - 1]]);
        assert p + [cs[|cs| - 1]] == cs;
      }
    }
  }

  // ---------------------------------------------------------------------------
  // What findSuggestions returns

  /** Every suggestion is a word of the dictionary. */
  lemma SuggestionsAreWords(words: set<string>, w: string)
    requires |w| >= 1
    ensures forall s :: s in Suggestions(words, w) ==> s in words
  {
    forall s | s in Suggestions(words, w) ensures s in words {
      FoldSound(words, [], Candidates(w), s);
    }
  }

  /** No suggestion is listed twice. */
  lemma SuggestionsAreDistinct(words: set<string>, w: string)
    requires |w| >= 1
    ensures Distinct(Suggestions(words, w))
  {
    FoldDistinct(words, [], Candidates(w));
  }

  ghost predicate IsDeletion(w: string, s: string)
  {
    exists i :: 0 <= i < |w| && s == w[..i] + w[i + 1..]
  }

  /** Same length, a letter A-Z at position `i`, the word's characters
      everywhere else. */
  ghost predicate IsReplacementAt(w: string, s: string, i: int)
  {
    && 0 <= i < |w| && |s| == |w| && s[i] in Letters
    && forall k :: 0 <= k < |w| && k != i ==> s[k] == w[k]
  }

  ghost predicate IsReplacement(w: string, s: string)
  {
    exists i :: IsReplacementAt(w, s, i)
  }

  ghost predicate IsSwap(w: string, s: string)
  {
    exists i :: 0 <= i && i + 1 < |w| && s == w[i := w[i + 1]][i + 1 := w[i]]
  }

  /** One letter A-Z inserted before position `i`, for `i` a position of the
      word: never after its last character. */
  ghost predicate IsInsertionAt(w: string, s: string, i: int)
  {
    && 0 <= i < |w| && |s| == |w| + 1 && s[i] in Letters
    && s == w[..i] + [s[i]] + w[i..]
  }

  ghost predicate IsInsertion(w: string, s: string)
  {
    exists i :: IsInsertionAt(w, s, i)
  }

  /** One of the two pieces the split phase tests at `i`. */
  ghost predicate IsSplitPieceAt(w: string, s: string, i: int)
  {
    0 <= i && i + 1 < |w| && (s == SubStr(w, i, i + 1) || s == w[i + 1..])
  }

  ghost predicate IsSplitPiece(w: string, s: string)
  {
    exists i :: IsSplitPieceAt(w, s, i)
  }

  /** The shapes a suggestion can have. */
  ghost predicate IsEdit(w: string, s: string)
  {
    IsDeletion(w, s) || IsReplacement(w, s) || IsSwap(w, s) || IsInsertion(w, s) || IsSplitPiece(w, s)
  }

  lemma ReplacementsShape(w: string, n: nat, k: nat)
    requires n <= |w| && k < |Replacements(w, n)|
    ensures Replacements(w, n)[k].Single? && IsReplacement(w, Replacements(w, n)[k].word)
  {
    if n > 0 {
      var p := Replacements(w, n - 1);
      if k < |p| {
        ReplacementsShape(w, n - 1, k);
      } else {
        var j := k - |p|;
        var s := w[n - 1 := Letters[j]];
        assert Replacements(w, n)[k] == Single(s);
        assert IsReplacementAt(w, s, n - 1);
      }
    }
  }

  lemma InsertionsShape(w: string, n: nat, k: nat)
    requires n <= |w| && k < |Insertions(w, n)|
    ensures Insertions(w, n)[k].Single? && IsInsertion(w, Insertions(w, n)[k].word)
  {
    if n > 0 {
      var p := Insertions(w, n - 1);
      if k < |p| {
        InsertionsShape(w, n - 1, k);
      } else {
        var j := k - |p|;
        var s := w[..n - 1] + [Letters[j]] + w[n - 1..];
        assert Insertions(w, n)[k] == Single(s);
        assert s[n - 1] == Letters[j];
        assert IsInsertionAt(w, s, n - 1);
      }
    }
  }

  lemma SplitsShape(w: string, k: nat)
    requires |w| >= 1 && k < |Splits(w)|
    ensures Splits(w)[k].Split?
    ensures IsSplitPiece(w, Splits(w)[k].first) && IsSplitPiece(w, Splits(w)[k].second)
  {
    assert IsSplitPieceAt(w, Splits(w)[k].first, k);
    assert IsSplitPieceAt(w, Splits(w)[k].second, k);
  }

  /** Every candidate has the shape of its phase. */
  lemma CandidateShape(w: string, k: nat, s: string)
    requires |w| >= 1 && k < |Candidates(w)| && s in Strings(Candidates(w)[k])
    ensures IsEdit(w, s)
  {
    var d, rp, sw, ins, sp := Deletions(w), Replacements(w, |w|), Swaps(w), Insertions(w, |w|), Splits(w);
    var cs := Candidates(w);
    var e := d + rp + sw + ins;
    assert cs == e + sp;
    if k < |e| {
      assert cs[k] == e[k];
      EditCandidateShape(w, k, s);
    } else {
      assert cs[k] == sp[k - |e|];
      SplitsShape(w, k - |e|);
    }
  }

  /** The same for the first four phases, whose candidates are single. */
  lemma EditCandidateShape(w: string, k: nat, s: string)
    requires |w| >= 1
    requires k < |Deletions(w) + Replacements(w, |w|) + Swaps(w) + Insertions(w, |w|)|
    requires s in Strings((Deletions(w) + Replacements(w, |w|) + Swaps(w) + Insertions(w, |w|))[k])
    ensures IsEdit(w, s)
  {
    var d, rp, sw, ins := Deletions(w), Replacements(w, |w|), Swaps(w), Insertions(w, |w|);
    var e := d + rp + sw;
    if k < |e| {
      assert (e + ins)[k] == e[k];
      var f := d + rp;
      if k < |f| {
        assert e[k] == f[k];
        if k < |d| {
          assert f[k] == d[k];
          assert IsDeletion(w, s);
        } else {
          assert f[k] == rp[k - |d|];
          ReplacementsShape(w, |w|, k - |d|);
        }
      } else {
        var i := k - |f|;
        assert e[k] == sw[i];
        assert IsSwap(w, s);
      }
    } else {
      assert (e + ins)[k] == ins[k - |e|];
      InsertionsShape(w, |w|, k - |e|);
    }
  }

  /** Every suggestion is the word with one character deleted, one position
      replaced by a letter, two adjacent characters swapped, one letter
      inserted, or one of the split pieces. */
  lemma SuggestionShape(words: set<string>, w: string, s: string)
    requires |w| >= 1 && s in Suggestions(words, w)
    ensures IsEdit(w, s)
  {
    FoldSound(words, [], Candidates(w), s);
    var k :| 0 <= k < |Candidates(w)| && s in Strings(Candidates(w)[k]);
    CandidateShape(w, k, s);
  }

  /** Deleting any one character, if that gives a word, gives a suggestion. */
  lemma DeletionSuggested(words: set<string>, w: string, i: nat)
    requires |w| >= 1 && i < |w| && w[..i] + w[i + 1..] in words
    ensures w[..i] + w[i + 1..] in Suggestions(words, w)
  {
    var cs := Candidates(w);
    assert cs[i] == Deletions(w)[i];
    FoldComplete(words, [], cs, i);
  }

  /** Swapping characters i and i+1, if that gives a word, gives a
      suggestion. */
  lemma SwapSuggested(words: set<string>, w: string, i: nat)
    requires i + 1 < |w| && w[i := w[i + 1]][i + 1 := w[i]] in words
    ensures w[i := w[i + 1]][i + 1 := w[i]] in Suggestions(words, w)
  {
    var cs := Candidates(w);
    var k := |Deletions(w)| + |Replacements(w, |w|)| + i;
    assert cs[k] == Swaps(w)[i];
    FoldComplete(words, [], cs, k);
  }

  lemma {:induction false} ReplacementsAt(w: string, n: nat, i: nat, j: nat)
    requires i < n <= |w| && j < |Letters|
    ensures |Replacements(w, n)| == n * |Letters|
    ensures Replacements(w, n)[i * |Letters| + j] == Single(w[i := Letters[j]])
  {
    if i < n - 1 {
      ReplacementsAt(w, n - 1, i, j);
    } else if n > 1 {
      ReplacementsAt(w, n - 1, 0, 0);
    }
  }

  lemma {:induction false} InsertionsAt(w: string, n: nat, i: nat, j: nat)
    requires i < n <= |w| && j < |Letters|
    ensures |Insertions(w, n)| == n * |Letters|
    ensures Insertions(w, n)[i * |Letters| + j] == Single(w[..i] + [Letters[j]] + w[i..])
  {
    if i < n - 1 {
      InsertionsAt(w, n - 1, i, j);
    } else if n > 1 {
      InsertionsAt(w, n - 1, 0, 0);
    }
  }

  /** Entry `j` of row `i` of a table of `n` rows of width `m` lies inside it. */
  lemma RowIndex(i: nat, j: nat, n: nat, m: nat)
    requires i < n && j < m
    ensures i * m + j < n * m
  {
    assert i * m + j < i * m + m == (i + 1) * m;
    assert (i + 1) * m <= n * m;
  }

  /** Putting letter `j` at position `i`, if that gives a word, gives a
      suggestion. */
  lemma ReplacementSuggested(words: set<string>, w: string, i: nat, j: nat)
    requires i < |w| && j < |Letters| && w[i := Letters[j]] in words
    ensures w[i := Letters[j]] in Suggestions(words, w)
  {
    var cs := Candidates(w);
    ReplacementsAt(w, |w|, i, j);
    RowIndex(i, j, |w|, |Letters|);
    var k := |Deletions(w)| + i * |Letters| + j;
    assert cs[k] == Replacements(w, |w|)[i * |Letters| + j];
    FoldComplete(words, [], cs, k);
  }

  /** Insertion candidate `m` sits after the deletions, replacements and swaps
      in the list of all candidates. */
  lemma InsertionCandidate(w: string, m: nat)
    requires |w| >= 1 && m < |Insertions(w, |w|)|
    ensures var k := |Deletions(w)| + |Replacements(w, |w|)| + |Swaps(w)| + m;
      k < |Candidates(w)| && Candidates(w)[k] == Insertions(w, |w|)[m]
  {
    var e := Deletions(w) + Replacements(w, |w|) + Swaps(w);
    var ins := Insertions(w, |w|);
    assert Candidates(w) == (e + ins) + Splits(w);
    assert (e + ins)[|e| + m] == ins[m];
  }

  /** Inserting letter `j` before position `i`, if that gives a word, gives a
      suggestion. */
  lemma InsertionSuggested(words: set<string>, w: string, i: nat, j: nat)
    requires i < |w| && j < |Letters| && w[..i] + [Letters[j]] + w[i..] in words
    ensures w[..i] + [Letters[j]] + w[i..] in Suggestions(words, w)
  {
    InsertionsAt(w, |w|, i, j);
    RowIndex(i, j, |w|, |Letters|);
    var m := i * |Letters| + j;
    InsertionCandidate(w, m);
    FoldComplete(words, [], Candidates(w), |Deletions(w)| + |Replacements(w, |w|)| + |Swaps(w)| + m);
  }

  /** When both split pieces at `i` are words, both are suggested. */
  lemma SplitSuggested(words: set<string>, w: string, i: nat)
    requires i + 1 < |w| && SubStr(w, i, i + 1) in words && w[i + 1..] in words
    ensures SubStr(w, i, i + 1) in Suggestions(words, w)
    ensures w[i + 1..] in Suggestions(words, w)
  {
    var cs := Candidates(w);
    var k := |Deletions(w)| + |Replacements(w, |w|)| + |Swaps(w)| + |Insertions(w, |w|)| + i;
    assert cs[k] == Splits(w)[i];
    FoldComplete(words, [], cs, k);
  }

  /** The split phase does not split the word in two: at i = 1 of "ABCD" it
      tests "BC" and "CD", not "AB" and "CD". */
  lemma SplitPiecesOverlap()
    ensures Splits("ABCD")[1] == Split("BC", "CD")
  {
  }

  /** WordChecker_SanityCheckTests.cpp:44-56: with the words ABDC and ZZZZZ,
      the suggestions for ABCD are exactly ABDC. */
  lemma SanityCheckSuggestions()
    ensures Suggestions({"ABDC", "ZZZZZ"}, "ABCD") == ["ABDC"]
  {
    var words, w := {"ABDC", "ZZZZZ"}, "ABCD";
    var r := Suggestions(words, w);
    assert w[2 := w[3]][3 := w[2]] == "ABDC";
    SwapSuggested(words, w, 2);
    SuggestionsAreWords(words, w);
    SuggestionsAreDistinct(words, w);
    NotAnEditOfABCD();
    forall s | s in r ensures s == "ABDC" {
      SuggestionShape(words, w, s);
    }
    OnlyElement(r, "ABDC");
  }

  /** ZZZZZ is none of the edits of ABCD: the only five-letter edits are
      insertions, and those end with D. */
  lemma NotAnEditOfABCD()
    ensures !IsEdit("ABCD", "ZZZZZ")
  {
    var w, s := "ABCD", "ZZZZZ";
    forall i | 0 <= i < |w| ensures s != w[..i] + w[i + 1..] {
      assert |w[..i] + w[i + 1..]| == 3;
    }
    forall i ensures !IsReplacementAt(w, s, i) {
    }
    forall i | 0 <= i && i + 1 < |w| ensures s != w[i := w[i + 1]][i + 1 := w[i]] {
    }
    forall i ensures !IsInsertionAt(w, s, i) {
      if 0 <= i < |w| && |s| == |w| + 1 {
        assert (w[..i] + [s[i]] + w[i..])[4] == 'D';
      }
    }
    forall i ensures !IsSplitPieceAt(w, s, i) {
      if 0 <= i && i + 1 < |w| {
        assert |SubStr(w, i, i + 1)| <= |w| && |w[i + 1..]| < |w|;
      }
    }
  }
}
