/**
 * A challenge of the progression mode: a difficulty, the size of the maze
 * to play and its third parameter (wall percentage or minimal solution
 * length), plus a flag set once the player has completed it.
 */
module Challenges {
  import opened Difficulties
  import opened Text

  predicate EndsWith(s: string, suffix: string) {
    |suffix| <= |s| && s[|s| - |suffix|..] == suffix
  }

  const ValidatedMark: string := " [VALIDÉ]"

  class Challenge {
    const difficulty: Difficulty
    var valid: bool
    const width: int
    const height: int
    const mazeParam: int

    /** A challenge starts out not validated. */
    constructor (difficulty: Difficulty, width: int, height: int, mazeParam: int)
      ensures this.difficulty == difficulty && this.width == width && this.height == height
      ensures this.mazeParam == mazeParam && !valid
    {
      this.difficulty := difficulty;
      this.width := width;
      this.height := height;
      this.mazeParam := mazeParam;
      valid := false;
    }

    function IsValid(): bool
      reads this
    {
      valid
    }

    /** Marks the challenge as completed; calling it again changes nothing. */
    method ValidateChallenge()
      modifies this
      ensures valid
    {
      valid := true;
    }

    /** The text before the optional mark: difficulty, height x width, and the parameter. */
    function Summary(): (s: string)
      ensures s == difficulty.Label() + " -  " + IntToString(height) + "x" + IntToString(width) + ", param: " + IntToString(mazeParam)
      ensures |difficulty.Label()| <= |s| && s[..|difficulty.Label()|] == difficulty.Label()
      ensures |s| >= 1 && IsDigit(s[|s| - 1])
    {
      var s := difficulty.Label() + " -  " + IntToString(height) + "x" + IntToString(width) + ", param: " + IntToString(mazeParam);
      assert s[..|difficulty.Label()|] == difficulty.Label() by {
        var name := difficulty.Label();
        assert forall i | 0 <= i < |name| :: s[i] == name[i];
      }
      s
    }

    /**
     * The textual form: the difficulty label first, and the mark
     * " [VALIDÉ]" at the end exactly when the challenge is validated.
     */
    function ToString(): (s: string)
      reads this
      ensures |difficulty.Label()| <= |s| && s[..|difficulty.Label()|] == difficulty.Label()
      ensures EndsWith(s, ValidatedMark) <==> valid
    {
      var sum := Summary();
      Marked(sum);
      PrefixKept(difficulty.Label(), sum, ValidatedMark);
      if valid then sum + ValidatedMark else sum
    }
  }

  /**
   * The text before the mark tells the size and the parameter back: two
   * challenges of one difficulty with the same summary have the same
   * height, width and parameter.
   */
  lemma SummaryDetermines(c: Challenge, e: Challenge)
    requires c.difficulty == e.difficulty && c.Summary() == e.Summary()
    ensures c.height == e.height && c.width == e.width && c.mazeParam == e.mazeParam
  {
    var head := c.difficulty.Label() + " -  ";
    var h1, w1, p1 := IntToString(c.height), IntToString(c.width), IntToString(c.mazeParam);
    var h2, w2, p2 := IntToString(e.height), IntToString(e.width), IntToString(e.mazeParam);
    NoSeparator(c.height, 'x'); NoSeparator(e.height, 'x');
    NoSeparator(c.width, ','); NoSeparator(e.width, ',');
    var r1 := SummaryShape(c.difficulty.Label(), h1, w1, p1);
    var r2 := SummaryShape(c.difficulty.Label(), h2, w2, p2);
    assert h1 + ['x'] + r1 == h2 + ['x'] + r2 by {
      assert h1 + ['x'] + r1 == c.Summary()[|head|..];
    }
    SplitAt(h1, r1, h2, r2, 'x');
    SplitAt(w1, " param: " + p1, w2, " param: " + p2, ',');
    assert p1 == (" param: " + p1)[8..] == (" param: " + p2)[8..] == p2;
    IntToStringInjective(c.height, e.height);
    IntToStringInjective(c.width, e.width);
    IntToStringInjective(c.mazeParam, e.mazeParam);
  }

  /** The summary as the head, the height, an 'x', then the width, a ',' and the parameter. */
  lemma SummaryShape(name: string, h: string, w: string, p: string) returns (rest: string)
    ensures rest == w + [','] + (" param: " + p)
    ensures name + " -  " + h + "x" + w + ", param: " + p == (name + " -  ") + (h + ['x'] + rest)
  {
    rest := w + [','] + (" param: " + p);
    assert w + ", param: " + p == w + [','] + (" param: " + p);
  }

  /** A rendered int holds no letter and no comma. */
  lemma NoSeparator(n: int, sep: char)
    requires sep == 'x' || sep == ','
    ensures sep !in IntToString(n)
  {
  }

  /** Text cut at the first `sep` gives back what stands before and after it. */
  lemma SplitAt(a1: string, r1: string, a2: string, r2: string, sep: char)
    requires sep !in a1 && sep !in a2 && a1 + [sep] + r1 == a2 + [sep] + r2
    ensures a1 == a2 && r1 == r2
  {
    var t := a1 + [sep] + r1;
    assert forall i | 0 <= i < |a1| :: t[i] == a1[i];
    assert forall i | 0 <= i < |a2| :: t[i] == a2[i];
    assert t[|a1|] == sep && t[|a2|] == sep;
    assert a1 == t[..|a1|] == a2;
    assert r1 == t[|a1| + 1..] == r2;
  }

  /** Appending to a text keeps its prefixes. */
  lemma PrefixKept(a: string, s: string, m: string)
    requires |a| <= |s| && s[..|a|] == a
    ensures (s + m)[..|a|] == a
  {
    assert (s + m)[..|a|] == s[..|a|];
  }

  /** A text ending in a digit does not carry the mark, and carries it once the mark is appended. */
  lemma Marked(s: string)
    requires |s| >= 1 && IsDigit(s[|s| - 1])
    ensures !EndsWith(s, ValidatedMark)
    ensures EndsWith(s + ValidatedMark, ValidatedMark)
  {
    var t := s + ValidatedMark;
    assert t[|t| - |ValidatedMark|..] == ValidatedMark;
    var m := ValidatedMark;
    assert s[|s| - 1] != m[|m| - 1];
    if |m| <= |s| {
      assert s[|s| - |m|..][|m| - 1] == s[|s| - 1];
    }
  }
}
