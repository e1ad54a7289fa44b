/**
 * Argument splitting of the shell commands: `do_mv` and `do_cp` match
 * `([^\s]+)\s+([^\s]+)\s*$` and `do_rm` matches `([^\s]+)\s*$`, each with
 * `re.match`, so the match is anchored at the start of the line.
 */
module Arguments {
  import opened Wrappers

  /** Python's `\s` on `str`: exactly the characters for which `str.isspace()` holds. */
  predicate IsSpace(c: char)
  {
    c == ' ' || '\t' <= c <= '\r' || '\U{1C}' <= c <= '\U{1F}' || c == '\U{85}' || c == '\U{A0}' ||
    c == '\U{1680}' || '\U{2000}' <= c <= '\U{200A}' || c == '\U{2028}' || c == '\U{2029}' ||
    c == '\U{202F}' || c == '\U{205F}' || c == '\U{3000}'
  }

  /** What `[^\s]+` matches. */
  predicate Word(w: string)
  {
    |w| > 0 && forall i :: 0 <= i < |w| ==> !IsSpace(w[i])
  }

  /** What `\s*` matches. */
  predicate Spaces(w: string)
  {
    forall i :: 0 <= i < |w| ==> IsSpace(w[i])
  }

  /** The end of the run of non-whitespace characters starting at `i`. */
  function WordEnd(s: string, i: nat): (j: nat)
    requires i <= |s|
    ensures i <= j <= |s| && (forall k :: i <= k < j ==> !IsSpace(s[k])) && (j < |s| ==> IsSpace(s[j]))
    decreases |s| - i
  {
    if i < |s| && !IsSpace(s[i]) then WordEnd(s, i + 1) else i
  }

  /** The end of the run of whitespace starting at `i`. */
  function SpaceEnd(s: string, i: nat): (j: nat)
    requires i <= |s|
    ensures i <= j <= |s| && (forall k :: i <= k < j ==> IsSpace(s[k])) && (j < |s| ==> !IsSpace(s[j]))
    decreases |s| - i
  {
    if i < |s| && IsSpace(s[i]) then SpaceEnd(s, i + 1) else i
  }

  /**
   * The groups of `([^\s]+)\s+([^\s]+)\s*$`, or `None` when the line does
   * not match. Neither group can stop short of a whitespace character, so
   * the maximal runs are the only way to match.
   */
  function TwoWords(arg: string): (r: Option<(string, string)>)
    ensures r.Some? ==> Word(r.value.0) && Word(r.value.1)
  {
    var a := WordEnd(arg, 0);
    var b := SpaceEnd(arg, a);
    var c := WordEnd(arg, b);
    if 0 < a < b < c && SpaceEnd(arg, c) == |arg| then Some((arg[..a], arg[b..c])) else None
  }

  /** The group of `([^\s]+)\s*$`, or `None` when the line does not match. */
  function OneWord(arg: string): (r: Option<string>)
    ensures r.Some? ==> Word(r.value)
  {
    var a := WordEnd(arg, 0);
    if 0 < a && SpaceEnd(arg, a) == |arg| then Some(arg[..a]) else None
  }

  /** A line is a word, a non-empty run of whitespace, a word, and trailing whitespace. */
  predicate TwoWordLine(arg: string, x: string, gap: string, y: string, tail: string)
  {
    Word(x) && |gap| > 0 && Spaces(gap) && Word(y) && Spaces(tail) && arg == x + gap + y + tail
  }

  /** Walking from `i` over a word that is followed by whitespace or the end stops right after the word. */
  lemma WordAt(s: string, i: nat, w: string, r: string)
    requires i <= |s| && s[i..] == w + r && Word(w) && (|r| > 0 ==> IsSpace(r[0]))
    ensures WordEnd(s, i) == i + |w|
  {
    var j := WordEnd(s, i);
    assert forall k :: i <= k < i + |w| ==> s[k] == w[k - i] by {
      forall k | i <= k < i + |w| ensures s[k] == w[k - i] {
        assert s[k] == s[i..][k - i];
      }
    }
    if i + |w| < |s| {
      assert s[i + |w|] == s[i..][|w|] == r[0];
    }
  }

  /** Walking from `i` over whitespace that is followed by a word or the end stops right after the whitespace. */
  lemma SpaceAt(s: string, i: nat, w: string, r: string)
    requires i <= |s| && s[i..] == w + r && Spaces(w) && (|r| > 0 ==> !IsSpace(r[0]))
    ensures SpaceEnd(s, i) == i + |w|
  {
    var j := SpaceEnd(s, i);
    assert forall k :: i <= k < i + |w| ==> s[k] == w[k - i] by {
      forall k | i <= k < i + |w| ensures s[k] == w[k - i] {
        assert s[k] == s[i..][k - i];
      }
    }
    if i + |w| < |s| {
      assert s[i + |w|] == s[i..][|w|] == r[0];
    }
  }

  /** Dropping a prefix of a suffix drops both. */
  lemma DropDrop(s: string, i: nat, p: string, q: string)
    requires i <= |s| && s[i..] == p + q
    ensures i + |p| <= |s| && s[i + |p|..] == q
  {
    assert |s[i..]| == |s| - i;
    assert forall k :: 0 <= k < |q| ==> s[i + |p|..][k] == q[k] by {
      forall k | 0 <= k < |q| ensures s[i + |p|..][k] == q[k] {
        assert s[i + |p| + k] == s[i..][|p| + k];
      }
    }
  }

  /** The groups, once the four runs are known. */
  lemma TwoWordsAt(arg: string, a: nat, b: nat, c: nat)
    requires 0 < a < b < c <= |arg|
    requires WordEnd(arg, 0) == a && SpaceEnd(arg, a) == b && WordEnd(arg, b) == c && SpaceEnd(arg, c) == |arg|
    ensures TwoWords(arg) == Some((arg[..a], arg[b..c]))
  {
  }

  /** Every line of that shape matches, and the groups are its two words. */
  lemma TwoWordsComplete(arg: string, x: string, gap: string, y: string, tail: string)
    requires TwoWordLine(arg, x, gap, y, tail)
    ensures TwoWords(arg) == Some((x, y))
  {
    var a := |x|;
    var b := a + |gap|;
    var c := b + |y|;
    assert arg[0..] == x + (gap + (y + tail));
    WordAt(arg, 0, x, gap + (y + tail));
    DropDrop(arg, 0, x, gap + (y + tail));
    SpaceAt(arg, a, gap, y + tail);
    DropDrop(arg, a, gap, y + tail);
    WordAt(arg, b, y, tail);
    DropDrop(arg, b, y, tail);
    assert arg[c..] == tail + "";
    SpaceAt(arg, c, tail, "");
    TwoWordsAt(arg, a, b, c);
    assert arg[..a] == x;
    assert arg[b..c] == arg[b..][..|y|] == y;
  }

  /** Every matching line has that shape, with the groups as its words. */
  lemma TwoWordsSound(arg: string) returns (gap: string, tail: string)
    requires TwoWords(arg).Some?
    ensures TwoWordLine(arg, TwoWords(arg).value.0, gap, TwoWords(arg).value.1, tail)
  {
    var a := WordEnd(arg, 0);
    var b := SpaceEnd(arg, a);
    var c := WordEnd(arg, b);
    gap := arg[a..b];
    tail := arg[c..];
    assert arg == arg[..a] + gap + arg[b..c] + tail;
  }

  /** `f"{x} {y}"` for two words gives back exactly those words. */
  lemma JoinedWords(x: string, y: string)
    requires Word(x) && Word(y)
    ensures TwoWords(x + " " + y) == Some((x, y))
  {
    TwoWordsComplete(x + " " + y, x, " ", y, "");
  }

  /** A line that starts with whitespace, such as `f"{x} {y}"` with an empty `x`, never matches. */
  lemma LeadingSpaceRefused(arg: string)
    requires |arg| > 0 && IsSpace(arg[0])
    ensures TwoWords(arg).None? && OneWord(arg).None?
  {
  }

  /** A word followed by nothing but whitespace, such as `f"{x} {y}"` with a blank `y`, has no second word and never matches. */
  lemma BlankSecondRefused(x: string, y: string)
    requires Word(x) && Spaces(y)
    ensures TwoWords(x + " " + y).None?
  {
    var arg := x + " " + y;
    assert arg[0..] == x + (" " + y);
    WordAt(arg, 0, x, " " + y);
    DropDrop(arg, 0, x, " " + y);
    SpaceAt(arg, |x|, " " + y, "");
  }

  /** `([^\s]+)\s*$` matches exactly a word followed by whitespace, and its group is the word. */
  lemma OneWordIff(arg: string, x: string, tail: string)
    requires arg == x + tail && Spaces(tail)
    ensures OneWord(arg) == Some(x) <==> Word(x)
  {
    if Word(x) {
      assert arg[0..] == x + tail;
      WordAt(arg, 0, x, tail);
      DropDrop(arg, 0, x, tail);
      SpaceAt(arg, |x|, tail, "");
      assert arg[..|x|] == x;
    }
  }
}
